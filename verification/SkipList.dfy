/** The skip list behind a memtable (db/skiplist.h), as nodes in an arena. */
module SkipLists {
  import opened DbFormat
  import SortedEntries

  const MAX_HEIGHT: nat := 12

  /** A node: its entry and its tower of links; the arena index stands for the pointer. */
  datatype Node = Node(entry: Entry, next: seq<Option<nat>>)

  /** The arena, whose node 0 is the head, the height of the list, and, for the proof, the nodes on
      each level in order. */
  datatype Shared = Shared(arena: seq<Node>, maxHeight: nat, levels: seq<seq<nat>>)

  ghost predicate HasLevel(arena: seq<Node>, n: nat, l: nat) {
    n < |arena| && l < |arena[n].next|
  }

  /** What follows the first i nodes of a level. */
  function Following(level: seq<nat>, i: nat): Option<nat>
    requires i <= |level|
  {
    if i < |level| then Some(level[i]) else None
  }

  /** The node before position i of a level; the head before the first. */
  function Before(level: seq<nat>, i: nat): nat
    requires i <= |level|
  {
    if i == 0 then 0 else level[i - 1]
  }

  function EntryLess(a: Entry, b: Entry): bool { Less(a.Key(), b.Key()) }

  /** One level is a sorted list from the head. */
  ghost predicate LevelOk(arena: seq<Node>, level: seq<nat>, l: nat) {
    && HasLevel(arena, 0, l)
    && (forall i :: 0 <= i < |level| ==> level[i] > 0 && HasLevel(arena, level[i], l))
    && (forall i, j :: 0 <= i < j < |level| ==> EntryLess(arena[level[i]].entry, arena[level[j]].entry))
    && (forall i :: 0 <= i <= |level| ==> arena[Before(level, i)].next[l] == Following(level, i))
  }

  ghost predicate PartOfBelow(levels: seq<seq<nat>>, l: nat)
    requires 0 < l < |levels|
  {
    forall n :: n in levels[l] ==> n in levels[l - 1]
  }

  /** Every level is a sorted list and part of the level below. */
  ghost predicate Valid(s: Shared) {
    && |s.levels| == MAX_HEIGHT && 1 <= s.maxHeight <= MAX_HEIGHT
    && (forall l :: 0 <= l < MAX_HEIGHT ==> LevelOk(s.arena, s.levels[l], l))
    && (forall l :: 0 < l < MAX_HEIGHT ==> PartOfBelow(s.levels, l))
    && (forall l :: s.maxHeight <= l < MAX_HEIGHT ==> s.levels[l] == [])
  }

  /** The entries in the list, in order. */
  ghost function EntriesAt(arena: seq<Node>, level: seq<nat>): (r: seq<Entry>)
    requires forall i :: 0 <= i < |level| ==> level[i] < |arena|
    ensures |r| == |level| && forall i :: 0 <= i < |r| ==> r[i] == arena[level[i]].entry
  {
    seq(|level|, i requires 0 <= i < |level| => arena[level[i]].entry)
  }

  ghost function Contents(s: Shared): seq<Entry>
    requires Valid(s)
  {
    assert LevelOk(s.arena, s.levels[0], 0);
    EntriesAt(s.arena, s.levels[0])
  }

  // ---- What the writer does to the list ----------------------------------------------------------

  /** A list that readers may meet later: nodes and their entries stay, and no level loses a node. */
  ghost predicate Grows(s: Shared, t: Shared) {
    && Valid(s) && Valid(t) && |s.arena| <= |t.arena|
    && (forall n :: 0 <= n < |s.arena| ==>
      t.arena[n].entry == s.arena[n].entry && |t.arena[n].next| == |s.arena[n].next|)
    && forall l, n :: 0 <= l < MAX_HEIGHT && n in s.levels[l] ==> n in t.levels[l]
  }

  lemma GrowsAgain(s: Shared, t: Shared, u: Shared)
    requires Grows(s, t) && Grows(t, u)
    ensures Grows(s, u)
  {
    hide LevelOk;
    forall n | 0 <= n < |s.arena| ensures u.arena[n].entry == s.arena[n].entry &&
        |u.arena[n].next| == |s.arena[n].next| {
      assert t.arena[n].entry == s.arena[n].entry;
    }
  }

  /** A new node that nothing points to, and a taller list. */
  ghost predicate Allocates(s: Shared, t: Shared, e: Entry, height: nat) {
    && 1 <= height <= MAX_HEIGHT
    && t == Shared(s.arena + [Node(e, seq(height, _ => None))], if height > s.maxHeight then height else s.maxHeight,
      s.levels)
  }

  lemma AllocatesGrows(s: Shared, t: Shared, e: Entry, height: nat)
    requires Valid(s) && Allocates(s, t, e, height)
    ensures Grows(s, t)
  {
    forall l | 0 <= l < MAX_HEIGHT ensures LevelOk(t.arena, t.levels[l], l) { assert LevelOk(s.arena, s.levels[l], l); }
  }

  /** Node x is linked in at position p of level l: first its own link, then its predecessor's. */
  ghost function Linked(s: Shared, x: nat, l: nat, p: nat): Shared
    requires |s.levels| == MAX_HEIGHT && l < MAX_HEIGHT && p <= |s.levels[l]|
    requires HasLevel(s.arena, x, l) && HasLevel(s.arena, Before(s.levels[l], p), l)
  {
    var before := Before(s.levels[l], p);
    var own := s.arena[x := s.arena[x].(next := s.arena[x].next[l := Following(s.levels[l], p)])];
    s.(arena := own[before := own[before].(next := own[before].next[l := Some(x)])],
       levels := s.levels[l := s.levels[l][..p] + [x] + s.levels[l][p..]])
  }

  /** The state between the two stores. */
  ghost function HalfLinked(s: Shared, x: nat, l: nat, p: nat): Shared
    requires |s.levels| == MAX_HEIGHT && l < MAX_HEIGHT && p <= |s.levels[l]| && HasLevel(s.arena, x, l)
  {
    s.(arena := s.arena[x := s.arena[x].(next := s.arena[x].next[l := Following(s.levels[l], p)])])
  }

  /** Readers cannot tell the state between the two stores from the one before: on this level nothing
      leads to the new node yet. */
  lemma HalfLinkGrows(s: Shared, x: nat, l: nat, p: nat)
    requires Valid(s) && l < s.maxHeight && x > 0 && HasLevel(s.arena, x, l) && Belongs(s, l, p, s.arena[x].entry)
    requires (l > 0 ==> x in s.levels[l - 1]) && x !in s.levels[l]
    ensures HasLevel(s.arena, Before(s.levels[l], p), l)
    ensures Grows(s, HalfLinked(s, x, l, p)) && Grows(HalfLinked(s, x, l, p), Linked(s, x, l, p))
  {
    var t := HalfLinked(s, x, l, p);
    assert LevelOk(s.arena, s.levels[l], l);
    forall n | 0 <= n < |s.arena| ensures t.arena[n].entry == s.arena[n].entry &&
        |t.arena[n].next| == |s.arena[n].next| {}
    forall k | 0 <= k < MAX_HEIGHT ensures LevelOk(t.arena, t.levels[k], k) {
      assert LevelOk(s.arena, s.levels[k], k);
      forall i | 0 <= i <= |s.levels[k]| ensures t.arena[Before(s.levels[k], i)].next[k] == Following(s.levels[k], i) {}
    }
    LinkGrows(t, x, l, p);
    assert t.arena[x].next[l := Following(t.levels[l], p)] == t.arena[x].next;
    assert Linked(t, x, l, p).arena == Linked(s, x, l, p).arena;
  }

  /** Position p of level l is where entry e belongs. */
  ghost predicate Belongs(s: Shared, l: nat, p: nat, e: Entry) {
    && l < |s.levels| && p <= |s.levels[l]| && (forall i :: 0 <= i < |s.levels[l]| ==> s.levels[l][i] < |s.arena|)
    && (forall i :: 0 <= i < p ==> EntryLess(s.arena[s.levels[l][i]].entry, e))
    && (forall i :: p <= i < |s.levels[l]| ==> EntryLess(e, s.arena[s.levels[l][i]].entry))
  }

  /** After every single link the list is again sorted on every level, each part of the one below. */
  lemma LinkGrows(s: Shared, x: nat, l: nat, p: nat)
    requires Valid(s) && l < s.maxHeight && x > 0 && HasLevel(s.arena, x, l) && Belongs(s, l, p, s.arena[x].entry)
    requires l > 0 ==> x in s.levels[l - 1]
    requires x !in s.levels[l]
    ensures HasLevel(s.arena, Before(s.levels[l], p), l)
    ensures Grows(s, Linked(s, x, l, p))
  {
    assert LevelOk(s.arena, s.levels[l], l);
    var t := Linked(s, x, l, p);
    forall k | 0 <= k < MAX_HEIGHT ensures LevelOk(t.arena, t.levels[k], k) {
      assert LevelOk(s.arena, s.levels[k], k);
      if k == l { LinkedLevel(s, x, l, p); } else { OtherLevel(s, x, l, p, k); }
    }
    forall k, n | 0 <= k < MAX_HEIGHT && n in s.levels[k] ensures n in t.levels[k] {
      if k == l { assert s.levels[l] == s.levels[l][..p] + s.levels[l][p..]; }
    }
    forall k | 0 < k < MAX_HEIGHT ensures PartOfBelow(t.levels, k) {
      assert PartOfBelow(s.levels, k);
      var was := s.levels[l];
      assert was == was[..p] + was[p..];
      forall n | n in t.levels[k] ensures n in t.levels[k - 1] {
        assert k == l ==> n == x || n in was;
        assert n in s.levels[k - 1];
      }
    }
  }

  lemma OtherLevel(s: Shared, x: nat, l: nat, p: nat, k: nat)
    requires Valid(s) && l < s.maxHeight && HasLevel(s.arena, x, l) && p <= |s.levels[l]|
    requires HasLevel(s.arena, Before(s.levels[l], p), l)
    requires k != l && k < MAX_HEIGHT && LevelOk(s.arena, s.levels[k], k)
    ensures LevelOk(Linked(s, x, l, p).arena, Linked(s, x, l, p).levels[k], k)
  {}

  lemma LinkedLevel(s: Shared, x: nat, l: nat, p: nat)
    requires Valid(s) && l < s.maxHeight && x > 0 && HasLevel(s.arena, x, l) && Belongs(s, l, p, s.arena[x].entry)
    requires x !in s.levels[l] && LevelOk(s.arena, s.levels[l], l) && HasLevel(s.arena, Before(s.levels[l], p), l)
    ensures LevelOk(Linked(s, x, l, p).arena, Linked(s, x, l, p).levels[l], l)
  {
    var t := Linked(s, x, l, p);
    var was, now := s.levels[l], t.levels[l];
    forall i | 0 <= i < |now| ensures now[i] == if i < p then was[i] else if i == p then x else was[i - 1] {}
    forall n | 0 <= n < |s.arena| ensures t.arena[n].entry == s.arena[n].entry &&
        |t.arena[n].next| == |s.arena[n].next| {}
    forall i, j | 0 <= i < j < |now| ensures EntryLess(t.arena[now[i]].entry, t.arena[now[j]].entry) {}
    forall i | 0 <= i <= |now| ensures t.arena[Before(now, i)].next[l] == Following(now, i) {
      LinkedAt(s, x, l, p, i);
    }
  }

  lemma LinkedAt(s: Shared, x: nat, l: nat, p: nat, i: nat)
    requires Valid(s) && l < s.maxHeight && x > 0 && HasLevel(s.arena, x, l) && p <= |s.levels[l]|
    requires x !in s.levels[l] && LevelOk(s.arena, s.levels[l], l) && HasLevel(s.arena, Before(s.levels[l], p), l)
    requires i <= |s.levels[l]| + 1
    ensures var t := Linked(s, x, l, p);
            Before(t.levels[l], i) < |t.arena| && l < |t.arena[Before(t.levels[l], i)].next|
            && t.arena[Before(t.levels[l], i)].next[l] == Following(t.levels[l], i)
  {
    var t := Linked(s, x, l, p);
    var was, now := s.levels[l], t.levels[l];
    var before := Before(was, p);
    assert before != x;
    if i < p {
      assert Before(now, i) == Before(was, i) && Following(now, i) == Following(was, i);
      Distinct(s, l, i, p);
    } else if i == p {
      assert Before(now, i) == before && Following(now, i) == Some(x);
    } else if i == p + 1 {
      assert Before(now, i) == x && Following(now, i) == Following(was, p);
    } else {
      assert Before(now, i) == Before(was, i - 1) && Following(now, i) == Following(was, i - 1);
      Distinct(s, l, i - 1, p);
    }
  }

  /** Different positions have different predecessors. */
  lemma Distinct(s: Shared, l: nat, i: nat, j: nat)
    requires l < |s.levels| && LevelOk(s.arena, s.levels[l], l) && i <= |s.levels[l]| && j <= |s.levels[l]| && i != j
    ensures Before(s.levels[l], i) != Before(s.levels[l], j)
  {
    var level := s.levels[l];
    if i > 0 && j > 0 {
      assert i < j ==> EntryLess(s.arena[level[i - 1]].entry, s.arena[level[j - 1]].entry);
      assert j < i ==> EntryLess(s.arena[level[j - 1]].entry, s.arena[level[i - 1]].entry);
    }
  }

  // ---- Searching ---------------------------------------------------------------------------------

  /** Node x stands at position i of its level, the head at position 0. */
  ghost predicate At(s: Shared, l: nat, x: nat, i: nat) {
    l < |s.levels| && i <= |s.levels[l]| && x == Before(s.levels[l], i)
  }

  /** A node of level l + 1 has its place on level l too. */
  lemma GoDown(s: Shared, l: nat, x: nat, i: nat) returns (j: nat)
    requires Valid(s) && 0 < l < MAX_HEIGHT && At(s, l, x, i)
    ensures At(s, l - 1, x, j)
  {
    if i == 0 {
      j := 0;
    } else {
      assert PartOfBelow(s.levels, l);
      assert x in s.levels[l];
      var k :| 0 <= k < |s.levels[l - 1]| && s.levels[l - 1][k] == x;
      j := k + 1;
    }
  }

  /** What a search compares against: the first entry at or after the target. */
  ghost predicate FirstAtLeast(s: Shared, target: IKey, r: Option<nat>)
    requires Valid(s)
  {
    && (r.None? ==> forall i :: 0 <= i < |Contents(s)| ==> Less(Contents(s)[i].Key(), target))
    && (r.Some? ==> exists i :: 0 <= i < |Contents(s)| && s.levels[0][i] == r.value && IsFirst(Contents(s), target, i))
  }

  ghost predicate IsFirst(es: seq<Entry>, target: IKey, i: nat)
    requires i < |es|
  {
    !Less(es[i].Key(), target) && forall j :: 0 <= j < i ==> Less(es[j].Key(), target)
  }

  /** KeyIsAfterNode. */
  predicate KeyIsAfterNode(arena: seq<Node>, target: IKey, n: Option<nat>)
    requires n.Some? ==> n.value < |arena|
  {
    n.Some? && Less(arena[n.value].entry.Key(), target)
  }

  /** Standing before the target with nothing before it ahead decides the search. */
  lemma SearchEnds(s: Shared, target: IKey, i: nat)
    requires Valid(s) && i <= |s.levels[0]| && LevelOk(s.arena, s.levels[0], 0)
    requires i > 0 ==> Less(s.arena[s.levels[0][i - 1]].entry.Key(), target)
    requires !KeyIsAfterNode(s.arena, target, Following(s.levels[0], i))
    ensures FirstAtLeast(s, target, Following(s.levels[0], i))
  {
    var es := Contents(s);
    forall j | 0 <= j < i ensures Less(es[j].Key(), target) {
      if j < i - 1 { assert EntryLess(es[j], es[i - 1]); }
    }
    if i < |es| { assert IsFirst(es, target, i); }
  }

  class SkipList {
    var arena: seq<Node>
    var maxHeight: nat
    ghost var levels: seq<seq<nat>>

    ghost function Now(): Shared
      reads this
    {
      Shared(arena, maxHeight, levels)
    }

    constructor ()
      ensures Valid(Now()) && Contents(Now()) == []
    {
      arena := [Node(Entry(0.0, 0, Value, []), seq(MAX_HEIGHT, _ => None))];
      maxHeight := 1;
      levels := seq(MAX_HEIGHT, _ => []);
    }

    /** FindGreaterOrEqual: the first node at or after the target, and the nodes before it on every level. */
    method FindGreaterOrEqual(target: IKey) returns (r: Option<nat>, prev: seq<nat>, ghost places: seq<nat>)
      requires Valid(Now())
      ensures FirstAtLeast(Now(), target, r)
      ensures |prev| == |places| == maxHeight && forall l :: 0 <= l < maxHeight ==>
          Precedes(Now(), target, l, prev[l], places[l])
    {
      hide FirstAtLeast;
      var x: nat, level: nat := 0, maxHeight - 1;
      ghost var i: nat := 0;
      prev, places := seq(maxHeight, _ => 0), seq(maxHeight, _ => 0);
      while true
        invariant level < maxHeight && At(Now(), level, x, i) && |prev| == |places| == maxHeight
        invariant i > 0 ==> Less(arena[x].entry.Key(), target)
        invariant forall l :: level < l < maxHeight ==> Precedes(Now(), target, l, prev[l], places[l])
        decreases level, |levels[level]| - i
      {
        assert LevelOk(arena, levels[level], level);
        var next := arena[x].next[level];
        if KeyIsAfterNode(arena, target, next) {
          x := next.value;
          i := i + 1;
        } else {
          prev, places := prev[level := x], places[level := i];
          PrecedesAt(Now(), target, level, x, i);
          if level == 0 {
            SearchEnds(Now(), target, i);
            return next, prev, places;
          }
          i := GoDown(Now(), level, x, i);
          level := level - 1;
        }
      }
    }

    /** FindLessThan: the last node before the target; the head if there is none. */
    method FindLessThan(target: IKey) returns (x: nat, ghost i: nat)
      requires Valid(Now())
      ensures Precedes(Now(), target, 0, x, i)
    {
      var level: nat := maxHeight - 1;
      x, i := 0, 0;
      while true
        invariant level < maxHeight && At(Now(), level, x, i)
        invariant i > 0 ==> Less(arena[x].entry.Key(), target)
        decreases level, |levels[level]| - i
      {
        assert LevelOk(arena, levels[level], level);
        var next := arena[x].next[level];
        if next.None? || !Less(arena[next.value].entry.Key(), target) {
          if level == 0 {
            PrecedesAt(Now(), target, 0, x, i);
            return;
          }
          i := GoDown(Now(), level, x, i);
          level := level - 1;
        } else {
          x := next.value;
          i := i + 1;
        }
      }
    }

    /** FindLast: the last node; the head if the list is empty. */
    method FindLast() returns (x: nat)
      requires Valid(Now())
      ensures x == Before(levels[0], |levels[0]|)
    {
      var level: nat := maxHeight - 1;
      x := 0;
      ghost var i: nat := 0;
      while true
        invariant level < maxHeight && At(Now(), level, x, i)
        decreases level, |levels[level]| - i
      {
        assert LevelOk(arena, levels[level], level);
        var next := arena[x].next[level];
        if next.None? {
          if level == 0 { return; }
          i := GoDown(Now(), level, x, i);
          level := level - 1;
        } else {
          x := next.value;
          i := i + 1;
        }
      }
    }

    /** Insert, with the height that was drawn: after every link the list is valid and has grown. */
    method Insert(e: Entry, height: nat)
      requires Valid(Now()) && 1 <= height <= MAX_HEIGHT
      requires forall x :: x in Contents(Now()) ==> x.Key() != e.Key()
      modifies this
      ensures Grows(old(Now()), Now())
      ensures Contents(Now()) == SortedEntries.Insert(old(Contents(Now())), e)
    {
      hide Grows, FirstAtLeast, LevelOk, Linked, Precedes, SortedEntries.Insert, PartOfBelow;
      ghost var before := Now();
      var found, prev; ghost var places;
      found, prev, places := FindGreaterOrEqual(e.Key());
      if height > maxHeight {
        prev := prev + seq(height - maxHeight, _ => 0);
        places := places + seq(height - maxHeight, _ => 0);
        maxHeight := height;
      }
      var x := |arena|;
      arena := arena + [Node(e, seq(height, _ => None))];
      AllocatesGrows(before, Now(), e, height);
      forall l | 0 <= l < height ensures Waits(Now(), l, x, prev[l],
          places[l]) { PlaceFor(before, e, l, prev[l], places[l], Now(), height); }
      for i := 0 to height
        invariant Valid(Now()) && Grows(before, Now()) && maxHeight >= height && |prev| >= height && |places| == |prev|
        invariant x < |arena| && |arena[x].next| == height && arena[x].entry == e && x > 0
        invariant forall l :: i <= l < height ==> Waits(Now(), l, x, prev[l], places[l])
        invariant i > 0 ==> x in levels[i - 1]
        invariant i == 0 ==> levels[0] == before.levels[0]
        invariant i > 0 ==> levels[0] == before.levels[0][..places[0]] + [x] + before.levels[0][places[0]..]
      {
        ghost var was := Now();
        assert Waits(was, i, x, prev[i], places[i]);
        LinkGrows(was, x, i, places[i]);
        Link(x, i, prev[i], places[i]);
        GrowsAgain(before, was, Now());
        forall l | i < l < height ensures Waits(Now(), l, x, prev[l], places[l]) {
          assert Waits(was, l, x, prev[l], places[l]);
          StillWaits(was, l, x, prev[l], places[l], i, places[i]);
        }
      }
      Inserted(before, Now(), e, x, places[0]);
    }

    /** The two stores that link a node in on one level. */
    method Link(x: nat, l: nat, prev: nat, ghost p: nat)
      requires Valid(Now()) && l < maxHeight && HasLevel(arena, x, l) && x > 0 && x != prev
      requires p <= |levels[l]| && prev == Before(levels[l], p) && HasLevel(arena, prev, l)
      requires LevelOk(arena, levels[l], l)
      modifies this
      ensures Now() == Linked(old(Now()), x, l, p)
      ensures maxHeight == old(maxHeight) && levels == old(levels)[l := old(levels[l])[..p] + [x] + old(levels[l])[p..]]
    {
      assert arena[Before(levels[l], p)].next[l] == Following(levels[l], p);
      arena := arena[x := arena[x].(next := arena[x].next[l := arena[prev].next[l]])];
      arena := arena[prev := arena[prev].(next := arena[prev].next[l := Some(x)])];
      levels := levels[l := levels[l][..p] + [x] + levels[l][p..]];
    }
  }

  /** Node x has its place on level l but is not linked in there yet. */
  ghost predicate Waits(s: Shared, l: nat, x: nat, prev: nat, p: nat) {
    && HasLevel(s.arena, x, l) && At(s, l, prev, p) && Belongs(s, l, p, s.arena[x].entry) && x !in s.levels[l] &&
      x != prev
    && HasLevel(s.arena, prev, l) && LevelOk(s.arena, s.levels[l], l)
  }

  lemma StillWaits(s: Shared, l: nat, x: nat, prev: nat, p: nat, i: nat, q: nat)
    requires Waits(s, l, x, prev, p) && Valid(s) && i < l < MAX_HEIGHT && i < s.maxHeight
    requires q <= |s.levels[i]| && HasLevel(s.arena, x, i) && HasLevel(s.arena, Before(s.levels[i], q), i)
    ensures Waits(Linked(s, x, i, q), l, x, prev, p)
  {
    OtherLevel(s, x, i, q, l);
  }

  lemma {:induction false} InBottom(s: Shared, l: nat, n: nat)
    requires Valid(s) && l < MAX_HEIGHT && n in s.levels[l]
    ensures n in s.levels[0]
  {
    if l > 0 {
      assert PartOfBelow(s.levels, l);
      InBottom(s, l - 1, n);
    }
  }

  /** What the search found is where a new entry belongs, on old and on new levels. */
  lemma PlaceFor(s: Shared, e: Entry, l: nat, prev: nat, p: nat, t: Shared, height: nat)
    requires Valid(s) && Allocates(s, t, e, height) && l < height && Valid(t)
    requires forall x :: x in Contents(s) ==> x.Key() != e.Key()
    requires if l < s.maxHeight then Precedes(s, e.Key(), l, prev, p) else prev == 0 && p == 0
    ensures Waits(t, l, |s.arena|, prev, p)
  {
    assert LevelOk(s.arena, s.levels[l], l) && LevelOk(t.arena, t.levels[l], l);
    forall j | 0 <= j < |s.levels[l]| ensures s.arena[s.levels[l][j]].entry.Key() != e.Key() {
      InBottom(s, l, s.levels[l][j]);
      var k :| 0 <= k < |s.levels[0]| && s.levels[0][k] == s.levels[l][j];
      assert Contents(s)[k] in Contents(s);
    }
    forall j | p <= j < |s.levels[l]| ensures EntryLess(e, s.arena[s.levels[l][j]].entry) {
      TagOrder(e.Key(), s.arena[s.levels[l][j]].entry.Key());
    }
  }

  lemma {:induction false} InsertAt(es: seq<Entry>, p: nat, e: Entry)
    requires p <= |es| && (forall i :: 0 <= i < p ==> EntryLess(es[i], e))
    requires (forall i :: p <= i < |es| ==> EntryLess(e, es[i]))
    ensures SortedEntries.Insert(es, e) == es[..p] + [e] + es[p..]
  {
    if p > 0 {
      InsertAt(es[1..], p - 1, e);
      assert es[1..][..p - 1] == es[1..p] && es[1..][p - 1..] == es[p..];
      assert [es[0]] + (es[1..p] + [e] + es[p..]) == es[..p] + [e] + es[p..];
    } else if es != [] {
      assert EntryLess(e, es[0]);
    }
  }

  lemma Inserted(s: Shared, t: Shared, e: Entry, x: nat, p: nat)
    requires Grows(s, t) && p <= |s.levels[0]| && x < |t.arena| && t.arena[x].entry == e
    requires Precedes(s, e.Key(), 0, Before(s.levels[0], p), p)
    requires forall x :: x in Contents(s) ==> x.Key() != e.Key()
    requires t.levels[0] == s.levels[0][..p] + [x] + s.levels[0][p..]
    ensures Contents(t) == SortedEntries.Insert(Contents(s), e)
  {
    var es := Contents(s);
    assert LevelOk(s.arena, s.levels[0], 0) && LevelOk(t.arena, t.levels[0], 0);
    forall i | p <= i < |es| ensures EntryLess(e, es[i]) {
      assert es[i] in es;
      TagOrder(e.Key(), es[i].Key());
    }
    InsertAt(es, p, e);
    NewContents(s, t, e, x, p);
  }

  lemma NewContents(s: Shared, t: Shared, e: Entry, x: nat, p: nat)
    requires Grows(s, t) && p <= |s.levels[0]| && x < |t.arena| && t.arena[x].entry == e
    requires t.levels[0] == s.levels[0][..p] + [x] + s.levels[0][p..]
    ensures Contents(t) == Contents(s)[..p] + [e] + Contents(s)[p..]
  {
    var es := Contents(s);
    assert LevelOk(s.arena, s.levels[0], 0) && LevelOk(t.arena, t.levels[0], 0);
    forall i | 0 <= i < |es| + 1 ensures Contents(t)[i] == (es[..p] + [e] + es[p..])[i] {}
  }

  /** Node x, at place i of level l, is the last one there before the target. */
  ghost predicate Precedes(s: Shared, target: IKey, l: nat, x: nat, i: nat) {
    && At(s, l, x, i) && (forall j :: 0 <= j < |s.levels[l]| ==> s.levels[l][j] < |s.arena|)
    && (forall j :: 0 <= j < |s.levels[l]| ==> (Less(s.arena[s.levels[l][j]].entry.Key(), target) <==> j < i))
  }

  lemma PrecedesAt(s: Shared, target: IKey, l: nat, x: nat, i: nat)
    requires Valid(s) && l < MAX_HEIGHT && At(s, l, x, i) && LevelOk(s.arena, s.levels[l], l)
    requires i > 0 ==> Less(s.arena[x].entry.Key(), target)
    requires i < |s.levels[l]| ==> !Less(s.arena[s.levels[l][i]].entry.Key(), target)
    ensures Precedes(s, target, l, x, i)
  {
    var level := s.levels[l];
    forall j | 0 <= j < |level| ensures Less(s.arena[level[j]].entry.Key(), target) <==> j < i {
      if j < i - 1 { assert EntryLess(s.arena[level[j]].entry, s.arena[level[i - 1]].entry); }
      if j > i { assert EntryLess(s.arena[level[i]].entry, s.arena[level[j]].entry); }
    }
  }

  // ---- Readers that overlap inserts --------------------------------------------------------------

  /** A search that runs without a lock: about to read one link of node x, or finished. */
  datatype Search = Reading(x: nat, level: nat) | Found(r: Option<nat>)

  /** The link that is to be read exists, and so does the node it points to. */
  ghost predicate CanStep(s: Shared, q: Search) {
    q.Reading? ==>
      (HasLevel(s.arena, q.x, q.level) &&
        (s.arena[q.x].next[q.level].Some? ==> s.arena[q.x].next[q.level].value < |s.arena|))
  }

  /** One read of FindGreaterOrEqual in whatever state the list is in at that moment. */
  ghost function SearchStep(s: Shared, target: IKey, q: Search): Search
    requires CanStep(s, q)
  {
    match q
    case Found(_) => q
    case Reading(x, level) =>
      var next := s.arena[x].next[level];
      if KeyIsAfterNode(s.arena, target, next) then Reading(next.value, level)
      else if level == 0 then Found(next)
      else Reading(x, level - 1)
  }

  /** A search stands on a node of its level, before the target. */
  ghost predicate SearchOk(s: Shared, target: IKey, q: Search) {
    q.Reading? ==> exists i :: StandsBefore(s, target, q, i)
  }

  ghost predicate StandsBefore(s: Shared, target: IKey, q: Search, i: nat) {
    q.Reading? && q.x < |s.arena| && At(s, q.level, q.x, i) && (i > 0 ==> Less(s.arena[q.x].entry.Key(), target))
  }

  /** It still does when the list has grown meanwhile. */
  lemma SearchSurvives(s: Shared, t: Shared, target: IKey, q: Search)
    requires Grows(s, t) && SearchOk(s, target, q)
    ensures SearchOk(t, target, q)
  {
    if q.Reading? {
      var i: nat :| StandsBefore(s, target, q, i);
      if i == 0 {
        assert StandsBefore(t, target, q, 0) by { assert LevelOk(t.arena, t.levels[q.level], q.level); }
      } else {
        assert q.x in s.levels[q.level];
        var j :| 0 <= j < |t.levels[q.level]| && t.levels[q.level][j] == q.x;
        assert StandsBefore(t, target, q, j + 1);
      }
    }
  }

  lemma StepReady(s: Shared, target: IKey, q: Search)
    requires Valid(s) && SearchOk(s, target, q)
    ensures CanStep(s, q)
  {
    if q.Reading? {
      var i: nat :| StandsBefore(s, target, q, i);
      assert LevelOk(s.arena, s.levels[q.level], q.level);
    }
  }

  /** The read that ends a search ends it with the answer of that very moment. */
  lemma StepKeeps(s: Shared, target: IKey, q: Search)
    requires Valid(s) && SearchOk(s, target, q) && q.Reading? && CanStep(s, q)
    ensures SearchOk(s, target, SearchStep(s, target, q))
    ensures SearchStep(s, target, q).Found? ==> FirstAtLeast(s, target, SearchStep(s, target, q).r)
  {
    hide FirstAtLeast;
    var i: nat :| StandsBefore(s, target, q, i);
    var level := s.levels[q.level];
    assert LevelOk(s.arena, level, q.level);
    assert s.arena[q.x].next[q.level] == Following(level, i);
    if KeyIsAfterNode(s.arena, target, Following(level, i)) {
      assert StandsBefore(s, target, SearchStep(s, target, q), i + 1);
    } else if q.level == 0 {
      SearchEnds(s, target, i);
    } else {
      var j := GoDown(s, q.level, q.x, i);
      assert StandsBefore(s, target, SearchStep(s, target, q), j);
    }
  }

  ghost predicate Steps(s: Shared, target: IKey, q: Search, q': Search) {
    CanStep(s, q) ==> q' == SearchStep(s, target, q)
  }

  // ---- Insert, one store at a time ---------------------------------------------------------------

  /** How far the writer has come: nothing to do; max_height_ raised, with the nodes before the new entry
      found; or linking node x in on `level`, its own link stored or not.  `places` is for the proof. */
  datatype Insertion =
    | Idle
    | Raised(e: Entry, height: nat, prev: seq<nat>, places: seq<nat>)
    | Linking(x: nat, height: nat, prev: seq<nat>, places: seq<nat>, level: nat, half: bool)

  /** What FindGreaterOrEqual found on each level; the head on levels that are new. */
  ghost predicate PlacesFound(s: Shared, e: Entry, height: nat, prev: seq<nat>, places: seq<nat>) {
    |prev| == |places| == height && forall l :: 0 <= l < height ==> Precedes(s, e.Key(), l, prev[l], places[l])
  }

  ghost predicate Begins(s: Shared, t: Shared, w: Insertion)
    requires Valid(s)
  {
    && w.Raised? && 1 <= w.height <= MAX_HEIGHT && PlacesFound(s, w.e, w.height, w.prev, w.places)
    && (forall x :: x in Contents(s) ==> x.Key() != w.e.Key())
    && t == s.(maxHeight := if w.height > s.maxHeight then w.height else s.maxHeight)
  }

  /** The nodes and links are there that the next store needs. */
  ghost predicate CanStore(s: Shared, w: Insertion) {
    w.Linking? ==>
      (w.level < |w.prev| && w.level < |w.places| && HasLevel(s.arena, w.x, w.level) &&
        HasLevel(s.arena, w.prev[w.level], w.level)
      && w.level < |s.levels| && w.places[w.level] <= |s.levels[w.level]|)
  }

  function Stored(arena: seq<Node>, n: nat, l: nat, link: Option<nat>): seq<Node>
    requires n < |arena| && l < |arena[n].next|
  {
    arena[n := arena[n].(next := arena[n].next[l := link])]
  }

  /** One step of Insert: storing max_height_, making the node, storing its own link on a level, storing
      its predecessor's. */
  ghost predicate InsertStep(s: Shared, w: Insertion, t: Shared, w': Insertion)
    requires Valid(s) && CanStore(s, w)
  {
    match w
    case Idle => Begins(s, t, w')
    case Raised(e, height, prev, places) =>
      && t == s.(arena := s.arena + [Node(e, seq(height, _ => None))])
      && w' == Linking(|s.arena|, height, prev, places, 0, false)
    case Linking(x, height, prev, places, level, half) =>
      if !half then
        && t == s.(arena := Stored(s.arena, x, level, s.arena[prev[level]].next[level]))
        && w' == w.(half := true)
      else
        && t == s.(arena := Stored(s.arena, prev[level], level, Some(x)),
                   levels := s.levels[level := s.levels[level][..places[level]] + [x] +
                     s.levels[level][places[level]..]])
        && w' == if level + 1 == height then Idle else w.(level := level + 1, half := false)
  }

  ghost predicate WriterOk(s: Shared, w: Insertion) {
    && Valid(s)
    && match w
       case Idle => true
       case Raised(e, height, prev, places) =>
         && 1 <= height <= s.maxHeight && PlacesFound(s, e, height, prev, places)
         && forall x :: x in Contents(s) ==> x.Key() != e.Key()
       case Linking(x, height, prev, places, level, half) =>
         && 0 < x < |s.arena| && |s.arena[x].next| == height <= s.maxHeight && |prev| == |places| == height &&
           level < height
         && (level > 0 ==> x in s.levels[level - 1])
         && (forall l :: level <= l < height ==> Waits(s, l, x, prev[l], places[l]))
         && (half ==> s.arena[x].next[level] == Following(s.levels[level], places[level]))
  }

  lemma WriterCanStore(s: Shared, w: Insertion)
    requires WriterOk(s, w)
    ensures CanStore(s, w)
  {
    if w.Linking? { assert Waits(s, w.level, w.x, w.prev[w.level], w.places[w.level]); }
  }

  lemma BeginKeeps(s: Shared, t: Shared, w: Insertion)
    requires Valid(s) && Begins(s, t, w)
    ensures Grows(s, t) && WriterOk(t, w)
  {
    forall l | 0 <= l < MAX_HEIGHT ensures LevelOk(t.arena, t.levels[l], l) { assert LevelOk(s.arena, s.levels[l], l); }
    forall l | 0 < l < MAX_HEIGHT ensures PartOfBelow(t.levels, l) { assert PartOfBelow(s.levels, l); }
    assert Contents(t) == Contents(s);
  }

  lemma AllocateKeeps(s: Shared, t: Shared, w: Insertion, w': Insertion)
    requires WriterOk(s, w) && w.Raised? && CanStore(s, w) && InsertStep(s, w, t, w')
    ensures Grows(s, t) && WriterOk(t, w')
  {
    assert Allocates(s, t, w.e, w.height);
    AllocatesGrows(s, t, w.e, w.height);
    forall l | 0 <= l < w.height ensures Waits(t, l, |s.arena|, w.prev[l], w.places[l]) {
      PlaceFor(s, w.e, l, w.prev[l], w.places[l], t, w.height);
    }
    assert LevelOk(s.arena, s.levels[0], 0);
  }

  lemma OwnStoreKeeps(s: Shared, t: Shared, w: Insertion, w': Insertion)
    requires WriterOk(s, w) && w.Linking? && !w.half && CanStore(s, w) && InsertStep(s, w, t, w')
    ensures Grows(s, t) && WriterOk(t, w')
  {
    hide Grows, LevelOk, PartOfBelow;
    var l, p := w.level, w.places[w.level];
    assert Waits(s, l, w.x, w.prev[l], p);
    OwnLink(s, l, w.prev[l], p);
    assert t == HalfLinked(s, w.x, l, p);
    HalfLinkGrows(s, w.x, l, p);
    GrowsValid(s, t);
    forall k | l <= k < w.height ensures Waits(t, k, w.x, w.prev[k], w.places[k]) {
      assert Waits(s, k, w.x, w.prev[k], w.places[k]);
      HalfWaits(s, t, w.x, l, p, k, w.prev[k], w.places[k]);
    }
  }

  /** The predecessor's link leads to what follows. */
  lemma OwnLink(s: Shared, l: nat, prev: nat, p: nat)
    requires At(s, l, prev, p) && LevelOk(s.arena, s.levels[l], l)
    ensures HasLevel(s.arena, prev, l) && s.arena[prev].next[l] == Following(s.levels[l], p)
  {
    assert s.arena[Before(s.levels[l], p)].next[l] == Following(s.levels[l], p);
  }

  lemma GrowsValid(s: Shared, t: Shared)
    requires Grows(s, t)
    ensures Valid(s) && Valid(t) && |s.arena| <= |t.arena|
    ensures forall l :: 0 <= l < MAX_HEIGHT ==> LevelOk(t.arena, t.levels[l], l)
  {}

  lemma HalfWaits(s: Shared, t: Shared, x: nat, l: nat, p: nat, k: nat, prev: nat, q: nat)
    requires Valid(s) && l < MAX_HEIGHT && p <= |s.levels[l]| && HasLevel(s.arena, x, l) && t == HalfLinked(s, x, l, p)
    requires Waits(s, k, x, prev, q) && k < MAX_HEIGHT && LevelOk(t.arena, t.levels[k], k)
    ensures Waits(t, k, x, prev, q)
  {
    hide LevelOk;
  }

  lemma PrevStoreKeeps(s: Shared, t: Shared, w: Insertion, w': Insertion)
    requires WriterOk(s, w) && w.Linking? && w.half && CanStore(s, w) && InsertStep(s, w, t, w')
    ensures Grows(s, t) && WriterOk(t, w')
  {
    hide Grows, LevelOk, PartOfBelow;
    var l, p := w.level, w.places[w.level];
    assert Waits(s, l, w.x, w.prev[l], p);
    assert s.arena[w.x].next[l := Following(s.levels[l], p)] == s.arena[w.x].next;
    assert Stored(s.arena, w.x, l, Following(s.levels[l], p)) == s.arena;
    assert t == Linked(s, w.x, l, p);
    LinkGrows(s, w.x, l, p);
    GrowsValid(s, t);
    forall k | l < k < w.height ensures Waits(t, k, w.x, w.prev[k], w.places[k]) {
      assert Waits(s, k, w.x, w.prev[k], w.places[k]);
      StillWaits(s, k, w.x, w.prev[k], w.places[k], l, p);
    }
    assert t.levels[l][p] == w.x;
  }

  /** After every single store the list is valid and has grown, and the insertion can go on. */
  lemma InsertStepGrows(s: Shared, w: Insertion, t: Shared, w': Insertion)
    requires WriterOk(s, w) && CanStore(s, w) && InsertStep(s, w, t, w')
    ensures Grows(s, t) && WriterOk(t, w')
  {
    hide Grows, Waits, Valid, LevelOk, PlacesFound;
    if w.Idle? {
      BeginKeeps(s, t, w');
    } else if w.Raised? {
      AllocateKeeps(s, t, w, w');
    } else if !w.half {
      OwnStoreKeeps(s, t, w, w');
    } else {
      PrevStoreKeeps(s, t, w, w');
    }
  }

  // ---- A reader and the writer -------------------------------------------------------------------

  datatype Moment = Moment(list: Shared, writer: Insertion, search: Search)

  /** Either the writer stores something or the reader reads something. */
  ghost predicate RaceStep(a: Moment, b: Moment, target: IKey) {
    || (Valid(a.list) && CanStore(a.list, a.writer) && InsertStep(a.list, a.writer, b.list, b.writer) &&
      b.search == a.search)
    || (b.list == a.list && b.writer == a.writer && Steps(a.list, target, a.search, b.search))
  }

  /** A search that begins at any point of any insertion, and overlaps any number of them. */
  ghost predicate Race(ms: seq<Moment>, target: IKey) {
    && ms != [] && WriterOk(ms[0].list, ms[0].writer) && ms[0].search == Reading(0, ms[0].list.maxHeight - 1)
    && forall i :: 0 <= i < |ms| - 1 ==> RaceStep(ms[i], ms[i + 1], target)
  }

  /** Whatever insertions it overlaps, every link that a search reads exists, and a search that returns has
      found the first entry at or after its target, exactly, as of its last read. */
  lemma {:induction false} OverlappingSearch(ms: seq<Moment>, target: IKey, n: nat)
    requires Race(ms, target) && n < |ms|
    ensures WriterOk(ms[n].list, ms[n].writer) && SearchOk(ms[n].list, target, ms[n].search)
    ensures CanStep(ms[n].list, ms[n].search)
    ensures n > 0 && ms[n - 1].search.Reading? && ms[n].search.Found? ==>
        FirstAtLeast(ms[n].list, target, ms[n].search.r)
  {
    hide FirstAtLeast, SearchOk, LevelOk, CanStep, WriterOk, Valid;
    if n == 0 {
      RaceStarts(ms, target);
    } else {
      OverlappingSearch(ms, target, n - 1);
      assert RaceStep(ms[n - 1], ms[n - 1 + 1], target);
      RaceStepKeeps(ms[n - 1], ms[n], target);
    }
  }

  lemma RaceStarts(ms: seq<Moment>, target: IKey)
    requires Race(ms, target)
    ensures Valid(ms[0].list) && SearchOk(ms[0].list, target, ms[0].search) && CanStep(ms[0].list, ms[0].search)
  {
    StartOk(ms[0].list, target);
    StepReady(ms[0].list, target, ms[0].search);
  }

  lemma RaceStepKeeps(a: Moment, b: Moment, target: IKey)
    requires WriterOk(a.list, a.writer) && SearchOk(a.list, target, a.search) && CanStep(a.list, a.search)
    requires RaceStep(a, b, target)
    ensures WriterOk(b.list, b.writer) && SearchOk(b.list, target, b.search) && CanStep(b.list, b.search)
    ensures a.search.Reading? && b.search.Found? ==> FirstAtLeast(b.list, target, b.search.r)
  {
    hide FirstAtLeast, SearchOk, LevelOk, InsertStep, Grows, CanStore;
    if Valid(a.list) && CanStore(a.list, a.writer) && InsertStep(a.list, a.writer, b.list, b.writer) &&
        b.search == a.search {
      InsertStepGrows(a.list, a.writer, b.list, b.writer);
      SearchSurvives(a.list, b.list, target, a.search);
    } else if a.search.Reading? {
      StepKeeps(a.list, target, a.search);
    } else {
      DoneOk(b.list, target, b.search);
    }
    StepReady(b.list, target, b.search);
  }

  lemma StartOk(s: Shared, target: IKey)
    requires Valid(s)
    ensures SearchOk(s, target, Reading(0, s.maxHeight - 1))
  {
    assert LevelOk(s.arena, s.levels[0], 0);
    assert StandsBefore(s, target, Reading(0, s.maxHeight - 1), 0);
  }

  lemma DoneOk(s: Shared, target: IKey, q: Search)
    requires q.Found?
    ensures SearchOk(s, target, q)
  {}

  /** SkipList::Iterator.  It holds a node only; where that is in the list, `pos`, may change as the
      list grows. */
  class Iterator {
    const list: SkipList
    var node: Option<nat>

    /** The iterator stands at place pos of the list as it is now; past the end it is not valid. */
    ghost predicate Stands(pos: nat)
      reads this, list
    {
      Valid(list.Now()) && pos <= |list.levels[0]| && node == Following(list.levels[0], pos)
    }

    constructor (list: SkipList)
      requires Valid(list.Now())
      ensures Stands(|list.levels[0]|) && this.list == list
    {
      this.list := list;
      node := None;
    }

    method Key(ghost pos: nat) returns (e: Entry)
      requires Stands(pos) && node.Some?
      ensures pos < |Contents(list.Now())| && e == Contents(list.Now())[pos]
    {
      assert LevelOk(list.arena, list.levels[0], 0);
      e := list.arena[node.value].entry;
    }

    method Next(ghost pos: nat)
      requires Stands(pos) && node.Some?
      modifies this
      ensures Stands(pos + 1)
    {
      assert LevelOk(list.arena, list.levels[0], 0);
      assert node.value == Before(list.levels[0], pos + 1);
      node := list.arena[node.value].next[0];
    }

    method Prev(ghost pos: nat)
      requires Stands(pos) && node.Some?
      modifies this
      ensures Stands(if pos == 0 then |list.levels[0]| else pos - 1)
    {
      assert LevelOk(list.arena, list.levels[0], 0);
      var x; ghost var i;
      x, i := list.FindLessThan(list.arena[node.value].entry.Key());
      SamePlace(list.Now(), pos, i, x);
      node := if x == 0 then None else Some(x);
    }

    method Seek(target: IKey) returns (ghost pos: nat)
      requires Valid(list.Now())
      modifies this
      ensures Stands(pos) && (forall i :: 0 <= i < pos ==> Less(Contents(list.Now())[i].Key(), target))
      ensures forall i :: pos <= i < |list.levels[0]| ==> !Less(Contents(list.Now())[i].Key(), target)
    {
      assert LevelOk(list.arena, list.levels[0], 0);
      var r, prev; ghost var places;
      r, prev, places := list.FindGreaterOrEqual(target);
      pos := if r.None? then |list.levels[0]| else PlaceOf(list.Now(), target, r.value);
      node := r;
    }

    method SeekToFirst()
      requires Valid(list.Now())
      modifies this
      ensures Stands(0)
    {
      assert LevelOk(list.arena, list.levels[0], 0);
      assert Before(list.levels[0], 0) == 0;
      node := list.arena[0].next[0];
    }

    method SeekToLast()
      requires Valid(list.Now())
      modifies this
      ensures Stands(if |list.levels[0]| == 0 then 0 else |list.levels[0]| - 1)
    {
      assert LevelOk(list.arena, list.levels[0], 0);
      var x := list.FindLast();
      node := if x == 0 then None else Some(x);
    }
  }

  /** The node before the target that is entry pos's own key is the one at pos - 1. */
  lemma SamePlace(s: Shared, pos: nat, i: nat, x: nat)
    requires Valid(s) && LevelOk(s.arena, s.levels[0], 0) && pos < |s.levels[0]|
    requires Precedes(s, s.arena[s.levels[0][pos]].entry.Key(), 0, x, i)
    ensures i == pos && (x == 0 <==> pos == 0)
  {
    var level := s.levels[0];
    assert pos >= i;
    assert i < pos <==> Less(s.arena[level[i]].entry.Key(), s.arena[level[pos]].entry.Key());
  }

  ghost function PlaceOf(s: Shared, target: IKey, n: nat): (i: nat)
    requires Valid(s) && FirstAtLeast(s, target, Some(n))
    ensures i < |s.levels[0]| && s.levels[0][i] == n
    ensures forall j :: 0 <= j < |s.levels[0]| ==> (Less(Contents(s)[j].Key(), target) <==> j < i)
  {
    var i :| 0 <= i < |Contents(s)| && s.levels[0][i] == n && IsFirst(Contents(s), target, i);
    AfterFirst(s, target, i);
    i
  }

  lemma AfterFirst(s: Shared, target: IKey, i: nat)
    requires Valid(s) && i < |s.levels[0]| && IsFirst(Contents(s), target, i)
    ensures forall j :: i < j < |s.levels[0]| ==> !Less(Contents(s)[j].Key(), target)
  {
    assert LevelOk(s.arena, s.levels[0], 0);
    forall j | i < j < |s.levels[0]| ensures !Less(Contents(s)[j].Key(), target) {
      assert EntryLess(Contents(s)[i], Contents(s)[j]);
    }
  }
}
