/** Merging several sorted children into one cursor (table/merger.cc). */
module Merger {
  import opened DbFormat
  import opened Cursors

  /** A place between keys: before everything, just before a key, just after a key, after everything. */
  datatype Cut = Start | At(key: IKey) | After(key: IKey) | End

  predicate BeforeCut(k: IKey, cut: Cut) {
    match cut
    case Start => false
    case At(key) => Less(k, key)
    case After(key) => Less(k, key) || k == key
    case End => true
  }

  lemma CutIsMonotone(a: IKey, b: IKey, cut: Cut)
    requires Less(a, b) && BeforeCut(b, cut)
    ensures BeforeCut(a, cut)
  {}

  /** Exactly the first n entries are before the cut. */
  ghost predicate Split(es: seq<Entry>, n: nat, cut: Cut) {
    && n <= |es|
    && (forall i :: 0 <= i < n ==> BeforeCut(es[i].Key(), cut))
    && (forall i :: n <= i < |es| ==> !BeforeCut(es[i].Key(), cut))
  }

  /** Where a cursor stands at the cut: at the first entry past it, or at the last entry before it;
      |es| means "not valid". */
  function Stand(es: seq<Entry>, n: nat, direction: Direction): nat {
    if direction.Forward? then n else if n == 0 then |es| else n - 1
  }

  ghost predicate Placed(es: seq<Entry>, pos: nat, cut: Cut, direction: Direction) {
    exists n: nat :: Split(es, n, cut) && pos == Stand(es, n, direction)
  }

  lemma PlacedBy(es: seq<Entry>, n: nat, pos: nat, cut: Cut, direction: Direction)
    requires Split(es, n, cut) && pos == Stand(es, n, direction)
    ensures Placed(es, pos, cut, direction)
  {}

  lemma SplitUnique(es: seq<Entry>, m: nat, n: nat, cut: Cut)
    requires Split(es, m, cut) && Split(es, n, cut)
    ensures m == n
  {
    assert m < |es| ==> (BeforeCut(es[m].Key(), cut) <==> m < n);
    assert n < |es| ==> (BeforeCut(es[n].Key(), cut) <==> n < m);
  }

  lemma SplitAtKey(es: seq<Entry>, pos: nat)
    requires Sorted(es) && pos < |es|
    ensures Split(es, pos + 1, After(es[pos].Key()))
    ensures Split(es, pos, At(es[pos].Key()))
  {
    forall i | 0 <= i < |es| ensures BeforeCut(es[i].Key(), After(es[pos].Key())) <==> i <= pos
                             ensures BeforeCut(es[i].Key(), At(es[pos].Key())) <==> i < pos
    {
      if i < pos { assert Less(es[i].Key(), es[pos].Key()); }
      if i > pos { assert Less(es[pos].Key(), es[i].Key()); }
    }
  }

  /** After Seek(k), stepping over an equal key leaves a child past k. */
  lemma SeekPassesKey(es: seq<Entry>, n: nat, k: IKey)
    requires Sorted(es) && Split(es, n, At(k))
    ensures Split(es, if n < |es| && es[n].Key() == k then n + 1 else n, After(k))
  {
    if n < |es| {
      if es[n].Key() == k { SplitAtKey(es, n); }
      forall i | n <= i < |es| && es[n].Key() != k ensures !BeforeCut(es[i].Key(), After(k)) {
        TagOrder(es[n].Key(), k);
        if i > n { assert Less(es[n].Key(), es[i].Key()); }
      }
    }
  }

  /** Entry j of list c, for some c and j, is e. */
  ghost predicate Holds(lists: seq<seq<Entry>>, c: nat, j: nat, e: Entry) {
    c < |lists| && j < |lists[c]| && lists[c][j] == e
  }

  ghost predicate AllSorted(lists: seq<seq<Entry>>) {
    forall c :: 0 <= c < |lists| ==> Sorted(lists[c])
  }

  /** No two children have an entry with the same key. */
  ghost predicate DistinctKeys(lists: seq<seq<Entry>>) {
    forall c: nat, i: nat, d: nat, j: nat, e: Entry, f: Entry ::
      Holds(lists, c, i, e) && Holds(lists, d, j, f) && c != d ==> e.Key() != f.Key()
  }

  /** all is the sorted union of the children. */
  ghost predicate IsUnion(lists: seq<seq<Entry>>, all: seq<Entry>) {
    && Sorted(all)
    && (forall c: nat, i: nat, e: Entry :: Holds(lists, c, i, e) ==> e in all)
    && (forall e: Entry :: e in all ==> exists c: nat, j: nat :: Holds(lists, c, j, e))
  }

  ghost predicate AllSplit(lists: seq<seq<Entry>>, ns: seq<nat>, cut: Cut) {
    |ns| == |lists| && forall c :: 0 <= c < |lists| ==> Split(lists[c], ns[c], cut)
  }

  /** The cut splits the union as it splits the children. */
  lemma UnionSplit(lists: seq<seq<Entry>>, ns: seq<nat>, cut: Cut, all: seq<Entry>) returns (p: nat)
    requires AllSplit(lists, ns, cut) && IsUnion(lists, all)
    ensures Split(all, p, cut)
  {
    p := |all|;
    while p > 0 && !BeforeCut(all[p - 1].Key(), cut)
      invariant p <= |all| && forall i :: p <= i < |all| ==> !BeforeCut(all[i].Key(), cut)
    {
      p := p - 1;
    }
    forall i | 0 <= i < p ensures BeforeCut(all[i].Key(), cut) {
      if i < p - 1 {
        assert Less(all[i].Key(), all[p - 1].Key());
        CutIsMonotone(all[i].Key(), all[p - 1].Key(), cut);
      }
    }
  }

  ghost predicate ValidAt(lists: seq<seq<Entry>>, ps: seq<nat>, c: nat) {
    |ps| == |lists| && c < |lists| && ps[c] < |lists[c]|
  }

  ghost function KeyAt(lists: seq<seq<Entry>>, ps: seq<nat>, c: nat): IKey
    requires ValidAt(lists, ps, c)
  {
    lists[c][ps[c]].Key()
  }

  /** r is the child with the extreme key in the direction of travel; None if no child is valid. */
  ghost predicate IsNext(lists: seq<seq<Entry>>, ps: seq<nat>, r: Option<nat>, direction: Direction) {
    && (r.None? ==> forall d: nat :: !ValidAt(lists, ps, d))
    && (r.Some? ==> ValidAt(lists, ps, r.value))
    && (r.Some? ==> forall d: nat :: ValidAt(lists, ps, d) ==>
      !Beats(KeyAt(lists, ps, d), KeyAt(lists, ps, r.value), direction))
  }

  predicate Beats(a: IKey, b: IKey, direction: Direction) {
    if direction.Forward? then Less(a, b) else Less(b, a)
  }

  /** The cut at which the non-current children stand, given the current key. */
  function CutFor(k: IKey, direction: Direction): Cut {
    if direction.Forward? then After(k) else At(k)
  }

  /** In forward mode all children but c are at their first entry past c's key; in reverse mode at
      their last entry before it. */
  ghost predicate Aligned(lists: seq<seq<Entry>>, ps: seq<nat>, c: nat, direction: Direction) {
    && ValidAt(lists, ps, c)
    && forall d :: 0 <= d < |lists| && d != c ==>
      Placed(lists[d], ps[d], CutFor(KeyAt(lists, ps, c), direction), direction)
  }

  ghost predicate AllPlaced(lists: seq<seq<Entry>>, ps: seq<nat>, cut: Cut, direction: Direction) {
    |ps| == |lists| && forall c :: 0 <= c < |lists| ==> Placed(lists[c], ps[c], cut, direction)
  }

  lemma Counts(lists: seq<seq<Entry>>, ps: seq<nat>, cut: Cut, direction: Direction) returns (ns: seq<nat>)
    requires AllPlaced(lists, ps, cut, direction)
    ensures AllSplit(lists, ns, cut)
    ensures forall c :: 0 <= c < |lists| ==> ps[c] == Stand(lists[c], ns[c], direction)
  {
    ns := [];
    while |ns| < |lists|
      invariant |ns| <= |lists|
      invariant forall c :: 0 <= c < |ns| ==> Split(lists[c], ns[c], cut) && ps[c] == Stand(lists[c], ns[c], direction)
    {
      var c := |ns|;
      assert Placed(lists[c], ps[c], cut, direction);
      var n: nat :| Split(lists[c], n, cut) && ps[c] == Stand(lists[c], n, direction);
      ns := ns + [n];
    }
  }

  /** With every child at the cut, the winner among them is where the union itself stands at the cut. */
  lemma WinnerIsUnion(lists: seq<seq<Entry>>, ps: seq<nat>, cut: Cut, direction: Direction, r: Option<nat>,
      all: seq<Entry>) returns (n: nat)
    requires IsUnion(lists, all) && AllSorted(lists) && AllPlaced(lists, ps, cut, direction)
    requires IsNext(lists, ps, r, direction)
    ensures Split(all, n, cut)
    ensures r.None? <==> Stand(all, n, direction) == |all|
    ensures r.Some? ==> Stand(all, n, direction) < |all| && all[Stand(all, n, direction)] == lists[r.value][ps[r.value]]
  {
    var ns := Counts(lists, ps, cut, direction);
    n := UnionSplit(lists, ns, cut, all);
    var p := Stand(all, n, direction);
    if p < |all| {
      assert all[p] in all;
      var c: nat, j: nat :| Holds(lists, c, j, all[p]);
      assert Split(lists[c], ns[c], cut);
      AtOrBeyond(lists[c], ns[c], j, cut, direction);
      assert ValidAt(lists, ps, c);
      WinnerAt(lists, ps, ns, cut, direction, r.value, all, n);
    } else if r.Some? {
      NoWinner(lists, ps, ns, cut, direction, r.value, all, n);
    }
  }

  /** An entry on the travel side of the cut is at or beyond the child's position. */
  lemma AtOrBeyond(es: seq<Entry>, n: nat, j: nat, cut: Cut, direction: Direction)
    requires Sorted(es) && Split(es, n, cut) && j < |es| && (BeforeCut(es[j].Key(), cut) <==> direction.Reverse?)
    ensures Stand(es, n, direction) < |es|
    ensures es[Stand(es, n, direction)] == es[j] || Beats(es[Stand(es, n, direction)].Key(), es[j].Key(), direction)
  {}

  lemma StandSide(es: seq<Entry>, n: nat, cut: Cut, direction: Direction)
    requires Split(es, n, cut)
    ensures var p := Stand(es, n, direction); p < |es| ==> (BeforeCut(es[p].Key(), cut) <==> direction.Reverse?)
  {}

  lemma WinnerAt(lists: seq<seq<Entry>>, ps: seq<nat>, ns: seq<nat>, cut: Cut, direction: Direction, c: nat,
      all: seq<Entry>, n: nat)
    requires IsUnion(lists, all) && AllSorted(lists) && AllSplit(lists, ns, cut) && |ps| == |lists|
    requires forall c :: 0 <= c < |lists| ==> ps[c] == Stand(lists[c], ns[c], direction)
    requires IsNext(lists, ps, Some(c), direction) && Split(all, n, cut) && Stand(all, n, direction) < |all|
    ensures all[Stand(all, n, direction)] == lists[c][ps[c]]
  {
    var p := Stand(all, n, direction);
    var e := lists[c][ps[c]];
    assert Holds(lists, c, ps[c], e);
    var q :| 0 <= q < |all| && all[q] == e;
    StandSide(lists[c], ns[c], cut, direction);
    AtOrBeyond(all, n, q, cut, direction);
    if p != q {
      assert all[p] in all;
      var d: nat, j: nat :| Holds(lists, d, j, all[p]);
      StandSide(all, n, cut, direction);
      AtOrBeyond(lists[d], ns[d], j, cut, direction);
      assert ValidAt(lists, ps, d);
    }
  }

  lemma NoWinner(lists: seq<seq<Entry>>, ps: seq<nat>, ns: seq<nat>, cut: Cut, direction: Direction, c: nat,
      all: seq<Entry>, n: nat)
    requires IsUnion(lists, all) && AllSplit(lists, ns, cut) && ValidAt(lists, ps, c)
    requires ps[c] == Stand(lists[c], ns[c], direction)
    requires Split(all, n, cut)
    ensures Stand(all, n, direction) < |all|
  {
    var e := lists[c][ps[c]];
    assert Holds(lists, c, ps[c], e);
    var q :| 0 <= q < |all| && all[q] == e;
    StandSide(lists[c], ns[c], cut, direction);
  }

  /** Once the winner is chosen, the others stand right at its key. */
  lemma WinnerAligns(lists: seq<seq<Entry>>, ps: seq<nat>, cut: Cut, direction: Direction, c: nat)
    requires AllSorted(lists) && DistinctKeys(lists) && AllPlaced(lists, ps, cut, direction)
    requires IsNext(lists, ps, Some(c), direction)
    ensures Aligned(lists, ps, c, direction)
  {
    var ns := Counts(lists, ps, cut, direction);
    forall d | 0 <= d < |lists| &&
        d != c ensures Placed(lists[d], ps[d], CutFor(KeyAt(lists, ps, c), direction), direction) {
      LoserSplit(lists, ps, ns, cut, direction, c, d);
      PlacedBy(lists[d], ns[d], ps[d], CutFor(KeyAt(lists, ps, c), direction), direction);
    }
  }

  lemma LoserSplit(lists: seq<seq<Entry>>, ps: seq<nat>, ns: seq<nat>, cut: Cut, direction: Direction, c: nat, d: nat)
    requires AllSorted(lists) && DistinctKeys(lists) && AllSplit(lists, ns, cut) && |ps| == |lists|
    requires forall c :: 0 <= c < |lists| ==> ps[c] == Stand(lists[c], ns[c], direction)
    requires IsNext(lists, ps, Some(c), direction) && d < |lists| && d != c
    ensures Split(lists[d], ns[d], CutFor(KeyAt(lists, ps, c), direction))
  {
    var k := KeyAt(lists, ps, c);
    assert Holds(lists, c, ps[c], lists[c][ps[c]]);
    StandSide(lists[c], ns[c], cut, direction);
    forall i | 0 <= i < |lists[d]| ensures BeforeCut(lists[d][i].Key(), CutFor(k, direction)) <==> i < ns[d] {
      assert Split(lists[d], ns[d], cut);
      LoserEntry(lists[d], ns[d], i, k, cut, direction, lists, ps, c, d);
    }
  }

  lemma LoserEntry(es: seq<Entry>, n: nat, i: nat, k: IKey, cut: Cut, direction: Direction, lists: seq<seq<Entry>>,
      ps: seq<nat>, c: nat, d: nat)
    requires d < |lists| && es == lists[d] && Sorted(es) && Split(es, n, cut) && i < |es| && DistinctKeys(lists)
    requires IsNext(lists, ps, Some(c), direction) && c != d && k == KeyAt(lists, ps, c)
    requires ps[d] == Stand(es, n, direction)
    requires BeforeCut(k, cut) <==> direction.Reverse?
    ensures BeforeCut(es[i].Key(), CutFor(k, direction)) <==> i < n
  {
    var k' := es[i].Key();
    assert Holds(lists, d, i, es[i]) && Holds(lists, c, ps[c], lists[c][ps[c]]);
    TagOrder(k', k);
    if BeforeCut(k', cut) <==> direction.Reverse? {
      AtOrBeyond(es, n, i, cut, direction);
      assert ValidAt(lists, ps, d);
    } else if direction.Forward? {
      if Less(k, k') { CutIsMonotone(k, k', cut); }
    } else if Less(k', k) {
      CutIsMonotone(k', k, cut);
    }
  }

  /** The positions after child c alone takes one step in the direction of travel. */
  ghost function Stepped(lists: seq<seq<Entry>>, ps: seq<nat>, c: nat, direction: Direction): seq<nat>
    requires ValidAt(lists, ps, c)
  {
    ps[c := if direction.Forward? then ps[c] + 1 else Stand(lists[c], ps[c], Reverse)]
  }

  lemma StepPlaces(lists: seq<seq<Entry>>, ps: seq<nat>, c: nat, direction: Direction)
    requires AllSorted(lists) && Aligned(lists, ps, c, direction)
    ensures AllPlaced(lists, Stepped(lists, ps, c, direction), CutFor(KeyAt(lists, ps, c), direction), direction)
  {
    var k := KeyAt(lists, ps, c);
    SplitAtKey(lists[c], ps[c]);
    PlacedBy(lists[c], if direction.Forward? then ps[c] + 1 else ps[c], Stepped(lists, ps, c, direction)[c],
      CutFor(k, direction), direction);
  }

  /** The merging iterator: it behaves as one cursor (`all`, `pos`) over the sorted union of its
      children, for any sequence of calls. */
  class MergingIterator {
    const children: seq<Cursor>
    var current: Option<nat>
    var direction: Direction
    ghost const all: seq<Entry>
    ghost var pos: nat

    ghost function Lists(): seq<seq<Entry>> {
      seq(|children|, i requires 0 <= i < |children| => children[i].es)
    }

    ghost function Places(): seq<nat>
      reads children
    {
      seq(|children|, i requires 0 <= i < |children| reads children => children[i].pos)
    }

    ghost predicate ChildrenOk()
      reads children
    {
      && (forall c, d :: 0 <= c < d < |children| ==> children[c] != children[d])
      && (forall c :: 0 <= c < |children| ==> children[c].Ok())
      && IsUnion(Lists(), all) && DistinctKeys(Lists())
    }

    ghost predicate Ok(): (ok: bool)
      reads this, children
      ensures ok ==> Sorted(all) && pos <= |all| && (Valid() <==> pos < |all|)
    {
      && ChildrenOk()
      && Sorted(all) && pos <= |all|
      && (current.None? <==> pos == |all|)
      && (current.Some? ==> pos < |all| && Aligned(Lists(), Places(), current.value, direction))
      && (current.Some? ==> Lists()[current.value][Places()[current.value]] == all[pos])
    }

    constructor (children: seq<Cursor>, ghost lists: seq<seq<Entry>>, ghost all: seq<Entry>)
      requires forall c, d :: 0 <= c < d < |children| ==> children[c] != children[d]
      requires forall c :: 0 <= c < |children| ==> children[c].Ok()
      requires |children| == |lists| && forall c :: 0 <= c < |lists| ==> children[c].es == lists[c]
      requires IsUnion(lists, all) && DistinctKeys(lists)
      ensures Ok() && this.children == children && this.all == all && pos == |all|
    {
      this.children := children;
      this.all := all;
      current := None;
      direction := Forward;
      pos := |all|;
      new;
      assert Lists() == lists;
    }

    predicate Valid()
      reads this
    {
      current.Some?
    }

    /** key() and value(). */
    function Now(): (e: Entry)
      requires Ok() && Valid()
      reads this, children
      ensures e == all[pos]
    {
      children[current.value].es[children[current.value].pos]
    }

    /** No valid child among lo..hi beats child c. */
    ghost predicate AheadOf(c: nat, lo: nat, hi: nat, direction: Direction)
      requires ValidAt(Lists(), Places(), c)
      reads children
    {
      forall d :: lo <= d < hi && ValidAt(Lists(), Places(), d) ==>
          !Beats(KeyAt(Lists(), Places(), d), KeyAt(Lists(), Places(), c), direction)
    }

    method FindSmallest()
      requires ChildrenOk()
      modifies this`current
      ensures IsNext(Lists(), Places(), current, Forward)
    {
      var smallest: Option<nat> := None;
      for i := 0 to |children|
        invariant smallest.None? ==> forall d :: 0 <= d < i ==> !ValidAt(Lists(), Places(), d)
        invariant smallest.Some? ==> ValidAt(Lists(), Places(), smallest.value)
        invariant smallest.Some? ==> AheadOf(smallest.value, 0, i, Forward)
      {
        var child := children[i];
        if child.Valid() {
          assert ValidAt(Lists(), Places(), i);
          if smallest.None? {
            smallest := Some(i);
          } else {
            var best := children[smallest.value];
            if Less(child.es[child.pos].Key(), best.es[best.pos].Key()) {
              smallest := Some(i);
            }
          }
        }
      }
      current := smallest;
    }

    method FindLargest()
      requires ChildrenOk()
      modifies this`current
      ensures IsNext(Lists(), Places(), current, Reverse)
    {
      var largest: Option<nat> := None;
      for i := |children| downto 0
        invariant largest.None? ==> forall d :: i <= d < |children| ==> !ValidAt(Lists(), Places(), d)
        invariant largest.Some? ==> ValidAt(Lists(), Places(), largest.value)
        invariant largest.Some? ==> AheadOf(largest.value, i, |children|, Reverse)
      {
        var child := children[i];
        if child.Valid() {
          assert ValidAt(Lists(), Places(), i);
          if largest.None? {
            largest := Some(i);
          } else {
            var best := children[largest.value];
            if Less(best.es[best.pos].Key(), child.es[child.pos].Key()) {
              largest := Some(i);
            }
          }
        }
      }
      current := largest;
    }

    /** Choosing the winner with all children placed at a cut re-establishes the invariant. */
    ghost method Land(cut: Cut) returns (n: nat)
      requires ChildrenOk() && AllPlaced(Lists(), Places(), cut, direction)
      requires IsNext(Lists(), Places(), current, direction)
      modifies this`pos
      ensures Ok() && Split(all, n, cut) && pos == Stand(all, n, direction)
    {
      assert AllSorted(Lists());
      n := WinnerIsUnion(Lists(), Places(), cut, direction, current, all);
      pos := Stand(all, n, direction);
      if current.Some? {
        WinnerAligns(Lists(), Places(), cut, direction, current.value);
      }
    }

    method SeekToFirst()
      requires Ok()
      modifies this, children
      ensures Ok() && pos == 0
    {
      hide Aligned, IsNext, IsUnion, DistinctKeys;
      for i := 0 to |children|
        invariant ChildrenOk() && forall c :: 0 <= c < i ==> children[c].pos == 0
      {
        children[i].SeekToFirst();
      }
      FindSmallest();
      direction := Forward;
      forall c | 0 <= c < |children| ensures Placed(Lists()[c], Places()[c], Start, Forward) {
        PlacedBy(Lists()[c], 0, Places()[c], Start, Forward);
      }
      ghost var n := Land(Start);
      SplitUnique(all, n, 0, Start);
    }

    method SeekToLast()
      requires Ok()
      modifies this, children
      ensures Ok() && pos == if |all| == 0 then 0 else |all| - 1
    {
      hide Aligned, IsNext, IsUnion, DistinctKeys;
      for i := 0 to |children|
        invariant ChildrenOk()
        invariant forall c :: 0 <= c < i ==> children[c].pos == Stand(children[c].es, |children[c].es|, Reverse)
      {
        children[i].SeekToLast();
      }
      FindLargest();
      direction := Reverse;
      forall c | 0 <= c < |children| ensures Placed(Lists()[c], Places()[c], End, Reverse) {
        PlacedBy(Lists()[c], |Lists()[c]|, Places()[c], End, Reverse);
      }
      ghost var n := Land(End);
      SplitUnique(all, n, |all|, End);
    }

    method Seek(target: IKey)
      requires Ok()
      modifies this, children
      ensures Ok()
      ensures forall i :: 0 <= i < pos ==> Less(all[i].Key(), target)
      ensures forall i :: pos <= i < |all| ==> !Less(all[i].Key(), target)
    {
      hide Aligned, IsNext, IsUnion, DistinctKeys;
      for i := 0 to |children|
        invariant ChildrenOk() && forall c :: 0 <= c < i ==> Split(children[c].es, children[c].pos, At(target))
      {
        children[i].Seek(target);
      }
      FindSmallest();
      direction := Forward;
      forall c | 0 <= c < |children| ensures Placed(Lists()[c], Places()[c], At(target), Forward) {
        PlacedBy(Lists()[c], Places()[c], Places()[c], At(target), Forward);
      }
      ghost var n := Land(At(target));
    }

    /** The direction switch of Next: the other children move to their first entry past the current key. */
    method TurnForward()
      requires Ok() && Valid()
      modifies this`direction, children
      ensures ChildrenOk() && direction == Forward && Places()[current.value] == old(Places()[current.value])
      ensures Aligned(Lists(), Places(), current.value, Forward)
    {
      if direction != Forward {
        var at := children[current.value].pos;
        var k := children[current.value].es[at].Key();
        for i := 0 to |children|
          invariant ChildrenOk() && children[current.value].pos == at
          invariant forall c :: 0 <= c < i && c != current.value ==> Split(children[c].es, children[c].pos, After(k))
        {
          var child := children[i];
          if i != current.value {
            child.Seek(k);
            SeekPassesKey(child.es, child.pos, k);
            if child.Valid() && child.es[child.pos].Key() == k {
              child.Next();
            }
          }
        }
        direction := Forward;
        forall c | 0 <= c < |children| &&
            c != current.value ensures Placed(Lists()[c], Places()[c], After(k), Forward) {
          PlacedBy(Lists()[c], Places()[c], Places()[c], After(k), Forward);
        }
      }
    }

    method TurnReverse()
      requires Ok() && Valid()
      modifies this`direction, children
      ensures ChildrenOk() && direction == Reverse && Places()[current.value] == old(Places()[current.value])
      ensures Aligned(Lists(), Places(), current.value, Reverse)
    {
      if direction != Reverse {
        var at := children[current.value].pos;
        var k := children[current.value].es[at].Key();
        for i := 0 to |children|
          invariant ChildrenOk() && children[current.value].pos == at
          invariant forall c :: 0 <= c < i && c != current.value ==>
              Placed(children[c].es, children[c].pos, At(k), Reverse)
        {
          var child := children[i];
          if i != current.value {
            child.Seek(k);
            ghost var n := child.pos;
            if child.Valid() {
              child.Prev();
            } else {
              child.SeekToLast();
            }
            PlacedBy(child.es, n, child.pos, At(k), Reverse);
          }
        }
        direction := Reverse;
      }
    }

    method Next()
      requires Ok() && Valid()
      modifies this, children
      ensures Ok() && pos == old(pos) + 1
    {
      hide Aligned, AllPlaced, IsNext, IsUnion, DistinctKeys, Split;
      TurnForward();
      ghost var ps := Places();
      ghost var k := KeyAt(Lists(), ps, current.value);
      StepPlaces(Lists(), ps, current.value, Forward);
      children[current.value].Next();
      assert Places() == Stepped(Lists(), ps, current.value, Forward);
      FindSmallest();
      ghost var n := Land(After(k));
      SplitAtKey(all, old(pos));
      SplitUnique(all, n, old(pos) + 1, After(k));
    }

    method Prev()
      requires Ok() && Valid()
      modifies this, children
      ensures Ok() && pos == if old(pos) == 0 then |all| else old(pos) - 1
    {
      hide Aligned, AllPlaced, IsNext, IsUnion, DistinctKeys, Split;
      TurnReverse();
      ghost var ps := Places();
      ghost var k := KeyAt(Lists(), ps, current.value);
      StepPlaces(Lists(), ps, current.value, Reverse);
      children[current.value].Prev();
      assert Places() == Stepped(Lists(), ps, current.value, Reverse);
      FindLargest();
      ghost var n := Land(At(k));
      SplitAtKey(all, old(pos));
      SplitUnique(all, n, old(pos), At(k));
    }
  }
}
