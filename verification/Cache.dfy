/** The hash table of cache handles (util/cache.cc, HandleTable); handles are numbers. */
module HandleTables {
  import opened DbFormat

  datatype TableKey = TableKey(key: Bytes, hash: nat)

  datatype Slot = Slot(key: TableKey, handle: nat)

  predicate PowerOfTwo(n: nat) {
    n == 1 || (n > 1 && n % 2 == 0 && PowerOfTwo(n / 2))
  }

  /** hash & (length - 1) for a power of two. */
  function Home(k: TableKey, length: nat): (r: nat)
    requires length > 0
    ensures r < length
  {
    k.hash % length
  }

  /** The buckets hold exactly this map: every key once, in its home bucket. */
  ghost predicate Represents(list: seq<seq<Slot>>, contents: map<TableKey, nat>) {
    && list != []
    && (forall i, j :: 0 <= i < |list| && 0 <= j < |list[i]| ==> SlotOk(list, contents, i, list[i][j]))
    && (forall k :: k in contents ==> Slot(k, contents[k]) in list[Home(k, |list|)])
    && (forall i, j, n :: 0 <= i < |list| && 0 <= j < n < |list[i]| ==> list[i][j].key != list[i][n].key)
  }

  ghost predicate SlotOk(list: seq<seq<Slot>>, contents: map<TableKey, nat>, i: nat, s: Slot) {
    list != [] && s.key in contents && contents[s.key] == s.handle && Home(s.key, |list|) == i
  }

  class HandleTable {
    var length: nat
    var elems: nat
    var list: seq<seq<Slot>>
    ghost var contents: map<TableKey, nat>

    ghost predicate Valid()
      reads this
    {
      && |list| == length && PowerOfTwo(length) && Represents(list, contents) && elems == |contents|
    }

    constructor ()
      ensures Valid() && contents == map[]
    {
      length, elems, list := 0, 0, [];
      contents := map[];
      new;
      Resize();
    }

    /** FindPointer: the bucket of a key and the place in it that holds the key, or the bucket's end. */
    method FindPointer(k: TableKey) returns (bucket: nat, p: nat)
      requires Valid()
      ensures bucket == Home(k, length) && p <= |list[bucket]|
      ensures p < |list[bucket]| ==> k in contents && list[bucket][p] == Slot(k, contents[k])
      ensures p == |list[bucket]| ==> k !in contents
    {
      bucket, p := Home(k, length), 0;
      while p < |list[bucket]| && list[bucket][p].key != k
        invariant p <= |list[bucket]| && forall n :: 0 <= n < p ==> list[bucket][n].key != k
      {
        p := p + 1;
      }
      assert p < |list[bucket]| ==> SlotOk(list, contents, bucket, list[bucket][p]);
      assert k in contents ==> Slot(k, contents[k]) in list[bucket];
    }

    method Lookup(k: TableKey) returns (r: Option<nat>)
      requires Valid()
      ensures r == if k in contents then Some(contents[k]) else None
    {
      var bucket, p := FindPointer(k);
      r := if p < |list[bucket]| then Some(list[bucket][p].handle) else None;
    }

    /** Insert: the new handle takes the old one's place, or goes to the end of its bucket. */
    method Insert(k: TableKey, h: nat) returns (replaced: Option<nat>)
      requires Valid()
      modifies this
      ensures Valid() && contents == old(contents)[k := h]
      ensures replaced == if k in old(contents) then Some(old(contents)[k]) else None
    {
      hide Represents, PowerOfTwo;
      var bucket, p := FindPointer(k);
      ghost var was := list;
      if p < |list[bucket]| {
        replaced := Some(list[bucket][p].handle);
        list := list[bucket := list[bucket][p := Slot(k, h)]];
        Replaced(was, contents, k, h, bucket, p);
        contents := contents[k := h];
        assert contents.Keys == old(contents).Keys;
        assert |contents| == |contents.Keys|;
      } else {
        replaced := None;
        list := list[bucket := list[bucket] + [Slot(k, h)]];
        Appended(was, contents, k, h, bucket);
        contents := contents[k := h];
        elems := elems + 1;
        if elems > length {
          Resize();
        }
      }
    }

    method Remove(k: TableKey) returns (removed: Option<nat>)
      requires Valid()
      modifies this
      ensures Valid() && contents == old(contents) - {k}
      ensures removed == if k in old(contents) then Some(old(contents)[k]) else None
    {
      hide Represents, PowerOfTwo;
      var bucket, p := FindPointer(k);
      ghost var was := list;
      if p < |list[bucket]| {
        removed := Some(list[bucket][p].handle);
        list := list[bucket := list[bucket][..p] + list[bucket][p + 1..]];
        Removed(was, contents, k, bucket, p);
        OneLess(contents, k);
        contents := contents - {k};
        elems := elems - 1;
      } else {
        removed := None;
        assert contents - {k} == contents;
      }
    }

    /** Resize: every slot moves to the front of its bucket in a table that is large enough. */
    method Resize()
      requires |list| == length && elems == |contents| && (length > 0 ==> Represents(list, contents))
      requires (length == 0 ==> contents == map[])
      modifies this`length, this`list
      ensures Valid() && length >= 4 && length >= elems
    {
      var newLength: nat := 4;
      assert PowerOfTwo(2);
      while newLength < elems
        invariant PowerOfTwo(newLength) && newLength >= 4
      {
        newLength := newLength * 2;
      }
      var newList := Rehash(list, contents, newLength);
      list := newList;
      length := newLength;
    }

    /** The loop of Resize that moves the slots. */
    static method Rehash(list: seq<seq<Slot>>, ghost contents: map<TableKey, nat>,
        newLength: nat) returns (newList: seq<seq<Slot>>)
      requires (list != [] ==> Represents(list, contents)) && (list == [] ==> contents == map[]) && newLength > 0
      ensures |newList| == newLength && Represents(newList, contents)
    {
      newList := seq(newLength, _ => []);
      ghost var moved: map<TableKey, nat> := map[];
      for i := 0 to |list|
        invariant |newList| == newLength && Represents(newList, moved)
        invariant Moved(list, contents, moved, i, 0)
      {
        for j := 0 to |list[i]|
          invariant |newList| == newLength && Represents(newList, moved)
          invariant Moved(list, contents, moved, i, j)
        {
          hide Represents, Moved;
          var s := list[i][j];
          NotMovedYet(list, contents, moved, i, j);
          var home := Home(s.key, newLength);
          Prepended(newList, moved, s, home);
          newList := newList[home := [s] + newList[home]];
          MoveOne(list, contents, moved, i, j);
          moved := moved[s.key := s.handle];
        }
        BucketMoved(list, contents, moved, i);
      }
      AllMoved(list, contents, moved);
    }
  }

  /** moved holds the slots of the first i buckets and the first j slots of the next. */
  ghost predicate Moved(list: seq<seq<Slot>>, contents: map<TableKey, nat>, moved: map<TableKey, nat>, i: nat, j: nat) {
    && (forall k :: k in moved ==> k in contents && moved[k] == contents[k])
    && (forall k :: k in contents && list != [] ==> (k in moved <==> Reached(list, Slot(k, contents[k]), i, j)))
  }

  ghost predicate Reached(list: seq<seq<Slot>>, s: Slot, i: nat, j: nat)
    requires list != []
  {
    var home := Home(s.key, |list|);
    home < i || (home == i && j <= |list[home]| && s in list[home][..j])
  }

  lemma Replaced(list: seq<seq<Slot>>, contents: map<TableKey, nat>, k: TableKey, h: nat, b: nat, p: nat)
    requires Represents(list, contents) && b == Home(k, |list|) && p < |list[b]| && list[b][p].key == k
    ensures Represents(list[b := list[b][p := Slot(k, h)]], contents[k := h])
  {
    var now, more := list[b := list[b][p := Slot(k, h)]], contents[k := h];
    forall i, j | 0 <= i < |now| && 0 <= j < |now[i]| ensures SlotOk(now, more, i, now[i][j]) {
      assert SlotOk(list, contents, i, list[i][j]);
    }
    forall x | x in more ensures Slot(x, more[x]) in now[Home(x, |now|)] {
      if x == k {
        assert now[b][p] == Slot(k, h);
      } else {
        var c := Home(x, |list|);
        var n :| 0 <= n < |list[c]| && list[c][n] == Slot(x, contents[x]);
        assert now[c][n] == list[c][n];
      }
    }
  }

  lemma Appended(list: seq<seq<Slot>>, contents: map<TableKey, nat>, k: TableKey, h: nat, b: nat)
    requires Represents(list, contents) && b == Home(k, |list|) && k !in contents
    ensures Represents(list[b := list[b] + [Slot(k, h)]], contents[k := h])
  {
    var now, more := list[b := list[b] + [Slot(k, h)]], contents[k := h];
    forall i, j | 0 <= i < |now| && 0 <= j < |now[i]| ensures SlotOk(now, more, i, now[i][j]) {
      if i != b || j < |list[b]| { assert SlotOk(list, contents, i, list[i][j]); }
    }
    forall x | x in more ensures Slot(x, more[x]) in now[Home(x, |now|)] {
      if x == k {
        assert now[b][|list[b]|] == Slot(k, h);
      } else {
        assert Slot(x, contents[x]) in list[Home(x, |list|)];
      }
    }
    forall i, j, n | 0 <= i < |now| && 0 <= j < n < |now[i]| ensures now[i][j].key != now[i][n].key {
      if i == b && n == |list[b]| { assert SlotOk(list, contents, i, list[i][j]); }
    }
  }

  lemma Prepended(list: seq<seq<Slot>>, contents: map<TableKey, nat>, s: Slot, b: nat)
    requires Represents(list, contents) && b == Home(s.key, |list|) && s.key !in contents
    ensures Represents(list[b := [s] + list[b]], contents[s.key := s.handle])
  {
    var now, more := list[b := [s] + list[b]], contents[s.key := s.handle];
    forall i, j | 0 <= i < |now| && 0 <= j < |now[i]| ensures SlotOk(now, more, i, now[i][j]) {
      if i != b { assert SlotOk(list, contents, i, list[i][j]); } else if j > 0 { assert SlotOk(list, contents, i,
          list[i][j - 1]); }
    }
    forall x | x in more ensures Slot(x, more[x]) in now[Home(x, |now|)] {
      if x == s.key {
        assert now[b][0] == s;
      } else {
        assert Slot(x, contents[x]) in list[Home(x, |list|)];
      }
    }
    forall i, j, n | 0 <= i < |now| && 0 <= j < n < |now[i]| ensures now[i][j].key != now[i][n].key {
      if i == b { assert SlotOk(list, contents, i, list[i][n - 1]); }
    }
  }

  lemma Removed(list: seq<seq<Slot>>, contents: map<TableKey, nat>, k: TableKey, b: nat, p: nat)
    requires Represents(list, contents) && b == Home(k, |list|) && p < |list[b]| && list[b][p].key == k
    ensures Represents(list[b := list[b][..p] + list[b][p + 1..]], contents - {k}) && k in contents
  {
    var now, less := list[b := list[b][..p] + list[b][p + 1..]], contents - {k};
    assert SlotOk(list, contents, b, list[b][p]);
    forall i, j | 0 <= i < |now| && 0 <= j < |now[i]| ensures SlotOk(now, less, i, now[i][j]) {
      RemovedSlot(list, contents, k, b, p, i, j);
    }
    forall x | x in less ensures Slot(x, less[x]) in now[Home(x, |now|)] { RemovedKeeps(list, contents, k, b, p, x); }
    forall i, j, n | 0 <= i < |now| && 0 <= j < n < |now[i]| ensures now[i][j].key != now[i][n].key {
      if i == b { StillDistinct(list[b], p, j, n); }
    }
  }

  lemma StillDistinct(bucket: seq<Slot>, p: nat, j: nat, n: nat)
    requires p < |bucket| && j < n < |bucket| - 1
    requires forall i, m :: 0 <= i < m < |bucket| ==> bucket[i].key != bucket[m].key
    ensures var now := bucket[..p] + bucket[p + 1..]; now[j].key != now[n].key
  {}

  lemma RemovedSlot(list: seq<seq<Slot>>, contents: map<TableKey, nat>, k: TableKey, b: nat, p: nat, i: nat, j: nat)
    requires Represents(list, contents) && b == Home(k, |list|) && p < |list[b]| && list[b][p].key == k
    requires i < |list| && j < |list[b := list[b][..p] + list[b][p + 1..]][i]|
    ensures var now := list[b := list[b][..p] + list[b][p + 1..]]; SlotOk(now, contents - {k}, i, now[i][j])
  {
    var n := if i == b && j >= p then j + 1 else j;
    assert SlotOk(list, contents, i, list[i][n]);
    assert n != p || i != b;
    assert list[i][n].key != k by {
      if i == b { assert list[b][p].key != list[b][n].key; }
    }
  }

  lemma RemovedKeeps(list: seq<seq<Slot>>, contents: map<TableKey, nat>, k: TableKey, b: nat, p: nat, x: TableKey)
    requires Represents(list, contents) && b == Home(k, |list|) && p < |list[b]| && list[b][p].key == k
    requires x in contents && x != k
    ensures Slot(x, contents[x]) in list[b := list[b][..p] + list[b][p + 1..]][Home(x, |list|)]
  {
    var c := Home(x, |list|);
    var n :| 0 <= n < |list[c]| && list[c][n] == Slot(x, contents[x]);
    var now := list[b := list[b][..p] + list[b][p + 1..]];
    if c == b { assert now[c][if n > p then n - 1 else n] == list[c][n]; }
  }

  lemma OneLess(contents: map<TableKey, nat>, k: TableKey)
    requires k in contents
    ensures |contents - {k}| == |contents| - 1
  {
    var less := contents - {k};
    assert less.Keys == contents.Keys - {k};
    assert |less| == |less.Keys| && |contents| == |contents.Keys|;
  }

  lemma NotMovedYet(list: seq<seq<Slot>>, contents: map<TableKey, nat>, moved: map<TableKey, nat>, i: nat, j: nat)
    requires Represents(list, contents) && i < |list| && j < |list[i]| && Moved(list, contents, moved, i, j)
    ensures list[i][j].key !in moved
  {
    assert SlotOk(list, contents, i, list[i][j]);
  }

  lemma MoveOne(list: seq<seq<Slot>>, contents: map<TableKey, nat>, moved: map<TableKey, nat>, i: nat, j: nat)
    requires Represents(list, contents) && i < |list| && j < |list[i]| && Moved(list, contents, moved, i, j)
    ensures Moved(list, contents, moved[list[i][j].key := list[i][j].handle], i, j + 1)
  {
    var s := list[i][j];
    assert SlotOk(list, contents, i, s);
    assert list[i][..j + 1] == list[i][..j] + [s];
  }

  lemma BucketMoved(list: seq<seq<Slot>>, contents: map<TableKey, nat>, moved: map<TableKey, nat>, i: nat)
    requires Represents(list, contents) && i < |list| && Moved(list, contents, moved, i, |list[i]|)
    ensures Moved(list, contents, moved, i + 1, 0)
  {
    assert list[i][..|list[i]|] == list[i];
    forall k | k in contents ensures k in moved <==> Reached(list, Slot(k, contents[k]), i + 1, 0) {
      assert Slot(k, contents[k]) in list[Home(k, |list|)];
      if Home(k, |list|) == i + 1 { assert list[i + 1][..0] == []; }
    }
  }

  lemma AllMoved(list: seq<seq<Slot>>, contents: map<TableKey, nat>, moved: map<TableKey, nat>)
    requires (list != [] ==> Represents(list, contents)) && (list == [] ==> contents == map[])
    requires Moved(list, contents, moved, |list|, 0)
    ensures moved == contents
  {}
}

/** One shard of the LRU cache (util/cache.cc, LRUCache). */
module LruCaches {
  import opened DbFormat
  import opened HandleTables

  /** An entry; its value and deleter do not matter here. */
  datatype Handle = Handle(key: TableKey, charge: nat, inCache: bool, refs: nat)

  type Handles = map<nat, Handle>

  // ---- Lists -------------------------------------------------------------------------------------

  ghost predicate NoDup(s: seq<nat>) {
    forall i, j :: 0 <= i < j < |s| ==> s[i] != s[j]
  }

  function Without(s: seq<nat>, x: nat): (r: seq<nat>)
    ensures forall y :: y in r <==> y in s && y != x
  {
    if s == [] then [] else (if s[0] == x then [] else [s[0]]) + Without(s[1..], x)
  }

  lemma {:induction false} WithoutNoDup(s: seq<nat>, x: nat)
    requires NoDup(s)
    ensures NoDup(Without(s, x))
  {
    if s != [] {
      WithoutNoDup(s[1..], x);
      assert s[0] !in s[1..];
    }
  }

  lemma {:induction false} WithoutAbsent(s: seq<nat>, x: nat)
    requires x !in s
    ensures Without(s, x) == s
  {
    if s != [] { WithoutAbsent(s[1..], x); }
  }

  lemma WithoutFirst(s: seq<nat>)
    requires s != [] && NoDup(s)
    ensures Without(s, s[0]) == s[1..]
  {
    assert s[0] !in s[1..];
    WithoutAbsent(s[1..], s[0]);
  }

  /** How long the log was when it last named id; 0 if it never did. */
  function LastIn(log: seq<nat>, id: nat): (n: nat)
    ensures n <= |log| && (n > 0 <==> id in log)
  {
    if log == [] then 0 else if log[|log| - 1] == id then |log| else LastIn(log[..|log| - 1], id)
  }

  /** The ids come in the order in which the log last named them. */
  ghost predicate OldestFirst(ids: seq<nat>, log: seq<nat>) {
    && (forall id :: id in ids ==> id in log)
    && forall i, j :: 0 <= i < j < |ids| ==> LastIn(log, ids[i]) < LastIn(log, ids[j])
  }

  lemma {:induction false} WithoutOldestFirst(ids: seq<nat>, log: seq<nat>, x: nat)
    requires OldestFirst(ids, log)
    ensures OldestFirst(Without(ids, x), log)
  {
    if ids != [] {
      hide LastIn;
      var rest := Without(ids[1..], x);
      WithoutOldestFirst(ids[1..], log, x);
      forall j | 0 <= j < |rest| ensures LastIn(log, ids[0]) < LastIn(log, rest[j]) {
        assert rest[j] in rest && rest[j] in ids[1..];
        var n :| 0 <= n < |ids[1..]| && ids[1..][n] == rest[j];
        assert ids[n + 1] == rest[j];
      }
    }
  }

  /** The id logged last goes to the end. */
  lemma LoggedLast(ids: seq<nat>, log: seq<nat>, x: nat)
    requires OldestFirst(ids, log)
    ensures OldestFirst(Without(ids, x) + [x], log + [x])
    ensures x !in ids ==> OldestFirst(ids, log + [x])
  {
    hide Without;
    var r := Without(ids, x);
    WithoutOldestFirst(ids, log, x);
    assert (log + [x])[..|log|] == log;
    forall i | 0 <= i < |r| ensures LastIn(log + [x], r[i]) == LastIn(log, r[i]) <= |log| { assert r[i] in r; }
    if x !in ids { WithoutAbsent(ids, x); }
  }

  function Charges(h: Handles, ids: seq<nat>): nat
    requires forall id :: id in ids ==> id in h
  {
    if ids == [] then 0 else h[ids[0]].charge + Charges(h, ids[1..])
  }

  lemma {:induction false} ChargesSame(h: Handles, g: Handles, ids: seq<nat>)
    requires forall id :: id in ids ==> id in h && id in g && g[id].charge == h[id].charge
    ensures Charges(g, ids) == Charges(h, ids)
  {
    if ids != [] { ChargesSame(h, g, ids[1..]); }
  }

  lemma {:induction false} ChargesWithout(h: Handles, ids: seq<nat>, x: nat)
    requires (forall id :: id in ids ==> id in h) && NoDup(ids)
    ensures Charges(h, Without(ids, x)) == Charges(h, ids) - if x in ids then h[x].charge else 0
  {
    if ids != [] {
      ChargesWithout(h, ids[1..], x);
      if ids[0] == x {
        assert x !in ids[1..];
        assert [] + Without(ids[1..], x) == Without(ids[1..], x);
      } else {
        assert Without(ids, x)[1..] == Without(ids[1..], x);
      }
    }
  }

  lemma {:induction false} ChargesAppend(h: Handles, ids: seq<nat>, x: nat)
    requires (forall id :: id in ids ==> id in h) && x in h
    ensures Charges(h, ids + [x]) == Charges(h, ids) + h[x].charge
  {
    if ids == [] {
      assert ids + [x] == [x];
    } else {
      ChargesAppend(h, ids[1..], x);
      assert (ids + [x])[1..] == ids[1..] + [x];
    }
  }

  // ---- Invariants --------------------------------------------------------------------------------

  /** Cached entries are on exactly one list: lru_ if only the cache refers to them, in_use_ otherwise. */
  ghost predicate Lists(h: Handles, lru: seq<nat>, inUse: seq<nat>) {
    && NoDup(lru) && NoDup(inUse)
    && (forall id :: id in lru <==> id in h && h[id].inCache && h[id].refs == 1)
    && (forall id :: id in inUse <==> id in h && h[id].inCache && h[id].refs >= 2)
    && forall id :: id in h ==> h[id].refs >= 1
  }

  ghost predicate Used(h: Handles, lru: seq<nat>, inUse: seq<nat>, usage: nat) {
    && Lists(h, lru, inUse) && usage == Charges(h, lru) + Charges(h, inUse)
  }

  /** The table maps to exactly the cached entries, except possibly one that is on its way out. */
  ghost predicate Mapped(h: Handles, contents: map<TableKey, nat>, leaving: Option<nat>) {
    && (forall k :: k in contents ==>
      contents[k] in h && h[contents[k]].key == k && h[contents[k]].inCache && Some(contents[k]) != leaving)
    && (forall id :: id in h && h[id].inCache && Some(id) != leaving ==>
      h[id].key in contents && contents[h[id].key] == id)
  }

  /** An entry's references are its clients' and the cache's own. */
  ghost predicate Accounted(h: Handles, held: map<nat, nat>) {
    && held.Keys == h.Keys
    && forall id :: id in h ==> h[id].refs == held[id] + if h[id].inCache then 1 else 0
  }

  /** Every entry ever made is alive or has been passed to its deleter, once. */
  ghost predicate Freed(h: Handles, deleted: seq<nat>, nextId: nat) {
    && NoDup(deleted)
    && (forall id: nat :: id in h || id in deleted <==> id < nextId)
    && (forall id: nat :: id in deleted ==> id !in h)
  }

  /** All of it, for the fields of a cache. */
  ghost predicate Sound(h: Handles, lru: seq<nat>, inUse: seq<nat>, usage: nat, held: map<nat, nat>, deleted: seq<nat>,
      nextId: nat,
                        contents: map<TableKey, nat>, leaving: Option<nat>) {
    Used(h, lru, inUse, usage) && Accounted(h, held) && Freed(h, deleted, nextId) && Mapped(h, contents, leaving)
  }

  /** An entry with one reference more or less. */
  function WithRefs(h: Handles, id: nat, refs: nat): Handles
    requires id in h
  {
    h[id := h[id].(refs := refs)]
  }

  lemma RefCounted(h: Handles, lru: seq<nat>, inUse: seq<nat>, usage: nat, held: map<nat, nat>, deleted: seq<nat>,
      nextId: nat,
                   contents: map<TableKey, nat>, leaving: Option<nat>, id: nat)
    requires Sound(h, lru, inUse, usage, held, deleted, nextId, contents, leaving) && id in h
    ensures h[id].refs >= 1 && id in held && held[id] == h[id].refs - if h[id].inCache then 1 else 0
  {}

  /** An entry that clients hold is not on the list lru_. */
  lemma HeldIsOff(h: Handles, lru: seq<nat>, inUse: seq<nat>, usage: nat, held: map<nat, nat>, deleted: seq<nat>,
      nextId: nat,
                  contents: map<TableKey, nat>, id: nat)
    requires Sound(h, lru, inUse, usage, held, deleted, nextId, contents, None) && id in h
    ensures h[id].refs > 1 ==> Without(lru, id) == lru
  {
    if h[id].refs > 1 { WithoutAbsent(lru, id); }
  }

  lemma NotListed(h: Handles, lru: seq<nat>, inUse: seq<nat>, usage: nat, held: map<nat, nat>, deleted: seq<nat>,
      nextId: nat,
                  contents: map<TableKey, nat>, id: nat)
    requires Sound(h, lru, inUse, usage, held, deleted, nextId, contents, None) && id in held && held[id] > 0
    ensures id in h && id !in lru
  {}

  /** The lists an entry is not on are not changed by taking it off them. */
  lemma RefFacts(h: Handles, lru: seq<nat>, inUse: seq<nat>, usage: nat, held: map<nat, nat>, deleted: seq<nat>,
      nextId: nat,
                 contents: map<TableKey, nat>, id: nat)
    requires Sound(h, lru, inUse, usage, held, deleted, nextId, contents, None) && (id in h || id in held)
    ensures id in h && id in held && h[id].refs >= 1
    ensures h[id].refs == 1 ==> Without(inUse, id) == inUse
  {
    if h[id].refs == 1 { WithoutAbsent(inUse, id); }
  }

  lemma ListSums(h: Handles, g: Handles, lru: seq<nat>, inUse: seq<nat>)
    requires Lists(h, lru, inUse)
    requires forall id :: id in h ==> id in g && g[id].charge == h[id].charge
    ensures Charges(g, lru) == Charges(h, lru) && Charges(g, inUse) == Charges(h, inUse)
  {
    ChargesSame(h, g, lru);
    ChargesSame(h, g, inUse);
  }

  /** A client takes a reference to a cached entry. */
  lemma RefKeeps(h: Handles, lru: seq<nat>, inUse: seq<nat>, usage: nat, held: map<nat, nat>, deleted: seq<nat>,
      nextId: nat,
                 contents: map<TableKey, nat>, id: nat)
    requires Sound(h, lru, inUse, usage, held, deleted, nextId, contents, None) && id in h && h[id].inCache
    ensures var first := h[id].refs == 1;
            Sound(WithRefs(h, id, h[id].refs + 1), if first then Without(lru, id) else lru,
              if first then inUse + [id] else inUse,
                  usage, held[id := held[id] + 1], deleted, nextId, contents, None)
  {
    RefLists(h, lru, inUse, usage, id);
    CountMaps(h, held, deleted, nextId, contents, id, h[id].refs + 1, held[id] + 1);
    hide Used, Accounted, Freed, Mapped, Without, WithRefs;
  }

  /** A reference more or less changes no map but the counts. */
  lemma CountMaps(h: Handles, held: map<nat, nat>, deleted: seq<nat>, nextId: nat, contents: map<TableKey, nat>,
      id: nat, refs: nat, clients: nat)
    requires Accounted(h, held) && Freed(h, deleted, nextId) && Mapped(h, contents, None) && id in h
    requires refs - clients == h[id].refs - held[id]
    ensures var g := WithRefs(h, id, refs);
            Accounted(g, held[id := clients]) && Freed(g, deleted, nextId) && Mapped(g, contents, None)
  {}

  lemma RefLists(h: Handles, lru: seq<nat>, inUse: seq<nat>, usage: nat, id: nat)
    requires Used(h, lru, inUse, usage) && id in h && h[id].inCache
    ensures var first := h[id].refs == 1;
            Used(WithRefs(h, id, h[id].refs + 1), if first then Without(lru, id) else lru,
              if first then inUse + [id] else inUse, usage)
  {
    hide Without;
    var g := WithRefs(h, id, h[id].refs + 1);
    ListSums(h, g, lru, inUse);
    if h[id].refs == 1 {
      WithoutNoDup(lru, id);
      ChargesWithout(g, lru, id);
      ChargesAppend(g, inUse, id);
    }
  }

  /** A client gives back the last reference to an entry that has left the cache. */
  lemma LastUnrefKeeps(h: Handles, lru: seq<nat>, inUse: seq<nat>, usage: nat, held: map<nat, nat>, deleted: seq<nat>,
      nextId: nat,
                       contents: map<TableKey, nat>, id: nat)
    requires Sound(h, lru, inUse, usage, held, deleted, nextId, contents, None) && id in held && held[id] > 0
    requires h[id].refs == 1
    ensures Sound(h - {id}, lru, inUse, usage, held - {id}, deleted + [id], nextId, contents, None)
  {
    DeadLists(h, lru, inUse, usage, id);
    hide Used;
  }

  lemma DeadLists(h: Handles, lru: seq<nat>, inUse: seq<nat>, usage: nat, id: nat)
    requires Used(h, lru, inUse, usage) && id in h && !h[id].inCache
    ensures Used(h - {id}, lru, inUse, usage)
  {
    ChargesSame(h, h - {id}, lru);
    ChargesSame(h, h - {id}, inUse);
  }

  /** A client gives back another reference; the cache may be left with the only one. */
  lemma UnrefKeeps(h: Handles, lru: seq<nat>, inUse: seq<nat>, usage: nat, held: map<nat, nat>, deleted: seq<nat>,
      nextId: nat,
                   contents: map<TableKey, nat>, id: nat)
    requires Sound(h, lru, inUse, usage, held, deleted, nextId, contents, None) && id in held && held[id] > 0
    requires h[id].refs > 1
    ensures var last := h[id].inCache && h[id].refs == 2;
            Sound(WithRefs(h, id, h[id].refs - 1), if last then Without(lru, id) + [id] else lru,
              if last then Without(inUse, id) else inUse,
                  usage, held[id := held[id] - 1], deleted, nextId, contents, None)
  {
    assert id in h;
    UnrefLists(h, lru, inUse, usage, id);
    CountMaps(h, held, deleted, nextId, contents, id, h[id].refs - 1, held[id] - 1);
    hide Used, Accounted, Freed, Mapped, Without, WithRefs;
  }

  lemma UnrefLists(h: Handles, lru: seq<nat>, inUse: seq<nat>, usage: nat, id: nat)
    requires Used(h, lru, inUse, usage) && id in h && h[id].refs > 1
    ensures var last := h[id].inCache && h[id].refs == 2;
            Used(WithRefs(h, id, h[id].refs - 1), if last then Without(lru, id) + [id] else lru,
              if last then Without(inUse, id) else inUse, usage)
  {
    hide Without;
    var g := WithRefs(h, id, h[id].refs - 1);
    ListSums(h, g, lru, inUse);
    if h[id].inCache && h[id].refs == 2 {
      WithoutNoDup(inUse, id);
      WithoutAbsent(lru, id);
      ChargesWithout(g, inUse, id);
      ChargesAppend(g, lru, id);
    }
  }

  /** The cache drops an entry that has left the table. */
  lemma DropKeeps(h: Handles, lru: seq<nat>, inUse: seq<nat>, usage: nat, held: map<nat, nat>, deleted: seq<nat>,
      nextId: nat,
                  contents: map<TableKey, nat>, id: nat)
    requires Sound(h, lru, inUse, usage, held, deleted, nextId, contents, Some(id)) && id in h && h[id].inCache
    ensures usage >= h[id].charge && id in held
    ensures h[id].refs == 1 ==>
      Sound(h - {id}, Without(lru, id), Without(inUse, id), usage - h[id].charge, held - {id}, deleted + [id], nextId,
        contents, None)
    ensures h[id].refs > 1 ==>
      Sound(h[id := h[id].(inCache := false, refs := h[id].refs - 1)], Without(lru, id), Without(inUse, id),
        usage - h[id].charge,
            held, deleted, nextId, contents, None)
  {
    DropLists(h, lru, inUse, usage, id);
    DropMaps(h, held, deleted, nextId, contents, id);
    hide Used, Accounted, Freed, Mapped, Without;
  }

  lemma DropMaps(h: Handles, held: map<nat, nat>, deleted: seq<nat>, nextId: nat, contents: map<TableKey, nat>, id: nat)
    requires Accounted(h, held) && Freed(h, deleted, nextId) && Mapped(h, contents, Some(id)) && id in h
    requires h[id].inCache && h[id].refs >= 1
    ensures id in held
    ensures h[id].refs == 1 ==>
        Accounted(h - {id}, held - {id}) && Freed(h - {id}, deleted + [id], nextId) && Mapped(h - {id}, contents, None)
    ensures h[id].refs > 1 ==>
      (var g := h[id := h[id].(inCache := false, refs := h[id].refs - 1)];
       Accounted(g, held) && Freed(g, deleted, nextId) && Mapped(g, contents, None))
  {}

  lemma DropLists(h: Handles, lru: seq<nat>, inUse: seq<nat>, usage: nat, id: nat)
    requires Used(h, lru, inUse, usage) && id in h && h[id].inCache
    ensures usage >= h[id].charge && h[id].refs >= 1
    ensures h[id].refs == 1 ==> Used(h - {id}, Without(lru, id), Without(inUse, id), usage - h[id].charge)
    ensures h[id].refs > 1 ==>
      Used(h[id := h[id].(inCache := false, refs := h[id].refs - 1)], Without(lru, id), Without(inUse, id),
        usage - h[id].charge)
  {
    hide Without;
    WithoutNoDup(lru, id);
    WithoutNoDup(inUse, id);
    ChargesWithout(h, lru, id);
    ChargesWithout(h, inUse, id);
    var g := if h[id].refs == 1 then h - {id} else h[id := h[id].(inCache := false, refs := h[id].refs - 1)];
    ChargesSame(h, g, Without(lru, id));
    ChargesSame(h, g, Without(inUse, id));
  }

  /** A new entry, cached or not. */
  lemma NewKeeps(h: Handles, lru: seq<nat>, inUse: seq<nat>, usage: nat, held: map<nat, nat>, deleted: seq<nat>,
      nextId: nat,
                 contents: map<TableKey, nat>, k: TableKey, charge: nat, cached: bool)
    requires Sound(h, lru, inUse, usage, held, deleted, nextId, contents, None)
    ensures nextId !in h
    ensures var e := Handle(k, charge, cached, if cached then 2 else 1);
            var replaced := if cached && k in contents then Some(contents[k]) else None;
            Sound(h[nextId := e], lru, if cached then inUse + [nextId] else inUse,
              if cached then usage + charge else usage,
                  held[nextId := 1], deleted, nextId + 1, if cached then contents[k := nextId] else contents, replaced)
  {
    hide Used, Accounted, Freed, Mapped;
    NewMaps(h, held, deleted, nextId, contents, k, charge, cached);
    NewLists(h, lru, inUse, usage, nextId, k, charge, cached);
  }

  lemma NewMaps(h: Handles, held: map<nat, nat>, deleted: seq<nat>, nextId: nat, contents: map<TableKey, nat>,
      k: TableKey, charge: nat, cached: bool)
    requires Accounted(h, held) && Freed(h, deleted, nextId) && Mapped(h, contents, None)
    ensures nextId !in h
    ensures var g := h[nextId := Handle(k, charge, cached, if cached then 2 else 1)];
            && Accounted(g, held[nextId := 1]) && Freed(g, deleted, nextId + 1)
            && Mapped(g, if cached then contents[k := nextId] else contents, if cached &&
              k in contents then Some(contents[k]) else None)
  {}

  lemma NewLists(h: Handles, lru: seq<nat>, inUse: seq<nat>, usage: nat, id: nat, k: TableKey, charge: nat,
      cached: bool)
    requires Used(h, lru, inUse, usage) && id !in h
    ensures Used(h[id := Handle(k, charge, cached, if cached then 2 else 1)], lru,
        if cached then inUse + [id] else inUse,
                 if cached then usage + charge else usage)
  {
    var g := h[id := Handle(k, charge, cached, if cached then 2 else 1)];
    ListSums(h, g, lru, inUse);
    if cached { ChargesAppend(g, inUse, id); }
  }

  class LRUCache {
    const table: HandleTable
    var capacity: nat
    var usage: nat
    /** Oldest first. */
    var lru: seq<nat>
    var inUse: seq<nat>
    /** The entries that are alive, by handle. */
    var handles: Handles
    /** The handles whose deleter has run, in order. */
    var deleted: seq<nat>
    var nextId: nat
    /** References that clients hold. */
    ghost var held: map<nat, nat>
    /** All calls of Release so far. */
    ghost var released: seq<nat>

    /** The list lru_ has the unheld entries in the order in which they were last released. */
    ghost predicate ValidBut(leaving: Option<nat>)
      reads this, table
    {
      && table.Valid() && Sound(handles, lru, inUse, usage, held, deleted, nextId, table.contents, leaving)
      && OldestFirst(lru, released)
    }

    ghost predicate Valid()
      reads this, table
    {
      ValidBut(None)
    }

    constructor (capacity: nat)
      ensures Valid() && fresh(this.table) && this.capacity == capacity && handles == map[] && table.contents == map[]
    {
      table := new HandleTable();
      this.capacity, usage, lru, inUse := capacity, 0, [], [];
      handles, deleted, nextId, held, released := map[], [], 0, map[], [];
    }

    method LRURemove(id: nat)
      modifies this`lru, this`inUse
      ensures lru == Without(old(lru), id) && inUse == Without(old(inUse), id)
    {
      lru, inUse := Without(lru, id), Without(inUse, id);
    }

    method Ref(id: nat)
      requires Valid() && id in handles && handles[id].inCache
      modifies this`lru, this`inUse, this`handles, this`held
      ensures Valid() && held == old(held)[id := old(held[id]) + 1] && id in handles
      ensures handles[id].key == old(handles[id].key) && lru == Without(old(lru), id)
    {
      hide Sound, Without, Used, Accounted, Freed, Mapped, HandleTable.Valid, OldestFirst;
      HeldIsOff(handles, lru, inUse, usage, held, deleted, nextId, table.contents, id);
      WithoutOldestFirst(lru, released, id);
      RefKeeps(handles, lru, inUse, usage, held, deleted, nextId, table.contents, id);
      RefFacts(handles, lru, inUse, usage, held, deleted, nextId, table.contents, id);
      if handles[id].refs == 1 && handles[id].inCache {
        LRURemove(id);
        inUse := inUse + [id];
      }
      handles := WithRefs(handles, id, handles[id].refs + 1);
      held := held[id := held[id] + 1];
    }

    /** Unref, as a change of state; at zero references the deleter runs. */
    method Unref(id: nat)
      requires id in handles && handles[id].refs > 0
      modifies this`lru, this`inUse, this`handles, this`deleted
      ensures var e := old(handles[id]);
              if e.refs == 1 then handles == old(handles) - {id} && deleted == old(deleted) + [id] &&
                  lru == old(lru) && inUse == old(inUse)
              else
                && handles == WithRefs(old(handles), id, e.refs - 1) && deleted == old(deleted)
                && (if e.inCache && e.refs == 2 then lru == Without(old(lru), id) + [id] &&
                  inUse == Without(old(inUse), id)
                    else lru == old(lru) && inUse == old(inUse))
    {
      handles := WithRefs(handles, id, handles[id].refs - 1);
      if handles[id].refs == 0 {
        deleted := deleted + [id];
        handles := handles - {id};
      } else if handles[id].inCache && handles[id].refs == 1 {
        LRURemove(id);
        lru := lru + [id];
      }
    }

    method Lookup(k: TableKey) returns (r: Option<nat>)
      requires Valid()
      modifies this`lru, this`inUse, this`handles, this`held
      ensures Valid()
      ensures r == if k in table.contents then Some(table.contents[k]) else None
      ensures held == if r.Some? then old(held)[r.value := old(held[r.value]) + 1] else old(held)
      ensures r.Some? ==> r.value in handles && handles[r.value].key == k
      ensures lru == if r.Some? then Without(old(lru), r.value) else old(lru)
    {
      hide Sound, Without, Used, Accounted, Freed, Mapped, HandleTable.Valid, OldestFirst;
      NewFacts(handles, lru, inUse, usage, held, deleted, nextId, table.contents, k);
      r := table.Lookup(k);
      if r.Some? {
        Ref(r.value);
      }
    }

    /** Release: an entry that is then left to the cache alone becomes the newest of its list. */
    method Release(id: nat)
      requires Valid() && id in held && held[id] > 0
      modifies this`lru, this`inUse, this`handles, this`deleted, this`held, this`released
      ensures Valid() && released == old(released) + [id]
      ensures lru ==
          if old(handles[id].inCache && handles[id].refs == 2) then Without(old(lru), id) + [id] else old(lru)
      ensures deleted == if old(handles[id].refs) == 1 then old(deleted) + [id] else old(deleted)
      ensures held == if old(handles[id].refs) == 1 then old(held) - {id} else old(held)[id := old(held[id]) - 1]
    {
      hide Sound, Used, Accounted, Freed, Mapped, HandleTable.Valid, Without, OldestFirst;
      RefFacts(handles, lru, inUse, usage, held, deleted, nextId, table.contents, id);
      NotListed(handles, lru, inUse, usage, held, deleted, nextId, table.contents, id);
      LoggedLast(lru, released, id);
      released := released + [id];
      if handles[id].refs == 1 {
        LastUnrefKeeps(handles, lru, inUse, usage, held, deleted, nextId, table.contents, id);
        Unref(id);
        held := held - {id};
      } else {
        UnrefKeeps(handles, lru, inUse, usage, held, deleted, nextId, table.contents, id);
        Unref(id);
        held := held[id := held[id] - 1];
      }
    }

    /** FinishErase of an entry the table no longer has. */
    method FinishErase(removed: Option<nat>) returns (erased: bool)
      requires ValidBut(removed) && (removed.Some? ==> removed.value in handles && handles[removed.value].inCache)
      modifies this`lru, this`inUse, this`handles, this`deleted, this`held, this`usage
      ensures Valid() && erased == removed.Some?
      ensures removed.None? ==> lru == old(lru) && usage == old(usage) && held == old(held) && deleted == old(deleted)
      ensures removed.Some? ==> lru == Without(old(lru), removed.value)
      ensures SameClients(old(held), held)
      ensures removed.Some? ==>
        (if old(handles[removed.value].refs) == 1 then held == old(held) - {removed.value} &&
          deleted == old(deleted) + [removed.value]
         else held == old(held) && deleted == old(deleted))
      ensures removed.Some? ==> usage == old(usage) - old(handles[removed.value].charge)
      ensures removed.Some? && old(handles[removed.value].refs) == 1 ==> handles == old(handles) - {removed.value}
      ensures forall i :: i in handles && Some(i) != removed ==> i in old(handles) && handles[i] == old(handles)[i]
    {
      hide Used, Accounted, Freed, Mapped, HandleTable.Valid, Without, OldestFirst;
      if removed.Some? {
        var id := removed.value;
        WithoutOldestFirst(lru, released, id);
        DropKeeps(handles, lru, inUse, usage, held, deleted, nextId, table.contents, id);
        RefCounted(handles, lru, inUse, usage, held, deleted, nextId, table.contents, Some(id), id);
        ghost var last := handles[id].refs == 1;
        Drop(id);
        if last { held := held - {id}; }
      }
      erased := removed.Some?;
    }

    /** The state change of FinishErase. */
    method Drop(id: nat)
      requires id in handles && handles[id].refs >= 1 && usage >= handles[id].charge
      modifies this`lru, this`inUse, this`handles, this`deleted, this`usage
      ensures var e := old(handles[id]);
              && lru == Without(old(lru), id) && inUse == Without(old(inUse), id) && usage == old(usage) - e.charge
              && (if e.refs == 1 then handles == old(handles) - {id} && deleted == old(deleted) + [id]
                  else
                    && handles == old(handles)[id := e.(inCache := false, refs := e.refs - 1)]
                    && deleted == old(deleted))
    {
      hide Without;
      ghost var h := handles;
      var charge := handles[id].charge;
      LRURemove(id);
      handles := handles[id := handles[id].(inCache := false)];
      usage := usage - charge;
      SameDrop(h, handles, id);
      Unref(id);
    }

    method Erase(k: TableKey)
      requires Valid()
      modifies this, table
      ensures Valid() && table.contents == old(table.contents) - {k} && capacity == old(capacity)
      ensures released == old(released)
      ensures SameClients(old(held), held)
      ensures k !in old(table.contents) ==>
          lru == old(lru) && usage == old(usage) && held == old(held) && deleted == old(deleted)
      ensures k in old(table.contents) ==>
        var id := old(table.contents[k]);
        id in old(handles) && lru == Without(old(lru), id) && usage == old(usage) - old(handles)[id].charge
        && deleted == if old(handles)[id].refs == 1 then old(deleted) + [id] else old(deleted)
    {
      hide OldestFirst, Sound, Without, Used, Accounted, Freed, Mapped, HandleTable.Valid;
      TakeOut(handles, lru, inUse, usage, held, deleted, nextId, table.contents, k);
      var removed := table.Remove(k);
      var erased := FinishErase(removed);
    }

    /** Prune: exactly the entries that clients refer to are left. */
    method Prune()
      requires Valid()
      modifies this, table
      ensures Valid() && lru == [] && capacity == old(capacity) && released == old(released)
      ensures SameClients(old(held), held)
      ensures forall k :: k in table.contents <==> k in old(table.contents) && old(table.contents)[k] !in old(lru)
      ensures forall k :: k in table.contents ==> table.contents[k] == old(table.contents)[k]
    {
      hide OldestFirst, Sound, HandleTable.Valid;
      while lru != []
        invariant Valid() && capacity == old(capacity) && SameClients(old(held), held) && released == old(released)
        invariant forall id :: id in lru ==> id in old(lru)
        invariant forall k :: k in table.contents <==>
            k in old(table.contents) && (old(table.contents)[k] in lru || old(table.contents)[k] !in old(lru))
        invariant forall k :: k in table.contents ==> table.contents[k] == old(table.contents)[k]
        decreases |lru|
      {
        ghost var before := lru;
        EvictOldest();
        assert forall id :: id in before <==> id == before[0] || id in lru;
      }
    }

    /** Removing the entry at the front of the LRU list runs its deleter: nobody else refers to it. */
    method EvictOldest()
      requires Valid() && lru != []
      modifies this, table
      ensures Valid() && lru == old(lru)[1..] && deleted == old(deleted) + [old(lru[0])] && capacity == old(capacity)
      ensures released == old(released)
      ensures held == old(held) - {old(lru[0])} && old(lru[0] in held && held[lru[0]] == 0)
      ensures forall k :: k in table.contents <==> k in old(table.contents) && old(table.contents)[k] != old(lru[0])
      ensures forall k :: k in table.contents ==> table.contents[k] == old(table.contents)[k]
      ensures old(lru[0] in handles) && old(lru[0]) !in lru
      ensures handles == old(handles) - {old(lru[0])} && usage == old(usage) - old(handles[lru[0]].charge)
    {
      hide OldestFirst, Sound, Without, Used, Accounted, Freed, Mapped, HandleTable.Valid;
      var oldest := lru[0];
      OldestIsCached(handles, lru, inUse, usage, held, deleted, nextId, table.contents);
      TakeOut(handles, lru, inUse, usage, held, deleted, nextId, table.contents, handles[oldest].key);
      var removed := table.Remove(handles[oldest].key);
      var erased := FinishErase(removed);
    }

    /** Insert: the new entry is in the cache, and the cache is within its capacity unless clients hold
        on to what is in it; the entries dropped for that are the least recently used. */
    method Insert(k: TableKey, charge: nat) returns (id: nat)
      requires Valid()
      modifies this, table
      ensures Valid() && capacity == old(capacity) && released == old(released)
      ensures id == old(nextId) && id in held && held[id] == 1 && SameClients(old(held), held)
      ensures capacity > 0 ==> k in table.contents && table.contents[k] == id
      ensures usage <= capacity || lru == []
      ensures Suffix(lru, old(if capacity > 0 && k in table.contents then Without(lru, table.contents[k]) else lru))
      ensures var waiting := old(if capacity > 0 && k in table.contents then Without(lru, table.contents[k]) else lru);
              NoneInVain(waiting, lru, old(handles), usage, capacity)
      ensures var waiting := old(if capacity > 0 && k in table.contents then Without(lru, table.contents[k]) else lru);
              var placed := if capacity > 0 then old(table.contents)[k := id] else old(table.contents);
              && OthersStay(placed, table.contents, Evicted(waiting, lru))
              && deleted == old(deleted) + old(ReplacedNow(k)) + Evicted(waiting, lru)
              && ReleasedBefore(Evicted(waiting, lru), lru, released)
    {
      hide OldestFirst, Sound, Without, Used, Accounted, Freed, Mapped, HandleTable.Valid, Suffix, NoneInVain,
        OthersStay,
        Evicted;
      hide LRUCache.ReplacedNow, ReleasedBefore;
      id := Place(k, charge);
      ghost var waiting, h := lru, handles;
      EvictToFit(id);
      KeptCharges(waiting, lru, h, old(handles), usage, capacity);
      OldestGo(waiting, lru, released);
    }

    /** The entry under k if a new one for k replaces it and only the cache refers to it; its deleter runs
        at once. */
    ghost function ReplacedNow(k: TableKey): seq<nat>
      requires Valid()
      reads this, table
    {
      NewFacts(handles, lru, inUse, usage, held, deleted, nextId, table.contents, k);
      if capacity > 0 && k in table.contents && handles[table.contents[k]].refs == 1 then [table.contents[k]] else []
    }

    /** The first part of Insert: the new entry replaces the one under its key. */
    method Place(k: TableKey, charge: nat) returns (id: nat)
      requires Valid()
      modifies this, table
      ensures Valid() && capacity == old(capacity) && released == old(released)
      ensures id == old(nextId) && id in held && held[id] == 1 && SameClients(old(held), held)
      ensures capacity > 0 ==> k in table.contents && table.contents[k] == id
      ensures lru == old(if capacity > 0 && k in table.contents then Without(lru, table.contents[k]) else lru)
      ensures forall i :: i in lru && i in handles ==> i in old(handles) && handles[i] == old(handles)[i]
      ensures table.contents == if capacity > 0 then old(table.contents)[k := id] else old(table.contents)
      ensures deleted == old(deleted) + old(ReplacedNow(k))
    {
      hide OldestFirst, Sound, Without, Used, Accounted, Freed, Mapped, HandleTable.Valid;
      id := nextId;
      NewKeeps(handles, lru, inUse, usage, held, deleted, nextId, table.contents, k, charge, capacity > 0);
      NewFacts(handles, lru, inUse, usage, held, deleted, nextId, table.contents, k);
      nextId := nextId + 1;
      held := held[id := 1];
      if capacity > 0 {
        handles := handles[id := Handle(k, charge, true, 2)];
        inUse := inUse + [id];
        usage := usage + charge;
        var replaced := table.Insert(k, id);
        var erased := FinishErase(replaced);
      } else {
        handles := handles[id := Handle(k, charge, false, 1)];
      }
    }

    /** The end of Insert; an entry that a client holds stays where it is. */
    method EvictToFit(ghost id: nat)
      requires Valid() && id in held && held[id] == 1
      modifies this, table
      ensures Valid() && capacity == old(capacity) && id in held && held[id] == 1 && Suffix(lru, old(lru))
      ensures released == old(released)
      ensures usage <= capacity || lru == []
      ensures NoneInVain(old(lru), lru, old(handles), usage, capacity)
      ensures SameClients(old(held), held)
      ensures OthersStay(old(table.contents), table.contents, Evicted(old(lru), lru))
      ensures deleted == old(deleted) + Evicted(old(lru), lru)
      ensures forall k :: k in old(table.contents) && old(table.contents)[k] == id ==>
          k in table.contents && table.contents[k] == id
    {
      hide OldestFirst, Sound, Without, Used, Accounted, Freed, Mapped, HandleTable.Valid, OthersStay, Evicted, Suffix,
        NoneInVain;
      NoneEvicted(lru, table.contents, handles, usage, capacity);
      while usage > capacity && lru != []
        invariant Valid() && capacity == old(capacity) && id in held && held[id] == 1 && Suffix(lru, old(lru))
        invariant released == old(released)
        invariant SameClients(old(held), held)
        invariant NoneInVain(old(lru), lru, old(handles), usage, capacity)
        invariant forall i :: i in handles ==> i in old(handles) && handles[i] == old(handles)[i]
        invariant OthersStay(old(table.contents), table.contents, Evicted(old(lru), lru))
        invariant deleted == old(deleted) + Evicted(old(lru), lru)
        invariant forall k :: k in old(table.contents) && old(table.contents)[k] == id ==>
            k in table.contents && table.contents[k] == id
        decreases |lru|
      {
        OneMoreEvicted(old(lru), lru);
        ghost var left, before, gone := lru, table.contents, Evicted(old(lru), lru);
        EvictOldest();
        StaysStep(old(table.contents), before, table.contents, gone, left[0]);
        HadToGo(old(lru), left, old(handles), usage, capacity);
      }
    }
  }

  /** The entries at the front of `waiting` that are no longer in `left`. */
  ghost function Evicted(waiting: seq<nat>, left: seq<nat>): seq<nat> {
    if |left| <= |waiting| then waiting[..|waiting| - |left|] else []
  }

  /** Every one of a was last released before every one of b. */
  ghost predicate ReleasedBefore(a: seq<nat>, b: seq<nat>, released: seq<nat>) {
    forall x, y :: x in a && y in b ==> LastIn(released, x) < LastIn(released, y)
  }

  /** Those at the front of the list are the least recently used. */
  lemma OldestGo(waiting: seq<nat>, left: seq<nat>, released: seq<nat>)
    requires OldestFirst(waiting, released) && Suffix(left, waiting)
    ensures ReleasedBefore(Evicted(waiting, left), left, released)
  {
    hide LastIn;
    forall x, y | x in Evicted(waiting, left) && y in left ensures LastIn(released, x) < LastIn(released, y) {
      var i :| 0 <= i < |waiting| - |left| && waiting[i] == x;
      var j :| 0 <= j < |left| && left[j] == y;
      assert waiting[|waiting| - |left| + j] == y;
    }
  }

  lemma OneMoreEvicted(waiting: seq<nat>, left: seq<nat>)
    requires Suffix(left, waiting) && left != []
    ensures Evicted(waiting, left[1..]) == Evicted(waiting, left) + [left[0]] && Suffix(left[1..], waiting)
  {}

  /** The oldest of those left goes because without it there is no room. */
  lemma HadToGo(waiting: seq<nat>, left: seq<nat>, h: Handles, usage: nat, capacity: nat)
    requires Suffix(left, waiting) && left != [] && left[0] in h && usage + h[left[0]].charge > capacity
    ensures NoneInVain(waiting, left[1..], h, usage, capacity)
  {
    assert waiting[|waiting| - |left|] == left[0];
  }

  lemma NoneEvicted(waiting: seq<nat>, contents: map<TableKey, nat>, h: Handles, usage: nat, capacity: nat)
    ensures Evicted(waiting, waiting) == [] && OthersStay(contents, contents, []) && Suffix(waiting, waiting)
    ensures NoneInVain(waiting, waiting, h, usage, capacity)
  {}

  lemma StaysStep(c0: map<TableKey, nat>, c1: map<TableKey, nat>, c2: map<TableKey, nat>, evicted: seq<nat>, x: nat)
    requires OthersStay(c0, c1, evicted)
    requires forall k :: k in c2 <==> k in c1 && c1[k] != x
    requires forall k :: k in c2 ==> c2[k] == c1[k]
    ensures OthersStay(c0, c2, evicted + [x])
  {}

  /** A key is still there exactly if its entry was not evicted, and with the same entry. */
  ghost predicate OthersStay(before: map<TableKey, nat>, after: map<TableKey, nat>, evicted: seq<nat>) {
    && (forall k :: k in after <==> k in before && before[k] !in evicted)
    && (forall k :: k in after ==> after[k] == before[k])
  }

  lemma SameDrop(h: Handles, g: Handles, id: nat)
    requires id in h && h[id].refs >= 1 && g == h[id := h[id].(inCache := false)]
    ensures g - {id} == h - {id}
    ensures WithRefs(g, id, h[id].refs - 1) == h[id := h[id].(inCache := false, refs := h[id].refs - 1)]
  {}

  /** Clients' references are not touched. */
  ghost predicate SameClients(a: map<nat, nat>, b: map<nat, nat>) {
    forall id :: id in a && a[id] > 0 ==> id in b && b[id] == a[id]
  }

  ghost predicate Suffix(a: seq<nat>, b: seq<nat>) {
    |a| <= |b| && a == b[|b| - |a|..]
  }

  /** The last entry to be evicted, if any was, had to go. */
  ghost predicate NoneInVain(waiting: seq<nat>, left: seq<nat>, h: Handles, usage: nat, capacity: nat) {
    |left| < |waiting| ==>
      var last := waiting[|waiting| - |left| - 1];
      last in h && usage + h[last].charge > capacity
  }

  lemma KeptCharges(waiting: seq<nat>, left: seq<nat>, h: Handles, g: Handles, usage: nat, capacity: nat)
    requires NoneInVain(waiting, left, h, usage, capacity)
    requires forall id :: id in waiting && id in h ==> id in g && g[id] == h[id]
    ensures NoneInVain(waiting, left, g, usage, capacity)
  {}

  lemma NewFacts(h: Handles, lru: seq<nat>, inUse: seq<nat>, usage: nat, held: map<nat, nat>, deleted: seq<nat>,
      nextId: nat,
                 contents: map<TableKey, nat>, k: TableKey)
    requires Sound(h, lru, inUse, usage, held, deleted, nextId, contents, None)
    ensures nextId !in held && nextId !in lru
    ensures k in contents ==> contents[k] in h && h[contents[k]].inCache && h[contents[k]].key == k
  {}

  /** The oldest entry on the LRU list is cached, and no client refers to it. */
  lemma OldestIsCached(h: Handles, lru: seq<nat>, inUse: seq<nat>, usage: nat, held: map<nat, nat>, deleted: seq<nat>,
      nextId: nat,
                       contents: map<TableKey, nat>)
    requires Sound(h, lru, inUse, usage, held, deleted, nextId, contents, None) && lru != []
    ensures lru[0] in h && h[lru[0]].inCache && h[lru[0]].refs == 1 && h[lru[0]].key in contents
    ensures contents[h[lru[0]].key] == lru[0]
    ensures lru[0] in held && held[lru[0]] == 0 && Without(lru, lru[0]) == lru[1..]
    ensures forall k :: k in contents && contents[k] != lru[0] ==> k != h[lru[0]].key
    ensures forall k :: k in contents && contents[k] == lru[0] ==> k == h[lru[0]].key
    ensures lru[0] !in lru[1..]
  {
    assert lru[0] in lru;
    WithoutFirst(lru);
  }

  lemma TakeOut(h: Handles, lru: seq<nat>, inUse: seq<nat>, usage: nat, held: map<nat, nat>, deleted: seq<nat>,
      nextId: nat,
                contents: map<TableKey, nat>, k: TableKey)
    requires Sound(h, lru, inUse, usage, held, deleted, nextId, contents, None)
    ensures Sound(h, lru, inUse, usage, held, deleted, nextId, contents - {k},
        if k in contents then Some(contents[k]) else None)
    ensures k in contents ==> contents[k] in h && h[contents[k]].inCache
  {}
}
