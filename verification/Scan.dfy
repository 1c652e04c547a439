/** Iterators over the whole database (db/db_impl.cc:1062-1087, 1147-1157, db/version_set.cc:230-246). */
module Scans {
  import opened DbFormat
  import opened Reads
  import opened Files
  import opened Lsm
  import opened Version
  import opened VersionBuilder
  import opened SortedEntries
  import opened Cursors
  import opened DbIter
  import opened Merger
  import DbImpl

  // ---- The children ------------------------------------------------------------------------------

  function FileLists(files: seq<File>): (r: seq<seq<Entry>>)
    ensures |r| == |files|
  {
    seq(|files|, i requires 0 <= i < |files| => files[i].entries)
  }

  /** What a concatenating iterator over the files of a level yields. */
  function Concatenation(files: seq<File>): seq<Entry> {
    if files == [] then [] else files[0].entries + Concatenation(files[1..])
  }

  /** Version::AddIterators, for the levels from lvl on. */
  function DeepLists(current: seq<seq<File>>, lvl: nat): seq<seq<Entry>>
    requires |current| == NUM_LEVELS
    decreases NUM_LEVELS - lvl
  {
    if lvl >= NUM_LEVELS then []
    else (if current[lvl] == [] then [] else [Concatenation(current[lvl])]) + DeepLists(current, lvl + 1)
  }

  /** The children of the internal iterator, in the order they are collected. */
  function Children(mem: seq<Entry>, imm: Option<seq<Entry>>, current: seq<seq<File>>): seq<seq<Entry>>
    requires |current| == NUM_LEVELS
  {
    [mem] + ((if imm.Some? then [imm.value] else []) + (FileLists(current[0]) + DeepLists(current, 1)))
  }

  ghost function UnionOf(lists: seq<seq<Entry>>): set<Entry> {
    if lists == [] then {} else Elements(lists[0]) + UnionOf(lists[1..])
  }

  lemma {:induction false} UnionAppend(a: seq<seq<Entry>>, b: seq<seq<Entry>>)
    ensures UnionOf(a + b) == UnionOf(a) + UnionOf(b)
    decreases |a|
  {
    if a == [] {
      assert a + b == b;
    } else {
      UnionAppend(a[1..], b);
      assert (a + b)[1..] == a[1..] + b;
    }
  }

  lemma {:induction false} UnionMember(lists: seq<seq<Entry>>, c: nat)
    requires c < |lists|
    ensures Elements(lists[c]) <= UnionOf(lists)
    decreases |lists|
  {
    if c > 0 { UnionMember(lists[1..], c - 1); }
  }

  lemma {:induction false} UnionHolder(lists: seq<seq<Entry>>, e: Entry) returns (c: nat, j: nat)
    requires e in UnionOf(lists)
    ensures Holds(lists, c, j, e)
    decreases |lists|
  {
    if e in lists[0] {
      c := 0;
      j :| 0 <= j < |lists[0]| && lists[0][j] == e;
    } else {
      c, j := UnionHolder(lists[1..], e);
      c := c + 1;
    }
  }

  /** Of any two lists, one is newer than the other. */
  ghost predicate Ranked(lists: seq<seq<Entry>>) {
    forall c, d :: 0 <= c < d < |lists| ==>
        Newer(Elements(lists[c]), Elements(lists[d])) || Newer(Elements(lists[d]), Elements(lists[c]))
  }

  /** Sorted lists of the entries of S, no two of them with a key in common. */
  ghost predicate Layers(lists: seq<seq<Entry>>, S: set<Entry>) {
    AllSorted(lists) && Ranked(lists) && UnionOf(lists) == S
  }

  lemma LayersDistinct(lists: seq<seq<Entry>>)
    requires Ranked(lists)
    ensures DistinctKeys(lists)
  {
    forall c: nat, i: nat, d: nat, j: nat, e: Entry, f: Entry | Holds(lists, c, i, e) && Holds(lists, d, j, f) && c != d
      ensures e.Key() != f.Key()
    {
      assert e in Elements(lists[c]) && f in Elements(lists[d]);
      if c < d {
        assert Newer(Elements(lists[c]), Elements(lists[d])) || Newer(Elements(lists[d]), Elements(lists[c]));
      } else {
        assert Newer(Elements(lists[d]), Elements(lists[c])) || Newer(Elements(lists[c]), Elements(lists[d]));
      }
    }
  }

  lemma NoLayers()
    ensures Layers([], {})
  {}

  lemma OneLayer(es: seq<Entry>)
    requires Sorted(es)
    ensures Layers([es], Elements(es))
  {
    assert UnionOf([es][1..]) == {};
  }

  lemma JoinLayers(a: seq<seq<Entry>>, A: set<Entry>, b: seq<seq<Entry>>, B: set<Entry>)
    requires Layers(a, A) && Layers(b, B) && Newer(A, B)
    ensures Layers(a + b, A + B)
  {
    UnionAppend(a, b);
    forall c, d | 0 <= c < d < |a + b|
      ensures Newer(Elements((a + b)[c]), Elements((a + b)[d])) || Newer(Elements((a + b)[d]), Elements((a + b)[c]))
    {
      if c < |a| { UnionMember(a, c); }
      if d >= |a| { UnionMember(b, d - |a|); }
    }
  }

  // ---- Level 0 and the levels below it -----------------------------------------------------------

  lemma {:induction false} FileListsUnion(files: seq<File>)
    ensures UnionOf(FileLists(files)) == Entries(Elements(files))
    decreases |files|
  {
    if files == [] {
      assert Entries(Elements(files)) == {};
    } else {
      FileListsUnion(files[1..]);
      assert FileLists(files)[1..] == FileLists(files[1..]);
      assert Elements(files) == {files[0]} + Elements(files[1..]) by { assert files == [files[0]] + files[1..]; }
      EntriesUnion({files[0]}, Elements(files[1..]));
      assert Entries({files[0]}) == Elements(files[0].entries);
    }
  }

  lemma LevelZeroLayers(files: seq<File>)
    requires BySmallest(files) && (forall f :: f in files ==> WellFormed(f))
    requires ByNumber(Elements(files)) && NumbersUnique(Elements(files))
    ensures Layers(FileLists(files), Entries(Elements(files)))
  {
    FileListsUnion(files);
    forall c, d | 0 <= c < d < |files|
      ensures Newer(Elements(files[c].entries), Elements(files[d].entries)) ||
          Newer(Elements(files[d].entries), Elements(files[c].entries))
    {
      FileLessTotal(files[c], files[d]);
      assert files[c] in Elements(files) && files[d] in Elements(files) && files[c] != files[d];
    }
    forall c | 0 <= c < |files| ensures Sorted(FileLists(files)[c]) { assert files[c] in files; }
  }

  lemma {:induction false} ConcatenationHolds(files: seq<File>)
    ensures Elements(Concatenation(files)) == Entries(Elements(files))
    decreases |files|
  {
    if files == [] {
      assert Entries(Elements(files)) == {};
    } else {
      var f, rest := files[0], files[1..];
      ConcatenationHolds(rest);
      assert Elements(files) == {f} + Elements(rest) by { assert files == [f] + rest; }
      EntriesUnion({f}, Elements(rest));
      assert Entries({f}) == Elements(f.entries);
    }
  }

  lemma {:induction false} ConcatenationSorted(files: seq<File>)
    requires SortedFiles(files)
    ensures Sorted(Concatenation(files))
    decreases |files|
  {
    if files != [] {
      hide Sorted;
      var f, rest := files[0], files[1..];
      ConcatenationSorted(rest);
      ConcatenationHolds(rest);
      assert f in files;
      forall i, j | 0 <= i < |f.entries| && 0 <= j < |Concatenation(rest)|
        ensures Less(f.entries[i].Key(), Concatenation(rest)[j].Key())
      {
        RestBehind(files, f.entries[i], Concatenation(rest)[j]);
      }
      JoinSorted(f.entries, Concatenation(rest));
    }
  }

  lemma RestBehind(files: seq<File>, x: Entry, e: Entry)
    requires SortedFiles(files) && files != [] && x in files[0].entries && e in Entries(Elements(files[1..]))
    ensures Less(x.Key(), e.Key())
  {
    var g :| g in Elements(files[1..]) && e in g.entries;
    FileBefore(files, x, g, e);
  }

  lemma JoinSorted(a: seq<Entry>, b: seq<Entry>)
    requires Sorted(a) && Sorted(b)
    requires forall i, j :: 0 <= i < |a| && 0 <= j < |b| ==> Less(a[i].Key(), b[j].Key())
    ensures Sorted(a + b)
  {
    var all := a + b;
    forall i, j | 0 <= i < j < |all| ensures Less(all[i].Key(), all[j].Key()) {
      if i < |a| && |a| <= j { assert all[j] == b[j - |a|]; }
    }
  }

  lemma FileBefore(files: seq<File>, x: Entry, g: File, e: Entry)
    requires SortedFiles(files) && files != [] && x in files[0].entries && g in files[1..] && e in g.entries
    ensures Less(x.Key(), e.Key())
  {
    var k :| 0 <= k < |files[1..]| && files[1..][k] == g;
    assert files[k + 1] == g && g in files && files[0] in files;
    InRange(files[0], x);
    InRange(g, e);
  }

  lemma SpanSplits(levels: seq<set<File>>, lvl: nat)
    requires lvl < |levels|
    ensures Span(levels, lvl, |levels|) == Entries(levels[lvl]) + Span(levels, lvl + 1, |levels|)
  {}

  lemma LevelNewer(levels: seq<set<File>>, lvl: nat)
    requires lvl < NUM_LEVELS == |levels| && LevelOrder(levels)
    ensures Newer(Entries(levels[lvl]), Span(levels, lvl + 1, NUM_LEVELS))
  {}

  lemma {:induction false} DeepLayers(current: seq<seq<File>>, next: nat, lvl: nat)
    requires VersionOk(current, next) && 1 <= lvl <= NUM_LEVELS
    ensures Layers(DeepLists(current, lvl), Span(Abs(current), lvl, NUM_LEVELS))
    decreases NUM_LEVELS - lvl
  {
    if lvl == NUM_LEVELS {
      assert Span(Abs(current), lvl, NUM_LEVELS) == {};
    } else {
      hide Layers, LevelOrder, FilesOk, SortedFiles, Span, Entries;
      DeepLayers(current, next, lvl + 1);
      SpanSplits(Abs(current), lvl);
      LevelNewer(Abs(current), lvl);
      OneLevel(current[lvl]);
      JoinLayers(if current[lvl] == [] then [] else [Concatenation(current[lvl])], Entries(Abs(current)[lvl]),
                 DeepLists(current, lvl + 1), Span(Abs(current), lvl + 1, NUM_LEVELS));
    }
  }

  lemma OneLevel(files: seq<File>)
    requires SortedFiles(files)
    ensures Layers(if files == [] then [] else [Concatenation(files)], Entries(Elements(files)))
  {
    if files == [] {
      assert Entries(Elements(files)) == {};
    } else {
      ConcatenationSorted(files);
      ConcatenationHolds(files);
      OneLayer(Concatenation(files));
    }
  }

  lemma LevelZeroFiles(current: seq<seq<File>>, next: nat)
    requires VersionOk(current, next)
    ensures forall f :: f in current[0] ==> WellFormed(f)
    ensures ByNumber(Elements(current[0])) && NumbersUnique(Elements(current[0]))
  {
    assert Abs(current)[0] == Elements(current[0]) && Abs(current)[0] <= Deeper(Abs(current), 0);
  }

  lemma VersionLayers(current: seq<seq<File>>, next: nat)
    requires VersionOk(current, next) && BySmallest(current[0])
    ensures Layers(FileLists(current[0]) + DeepLists(current, 1), Span(Abs(current), 0, NUM_LEVELS))
  {
    hide Layers, LevelOrder, FilesOk, SortedFiles, Span, Entries, Newer, DeepLists, FileLists, BySmallest;
    var levels := Abs(current);
    LevelZeroFiles(current, next);
    LevelZeroLayers(current[0]);
    DeepLayers(current, next, 1);
    SpanSplits(levels, 0);
    LevelNewer(levels, 0);
    JoinLayers(FileLists(current[0]), Entries(levels[0]), DeepLists(current, 1), Span(levels, 1, NUM_LEVELS));
  }

  /** The children hold exactly what the database holds, and no two of them share a key. */
  lemma ChildrenLayers(db: Db, mem: seq<Entry>, imm: Option<seq<Entry>>, current: seq<seq<File>>)
    requires VersionOk(current, db.nextFile) && BySmallest(current[0]) && |db.levels| == NUM_LEVELS && Layered(db)
    requires Sorted(mem) && db.mem == Elements(mem) && db.levels == Abs(current)
    requires (imm.Some? ==> Sorted(imm.value)) && db.imm == if imm.Some? then Some(Elements(imm.value)) else None
    ensures Layers(Children(mem, imm, current), All(db))
  {
    VersionLayers(current, db.nextFile);
    OneLayer(mem);
    NoLayers();
    if imm.Some? { OneLayer(imm.value); }
    hide Layers;
    var deep := Span(db.levels, 0, NUM_LEVELS);
    var files := FileLists(current[0]) + DeepLists(current, 1);
    var second := if imm.Some? then [imm.value] else [];
    JoinLayers(second, db.Imm(), files, deep);
    JoinLayers([mem], db.mem, second + files, db.Imm() + deep);
  }

  // ---- The internal iterator ---------------------------------------------------------------------

  lemma SortedUnion(S: set<Entry>) returns (all: seq<Entry>)
    requires UniqueSeqs(S)
    ensures Sorted(all) && Elements(all) == S
  {
    if S == {} {
      all := [];
    } else {
      var e :| e in S;
      all := SortedUnion(S - {e});
      forall x | x in all && x.user == e.user && x.sn == e.sn ensures x == e { assert x in Elements(all); }
      InsertSorted(all, e);
      InsertElements(all, e);
      all := Insert(all, e);
    }
  }

  lemma UnionIs(lists: seq<seq<Entry>>, all: seq<Entry>)
    requires Sorted(all) && Elements(all) == UnionOf(lists)
    ensures IsUnion(lists, all)
  {
    forall c: nat, i: nat, e: Entry | Holds(lists, c, i, e) ensures e in all {
      UnionMember(lists, c);
      assert e in Elements(lists[c]);
      assert e in Elements(all);
    }
    forall e: Entry | e in all ensures exists c: nat, j: nat :: Holds(lists, c, j, e) {
      assert e in Elements(all);
      var c, j := UnionHolder(lists, e);
    }
  }

  lemma StoreLayers(db: Db, h: seq<Op>, mem: seq<Entry>, imm: Option<seq<Entry>>, current: seq<seq<File>>)
    requires Shape(db, h) && |current| == NUM_LEVELS && (forall i :: 0 <= i < NUM_LEVELS ==> BySmallest(current[i]))
    requires Sorted(mem) && db.mem == Elements(mem) && db.levels == Abs(current)
    requires (imm.Some? ==> Sorted(imm.value)) && db.imm == if imm.Some? then Some(Elements(imm.value)) else None
    ensures Layers(Children(mem, imm, current), All(db)) && UniqueSeqs(All(db))
  {
    DbImpl.VersionIsOk(current, db.nextFile);
    ChildrenLayers(db, mem, imm, current);
    AllUnique(db, h);
  }

  lemma StateLayers(db: DbImpl.DBImpl)
    requires db.Valid()
    ensures |db.versions.current| == NUM_LEVELS && |db.State().levels| == NUM_LEVELS
    ensures Layers(Children(db.mem, db.imm, db.versions.current), All(db.State())) && UniqueSeqs(All(db.State()))
  {
    hide Layers, UniqueSeqs, Children, All;
    StoreLayers(db.State(), db.history, db.mem, db.imm, db.versions.current);
  }

  /** DBImpl::NewInternalIterator: one cursor for each child, merged.  The merged order holds exactly
      the entries of the database. */
  method NewInternalIterator(db: DbImpl.DBImpl) returns (it: MergingIterator)
    requires db.Valid()
    ensures fresh(it) && it.Ok() && Elements(it.all) == All(db.State())
  {
    StateLayers(db);
    hide Layers, UniqueSeqs, DbImpl.DBImpl.Valid, Children, All, IsUnion, DistinctKeys;
    ghost var state := db.State();
    var lists := Children(db.mem, db.imm, db.versions.current);
    var cursors := NewCursors(lists, All(state));
    ghost var all := SortedUnion(All(state));
    LayersMerge(lists, All(state), all);
    it := new MergingIterator(cursors, lists, all);
  }

  lemma LayersMerge(lists: seq<seq<Entry>>, S: set<Entry>, all: seq<Entry>)
    requires Layers(lists, S) && Sorted(all) && Elements(all) == S
    ensures IsUnion(lists, all) && DistinctKeys(lists)
  {
    UnionIs(lists, all);
    LayersDistinct(lists);
  }

  method NewCursors(lists: seq<seq<Entry>>, ghost S: set<Entry>) returns (cursors: seq<Cursor>)
    requires Layers(lists, S)
    ensures |cursors| == |lists|
    ensures forall i :: 0 <= i < |cursors| ==> fresh(cursors[i]) && cursors[i].Ok() && cursors[i].es == lists[i]
    ensures forall c, d :: 0 <= c < d < |cursors| ==> cursors[c] != cursors[d]
  {
    cursors := [];
    for i := 0 to |lists|
      invariant |cursors| == i
      invariant forall c :: 0 <= c < i ==> fresh(cursors[c]) && cursors[c].Ok() && cursors[c].es == lists[c]
      invariant forall c, d :: 0 <= c < d < i ==> cursors[c] != cursors[d]
    {
      var child := new Cursor(lists[i]);
      cursors := cursors + [child];
    }
  }

  // ---- What a scan shows -------------------------------------------------------------------------

  /** The live positions of a scan at s, over everything the database holds, are exactly the map that
      the database was after the first s writes: each shows a pair of it, and each pair is shown once. */
  lemma ScanIsMap(db: Db, h: seq<Op>, all: seq<Entry>, s: nat)
    requires Inv(db, h) && Sorted(all) && Elements(all) == All(db) && SmallestSnapshot(db) <= s <= |h|
    ensures forall i :: 0 <= i < |all| && LiveAt(all, s, i) ==> Lookup(MapAt(h, s), all[i].user) == Some(all[i].value)
    ensures forall k :: k in MapAt(h, s) ==> exists i :: 0 <= i < |all| && LiveAt(all, s, i) && all[i].user == k
    ensures forall i, j :: 0 <= i < j < |all| && LiveAt(all, s, i) && LiveAt(all, s, j) ==> all[i].user < all[j].user
  {
    AllUnique(db, h);
    forall i | 0 <= i < |all| && LiveAt(all, s, i) ensures Lookup(MapAt(h, s), all[i].user) == Some(all[i].value) {
      LiveIsRead(all, s, all[i].user);
      HistoryIsMap(h, s, all[i].user);
    }
    forall k | k in MapAt(h, s) ensures exists i :: 0 <= i < |all| && LiveAt(all, s, i) && all[i].user == k {
      LiveIsRead(all, s, k);
      HistoryIsMap(h, s, k);
    }
    forall i, j | 0 <= i < j < |all| && LiveAt(all, s, i) && LiveAt(all, s, j) ensures all[i].user < all[j].user {
      Ascending(all, i, j);
      assert Seen(all, s, i);
    }
  }

  /** What FindNextUserEntry finds, in terms of the map: its first key past the bound, with its value. */
  lemma FirstIsMapFirst(db: Db, h: seq<Op>, all: seq<Entry>, s: nat, bound: Option<UserKey>, strict: bool,
      r: Option<nat>)
    requires Inv(db, h) && Sorted(all) && Elements(all) == All(db) && SmallestSnapshot(db) <= s <= |h|
    requires FirstLive(all, s, bound, strict, r)
    ensures r.None? ==> forall k :: k in MapAt(h, s) ==> !Above(k, bound, strict)
    ensures r.Some? ==> r.value < |all| && Lookup(MapAt(h, s), all[r.value].user) == Some(all[r.value].value)
    ensures r.Some? ==> Above(all[r.value].user, bound, strict)
    ensures r.Some? ==> forall k :: k in MapAt(h, s) && Above(k, bound, strict) ==> all[r.value].user <= k
  {
    ScanIsMap(db, h, all, s);
  }

  /** And what FindPrevUserEntry finds: the map's last key before the bound. */
  lemma LastIsMapLast(db: Db, h: seq<Op>, all: seq<Entry>, s: nat, bound: Option<UserKey>, r: Option<nat>)
    requires Inv(db, h) && Sorted(all) && Elements(all) == All(db) && SmallestSnapshot(db) <= s <= |h|
    requires LastLive(all, s, bound, r)
    ensures r.None? ==> forall k :: k in MapAt(h, s) ==> !Below(k, bound)
    ensures r.Some? ==> r.value < |all| && Lookup(MapAt(h, s), all[r.value].user) == Some(all[r.value].value)
    ensures r.Some? ==> Below(all[r.value].user, bound)
    ensures r.Some? ==> forall k :: k in MapAt(h, s) && Below(k, bound) ==> all[r.value].user >= k
  {
    ScanIsMap(db, h, all, s);
  }

  // ---- The user's iterator -----------------------------------------------------------------------

  /** DBImpl::NewIterator: a DBIter over the internal iterator, at the given snapshot or at the last
      sequence number. */
  method NewIterator(db: DbImpl.DBImpl, snapshot: Option<nat>) returns (it: DBIter)
    requires db.Valid()
    ensures fresh(it) && fresh(it.iter) && it.Ok() && !it.valid
    ensures it.sequence == if snapshot.Some? then snapshot.value else db.versions.lastSequence
    ensures Elements(it.iter.all) == All(db.State())
  {
    hide MergingIterator.Ok, DbImpl.DBImpl.Valid, Shape;
    var internal := NewInternalIterator(db);
    Unique(db);
    it := new DBIter(internal, if snapshot.Some? then snapshot.value else db.versions.lastSequence);
  }

  lemma Unique(db: DbImpl.DBImpl)
    requires db.Valid()
    ensures |db.State().levels| == NUM_LEVELS && UniqueSeqs(All(db.State()))
  {
    AllUnique(db.State(), db.history);
  }

  /** What a scan at s shows is the map the database was after s writes: each key once, in order, with its
      value, and no other. */
  ghost predicate ShowsMap(h: seq<Op>, all: seq<Entry>, s: nat, shown: seq<nat>, ascending: bool)
    requires s <= |h| && forall n :: 0 <= n < |shown| ==> shown[n] < |all|
  {
    && (forall n :: 0 <= n < |shown| ==> Lookup(MapAt(h, s), all[shown[n]].user) == Some(all[shown[n]].value))
    && (forall k :: k in MapAt(h, s) ==> ShowsKey(all, shown, k))
    && forall m, n :: 0 <= m < n < |shown| ==> Comes(all[shown[m]].user, all[shown[n]].user, ascending)
  }

  ghost predicate ShowsKey(all: seq<Entry>, shown: seq<nat>, k: UserKey)
    requires forall n :: 0 <= n < |shown| ==> shown[n] < |all|
  {
    exists n :: 0 <= n < |shown| && all[shown[n]].user == k
  }

  predicate Comes(a: UserKey, b: UserKey, ascending: bool) { if ascending then a < b else b < a }

  /** A step of a scan from the live key `from`, or from the end it starts at: the next live one in the
      direction of travel. */
  ghost predicate Steps(es: seq<Entry>, s: nat, from: Option<UserKey>, ascending: bool, r: Option<nat>) {
    if ascending then FirstLive(es, s, from, from.Some?, r) else LastLive(es, s, from, r)
  }

  /** The positions shown from SeekToFirst on by calling Next, or from SeekToLast on by calling Prev, until
      the iterator is no longer valid. */
  ghost predicate Scanned(es: seq<Entry>, s: nat, shown: seq<nat>, ascending: bool) {
    && (forall n :: 0 <= n < |shown| ==> shown[n] < |es|)
    && Steps(es, s, None, ascending, Shown(shown, 0))
    && forall n :: 0 <= n < |shown| ==> Steps(es, s, Some(es[shown[n]].user), ascending, Shown(shown, n + 1))
  }

  function Shown(shown: seq<nat>, n: nat): Option<nat> {
    if n < |shown| then Some(shown[n]) else None
  }

  /** A whole scan in either direction shows the map of its snapshot. */
  lemma WholeScanIsMap(db: Db, h: seq<Op>, all: seq<Entry>, s: nat, shown: seq<nat>, ascending: bool)
    requires Inv(db, h) && Sorted(all) && Elements(all) == All(db) && SmallestSnapshot(db) <= s <= |h|
    requires Scanned(all, s, shown, ascending)
    ensures ShowsMap(h, all, s, shown, ascending)
  {
    hide Inv, Steps, LiveAt, Lookup, Comes, All, Sorted;
    ScanIsMap(db, h, all, s);
    forall n | 0 <= n < |shown| ensures LiveAt(all, s, shown[n]) { ShownIsLive(all, s, shown, ascending, n); }
    forall k | k in MapAt(h, s) ensures ShowsKey(all, shown, k) {
      var i :| 0 <= i < |all| && LiveAt(all, s, i) && all[i].user == k;
      ShowsLive(all, s, shown, ascending, i);
    }
    forall m, n | 0 <= m < n < |shown| ensures Comes(all[shown[m]].user, all[shown[n]].user, ascending) {
      InOrder(all, s, shown, ascending, m, n);
    }
  }

  /** Nothing live is passed over by a step. */
  lemma PassesOver(es: seq<Entry>, s: nat, from: Option<UserKey>, ascending: bool, r: Option<nat>, i: nat)
    requires Steps(es, s, from, ascending, r) && i < |es| && LiveAt(es, s, i)
    requires from.Some? ==> Comes(from.value, es[i].user, ascending)
    ensures r.Some? && r.value < |es| && !Comes(es[i].user, es[r.value].user, ascending)
  {}

  lemma StepIsLive(es: seq<Entry>, s: nat, from: Option<UserKey>, ascending: bool, i: nat)
    requires Steps(es, s, from, ascending, Some(i))
    ensures i < |es| && LiveAt(es, s, i) && (from.Some? ==> Comes(from.value, es[i].user, ascending))
  {}

  /** Where the scan comes from when it shows position n. */
  ghost function From(es: seq<Entry>, shown: seq<nat>, n: nat): Option<UserKey>
    requires n <= |shown| && forall n :: 0 <= n < |shown| ==> shown[n] < |es|
  {
    if n == 0 then None else Some(es[shown[n - 1]].user)
  }

  lemma StepAt(es: seq<Entry>, s: nat, shown: seq<nat>, ascending: bool, n: nat)
    requires Scanned(es, s, shown, ascending) && n <= |shown|
    ensures Steps(es, s, From(es, shown, n), ascending, Shown(shown, n))
  {
    hide Steps;
  }

  lemma ShownIsLive(es: seq<Entry>, s: nat, shown: seq<nat>, ascending: bool, n: nat)
    requires Scanned(es, s, shown, ascending) && n < |shown|
    ensures LiveAt(es, s, shown[n])
    ensures n > 0 ==> Comes(es[shown[n - 1]].user, es[shown[n]].user, ascending)
  {
    hide Steps;
    StepAt(es, s, shown, ascending, n);
    StepIsLive(es, s, From(es, shown, n), ascending, shown[n]);
  }

  lemma {:induction false} InOrder(es: seq<Entry>, s: nat, shown: seq<nat>, ascending: bool, m: nat, n: nat)
    requires Scanned(es, s, shown, ascending) && m < n < |shown|
    ensures Comes(es[shown[m]].user, es[shown[n]].user, ascending)
  {
    hide Steps;
    ShownIsLive(es, s, shown, ascending, n);
    if m < n - 1 { InOrder(es, s, shown, ascending, m, n - 1); }
  }

  /** A live key not shown lies ahead of all that is shown. */
  lemma {:induction false} LiesAhead(es: seq<Entry>, s: nat, shown: seq<nat>, ascending: bool, i: nat, n: nat)
    requires Scanned(es, s, shown, ascending) && i < |es| && LiveAt(es, s, i) && n <= |shown|
    requires !ShowsKey(es, shown, es[i].user)
    ensures From(es, shown, n).Some? ==> Comes(From(es, shown, n).value, es[i].user, ascending)
  {
    hide Steps;
    if n > 0 {
      LiesAhead(es, s, shown, ascending, i, n - 1);
      StepAt(es, s, shown, ascending, n - 1);
      PassesOver(es, s, From(es, shown, n - 1), ascending, Shown(shown, n - 1), i);
      assert es[shown[n - 1]].user != es[i].user;
    }
  }

  lemma ShowsLive(es: seq<Entry>, s: nat, shown: seq<nat>, ascending: bool, i: nat)
    requires Scanned(es, s, shown, ascending) && i < |es| && LiveAt(es, s, i)
    ensures ShowsKey(es, shown, es[i].user)
  {
    hide Steps;
    if !ShowsKey(es, shown, es[i].user) {
      LiesAhead(es, s, shown, ascending, i, |shown|);
      StepAt(es, s, shown, ascending, |shown|);
      PassesOver(es, s, From(es, shown, |shown|), ascending, Shown(shown, |shown|), i);
    }
  }
}
