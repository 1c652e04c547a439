/** Searching and choosing files of one version (db/version_set.cc). */
module Version {
  import opened DbFormat
  import opened Reads
  import opened Files
  import opened Lsm

  /** A level from 1 on: files in key order, none reaching into the next. */
  ghost predicate SortedFiles(files: seq<File>) {
    && (forall f :: f in files ==> WellFormed(f))
    && (forall i, j :: 0 <= i < j < |files| ==> Less(files[i].largest, files[j].smallest))
  }

  ghost function Abs(files: seq<seq<File>>): (r: seq<set<File>>)
    ensures |r| == |files|
  {
    seq(|files|, i requires 0 <= i < |files| => Elements(files[i]))
  }

  /** What LevelDB keeps about the file lists of a version. */
  ghost predicate VersionOk(files: seq<seq<File>>, nextFile: nat) {
    && |files| == NUM_LEVELS
    && FilesOk(Abs(files), nextFile)
    && LevelOrder(Abs(files))
    && (forall i :: 1 <= i < NUM_LEVELS ==> SortedFiles(files[i]))
  }

  lemma LargestOrder(files: seq<File>, i: nat, j: nat)
    requires SortedFiles(files) && i <= j < |files|
    ensures i < j ==> Less(files[i].largest, files[j].largest)
    ensures files[i].largest.user <= files[j].largest.user && files[i].smallest.user <= files[j].smallest.user
  {
    RangeOrdered(files[i]);
    RangeOrdered(files[j]);
  }

  /** FindFile: the first file whose largest key is not before `key`. */
  method FindFile(files: seq<File>, key: IKey) returns (right: nat)
    requires SortedFiles(files)
    ensures right <= |files|
    ensures forall i :: 0 <= i < right ==> Less(files[i].largest, key)
    ensures forall i :: right <= i < |files| ==> !Less(files[i].largest, key)
  {
    var left := 0;
    right := |files|;
    while left < right
      invariant 0 <= left <= right <= |files|
      invariant forall i :: 0 <= i < left ==> Less(files[i].largest, key)
      invariant forall i :: right <= i < |files| ==> !Less(files[i].largest, key)
    {
      var mid := (left + right) / 2;
      forall i | 0 <= i < |files| ensures i <= mid ==> i == mid || Less(files[i].largest, files[mid].largest)
                                  ensures i >= mid ==> i == mid || Less(files[mid].largest, files[i].largest)
      {
        if i <= mid { LargestOrder(files, i, mid); } else { LargestOrder(files, mid, i); }
      }
      if Less(files[mid].largest, key) {
        left := mid + 1;
      } else {
        right := mid;
      }
    }
  }

  // ---- Point lookups -----------------------------------------------------------------------

  /** What looking `key` up in one table or memtable may report: the first entry not before key, or
      nothing, in which case no entry of key's user key is left (Table::InternalGet, MemTable::Get). */
  ghost predicate LookedUp(es: seq<Entry>, key: IKey, r: Option<Entry>) {
    match r
    case Some(e) => e in es && !Less(e.Key(), key) && forall x :: x in es && Less(x.Key(), e.Key()) ==>
        Less(x.Key(), key)
    case None => forall x :: x in es && x.user == key.user ==> Less(x.Key(), key)
  }

  method TableGet(es: seq<Entry>, key: IKey) returns (r: Option<Entry>)
    requires Sorted(es)
    ensures LookedUp(es, key, r)
  {
    for i := 0 to |es|
      invariant forall j :: 0 <= j < i ==> Less(es[j].Key(), key)
    {
      if !Less(es[i].Key(), key) { return Some(es[i]); }
    }
    return None;
  }

  /** The states of the saver that collects a lookup. */
  datatype SaverState = NotFound | Found(value: Bytes) | Deleted

  function SaveValue(r: Option<Entry>, k: UserKey): SaverState {
    if r.None? || r.value.user != k then NotFound
    else if r.value.kind.Value? then Found(r.value.value) else Deleted
  }

  /** r is what a reader of key k at snapshot s must be told about the entries in S. */
  ghost predicate Answers(S: set<Entry>, k: UserKey, s: nat, r: SaverState) {
    match r
    case NotFound => NoneVisible(S, k, s)
    case Found(v) => exists e :: Newest(S, k, s, e) && e.kind.Value? && e.value == v
    case Deleted => exists e :: Newest(S, k, s, e) && e.kind.Deletion?
  }

  lemma AnswersRead(S: set<Entry>, k: UserKey, s: nat, r: SaverState)
    requires UniqueSeqs(S) && Answers(S, k, s, r)
    ensures Read(S, k, s) == if r.Found? then Some(r.value) else None
  {
    if !r.NotFound? {
      var e :| Newest(S, k, s, e) && (if r.Found? then e.kind.Value? && e.value == r.value else e.kind.Deletion?);
      ReadNewest(S, k, s, e);
    }
  }

  /** The newer layer decides if it answers; otherwise the older one does. */
  lemma AnswersLayers(U: set<Entry>, A: set<Entry>, k: UserKey, s: nat, r: SaverState)
    requires Newer(U, A)
    ensures !r.NotFound? && Answers(U, k, s, r) ==> Answers(U + A, k, s, r)
    ensures NoneVisible(U, k, s) && Answers(A, k, s, r) ==> Answers(U + A, k, s, r)
  {
    if !r.NotFound? && Answers(U, k, s, r) {
      var e :| Newest(U, k, s, e) && (if r.Found? then e.kind.Value? && e.value == r.value else e.kind.Deletion?);
      assert Newest(U + A, k, s, e);
    }
    if NoneVisible(U, k, s) && Answers(A, k, s, r) && !r.NotFound? {
      var e :| Newest(A, k, s, e) && (if r.Found? then e.kind.Value? && e.value == r.value else e.kind.Deletion?);
      assert Newest(U + A, k, s, e);
    }
  }

  lemma LookupAnswers(es: seq<Entry>, k: UserKey, s: nat, r: Option<Entry>)
    requires LookedUp(es, LookupKey(k, s), r)
    ensures Answers(Elements(es), k, s, SaveValue(r, k))
  {
    forall x | x in es && x.user == k
      ensures x.sn <= s <==> !Less(x.Key(), LookupKey(k, s))
    { LookupOrder(x.Key(), k, s); }
    if r.Some? {
      if r.value.user == k {
        assert Newest(Elements(es), k, s, r.value);
      } else {
        forall x | x in es && x.user == k ensures x.sn > s {
          assert Less(x.Key(), r.value.Key());
        }
      }
    }
  }

  method SearchTable(es: seq<Entry>, k: UserKey, s: nat) returns (r: SaverState)
    requires Sorted(es)
    ensures Answers(Elements(es), k, s, r)
  {
    var e := TableGet(es, LookupKey(k, s));
    LookupAnswers(es, k, s, e);
    r := SaveValue(e, k);
  }

  ghost predicate NewestFirst(fs: seq<File>) { forall i, j :: 0 <= i < j < |fs| ==> fs[i].number >= fs[j].number }

  function InsertNewest(fs: seq<File>, f: File): (r: seq<File>)
    ensures Elements(r) == Elements(fs) + {f}
    ensures multiset(r) == multiset(fs) + multiset{f}
  {
    if fs == [] || fs[0].number < f.number then [f] + fs
    else
      assert fs == [fs[0]] + fs[1..];
      assert Elements(fs) == {fs[0]} + Elements(fs[1..]);
      [fs[0]] + InsertNewest(fs[1..], f)
  }

  lemma InsertStep(fs: seq<File>, f: File)
    requires fs != [] && fs[0].number >= f.number
    ensures InsertNewest(fs, f) == [fs[0]] + InsertNewest(fs[1..], f)
    ensures forall g :: g in InsertNewest(fs[1..], f) ==> g in fs[1..] || g == f
  {
    forall g | g in InsertNewest(fs[1..], f) ensures g in fs[1..] ||
        g == f { assert g in Elements(InsertNewest(fs[1..], f)); }
  }

  lemma NewestOnTop(f: File, rest: seq<File>)
    requires NewestFirst(rest) && forall g :: g in rest ==> g.number <= f.number
    ensures NewestFirst([f] + rest)
  {}

  lemma {:induction false} InsertKeepsOrder(fs: seq<File>, f: File)
    requires NewestFirst(fs)
    ensures NewestFirst(InsertNewest(fs, f))
  {
    if fs != [] && fs[0].number >= f.number {
      InsertKeepsOrder(fs[1..], f);
      InsertStep(fs, f);
      hide InsertNewest;
      NewestOnTop(fs[0], InsertNewest(fs[1..], f));
    }
  }

  /** The overlapping level-0 files, newest first (std::sort with NewestFirst). */
  method SortNewestFirst(fs: seq<File>) returns (r: seq<File>)
    ensures multiset(r) == multiset(fs)
    ensures NewestFirst(r)
  {
    r := [];
    for n := 0 to |fs|
      invariant multiset(r) == multiset(fs[..n])
      invariant NewestFirst(r)
    {
      assert fs[..n + 1] == fs[..n] + [fs[n]];
      InsertKeepsOrder(r, fs[n]);
      r := InsertNewest(r, fs[n]);
    }
    assert fs[..|fs|] == fs;
  }

  lemma SameMembers(a: seq<File>, b: seq<File>)
    requires multiset(a) == multiset(b)
    ensures forall f :: f in a <==> f in b
  {
    forall f ensures f in a <==> f in b { assert (f in a <==> f in multiset(a)) && (f in b <==> f in multiset(b)); }
  }

  /** Level 0 of Version::Get: the overlapping files, newest first, until one answers. */
  method SearchLevel0(files: seq<File>, k: UserKey, s: nat) returns (r: SaverState)
    requires forall f :: f in files ==> WellFormed(f)
    requires NumbersUnique(Elements(files)) && ByNumber(Elements(files))
    ensures Answers(Entries(Elements(files)), k, s, r)
  {
    hide NumbersUnique, ByNumber, Answers, NewestFirst;
    var covering := CoveringFiles(files, k);
    var tmp := SortNewestFirst(covering);
    SameMembers(covering, tmp);
    for i := 0 to |tmp|
      invariant forall j :: 0 <= j < i ==> NoneVisible(Elements(tmp[j].entries), k, s)
    {
      assert tmp[i] in covering;
      r := SearchTable(tmp[i].entries, k, s);
      if !r.NotFound? {
        NewestFileDecides(files, tmp, i, k, s, r);
        return;
      }
      NothingThere(tmp[i], k, s, r);
    }
    NoFileDecides(files, tmp, k, s);
    r := NotFound;
  }

  /** The files whose range the key is in. */
  method CoveringFiles(files: seq<File>, k: UserKey) returns (tmp: seq<File>)
    ensures forall f :: f in tmp <==> f in files && Covers(f, k)
    ensures forall f :: Covers(f, k) ==> multiset(tmp)[f] == multiset(files)[f]
  {
    tmp := [];
    for i := 0 to |files|
      invariant forall f :: f in tmp <==> f in files[..i] && Covers(f, k)
      invariant forall f :: Covers(f, k) ==> multiset(tmp)[f] == multiset(files[..i])[f]
    {
      assert files[..i + 1] == files[..i] + [files[i]];
      if k >= files[i].smallest.user && k <= files[i].largest.user {
        tmp := tmp + [files[i]];
      }
    }
    assert files[..|files|] == files;
  }

  lemma NothingThere(f: File, k: UserKey, s: nat, r: SaverState)
    requires Answers(Elements(f.entries), k, s, r) && r.NotFound?
    ensures NoneVisible(Elements(f.entries), k, s)
  {}

  lemma NoFileDecides(files: seq<File>, tmp: seq<File>, k: UserKey, s: nat)
    requires forall f :: f in files ==> WellFormed(f)
    requires forall f :: f in tmp <==> f in files && Covers(f, k)
    requires forall j :: 0 <= j < |tmp| ==> NoneVisible(Elements(tmp[j].entries), k, s)
    ensures Answers(Entries(Elements(files)), k, s, NotFound)
  {
    forall e | e in Entries(Elements(files)) ensures !Visible(e, k, s) {
      var f :| f in Elements(files) && e in f.entries;
      InRange(f, e);
      if Covers(f, k) { assert e in Elements(f.entries); }
    }
  }

  lemma NewestFileDecides(files: seq<File>, tmp: seq<File>, i: nat, k: UserKey, s: nat, r: SaverState)
    requires forall f :: f in files ==> WellFormed(f)
    requires NumbersUnique(Elements(files)) && ByNumber(Elements(files))
    requires forall f :: f in tmp <==> f in files && Covers(f, k)
    requires NewestFirst(tmp)
    requires i < |tmp| && !r.NotFound? && Answers(Elements(tmp[i].entries), k, s, r)
    requires forall j :: 0 <= j < i ==> NoneVisible(Elements(tmp[j].entries), k, s)
    ensures Answers(Entries(Elements(files)), k, s, r)
  {
    hide ByNumber, NumbersUnique, NewestFirst, WellFormed;
    var S, f0 := Entries(Elements(files)), tmp[i];
    var e :| Newest(Elements(f0.entries), k, s, e)
      && (if r.Found? then e.kind.Value? && e.value == r.value else e.kind.Deletion?);
    assert f0 in Elements(files);
    assert e in S;
    forall x | x in S && Visible(x, k, s) ensures x.sn <= e.sn {
      var f :| f in Elements(files) && x in f.entries;
      InRange(f, x);
      var j :| 0 <= j < |tmp| && tmp[j] == f;
      OlderFile(files, tmp, i, j, k, s, e, x);
    }
    assert Newest(S, k, s, e);
  }

  lemma OlderFile(files: seq<File>, tmp: seq<File>, i: nat, j: nat, k: UserKey, s: nat, e: Entry, x: Entry)
    requires NumbersUnique(Elements(files)) && ByNumber(Elements(files)) && NewestFirst(tmp)
    requires i < |tmp| && j < |tmp| && tmp[i] in files && tmp[j] in files
    requires j < i ==> NoneVisible(Elements(tmp[j].entries), k, s)
    requires Newest(Elements(tmp[i].entries), k, s, e)
    requires x in tmp[j].entries && Visible(x, k, s)
    ensures x.sn <= e.sn
  {
    assert x in Elements(tmp[j].entries);
    if j > i && tmp[j] != tmp[i] {
      assert tmp[i].number != tmp[j].number by { assert tmp[i] in Elements(files) && tmp[j] in Elements(files); }
      assert Newer(Elements(tmp[i].entries), Elements(tmp[j].entries));
    }
  }

  /** Levels from 1 on of Version::Get: at most one file can hold the answer. */
  method SearchSortedLevel(files: seq<File>, k: UserKey, s: nat) returns (r: SaverState)
    requires SortedFiles(files)
    ensures Answers(Entries(Elements(files)), k, s, r)
  {
    var index := FindFile(files, LookupKey(k, s));
    if index >= |files| || k < files[index].smallest.user {
      r := NotFound;
      forall e | e in Entries(Elements(files)) ensures !Visible(e, k, s) {
        var f :| f in Elements(files) && e in f.entries;
        if Visible(e, k, s) { OneFileMatters(files, index, k, s, f, e); }
      }
    } else {
      assert files[index] in files;
      r := SearchTable(files[index].entries, k, s);
      OneFileDecides(files, index, k, s, r);
    }
  }

  /** An entry of k visible at s outside the file found is older than all of that file. */
  lemma OneFileMatters(files: seq<File>, index: nat, k: UserKey, s: nat, f: File, e: Entry)
    requires SortedFiles(files) && index <= |files|
    requires forall i :: 0 <= i < index ==> Less(files[i].largest, LookupKey(k, s))
    requires f in files && e in f.entries && Visible(e, k, s)
    ensures index < |files| && files[index].smallest.user <= k
    ensures f != files[index] ==> Less(files[index].largest, e.Key())
  {
    var j :| 0 <= j < |files| && files[j] == f;
    InRange(f, e);
    LookupOrder(e.Key(), k, s);
    assert j >= index;
    LargestOrder(files, index, j);
  }

  lemma OneFileDecides(files: seq<File>, index: nat, k: UserKey, s: nat, r: SaverState)
    requires SortedFiles(files) && index < |files|
    requires forall i :: 0 <= i < index ==> Less(files[i].largest, LookupKey(k, s))
    requires Answers(Elements(files[index].entries), k, s, r)
    requires !Less(files[index].largest, LookupKey(k, s))
    ensures Answers(Entries(Elements(files)), k, s, r)
  {
    var S, f0 := Entries(Elements(files)), files[index];
    if r.NotFound? {
      OneFileEmpty(files, index, k, s);
    } else {
      var e :| Newest(Elements(f0.entries), k, s, e)
        && (if r.Found? then e.kind.Value? && e.value == r.value else e.kind.Deletion?);
      assert f0 in Elements(files);
      InRange(f0, e);
      forall x | x in S && Visible(x, k, s) ensures x.sn <= e.sn {
        var f :| f in Elements(files) && x in f.entries;
        OneFileMatters(files, index, k, s, f, x);
        assert x in Elements(f.entries);
      }
      assert Newest(S, k, s, e);
    }
  }

  /** If the file found holds nothing visible, no later file of the level does. */
  lemma OneFileEmpty(files: seq<File>, index: nat, k: UserKey, s: nat)
    requires SortedFiles(files) && index < |files|
    requires forall i :: 0 <= i < index ==> Less(files[i].largest, LookupKey(k, s))
    requires !Less(files[index].largest, LookupKey(k, s))
    requires NoneVisible(Elements(files[index].entries), k, s)
    ensures NoneVisible(Entries(Elements(files)), k, s)
  {
    var f0 := files[index];
    assert f0 in files;
    var last := f0.entries[|f0.entries| - 1];
    assert last in Elements(f0.entries);
    LookupOrder(f0.largest, k, s);
    forall e | e in Entries(Elements(files)) ensures !Visible(e, k, s) {
      var f :| f in Elements(files) && e in f.entries;
      assert e in f0.entries ==> e in Elements(f0.entries);
      if Visible(e, k, s) { OneFileMatters(files, index, k, s, f, e); }
    }
  }

  /** Version::Get: level by level, stopping at the first level that answers. */
  method Get(files: seq<seq<File>>, ghost nextFile: nat, k: UserKey, s: nat) returns (r: SaverState)
    requires VersionOk(files, nextFile)
    ensures Answers(Span(Abs(files), 0, NUM_LEVELS), k, s, r)
  {
    for level := 0 to NUM_LEVELS
      invariant NoneVisible(Span(Abs(files), 0, level), k, s)
    {
      LevelFacts(files, nextFile, level);
      if |files[level]| > 0 {
        if level == 0 {
          r := SearchLevel0(files[0], k, s);
        } else {
          r := SearchSortedLevel(files[level], k, s);
        }
        if !r.NotFound? {
          LevelDecides(files, nextFile, level, k, s, r);
          return;
        }
      }
      SpanNext(Abs(files), level);
    }
    r := NotFound;
  }

  lemma LevelFacts(files: seq<seq<File>>, nextFile: nat, level: nat)
    requires VersionOk(files, nextFile) && level < NUM_LEVELS
    ensures forall f :: f in files[level] ==> WellFormed(f)
    ensures level == 0 ==> NumbersUnique(Elements(files[0])) && ByNumber(Elements(files[0]))
    ensures level > 0 ==> SortedFiles(files[level])
    ensures Abs(files)[level] == Elements(files[level])
    ensures files[level] == [] ==> Entries(Abs(files)[level]) == {}
  {
    assert Abs(files)[level] == Elements(files[level]);
    assert Abs(files)[0] <= Deeper(Abs(files), 0);
  }

  lemma SpanNext(levels: seq<set<File>>, level: nat)
    requires level < |levels|
    ensures Span(levels, 0, level + 1) == Span(levels, 0, level) + Entries(levels[level])
  {}

  lemma SpansNewer(levels: seq<set<File>>, lo: nat, mid: nat, hi: nat)
    requires |levels| == NUM_LEVELS && LevelOrder(levels) && lo <= mid <= hi <= NUM_LEVELS
    ensures Span(levels, lo, hi) == Span(levels, lo, mid) + Span(levels, mid, hi)
    ensures Newer(Span(levels, lo, mid), Span(levels, mid, hi))
  {
    forall x: Entry, y: Entry | x in Span(levels, lo, mid) && y in Span(levels, mid, hi) && x.user == y.user
      ensures x.sn > y.sn
    {
      var i :| lo <= i < mid && x in Entries(levels[i]);
      var j :| mid <= j < hi && y in Entries(levels[j]);
    }
  }

  lemma LevelDecides(files: seq<seq<File>>, nextFile: nat, level: nat, k: UserKey, s: nat, r: SaverState)
    requires VersionOk(files, nextFile) && level < NUM_LEVELS && !r.NotFound?
    requires NoneVisible(Span(Abs(files), 0, level), k, s)
    requires Answers(Entries(Abs(files)[level]), k, s, r)
    ensures Answers(Span(Abs(files), 0, NUM_LEVELS), k, s, r)
  {
    hide Answers, NoneVisible, Newer, Entries;
    var levels := Abs(files);
    SpansNewer(levels, 0, level, NUM_LEVELS);
    SpansNewer(levels, level, level + 1, NUM_LEVELS);
    assert Span(levels, level, level + 1) == Entries(levels[level]);
    MiddleAnswers(Span(levels, 0, level), Entries(levels[level]), Span(levels, level + 1, NUM_LEVELS), k, s, r);
  }

  lemma MiddleAnswers(U: set<Entry>, A: set<Entry>, B: set<Entry>, k: UserKey, s: nat, r: SaverState)
    requires Newer(U, A + B) && Newer(A, B)
    requires NoneVisible(U, k, s) && Answers(A, k, s, r) && !r.NotFound?
    ensures Answers(U + (A + B), k, s, r)
  {
    AnswersLayers(A, B, k, s, r);
    AnswersLayers(U, A + B, k, s, r);
  }
}
