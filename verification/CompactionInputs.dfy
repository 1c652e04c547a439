/** Which files a flush avoids and a compaction takes (db/version_set.cc). */
module CompactionInputs {
  import opened DbFormat
  import opened Reads
  import opened Files
  import opened Lsm
  import opened Version

  predicate AfterFile(k: Option<UserKey>, f: File) { k.Some? && k.value > f.largest.user }

  predicate BeforeFile(k: Option<UserKey>, f: File) { k.Some? && k.value < f.smallest.user }

  /** f meets the user key range [lo, hi]; None is an open end. */
  predicate Meets(f: File, lo: Option<UserKey>, hi: Option<UserKey>) { !AfterFile(lo, f) && !BeforeFile(hi, f) }

  method SomeFileOverlapsRange(disjointSorted: bool, files: seq<File>, lo: Option<UserKey>, hi: Option<UserKey>)
    returns (r: bool)
    requires disjointSorted ==> SortedFiles(files)
    requires forall f :: f in files ==> f.largest.sn <= MAX_SEQUENCE
    ensures r <==> exists f :: f in files && Meets(f, lo, hi)
  {
    if !disjointSorted {
      for i := 0 to |files|
        invariant forall j :: 0 <= j < i ==> !Meets(files[j], lo, hi)
      {
        if AfterFile(lo, files[i]) || BeforeFile(hi, files[i]) {
        } else {
          assert Meets(files[i], lo, hi);
          return true;
        }
      }
      return false;
    }
    var index := 0;
    if lo.Some? {
      index := FindFile(files, IKey(lo.value, MAX_SEQUENCE, Value));
    }
    forall j | 0 <= j < |files| ensures j < index <==> AfterFile(lo, files[j]) {
      assert files[j] in files;
    }
    if index >= |files| {
      return false;
    }
    forall j | index <= j < |files| ensures BeforeFile(hi, files[index]) ==> BeforeFile(hi, files[j]) {
      LargestOrder(files, index, j);
    }
    if BeforeFile(hi, files[index]) {
      assert forall j :: 0 <= j < |files| ==> !Meets(files[j], lo, hi);
      return false;
    }
    assert files[index] in files && Meets(files[index], lo, hi);
    return true;
  }

  // ---- GetOverlappingInputs ------------------------------------------------------------------

  /** Every file that meets the range lies within it. */
  ghost predicate RangeClosed(files: seq<File>, lo: Option<UserKey>, hi: Option<UserKey>) {
    forall f :: f in files && Meets(f, lo, hi)
      ==> (lo.Some? ==> lo.value <= f.smallest.user) && (hi.Some? ==> f.largest.user <= hi.value)
  }

  /** [lo, hi] contains [lo0, hi0] and is open at the same ends. */
  ghost predicate Widens(lo0: Option<UserKey>, hi0: Option<UserKey>, lo: Option<UserKey>, hi: Option<UserKey>) {
    && lo.Some? == lo0.Some? && (lo.Some? ==> lo.value <= lo0.value)
    && hi.Some? == hi0.Some? && (hi.Some? ==> hi0.value <= hi.value)
  }

  /** [lo, hi] is the least closed range around [lo0, hi0]. */
  ghost predicate LeastClosed(files: seq<File>, lo0: Option<UserKey>, hi0: Option<UserKey>,
                              lo: Option<UserKey>, hi: Option<UserKey>) {
    && Widens(lo0, hi0, lo, hi)
    && RangeClosed(files, lo, hi)
    && BelowClosed(files, lo0, hi0, lo, hi)
  }

  ghost predicate BelowClosed(files: seq<File>, lo0: Option<UserKey>, hi0: Option<UserKey>,
                              lo: Option<UserKey>, hi: Option<UserKey>) {
    forall l, h :: Widens(lo0, hi0, l, h) && RangeClosed(files, l, h) ==> Widens(lo, hi, l, h)
  }

  /** The files among the first n that meet the range, in list order. */
  function Select(files: seq<File>, n: nat, lo: Option<UserKey>, hi: Option<UserKey>): (r: seq<File>)
    requires n <= |files|
  {
    if n == 0 then []
    else
      var r := Select(files, n - 1, lo, hi);
      if Meets(files[n - 1], lo, hi) then r + [files[n - 1]] else r
  }

  ghost function StartBefore(files: seq<File>, lo: Option<UserKey>): set<File> {
    set f | f in files && lo.Some? && f.smallest.user < lo.value
  }

  ghost function EndAfter(files: seq<File>, hi: Option<UserKey>): set<File> {
    set f | f in files && hi.Some? && f.largest.user > hi.value
  }

  /** All files of the level that meet [begin, end]; in level 0, where files overlap, the range first
      grows until it is closed, restarting the scan each time. */
  method GetOverlappingInputs(files: seq<File>, level: nat, begin: Option<UserKey>, end: Option<UserKey>)
    returns (inputs: seq<File>)
    requires forall f :: f in files ==> WellFormed(f)
    ensures level > 0 ==> inputs == Select(files, |files|, begin, end)
    ensures level == 0 ==>
        exists lo, hi :: LeastClosed(files, begin, end, lo, hi) && inputs == Select(files, |files|, lo, hi)
  {
    inputs := [];
    var userBegin, userEnd := begin, end;
    var i := 0;
    while i < |files|
      invariant i <= |files|
      invariant Widens(begin, end, userBegin, userEnd)
      invariant level > 0 ==> userBegin == begin && userEnd == end
      invariant BelowClosed(files, begin, end, userBegin, userEnd)
      invariant inputs == Select(files, i, userBegin, userEnd)
      invariant level == 0 ==> RangeClosed(files[..i], userBegin, userEnd)
      decreases StartBefore(files, userBegin), EndAfter(files, userEnd), |files| - i
    {
      var f := files[i];
      RangeOrdered(f);
      assert files[..i + 1] == files[..i] + [f];
      i := i + 1;
      if begin.Some? && f.largest.user < userBegin.value {
      } else if end.Some? && f.smallest.user > userEnd.value {
      } else {
        inputs := inputs + [f];
        if level == 0 {
          if begin.Some? && f.smallest.user < userBegin.value {
            MustGrow(files, begin, end, userBegin, userEnd, f);
            assert f in StartBefore(files, userBegin) && f !in StartBefore(files, Some(f.smallest.user));
            userBegin := Some(f.smallest.user);
            inputs := [];
            i := 0;
          } else if end.Some? && f.largest.user > userEnd.value {
            MustGrow(files, begin, end, userBegin, userEnd, f);
            assert f in EndAfter(files, userEnd) && f !in EndAfter(files, Some(f.largest.user));
            userEnd := Some(f.largest.user);
            inputs := [];
            i := 0;
          }
        }
      }
    }
    assert files[..|files|] == files;
    if level == 0 { assert LeastClosed(files, begin, end, userBegin, userEnd); }
  }

  /** Any closed range contains a file that sticks out of the range found so far. */
  lemma MustGrow(files: seq<File>, begin: Option<UserKey>, end: Option<UserKey>,
                 lo: Option<UserKey>, hi: Option<UserKey>, f: File)
    requires Widens(begin, end, lo, hi) && BelowClosed(files, begin, end, lo, hi)
    requires f in files && WellFormed(f) && Meets(f, lo, hi)
    ensures lo.Some? && f.smallest.user < lo.value ==> BelowClosed(files, begin, end, Some(f.smallest.user), hi)
    ensures hi.Some? && f.largest.user > hi.value ==> BelowClosed(files, begin, end, lo, Some(f.largest.user))
  {
    RangeOrdered(f);
    forall l, h | Widens(begin, end, l, h) && RangeClosed(files, l, h)
      ensures (l.Some? ==> l.value <= f.smallest.user) && (h.Some? ==> f.largest.user <= h.value)
    {
      assert Widens(lo, hi, l, h);
      assert Meets(f, l, h);
    }
  }

  /** files[a..b] are the files among the first n that meet the range. */
  ghost predicate MeetingSlice(files: seq<File>, n: nat, lo: Option<UserKey>, hi: Option<UserKey>, a: nat, b: nat) {
    && a <= b <= n <= |files|
    && (forall i :: 0 <= i < a ==> AfterFile(lo, files[i]))
    && (forall i :: b <= i < n ==> BeforeFile(hi, files[i]))
    && (forall i :: a <= i < b ==> Meets(files[i], lo, hi))
  }

  lemma {:induction false} SelectMembers(files: seq<File>, n: nat, lo: Option<UserKey>, hi: Option<UserKey>, f: File)
    requires n <= |files|
    ensures f in Select(files, n, lo, hi) <==> f in files[..n] && Meets(f, lo, hi)
  {
    if n > 0 {
      SelectMembers(files, n - 1, lo, hi, f);
      assert files[..n] == files[..n - 1] + [files[n - 1]];
    }
  }

  /** In a level from 1 on the selected files are consecutive. */
  lemma {:induction false} SelectIsSlice(files: seq<File>, n: nat, lo: Option<UserKey>, hi: Option<UserKey>)
    returns (a: nat, b: nat)
    requires SortedFiles(files) && n <= |files|
    ensures MeetingSlice(files, n, lo, hi, a, b) && Select(files, n, lo, hi) == files[a..b]
  {
    if n == 0 {
      a, b := 0, 0;
    } else {
      hide MeetingSlice;
      var a0, b0 := SelectIsSlice(files, n - 1, lo, hi);
      a, b := SliceStep(files, n - 1, lo, hi, a0, b0);
    }
  }

  /** One more file: it extends the slice, or comes after it, or the slice has yet to begin. */
  lemma SliceStep(files: seq<File>, n: nat, lo: Option<UserKey>, hi: Option<UserKey>, a0: nat,
      b0: nat) returns (a: nat, b: nat)
    requires SortedFiles(files) && n < |files| && MeetingSlice(files, n, lo, hi, a0, b0)
    ensures MeetingSlice(files, n + 1, lo, hi, a, b)
    ensures files[a..b] == files[a0..b0] + if Meets(files[n], lo, hi) then [files[n]] else []
  {
    a, b := a0, b0;
    if b < n { StaysBefore(files, hi, b, n); }
    if a < b { NotAfter(files, lo, a, n); }
    if Meets(files[n], lo, hi) {
      b := n + 1;
    } else if AfterFile(lo, files[n]) {
      AllAfter(files, lo, n);
      a, b := n + 1, n + 1;
    }
  }

  lemma StaysBefore(files: seq<File>, hi: Option<UserKey>, i: nat, n: nat)
    requires SortedFiles(files) && i <= n < |files| && BeforeFile(hi, files[i])
    ensures BeforeFile(hi, files[n])
  {
    LargestOrder(files, i, n);
  }

  lemma NotAfter(files: seq<File>, lo: Option<UserKey>, i: nat, n: nat)
    requires SortedFiles(files) && i <= n < |files| && !AfterFile(lo, files[i])
    ensures !AfterFile(lo, files[n])
  {
    LargestOrder(files, i, n);
  }

  lemma AllAfter(files: seq<File>, lo: Option<UserKey>, n: nat)
    requires SortedFiles(files) && n < |files| && AfterFile(lo, files[n])
    ensures forall i :: 0 <= i <= n ==> AfterFile(lo, files[i])
  {
    forall i | 0 <= i <= n ensures AfterFile(lo, files[i]) { LargestOrder(files, i, n); }
  }

  // ---- Ranges and boundary files ----------------------------------------------------------------

  /** GetRange: the least smallest and the greatest largest key. */
  method GetRange(inputs: seq<File>) returns (smallest: IKey, largest: IKey)
    requires inputs != []
    ensures Spans(inputs, smallest, largest)
  {
    smallest, largest := inputs[0].smallest, inputs[0].largest;
    for i := 1 to |inputs|
      invariant Spans(inputs[..i], smallest, largest)
    {
      var f := inputs[i];
      assert inputs[..i + 1] == inputs[..i] + [f];
      if Less(f.smallest, smallest) { smallest := f.smallest; }
      if Less(largest, f.largest) { largest := f.largest; }
    }
    assert inputs[..|inputs|] == inputs;
  }

  ghost predicate Spans(fs: seq<File>, smallest: IKey, largest: IKey) {
    && (forall f :: f in fs ==> !Less(f.smallest, smallest) && !Less(largest, f.largest))
    && (exists f :: f in fs && f.smallest == smallest)
    && (exists f :: f in fs && f.largest == largest)
  }

  method FindLargestKey(files: seq<File>) returns (r: Option<IKey>)
    ensures r.None? <==> files == []
    ensures r.Some? ==> IsLargest(files, r.value)
  {
    if files == [] { return None; }
    var largest := files[0].largest;
    for i := 1 to |files|
      invariant IsLargest(files[..i], largest)
    {
      assert files[..i + 1] == files[..i] + [files[i]];
      if Less(largest, files[i].largest) { largest := files[i].largest; }
    }
    assert files[..|files|] == files;
    return Some(largest);
  }

  ghost predicate IsLargest(files: seq<File>, largest: IKey) {
    && (forall f :: f in files ==> !Less(largest, f.largest))
    && (exists f :: f in files && f.largest == largest)
  }

  /** g starts after `largest` but with the same user key. */
  predicate BoundaryFile(g: File, largest: IKey) {
    Less(largest, g.smallest) && g.smallest.user == largest.user
  }

  ghost predicate SmallestBoundary(files: seq<File>, largest: IKey, g: File) {
    forall h :: h in files && BoundaryFile(h, largest) ==> !Less(h.smallest, g.smallest)
  }

  method FindSmallestBoundaryFile(levelFiles: seq<File>, largest: IKey) returns (r: Option<File>)
    ensures r.None? ==> forall g :: g in levelFiles ==> !BoundaryFile(g, largest)
    ensures r.Some? ==> r.value in levelFiles && BoundaryFile(r.value, largest)
    ensures r.Some? ==> SmallestBoundary(levelFiles, largest, r.value)
  {
    r := None;
    for i := 0 to |levelFiles|
      invariant r.None? ==> forall g :: g in levelFiles[..i] ==> !BoundaryFile(g, largest)
      invariant r.Some? ==> r.value in levelFiles && BoundaryFile(r.value, largest)
      invariant r.Some? ==> SmallestBoundary(levelFiles[..i], largest, r.value)
    {
      assert levelFiles[..i + 1] == levelFiles[..i] + [levelFiles[i]];
      if BoundaryFile(levelFiles[i], largest) {
        if r.None? || Less(levelFiles[i].smallest, r.value.smallest) { r := Some(levelFiles[i]); }
      }
    }
    assert levelFiles[..|levelFiles|] == levelFiles;
  }

  /** What a choice of files at one level must satisfy: in level 0 no file left out meets the user key
      range of the chosen ones; elsewhere the chosen files are consecutive. */
  ghost predicate Choice(files: seq<File>, level: nat, ins: seq<File>) {
    && ins != []
    && (forall f :: f in ins ==> f in files)
    && (if level == 0 then forall g :: g in files && g !in ins ==> !MeetsRange(g, Elements(ins))
        else exists a, b :: IsSlice(files, ins, a, b))
  }

  ghost predicate IsSlice(files: seq<File>, ins: seq<File>, a: nat, b: nat) { a < b <= |files| && ins == files[a..b] }

  /** No file of the level starts after the chosen files' largest key with its user key. */
  ghost predicate BoundaryDone(files: seq<File>, ins: seq<File>) {
    exists largest :: IsLargest(ins, largest) && forall g :: g in files ==> !BoundaryFile(g, largest)
  }

  ghost function Beyond(files: seq<File>, largest: IKey): set<File> {
    set f | f in files && Less(largest, f.smallest)
  }

  lemma BeyondShrinks(files: seq<File>, largest: IKey, g: File)
    requires g in files && WellFormed(g) && Less(largest, g.smallest)
    ensures Beyond(files, g.largest) < Beyond(files, largest)
  {
    RangeOrdered(g);
    assert g in Beyond(files, largest) && g !in Beyond(files, g.largest);
  }

  /** To the files `ins`, one at a time, the smallest boundary file of those chosen so far was added. */
  ghost predicate BoundaryAdded(files: seq<File>, ins: seq<File>, r: seq<File>) {
    ins <= r && forall i :: |ins| <= i < |r| ==> BoundaryAt(files, r, i)
  }

  ghost predicate BoundaryAt(files: seq<File>, r: seq<File>, i: nat)
    requires i < |r|
  {
    exists largest ::
      IsLargest(r[..i], largest) && BoundaryFile(r[i], largest) && SmallestBoundary(files, largest, r[i])
  }

  lemma AddedStep(files: seq<File>, ins: seq<File>, r: seq<File>, largest: IKey, g: File)
    requires BoundaryAdded(files, ins, r)
    requires IsLargest(r, largest) && BoundaryFile(g, largest) && SmallestBoundary(files, largest, g)
    ensures BoundaryAdded(files, ins, r + [g])
  {
    hide IsLargest, SmallestBoundary, BoundaryFile;
    forall i | |ins| <= i < |r + [g]| ensures BoundaryAt(files, r + [g], i) {
      assert (r + [g])[..i] == r[..i];
      if i == |r| {
        assert r[..i] == r;
      } else {
        assert BoundaryAt(files, r, i);
      }
    }
  }

  /** AddBoundaryInputs: adds boundary files until none is left. */
  method AddBoundaryInputs(levelFiles: seq<File>, level: nat, compactionFiles: seq<File>) returns (r: seq<File>)
    requires if level == 0 then forall f :: f in levelFiles ==> WellFormed(f) else SortedFiles(levelFiles)
    requires compactionFiles != [] ==> Choice(levelFiles, level, compactionFiles)
    ensures compactionFiles == [] ==> r == []
    ensures BoundaryAdded(levelFiles, compactionFiles, r)
    ensures compactionFiles != [] ==> Choice(levelFiles, level, r) && BoundaryDone(levelFiles, r)
  {
    r := compactionFiles;
    var key := FindLargestKey(r);
    if key.None? { return; }
    var largest := key.value;
    var continueSearching := true;
    while continueSearching
      invariant BoundaryAdded(levelFiles, compactionFiles, r)
      invariant Choice(levelFiles, level, r) && IsLargest(r, largest)
      invariant !continueSearching ==> forall g :: g in levelFiles ==> !BoundaryFile(g, largest)
      decreases Beyond(levelFiles, largest), continueSearching
    {
      var next := FindSmallestBoundaryFile(levelFiles, largest);
      if next.Some? {
        ChoiceGrows(levelFiles, level, r, largest, next.value);
        BeyondShrinks(levelFiles, largest, next.value);
        AddedStep(levelFiles, compactionFiles, r, largest, next.value);
        r := r + [next.value];
        largest := next.value.largest;
      } else {
        continueSearching := false;
      }
    }
  }

  /** The smallest boundary file is the file right after the chosen ones; in level 0 there is none. */
  lemma ChoiceGrows(files: seq<File>, level: nat, ins: seq<File>, largest: IKey, g: File)
    requires if level == 0 then forall f :: f in files ==> WellFormed(f) else SortedFiles(files)
    requires Choice(files, level, ins) && IsLargest(ins, largest)
    requires g in files && BoundaryFile(g, largest) && SmallestBoundary(files, largest, g)
    ensures level > 0 && Choice(files, level, ins + [g]) && IsLargest(ins + [g], g.largest)
  {
    RangeOrdered(g);
    var last :| last in ins && last.largest == largest;
    RangeOrdered(last);
    if level == 0 {
      NoBoundaryInLevel0(files, ins, largest, g, last);
    } else {
      var a, b :| IsSlice(files, ins, a, b);
      SliceBoundary(files, ins, a, b, largest, g);
    }
  }

  lemma NoBoundaryInLevel0(files: seq<File>, ins: seq<File>, largest: IKey, g: File, last: File)
    requires forall f :: f in files ==> WellFormed(f)
    requires Choice(files, 0, ins) && IsLargest(ins, largest) && last in ins && last.largest == largest
    requires g in files
    ensures !BoundaryFile(g, largest)
  {
    RangeOrdered(g);
    RangeOrdered(last);
    if g !in ins {
      assert last in Elements(ins);
      assert !Overlaps(g, last.smallest.user, last.largest.user);
    }
  }

  lemma SliceBoundary(files: seq<File>, ins: seq<File>, a: nat, b: nat, largest: IKey, g: File)
    requires SortedFiles(files) && IsSlice(files, ins, a, b) && IsLargest(ins, largest)
    requires g in files && BoundaryFile(g, largest) && SmallestBoundary(files, largest, g)
    ensures IsSlice(files, ins + [g], a, b + 1) && IsLargest(ins + [g], g.largest)
  {
    SliceLargest(files, ins, a, b, largest);
    var j :| 0 <= j < |files| && files[j] == g;
    RangeOrdered(g);
    NextFile(files, b, j, largest);
    assert files[a..b + 1] == files[a..b] + [files[b]];
  }

  lemma NextFile(files: seq<File>, b: nat, j: nat, largest: IKey)
    requires SortedFiles(files) && 0 < b <= |files| && j < |files| && files[b - 1].largest == largest
    requires BoundaryFile(files[j], largest) && SmallestBoundary(files, largest, files[j])
    ensures j == b
  {
    NotBefore(files, b - 1, j, largest);
    RangeOrdered(files[j]);
    if j > b {
      LargestOrder(files, b, j);
      RangeOrdered(files[b]);
    }
  }

  /** A file up to the one that ends in `largest` does not start after it. */
  lemma NotBefore(files: seq<File>, last: nat, j: nat, largest: IKey)
    requires SortedFiles(files) && last < |files| && files[last].largest == largest && j < |files|
    ensures BoundaryFile(files[j], largest) ==> j > last
  {
    RangeOrdered(files[j]);
    if j <= last { LargestOrder(files, j, last); }
  }

  lemma SliceLargest(files: seq<File>, ins: seq<File>, a: nat, b: nat, largest: IKey)
    requires SortedFiles(files) && IsSlice(files, ins, a, b) && IsLargest(ins, largest)
    ensures files[b - 1].largest == largest
  {
    assert files[b - 1] == ins[b - 1 - a];
    var f :| f in ins && f.largest == largest;
    var i :| 0 <= i < |ins| && ins[i] == f;
    LargestOrder(files, a + i, b - 1);
  }

  // ---- Sizes --------------------------------------------------------------------------------------

  function SumSizes(files: seq<File>): nat {
    if files == [] then 0 else SumSizes(files[..|files| - 1]) + files[|files| - 1].size
  }

  method TotalFileSize(files: seq<File>) returns (sum: nat)
    ensures sum == SumSizes(files)
  {
    sum := 0;
    for i := 0 to |files|
      invariant sum == SumSizes(files[..i])
    {
      assert files[..i + 1][..i] == files[..i];
      sum := sum + files[i].size;
    }
    assert files[..|files|] == files;
  }

  function MaxGrandParentOverlapBytes(maxFileSize: nat): nat { 10 * maxFileSize }

  function ExpandedCompactionByteSizeLimit(maxFileSize: nat): nat { 25 * maxFileSize }

  // ---- Picking ------------------------------------------------------------------------------------

  ghost predicate LevelFilesOk(files: seq<File>, level: nat) {
    if level == 0 then forall f :: f in files ==> WellFormed(f) else SortedFiles(files)
  }

  /** Meeting the overall range of some files is meeting the range between two of them. */
  lemma SpanIsRange(ins: seq<File>, smallest: IKey, largest: IKey, g: File)
    requires Spans(ins, smallest, largest)
    ensures Meets(g, Some(smallest.user), Some(largest.user)) <==> MeetsRange(g, Elements(ins))
  {
    var p :| p in ins && p.smallest == smallest;
    var q :| q in ins && q.largest == largest;
    assert p in Elements(ins) && q in Elements(ins);
    if Meets(g, Some(smallest.user), Some(largest.user)) {
      assert Overlaps(g, p.smallest.user, q.largest.user);
    }
  }

  /** What GetOverlappingInputs returns. */
  ghost predicate Overlapping(files: seq<File>, level: nat, begin: Option<UserKey>, end: Option<UserKey>,
      inputs: seq<File>) {
    if level > 0 then inputs == Select(files, |files|, begin, end)
    else exists lo, hi :: LeastClosed(files, begin, end, lo, hi) && inputs == Select(files, |files|, lo, hi)
  }

  /** Whatever GetOverlappingInputs returns is a legal choice. */
  lemma OverlapsAreChoice(files: seq<File>, level: nat, begin: Option<UserKey>, end: Option<UserKey>, inputs: seq<File>)
    requires LevelFilesOk(files, level) && inputs != []
    requires level > 0 ==> inputs == Select(files, |files|, begin, end)
    requires level == 0 ==>
        exists lo, hi :: LeastClosed(files, begin, end, lo, hi) && inputs == Select(files, |files|, lo, hi)
    ensures Choice(files, level, inputs)
  {
    assert files[..|files|] == files;
    if level > 0 {
      forall f | f in inputs ensures f in files { SelectMembers(files, |files|, begin, end, f); }
      var a, b := SelectIsSlice(files, |files|, begin, end);
      assert IsSlice(files, inputs, a, b);
    } else {
      var lo, hi :| LeastClosed(files, begin, end, lo, hi) && inputs == Select(files, |files|, lo, hi);
      forall f | f in inputs ensures f in files { SelectMembers(files, |files|, lo, hi, f); }
      forall g | g in files && g !in inputs ensures !MeetsRange(g, Elements(inputs)) {
        SelectMembers(files, |files|, lo, hi, g);
        forall p, q | p in Elements(inputs) && q in Elements(inputs)
          ensures !Overlaps(g, p.smallest.user, q.largest.user)
        {
          SelectMembers(files, |files|, lo, hi, p);
          SelectMembers(files, |files|, lo, hi, q);
        }
      }
    }
  }

  predicate Passed(f: File, pointer: Option<IKey>) { pointer.None? || Less(pointer.value, f.largest) }

  /** The first file after the compaction pointer; the first of all if there is none. */
  ghost predicate NextPick(files: seq<File>, pointer: Option<IKey>, i: nat) {
    && i < |files|
    && (Passed(files[i], pointer) || (i == 0 && forall j :: 0 <= j < |files| ==> !Passed(files[j], pointer)))
    && forall j :: 0 <= j < i ==> !Passed(files[j], pointer)
  }

  /** PickCompaction: the first file after the compaction pointer, or the first file; in level 0 with
      everything that overlaps it. */
  method PickCompaction(files: seq<File>, level: nat, compactPointer: Option<IKey>) returns (inputs: seq<File>)
    requires LevelFilesOk(files, level) && files != []
    ensures Choice(files, level, inputs)
    ensures exists i: nat :: NextPick(files, compactPointer, i)
              && if level > 0 then
                inputs == [files[i]] else Overlapping(files, 0, Some(files[i].smallest.user),
                  Some(files[i].largest.user), inputs)
  {
    inputs := [];
    var pick := 0;
    for i := 0 to |files|
      invariant pick == 0
      invariant forall j :: 0 <= j < i ==> !Passed(files[j], compactPointer)
    {
      if compactPointer.None? || Less(compactPointer.value, files[i].largest) {
        pick := i;
        break;
      }
    }
    inputs := [files[pick]];
    assert NextPick(files, compactPointer, pick);
    assert files[pick] in files;
    if level == 0 {
      var smallest, largest := GetRange(inputs);
      RangeOrdered(files[pick]);
      var picked := inputs;
      inputs := GetOverlappingInputs(files, 0, Some(smallest.user), Some(largest.user));
      PickedStays(files, picked[0], smallest.user, largest.user, inputs);
      OverlapsAreChoice(files, 0, Some(smallest.user), Some(largest.user), inputs);
    } else {
      assert files[pick..pick + 1] == [files[pick]];
      assert IsSlice(files, inputs, pick, pick + 1);
    }
  }

  /** The overlapping set contains the file it was grown from. */
  lemma PickedStays(files: seq<File>, f: File, lo0: UserKey, hi0: UserKey, inputs: seq<File>)
    requires f in files && WellFormed(f) && f.smallest.user == lo0 && f.largest.user == hi0
    requires Overlapping(files, 0, Some(lo0), Some(hi0), inputs)
    ensures f in inputs
  {
    RangeOrdered(f);
    var lo, hi :| LeastClosed(files, Some(lo0), Some(hi0), lo, hi) && inputs == Select(files, |files|, lo, hi);
    assert files[..|files|] == files;
    SelectMembers(files, |files|, lo, hi, f);
  }

  /** The loop of CompactRange: how many files make up one file's worth of bytes. */
  method ReachesLimit(inputs: seq<File>, limit: nat) returns (n: nat)
    requires inputs != []
    ensures 0 < n <= |inputs| && CutOff(inputs, limit, inputs[..n])
  {
    var total := 0;
    for i := 0 to |inputs|
      invariant total == SumSizes(inputs[..i])
      invariant forall m :: 0 < m <= i ==> SumSizes(inputs[..m]) < limit
    {
      assert inputs[..i + 1][..i] == inputs[..i];
      total := total + inputs[i].size;
      if total >= limit { return i + 1; }
    }
    assert inputs[..|inputs|] == inputs;
    return |inputs|;
  }

  /** CompactRange: the files that meet a manual range, cut off at one file's worth of bytes except
      in level 0. */
  method CompactRange(files: seq<File>, level: nat, begin: Option<UserKey>, end: Option<UserKey>, maxFileSize: nat)
    returns (inputs: seq<File>)
    requires LevelFilesOk(files, level)
    ensures inputs != [] ==> Choice(files, level, inputs)
    ensures exists all ::
              && Overlapping(files, level, begin, end, all)
              && (if level == 0 then inputs == all else CutOff(all, maxFileSize, inputs))
  {
    inputs := GetOverlappingInputs(files, level, begin, end);
    ghost var all := inputs;
    assert Overlapping(files, level, begin, end, all);
    if inputs == [] { return; }
    OverlapsAreChoice(files, level, begin, end, inputs);
    if level > 0 {
      var n := ReachesLimit(inputs, maxFileSize);
      PrefixIsChoice(files, level, inputs, n);
      inputs := inputs[..n];
    }
  }

  /** The fewest files from the front that reach the limit; all of them if none do. */
  ghost predicate CutOff(all: seq<File>, limit: nat, r: seq<File>) {
    && r <= all && (all != [] ==> r != [])
    && (r == all || SumSizes(r) >= limit)
    && forall n :: 0 < n < |r| ==> SumSizes(all[..n]) < limit
  }

  lemma PrefixIsChoice(files: seq<File>, level: nat, ins: seq<File>, n: nat)
    requires level > 0 && Choice(files, level, ins) && 0 < n <= |ins|
    ensures Choice(files, level, ins[..n])
  {
    var a: nat, b: nat :| IsSlice(files, ins, a, b);
    assert IsSlice(files, ins[..n], a, a + n);
  }

  /** ins1 are the files of the next level that meet the range of ins0. */
  ghost predicate NextOverlaps(next: seq<File>, ins0: seq<File>, ins1: seq<File>) {
    forall g :: g in ins1 <==> g in next && MeetsRange(g, Elements(ins0))
  }

  /** The inputs a compaction of `level` may run with. */
  ghost predicate Picked(files: seq<seq<File>>, level: nat, ins0: seq<File>, ins1: seq<File>) {
    && level + 1 < |files|
    && Choice(files[level], level, ins0)
    && BoundaryDone(files[level], ins0)
    && NextOverlaps(files[level + 1], ins0, ins1)
  }

  method OverlapNextLevel(next: seq<File>, level: nat, ins0: seq<File>, smallest: IKey, largest: IKey)
    returns (ins1: seq<File>)
    requires level > 0 && LevelFilesOk(next, level) && Spans(ins0, smallest, largest)
    ensures NextOverlaps(next, ins0, ins1) && InRangeOf(next, ins0, ins1)
  {
    ins1 := GetOverlappingInputs(next, level, Some(smallest.user), Some(largest.user));
    assert next[..|next|] == next;
    forall g ensures g in ins1 <==> g in next && MeetsRange(g, Elements(ins0)) {
      SelectMembers(next, |next|, Some(smallest.user), Some(largest.user), g);
      SpanIsRange(ins0, smallest, largest, g);
    }
  }

  /** ins1 lists, in order, the files of the next level that meet the range of ins0. */
  ghost predicate InRangeOf(next: seq<File>, ins0: seq<File>, ins1: seq<File>) {
    exists lo, hi :: Spans(ins0, lo, hi) && ins1 == Select(next, |next|, Some(lo.user), Some(hi.user))
  }

  /** x0 is what the inputs at `level` would grow to: the files that meet the range of all inputs, and
      the boundary files then missing. */
  ghost predicate Expanded(files0: seq<File>, level: nat, ins0: seq<File>, ins1: seq<File>, x0: seq<File>) {
    exists lo, hi, all :: Spans(ins0 + ins1, lo, hi)
      && Overlapping(files0, level, Some(lo.user), Some(hi.user), all)
      && BoundaryAdded(files0, all, x0) && (x0 != [] ==> BoundaryDone(files0, x0))
  }

  predicate SmallEnough(ins0: seq<File>, ins1: seq<File>, x0: seq<File>, maxFileSize: nat) {
    |x0| > |ins0| && SumSizes(ins1) + SumSizes(x0) < ExpandedCompactionByteSizeLimit(maxFileSize)
  }

  /** The larger inputs are taken exactly if they have more files of `level`, are small enough, and need
      no more files of level + 1. */
  ghost predicate ExpandsRight(level: nat, files0: seq<File>, files1: seq<File>, ins0: seq<File>, ins1: seq<File>,
      maxFileSize: nat, out0: seq<File>, out1: seq<File>) {
    exists x0, x1 ::
      && Expanded(files0, level, ins0, ins1, x0)
      && (SmallEnough(ins0, ins1, x0, maxFileSize) ==> InRangeOf(files1, x0, x1))
      && (if SmallEnough(ins0, ins1, x0, maxFileSize) && |x1| == |ins1| then out0 == x0 && out1 == x1
          else out0 == ins0 && out1 == ins1)
  }

  /** The second half of SetupOtherInputs: take more files of `level` if that needs no more files of
      level + 1 and stays under the size limit. */
  method TryExpand(level: nat, files0: seq<File>, files1: seq<File>, ins0: seq<File>, ins1: seq<File>, maxFileSize: nat)
    returns (out0: seq<File>, out1: seq<File>)
    requires LevelFilesOk(files0, level) && LevelFilesOk(files1, level + 1)
    requires Choice(files0, level, ins0) && BoundaryDone(files0, ins0) && NextOverlaps(files1, ins0, ins1)
    ensures Choice(files0, level, out0) && BoundaryDone(files0, out0) && NextOverlaps(files1, out0, out1)
    ensures (out0 == ins0 && out1 == ins1)
         || (ins1 != [] && |out0| > |ins0| && |out1| == |ins1| &&
           SumSizes(ins1) + SumSizes(out0) < ExpandedCompactionByteSizeLimit(maxFileSize))
    ensures ins1 == [] ==> out0 == ins0 && out1 == []
    ensures ins1 != [] ==> ExpandsRight(level, files0, files1, ins0, ins1, maxFileSize, out0, out1)
  {
    hide Spans, NextOverlaps, Choice, BoundaryDone, LevelFilesOk, InRangeOf;
    out0, out1 := ins0, ins1;
    if ins1 == [] { return; }
    var expanded0 := ExpandLevel(level, files0, ins0, ins1);
    ghost var x1: seq<File> := [];
    var inputs1Size := TotalFileSize(ins1);
    var expanded0Size := TotalFileSize(expanded0);
    if |expanded0| > |ins0| && inputs1Size + expanded0Size < ExpandedCompactionByteSizeLimit(maxFileSize) {
      var newStart, newLimit := GetRange(expanded0);
      var expanded1 := OverlapNextLevel(files1, level + 1, expanded0, newStart, newLimit);
      x1 := expanded1;
      if |expanded1| == |ins1| {
        out0, out1 := expanded0, expanded1;
      }
    }
    Expands(level, files0, files1, ins0, ins1, maxFileSize, out0, out1, expanded0, x1);
  }

  /** The larger inputs at `level`. */
  method ExpandLevel(level: nat, files0: seq<File>, ins0: seq<File>, ins1: seq<File>) returns (x0: seq<File>)
    requires LevelFilesOk(files0, level) && ins0 + ins1 != []
    ensures Expanded(files0, level, ins0, ins1, x0)
    ensures x0 != [] ==> Choice(files0, level, x0) && BoundaryDone(files0, x0)
  {
    hide Choice, BoundaryDone, BoundaryAdded, Spans;
    var lo, hi := GetRange(ins0 + ins1);
    x0 := GetOverlappingInputs(files0, level, Some(lo.user), Some(hi.user));
    ghost var all := x0;
    if x0 != [] {
      OverlapsAreChoice(files0, level, Some(lo.user), Some(hi.user), x0);
    }
    x0 := AddBoundaryInputs(files0, level, x0);
    assert Overlapping(files0, level, Some(lo.user), Some(hi.user), all);
  }

  lemma Expands(level: nat, files0: seq<File>, files1: seq<File>, ins0: seq<File>, ins1: seq<File>, maxFileSize: nat,
      out0: seq<File>, out1: seq<File>, x0: seq<File>, x1: seq<File>)
    requires Expanded(files0, level, ins0, ins1, x0)
    requires SmallEnough(ins0, ins1, x0, maxFileSize) ==> InRangeOf(files1, x0, x1)
    requires if SmallEnough(ins0, ins1, x0, maxFileSize) && |x1| == |ins1| then out0 == x0 && out1 == x1
             else out0 == ins0 && out1 == ins1
    ensures ExpandsRight(level, files0, files1, ins0, ins1, maxFileSize, out0, out1)
  {
    hide Expanded, InRangeOf, SmallEnough;
  }

  /** From the chosen files to the inputs: boundary files, the files of level + 1, the expansion. */
  ghost predicate SetUp(level: nat, files0: seq<File>, files1: seq<File>, inputs0: seq<File>, maxFileSize: nat,
      ins0: seq<File>, ins1: seq<File>) {
    exists b0, b1 :: BoundaryAdded(files0, inputs0, b0) && InRangeOf(files1, b0, b1)
      && if b1 == [] then ins0 == b0 && ins1 == b1
         else ExpandsRight(level, files0, files1, b0, b1, maxFileSize, ins0, ins1)
  }

  lemma ChosenSome(files: seq<File>, level: nat, ins: seq<File>)
    requires Choice(files, level, ins)
    ensures ins != []
  {}

  lemma SpansLargest(fs: seq<File>, smallest: IKey, largest: IKey)
    requires Spans(fs, smallest, largest)
    ensures IsLargest(fs, largest)
  {}

  /** SetupOtherInputs, for any legal choice at `level`. */
  method SetupOtherInputs(files: seq<seq<File>>, level: nat, inputs0: seq<File>, maxFileSize: nat)
    returns (ins0: seq<File>, ins1: seq<File>, grandparents: seq<File>, largest: IKey)
    requires |files| == NUM_LEVELS && level + 1 < NUM_LEVELS
    requires forall i :: 0 <= i < NUM_LEVELS ==> LevelFilesOk(files[i], i)
    requires Choice(files[level], level, inputs0)
    ensures Picked(files, level, ins0, ins1)
    ensures SetUp(level, files[level], files[level + 1], inputs0, maxFileSize, ins0, ins1)
    ensures IsLargest(ins0, largest)
    ensures level + 2 < NUM_LEVELS ==>
        exists lo, hi :: Spans(ins0 + ins1, lo, hi) &&
          grandparents == Select(files[level + 2], |files[level + 2]|, Some(lo.user), Some(hi.user))
    ensures level + 2 >= NUM_LEVELS ==> grandparents == []
  {
    hide BoundaryAdded, InRangeOf, ExpandsRight, BoundaryDone, Choice, NextOverlaps, IsLargest, Spans;
    ins0 := AddBoundaryInputs(files[level], level, inputs0);
    ChosenSome(files[level], level, inputs0);
    ChosenSome(files[level], level, ins0);
    var smallest;
    smallest, largest := GetRange(ins0);
    ins1 := OverlapNextLevel(files[level + 1], level + 1, ins0, smallest, largest);
    ghost var b0, b1 := ins0, ins1;
    ins0, ins1 := TryExpand(level, files[level], files[level + 1], ins0, ins1, maxFileSize);
    assert SetUp(level, files[level], files[level + 1], inputs0, maxFileSize, ins0, ins1) by {
      hide BoundaryAdded, InRangeOf, ExpandsRight;
      assert BoundaryAdded(files[level], inputs0, b0) && InRangeOf(files[level + 1], b0, b1);
    }
    ChosenSome(files[level], level, ins0);
    smallest, largest := GetRange(ins0);
    SpansLargest(ins0, smallest, largest);
    grandparents := [];
    if level + 2 < NUM_LEVELS {
      var allStart, allLimit := GetRange(ins0 + ins1);
      assert LevelFilesOk(files[level + 2], level + 2);
      grandparents := GetOverlappingInputs(files[level + 2], level + 2, Some(allStart.user), Some(allLimit.user));
    }
  }

  // ---- What picking guarantees ------------------------------------------------------------------

  lemma LeftBehind0(files: seq<File>, ins: seq<File>)
    requires LevelFilesOk(files, 0) && Choice(files, 0, ins)
    ensures NoOlderLeftBehind(Elements(files), Elements(ins))
  {
    forall x, y | x in Entries(Elements(files) - Elements(ins)) &&
        y in Entries(Elements(ins)) ensures x.user != y.user {
      var f :| f in Elements(files) - Elements(ins) && x in f.entries;
      var g :| g in Elements(ins) && y in g.entries;
      InRange(f, x);
      InRange(g, y);
      assert !Overlaps(f, g.smallest.user, g.largest.user);
    }
  }

  /** A file before the slice is newer on shared user keys. */
  lemma EarlierFile(files: seq<File>, i: nat, j: nat, x: Entry, y: Entry)
    requires SortedFiles(files) && i < j < |files| && x in files[i].entries && y in files[j].entries
    ensures x.user == y.user ==> x.sn > y.sn || (x.sn == y.sn && x != y)
  {
    assert files[i] in files && files[j] in files;
    InRange(files[i], x);
    InRange(files[j], y);
  }

  /** A file after the slice shares no user key with it. */
  lemma LaterFile(files: seq<File>, ins: seq<File>, a: nat, b: nat, i: nat, j: nat, x: Entry, y: Entry)
    requires SortedFiles(files) && IsSlice(files, ins, a, b) && BoundaryDone(files, ins)
    requires a <= j < b <= i < |files| && x in files[i].entries && y in files[j].entries
    ensures x.user != y.user
  {
    var largest :| IsLargest(ins, largest) && forall g :: g in files ==> !BoundaryFile(g, largest);
    SliceLargest(files, ins, a, b, largest);
    assert files[i] in files && files[j] in files;
    InRange(files[i], x);
    InRange(files[j], y);
    LargestOrder(files, j, b - 1);
    assert !BoundaryFile(files[i], largest);
  }

  lemma LeftBehindIndex(files: seq<File>, ins: seq<File>, a: nat, b: nat, i: nat, j: nat, x: Entry, y: Entry)
    requires SortedFiles(files) && IsSlice(files, ins, a, b) && BoundaryDone(files, ins)
    requires i < |files| && (i < a || i >= b) && a <= j < b && x in files[i].entries && y in files[j].entries
    requires x.user == y.user && x.sn == y.sn ==> x == y
    ensures x.user == y.user ==> x.sn > y.sn
  {
    if i >= b {
      LaterFile(files, ins, a, b, i, j, x, y);
    } else {
      EarlierFile(files, i, j, x, y);
    }
  }

  lemma InsideSlice(files: seq<File>, ins: seq<File>, a: nat, b: nat, i: nat)
    requires IsSlice(files, ins, a, b) && a <= i < b
    ensures files[i] in ins
  {
    assert ins[i - a] == files[i];
  }

  lemma LeftBehindFiles(files: seq<File>, ins: seq<File>, a: nat, b: nat, f: File, g: File, x: Entry, y: Entry)
    requires SortedFiles(files) && IsSlice(files, ins, a, b) && BoundaryDone(files, ins)
    requires f in files && f !in ins && g in ins && x in f.entries && y in g.entries
    requires x.user == y.user && x.sn == y.sn ==> x == y
    ensures x.user == y.user ==> x.sn > y.sn
  {
    var i :| 0 <= i < |files| && files[i] == f;
    if a <= i < b { InsideSlice(files, ins, a, b, i); }
    var j :| 0 <= j < |ins| && ins[j] == g;
    LeftBehindIndex(files, ins, a, b, i, a + j, x, y);
  }

  lemma LeftBehindAt(files: seq<File>, ins: seq<File>, a: nat, b: nat, x: Entry, y: Entry)
    requires SortedFiles(files) && IsSlice(files, ins, a, b) && BoundaryDone(files, ins)
    requires x in Entries(Elements(files) - Elements(ins)) && y in Entries(Elements(ins))
    requires x.user == y.user && x.sn == y.sn ==> x == y
    ensures x.user == y.user ==> x.sn > y.sn
  {
    var f :| f in Elements(files) - Elements(ins) && x in f.entries;
    var g :| g in Elements(ins) && y in g.entries;
    LeftBehindFiles(files, ins, a, b, f, g, x, y);
  }

  lemma SliceEntries(files: seq<File>, ins: seq<File>, a: nat, b: nat)
    requires IsSlice(files, ins, a, b)
    ensures Entries(Elements(ins)) <= Entries(Elements(files))
    ensures Entries(Elements(files) - Elements(ins)) <= Entries(Elements(files))
  {
    assert Elements(ins) <= Elements(files);
  }

  lemma LeftBehind(files: seq<File>, ins: seq<File>)
    requires SortedFiles(files) && Choice(files, 1, ins) && BoundaryDone(files, ins)
    requires UniqueSeqs(Entries(Elements(files)))
    ensures NoOlderLeftBehind(Elements(files), Elements(ins))
  {
    var a: nat, b: nat :| IsSlice(files, ins, a, b);
    SliceEntries(files, ins, a, b);
    forall x, y | x in Entries(Elements(files) - Elements(ins)) && y in Entries(Elements(ins)) && x.user == y.user
      ensures x.sn > y.sn
    {
      LeftBehindAt(files, ins, a, b, x, y);
    }
  }

  /** The files the code picks satisfy what the step relation asks of a compaction. */
  lemma PickedIsGood(files: seq<seq<File>>, level: nat, ins0: seq<File>, ins1: seq<File>)
    requires |files| == NUM_LEVELS && level + 1 < NUM_LEVELS
    requires LevelFilesOk(files[level], level)
    requires UniqueSeqs(Entries(Elements(files[level])))
    requires Picked(files, level, ins0, ins1)
    ensures GoodInputs(Abs(files), level, Elements(ins0), Elements(ins1))
  {
    if level == 0 { LeftBehind0(files[0], ins0); } else { LeftBehind(files[level], ins0); }
    assert ins0[0] in Elements(ins0);
  }

  // ---- The level of a flushed memtable ------------------------------------------------------------

  /** A new file over [lo, hi] may sink from `level` to the next: nothing overlaps it there, and not too
      many bytes do one level further down. */
  ghost predicate MaySink(files: seq<seq<File>>, level: nat, lo: UserKey, hi: UserKey, maxFileSize: nat)
    requires level + 2 < |files|
  {
    && (forall f :: f in files[level + 1] ==> !Meets(f, Some(lo), Some(hi)))
    && SumSizes(Select(files[level + 2], |files[level + 2]|, Some(lo),
      Some(hi))) <= MaxGrandParentOverlapBytes(maxFileSize)
  }

  /** Where a new file over [lo, hi] goes: to level 0 if something overlaps it there, else down for as long
      as it may sink, at most to level 2. */
  ghost function FlushLevel(files: seq<seq<File>>, lo: UserKey, hi: UserKey, maxFileSize: nat): (level: nat)
    requires |files| == NUM_LEVELS
    ensures level <= MAX_MEM_COMPACT_LEVEL
  {
    if exists f :: f in files[0] && Meets(f, Some(lo), Some(hi)) then 0
    else if !MaySink(files, 0, lo, hi, maxFileSize) then 0
    else if !MaySink(files, 1, lo, hi, maxFileSize) then 1
    else 2
  }

  /** PickLevelForMemTableOutput: as deep as the file may sink, but no deeper than level 2. */
  method PickLevelForMemTableOutput(files: seq<seq<File>>, lo: UserKey, hi: UserKey,
      maxFileSize: nat) returns (level: nat)
    requires |files| == NUM_LEVELS
    requires forall i :: 0 <= i < NUM_LEVELS ==> LevelFilesOk(files[i], i)
    requires forall i, f :: 0 <= i < NUM_LEVELS && f in files[i] ==> f.largest.sn <= MAX_SEQUENCE
    ensures level <= MAX_MEM_COMPACT_LEVEL
    ensures level > 0 ==> forall i, f :: 0 <= i <= level && f in files[i] ==> !Meets(f, Some(lo), Some(hi))
    ensures forall l :: 0 <= l < level ==> MaySink(files, l, lo, hi, maxFileSize)
    ensures (forall f :: f in files[0] ==> !Meets(f, Some(lo), Some(hi))) && level < MAX_MEM_COMPACT_LEVEL ==>
        !MaySink(files, level, lo, hi, maxFileSize)
    ensures level == FlushLevel(files, lo, hi, maxFileSize)
  {
    level := 0;
    var overlap := SomeFileOverlapsRange(false, files[0], Some(lo), Some(hi));
    if !overlap {
      assert forall f :: f in files[0] ==> !Meets(f, Some(lo), Some(hi));
      while level < MAX_MEM_COMPACT_LEVEL
        invariant level <= MAX_MEM_COMPACT_LEVEL
        invariant forall i, f :: 0 <= i <= level && f in files[i] ==> !Meets(f, Some(lo), Some(hi))
        invariant forall l :: 0 <= l < level ==> MaySink(files, l, lo, hi, maxFileSize)
      {
        assert LevelFilesOk(files[level + 1], level + 1);
        overlap := SomeFileOverlapsRange(true, files[level + 1], Some(lo), Some(hi));
        if overlap { break; }
        assert forall f :: f in files[level + 1] ==> !Meets(f, Some(lo), Some(hi));
        if level + 2 < NUM_LEVELS {
          assert LevelFilesOk(files[level + 2], level + 2);
          var overlaps := GetOverlappingInputs(files[level + 2], level + 2, Some(lo), Some(hi));
          var sum := TotalFileSize(overlaps);
          if sum > MaxGrandParentOverlapBytes(maxFileSize) { break; }
        }
        assert MaySink(files, level, lo, hi, maxFileSize);
        level := level + 1;
      }
    }
  }
}
