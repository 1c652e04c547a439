/** One compaction: cursors into the deeper levels, the drop loop and its output files
    (db/version_set.cc:1497-1583, db/db_impl.cc:786-1036). */
module CompactionWork {
  import opened DbFormat
  import opened Reads
  import opened Files
  import opened Lsm
  import opened Version
  import opened CompactionInputs

  class Compaction {
    const files: seq<seq<File>>
    const level: nat
    const grandparents: seq<File>
    const maxFileSize: nat
    const levelPtrs: array<nat>
    var grandparentIndex: nat
    var seenKey: bool
    var overlappedBytes: nat

    ghost predicate Valid()
      reads this
    {
      && |files| == NUM_LEVELS
      && (forall i :: 1 <= i < NUM_LEVELS ==> SortedFiles(files[i]))
      && levelPtrs.Length == NUM_LEVELS
      && grandparentIndex <= |grandparents|
    }

    constructor (files: seq<seq<File>>, level: nat, grandparents: seq<File>, maxFileSize: nat)
      requires |files| == NUM_LEVELS && (forall i :: 1 <= i < NUM_LEVELS ==> SortedFiles(files[i]))
      ensures Valid() && Untouched() && fresh(levelPtrs) && this.files == files && this.level == level
      ensures this.grandparents == grandparents && this.maxFileSize == maxFileSize
    {
      this.files, this.level, this.grandparents, this.maxFileSize := files, level, grandparents, maxFileSize;
      levelPtrs := new nat[NUM_LEVELS](i => 0);
      grandparentIndex, seenKey, overlappedBytes := 0, false, 0;
    }

    /** Nothing has been compacted yet. */
    ghost predicate Untouched()
      requires |files| == NUM_LEVELS == levelPtrs.Length
      reads this, levelPtrs
    {
      (forall k :: CursorsBehind(k)) && grandparentIndex == 0 && !seenKey && overlappedBytes == 0
    }

    /** Every file a cursor has passed ends before user key k. */
    ghost predicate CursorsBehind(k: UserKey)
      requires |files| == NUM_LEVELS == levelPtrs.Length
      reads levelPtrs
    {
      forall lvl :: level + 2 <= lvl < NUM_LEVELS ==> CursorBehind(files[lvl], levelPtrs[lvl], k)
    }

    static ghost predicate CursorBehind(fs: seq<File>, ptr: nat, k: UserKey) {
      ptr <= |fs| && forall i :: 0 <= i < ptr ==> fs[i].largest.user < k
    }

    lemma CursorsStayBehind(k: UserKey, k': UserKey)
      requires Valid() && CursorsBehind(k) && k <= k'
      ensures CursorsBehind(k')
    {}

    ghost predicate LevelCovers(lvl: nat, k: UserKey)
      requires lvl < |files|
    {
      exists f :: f in files[lvl] && Covers(f, k)
    }

    /** IsBaseLevelForKey: with cursors that only move forward, on ascending keys, the answer is that
        of a full scan of all levels from level + 2 on. */
    method IsBaseLevelForKey(userKey: UserKey) returns (base: bool)
      requires Valid() && CursorsBehind(userKey)
      modifies levelPtrs
      ensures Valid() && CursorsBehind(userKey)
      ensures base <==> userKey !in Covered(Deeper(Abs(files), level + 2))
    {
      var lvl := level + 2;
      while lvl < NUM_LEVELS
        invariant CursorsBehind(userKey)
        invariant forall l :: level + 2 <= l < lvl && l < NUM_LEVELS ==> !LevelCovers(l, userKey)
      {
        var fs := files[lvl];
        while levelPtrs[lvl] < |fs|
          invariant CursorsBehind(userKey)
          invariant levelPtrs[lvl] == |fs| ==> !LevelCovers(lvl, userKey)
          decreases |fs| - levelPtrs[lvl]
        {
          var f := fs[levelPtrs[lvl]];
          if userKey <= f.largest.user {
            CursorDecides(fs, levelPtrs[lvl], userKey);
            if userKey >= f.smallest.user {
              DeeperCovers(lvl, f, userKey);
              return false;
            }
            break;
          }
          levelPtrs[lvl] := levelPtrs[lvl] + 1;
        }
        lvl := lvl + 1;
      }
      NoneCovers(userKey);
      return true;
    }

    /** The first file not wholly before k is the only one that can cover k. */
    static lemma CursorDecides(fs: seq<File>, ptr: nat, k: UserKey)
      requires SortedFiles(fs) && CursorBehind(fs, ptr, k) && ptr < |fs| && k <= fs[ptr].largest.user
      ensures (exists f :: f in fs && Covers(f, k)) <==> Covers(fs[ptr], k)
    {
      forall i | 0 <= i < |fs| && Covers(fs[i], k) ensures Covers(fs[ptr], k) {
        if i >= ptr { LargestOrder(fs, ptr, i); }
      }
      assert fs[ptr] in fs;
    }

    lemma DeeperCovers(lvl: nat, f: File, k: UserKey)
      requires |files| == NUM_LEVELS && level + 2 <= lvl < NUM_LEVELS && f in files[lvl] && Covers(f, k)
      ensures k in Covered(Deeper(Abs(files), level + 2))
    {
      assert f in Abs(files)[lvl];
      assert SomeCovers(Deeper(Abs(files), level + 2), k);
    }

    lemma NoneCovers(k: UserKey)
      requires |files| == NUM_LEVELS
      requires forall l :: level + 2 <= l < NUM_LEVELS ==> !LevelCovers(l, k)
      ensures k !in Covered(Deeper(Abs(files), level + 2))
    {
      forall f | f in Deeper(Abs(files), level + 2) ensures !Covers(f, k) {
        var l :| level + 2 <= l < NUM_LEVELS && f in Abs(files)[l];
        assert !LevelCovers(l, k);
      }
    }

    /** ShouldStopBefore: counts the bytes of the grandparent files passed since the last cut. */
    method ShouldStopBefore(key: IKey) returns (stop: bool)
      requires Valid()
      modifies this
      ensures Valid() && seenKey && old(grandparentIndex) <= grandparentIndex
      ensures forall i :: old(grandparentIndex) <= i < grandparentIndex ==> Less(grandparents[i].largest, key)
      ensures grandparentIndex < |grandparents| ==> !Less(grandparents[grandparentIndex].largest, key)
      ensures var passed := if old(seenKey) then SumSizes(grandparents[old(grandparentIndex)..grandparentIndex]) else 0;
              && (stop <==> old(overlappedBytes) + passed > MaxGrandParentOverlapBytes(maxFileSize))
              && overlappedBytes == if stop then 0 else old(overlappedBytes) + passed
    {
      while grandparentIndex < |grandparents| && Less(grandparents[grandparentIndex].largest, key)
        invariant old(grandparentIndex) <= grandparentIndex <= |grandparents|
        invariant seenKey == old(seenKey)
        invariant forall i :: old(grandparentIndex) <= i < grandparentIndex ==> Less(grandparents[i].largest, key)
        invariant overlappedBytes == old(overlappedBytes)
          + if seenKey then SumSizes(grandparents[old(grandparentIndex)..grandparentIndex]) else 0
      {
        assert grandparents[old(grandparentIndex)..grandparentIndex + 1]
            == grandparents[old(grandparentIndex)..grandparentIndex] + [grandparents[grandparentIndex]];
        if seenKey {
          overlappedBytes := overlappedBytes + grandparents[grandparentIndex].size;
        }
        grandparentIndex := grandparentIndex + 1;
      }
      seenKey := true;
      if overlappedBytes > MaxGrandParentOverlapBytes(maxFileSize) {
        overlappedBytes := 0;
        return true;
      } else {
        return false;
      }
    }
  }

  // ---- Where outputs are cut -------------------------------------------------------------------

  /** What decides where outputs end: the grandparents, the merged input, the size limit, and how many
      bytes a table takes, before it is finished or after. */
  datatype Job = Job(gs: seq<File>, input: seq<Entry>, maxFileSize: nat, fileSize: (seq<Entry>, bool) -> nat)

  predicate Full(es: seq<Entry>, job: Job) { job.fileSize(es, false) >= job.maxFileSize }

  /** How many grandparents, from the front, lie wholly before a key. */
  ghost function Passed(gs: seq<File>, key: IKey): (n: nat)
    ensures n <= |gs| && (forall i :: 0 <= i < n ==> Less(gs[i].largest, key))
    ensures n < |gs| ==> !Less(gs[n].largest, key)
  {
    if gs == [] || !Less(gs[0].largest, key) then 0 else 1 + Passed(gs[1..], key)
  }

  /** The bytes of the grandparents between two keys. */
  ghost function BytesBetween(gs: seq<File>, a: IKey, b: IKey): nat {
    if Passed(gs, a) <= Passed(gs, b) then SumSizes(gs[Passed(gs, a)..Passed(gs, b)]) else 0
  }

  /** The last key at or before the i-th before which an output had to end, or the first key. */
  ghost function LastStop(gs: seq<File>, input: seq<Entry>, i: nat, maxFileSize: nat): (s: nat)
    requires i < |input|
    ensures s <= i
    decreases i, 1
  {
    if i == 0 then 0 else if StopsAt(gs, input, i, maxFileSize) then i else LastStop(gs, input, i - 1, maxFileSize)
  }

  /** Since the last such key too many bytes of grandparents have been passed. */
  ghost predicate StopsAt(gs: seq<File>, input: seq<Entry>, i: nat, maxFileSize: nat)
    requires i < |input|
    decreases i, 0
  {
    i > 0 && BytesBetween(gs, input[LastStop(gs, input, i - 1, maxFileSize)].Key(), input[i].Key())
      > MaxGrandParentOverlapBytes(maxFileSize)
  }

  ghost predicate StopAfter(job: Job, a: IKey, j: nat) {
    j < |job.input| && StopsAt(job.gs, job.input, j, job.maxFileSize) && Less(a, job.input[j].Key())
  }

  /** An output that holds a must end before b. */
  ghost predicate StopBetween(job: Job, a: IKey, b: IKey) {
    exists j :: StopIn(job, a, b, j)
  }

  ghost predicate StopIn(job: Job, a: IKey, b: IKey, j: nat) {
    StopAfter(job, a, j) && !Less(b, job.input[j].Key())
  }

  /** Nothing in these entries of one output called for its end earlier than it came. */
  ghost predicate Together(es: seq<Entry>, job: Job) {
    forall n :: 0 < n < |es| ==>
      !Full(es[..n], job) && !StopBetween(job, es[n - 1].Key(), es[n].Key())
  }

  /** The outputs end just where they must: once a file is big enough, or before a key before which too
      many bytes of grandparents have been passed. */
  ghost predicate WellCut(outputs: seq<File>, job: Job) {
    && (forall f :: f in outputs ==> f.size == job.fileSize(f.entries, true) && Together(f.entries, job))
    && forall i :: 0 <= i < |outputs| - 1 ==>
      Full(outputs[i].entries, job) || StopBetween(job, outputs[i].largest, outputs[i + 1].smallest)
  }

  /** The outputs are cut as the merged order of these entries calls for. */
  ghost predicate WellCutOver(outputs: seq<File>, In: set<Entry>, gs: seq<File>, maxFileSize: nat,
      fileSize: (seq<Entry>, bool) -> nat) {
    exists input :: Sorted(input) && Elements(input) == In && WellCut(outputs, Job(gs, input, maxFileSize, fileSize))
  }

  lemma PassedUnique(gs: seq<File>, key: IKey, n: nat)
    requires n <= |gs| && (forall i :: 0 <= i < n ==> Less(gs[i].largest, key))
    requires n < |gs| ==> !Less(gs[n].largest, key)
    ensures Passed(gs, key) == n
  {}

  lemma {:induction false} SizesConcat(a: seq<File>, b: seq<File>)
    ensures SumSizes(a + b) == SumSizes(a) + SumSizes(b)
    decreases |b|
  {
    if b == [] {
      assert a + b == a;
    } else {
      SizesConcat(a, b[..|b| - 1]);
      assert (a + b)[..|a + b| - 1] == a + b[..|b| - 1];
    }
  }

  lemma BytesAdd(gs: seq<File>, a: IKey, b: IKey, c: IKey)
    requires Passed(gs, a) <= Passed(gs, b) <= Passed(gs, c)
    ensures BytesBetween(gs, a, c) == BytesBetween(gs, a, b) + BytesBetween(gs, b, c)
  {
    var i, j, k := Passed(gs, a), Passed(gs, b), Passed(gs, c);
    hide Passed, SumSizes;
    SizesConcat(gs[i..j], gs[j..k]);
    assert gs[i..k] == gs[i..j] + gs[j..k];
  }

  lemma PassedGrows(gs: seq<File>, a: IKey, b: IKey)
    requires a == b || Less(a, b)
    ensures Passed(gs, a) <= Passed(gs, b)
  {}

  /** The counters of a compaction after the first i keys of its input. */
  ghost predicate Counted(gs: seq<File>, input: seq<Entry>, i: nat, maxFileSize: nat, index: nat, seen: bool,
      bytes: nat)
    requires i <= |input|
  {
    if i == 0 then index == 0 && !seen && bytes == 0
    else
      && seen && index == Passed(gs, input[i - 1].Key())
      && bytes == BytesBetween(gs, input[LastStop(gs, input, i - 1, maxFileSize)].Key(), input[i - 1].Key())
  }

  /** What ShouldStopBefore answers to the next key. */
  lemma CountsOn(gs: seq<File>, input: seq<Entry>, i: nat, maxFileSize: nat, index: nat, seen: bool, bytes: nat,
      index': nat, stop: bool, bytes': nat)
    requires Sorted(input) && i < |input| && Counted(gs, input, i, maxFileSize, index, seen, bytes)
    requires index <= index' <= |gs|
    requires forall j :: index <= j < index' ==> Less(gs[j].largest, input[i].Key())
    requires index' < |gs| ==> !Less(gs[index'].largest, input[i].Key())
    requires var passed := if seen then SumSizes(gs[index..index']) else 0;
             && (stop <==> bytes + passed > MaxGrandParentOverlapBytes(maxFileSize))
             && bytes' == if stop then 0 else bytes + passed
    ensures stop <==> StopsAt(gs, input, i, maxFileSize)
    ensures Counted(gs, input, i + 1, maxFileSize, index', true, bytes')
  {
    var key := input[i].Key();
    assert gs[index'..index'] == [];
    if i > 0 {
      var before, last := input[i - 1].Key(), input[LastStop(gs, input, i - 1, maxFileSize)].Key();
      PassedGrows(gs, before, key);
      PassedGrows(gs, last, before);
      forall j | 0 <= j < index ensures Less(gs[j].largest, key) {}
      PassedUnique(gs, key, index');
      BytesAdd(gs, last, before, key);
    } else {
      PassedUnique(gs, key, index');
    }
  }

  /** The outputs and the open one, when the first i keys of the input have been counted. */
  ghost predicate CutSoFar(outputs: seq<File>, open: seq<Entry>, job: Job, i: nat) {
    && WellCut(outputs, job) && Together(open, job)
    && (open != [] ==> NoStopSince(job, open[|open| - 1].Key(), i))
    && (outputs != [] ==> CutBehind(outputs[|outputs| - 1], open, job, i))
  }

  ghost predicate NoStopSince(job: Job, a: IKey, i: nat) { forall j :: 0 <= j < i ==> !StopAfter(job, a, j) }

  /** Why the last finished output ended where it did. */
  ghost predicate CutBehind(f: File, open: seq<Entry>, job: Job, i: nat) {
    || Full(f.entries, job)
    || if open != [] then StopBetween(job, f.largest, open[0].Key()) else !NoStopSince(job, f.largest, i)
  }

  /** The file made of the entries of an output. */
  function OutputFile(number: nat, es: seq<Entry>, size: nat): File
    requires es != []
  {
    File(number, size, es[0].Key(), es[|es| - 1].Key(), es)
  }

  lemma CutNothing(job: Job)
    ensures CutSoFar([], [], job, 0)
  {}

  /** One key more has been counted, and the open output goes on. */
  lemma CutGoesOn(outputs: seq<File>, open: seq<Entry>, job: Job, i: nat)
    requires CutSoFar(outputs, open, job, i) && i < |job.input|
    requires open == [] || !StopsAt(job.gs, job.input, i, job.maxFileSize)
    ensures CutSoFar(outputs, open, job, i + 1)
  {}

  lemma WellCutMore(outputs: seq<File>, f: File, job: Job)
    requires WellCut(outputs, job) && Together(f.entries, job) && f.size == job.fileSize(f.entries, true)
    requires outputs != [] ==> CutBehind(outputs[|outputs| - 1], f.entries, job, 0)
    requires f.entries != [] && f.smallest == f.entries[0].Key()
    ensures WellCut(outputs + [f], job)
  {
    hide Together, StopBetween, Full;
  }

  /** The open output ends, because it is big enough, or before a key that calls for it, or last. */
  lemma CutEnds(outputs: seq<File>, number: nat, open: seq<Entry>, job: Job, i: nat)
    requires CutSoFar(outputs, open, job, i) && open != []
    ensures var f := OutputFile(number, open, job.fileSize(open, true));
            WellCut(outputs + [f], job) && (Full(open, job) ==> CutSoFar(outputs + [f], [], job, i))
  {
    var f := OutputFile(number, open, job.fileSize(open, true));
    hide Together, StopBetween, Full, StopAfter;
    WellCutMore(outputs, f, job);
    assert Together([], job) by { NoneApart(job); }
  }

  /** The fields of the compaction have counted the first i keys. */
  ghost predicate CountedBy(c: Compaction, job: Job, i: nat)
    reads c
  {
    && c.grandparents == job.gs && c.maxFileSize == job.maxFileSize && i <= |job.input|
    && Counted(job.gs, job.input, i, job.maxFileSize, c.grandparentIndex, c.seenKey, c.overlappedBytes)
  }

  lemma CountsNone(c: Compaction, job: Job)
    requires c.Valid() && c.Untouched() && c.grandparents == job.gs && c.maxFileSize == job.maxFileSize
    ensures CountedBy(c, job, 0)
  {}

  lemma CutIsWell(outputs: seq<File>, job: Job, i: nat)
    requires CutSoFar(outputs, [], job, i)
    ensures WellCut(outputs, job)
  {}

  /** The open output ends before the i-th key. */
  lemma StopHere(outputs: seq<File>, number: nat, open: seq<Entry>, job: Job, i: nat)
    requires CutSoFar(outputs, open, job, i) && open != [] && i < |job.input|
    requires StopsAt(job.gs, job.input, i, job.maxFileSize) && AllBefore(outputs, open, job.input[i].Key())
    ensures CutSoFar(outputs + [OutputFile(number, open, job.fileSize(open, true))], [], job, i + 1)
  {
    CutEnds(outputs, number, open, job, i);
    NoneApart(job);
    assert StopAfter(job, open[|open| - 1].Key(), i);
    hide WellCut, Together, StopBetween, Full, StopAfter;
  }

  lemma NoneApart(job: Job)
    ensures Together([], job)
  {}

  /** A kept entry goes to the open output. */
  lemma CutAdds(outputs: seq<File>, open: seq<Entry>, job: Job, i: nat)
    requires CutSoFar(outputs, open, job, i + 1) && i < |job.input| && Sorted(job.input)
    requires open != [] ==> !Full(open, job)
    ensures CutSoFar(outputs, open + [job.input[i]], job, i + 1)
  {
    var e := job.input[i];
    NotPast(job, i);
    if open == [] {
      assert open + [e] == [e];
      if outputs != [] && !Full(outputs[|outputs| - 1].entries, job) {
        var a := outputs[|outputs| - 1].largest;
        var j :| 0 <= j < i + 1 && StopAfter(job, a, j);
        assert StopIn(job, a, e.Key(), j);
      }
    } else {
      TogetherMore(open, job, i);
    }
  }

  /** No key up to the i-th comes after it. */
  lemma NotPast(job: Job, i: nat)
    requires i < |job.input| && Sorted(job.input)
    ensures forall j :: 0 <= j < |job.input| ==> (j <= i <==> !Less(job.input[i].Key(), job.input[j].Key()))
    ensures NoStopSince(job, job.input[i].Key(), i + 1)
  {}

  lemma TogetherMore(open: seq<Entry>, job: Job, i: nat)
    requires open != [] && Together(open, job) && !Full(open, job) && i < |job.input| && Sorted(job.input)
    requires NoStopSince(job, open[|open| - 1].Key(), i + 1)
    ensures Together(open + [job.input[i]], job)
  {
    var e := job.input[i];
    var es, a := open + [e], open[|open| - 1].Key();
    NotPast(job, i);
    assert !StopBetween(job, a, e.Key()) by {
      forall j | 0 <= j < |job.input| ensures !StopIn(job, a, e.Key(), j) {}
    }
    hide StopBetween, Full;
    forall n | 0 < n < |es| ensures !Full(es[..n], job) && !StopBetween(job, es[n - 1].Key(), es[n].Key()) {
      assert es[..n] == open[..n];
      if n == |open| { assert open[..n] == open; }
    }
  }

  // ---- The drop rule on the merged stream ------------------------------------------------------

  /** The merged input of a compaction: key order, one entry per user key and sequence number. */
  ghost predicate Stream(input: seq<Entry>) {
    Sorted(input) && UniqueSeqs(Elements(input)) && forall e :: e in input ==> e.sn <= MAX_SEQUENCE
  }

  /** Entry i is the next one after an entry of its user key that is old enough. */
  predicate HiddenAt(input: seq<Entry>, i: nat, smallest: nat)
    requires i < |input|
  {
    i > 0 && input[i - 1].user == input[i].user && input[i - 1].sn <= smallest
  }

  /** Looking one entry back decides what rule (A) says about all newer entries. */
  lemma HiddenIsLocal(input: seq<Entry>, i: nat, smallest: nat)
    requires Stream(input) && i < |input|
    ensures HiddenAt(input, i, smallest) <==> Hidden(Elements(input), input[i], smallest)
  {
    var e := input[i];
    if HiddenAt(input, i, smallest) {
      var p := input[i - 1];
      assert p in Elements(input) && e in Elements(input);
      assert p.sn != e.sn by { assert Less(p.Key(), e.Key()); }
      TagOrder(p.Key(), e.Key());
    }
    if Hidden(Elements(input), e, smallest) {
      var p :| p in Elements(input) && p.user == e.user && e.sn < p.sn <= smallest;
      var j :| 0 <= j < |input| && input[j] == p;
      NewerIsEarlier(input, j, i);
      SameUserBetween(input, j, i);
    }
  }

  lemma NewerIsEarlier(input: seq<Entry>, j: nat, i: nat)
    requires Sorted(input) && j < |input| && i < |input|
    requires input[j].user == input[i].user && input[j].sn > input[i].sn
    ensures j < i
  {
    TagOrder(input[i].Key(), input[j].Key());
  }

  lemma SameUserBetween(input: seq<Entry>, j: nat, i: nat)
    requires Sorted(input) && j < i < |input| && input[j].user == input[i].user
    ensures input[i - 1].user == input[i].user && input[i - 1].sn <= input[j].sn
  {
    if j < i - 1 { TagOrder(input[j].Key(), input[i - 1].Key()); }
  }

  ghost predicate KeepAt(input: seq<Entry>, i: nat, smallest: nat, covered: iset<UserKey>)
    requires i < |input|
  {
    !HiddenAt(input, i, smallest) && !Obsolete(input[i], smallest, covered)
  }

  /** The first i entries of the stream without the dropped ones. */
  ghost function KeptSeq(input: seq<Entry>, i: nat, smallest: nat, covered: iset<UserKey>): seq<Entry>
    requires i <= |input|
  {
    if i == 0 then []
    else KeptSeq(input, i - 1, smallest, covered) + if KeepAt(input, i - 1, smallest, covered) then
        [input[i - 1]] else []
  }

  lemma {:induction false} KeptSeqElements(input: seq<Entry>, i: nat, smallest: nat, covered: iset<UserKey>, e: Entry)
    requires i <= |input|
    ensures e in KeptSeq(input, i, smallest, covered)
       <==> exists j :: 0 <= j < i && input[j] == e && KeepAt(input, j, smallest, covered)
  {
    if i > 0 { KeptSeqElements(input, i - 1, smallest, covered, e); }
  }

  /** The one-pass rule of the loop keeps exactly the entries the declarative rule keeps. */
  lemma KeptSeqIsKept(input: seq<Entry>, smallest: nat, covered: iset<UserKey>)
    requires Stream(input)
    ensures Elements(KeptSeq(input, |input|, smallest, covered)) == Kept(Elements(input), smallest, covered)
  {
    var ks, K := KeptSeq(input, |input|, smallest, covered), Kept(Elements(input), smallest, covered);
    forall e ensures e in Elements(ks) <==> e in K {
      KeptSeqElements(input, |input|, smallest, covered, e);
      if e in ks {
        var j :| 0 <= j < |input| && input[j] == e && KeepAt(input, j, smallest, covered);
        HiddenIsLocal(input, j, smallest);
      }
      if e in K {
        var j :| 0 <= j < |input| && input[j] == e;
        HiddenIsLocal(input, j, smallest);
        assert KeepAt(input, j, smallest, covered);
      }
    }
  }

  // ---- Output files -----------------------------------------------------------------------------

  ghost function Flat(outputs: seq<File>): seq<Entry> {
    if outputs == [] then [] else Flat(outputs[..|outputs| - 1]) + outputs[|outputs| - 1].entries
  }

  lemma {:induction false} FlatEntries(outputs: seq<File>)
    ensures Elements(Flat(outputs)) == Entries(Elements(outputs))
  {
    if outputs != [] {
      var n := |outputs| - 1;
      FlatEntries(outputs[..n]);
      assert outputs == outputs[..n] + [outputs[n]];
      assert Elements(outputs) == Elements(outputs[..n]) + {outputs[n]};
      EntriesUnion(Elements(outputs[..n]), {outputs[n]});
      assert Entries({outputs[n]}) == Elements(outputs[n].entries);
    }
  }

  /** The finished outputs and the entries of the open one, all before `key`. */
  ghost predicate AllBefore(outputs: seq<File>, open: seq<Entry>, key: IKey) {
    && (forall f :: f in outputs ==> Less(f.largest, key))
    && (forall e :: e in open ==> Less(e.Key(), key))
  }

  /** Outputs are in order, numbered from `first`, and before the entries of the open one. */
  ghost predicate OutputsOk(outputs: seq<File>, first: nat, open: seq<Entry>) {
    && SortedFiles(outputs)
    && (forall i :: 0 <= i < |outputs| ==> outputs[i].number == first + i)
    && Sorted(open)
    && (forall f, e :: f in outputs && e in open ==> Less(f.largest, e.Key()))
  }

  /** FinishCompactionOutputFile: the open entries become the next output.  `key` is any later key. */
  method FinishOutput(outputs: seq<File>, first: nat, open: seq<Entry>, size: nat, ghost key: Option<IKey>)
    returns (outputs': seq<File>)
    requires open != [] && OutputsOk(outputs, first, open)
    requires key.Some? ==> AllBefore(outputs, open, key.value)
    ensures OutputsOk(outputs', first, []) && Flat(outputs') == Flat(outputs) + open
    ensures outputs' == outputs + [OutputFile(first + |outputs|, open, size)]
    ensures key.Some? ==> AllBefore(outputs', [], key.value)
  {
    var f := OutputFile(first + |outputs|, open, size);
    outputs' := outputs + [f];
    assert outputs'[..|outputs|] == outputs;
    assert WellFormed(f);
  }

  lemma AddToOpen(outputs: seq<File>, first: nat, open: seq<Entry>, e: Entry)
    requires OutputsOk(outputs, first, open) && AllBefore(outputs, open, e.Key())
    ensures OutputsOk(outputs, first, open + [e])
  {}

  lemma StillBefore(outputs: seq<File>, open: seq<Entry>, e: Entry, next: IKey)
    requires AllBefore(outputs, open, e.Key()) && Less(e.Key(), next)
    ensures AllBefore(outputs, open, next) && AllBefore(outputs, open + [e], next)
  {}

  /** The open output may go on growing. */
  predicate MayGrow(open: seq<Entry>, job: Job) { open != [] ==> !Full(open, job) }

  lemma IsFull(es: seq<Entry>, job: Job)
    ensures Full(es, job) <==> job.fileSize(es, false) >= job.maxFileSize
    ensures MayGrow(es, job) <==> es == [] || !Full(es, job)
    ensures MayGrow([], job)
  {}

  /** The last part of the loop body: store a kept entry and close the output if it is big enough. */
  method AddOutput(outputs: seq<File>, first: nat, open: seq<Entry>, e: Entry, job: Job,
                   ghost next: Option<IKey>, ghost i: nat)
    returns (outputs': seq<File>, open': seq<Entry>)
    requires OutputsOk(outputs, first, open) && AllBefore(outputs, open, e.Key())
    requires next.Some? ==> Less(e.Key(), next.value)
    requires i < |job.input| && job.input[i] == e && Sorted(job.input)
    requires CutSoFar(outputs, open, job, i + 1) && MayGrow(open, job)
    ensures CutSoFar(outputs', open', job, i + 1) && MayGrow(open', job)
    ensures OutputsOk(outputs', first, open') && Flat(outputs') + open' == Flat(outputs) + open + [e]
    ensures next.Some? ==> AllBefore(outputs', open', next.value)
  {
    AddToOpen(outputs, first, open, e);
    CutAdds(outputs, open, job, i);
    hide *;
    if next.Some? { StillBefore(outputs, open, e, next.value); }
    outputs', open' := CloseIfFull(outputs, first, open + [e], job, next, i + 1);
    assert Flat(outputs) + open + [e] == Flat(outputs) + (open + [e]);
  }

  method CloseIfFull(outputs: seq<File>, first: nat, open: seq<Entry>, job: Job, ghost next: Option<IKey>,
      ghost i: nat)
    returns (outputs': seq<File>, open': seq<Entry>)
    requires OutputsOk(outputs, first, open) && open != [] && CutSoFar(outputs, open, job, i)
    requires next.Some? ==> AllBefore(outputs, open, next.value)
    ensures CutSoFar(outputs', open', job, i) && MayGrow(open', job)
    ensures OutputsOk(outputs', first, open') && Flat(outputs') + open' == Flat(outputs) + open
    ensures next.Some? ==> AllBefore(outputs', open', next.value)
  {
    IsFull(open, job);
    hide *;
    outputs', open' := outputs, open;
    if job.fileSize(open, false) >= job.maxFileSize {
      CutEnds(outputs, first + |outputs|, open, job, i);
      outputs' := FinishOutput(outputs, first, open, job.fileSize(open, true), next);
      open' := [];
      assert Flat(outputs') + open' == Flat(outputs');
    }
  }

  /** The drop decision of the loop body. */
  method ShouldDrop(c: Compaction, input: seq<Entry>, i: nat, currentUserKey: Option<UserKey>,
                    lastSequenceForKey: nat, smallestSnapshot: nat)
    returns (drop: bool)
    requires c.Valid() && Stream(input) && i < |input| && c.CursorsBehind(input[i].user)
    requires smallestSnapshot < MAX_SEQUENCE
    requires i == 0 ==> currentUserKey.None?
    requires i > 0 ==> currentUserKey == Some(input[i - 1].user) && lastSequenceForKey == input[i - 1].sn
    modifies c.levelPtrs
    ensures c.Valid() && c.CursorsBehind(input[i].user)
    ensures drop <==> !KeepAt(input, i, smallestSnapshot, Covered(Deeper(Abs(c.files), c.level + 2)))
  {
    var e := input[i];
    var last := if currentUserKey != Some(e.user) then MAX_SEQUENCE else lastSequenceForKey;
    drop := false;
    if last <= smallestSnapshot {
      drop := true;
    } else if e.kind.Deletion? && e.sn <= smallestSnapshot {
      drop := c.IsBaseLevelForKey(e.user);
    }
  }

  /** The rest of the loop body: a kept entry goes to the open output. */
  method Place(outputs: seq<File>, first: nat, open: seq<Entry>, e: Entry, drop: bool, job: Job,
               ghost next: Option<IKey>, ghost i: nat)
    returns (outputs': seq<File>, open': seq<Entry>)
    requires OutputsOk(outputs, first, open) && AllBefore(outputs, open, e.Key())
    requires next.Some? ==> Less(e.Key(), next.value)
    requires i < |job.input| && job.input[i] == e && Sorted(job.input)
    requires CutSoFar(outputs, open, job, i + 1) && MayGrow(open, job)
    ensures OutputsOk(outputs', first, open')
    ensures CutSoFar(outputs', open', job, i + 1) && MayGrow(open', job)
    ensures Flat(outputs') + open' == Flat(outputs) + open + if drop then [] else [e]
    ensures next.Some? ==> AllBefore(outputs', open', next.value)
  {
    hide OutputsOk, Flat, CutSoFar, Sorted;
    outputs', open' := outputs, open;
    if drop {
      if next.Some? { StillBefore(outputs, open, e, next.value); }
      assert Flat(outputs) + open + [] == Flat(outputs) + open;
    } else {
      outputs', open' := AddOutput(outputs, first, open, e, job, next, i);
    }
  }

  lemma NothingYet(first: nat, input: seq<Entry>, smallest: nat, covered: iset<UserKey>)
    ensures OutputsOk([], first, []) && Flat([]) + [] == KeptSeq(input, 0, smallest, covered)
    ensures forall key :: AllBefore([], [], key)
  {}

  /** The first part of the loop body: the open output may have to end before this key. */
  method EndBefore(c: Compaction, outputs: seq<File>, first: nat, open: seq<Entry>, e: Entry, job: Job, ghost i: nat)
    returns (outputs': seq<File>, open': seq<Entry>)
    requires c.Valid() && CountedBy(c, job, i) && i < |job.input| && job.input[i] == e && Sorted(job.input)
    requires OutputsOk(outputs, first, open) && AllBefore(outputs, open, e.Key())
    requires CutSoFar(outputs, open, job, i) && MayGrow(open, job)
    modifies c
    ensures c.Valid() && CountedBy(c, job, i + 1)
    ensures OutputsOk(outputs', first, open') && AllBefore(outputs', open', e.Key())
    ensures Flat(outputs') + open' == Flat(outputs) + open
    ensures CutSoFar(outputs', open', job, i + 1) && MayGrow(open', job)
  {
    hide Sorted, OutputsOk, AllBefore, Flat, CutSoFar, Counted, MayGrow, StopsAt, SumSizes;
    ghost var index, seen, bytes := c.grandparentIndex, c.seenKey, c.overlappedBytes;
    outputs', open' := outputs, open;
    var stop := c.ShouldStopBefore(e.Key());
    CountsOn(job.gs, job.input, i, job.maxFileSize, index, seen, bytes, c.grandparentIndex, stop, c.overlappedBytes);
    if stop && open != [] {
      StopHere(outputs, first + |outputs|, open, job, i);
      outputs' := FinishOutput(outputs, first, open, job.fileSize(open, true), Some(e.Key()));
      open' := [];
      IsFull([], job);
      assert Flat(outputs') + open' == Flat(outputs');
    } else {
      CutGoesOn(outputs, open, job, i);
    }
  }

  /** DoCompactionWork: one pass over the merged input.  How many bytes a table takes is a parameter. */
  method DoCompactionWork(c: Compaction, input: seq<Entry>, smallestSnapshot: nat, first: nat,
                          fileSize: (seq<Entry>, bool) -> nat)
    returns (outputs: seq<File>)
    requires c.Valid() && c.Untouched()
    requires Stream(input) && smallestSnapshot < MAX_SEQUENCE
    modifies c, c.levelPtrs
    ensures OutputsOk(outputs, first, [])
    ensures WellCut(outputs, Job(c.grandparents, input, c.maxFileSize, fileSize))
    ensures Flat(outputs) == KeptSeq(input, |input|, smallestSnapshot, Covered(Deeper(Abs(c.files), c.level + 2)))
  {
    hide Covered, Deeper, WellFormed, OutputsOk, AllBefore, Flat, CutSoFar, CountedBy, WellCut, MayGrow;
    var job := Job(c.grandparents, input, c.maxFileSize, fileSize);
    CutNothing(job);
    CountsNone(c, job);
    IsFull([], job);
    ghost var covered := Covered(Deeper(Abs(c.files), c.level + 2));
    outputs := [];
    NothingYet(first, input, smallestSnapshot, covered);
    var builder: seq<Entry> := [];
    var currentUserKey: Option<UserKey> := None;
    var lastSequenceForKey := MAX_SEQUENCE;
    for i := 0 to |input|
      invariant c.Valid()
      invariant i == 0 ==> currentUserKey.None?
      invariant i > 0 ==> currentUserKey == Some(input[i - 1].user) && lastSequenceForKey == input[i - 1].sn
      invariant i < |input| ==> c.CursorsBehind(input[i].user)
      invariant i < |input| ==> AllBefore(outputs, builder, input[i].Key())
      invariant OutputsOk(outputs, first, builder)
      invariant Flat(outputs) + builder == KeptSeq(input, i, smallestSnapshot, covered)
      invariant CountedBy(c, job, i) && CutSoFar(outputs, builder, job, i) && MayGrow(builder, job)
    {
      var e := input[i];
      outputs, builder := EndBefore(c, outputs, first, builder, e, job, i);
      var drop := ShouldDrop(c, input, i, currentUserKey, lastSequenceForKey, smallestSnapshot);
      currentUserKey, lastSequenceForKey := Some(e.user), e.sn;
      ghost var next := if i + 1 < |input| then Some(input[i + 1].Key()) else None;
      if next.Some? { c.CursorsStayBehind(e.user, next.value.user); }
      outputs, builder := Place(outputs, first, builder, e, drop, job, next, i);
    }
    if builder != [] {
      CutEnds(outputs, first + |outputs|, builder, job, |input|);
      outputs := FinishOutput(outputs, first, builder, fileSize(builder, true), None);
    } else {
      CutIsWell(outputs, job, |input|);
    }
  }
}
