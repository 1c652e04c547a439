/** A run of the store that loses a deletion (db/version_set.cc:1403-1462, db/db_impl.cc:929-963). */
module LostDeletions {
  import opened DbFormat
  import opened Reads
  import opened Files
  import opened Lsm
  import opened LsmCompaction
  import opened LsmRuns
  import opened Version
  import opened CompactionInputs
  import opened CompactionWork

  const OLD: Entry := Entry(1.0, 1, Value, [2])
  const LOW: Entry := Entry(0.0, 2, Value, [])
  const DEL: Entry := Entry(1.0, 3, Deletion, [])
  const TOP: Entry := Entry(0.0, 4, Value, [1])

  const Z: File := File(3, 1, OLD.Key(), OLD.Key(), [OLD])
  const G: File := File(5, 1, LOW.Key(), DEL.Key(), [LOW, DEL])
  const G1: File := File(6, 1, LOW.Key(), DEL.Key(), [LOW, DEL])
  const G2: File := File(7, 1, OLD.Key(), OLD.Key(), [OLD])
  const F: File := File(9, 1, TOP.Key(), TOP.Key(), [TOP])
  const OUT: File := F.(number := 10)

  const FIRST: seq<Op> := [Put(1.0, [2])]
  const SECOND: seq<Op> := [Put(0.0, []), Delete(1.0)]
  const THIRD: seq<Op> := [Put(0.0, [1])]
  const SPLIT_HISTORY: seq<Op> := [Put(1.0, [2]), Put(0.0, []), Delete(1.0), Put(0.0, [1])]

  const NONE: seq<set<File>> := [{}, {}, {}, {}, {}, {}, {}]
  const WITH_Z: seq<set<File>> := [{}, {}, {Z}, {}, {}, {}, {}]
  const WITH_G: seq<set<File>> := [{}, {G}, {Z}, {}, {}, {}, {}]
  const IN_LEVEL_2: seq<set<File>> := [{}, {}, {G1, G2}, {}, {}, {}, {}]
  const WITH_F: seq<set<File>> := [{}, {F}, {G1, G2}, {}, {}, {}, {}]

  /** User key 1.0 was written, then deleted; the deletion and the older value sit in two adjacent
      files of level 2, and no snapshot is held. */
  const SPLIT: Db := Db({}, None, WITH_F, 4, [], 10)

  /** The store after compacting F and G1. */
  const MERGED: Db := Db({}, None, [{}, {}, {G2, OUT}, {}, {}, {}, {}], 4, [], 11)

  /** How it comes to that: a snapshot makes a first compaction keep both entries, and the compaction
      puts them into two files. */
  const STATES: seq<Db> := [
    Db({}, None, NONE, 0, [], 2),
    Db({OLD}, None, NONE, 1, [], 2),
    Db({OLD}, None, NONE, 1, [1], 2),
    Db({}, Some({OLD}), NONE, 1, [1], 3),
    Db({}, None, WITH_Z, 1, [1], 4),
    Db({LOW, DEL}, None, WITH_Z, 3, [1], 4),
    Db({}, Some({LOW, DEL}), WITH_Z, 3, [1], 5),
    Db({}, None, WITH_G, 3, [1], 6),
    Db({}, None, IN_LEVEL_2, 3, [1], 8),
    Db({TOP}, None, IN_LEVEL_2, 4, [1], 8),
    Db({}, Some({TOP}), IN_LEVEL_2, 4, [1], 9),
    Db({}, None, WITH_F, 4, [1], 10),
    SPLIT,
    MERGED]

  const ACTIONS: seq<Action> := [
    Write(FIRST), TakeSnapshot, Switch, Flush(Z, 2),
    Write(SECOND), Switch, Flush(G, 1), Compact(1, {G}, {Z}, {G1, G2}),
    Write(THIRD), Switch, Flush(F, 1), Release(0), Compact(1, {F}, {G1}, {OUT})]

  lemma EntriesOfOne(f: File)
    ensures Entries({f}) == Elements(f.entries)
  {}

  lemma SplitEntries()
    ensures Entries({}) == {}
    ensures Entries({F}) == {TOP} == Entries({OUT})
    ensures Entries({G1}) == {LOW, DEL} && Entries({G2}) == {OLD}
    ensures Entries({G1, G2}) == {LOW, DEL, OLD}
    ensures Entries({F} + {G1}) == {TOP, LOW, DEL}
  {
    EntriesOfOne(F);
    EntriesOfOne(OUT);
    EntriesOfOne(G1);
    EntriesOfOne(G2);
    assert G1.entries[0] == LOW && G1.entries[1] == DEL && G2.entries[0] == OLD && F.entries[0] == TOP;
    assert {G1, G2} == {G1} + {G2};
    EntriesUnion({G1}, {G2});
    EntriesUnion({F}, {G1});
  }

  lemma SplitAll()
    ensures All(SPLIT) == {TOP, LOW, DEL, OLD} == History(SPLIT_HISTORY)
  {
    SplitEntries();
    var S := {TOP, LOW, DEL, OLD};
    forall e | e in S ensures e in Span(SPLIT.levels, 0, NUM_LEVELS) {
      if e == TOP { assert e in Entries(SPLIT.levels[1]); } else { assert e in Entries(SPLIT.levels[2]); }
    }
    OpEntryIn(SPLIT_HISTORY, 1, 0);
    OpEntryIn(SPLIT_HISTORY, 1, 1);
    OpEntryIn(SPLIT_HISTORY, 1, 2);
    OpEntryIn(SPLIT_HISTORY, 1, 3);
    forall e | e in History(SPLIT_HISTORY) ensures e in S { OpEntryIs(SPLIT_HISTORY, 1, e); }
  }

  lemma SplitStep()
    ensures CompactStep(SPLIT, MERGED, 1, {F}, {G1}, {OUT})
  {
    SplitEntries();
    var In := Entries({F} + {G1});
    assert Deeper(SPLIT.levels, 3) == {};
    assert Covered({}) == iset{};
    assert Hidden(In, LOW, 4) by { assert TOP in In; }
    assert Kept(In, 4, iset{}) == {TOP};
    assert SPLIT.levels[1] - {F} == {} && SPLIT.levels[2] - {G1} == {G2};
    assert {G2} + {OUT} == {G2, OUT};
    assert MERGED.levels == Install(SPLIT.levels, 1, {F}, {G1}, {OUT});
    assert MeetsRange(G1, {F}) by { assert Overlaps(G1, F.smallest.user, F.largest.user); }
    assert !MeetsRange(G2, {F});
    assert WellFormed(OUT);
  }

  lemma SplitRead()
    ensures Read({TOP, LOW, DEL, OLD}, 1.0, 4) == None
  {
    ReadNewest({TOP, LOW, DEL, OLD}, 1.0, 4, DEL);
  }

  lemma MergedRead()
    ensures All(MERGED) == {TOP, OLD}
    ensures Read(All(MERGED), 1.0, 4) == Some([2])
  {
    SplitEntries();
    assert {G2, OUT} == {G2} + {OUT};
    EntriesUnion({G2}, {OUT});
    assert Entries(MERGED.levels[2]) == {TOP, OLD};
    assert forall i :: 0 <= i < NUM_LEVELS && i != 2 ==> MERGED.levels[i] == {};
    assert {TOP, OLD} <= Span(MERGED.levels, 0, NUM_LEVELS);
    ReadNewest({TOP, OLD}, 1.0, 4, OLD);
  }

  lemma SplitNotClosed()
    ensures !BoundaryClosed(SPLIT.levels, 1, {G1})
  {
    SplitEntries();
    assert SPLIT.levels[2] - {G1} == {G2};
    assert OLD in Entries({G2}) && DEL in Entries({G1});
  }

  // ---- The run -------------------------------------------------------------------------------------

  lemma TwoOps(x: Op, y: Op, first: nat)
    ensures OpEntries([x, y], first) == {OpEntry(x, first), OpEntry(y, first + 1)}
    ensures OpEntries([x], first) == {OpEntry(x, first)}
  {
    assert [x, y][1..] == [y] && [y][1..] == [] && [x][1..] == [];
    assert OpEntries([y], first + 1) == {OpEntry(y, first + 1)} + OpEntries([], first + 2);
    assert OpEntries([x], first) == {OpEntry(x, first)} + OpEntries([], first + 1);
  }

  lemma Writes(i: nat)
    requires i == 0 || i == 4 || i == 8
    ensures Next(STATES[i], STATES[i + 1], ACTIONS[i])
  {
    TwoOps(Put(1.0, [2]), Delete(1.0), 1);
    TwoOps(Put(0.0, []), Delete(1.0), 2);
    TwoOps(Put(0.0, [1]), Delete(1.0), 4);
    assert {} + {OLD} == {OLD} && {} + {LOW, DEL} == {LOW, DEL} && {} + {TOP} == {TOP};
  }

  lemma Flushes(i: nat)
    requires i == 3 || i == 6 || i == 10
    ensures Next(STATES[i], STATES[i + 1], ACTIONS[i])
  {
    assert Elements(Z.entries) == {OLD} by { assert Z.entries[0] == OLD; }
    assert Elements(G.entries) == {LOW, DEL} by { assert G.entries[0] == LOW && G.entries[1] == DEL; }
    assert Elements(F.entries) == {TOP} by { assert F.entries[0] == TOP; }
    assert {} + {Z} == {Z} && {} + {G} == {G} && {} + {F} == {F};
    assert NONE[2 := {Z}] == WITH_Z && WITH_Z[1 := {G}] == WITH_G && IN_LEVEL_2[1 := {F}] == WITH_F;
    assert WellFormed(Z) && WellFormed(G) && WellFormed(F);
  }

  lemma AllSurvive()
    ensures Entries({G} + {Z}) == {LOW, DEL, OLD} == Kept({LOW, DEL, OLD}, 1, Covered({}))
  {
    EntriesOfOne(G);
    EntriesOfOne(Z);
    assert G.entries[0] == LOW && G.entries[1] == DEL && Z.entries[0] == OLD;
    EntriesUnion({G}, {Z});
  }

  lemma CompactsG()
    ensures CompactStep(STATES[7], STATES[8], 1, {G}, {Z}, {G1, G2})
  {
    SplitEntries();
    AllSurvive();
    hide Kept, Covered;
    assert Deeper(WITH_G, 3) == {};
    assert WITH_G[1] - {G} == {} && WITH_G[2] - {Z} + {G1, G2} == {G1, G2};
    assert IN_LEVEL_2 == Install(WITH_G, 1, {G}, {Z}, {G1, G2});
    assert MeetsRange(Z, {G}) by { assert Overlaps(Z, G.smallest.user, G.largest.user); }
    assert WellFormed(G1) && WellFormed(G2) && Apart(G1, G2);
  }

  lemma EachStep(i: nat)
    requires i < 13
    ensures Next(STATES[i], STATES[i + 1], ACTIONS[i])
  {
    if i == 0 || i == 4 || i == 8 {
      Writes(i);
    } else if i == 3 || i == 6 || i == 10 {
      Flushes(i);
    } else if i == 7 {
      CompactsG();
    } else if i == 12 {
      SplitStep();
    } else if i == 1 {
      assert [] + [1] == [1];
    } else if i == 11 {
      assert [1][..0] + [1][1..] == [];
    }
  }

  lemma TheRun()
    ensures Run(STATES, ACTIONS)
    ensures Past(ACTIONS, 12) == Past(ACTIONS, 13) == SPLIT_HISTORY
  {
    hide Next;
    forall i | 0 <= i < |ACTIONS| ensures Next(STATES[i], STATES[i + 1], ACTIONS[i]) { EachStep(i); }
    WrittenSoFar();
  }

  /** Up to the first write among the actions n, ..., m - 1, nothing is added to the history. */
  lemma {:induction false} NothingWritten(acts: seq<Action>, n: nat, m: nat)
    requires n <= m <= |acts| && forall i :: n <= i < m ==> !acts[i].Write?
    ensures Past(acts, m) == Past(acts, n)
  {
    if n < m {
      NothingWritten(acts, n, m - 1);
      PastNext(acts, m - 1);
      assert Past(acts, m - 1) + [] == Past(acts, m - 1);
    }
  }

  lemma WrittenSoFar()
    ensures Past(ACTIONS, 12) == Past(ACTIONS, 13) == SPLIT_HISTORY
  {
    assert Past(ACTIONS, 0) == [];
    hide Past, Written;
    PastNext(ACTIONS, 0);
    NothingWritten(ACTIONS, 1, 4);
    PastNext(ACTIONS, 4);
    NothingWritten(ACTIONS, 5, 8);
    PastNext(ACTIONS, 8);
    NothingWritten(ACTIONS, 9, 12);
    NothingWritten(ACTIONS, 12, 13);
    assert [] + FIRST + SECOND + THIRD == SPLIT_HISTORY;
  }

  // ---- The code takes every step of it ---------------------------------------------------------------

  /** The step is the one the code takes on these file lists: a flush goes to the level that
      PickLevelForMemTableOutput answers; the inputs of a compaction are a choice that SetupOtherInputs
      has completed, and no single file that would just be moved. */
  ghost predicate AsTheCode(a: Db, act: Action, lists: seq<seq<File>>, maxFileSize: nat) {
    && |lists| == NUM_LEVELS && Abs(lists) == a.levels
    && (forall i :: 0 <= i < NUM_LEVELS ==> LevelFilesOk(lists[i], i))
    && match act
       case Flush(f, lvl) => lvl == FlushLevel(lists, f.smallest.user, f.largest.user, maxFileSize)
       case Compact(level, ins0, ins1, _) =>
         exists s0, s1 :: Elements(s0) == ins0 && Elements(s1) == ins1 && s1 != [] && Picked(lists, level, s0, s1)
       case _ => true
  }

  /** The files of every state, level by level, in the order of their smallest keys. */
  const LISTS: seq<seq<seq<File>>> := [
    [[], [], [], [], [], [], []], [[], [], [], [], [], [], []], [[], [], [], [], [], [], []],
    [[], [], [], [], [], [], []], [[], [], [Z], [], [], [], []], [[], [], [Z], [], [], [], []],
    [[], [], [Z], [], [], [], []], [[], [G], [Z], [], [], [], []], [[], [], [G1, G2], [], [], [], []],
    [[], [], [G1, G2], [], [], [], []], [[], [], [G1, G2], [], [], [], []], [[], [F], [G1, G2], [], [], [], []],
    [[], [F], [G1, G2], [], [], [], []]]

  lemma PicksG()
    ensures Picked(LISTS[7], 1, [G], [Z])
  {
    assert IsSlice(LISTS[7][1], [G], 0, 1);
    assert IsLargest([G], G.largest);
    assert MeetsRange(Z, {G}) by { assert Overlaps(Z, G.smallest.user, G.largest.user); }
    assert Elements([G]) == {G};
  }

  lemma PicksF()
    ensures Picked(LISTS[12], 1, [F], [G1])
  {
    assert IsSlice(LISTS[12][1], [F], 0, 1);
    assert IsLargest([F], F.largest);
    assert MeetsRange(G1, {F}) by { assert Overlaps(G1, F.smallest.user, F.largest.user); }
    assert Elements([F]) == {F};
  }

  lemma {:induction false} SelectsOf(fs: seq<File>, n: nat, lo: UserKey, hi: UserKey)
    requires n <= |fs| && forall f :: f in fs ==> f.size == 1
    ensures SumSizes(Select(fs, n, Some(lo), Some(hi))) <= n
  {
    if n > 0 {
      SelectsOf(fs, n - 1, lo, hi);
      var r := Select(fs, n - 1, Some(lo), Some(hi));
      assert (r + [fs[n - 1]])[..|r|] == r;
    }
  }

  /** A new file stops above a file of level 2 that it meets if nothing else is in its way. */
  lemma StopsAbove(lists: seq<seq<File>>, f: File, g: File, maxFileSize: nat)
    requires |lists| == NUM_LEVELS && lists[0] == [] == lists[1] && |lists[2]| <= 2 && maxFileSize > 0
    requires forall h :: h in lists[2] ==> h.size == 1
    requires g in lists[2] && Meets(g, Some(f.smallest.user), Some(f.largest.user))
    ensures FlushLevel(lists, f.smallest.user, f.largest.user, maxFileSize) == 1
  {
    SelectsOf(lists[2], |lists[2]|, f.smallest.user, f.largest.user);
  }

  lemma FallsThrough(lists: seq<seq<File>>, f: File, maxFileSize: nat)
    requires |lists| == NUM_LEVELS && forall i :: 0 <= i < NUM_LEVELS ==> lists[i] == []
    ensures FlushLevel(lists, f.smallest.user, f.largest.user, maxFileSize) == 2
  {}

  lemma PicksLevels(i: nat, maxFileSize: nat)
    requires (i == 3 || i == 6 || i == 10) && maxFileSize > 0
    ensures AsTheCode(STATES[i], ACTIONS[i], LISTS[i], maxFileSize)
  {
    hide FlushLevel, LevelFilesOk, Abs;
    ListsAre(i);
    if i == 3 {
      FallsThrough(LISTS[3], Z, maxFileSize);
    } else if i == 6 {
      assert Z in LISTS[6][2];
      StopsAbove(LISTS[6], G, Z, maxFileSize);
    } else {
      assert G1 in LISTS[10][2];
      StopsAbove(LISTS[10], F, G1, maxFileSize);
    }
  }

  lemma EachIsAsTheCode(i: nat, maxFileSize: nat)
    requires i < 13 && maxFileSize > 0
    ensures AsTheCode(STATES[i], ACTIONS[i], LISTS[i], maxFileSize)
  {
    ListsAre(i);
    if i == 3 || i == 6 || i == 10 {
      PicksLevels(i, maxFileSize);
    } else if i == 7 {
      PicksG();
      assert Elements([G]) == {G} && Elements([Z]) == {Z};
    } else if i == 12 {
      PicksF();
      assert Elements([F]) == {F} && Elements([G1]) == {G1};
    }
  }

  lemma ListsAre(i: nat)
    requires i < 13
    ensures Abs(LISTS[i]) == STATES[i].levels
    ensures forall j :: 0 <= j < NUM_LEVELS ==> LevelFilesOk(LISTS[i][j], j)
  {
    hide WellFormed, Abs, SortedFiles;
    SetsOf();
    SortedLists();
    forall j | 0 <= j < NUM_LEVELS ensures Elements(LISTS[i][j]) == STATES[i].levels[j] {}
    AbsIs(LISTS[i], STATES[i].levels);
  }

  lemma AbsIs(lists: seq<seq<File>>, levels: seq<set<File>>)
    requires |lists| == |levels| && forall j :: 0 <= j < |lists| ==> Elements(lists[j]) == levels[j]
    ensures Abs(lists) == levels
  {}

  lemma SetsOf()
    ensures Elements([Z]) == {Z} && Elements([G]) == {G} && Elements([F]) == {F}
    ensures Elements([G1, G2]) == {G1, G2} && Elements<File>([]) == {}
  {}

  lemma SortedLists()
    ensures SortedFiles([Z]) && SortedFiles([G]) && SortedFiles([F]) && SortedFiles([G1, G2]) && SortedFiles([])
  {
    assert WellFormed(Z) && WellFormed(G) && WellFormed(F) && WellFormed(G1) && WellFormed(G2);
    hide WellFormed;
    assert Less(G1.largest, G2.smallest);
  }

  /** The bytes of a table whose blocks hold two entries: before it is finished only full blocks count. */
  function FileSize(es: seq<Entry>, finished: bool): nat {
    if finished || |es| >= 2 then 1 else 0
  }

  /** With files of one block the code cuts the outputs of both compactions where this run does. */
  lemma OutputsAreCut()
    ensures WellCutOver([G1, G2], Entries({G} + {Z}), [], 1, FileSize)
    ensures WellCutOver([OUT], Entries({F} + {G1}), [], 1, FileSize)
  {
    AllSurvive();
    SplitEntries();
    hide Entries, WellCut;
    var first, second := Job([], [LOW, DEL, OLD], 1, FileSize), Job([], [TOP, LOW, DEL], 1, FileSize);
    assert Elements(first.input) == {LOW, DEL, OLD};
    assert Elements(second.input) == {TOP, LOW, DEL};
    CutInTwo(first);
    CutInOne(second);
  }

  lemma CutInTwo(job: Job)
    requires job.gs == [] && job.maxFileSize == 1 && job.fileSize == FileSize
    ensures WellCut([G1, G2], job)
  {
    NothingStops(job);
    hide StopBetween;
    assert [LOW, DEL][..1] == [LOW];
  }

  lemma CutInOne(job: Job)
    requires job.gs == [] && job.maxFileSize == 1 && job.fileSize == FileSize
    ensures WellCut([OUT], job)
  {}

  lemma NothingStops(job: Job)
    requires job.gs == []
    ensures forall a, b :: !StopBetween(job, a, b)
  {
  }

  /** A run of the store from empty, each step as the code takes it, in which a deleted value comes back.
      The store keeps its shape; but the last compaction drops the deletion from a file of level + 1 while
      the value is in the next one, which AddBoundaryInputs, called for `level` only, does not add. */
  lemma DeletionLost()
    ensures Run(STATES, ACTIONS) && STATES[12] == SPLIT && STATES[13] == MERGED && Past(ACTIONS, 13) == SPLIT_HISTORY
    ensures forall i, maxFileSize: nat :: 0 <= i < |ACTIONS| && maxFileSize > 0 ==>
        AsTheCode(STATES[i], ACTIONS[i], LISTS[i], maxFileSize)
    ensures ACTIONS[12] == Compact(1, {F}, {G1}, {OUT}) && Shape(MERGED, SPLIT_HISTORY)
    ensures !BoundaryClosed(SPLIT.levels, 1, {G1}) && !LosesNothing(SPLIT, ACTIONS[12])
    ensures Lookup(MapAt(SPLIT_HISTORY, 4), 1.0) == None == Read(All(SPLIT), 1.0, 4)
    ensures Read(All(MERGED), 1.0, 4) == Some([2])
  {
    hide Run, Past, AsTheCode, Shape, Lookup, MapAt, Read, All;
    TheRun();
    forall i, maxFileSize: nat | 0 <= i < |ACTIONS| && maxFileSize > 0
      ensures AsTheCode(STATES[i], ACTIONS[i], LISTS[i], maxFileSize)
    {
      EachIsAsTheCode(i, maxFileSize);
    }
    RunKeepsShape(STATES, ACTIONS, 13);
    LostMarker();
    LostReads();
    SplitNotClosed();
  }

  lemma LostReads()
    ensures Lookup(MapAt(SPLIT_HISTORY, 4), 1.0) == None == Read(All(SPLIT), 1.0, 4)
    ensures Read(All(MERGED), 1.0, 4) == Some([2])
  {
    hide MapAt, Lookup, Read;
    SplitAll();
    SplitRead();
    MergedRead();
    HistoryIsMap(SPLIT_HISTORY, 4, 1.0);
  }

  lemma LostMarker()
    ensures !LosesNothing(SPLIT, ACTIONS[12])
  {
    hide NoMarkerLost, Read, All, CompactStep;
    TheRun();
    RunKeepsShape(STATES, ACTIONS, 12);
    SplitStep();
    CompactionExact(SPLIT, MERGED, SPLIT_HISTORY, 1, {F}, {G1}, {OUT});
    LostReads();
    assert SmallestSnapshot(SPLIT) == 4;
  }
}
