/** What the files and the logs hold in every state of the store, and what a crash leaves of it
    (db/db_impl.cc:283-369, 371-489, 535-566, 1346-1365). */
module FilesAndTails {
  import opened DbFormat
  import opened Reads
  import opened Files
  import opened Lsm
  import opened LsmCompaction
  import opened LsmRuns

  /** The history is split in three: what comes before lo is in files, from lo to hi in the immutable
      memtable, and from hi on in the memtable.  The logs not yet deleted hold what comes after lo. */
  ghost predicate Tails(db: Db, h: seq<Op>, lo: nat, hi: nat) {
    && lo <= hi <= |h| && |db.levels| == NUM_LEVELS
    && Stored(db) <= History(h[..lo])
    && (if db.imm.Some? then db.imm.value == OpEntries(h[lo..hi], lo + 1) else lo == hi)
    && db.mem == OpEntries(h[hi..], hi + 1)
  }

  /** The entries in files. */
  ghost function Stored(db: Db): set<Entry>
    requires |db.levels| == NUM_LEVELS
  {
    Span(db.levels, 0, NUM_LEVELS)
  }

  /** The store without its memtables. */
  function FilesOnly(db: Db): Db { db.(mem := {}, imm := None) }

  /** Read alone, the files show every live snapshot of the first lo writes. */
  ghost predicate FilesKept(db: Db, h: seq<Op>, lo: nat)
    requires |db.levels| == NUM_LEVELS && lo <= |h|
  {
    forall k, s: nat :: s >= SmallestSnapshot(db) ==> Read(Stored(db), k, s) == Read(History(h[..lo]), k, s)
  }

  /** If the step is a compaction, it uncovers no value, looking at the files alone. */
  ghost predicate FilesLoseNothing(a: Db, act: Action) {
    LosesNothing(FilesOnly(a), act)
  }

  /** lo and hi after a step. */
  function MarksAfter(act: Action, lo: nat, hi: nat, written: nat): (nat, nat) {
    if act.Switch? then (lo, written) else if act.Flush? then (hi, hi) else (lo, hi)
  }

  function Marks(acts: seq<Action>, n: nat): (nat, nat)
    requires n <= |acts|
  {
    if n == 0 then (0, 0)
    else var m := Marks(acts, n - 1); MarksAfter(acts[n - 1], m.0, m.1, |Past(acts, n - 1)|)
  }

  // ---- Steps ---------------------------------------------------------------------------------------

  lemma FilesOnlyShape(db: Db, h: seq<Op>)
    requires Shape(db, h)
    ensures Shape(FilesOnly(db), h) && All(FilesOnly(db)) == Stored(db)
  {}

  lemma HistoryTo(h: seq<Op>, lo: nat, hi: nat)
    requires lo <= hi <= |h|
    ensures History(h[..hi]) == History(h[..lo]) + OpEntries(h[lo..hi], lo + 1)
    ensures Newer(OpEntries(h[lo..hi], lo + 1), History(h[..lo]))
  {
    assert h[..hi] == h[..lo] + h[lo..hi];
    HistoryGrows(h[..lo], h[lo..hi]);
  }

  lemma TailsWrite(a: Db, b: Db, h: seq<Op>, ops: seq<Op>, lo: nat, hi: nat)
    requires a.lastSequence == |h| && WriteStep(a, b, ops) && Tails(a, h, lo, hi)
    ensures Tails(b, h + ops, lo, hi)
  {
    hide OpEntries, Span, History;
    Slices(h, ops, lo, hi);
    OpEntriesAppend(h[hi..], ops, hi + 1);
  }

  lemma Slices(h: seq<Op>, ops: seq<Op>, lo: nat, hi: nat)
    requires lo <= hi <= |h|
    ensures var h' := h + ops; h'[..lo] == h[..lo] && h'[lo..hi] == h[lo..hi] && h'[hi..] == h[hi..] + ops
  {}

  lemma TailsSwitch(a: Db, b: Db, h: seq<Op>, lo: nat, hi: nat)
    requires SwitchStep(a, b) && Tails(a, h, lo, hi)
    ensures Tails(b, h, lo, |h|)
  {
    assert h[lo..|h|] == h[hi..] && h[|h|..] == [];
  }

  /** A flush puts the entries of the immutable memtable into a file. */
  lemma FlushStores(a: Db, b: Db, f: File, lvl: nat)
    requires FlushStep(a, b, f, lvl)
    ensures |b.levels| == NUM_LEVELS && Stored(b) == a.imm.value + Stored(a)
  {
    if a.imm.value != {} { SpanAdd(a.levels, lvl, f); }
  }

  lemma TailsFlush(a: Db, b: Db, h: seq<Op>, f: File, lvl: nat, lo: nat, hi: nat)
    requires FlushStep(a, b, f, lvl) && Tails(a, h, lo, hi)
    ensures Tails(b, h, hi, hi)
  {
    FlushStores(a, b, f, lvl);
    HistoryTo(h, lo, hi);
    assert h[hi..hi] == [];
  }

  lemma CompactStores(a: Db, b: Db, h: seq<Op>, level: nat, ins0: set<File>, ins1: set<File>, outs: set<File>)
    requires Shape(a, h) && CompactStep(a, b, level, ins0, ins1, outs)
    ensures |b.levels| == NUM_LEVELS && Stored(b) <= Stored(a)
  {
    FilesOnlyShape(a, h);
    CompactShape(FilesOnly(a), FilesOnly(b), h, level, ins0, ins1, outs);
    FilesOnlyShape(FilesOnly(b), h);
  }

  lemma MoveStores(a: Db, b: Db, h: seq<Op>, level: nat, f: File)
    requires Shape(a, h) && MoveStep(a, b, level, f)
    ensures |b.levels| == NUM_LEVELS && Stored(b) == Stored(a)
  {
    assert {f} + {} == {f};
    assert Replaces(a.levels, level, {f}, {}, {f});
    InstallSpan(a.levels, level, {f}, {}, {f});
  }

  lemma TailsNext(a: Db, b: Db, h: seq<Op>, act: Action, lo: nat, hi: nat)
    requires Shape(a, h) && Next(a, b, act) && Tails(a, h, lo, hi)
    ensures var m := MarksAfter(act, lo, hi, |h|); Tails(b, h + WrittenBy(act), m.0, m.1)
  {
    assert h + [] == h;
    match act
    case Write(ops) => TailsWrite(a, b, h, ops, lo, hi);
    case Switch => TailsSwitch(a, b, h, lo, hi);
    case Flush(f, lvl) => TailsFlush(a, b, h, f, lvl, lo, hi);
    case Move(level, f) => MoveStores(a, b, h, level, f);
    case Compact(level, ins0, ins1, outs) => CompactStores(a, b, h, level, ins0, ins1, outs);
    case TakeSnapshot =>
    case Release(i) =>
  }

  /** Files, immutable memtable and memtable split the history, in every state of every run. */
  lemma {:induction false} RunKeepsTails(dbs: seq<Db>, acts: seq<Action>, n: nat)
    requires Run(dbs, acts) && n <= |acts|
    ensures Tails(dbs[n], Past(acts, n), Marks(acts, n).0, Marks(acts, n).1)
  {
    hide Tails, Next, Shape;
    if n == 0 {
      NothingYet(dbs[0]);
      assert Past(acts, 0) == [];
    } else {
      RunKeepsTails(dbs, acts, n - 1);
      RunKeepsShape(dbs, acts, n - 1);
      PastNext(acts, n - 1);
      var m := Marks(acts, n - 1);
      TailsNext(dbs[n - 1], dbs[n], Past(acts, n - 1), acts[n - 1], m.0, m.1);
    }
  }

  lemma NothingYet(db: Db)
    requires Empty(db)
    ensures Tails(db, [], 0, 0) && FilesKept(db, [], 0)
  {
    assert forall i :: 0 <= i < NUM_LEVELS ==> db.levels[i] == {};
    assert Stored(db) == {} == History([][..0]);
  }

  // ---- The files alone -----------------------------------------------------------------------------

  lemma FilesUnique(db: Db, h: seq<Op>, lo: nat)
    requires |db.levels| == NUM_LEVELS && lo <= |h| && Stored(db) <= History(h[..lo])
    ensures UniqueSeqs(Stored(db)) && UniqueSeqs(History(h[..lo]))
    ensures forall e :: e in Stored(db) || e in History(h[..lo]) ==> e.sn <= lo
  {
    HistoryUnique(h[..lo]);
  }

  /** A flush adds to the files the part of the history it adds to lo. */
  lemma FlushKeepsFiles(a: Db, b: Db, h: seq<Op>, f: File, lvl: nat, lo: nat, hi: nat)
    requires FlushStep(a, b, f, lvl) && Tails(a, h, lo, hi) && FilesKept(a, h, lo)
    ensures |b.levels| == NUM_LEVELS && FilesKept(b, h, hi)
  {
    FlushStores(a, b, f, lvl);
    HistoryTo(h, lo, hi);
    HistoryUnique(h[..hi]);
    var new_ := OpEntries(h[lo..hi], lo + 1);
    forall k, s: nat | s >= SmallestSnapshot(b) ensures Read(Stored(b), k, s) == Read(History(h[..hi]), k, s) {
      assert new_ + History(h[..lo]) == History(h[..hi]);
      ReadUnderLayer(new_, Stored(a), History(h[..lo]), k, s);
    }
  }

  /** A compaction keeps what the files show exactly if it uncovers nothing in them. */
  lemma CompactKeepsFiles(a: Db, b: Db, h: seq<Op>, level: nat, ins0: set<File>, ins1: set<File>, outs: set<File>,
      lo: nat)
    requires Shape(a, h) && CompactStep(a, b, level, ins0, ins1, outs) && lo <= |h| && FilesKept(a, h, lo)
    ensures |b.levels| == NUM_LEVELS
    ensures FilesKept(b, h, lo) <==> NoMarkerLost(FilesOnly(a), level, ins1)
  {
    FilesOnlyShape(a, h);
    CompactionExact(FilesOnly(a), FilesOnly(b), h, level, ins0, ins1, outs);
    FilesOnlyShape(FilesOnly(b), h);
    assert SmallestSnapshot(b) == SmallestSnapshot(a);
    SameFiles(a, b, h, lo);
  }

  lemma SameFiles(a: Db, b: Db, h: seq<Op>, lo: nat)
    requires |a.levels| == |b.levels| == NUM_LEVELS && lo <= |h| && FilesKept(a, h, lo)
    requires SmallestSnapshot(b) >= SmallestSnapshot(a)
    ensures (forall k, s: nat :: s >= SmallestSnapshot(a) ==> Read(Stored(b), k, s) == Read(Stored(a), k, s))
        ==> FilesKept(b, h, lo)
    ensures SmallestSnapshot(b) == SmallestSnapshot(a) && FilesKept(b, h, lo)
        ==> forall k, s: nat :: s >= SmallestSnapshot(a) ==> Read(Stored(b), k, s) == Read(Stored(a), k, s)
  {}

  lemma StoresTheSame(a: Db, b: Db, h: seq<Op>, h': seq<Op>, lo: nat)
    requires |a.levels| == |b.levels| == NUM_LEVELS && lo <= |h| && h <= h' && FilesKept(a, h, lo)
    requires Stored(b) == Stored(a) && SmallestSnapshot(b) >= SmallestSnapshot(a)
    ensures FilesKept(b, h', lo)
  {
    assert h'[..lo] == h[..lo];
  }

  lemma FilesNext(a: Db, b: Db, h: seq<Op>, act: Action, lo: nat, hi: nat)
    requires Shape(a, h) && Next(a, b, act) && Tails(a, h, lo, hi) && FilesKept(a, h, lo)
    ensures var m := MarksAfter(act, lo, hi, |h|); var h' := h + WrittenBy(act);
            |b.levels| == NUM_LEVELS && m.0 <= |h'| && (FilesKept(b, h', m.0) <==> FilesLoseNothing(a, act))
  {
    assert h + [] == h;
    match act
    case Write(ops) =>
      NewestSnapshot(a, b, h, ops);
      StoresTheSame(a, b, h, h + ops, lo);
    case Switch => StoresTheSame(a, b, h, h, lo);
    case Flush(f, lvl) => FlushKeepsFiles(a, b, h, f, lvl, lo, hi);
    case Move(level, f) =>
      MoveStores(a, b, h, level, f);
      StoresTheSame(a, b, h, h, lo);
    case Compact(level, ins0, ins1, outs) => CompactKeepsFiles(a, b, h, level, ins0, ins1, outs, lo);
    case TakeSnapshot => StoresTheSame(a, b, h, h, lo);
    case Release(i) =>
      ReleasedSnapshot(a, b, h, i);
      StoresTheSame(a, b, h, h, lo);
  }

  lemma NewestSnapshot(a: Db, b: Db, h: seq<Op>, ops: seq<Op>)
    requires Shape(a, h) && WriteStep(a, b, ops)
    ensures SmallestSnapshot(b) >= SmallestSnapshot(a) && Stored(b) == Stored(a)
  {}

  lemma ReleasedSnapshot(a: Db, b: Db, h: seq<Op>, i: nat)
    requires Shape(a, h) && ReleaseStep(a, b, i)
    ensures SmallestSnapshot(b) >= SmallestSnapshot(a)
  {
    if b.snapshots != [] && i == 0 { assert b.snapshots[0] == a.snapshots[1]; }
  }

  ghost predicate FilesKeptAt(dbs: seq<Db>, acts: seq<Action>, m: nat) {
    && m < |dbs| && m <= |acts| && |dbs[m].levels| == NUM_LEVELS && Marks(acts, m).0 <= |Past(acts, m)|
    && FilesKept(dbs[m], Past(acts, m), Marks(acts, m).0)
  }

  /** Up to any point of any run the files alone showed, in every state, what had been flushed, if and only
      if no compaction on the way uncovered a value in them. */
  lemma {:induction false} RunKeepsFiles(dbs: seq<Db>, acts: seq<Action>, n: nat)
    requires Run(dbs, acts) && n <= |acts|
    ensures (forall m: nat :: m <= n ==> FilesKeptAt(dbs, acts, m))
       <==> forall i :: 0 <= i < n ==> FilesLoseNothing(dbs[i], acts[i])
  {
    hide Tails, Next, Shape, FilesKept, FilesLoseNothing;
    if n == 0 {
      NothingYet(dbs[0]);
      assert Past(acts, 0) == [];
    } else {
      RunKeepsFiles(dbs, acts, n - 1);
      FilesKeptNext(dbs, acts, n - 1);
    }
  }

  lemma FilesKeptNext(dbs: seq<Db>, acts: seq<Action>, n: nat)
    requires Run(dbs, acts) && n < |acts|
    ensures FilesKeptAt(dbs, acts, n) ==> (FilesKeptAt(dbs, acts, n + 1) <==> FilesLoseNothing(dbs[n], acts[n]))
  {
    hide Tails, Next, Shape, FilesKept, FilesLoseNothing;
    if FilesKeptAt(dbs, acts, n) {
      RunKeepsTails(dbs, acts, n);
      RunKeepsShape(dbs, acts, n);
      PastNext(acts, n);
      var m := Marks(acts, n);
      FilesNext(dbs[n], dbs[n + 1], Past(acts, n), acts[n], m.0, m.1);
    }
  }

  /** In runs whose compactions leave nothing older behind at level + 1 they always do. */
  lemma ClosedRunsKeepFiles(dbs: seq<Db>, acts: seq<Action>, n: nat)
    requires Run(dbs, acts) && n <= |acts|
    requires forall i :: 0 <= i < |acts| && acts[i].Compact? ==>
        BoundaryClosed(dbs[i].levels, acts[i].level, acts[i].ins1)
    ensures FilesKeptAt(dbs, acts, n)
  {
    hide Shape, Next, NoMarkerLost, FilesKeptAt;
    forall i | 0 <= i < n ensures FilesLoseNothing(dbs[i], acts[i]) {
      RunKeepsShape(dbs, acts, i);
      ShapeLevels(dbs[i], Past(acts, i));
      if acts[i].Compact? { BoundarySuffices(FilesOnly(dbs[i]), acts[i].level, acts[i].ins1); }
    }
    RunKeepsFiles(dbs, acts, n);
  }

  // ---- After a crash -------------------------------------------------------------------------------

  /** The files, the whole of the log of the immutable memtable, and some of the updates of the last log
      read as the map after the writes they hold. */
  lemma CrashReads(db: Db, h: seq<Op>, lo: nat, hi: nat, ops: seq<Op>, k: UserKey, s: nat)
    requires Tails(db, h, lo, hi) && FilesKept(db, h, lo)
    requires s >= |h[..hi] + ops|
    ensures Read(Stored(db) + (OpEntries(h[lo..hi], lo + 1) + OpEntries(ops, hi + 1)), k, s)
         == Lookup(MapAt(h[..hi] + ops, |h[..hi] + ops|), k)
  {
    FilesReadAlike(db, h, lo, k, s);
    LogHolds(h, ops, lo, hi);
    hide *;
    LoggedOver(OpEntries(h[lo..hi], lo + 1) + OpEntries(ops, hi + 1), Stored(db), History(h[..lo]), h[..hi] + ops, k,
      s);
  }

  /** What the logs hold makes up for what is not in files. */
  lemma LogHolds(h: seq<Op>, ops: seq<Op>, lo: nat, hi: nat)
    requires lo <= hi <= |h|
    ensures var U := OpEntries(h[lo..hi], lo + 1) + OpEntries(ops, hi + 1);
            U + History(h[..lo]) == History(h[..hi] + ops) && Newer(U, History(h[..lo]))
  {
    hide OpEntries;
    var now := h[..hi] + ops;
    NowIs(h, ops, lo, hi);
    assert |h[lo..hi]| == hi - lo;
    OpEntriesAppend(h[lo..hi], ops, lo + 1);
    HistoryTo(now, lo, |now|);
  }

  lemma NowIs(h: seq<Op>, ops: seq<Op>, lo: nat, hi: nat)
    requires lo <= hi <= |h|
    ensures var now := h[..hi] + ops;
            now[..lo] == h[..lo] && now[lo..|now|] == h[lo..hi] + ops && now[..|now|] == now
  {}

  /** At any sequence number from lo on the files read as what was flushed. */
  lemma FilesReadAlike(db: Db, h: seq<Op>, lo: nat, k: UserKey, s: nat)
    requires |db.levels| == NUM_LEVELS && lo <= |h| && Stored(db) <= History(h[..lo]) && FilesKept(db, h, lo) && s >= lo
    ensures Read(Stored(db), k, s) == Read(History(h[..lo]), k, s)
  {
    var last := if s >= SmallestSnapshot(db) then s else SmallestSnapshot(db);
    FilesUnique(db, h, lo);
    ReadPast(Stored(db), k, lo, s);
    ReadPast(Stored(db), k, lo, last);
    ReadPast(History(h[..lo]), k, lo, s);
    ReadPast(History(h[..lo]), k, lo, last);
  }

  lemma LoggedOver(U: set<Entry>, A: set<Entry>, B: set<Entry>, now: seq<Op>, k: UserKey, s: nat)
    requires A <= B && U + B == History(now) && Newer(U, B) && Read(A, k, s) == Read(B, k, s) && s >= |now|
    ensures Read(A + U, k, s) == Lookup(MapAt(now, |now|), k)
  {
    HistoryUnique(now);
    assert A + U == U + A;
    ReadUnderLayer(U, A, B, k, s);
    ReadPast(History(now), k, |now|, s);
    HistoryIsMap(now, |now|, k);
  }
}

/** Opening the database again after a crash (DBImpl::Recover in db/db_impl.cc). */
module Reopening {
  import opened DbFormat
  import R = Reads
  import opened Comparator
  import opened Coding
  import opened Files
  import opened Lsm
  import opened LogFormat
  import opened Recovery
  import opened FilesAndTails
  import opened VersionSets
  import W = WriteBatches
  import Version
  import DbImpl

  // ---- Several logs --------------------------------------------------------------------------------

  /** All records read back from the logs, in order. */
  ghost function Joined(step: CrcStep, logs: seq<Bytes>): seq<Bytes> {
    if logs == [] then [] else Joined(step, logs[..|logs| - 1]) + ReadAll(step, logs[|logs| - 1], 0).0
  }

  ghost predicate AllGoThrough(step: CrcStep, logs: seq<Bytes>, paranoid: bool) {
    forall i :: 0 <= i < |logs| ==> GoesThrough(paranoid, ReadAll(step, logs[i], 0))
  }

  lemma {:induction false} MaxConcat(a: seq<Bytes>, b: seq<Bytes>, max: nat)
    ensures MaxLast(a + b, max) == MaxLast(b, MaxLast(a, max))
    decreases |a|
  {
    hide LastOf;
    if a == [] {
      assert a + b == b;
    } else {
      MaxConcat(a[1..], b, if LastOf(a[0]) > max then LastOf(a[0]) else max);
      assert (a + b)[1..] == a[1..] + b;
    }
  }

  lemma {:induction false} TablesConcat(a: seq<seq<Entry>>, b: seq<seq<Entry>>)
    ensures TableEntries(a + b) == TableEntries(a) + TableEntries(b)
  {
    if a == [] {
      assert a + b == b;
    } else {
      TablesConcat(a[1..], b);
      assert (a + b)[1..] == a[1..] + b;
    }
  }

  /** The loop of DBImpl::Recover: the logs in the order they were made, until one fails. */
  method ReplayLogs(step: CrcStep, logs: seq<Bytes>, paranoid: bool, full: seq<Entry> -> bool)
    returns (ok: bool, tables: seq<seq<Entry>>, max: nat)
    ensures ok <==> AllGoThrough(step, logs, paranoid)
    ensures ok ==> TableEntries(tables) == AllEntries(Joined(step, logs)) && max == MaxLast(Joined(step, logs), 0)
    ensures ok && R.UniqueSeqs(AllEntries(Joined(step, logs))) ==> forall t :: t in tables ==> Sorted(t)
  {
    hide ReadAll, TableEntries, AllEntries, MaxLast, GoesThrough, Usable, HoldsFirst, Sorted;
    ok, tables, max := true, [], 0;
    NoLogs();
    for i := 0 to |logs|
      invariant ok && forall j :: 0 <= j < i ==> GoesThrough(paranoid, ReadAll(step, logs[j], 0))
      invariant TableEntries(tables) == AllEntries(Joined(step, logs[..i]))
      invariant max == MaxLast(Joined(step, logs[..i]), 0)
      invariant R.UniqueSeqs(AllEntries(Joined(step, logs[..i]))) ==> forall t :: t in tables ==> Sorted(t)
    {
      ghost var before := Joined(step, logs[..i]);
      var more;
      ok, more, max := RecoverLogFile(step, logs[i], paranoid, full, max);
      if !ok { return; }
      assert logs[..i + 1][..i] == logs[..i];
      TablesConcat(tables, more);
      EntriesConcat(before, ReadAll(step, logs[i], 0).0);
      MaxConcat(before, ReadAll(step, logs[i], 0).0, 0);
      tables := tables + more;
    }
    assert logs[..|logs|] == logs;
  }

  lemma NoLogs()
    ensures TableEntries([]) == AllEntries([]) == {} && MaxLast([], 0) == 0
  {}

  // ---- After a crash -------------------------------------------------------------------------------

  /** The records are those of the writes `ops`, the first of them numbered `first`. */
  ghost predicate LogOf(records: seq<Bytes>, ops: seq<R.Op>, first: nat) {
    Committed(records, first) && AllWellFormed(records) && OpsOf(records) == ops
  }

  lemma CutLog(step: CrcStep, log: Bytes, records: seq<Bytes>, first: nat, paranoid: bool)
    requires Committed(records, first) && AllWellFormed(records) && CutOf(log, 0, EmitAll(step, 0, records))
    ensures var kept := records[..Whole(step, 0, records, |log|)];
            && ReadAll(step, log, 0) == (kept, []) && GoesThrough(paranoid, ReadAll(step, log, 0))
            && AllWellFormed(kept) && Committed(kept, first) && AllEntries(kept) == R.OpEntries(OpsOf(kept), first)
            && |OpsOf(kept)| <= |OpsOf(records)|
  {
    hide EmitAll, ReadAll, WellFormed, R.OpEntries, AllEntries, Committed, OpsOf;
    CrashPrefix(step, log, 0, records);
    var m := Whole(step, 0, records, |log|);
    CommittedPrefix(records, first, m);
    CommittedEntries(records[..m], first);
    OpsPrefix(records, m);
  }

  /** Committed records say where the numbering has got to, whatever it started from. */
  lemma MaxIsLast(records: seq<Bytes>, first: nat, start: nat)
    requires Committed(records, first) && AllWellFormed(records) && start < first
    requires first + |OpsOf(records)| <= DWORD
    ensures MaxLast(records, start) == if records == [] then start else first - 1 + |OpsOf(records)|
  {
    if records != [] {
      FirstLast(records, first);
      CommittedMax(records, first);
      hide W.WellFormed, OpsOf, Committed, LastOf;
    }
  }

  /** The two logs of a crashed database, and what they hold. */
  ghost predicate LogsLeft(db: DbImpl.DBImpl, step: CrcStep, immLog: Bytes, log: Bytes, lo: nat, hi: nat,
      immRecords: seq<Bytes>, records: seq<Bytes>)
    reads db, db.versions
  {
    && lo <= hi <= |db.history| && |db.history| < MAX_SEQUENCE
    && LogOf(immRecords, db.history[lo..hi], lo + 1) && immLog == EmitAll(step, 0, immRecords)
    && Committed(records, hi + 1) && AllWellFormed(records) && db.history[hi..] <= OpsOf(records)
    && CutOf(log, 0, EmitAll(step, 0, records)) && hi + |OpsOf(records)| < MAX_SEQUENCE
  }

  /** The writes that survive: all that were flushed or on their way, and those whose records are wholly in
      the last log. */
  ghost function Surviving(db: DbImpl.DBImpl, step: CrcStep, log: Bytes, hi: nat, records: seq<Bytes>): seq<R.Op>
    requires hi <= |db.history| && AllWellFormed(records)
    reads db
  {
    db.history[..hi] + OpsOf(records[..Whole(step, 0, records, |log|)])
  }

  /** Replaying both logs gives the entries of the surviving writes that are not in files. */
  lemma LogsGive(db: DbImpl.DBImpl, step: CrcStep, immLog: Bytes, log: Bytes, lo: nat, hi: nat,
      immRecords: seq<Bytes>, records: seq<Bytes>, paranoid: bool)
    requires LogsLeft(db, step, immLog, log, lo, hi, immRecords, records)
    ensures AllGoThrough(step, [immLog, log], paranoid)
    ensures var joined, now := Joined(step, [immLog, log]), Surviving(db, step, log, hi, records);
            && db.history[..hi] <= now
            && AllEntries(joined) == R.OpEntries(db.history[lo..hi], lo + 1) + R.OpEntries(now[hi..], hi + 1)
            && (|now| > lo ==> MaxLast(joined, 0) == |now|)
            && R.UniqueSeqs(AllEntries(joined))
  {
    hide EmitAll, ReadAll, WellFormed, R.OpEntries, AllEntries, Committed, OpsOf, MaxLast;
    UncutLog(step, immRecords);
    CutLog(step, log, records, hi + 1, paranoid);
    CommittedEntries(immRecords, lo + 1);
    var kept := records[..Whole(step, 0, records, |log|)];
    TwoLogs(step, immLog, log);
    EntriesConcat(immRecords, kept);
    MaxConcat(immRecords, kept, 0);
    var now := Surviving(db, step, log, hi, records);
    assert now[hi..] == OpsOf(kept);
    LastOfBoth(immRecords, kept, lo, hi);
    LogHolds(db.history, now[hi..], lo, hi);
    R.HistoryUnique(db.history[..hi] + now[hi..]);
  }

  lemma TwoLogs(step: CrcStep, a: Bytes, b: Bytes)
    ensures Joined(step, [a, b]) == ReadAll(step, a, 0).0 + ReadAll(step, b, 0).0
  {
    hide ReadAll;
    assert [a, b][..1] == [a] && [a][..0] == [];
    assert Joined(step, [a]) == [] + ReadAll(step, a, 0).0;
  }

  lemma LastOfBoth(a: seq<Bytes>, b: seq<Bytes>, lo: nat, hi: nat)
    requires lo <= hi && AllWellFormed(a) && AllWellFormed(b) && Committed(a, lo + 1) && Committed(b, hi + 1)
    requires |OpsOf(a)| == hi - lo && hi + |OpsOf(b)| < DWORD
    ensures hi + |OpsOf(b)| > lo ==> MaxLast(b, MaxLast(a, 0)) == hi + |OpsOf(b)|
  {
    hide WellFormed, Committed, OpsOf, MaxLast;
    NoOps();
    MaxIsLast(a, lo + 1, 0);
    MaxIsLast(b, hi + 1, MaxLast(a, 0));
  }

  lemma NoOps()
    ensures OpsOf([]) == []
  {}

  method SetLastSequence(vs: VersionSet, s: nat)
    requires vs.Valid()
    modifies vs`lastSequence
    ensures vs.Valid() && vs.lastSequence == s
  {
    vs.lastSequence := s;
  }

  /** DBImpl::Recover: the version set from its MANIFEST, then the logs, and the last sequence number of both. */
  method Recover(versions: VersionSet, step: CrcStep, logs: seq<Bytes>, paranoid: bool, full: seq<Entry> -> bool)
    returns (vs: VersionSet, ok: bool, tables: seq<seq<Entry>>)
    requires versions.Valid() && versions.manifest.Some?
    ensures fresh(vs) && vs.Valid() && vs.current == versions.current
    ensures ok <==> AllGoThrough(step, logs, paranoid)
    ensures ok ==> TableEntries(tables) == AllEntries(Joined(step, logs))
    ensures ok && R.UniqueSeqs(AllEntries(Joined(step, logs))) ==> forall t :: t in tables ==> Sorted(t)
    ensures ScalarsOf(versions.manifest.value).lastSequence.Some?
    ensures ok ==>
        var logged, replayed := ScalarsOf(versions.manifest.value).lastSequence.value, MaxLast(Joined(step, logs), 0);
        vs.lastSequence == if logged < replayed then replayed else logged
  {
    hide TableEntries, AllEntries, MaxLast, AllGoThrough, Joined, R.UniqueSeqs, Sorted, ScalarsOf, VersionSet.Valid;
    vs := VersionSet.CrashAndRecover(versions);
    var maxSequence;
    ok, tables, maxSequence := ReplayLogs(step, logs, paranoid, full);
    if ok && vs.lastSequence < maxSequence {
      SetLastSequence(vs, maxSequence);
    }
  }

  /** A crash has left the MANIFEST, the whole log of the immutable memtable if there is one, and the log
      of the memtable cut at any byte.  Recovery finds no error, and from the sequence number it ends at on
      the files and what is replayed read as the map after a prefix of the writes. */
  method Reopen(db: DbImpl.DBImpl, step: CrcStep, immLog: Bytes, log: Bytes, paranoid: bool,
      full: seq<Entry> -> bool, ghost lo: nat, ghost hi: nat, ghost immRecords: seq<Bytes>, ghost records: seq<Bytes>,
      ghost us: seq<W.Update>)
    returns (vs: VersionSet, ok: bool, tables: seq<seq<Entry>>)
    requires db.Valid() && db.versions.manifest.Some?
    requires Tails(db.State(), db.history, lo, hi) && FilesKept(db.State(), db.history, lo)
    requires LogsLeft(db, step, immLog, log, lo, hi, immRecords, records)
    ensures ok && fresh(vs) && vs.Valid() && vs.current == db.versions.current
    ensures ScalarsOf(db.versions.manifest.value).lastSequence.value >= lo ==>
        vs.lastSequence >= |Surviving(db, step, log, hi, records)|
    ensures ReadsAsMap(Span(Version.Abs(vs.current), 0, NUM_LEVELS) + TableEntries(tables),
                       Surviving(db, step, log, hi, records))
    ensures forall t :: t in tables ==> Sorted(t)
    ensures db.history == ToOps(us) ==>
        ReadsAsUpdates(Span(Version.Abs(vs.current), 0, NUM_LEVELS) + TableEntries(tables),
                       SurvivingUpdates(us, step, log, hi, records))
  {
    ghost var state, h := db.State(), db.history;
    VersionsOk(db);
    hide DbImpl.DBImpl.Valid, VersionSet.Valid, Shape, Tails, FilesKept, Stored, Span, LogsLeft, Surviving, ReadsAsMap;
    hide TableEntries, AllEntries, MaxLast, AllGoThrough, Joined, ScalarsOf, R.OpEntries, R.Read, R.MapAt,
      R.UniqueSeqs, Sorted, ToOps, SurvivingUpdates, ReadsAsUpdates, Whole, AllUpdates, EmitAll, W.WellFormed;
    ghost var now := Surviving(db, step, log, hi, records);
    LogsGive(db, step, immLog, log, lo, hi, immRecords, records, paranoid);
    vs, ok, tables := Recover(db.versions, step, [immLog, log], paranoid, full);
    RecoveredReads(state, h, lo, hi, now, TableEntries(tables));
    if db.history == ToOps(us) {
      AsUpdates(db, Stored(state) + TableEntries(tables), step, log, hi, records, us);
    }
  }

  lemma AsUpdates(db: DbImpl.DBImpl, S: set<Entry>, step: CrcStep, log: Bytes, hi: nat, records: seq<Bytes>,
      us: seq<W.Update>)
    requires hi <= |db.history| && AllWellFormed(records) && db.history == ToOps(us)
    requires ReadsAsMap(S, Surviving(db, step, log, hi, records))
    ensures ReadsAsUpdates(S, SurvivingUpdates(us, step, log, hi, records))
  {
    hide ReadsAsMap, ReadsAsUpdates, Surviving, SurvivingUpdates;
    SurvivorsAre(db, step, log, hi, records, us);
    ReadsAsBytes(S, Surviving(db, step, log, hi, records), SurvivingUpdates(us, step, log, hi, records));
  }

  /** The same writes as updates of byte keys. */
  ghost function SurvivingUpdates(us: seq<W.Update>, step: CrcStep, log: Bytes, hi: nat, records: seq<Bytes>)
    : seq<W.Update>
    requires hi <= |us| && AllWellFormed(records)
  {
    us[..hi] + AllUpdates(records[..Whole(step, 0, records, |log|)])
  }

  lemma SurvivorsAre(db: DbImpl.DBImpl, step: CrcStep, log: Bytes, hi: nat, records: seq<Bytes>, us: seq<W.Update>)
    requires hi <= |db.history| && AllWellFormed(records) && db.history == ToOps(us)
    ensures Surviving(db, step, log, hi, records) == ToOps(SurvivingUpdates(us, step, log, hi, records))
  {
    hide W.WellFormed, ToOp;
    var kept := records[..Whole(step, 0, records, |log|)];
    OpsAreUpdates(kept);
    ToOpsAppend(us[..hi], AllUpdates(kept));
    assert ToOps(us[..hi]) == ToOps(us)[..hi];
  }

  /** Reading as the map over ranks is reading as the map over byte keys. */
  lemma ReadsAsBytes(S: set<Entry>, now: seq<R.Op>, us: seq<W.Update>)
    requires now == ToOps(us) && ReadsAsMap(S, now)
    ensures ReadsAsUpdates(S, us)
  {
    hide ToOp, Rank, R.Read, R.MapAt, R.Lookup;
    forall k: Bytes, s: nat | s >= |us| ensures R.Read(S, Rank(k), s) == Find(Contents(us), k) {
      MapIsContents(us, |us|, k);
      assert us[..|us|] == us;
    }
  }

  lemma VersionsOk(db: DbImpl.DBImpl)
    requires db.Valid()
    ensures db.versions.Valid() && |db.State().levels| == NUM_LEVELS
    ensures Stored(db.State()) == Span(Version.Abs(db.versions.current), 0, NUM_LEVELS)
  {}

  lemma RecoveredReads(db: Db, h: seq<R.Op>, lo: nat, hi: nat, now: seq<R.Op>, replayed: set<Entry>)
    requires lo <= hi <= |h| && |db.levels| == NUM_LEVELS
    requires Tails(db, h, lo, hi) && FilesKept(db, h, lo) && h[..hi] <= now
    requires replayed == R.OpEntries(h[lo..hi], lo + 1) + R.OpEntries(now[hi..], hi + 1)
    ensures ReadsAsMap(Stored(db) + replayed, now)
  {
    hide Tails, FilesKept, Stored, R.OpEntries, R.Read, R.MapAt, R.Lookup;
    forall k, s: nat | s >= |now|
      ensures R.Read(Stored(db) + replayed, k, s) == R.Lookup(R.MapAt(now, |now|), k)
    {
      SurvivorReads(db, h, lo, hi, now, replayed, k, s);
    }
  }

  lemma SurvivorReads(db: Db, h: seq<R.Op>, lo: nat, hi: nat, now: seq<R.Op>, replayed: set<Entry>, k: UserKey, s: nat)
    requires lo <= hi <= |h| && |db.levels| == NUM_LEVELS && s >= |now|
    requires Tails(db, h, lo, hi) && FilesKept(db, h, lo) && h[..hi] <= now
    requires replayed == R.OpEntries(h[lo..hi], lo + 1) + R.OpEntries(now[hi..], hi + 1)
    ensures R.Read(Stored(db) + replayed, k, s) == R.Lookup(R.MapAt(now, |now|), k)
  {
    hide Tails, FilesKept, Stored, R.OpEntries, R.Read, R.MapAt, R.Lookup;
    assert h[..hi] + now[hi..] == now;
    CrashReads(db, h, lo, hi, now[hi..], k, s);
  }

  /** From the last of the writes h on a reader finds what the map after them has. */
  ghost predicate ReadsAsMap(S: set<Entry>, h: seq<R.Op>) {
    forall k, s: nat :: s >= |h| ==> R.Read(S, k, s) == R.Lookup(R.MapAt(h, |h|), k)
  }

  /** And in terms of byte keys: what the last update of a key says. */
  ghost predicate ReadsAsUpdates(S: set<Entry>, us: seq<W.Update>) {
    forall k: Bytes, s: nat :: s >= |us| ==> R.Read(S, Rank(k), s) == Find(Contents(us), k)
  }
}
