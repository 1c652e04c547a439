/** Whole runs of the store. */
module LsmRuns {
  import opened DbFormat
  import opened Reads
  import opened Files
  import opened Lsm
  import opened LsmCompaction

  datatype Action =
    | Write(ops: seq<Op>)
    | Switch
    | Flush(file: File, lvl: nat)
    | Move(level: nat, file: File)
    | Compact(level: nat, ins0: set<File>, ins1: set<File>, outs: set<File>)
    | TakeSnapshot
    | Release(i: nat)

  ghost predicate Next(a: Db, b: Db, act: Action) {
    match act
    case Write(ops) => WriteStep(a, b, ops)
    case Switch => SwitchStep(a, b)
    case Flush(f, lvl) => FlushStep(a, b, f, lvl)
    case Move(level, f) => MoveStep(a, b, level, f)
    case Compact(level, ins0, ins1, outs) => CompactStep(a, b, level, ins0, ins1, outs)
    case TakeSnapshot => SnapshotStep(a, b)
    case Release(i) => ReleaseStep(a, b, i)
  }

  /** If the step is a compaction, it uncovers no value. */
  ghost predicate LosesNothing(a: Db, act: Action) {
    act.Compact? && |a.levels| == NUM_LEVELS && act.level + 1 < NUM_LEVELS ==> NoMarkerLost(a, act.level, act.ins1)
  }

  function WrittenBy(act: Action): seq<Op> { if act.Write? then act.ops else [] }

  /** The records written by a run, in order. */
  function Written(acts: seq<Action>): seq<Op> {
    if acts == [] then [] else Written(acts[..|acts| - 1]) + WrittenBy(acts[|acts| - 1])
  }

  ghost predicate Empty(db: Db) {
    && db.mem == {} && db.imm.None? && db.lastSequence == 0 && db.snapshots == []
    && db.levels == [{}, {}, {}, {}, {}, {}, {}]
  }

  ghost predicate Run(dbs: seq<Db>, acts: seq<Action>) {
    && |dbs| == |acts| + 1
    && Empty(dbs[0])
    && forall i :: 0 <= i < |acts| ==> Next(dbs[i], dbs[i + 1], acts[i])
  }

  lemma EmptyOk(db: Db)
    requires Empty(db)
    ensures Inv(db, [])
  {
    assert forall i :: 0 <= i < NUM_LEVELS ==> db.levels[i] == {};
    assert All(db) == {};
  }

  /** Every step keeps the shape of the store.  The views survive it exactly if it loses nothing. */
  lemma NextKeeps(a: Db, b: Db, h: seq<Op>, act: Action)
    requires Shape(a, h) && Next(a, b, act)
    ensures Shape(b, h + WrittenBy(act))
    ensures ViewsKept(a, h) ==> (ViewsKept(b, h + WrittenBy(act)) <==> LosesNothing(a, act))
  {
    assert h + [] == h;
    match act
    case Write(ops) => WriteKeeps(a, b, h, ops);
    case Switch => SwitchKeeps(a, b, h);
    case Flush(f, lvl) => FlushKeeps(a, b, h, f, lvl);
    case Move(level, f) => MoveKeeps(a, b, h, level, f);
    case Compact(level, ins0, ins1, outs) => CompactionViews(a, b, h, level, ins0, ins1, outs);
    case TakeSnapshot => SnapshotKeeps(a, b, h);
    case Release(i) => ReleaseKeeps(a, b, h, i);
  }

  /** The history after n actions. */
  function Past(acts: seq<Action>, n: nat): seq<Op>
    requires n <= |acts|
  {
    Written(acts[..n])
  }

  lemma PastNext(acts: seq<Action>, n: nat)
    requires n < |acts|
    ensures Past(acts, n + 1) == Past(acts, n) + WrittenBy(acts[n])
  {
    assert acts[..n + 1][..n] == acts[..n];
  }

  /** The shape of the store, in every state of every run: levels from 1 on in order and apart, shallower
      entries newer, file numbers unique, nothing stored that was not written. */
  lemma {:induction false} RunKeepsShape(dbs: seq<Db>, acts: seq<Action>, n: nat)
    requires Run(dbs, acts) && n <= |acts|
    ensures Shape(dbs[n], Past(acts, n))
  {
    hide Shape, Next;
    if n == 0 {
      EmptyOk(dbs[0]);
      assert Inv(dbs[0], []);
    } else {
      RunKeepsShape(dbs, acts, n - 1);
      PastNext(acts, n - 1);
      NextKeeps(dbs[n - 1], dbs[n], Past(acts, n - 1), acts[n - 1]);
    }
  }

  ghost predicate ViewsKeptAt(dbs: seq<Db>, acts: seq<Action>, m: nat) {
    m < |dbs| && m <= |acts| && |dbs[m].levels| == NUM_LEVELS && ViewsKept(dbs[m], Past(acts, m))
  }

  /** Up to any point of any run, all live views were kept in every state if and only if no compaction
      on the way uncovered a value. */
  lemma {:induction false} RunKeepsViews(dbs: seq<Db>, acts: seq<Action>, n: nat)
    requires Run(dbs, acts) && n <= |acts|
    ensures (forall m: nat :: m <= n ==> ViewsKeptAt(dbs, acts, m)) <==> forall i :: 0 <= i < n ==>
        LosesNothing(dbs[i], acts[i])
  {
    hide LosesNothing, Shape, Next, ViewsKept;
    if n == 0 {
      EmptyOk(dbs[0]);
      FirstViews(dbs, acts);
    } else {
      RunKeepsViews(dbs, acts, n - 1);
      RunKeepsShape(dbs, acts, n - 1);
      RunKeepsShape(dbs, acts, n);
      PastNext(acts, n - 1);
      NextKeeps(dbs[n - 1], dbs[n], Past(acts, n - 1), acts[n - 1]);
      ShapeLevels(dbs[n - 1], Past(acts, n - 1));
      ShapeLevels(dbs[n], Past(acts, n));
      assert ViewsKeptAt(dbs, acts, n - 1) ==> (ViewsKeptAt(dbs, acts, n) <==> LosesNothing(dbs[n - 1], acts[n - 1]));
    }
  }

  lemma FirstViews(dbs: seq<Db>, acts: seq<Action>)
    requires Run(dbs, acts)
    ensures ViewsKeptAt(dbs, acts, 0)
  {
    EmptyOk(dbs[0]);
    assert Past(acts, 0) == [];
  }

  lemma ShapeLevels(db: Db, h: seq<Op>)
    requires Shape(db, h)
    ensures |db.levels| == NUM_LEVELS
  {}

  // ---- Snapshots as maps ---------------------------------------------------------------------------

  /** Every snapshot that a reader may still hold reads as the finite map the database was when that
      snapshot was current. */
  ghost predicate Isolated(db: Db, h: seq<Op>) {
    && |db.levels| == NUM_LEVELS
    && forall k, s: nat :: SmallestSnapshot(db) <= s <= |h| ==> Read(All(db), k, s) == Lookup(MapAt(h, s), k)
  }

  /** Sequence numbers past the last one read as the last one does. */
  lemma ReadPast(S: set<Entry>, k: UserKey, last: nat, s: nat)
    requires UniqueSeqs(S) && (forall e :: e in S ==> e.sn <= last) && s >= last
    ensures Read(S, k, s) == Read(S, k, last)
  {
    var r := NewestExists(S, k, last);
    if r.Some? {
      ReadNewest(S, k, last, r.value);
      ReadNewest(S, k, s, r.value);
    }
  }

  lemma ViewsAreMaps(db: Db, h: seq<Op>)
    requires Shape(db, h)
    ensures ViewsKept(db, h) <==> Isolated(db, h)
  {
    AllUnique(db, h);
    HistoryUnique(h);
    forall k, s: nat | s <= |h| ensures Read(History(h), k, s) == Lookup(MapAt(h, s), k) { HistoryIsMap(h, s, k); }
    if Isolated(db, h) {
      forall k, s: nat | s >= SmallestSnapshot(db) ensures Read(All(db), k, s) == Read(History(h), k, s) {
        if s > |h| {
          ReadPast(All(db), k, |h|, s);
          ReadPast(History(h), k, |h|, s);
          assert Read(All(db), k, |h|) == Lookup(MapAt(h, |h|), k);
        }
      }
    }
  }

  ghost predicate IsolatedAt(dbs: seq<Db>, acts: seq<Action>, m: nat) {
    m < |dbs| && m <= |acts| && Isolated(dbs[m], Past(acts, m))
  }

  /** Snapshot isolation: up to any point of any run, every live snapshot reads as its map in every state
      if and only if no compaction on the way uncovered a value. */
  lemma SnapshotIsolation(dbs: seq<Db>, acts: seq<Action>, n: nat)
    requires Run(dbs, acts) && n <= |acts|
    ensures (forall m: nat :: m <= n ==> IsolatedAt(dbs, acts, m)) <==> forall i :: 0 <= i < n ==>
        LosesNothing(dbs[i], acts[i])
  {
    hide Isolated, ViewsKept, LosesNothing, Run;
    RunKeepsViews(dbs, acts, n);
    forall m: nat | m <= n ensures ViewsKeptAt(dbs, acts, m) <==>
        IsolatedAt(dbs, acts, m) { IsolatedState(dbs, acts, m); }
  }

  lemma IsolatedState(dbs: seq<Db>, acts: seq<Action>, m: nat)
    requires Run(dbs, acts) && m <= |acts|
    ensures ViewsKeptAt(dbs, acts, m) <==> IsolatedAt(dbs, acts, m)
  {
    RunKeepsShape(dbs, acts, m);
    ViewsAreMaps(dbs[m], Past(acts, m));
  }

  /** Runs in which the files of level + 1 that compactions read always leave nothing older behind. */
  lemma ClosedRunsIsolate(dbs: seq<Db>, acts: seq<Action>, n: nat)
    requires Run(dbs, acts) && n <= |acts|
    requires forall i :: 0 <= i < |acts| && acts[i].Compact? ==>
        BoundaryClosed(dbs[i].levels, acts[i].level, acts[i].ins1)
    ensures IsolatedAt(dbs, acts, n)
  {
    hide Shape, Next, NoMarkerLost, IsolatedAt;
    forall i | 0 <= i < n ensures LosesNothing(dbs[i], acts[i]) {
      RunKeepsShape(dbs, acts, i);
      ShapeLevels(dbs[i], Past(acts, i));
      if acts[i].Compact? { BoundarySuffices(dbs[i], acts[i].level, acts[i].ins1); }
    }
    SnapshotIsolation(dbs, acts, n);
  }
}
