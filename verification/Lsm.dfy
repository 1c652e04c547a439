/** A table file as the version set knows it, with the entries it stores (db/version_edit.h). */
module Files {
  import opened DbFormat

  const NUM_LEVELS: nat := 7
  const MAX_MEM_COMPACT_LEVEL: nat := 2

  datatype File = File(number: nat, size: nat, smallest: IKey, largest: IKey, entries: seq<Entry>)

  ghost predicate WellFormed(f: File) {
    && f.entries != []
    && Sorted(f.entries)
    && f.smallest == f.entries[0].Key()
    && f.largest == f.entries[|f.entries| - 1].Key()
  }

  /** Every entry of a file lies between its smallest and its largest key. */
  lemma InRange(f: File, e: Entry)
    requires WellFormed(f) && e in f.entries
    ensures e.Key() == f.smallest || Less(f.smallest, e.Key())
    ensures e.Key() == f.largest || Less(e.Key(), f.largest)
    ensures f.smallest.user <= e.user <= f.largest.user
  {}

  /** Hence the range of a file is ordered. */
  lemma RangeOrdered(f: File)
    requires WellFormed(f)
    ensures f.smallest.user <= f.largest.user
    ensures f.smallest == f.largest || Less(f.smallest, f.largest)
  {
    InRange(f, f.entries[0]);
  }

  ghost function Entries(fs: set<File>): set<Entry> { set f, e | f in fs && e in f.entries :: e }

  lemma EntriesUnion(a: set<File>, b: set<File>)
    ensures Entries(a + b) == Entries(a) + Entries(b)
  {}

  /** Neither file reaches into the other. */
  predicate Apart(f: File, g: File) { Less(f.largest, g.smallest) || Less(g.largest, f.smallest) }

  ghost predicate PairwiseApart(fs: set<File>) {
    forall f, g :: f in fs && g in fs && f != g ==> Apart(f, g)
  }

  /** The user key ranges of f and [lo, hi] meet. */
  predicate Overlaps(f: File, lo: UserKey, hi: UserKey) {
    !(f.largest.user < lo) && !(f.smallest.user > hi)
  }

  predicate Covers(f: File, k: UserKey) { f.smallest.user <= k <= f.largest.user }

  ghost predicate SomeCovers(fs: set<File>, k: UserKey) { exists f :: f in fs && Covers(f, k) }

  ghost function Covered(fs: set<File>): iset<UserKey> { iset k: UserKey | SomeCovers(fs, k) }
}

/** The store as a transition system over atomic steps: write group, memtable switch, flush,
    trivial move, compaction, snapshot, release (db/db_impl.cc, db/version_set.cc). */
module Lsm {
  import opened DbFormat
  import opened Reads
  import opened Files

  datatype Db = Db(
    mem: set<Entry>,
    imm: Option<set<Entry>>,
    levels: seq<set<File>>,
    lastSequence: nat,
    snapshots: seq<nat>,
    nextFile: nat)
  {
    ghost function Imm(): set<Entry> { if imm.Some? then imm.value else {} }
  }

  /** All entries stored in levels lo, ..., hi - 1. */
  ghost function Span(levels: seq<set<File>>, lo: nat, hi: nat): set<Entry>
    requires hi <= |levels|
  {
    set i, e | lo <= i < hi && e in Entries(levels[i]) :: e
  }

  ghost function All(db: Db): set<Entry>
    requires |db.levels| == NUM_LEVELS
  {
    db.mem + (db.Imm() + Span(db.levels, 0, NUM_LEVELS))
  }

  /** The oldest sequence number some present or future reader may use (db_impl.cc:890-894). */
  function SmallestSnapshot(db: Db): nat {
    if db.snapshots == [] then db.lastSequence else db.snapshots[0]
  }

  ghost predicate FilesOk(levels: seq<set<File>>, nextFile: nat) {
    && |levels| == NUM_LEVELS
    && (forall i, f :: 0 <= i < NUM_LEVELS && f in levels[i] ==> WellFormed(f) && f.number < nextFile)
    && NumbersUnique(Deeper(levels, 0))
  }

  ghost predicate NumbersUnique(fs: set<File>) {
    forall f, g :: f in fs && g in fs && f.number == g.number ==> f == g
  }

  /** The files of levels >= lvl. */
  ghost function Deeper(levels: seq<set<File>>, lvl: nat): (r: set<File>)
    ensures forall i :: lvl <= i < |levels| ==> levels[i] <= r
  {
    set i, f | lvl <= i < |levels| && f in levels[i] :: f
  }

  /** In level 0 files may overlap, but a higher file number is newer. */
  ghost predicate ByNumber(fs: set<File>) {
    forall f, g :: f in fs && g in fs && f.number > g.number ==> Newer(Elements(f.entries), Elements(g.entries))
  }

  /** Levels from 1 on are pairwise apart; a shallower level is newer than a deeper one. */
  ghost predicate LevelOrder(levels: seq<set<File>>)
    requires |levels| == NUM_LEVELS
  {
    && ByNumber(levels[0])
    && (forall i :: 1 <= i < NUM_LEVELS ==> PairwiseApart(levels[i]))
    && (forall i, j :: 0 <= i < j < NUM_LEVELS ==> Newer(Entries(levels[i]), Entries(levels[j])))
  }

  ghost predicate Layered(db: Db)
    requires |db.levels| == NUM_LEVELS
  {
    && Newer(db.mem, db.Imm())
    && Newer(db.mem + db.Imm(), Span(db.levels, 0, NUM_LEVELS))
    && LevelOrder(db.levels)
  }

  ghost predicate SnapshotsOk(db: Db) {
    && (forall i, j :: 0 <= i <= j < |db.snapshots| ==> db.snapshots[i] <= db.snapshots[j])
    && (forall i :: 0 <= i < |db.snapshots| ==> db.snapshots[i] <= db.lastSequence)
  }

  /** The shape of the store.  h is the history of all committed writes. */
  ghost predicate Shape(db: Db, h: seq<Op>) {
    && FilesOk(db.levels, db.nextFile)
    && Layered(db)
    && SnapshotsOk(db)
    && db.lastSequence == |h| < MAX_SEQUENCE
    && All(db) <= History(h)
  }

  /** Every snapshot that a reader may still use reads as it did when it was current. */
  ghost predicate ViewsKept(db: Db, h: seq<Op>)
    requires |db.levels| == NUM_LEVELS
  {
    forall k, s: nat :: s >= SmallestSnapshot(db) ==> Read(All(db), k, s) == Read(History(h), k, s)
  }

  ghost predicate Inv(db: Db, h: seq<Op>) { Shape(db, h) && ViewsKept(db, h) }

  lemma AllUnique(db: Db, h: seq<Op>)
    requires Shape(db, h)
    ensures UniqueSeqs(All(db))
  {
    HistoryUnique(h);
  }

  // ---- Steps ------------------------------------------------------------------------------

  /** DBImpl::Write of one group (db_impl.cc:1204-1236). */
  ghost predicate WriteStep(a: Db, b: Db, ops: seq<Op>) {
    && a.lastSequence + |ops| < MAX_SEQUENCE
    && b == a.(mem := a.mem + OpEntries(ops, a.lastSequence + 1), lastSequence := a.lastSequence + |ops|)
  }

  /** The memtable switch of MakeRoomForWrite (db_impl.cc:1346-1365); the new log takes a number. */
  ghost predicate SwitchStep(a: Db, b: Db) {
    && a.imm.None?
    && b == a.(mem := {}, imm := Some(a.mem), nextFile := a.nextFile + 1)
  }

  ghost predicate NoOverlap(fs: set<File>, f: File) {
    forall g :: g in fs ==> !Overlaps(g, f.smallest.user, f.largest.user)
  }

  /** CompactMemTable: the immutable memtable becomes one file, at level 0 or at a level such that
      neither that level nor a shallower one overlaps it (db_impl.cc:535-566). */
  ghost predicate FlushStep(a: Db, b: Db, f: File, lvl: nat) {
    && a.imm.Some? && |a.levels| == NUM_LEVELS
    && b == a.(imm := None, levels := b.levels, nextFile := a.nextFile + 1)
    && f.number == a.nextFile
    && if a.imm.value == {} then b.levels == a.levels
       else
         && WellFormed(f) && Elements(f.entries) == a.imm.value
         && lvl <= MAX_MEM_COMPACT_LEVEL
         && (lvl > 0 ==> forall i :: 0 <= i <= lvl ==> NoOverlap(a.levels[i], f))
         && b.levels == a.levels[lvl := a.levels[lvl] + {f}]
  }

  /** Everything a level keeps is newer than what leaves it. */
  ghost predicate NoOlderLeftBehind(fs: set<File>, ins: set<File>) {
    Newer(Entries(fs - ins), Entries(ins))
  }

  /** g meets the user key range spanned by ins. */
  ghost predicate MeetsRange(g: File, ins: set<File>) {
    exists f, f' :: f in ins && f' in ins && Overlaps(g, f.smallest.user, f'.largest.user)
  }

  /** What SetupOtherInputs guarantees about the files of `level` and level + 1 it picks
      (version_set.cc:1403-1462). */
  ghost predicate GoodInputs(levels: seq<set<File>>, level: nat, ins0: set<File>, ins1: set<File>) {
    && level + 1 < NUM_LEVELS == |levels|
    && ins0 != {} && ins0 <= levels[level] && ins1 <= levels[level + 1]
    && NoOlderLeftBehind(levels[level], ins0)
    && (forall g :: g in levels[level + 1] ==> (g in ins1 <==> MeetsRange(g, ins0)))
  }

  /** The boundary condition that AddBoundaryInputs establishes for `level` only. */
  ghost predicate BoundaryClosed(levels: seq<set<File>>, level: nat, ins1: set<File>) {
    level + 1 < |levels| && NoOlderLeftBehind(levels[level + 1], ins1)
  }

  /** Replaces the inputs at `level` and level + 1 by outs at level + 1. */
  ghost function Install(levels: seq<set<File>>, level: nat, ins0: set<File>, ins1: set<File>, outs: set<File>)
    : (r: seq<set<File>>)
    requires level + 1 < |levels|
  {
    levels[level := levels[level] - ins0][level + 1 := levels[level + 1] - ins1 + outs]
  }

  /** The entries the drop loop keeps (db_impl.cc:929-963). */
  ghost function Survivors(a: Db, level: nat, ins0: set<File>, ins1: set<File>): set<Entry> {
    Kept(Entries(ins0 + ins1), SmallestSnapshot(a), Covered(Deeper(a.levels, level + 2)))
  }

  /** Well-formed, apart, freshly numbered output files. */
  ghost predicate GoodOutputs(outs: set<File>, first: nat, next: nat) {
    && (forall f :: f in outs ==> WellFormed(f) && first <= f.number < next)
    && NumbersUnique(outs)
    && PairwiseApart(outs)
  }

  ghost predicate CompactStep(a: Db, b: Db, level: nat, ins0: set<File>, ins1: set<File>, outs: set<File>) {
    && GoodInputs(a.levels, level, ins0, ins1)
    && a.nextFile <= b.nextFile
    && GoodOutputs(outs, a.nextFile, b.nextFile)
    && Entries(outs) == Survivors(a, level, ins0, ins1)
    && b == a.(levels := Install(a.levels, level, ins0, ins1, outs), nextFile := b.nextFile)
  }

  /** A trivial move: one file, nothing to merge it with (db_impl.cc:718-728). */
  ghost predicate MoveStep(a: Db, b: Db, level: nat, f: File) {
    && GoodInputs(a.levels, level, {f}, {})
    && b == a.(levels := Install(a.levels, level, {f}, {}, {f}))
  }

  ghost predicate SnapshotStep(a: Db, b: Db) {
    b == a.(snapshots := a.snapshots + [a.lastSequence])
  }

  ghost predicate ReleaseStep(a: Db, b: Db, i: nat) {
    i < |a.snapshots| && b == a.(snapshots := a.snapshots[..i] + a.snapshots[i + 1..])
  }

  // ---- Steps that move no entries -----------------------------------------------------------

  lemma WriteViews(a: Db, h: seq<Op>, ops: seq<Op>, k: UserKey, s: nat)
    requires |a.levels| == NUM_LEVELS && All(a) <= History(h)
    requires Read(All(a), k, s) == Read(History(h), k, s)
    ensures Read(OpEntries(ops, |h| + 1) + All(a), k, s) == Read(History(h + ops), k, s)
  {
    var new_ := OpEntries(ops, |h| + 1);
    HistoryGrows(h, ops);
    HistoryUnique(h + ops);
    assert new_ + History(h) == History(h + ops);
    assert UniqueSeqs(new_ + All(a)) by { assert new_ + All(a) <= History(h + ops); }
    ReadUnderLayer(new_, All(a), History(h), k, s);
  }

  lemma WriteAll(a: Db, b: Db, h: seq<Op>, ops: seq<Op>)
    requires |a.levels| == NUM_LEVELS && WriteStep(a, b, ops) && All(a) <= History(h) && a.lastSequence == |h|
    ensures All(b) == OpEntries(ops, |h| + 1) + All(a) <= History(h + ops)
    ensures Newer(OpEntries(ops, |h| + 1), All(a))
  {
    HistoryGrows(h, ops);
  }

  lemma WriteLayered(a: Db, b: Db, new_: set<Entry>)
    requires |a.levels| == NUM_LEVELS && Layered(a)
    requires b.levels == a.levels && b.imm == a.imm && b.mem == a.mem + new_ && Newer(new_, All(a))
    ensures Layered(b)
  {}

  /** The store b has its shape, and if every view of a was kept then every view of b is. */
  ghost predicate Carries(a: Db, h: seq<Op>, b: Db, h': seq<Op>)
    requires |a.levels| == NUM_LEVELS
  {
    Shape(b, h') && (ViewsKept(a, h) ==> ViewsKept(b, h'))
  }

  lemma WriteKeeps(a: Db, b: Db, h: seq<Op>, ops: seq<Op>)
    requires Shape(a, h) && WriteStep(a, b, ops)
    ensures Carries(a, h, b, h + ops)
  {
    WriteAll(a, b, h, ops);
    WriteLayered(a, b, OpEntries(ops, |h| + 1));
    assert Shape(b, h + ops);
    if ViewsKept(a, h) {
      forall k, s: nat | s >= SmallestSnapshot(b) ensures Read(All(b), k, s) == Read(History(h + ops), k, s) {
        WriteViews(a, h, ops, k, s);
      }
    }
  }

  lemma SwitchKeeps(a: Db, b: Db, h: seq<Op>)
    requires Shape(a, h) && SwitchStep(a, b)
    ensures Carries(a, h, b, h)
  {
    SwitchShape(a, b, h);
    SameViews(a, b, h);
  }

  lemma SwitchShape(a: Db, b: Db, h: seq<Op>)
    requires Shape(a, h) && SwitchStep(a, b)
    ensures Shape(b, h) && All(b) == All(a)
  {
    hide LevelOrder, Span, History;
    assert b.mem + b.Imm() == a.mem + a.Imm();
  }

  /** A step that moves no entry and makes no snapshot older keeps the views. */
  lemma SameViews(a: Db, b: Db, h: seq<Op>)
    requires Shape(a, h) && Shape(b, h) && All(b) == All(a) && SmallestSnapshot(b) >= SmallestSnapshot(a)
    ensures Carries(a, h, b, h)
  {
    hide Shape;
    if |a.levels| == NUM_LEVELS && |b.levels| == NUM_LEVELS && ViewsKept(a, h) {
      forall k, s: nat | s >= SmallestSnapshot(b) ensures Read(All(b), k, s) == Read(History(h), k, s) {}
    }
  }

  lemma SnapshotKeeps(a: Db, b: Db, h: seq<Op>)
    requires Shape(a, h) && SnapshotStep(a, b)
    ensures Carries(a, h, b, h)
  {
    assert Shape(b, h) by { hide FilesOk, Layered, Span, History; }
    SameViews(a, b, h);
  }

  lemma ReleaseKeeps(a: Db, b: Db, h: seq<Op>, i: nat)
    requires Shape(a, h) && ReleaseStep(a, b, i)
    ensures Carries(a, h, b, h)
  {
    assert Shape(b, h) by { hide FilesOk, Layered, Span, History; }
    assert SmallestSnapshot(b) >= SmallestSnapshot(a) by {
      if b.snapshots != [] && i == 0 { assert b.snapshots[0] == a.snapshots[1]; }
    }
    SameViews(a, b, h);
  }

  // ---- Flush --------------------------------------------------------------------------------

  lemma NoOverlapNoSharedKey(fs: set<File>, f: File, e: Entry, x: Entry)
    requires WellFormed(f) && (forall g :: g in fs ==> WellFormed(g)) && NoOverlap(fs, f)
    requires e in Entries(fs) && x in f.entries
    ensures e.user != x.user
  {
    var g :| g in fs && e in g.entries;
    InRange(g, e);
    InRange(f, x);
  }

  lemma FlushEntries(levels: seq<set<File>>, f: File, lvl: nat, i: nat)
    requires lvl < |levels| && i < |levels|
    ensures Entries(levels[lvl := levels[lvl] + {f}][i])
         == if i == lvl then Entries(levels[i]) + Elements(f.entries) else Entries(levels[i])
  {
    EntriesUnion(levels[i], {f});
    assert Entries({f}) == Elements(f.entries);
  }

  /** The new file is newer than every file, and shares no user key with a level above its own. */
  lemma FlushNewer(a: Db, h: seq<Op>, b: Db, f: File, lvl: nat, i: nat)
    requires Shape(a, h) && FlushStep(a, b, f, lvl) && a.imm.value != {} && i < NUM_LEVELS
    ensures Newer(Elements(f.entries), Entries(a.levels[i]))
    ensures i < lvl ==> Newer(Entries(a.levels[i]), Elements(f.entries))
  {
    assert Entries(a.levels[i]) <= Span(a.levels, 0, NUM_LEVELS);
    if i < lvl {
      forall e, x | e in Entries(a.levels[i]) && x in Elements(f.entries) ensures e.user != x.user {
        NoOverlapNoSharedKey(a.levels[i], f, e, x);
      }
    }
  }

  lemma FlushAcross(a: Db, b: Db, h: seq<Op>, f: File, lvl: nat, i: nat, j: nat)
    requires Shape(a, h) && FlushStep(a, b, f, lvl) && a.imm.value != {}
    requires i < j < NUM_LEVELS
    ensures Newer(Entries(b.levels[i]), Entries(b.levels[j]))
  {
    FlushEntries(a.levels, f, lvl, i);
    FlushEntries(a.levels, f, lvl, j);
    FlushNewer(a, h, b, f, lvl, i);
    FlushNewer(a, h, b, f, lvl, j);
  }

  lemma FlushWithin(a: Db, b: Db, h: seq<Op>, f: File, lvl: nat)
    requires Shape(a, h) && FlushStep(a, b, f, lvl) && a.imm.value != {}
    ensures lvl == 0 ==> ByNumber(b.levels[0])
    ensures lvl > 0 ==> PairwiseApart(b.levels[lvl])
  {
    if lvl > 0 {
      RangeOrdered(f);
      forall g | g in a.levels[lvl] ensures Apart(f, g) { RangeOrdered(g); }
    } else {
      FlushNewer(a, h, b, f, lvl, 0);
      forall g | g in a.levels[0] ensures Newer(Elements(f.entries), Elements(g.entries)) {
        assert Elements(g.entries) <= Entries(a.levels[0]);
      }
    }
  }

  lemma FlushOrder(a: Db, b: Db, h: seq<Op>, f: File, lvl: nat)
    requires Shape(a, h) && FlushStep(a, b, f, lvl) && a.imm.value != {}
    ensures LevelOrder(b.levels)
  {
    FlushWithin(a, b, h, f, lvl);
    forall i, j | 0 <= i < j < NUM_LEVELS ensures Newer(Entries(b.levels[i]), Entries(b.levels[j])) {
      FlushAcross(a, b, h, f, lvl, i, j);
    }
  }

  lemma FlushNumbers(a: Db, b: Db, h: seq<Op>, f: File, lvl: nat)
    requires FilesOk(a.levels, a.nextFile) && FlushStep(a, b, f, lvl) && a.imm.value != {}
    ensures FilesOk(b.levels, b.nextFile)
  {
    assert Deeper(b.levels, 0) <= Deeper(a.levels, 0) + {f};
  }

  lemma FlushShape(a: Db, b: Db, h: seq<Op>, f: File, lvl: nat)
    requires Shape(a, h) && FlushStep(a, b, f, lvl) && a.imm.value != {}
    ensures All(b) == All(a)
    ensures Shape(b, h)
  {
    SpanAdd(a.levels, lvl, f);
    assert Span(b.levels, 0, NUM_LEVELS) == Span(a.levels, 0, NUM_LEVELS) + a.imm.value;
    assert All(b) == All(a);
    FlushOrder(a, b, h, f, lvl);
    assert Layered(b);
    FlushNumbers(a, b, h, f, lvl);
  }

  lemma FlushKeeps(a: Db, b: Db, h: seq<Op>, f: File, lvl: nat)
    requires Shape(a, h) && FlushStep(a, b, f, lvl)
    ensures Carries(a, h, b, h)
  {
    if a.imm.value == {} {
      assert Shape(b, h) && All(b) == All(a) by { hide LevelOrder, Span, History; }
    } else {
      FlushShape(a, b, h, f, lvl);
    }
    SameViews(a, b, h);
  }

  lemma SpanAdd(levels: seq<set<File>>, lvl: nat, f: File)
    requires lvl < |levels|
    ensures Span(levels[lvl := levels[lvl] + {f}], 0, |levels|) == Span(levels, 0, |levels|) + Elements(f.entries)
  {
    var levels' := levels[lvl := levels[lvl] + {f}];
    EntriesUnion(levels[lvl], {f});
    assert Entries({f}) == Elements(f.entries);
    forall e | e in Span(levels, 0, |levels|) + Elements(f.entries) ensures e in Span(levels', 0, |levels|) {
      if e in f.entries {
        assert e in Entries(levels'[lvl]);
      } else {
        var i :| 0 <= i < |levels| && e in Entries(levels[i]);
        assert e in Entries(levels'[i]);
      }
    }
  }
}
