/** Compactions and trivial moves: what they keep, and exactly when they keep every read. */
module LsmCompaction {
  import opened DbFormat
  import opened Reads
  import opened Files
  import opened Lsm

  /** What both steps have in common: the inputs are replaced by outs, whose entries come from them. */
  ghost predicate Replaces(levels: seq<set<File>>, level: nat, ins0: set<File>, ins1: set<File>, outs: set<File>) {
    && |levels| == NUM_LEVELS
    && (forall i, f :: 0 <= i < NUM_LEVELS && f in levels[i] ==> WellFormed(f))
    && LevelOrder(levels)
    && GoodInputs(levels, level, ins0, ins1)
    && (forall f :: f in outs ==> WellFormed(f))
    && PairwiseApart(outs)
    && Entries(outs) <= Entries(ins0 + ins1)
  }

  /** A file of level + 1 that is not an input lies wholly before or wholly after every input entry. */
  lemma SideOf(levels: seq<set<File>>, level: nat, ins0: set<File>, ins1: set<File>, outs: set<File>, g: File)
    requires Replaces(levels, level, ins0, ins1, outs) && g in levels[level + 1] - ins1
    ensures (forall e :: e in Entries(ins0 + ins1) ==> Less(g.largest, e.Key()))
         || (forall e :: e in Entries(ins0 + ins1) ==> Less(e.Key(), g.smallest))
  {
    var f0 :| f0 in ins0;
    assert !Overlaps(g, f0.smallest.user, f0.largest.user);
    RangeOrdered(g);
    RangeOrdered(f0);
    forall e | e in Entries(ins0 + ins1)
      ensures if g.largest.user < f0.smallest.user then Less(g.largest, e.Key()) else Less(e.Key(), g.smallest)
    {
      var f :| f in ins0 + ins1 && e in f.entries;
      InRange(f, e);
      RangeOrdered(f);
      if f in ins0 {
        assert !Overlaps(g, f.smallest.user, f0.largest.user);
        assert !Overlaps(g, f0.smallest.user, f.largest.user);
      } else {
        InputSide(levels, level, ins0, ins1, outs, g, f, f0);
      }
    }
  }

  /** An input of level + 1 is on the same side of g as the inputs of `level`. */
  lemma InputSide(levels: seq<set<File>>, level: nat, ins0: set<File>, ins1: set<File>, outs: set<File>,
                  g: File, f: File, f0: File)
    requires Replaces(levels, level, ins0, ins1, outs)
    requires g in levels[level + 1] - ins1 && f in ins1 && f0 in ins0
    ensures if g.largest.user < f0.smallest.user then Less(g.largest, f.smallest) else Less(f.largest, g.smallest)
  {
    assert Apart(g, f);
    var p, q :| p in ins0 && q in ins0 && Overlaps(f, p.smallest.user, q.largest.user);
    assert !Overlaps(g, p.smallest.user, f0.largest.user);
    assert !Overlaps(g, f0.smallest.user, q.largest.user);
    assert !Overlaps(g, p.smallest.user, q.largest.user);
    RangeOrdered(g);
    RangeOrdered(f);
    RangeOrdered(f0);
    RangeOrdered(p);
    RangeOrdered(q);
  }

  lemma OutputApart(levels: seq<set<File>>, level: nat, ins0: set<File>, ins1: set<File>, outs: set<File>,
                    g: File, o: File)
    requires Replaces(levels, level, ins0, ins1, outs)
    requires g in levels[level + 1] - ins1 && o in outs
    ensures Apart(g, o)
  {
    SideOf(levels, level, ins0, ins1, outs, g);
    var first, last := o.entries[0], o.entries[|o.entries| - 1];
    assert o in outs && first in o.entries && last in o.entries;
    assert first in Entries(outs) && last in Entries(outs);
  }

  lemma InstallEntries(levels: seq<set<File>>, level: nat, ins0: set<File>, ins1: set<File>, outs: set<File>, i: nat)
    requires level + 1 < |levels| && i < |levels|
    ensures Entries(Install(levels, level, ins0, ins1, outs)[i]) ==
            if i == level then Entries(levels[level] - ins0)
            else if i == level + 1 then Entries(levels[level + 1] - ins1) + Entries(outs)
            else Entries(levels[i])
  {
    EntriesUnion(levels[level + 1] - ins1, outs);
  }

  lemma EntriesSplit(fs: set<File>, ins: set<File>)
    requires ins <= fs
    ensures Entries(fs) == Entries(fs - ins) + Entries(ins)
  {
    assert fs == (fs - ins) + ins;
    EntriesUnion(fs - ins, ins);
  }

  /** Every level but the two touched ones keeps its entries; those two trade entries of In. */
  lemma InstallBounds(levels: seq<set<File>>, level: nat, ins0: set<File>, ins1: set<File>, outs: set<File>, i: nat)
    requires Replaces(levels, level, ins0, ins1, outs) && i < NUM_LEVELS
    ensures Entries(Install(levels, level, ins0, ins1, outs)[i])
         <= if i == level + 1 then Entries(levels[level]) + Entries(levels[level + 1]) else Entries(levels[i])
  {
    InstallEntries(levels, level, ins0, ins1, outs, i);
    EntriesSplit(levels[level], ins0);
    EntriesSplit(levels[level + 1], ins1);
    EntriesUnion(ins0, ins1);
  }

  lemma InstallOrder(levels: seq<set<File>>, level: nat, ins0: set<File>, ins1: set<File>, outs: set<File>)
    requires Replaces(levels, level, ins0, ins1, outs)
    ensures LevelOrder(Install(levels, level, ins0, ins1, outs))
  {
    var levels' := Install(levels, level, ins0, ins1, outs);
    forall i | 1 <= i < NUM_LEVELS ensures PairwiseApart(levels'[i]) {
      if i == level + 1 {
        forall g, o | g in levels[level + 1] - ins1 && o in outs ensures Apart(g, o) && Apart(o, g) {
          OutputApart(levels, level, ins0, ins1, outs, g, o);
        }
      }
    }
    forall i, j | 0 <= i < j < NUM_LEVELS ensures Newer(Entries(levels'[i]), Entries(levels'[j])) {
      InstallNewer(levels, level, ins0, ins1, outs, i, j);
    }
  }

  lemma InstallNewer(levels: seq<set<File>>, level: nat, ins0: set<File>, ins1: set<File>, outs: set<File>,
                     i: nat, j: nat)
    requires Replaces(levels, level, ins0, ins1, outs) && i < j < NUM_LEVELS
    ensures var levels' := Install(levels, level, ins0, ins1, outs);
            Newer(Entries(levels'[i]), Entries(levels'[j]))
  {
    if i == level && j == level + 1 {
      InstallEntries(levels, level, ins0, ins1, outs, i);
      InstallEntries(levels, level, ins0, ins1, outs, j);
      EntriesSplit(levels[level], ins0);
      EntriesSplit(levels[level + 1], ins1);
      EntriesUnion(ins0, ins1);
    } else {
      InstallBounds(levels, level, ins0, ins1, outs, i);
      InstallBounds(levels, level, ins0, ins1, outs, j);
    }
  }

  /** No entry outside the inputs is also an input entry. */
  lemma InputsAreElsewhere(levels: seq<set<File>>, level: nat, ins0: set<File>, ins1: set<File>, outs: set<File>,
                           i: nat, e: Entry)
    requires Replaces(levels, level, ins0, ins1, outs) && i < NUM_LEVELS
    requires e in Entries(if i == level then levels[level] - ins0
                          else if i == level + 1 then levels[level + 1] - ins1 else levels[i])
    ensures e !in Entries(ins0 + ins1)
  {
    EntriesSplit(levels[level], ins0);
    EntriesSplit(levels[level + 1], ins1);
    EntriesUnion(ins0, ins1);
    if i == level + 1 {
      var g :| g in levels[level + 1] - ins1 && e in g.entries;
      SideOf(levels, level, ins0, ins1, outs, g);
      InRange(g, e);
    }
  }

  lemma InstallSpan(levels: seq<set<File>>, level: nat, ins0: set<File>, ins1: set<File>, outs: set<File>)
    requires Replaces(levels, level, ins0, ins1, outs)
    ensures Entries(ins0 + ins1) <= Span(levels, 0, NUM_LEVELS)
    ensures Span(Install(levels, level, ins0, ins1, outs), 0, NUM_LEVELS)
         == Span(levels, 0, NUM_LEVELS) - Entries(ins0 + ins1) + Entries(outs)
  {
    var levels', In := Install(levels, level, ins0, ins1, outs), Entries(ins0 + ins1);
    InputsWithin(levels, level, ins0, ins1, outs);
    hide Entries, Replaces;
    forall e | e in Span(levels', 0, NUM_LEVELS) ensures e in Span(levels, 0, NUM_LEVELS) - In + Entries(outs) {
      if e !in Entries(outs) { InstallAdds(levels, level, ins0, ins1, outs, e); }
    }
    forall e | e in Span(levels, 0, NUM_LEVELS) - In + Entries(outs) ensures e in Span(levels', 0, NUM_LEVELS) {
      InstallLeaves(levels, level, ins0, ins1, outs, e);
    }
  }

  lemma InputsWithin(levels: seq<set<File>>, level: nat, ins0: set<File>, ins1: set<File>, outs: set<File>)
    requires Replaces(levels, level, ins0, ins1, outs)
    ensures Entries(ins0 + ins1) <= Span(levels, 0, NUM_LEVELS)
  {
    EntriesSplit(levels[level], ins0);
    EntriesSplit(levels[level + 1], ins1);
    EntriesUnion(ins0, ins1);
  }

  lemma InstallAdds(levels: seq<set<File>>, level: nat, ins0: set<File>, ins1: set<File>, outs: set<File>, e: Entry)
    requires Replaces(levels, level, ins0, ins1, outs)
    requires e in Span(Install(levels, level, ins0, ins1, outs), 0, NUM_LEVELS) && e !in Entries(outs)
    ensures e in Span(levels, 0, NUM_LEVELS) && e !in Entries(ins0 + ins1)
  {
    var levels' := Install(levels, level, ins0, ins1, outs);
    var i :| 0 <= i < NUM_LEVELS && e in Entries(levels'[i]);
    EntriesSplit(levels[level], ins0);
    EntriesSplit(levels[level + 1], ins1);
    InstallEntries(levels, level, ins0, ins1, outs, i);
    InputsAreElsewhere(levels, level, ins0, ins1, outs, i, e);
    assert e in Entries(levels[i]);
  }

  lemma InstallLeaves(levels: seq<set<File>>, level: nat, ins0: set<File>, ins1: set<File>, outs: set<File>, e: Entry)
    requires Replaces(levels, level, ins0, ins1, outs)
    requires e in Span(levels, 0, NUM_LEVELS) - Entries(ins0 + ins1) + Entries(outs)
    ensures e in Span(Install(levels, level, ins0, ins1, outs), 0, NUM_LEVELS)
  {
    var levels' := Install(levels, level, ins0, ins1, outs);
    if e in Entries(outs) {
      InstallEntries(levels, level, ins0, ins1, outs, level + 1);
      assert e in Entries(levels'[level + 1]);
    } else {
      var i :| 0 <= i < NUM_LEVELS && e in Entries(levels[i]);
      EntriesSplit(levels[level], ins0);
      EntriesSplit(levels[level + 1], ins1);
      EntriesUnion(ins0, ins1);
      InstallEntries(levels, level, ins0, ins1, outs, i);
      assert e in Entries(levels'[i]);
    }
  }

  lemma NewerDisjoint(A: set<Entry>, B: set<Entry>)
    requires Newer(A, B)
    ensures A !! B
  {}

  /** The shape of the store survives, and its contents become (contents - inputs) + outputs. */
  lemma InstallShape(a: Db, b: Db, h: seq<Op>, level: nat, ins0: set<File>, ins1: set<File>, outs: set<File>)
    requires Shape(a, h) && Replaces(a.levels, level, ins0, ins1, outs)
    requires b == a.(levels := Install(a.levels, level, ins0, ins1, outs), nextFile := b.nextFile)
    requires FilesOk(b.levels, b.nextFile)
    ensures Shape(b, h)
    ensures Entries(ins0 + ins1) <= All(a)
    ensures All(b) == All(a) - Entries(ins0 + ins1) + Entries(outs)
  {
    InstallSpan(a.levels, level, ins0, ins1, outs);
    InstallOrder(a.levels, level, ins0, ins1, outs);
    NewerDisjoint(a.mem + a.Imm(), Span(a.levels, 0, NUM_LEVELS));
    SwapLevels(a, b, h, Entries(ins0 + ins1), Entries(outs));
  }

  lemma SwapLevels(a: Db, b: Db, h: seq<Op>, In: set<Entry>, Out: set<Entry>)
    requires Shape(a, h) && FilesOk(b.levels, b.nextFile) && LevelOrder(b.levels)
    requires b == a.(levels := b.levels, nextFile := b.nextFile)
    requires Out <= In <= Span(a.levels, 0, NUM_LEVELS) && In !! a.mem + a.Imm()
    requires Span(b.levels, 0, NUM_LEVELS) == Span(a.levels, 0, NUM_LEVELS) - In + Out
    ensures Shape(b, h)
    ensures All(b) == All(a) - In + Out
  {}

  lemma CompactNumbers(a: Db, b: Db, level: nat, ins0: set<File>, ins1: set<File>, outs: set<File>)
    requires FilesOk(a.levels, a.nextFile) && CompactStep(a, b, level, ins0, ins1, outs)
    ensures FilesOk(b.levels, b.nextFile)
  {
    assert Deeper(b.levels, 0) <= Deeper(a.levels, 0) + outs;
  }

  lemma CompactShape(a: Db, b: Db, h: seq<Op>, level: nat, ins0: set<File>, ins1: set<File>, outs: set<File>)
    requires Shape(a, h) && CompactStep(a, b, level, ins0, ins1, outs)
    ensures Shape(b, h)
    ensures Entries(ins0 + ins1) <= All(a)
    ensures All(b) == AfterDrop(All(a), Entries(ins0 + ins1), SmallestSnapshot(a), Covered(Deeper(a.levels, level + 2)))
  {
    CompactNumbers(a, b, level, ins0, ins1, outs);
    assert Replaces(a.levels, level, ins0, ins1, outs);
    InstallShape(a, b, h, level, ins0, ins1, outs);
  }

  /** No deletion marker that the compaction drops from a file of level + 1, and that is what a reader
      at the oldest snapshot sees, has a value of its user key underneath it in a file of level + 1 that
      is left out. */
  ghost predicate NoMarkerLost(a: Db, level: nat, ins1: set<File>)
    requires |a.levels| == NUM_LEVELS && level + 1 < NUM_LEVELS
  {
    forall e :: e in Entries(ins1) && Obsolete(e, SmallestSnapshot(a), Covered(Deeper(a.levels, level + 2)))
             && Newest(All(a), e.user, SmallestSnapshot(a), e)
      ==> Read(Entries(a.levels[level + 1] - ins1), e.user, SmallestSnapshot(a)) == None
  }

  /** An entry that is left out and is not newer than an input entry of its user key, which no deeper
      level covers: both are in level + 1, the one in a file left out, the other in one that is not. */
  lemma OnlyNextLevel(a: Db, h: seq<Op>, level: nat, ins0: set<File>, ins1: set<File>, e: Entry, x: Entry)
    requires Shape(a, h) && GoodInputs(a.levels, level, ins0, ins1)
    requires e in Entries(ins0 + ins1) && x in All(a) - Entries(ins0 + ins1) && x.user == e.user
    requires e.user !in Covered(Deeper(a.levels, level + 2)) && x.sn <= e.sn
    ensures e in Entries(ins1) && x in Entries(a.levels[level + 1] - ins1)
  {
    InputsInLevels(a.levels, level, ins0, ins1, e);
    assert x !in a.mem + a.Imm();
    var i :| 0 <= i < NUM_LEVELS && x in Entries(a.levels[i]);
    OnlyAt(a.levels, a.nextFile, level, ins0, ins1, e, x, i);
  }

  lemma OnlyAt(levels: seq<set<File>>, next: nat, level: nat, ins0: set<File>, ins1: set<File>, e: Entry, x: Entry,
      i: nat)
    requires FilesOk(levels, next) && LevelOrder(levels) && GoodInputs(levels, level, ins0, ins1)
    requires e in Entries(ins0 + ins1) && i < NUM_LEVELS && x in Entries(levels[i]) - Entries(ins0 + ins1)
    requires x.user == e.user
    requires e.user !in Covered(Deeper(levels, level + 2)) && x.sn <= e.sn
    ensures e in Entries(ins1) && x in Entries(levels[level + 1] - ins1)
  {
    EntriesUnion(ins0, ins1);
    InputsInLevels(levels, level, ins0, ins1, e);
    if i >= level + 2 {
      NotCovered(levels, level + 2, i, x);
    } else if i == level + 1 {
      EntriesSplit(levels[level + 1], ins1);
      if e in Entries(ins0) { NoSharedKey(levels, next, level, ins0, ins1, e, x); }
    } else if i == level {
      EntriesSplit(levels[level], ins0);
    }
  }

  /** Under a dropped marker that is the newest of its user key, all that a reader can fall through to
      is in the files of level + 1 that are left out. */
  lemma FallsThrough(a: Db, h: seq<Op>, level: nat, ins0: set<File>, ins1: set<File>, e: Entry)
    requires Shape(a, h) && GoodInputs(a.levels, level, ins0, ins1) && Entries(ins0 + ins1) <= All(a)
    requires e in Entries(ins0 + ins1) && e.user !in Covered(Deeper(a.levels, level + 2))
    requires Newest(All(a), e.user, SmallestSnapshot(a), e)
    ensures var rest, ss := All(a) - Entries(ins0 + ins1), SmallestSnapshot(a);
            Read(rest, e.user, ss) == if e in Entries(ins1) then
              Read(Entries(a.levels[level + 1] - ins1), e.user, ss) else None
  {
    var rest, below, ss := All(a) - Entries(ins0 + ins1), Entries(a.levels[level + 1] - ins1), SmallestSnapshot(a);
    forall x | x in rest && Visible(x, e.user, ss) ensures e in Entries(ins1) && x in below {
      OnlyNextLevel(a, h, level, ins0, ins1, e, x);
    }
    forall x | x in below ensures x in rest { LeftOutBelow(a, h, level, ins0, ins1, x); }
    AllUnique(a, h);
    if e in Entries(ins1) { SameVisible(rest, below, e.user, ss); }
  }

  lemma LeftOutBelow(a: Db, h: seq<Op>, level: nat, ins0: set<File>, ins1: set<File>, x: Entry)
    requires Shape(a, h) && GoodInputs(a.levels, level, ins0, ins1) && x in Entries(a.levels[level + 1] - ins1)
    ensures x in All(a) - Entries(ins0 + ins1)
  {
    assert Replaces(a.levels, level, ins0, ins1, {}) by { assert Entries({}) == {}; }
    InputsAreElsewhere(a.levels, level, ins0, ins1, {}, level + 1, x);
    EntriesSplit(a.levels[level + 1], ins1);
    assert x in Entries(a.levels[level + 1]);
  }

  /** Readers that see the same entries read the same. */
  lemma SameVisible(S: set<Entry>, T: set<Entry>, k: UserKey, s: nat)
    requires UniqueSeqs(S) && UniqueSeqs(T)
    requires forall x :: Visible(x, k, s) ==> (x in S <==> x in T)
    ensures Read(S, k, s) == Read(T, k, s)
  {
    var r := NewestExists(S, k, s);
    if r.Some? {
      ReadNewest(S, k, s, r.value);
      ReadNewest(T, k, s, r.value);
    }
  }

  /** The local condition says what the drop rule needs. */
  lemma LocalIsExact(a: Db, h: seq<Op>, level: nat, ins0: set<File>, ins1: set<File>)
    requires Shape(a, h) && GoodInputs(a.levels, level, ins0, ins1) && Entries(ins0 + ins1) <= All(a)
    ensures NoMarkerLost(a, level, ins1)
       <==> NothingResurfaces(All(a), Entries(ins0 + ins1), SmallestSnapshot(a), Covered(Deeper(a.levels, level + 2)))
  {
    assert |a.levels| == NUM_LEVELS && level + 1 < NUM_LEVELS;
    hide Shape, GoodInputs;
    EntriesUnion(ins0, ins1);
    var covered := Covered(Deeper(a.levels, level + 2));
    forall e | e in Entries(ins0 + ins1) && Obsolete(e, SmallestSnapshot(a), covered) &&
        Newest(All(a), e.user, SmallestSnapshot(a), e)
      ensures var rest, ss := All(a) - Entries(ins0 + ins1), SmallestSnapshot(a);
              Read(rest, e.user, ss) == if e in Entries(ins1) then
                Read(Entries(a.levels[level + 1] - ins1), e.user, ss) else None
    {
      FallsThrough(a, h, level, ins0, ins1, e);
    }
  }

  /** A compaction always keeps the shape of the store, and it keeps every read that a live or future
      snapshot can make if and only if no dropped deletion marker uncovers a value. */
  lemma CompactionExact(a: Db, b: Db, h: seq<Op>, level: nat, ins0: set<File>, ins1: set<File>, outs: set<File>)
    requires Shape(a, h) && CompactStep(a, b, level, ins0, ins1, outs)
    ensures Shape(b, h)
    ensures NoMarkerLost(a, level, ins1) <==>
            forall k, s: nat :: s >= SmallestSnapshot(a) ==> Read(All(b), k, s) == Read(All(a), k, s)
  {
    CompactShape(a, b, h, level, ins0, ins1, outs);
    AllUnique(a, h);
    LocalIsExact(a, h, level, ins0, ins1);
    DropRuleExact(All(a), Entries(ins0 + ins1), SmallestSnapshot(a), Covered(Deeper(a.levels, level + 2)));
  }

  lemma InputsInLevels(levels: seq<set<File>>, level: nat, ins0: set<File>, ins1: set<File>, e: Entry)
    requires GoodInputs(levels, level, ins0, ins1) && e in Entries(ins0 + ins1)
    ensures e in Entries(if e in Entries(ins0) then levels[level] else levels[level + 1])
    ensures e in Span(levels, 0, NUM_LEVELS)
  {
    EntriesUnion(ins0, ins1);
  }

  lemma NotCovered(levels: seq<set<File>>, lvl: nat, i: nat, x: Entry)
    requires lvl <= i < |levels| && x in Entries(levels[i]) && (forall f :: f in levels[i] ==> WellFormed(f))
    ensures x.user in Covered(Deeper(levels, lvl))
  {
    var f :| f in levels[i] && x in f.entries;
    InRange(f, x);
    assert f in Deeper(levels, lvl) && Covers(f, x.user);
    assert SomeCovers(Deeper(levels, lvl), x.user);
  }

  /** A file left out at level + 1 shares no user key with the inputs of `level`. */
  lemma NoSharedKey(levels: seq<set<File>>, next: nat, level: nat, ins0: set<File>, ins1: set<File>, e: Entry, x: Entry)
    requires FilesOk(levels, next) && GoodInputs(levels, level, ins0, ins1)
    requires e in Entries(ins0) && x in Entries(levels[level + 1] - ins1)
    ensures x.user != e.user
  {
    var g :| g in levels[level + 1] - ins1 && x in g.entries;
    var f :| f in ins0 && e in f.entries;
    InRange(g, x);
    InRange(f, e);
    assert !MeetsRange(g, ins0);
    assert !Overlaps(g, f.smallest.user, f.largest.user);
  }

  /** Files of level + 1 that leave nothing older behind lose no marker. */
  lemma BoundarySuffices(a: Db, level: nat, ins1: set<File>)
    requires |a.levels| == NUM_LEVELS && BoundaryClosed(a.levels, level, ins1)
    ensures NoMarkerLost(a, level, ins1)
  {
    var below, ss := Entries(a.levels[level + 1] - ins1), SmallestSnapshot(a);
    forall e | e in Entries(ins1) && Newest(All(a), e.user, ss, e) ensures Read(below, e.user, ss) == None {
      forall x | x in below ensures !Visible(x, e.user, ss) {
        assert x in Entries(a.levels[level + 1]);
        assert x in Span(a.levels, 0, NUM_LEVELS);
      }
    }
  }

  /** The views survive a compaction exactly if it loses no marker. */
  lemma CompactionViews(a: Db, b: Db, h: seq<Op>, level: nat, ins0: set<File>, ins1: set<File>, outs: set<File>)
    requires Shape(a, h) && CompactStep(a, b, level, ins0, ins1, outs)
    ensures Shape(b, h)
    ensures ViewsKept(a, h) ==> (ViewsKept(b, h) <==> NoMarkerLost(a, level, ins1))
  {
    CompactionExact(a, b, h, level, ins0, ins1, outs);
    assert SmallestSnapshot(b) == SmallestSnapshot(a);
    if ViewsKept(a, h) && ViewsKept(b, h) {
      forall k, s: nat | s >= SmallestSnapshot(a) ensures Read(All(b), k, s) == Read(All(a), k, s) {}
    }
  }

  lemma MoveKeeps(a: Db, b: Db, h: seq<Op>, level: nat, f: File)
    requires Shape(a, h) && MoveStep(a, b, level, f)
    ensures Carries(a, h, b, h)
  {
    assert Deeper(b.levels, 0) <= Deeper(a.levels, 0);
    assert {f} + {} == {f};
    assert Replaces(a.levels, level, {f}, {}, {f});
    InstallShape(a, b, h, level, {f}, {}, {f});
    assert All(b) == All(a);
  }
}
