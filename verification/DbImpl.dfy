/** Inserting entries in key order: what the memtable and the merged compaction input do. */
module SortedEntries {
  import opened DbFormat

  function Insert(es: seq<Entry>, e: Entry): seq<Entry> {
    if es == [] then [e]
    else if es[0] == e then es
    else if Less(e.Key(), es[0].Key()) then [e] + es
    else [es[0]] + Insert(es[1..], e)
  }

  lemma {:induction false} InsertElements(es: seq<Entry>, e: Entry)
    ensures Elements(Insert(es, e)) == Elements(es) + {e}
  {
    if es != [] && es[0] != e && !Less(e.Key(), es[0].Key()) {
      InsertElements(es[1..], e);
      assert es == [es[0]] + es[1..];
    }
  }

  /** Insertion keeps the order as long as no other entry has the same user key and sequence number. */
  lemma {:induction false} InsertSorted(es: seq<Entry>, e: Entry)
    requires Sorted(es)
    requires forall x :: x in es && x.user == e.user && x.sn == e.sn ==> x == e
    ensures Sorted(Insert(es, e))
  {
    if es != [] && es[0] != e {
      TagOrder(e.Key(), es[0].Key());
      if Less(e.Key(), es[0].Key()) {
      } else {
        var rest := es[1..];
        InsertSorted(rest, e);
        InsertElements(rest, e);
        forall i | 0 <= i < |Insert(rest, e)| ensures Less(es[0].Key(), Insert(rest, e)[i].Key()) {
          var x := Insert(rest, e)[i];
          assert x in Elements(Insert(rest, e));
        }
      }
    }
  }
}

/** The database object: every public operation and background step on its real fields
    (db/db_impl.cc), each proved to be a step of `Lsm`. */
module DbImpl {
  import opened DbFormat
  import opened Reads
  import opened Files
  import opened Lsm
  import opened LsmCompaction
  import opened Version
  import opened CompactionInputs
  import opened CompactionWork
  import opened VersionBuilder
  import opened VersionSets
  import opened SortedEntries

  // ---- From the version set to the model ------------------------------------------------------------

  lemma SortedFromSmallest(files: seq<File>)
    requires BySmallest(files) && PairwiseApart(Elements(files)) && (forall f :: f in files ==> WellFormed(f))
    ensures SortedFiles(files)
  {
    forall i, j | 0 <= i < j < |files| ensures Less(files[i].largest, files[j].smallest) {
      assert files[i] in files && files[j] in files;
      RangeOrdered(files[i]);
      RangeOrdered(files[j]);
      FileLessTotal(files[i], files[j]);
      assert files[i] in Elements(files) && files[j] in Elements(files) && files[i] != files[j];
    }
  }

  /** The file lists of a valid store are what the search code expects. */
  lemma VersionIsOk(files: seq<seq<File>>, next: nat)
    requires |files| == NUM_LEVELS && (forall i :: 0 <= i < NUM_LEVELS ==> BySmallest(files[i]))
    requires FilesOk(Abs(files), next) && LevelOrder(Abs(files))
    ensures VersionOk(files, next)
    ensures forall i :: 0 <= i < NUM_LEVELS ==> LevelFilesOk(files[i], i)
  {
    forall i | 0 <= i < NUM_LEVELS ensures LevelFilesOk(files[i], i) {
      assert Abs(files)[i] == Elements(files[i]);
      if i > 0 { SortedFromSmallest(files[i]); }
    }
  }

  lemma SeqsBounded(db: Db, h: seq<Op>, i: nat, f: File)
    requires Shape(db, h) && i < NUM_LEVELS && f in db.levels[i]
    ensures forall e :: e in f.entries ==> e.sn < MAX_SEQUENCE
    ensures f.largest.sn <= MAX_SEQUENCE
  {
    forall e | e in f.entries ensures e in All(db) {
      assert e in Entries(db.levels[i]);
      assert e in Span(db.levels, 0, NUM_LEVELS);
    }
    assert f.entries[|f.entries| - 1] in f.entries;
  }

  // ---- Edits ---------------------------------------------------------------------------------------

  function DeleteList(files: seq<File>, lvl: nat): (r: seq<(nat, nat)>)
    ensures |r| == |files| && forall i :: 0 <= i < |files| ==> r[i] == (lvl, files[i].number)
  {
    seq(|files|, i requires 0 <= i < |files| => (lvl, files[i].number))
  }

  /** The edit of a compaction or a trivial move: inputs out, outs in (InstallCompactionResults). */
  function CompactionEdit(level: nat, ins0: seq<File>, ins1: seq<File>, outs: seq<File>, largest: IKey): VersionEdit {
    EMPTY_EDIT.(compactPointers := [(level, largest)],
                deletedFiles := DeleteList(ins0, level) + DeleteList(ins1, level + 1),
                newFiles := NewFilesAt(outs, level + 1))
  }

  lemma DeletedByCompaction(level: nat, ins0: seq<File>, ins1: seq<File>, outs: seq<File>, largest: IKey, i: nat)
    ensures At(CompactionEdit(level, ins0, ins1, outs, largest), i).deleted
         == if i == level then Numbers(Elements(ins0)) else if i == level + 1 then Numbers(Elements(ins1)) else {}
  {
    var e := CompactionEdit(level, ins0, ins1, outs, largest);
    var d0, d1 := DeleteList(ins0, level), DeleteList(ins1, level + 1);
    forall n | n in Numbers(Elements(ins0)) ensures (level, n) in e.deletedFiles {
      var k :| 0 <= k < |ins0| && ins0[k].number == n;
      assert d0[k] in d0;
    }
    forall n | n in Numbers(Elements(ins1)) ensures (level + 1, n) in e.deletedFiles {
      var k :| 0 <= k < |ins1| && ins1[k].number == n;
      assert d1[k] in d1;
    }
    forall n | n in At(e, i).deleted
      ensures i == level ==> n in Numbers(Elements(ins0))
      ensures i == level + 1 ==> n in Numbers(Elements(ins1))
      ensures i == level || i == level + 1
    {
      if (i, n) in d0 {
        var k :| 0 <= k < |d0| && d0[k] == (i, n);
        assert ins0[k] in Elements(ins0);
      } else {
        var k :| 0 <= k < |d1| && d1[k] == (i, n);
        assert ins1[k] in Elements(ins1);
      }
    }
  }

  lemma AddedByNewFilesAt(files: seq<File>, lvl: nat, i: nat, f: File)
    ensures f in AddedAt(NewFilesAt(files, lvl), i) <==> i == lvl && f in files
  {
    var r := NewFilesAt(files, lvl);
    AddedAtMembers(r, i, f);
    if i == lvl && f in files {
      var k :| 0 <= k < |files| && files[k] == f;
      assert r[k] in r;
    }
  }

  /** Deleting by number removes exactly the named files. */
  lemma DeleteByNumber(fs: set<File>, ins: set<File>)
    requires ins <= fs && NumbersUnique(fs)
    ensures forall f :: f in fs ==> (f.number in Numbers(ins) <==> f in ins)
  {}

  /** Applying a compaction's edit gives the installed version. */
  lemma CompactionInstalls(levels: seq<set<File>>, next: nat, level: nat, ins0: seq<File>, ins1: seq<File>,
                           outs: seq<File>, largest: IKey)
    requires FilesOk(levels, next) && level + 1 < NUM_LEVELS
    requires Elements(ins0) <= levels[level] && Elements(ins1) <= levels[level + 1]
    requires forall f :: f in outs ==> f.number !in Numbers(levels[level + 1])
    ensures CurrentAfter(levels, CompactionEdit(level, ins0, ins1, outs, largest))
         == Install(levels, level, Elements(ins0), Elements(ins1), Elements(outs))
  {
    var e := CompactionEdit(level, ins0, ins1, outs, largest);
    var r, want := CurrentAfter(levels, e), Install(levels, level, Elements(ins0), Elements(ins1), Elements(outs));
    forall i | 0 <= i < NUM_LEVELS ensures r[i] == want[i] {
      DeletedByCompaction(level, ins0, ins1, outs, largest, i);
      forall f ensures f in r[i] <==> f in want[i] {
        AddedByNewFilesAt(outs, level + 1, i, f);
        InstalledAt(levels, next, level, ins0, ins1, outs, largest, i, f);
      }
    }
  }

  lemma InstalledAt(levels: seq<set<File>>, next: nat, level: nat, ins0: seq<File>, ins1: seq<File>,
                    outs: seq<File>, largest: IKey, i: nat, f: File)
    requires FilesOk(levels, next) && level + 1 < NUM_LEVELS && i < NUM_LEVELS
    requires Elements(ins0) <= levels[level] && Elements(ins1) <= levels[level + 1]
    requires forall f :: f in outs ==> f.number !in Numbers(levels[level + 1])
    ensures f in CurrentAfter(levels, CompactionEdit(level, ins0, ins1, outs, largest))[i]
       <==> f in Install(levels, level, Elements(ins0), Elements(ins1), Elements(outs))[i]
  {
    var e := CompactionEdit(level, ins0, ins1, outs, largest);
    DeletedByCompaction(level, ins0, ins1, outs, largest, i);
    AddedByNewFilesAt(outs, level + 1, i, f);
    assert levels[i] <= Deeper(levels, 0);
    assert NumbersUnique(levels[i]);
    if i == level {
      DeleteByNumber(levels[i], Elements(ins0));
      assert Elements(At(e, i).added) == {} by {
        forall g ensures g !in At(e, i).added { AddedByNewFilesAt(outs, level + 1, i, g); }
      }
    } else if i == level + 1 {
      DeleteByNumber(levels[i], Elements(ins1));
      forall g ensures g in At(e, i).added <==> g in outs { AddedByNewFilesAt(outs, level + 1, i, g); }
    } else {
      assert Elements(At(e, i).added) == {} by {
        forall g ensures g !in At(e, i).added { AddedByNewFilesAt(outs, level + 1, i, g); }
      }
    }
  }

  /** A flush adds one file to one level. */
  lemma FlushInstalls(levels: seq<set<File>>, lvl: nat, f: File, e: VersionEdit)
    requires |levels| == NUM_LEVELS && lvl < NUM_LEVELS
    requires e.deletedFiles == [] && e.newFiles == [(lvl, f)]
    ensures CurrentAfter(levels, e) == levels[lvl := levels[lvl] + {f}]
  {
    forall i | 0 <= i < NUM_LEVELS
      ensures CurrentAfter(levels, e)[i] == levels[lvl := levels[lvl] + {f}][i]
    {
      forall g ensures g in At(e, i).added <==> i == lvl && g == f { AddedAtMembers(e.newFiles, i, g); }
    }
  }

  lemma NothingInstalls(levels: seq<set<File>>, e: VersionEdit)
    requires |levels| == NUM_LEVELS && e.deletedFiles == [] && e.newFiles == []
    ensures CurrentAfter(levels, e) == levels
  {
    forall i | 0 <= i < NUM_LEVELS ensures CurrentAfter(levels, e)[i] == levels[i] {
      assert At(e, i) == LevelEdit({}, []);
    }
  }

  // ---- The database ------------------------------------------------------------------------------------

  class DBImpl {
    var mem: seq<Entry>
    var imm: Option<seq<Entry>>
    const versions: VersionSet
    var snapshots: seq<nat>
    var logfileNumber: nat
    const maxFileSize: nat
    /** Size of a table with the given entries, before or after it is finished. */
    const fileSize: (seq<Entry>, bool) -> nat
    ghost var history: seq<Op>

    ghost function State(): Db
      reads this, versions
    {
      Db(Elements(mem), if imm.Some? then Some(Elements(imm.value)) else None, Abs(versions.current),
         versions.lastSequence, snapshots, versions.nextFileNumber)
    }

    ghost predicate Valid()
      reads this, versions
    {
      FieldsOk() && Shape(State(), history)
    }

    /** Every snapshot that a reader may still use reads as it did when it was current. */
    ghost predicate Faithful()
      reads this, versions
    {
      |State().levels| == NUM_LEVELS && ViewsKept(State(), history)
    }

    constructor (maxFileSize: nat, fileSize: (seq<Entry>, bool) -> nat)
      ensures Valid() && Faithful() && history == [] && fresh(versions)
    {
      versions := new VersionSet();
      mem, imm, snapshots, history := [], None, [], [];
      this.maxFileSize, this.fileSize := maxFileSize, fileSize;
      new;
      logfileNumber := versions.NewFileNumber();
      hide Shape, ViewsKept;
      assert forall i :: 0 <= i < NUM_LEVELS ==> Abs(versions.current)[i] == {};
      EmptyInv(State());
    }

    static lemma EmptyInv(db: Db)
      requires |db.levels| == NUM_LEVELS && (forall i :: 0 <= i < NUM_LEVELS ==> db.levels[i] == {})
      requires db.mem == {} && db.imm.None? && db.snapshots == [] && db.lastSequence == 0
      ensures Inv(db, [])
    {
      assert All(db) == {};
    }

    /** WriteBatchInternal::InsertInto on the memtable. */
    method InsertInto(ops: seq<Op>, first: nat)
      requires Sorted(mem) && OlderThan(mem, first)
      modifies this`mem
      ensures Sorted(mem) && Elements(mem) == Elements(old(mem)) + OpEntries(ops, first)
    {
      for i := 0 to |ops|
        invariant Sorted(mem) && OlderThan(mem, first + i)
        invariant Elements(mem) == Elements(old(mem)) + OpEntries(ops[..i], first)
      {
        var e := OpEntry(ops[i], first + i);
        InsertNext(mem, e);
        OpEntriesNext(ops, i, first);
        mem := Insert(mem, e);
      }
      assert ops[..|ops|] == ops;
    }

    static lemma OpEntriesNext(ops: seq<Op>, i: nat, first: nat)
      requires i < |ops|
      ensures OpEntries(ops[..i + 1], first) == OpEntries(ops[..i], first) + {OpEntry(ops[i], first + i)}
    {
      OpEntriesAppend(ops[..i], [ops[i]], first);
      assert ops[..i + 1] == ops[..i] + [ops[i]];
    }

    static ghost predicate OlderThan(es: seq<Entry>, sn: nat) { forall x :: x in es ==> x.sn < sn }

    static lemma InsertNext(es: seq<Entry>, e: Entry)
      requires Sorted(es) && OlderThan(es, e.sn)
      ensures Sorted(Insert(es, e)) && OlderThan(Insert(es, e), e.sn + 1)
      ensures Elements(Insert(es, e)) == Elements(es) + {e}
    {
      InsertSorted(es, e);
      InsertElements(es, e);
      forall x | x in Insert(es, e) ensures x.sn < e.sn + 1 { assert x in Elements(Insert(es, e)); }
    }

    /** One write group: log it, insert every record, then publish the last sequence number. */
    method Write(ops: seq<Op>)
      requires Valid() && versions.lastSequence + |ops| < MAX_SEQUENCE
      modifies this, versions
      ensures Valid() && history == old(history) + ops && (old(Faithful()) ==> Faithful())
      ensures WriteStep(old(State()), State(), ops)
      ensures snapshots == old(snapshots)
    {
      hide Shape, ViewsKept, OpEntries, OlderThan, Sorted, All, Span, Carries;
      ghost var before := State();
      MemIsOld(before, history, mem);
      InsertInto(ops, versions.lastSequence + 1);
      versions.lastSequence := versions.lastSequence + |ops|;
      ghost var h := history;
      history := history + ops;
      AfterWrite(before, State(), h, ops);
    }

    lemma AfterWrite(a: Db, b: Db, h: seq<Op>, ops: seq<Op>)
      requires Shape(a, h) && WriteStep(a, b, ops)
      ensures Shape(b, h + ops) && |a.levels| == |b.levels| == NUM_LEVELS && (ViewsKept(a, h) ==> ViewsKept(b, h + ops))
    {
      WriteKeeps(a, b, h, ops);
    }

    /** Everything in the memtable is older than the next write. */
    lemma MemIsOld(db: Db, h: seq<Op>, mem: seq<Entry>)
      requires Shape(db, h) && Elements(mem) == db.mem
      ensures OlderThan(mem, db.lastSequence + 1)
    {
      forall x | x in mem ensures x.sn < db.lastSequence + 1 {
        assert x in Elements(mem);
        assert x in All(db);
      }
    }

    /** The memtable switch of MakeRoomForWrite. */
    method SwitchMemTable()
      requires Valid() && imm.None?
      modifies this, versions
      ensures Valid() && history == old(history) && SwitchStep(old(State()), State())
      ensures old(Faithful()) ==> Faithful()
    {
      ghost var before := State();
      logfileNumber := versions.NewFileNumber();
      imm, mem := Some(mem), [];
      SwitchKeeps(before, State(), history);
    }

    /** WriteLevel0Table: one table with the memtable's entries and the level it goes to. */
    method WriteLevel0Table(es: seq<Entry>, number: nat) returns (f: File, lvl: nat)
      requires Valid() && es != [] && Sorted(es)
      ensures WellFormed(f) && f.entries == es && f.number == number
      ensures lvl <= MAX_MEM_COMPACT_LEVEL
      ensures lvl > 0 ==> forall i :: 0 <= i <= lvl ==> NoOverlap(Abs(versions.current)[i], f)
      ensures |versions.current| == NUM_LEVELS && GoesTo(f, lvl, es, versions.current)
    {
      f := File(number, fileSize(es, true), es[0].Key(), es[|es| - 1].Key(), es);
      VersionIsOk(versions.current, versions.nextFileNumber);
      forall i, g | 0 <= i < NUM_LEVELS && g in versions.current[i] ensures g.largest.sn <= MAX_SEQUENCE {
        assert g in Abs(versions.current)[i];
        SeqsBounded(State(), history, i, g);
      }
      lvl := PickLevelForMemTableOutput(versions.current, f.smallest.user, f.largest.user, maxFileSize);
      PickedNoOverlap(versions.current, f, lvl);
    }

    /** The table f of the entries es has its size, and belongs at level lvl of these files. */
    ghost predicate GoesTo(f: File, lvl: nat, es: seq<Entry>, files: seq<seq<File>>)
      requires |files| == NUM_LEVELS && es != []
    {
      && f.size == fileSize(es, true)
      && lvl == FlushLevel(files, es[0].user, es[|es| - 1].user, maxFileSize)
    }

    /** The version that follows when the entries es become the table f at level lvl. */
    static ghost predicate FlushedLevels(levels: seq<set<File>>, es: seq<Entry>, f: File, lvl: nat,
        levels': seq<set<File>>) {
      if es == [] then levels' == levels
      else
        && |levels| == NUM_LEVELS && lvl <= MAX_MEM_COMPACT_LEVEL
        && WellFormed(f) && f.entries == es
        && (lvl > 0 ==> forall i :: 0 <= i <= lvl ==> NoOverlap(levels[i], f))
        && levels' == levels[lvl := levels[lvl] + {f}]
    }

    static lemma FlushIsStep(a: Db, b: Db, es: seq<Entry>, f: File, lvl: nat)
      requires |a.levels| == NUM_LEVELS && a.imm == Some(Elements(es)) && f.number == a.nextFile
      requires FlushedLevels(a.levels, es, f, lvl, b.levels)
      requires b == a.(imm := None, levels := b.levels, nextFile := a.nextFile + 1)
      ensures FlushStep(a, b, f, lvl)
    {
      if es != [] { assert es[0] in Elements(es); }
    }

    /** The edit that replaces the immutable memtable by a table. */
    method FlushEdit(es: seq<Entry>) returns (edit: VersionEdit, ghost f: File, lvl: nat)
      requires Valid() && Sorted(es)
      ensures Legal(versions.EverFiles(), Abs(versions.current), versions.nextFileNumber + 1, edit)
      ensures edit.logNumber == Some(logfileNumber) && edit.compactPointers == []
      ensures f.number == versions.nextFileNumber && |versions.current| == NUM_LEVELS
      ensures es != [] ==> GoesTo(f, lvl, es, versions.current)
      ensures FlushedLevels(Abs(versions.current), es, f, lvl, CurrentAfter(Abs(versions.current), edit))
    {
      var number := versions.nextFileNumber;
      edit := EMPTY_EDIT.(prevLogNumber := Some(0), logNumber := Some(logfileNumber));
      lvl := 0;
      f := File(number, 0, LookupKey(0.0, 0), LookupKey(0.0, 0), []);
      if es != [] {
        var file, level := WriteLevel0Table(es, number);
        f, lvl := file, level;
        edit := edit.(newFiles := [(lvl, file)]);
        FlushInstalls(Abs(versions.current), lvl, file, edit);
      } else {
        NothingInstalls(Abs(versions.current), edit);
      }
      NewFileIsLegal(versions.EverFiles(), Abs(versions.current), number, edit);
    }

    /** CompactMemTable: the table goes to the level the code picks, and the logs before the current one
        are no longer needed. */
    method CompactMemTable() returns (ghost f: File, lvl: nat)
      requires Valid() && imm.Some?
      modifies this, versions
      ensures Valid() && history == old(history) && FlushStep(old(State()), State(), f, lvl)
      ensures old(Faithful()) ==> Faithful()
      ensures |old(versions.current)| == NUM_LEVELS
      ensures old(imm.value != []) ==> GoesTo(f, lvl, old(imm.value), old(versions.current))
      ensures versions.logNumber == logfileNumber == old(logfileNumber)
      ensures versions.compactPointer == old(versions.compactPointer)
    {
      hide FlushLevel;
      ghost var before := State();
      var edit;
      edit, f, lvl := FlushEdit(imm.value);
      ReplaceImm(edit);
      FlushIsStep(before, State(), old(imm).value, f, lvl);
      FlushKeeps(before, State(), history, f, lvl);
    }

    /** The fields other than the contents are in order. */
    ghost predicate FieldsOk()
      reads this, versions
    {
      && versions.Valid()
      && Sorted(mem) && (imm.Some? ==> Sorted(imm.value))
      && versions.logNumber <= logfileNumber < versions.nextFileNumber
    }

    /** Installs the flushed table and drops the immutable memtable. */
    method ReplaceImm(edit: VersionEdit)
      requires FieldsOk()
      requires Legal(versions.EverFiles(), Abs(versions.current), versions.nextFileNumber + 1, edit)
      requires edit.logNumber == Some(logfileNumber)
      modifies this, versions
      ensures FieldsOk() && history == old(history)
      ensures State() == old(State()).(imm := None, levels := CurrentAfter(old(State()).levels, edit),
                                       nextFile := old(State()).nextFile + 1)
      ensures versions.logNumber == logfileNumber == old(logfileNumber)
      ensures edit.compactPointers == [] ==> versions.compactPointer == old(versions.compactPointer)
    {
      InstallEdit(edit, 1);
      imm := None;
    }

    /** Allocates n file numbers and applies the edit that uses them. */
    method InstallEdit(edit: VersionEdit, n: nat)
      requires versions.Valid() && versions.logNumber <= logfileNumber < versions.nextFileNumber
      requires Legal(versions.EverFiles(), Abs(versions.current), versions.nextFileNumber + n, edit)
      requires edit.logNumber.None? || edit.logNumber == Some(logfileNumber)
      modifies versions
      ensures versions.Valid() && versions.logNumber <= logfileNumber
      ensures versions.nextFileNumber == old(versions.nextFileNumber) + n
      ensures versions.lastSequence == old(versions.lastSequence)
      ensures Abs(versions.current) == CurrentAfter(old(Abs(versions.current)), edit)
      ensures versions.logNumber == if edit.logNumber.Some? then logfileNumber else old(versions.logNumber)
      ensures versions.compactPointer == PointersAfter(old(versions.compactPointer), edit.compactPointers)
    {
      for i := 0 to n
        invariant versions.Valid() && versions.nextFileNumber == old(versions.nextFileNumber) + i
        invariant versions.current == old(versions.current) && versions.EverFiles() == old(versions.EverFiles())
        invariant versions.logNumber == old(versions.logNumber) && versions.lastSequence == old(versions.lastSequence)
        invariant versions.compactPointer == old(versions.compactPointer)
      {
        var number := versions.NewFileNumber();
      }
      versions.LogAndApply(edit);
    }

    lemma PickedNoOverlap(files: seq<seq<File>>, f: File, lvl: nat)
      requires |files| == NUM_LEVELS && lvl < NUM_LEVELS
      requires lvl > 0 ==> forall i, g :: 0 <= i <= lvl && g in files[i] ==>
          !Meets(g, Some(f.smallest.user), Some(f.largest.user))
      ensures lvl > 0 ==> forall i :: 0 <= i <= lvl ==> NoOverlap(Abs(files)[i], f)
    {
      if lvl > 0 {
        forall i | 0 <= i <= lvl ensures NoOverlap(Abs(files)[i], f) {
          forall g | g in Abs(files)[i] ensures !Overlaps(g, f.smallest.user, f.largest.user) {
            assert g in files[i];
            assert !Meets(g, Some(f.smallest.user), Some(f.largest.user));
          }
        }
      }
    }

    lemma NewFileIsLegal(ever: seq<set<File>>, current: seq<set<File>>, number: nat, e: VersionEdit)
      requires Descends(ever, current, number)
      requires e.deletedFiles == [] && e.compactPointers == []
      requires e.newFiles == [] ||
          (|e.newFiles| == 1 && e.newFiles[0].0 < NUM_LEVELS && e.newFiles[0].1.number == number)
      ensures Legal(ever, current, number + 1, e)
    {}

    // ---- Compaction ------------------------------------------------------------------------------------

    /** The files a compaction picks satisfy the model's conditions (see `PickedIsGood`). */
    lemma PickedIsGoodHere(level: nat, ins0: seq<File>, ins1: seq<File>)
      requires Valid() && level + 1 < NUM_LEVELS && Picked(versions.current, level, ins0, ins1)
      ensures GoodInputs(Abs(versions.current), level, Elements(ins0), Elements(ins1))
    {
      var db := State();
      VersionIsOk(versions.current, versions.nextFileNumber);
      AllUnique(db, history);
      assert Entries(db.levels[level]) <= All(db) by {
        assert Entries(db.levels[level]) <= Span(db.levels, 0, NUM_LEVELS);
      }
      PickedIsGood(versions.current, level, ins0, ins1);
    }

    /** The merged input stream is well defined: unique keys, bounded sequence numbers. */
    lemma InputsOk(level: nat, ins0: seq<File>, ins1: seq<File>)
      requires Valid() && GoodInputs(Abs(versions.current), level, Elements(ins0), Elements(ins1))
      ensures forall f :: f in ins0 + ins1 ==> WellFormed(f)
      ensures UniqueSeqs(Entries(Elements(ins0 + ins1)))
      ensures forall e :: e in Entries(Elements(ins0 + ins1)) ==> e.sn <= MAX_SEQUENCE
      ensures Elements(ins0 + ins1) == Elements(ins0) + Elements(ins1)
    {
      var db := State();
      AllUnique(db, history);
      forall e | e in Entries(Elements(ins0 + ins1)) ensures e in All(db) && e.sn <= MAX_SEQUENCE {
        var f :| f in ins0 + ins1 && e in f.entries;
        var i := if f in ins0 then level else level + 1;
        assert f in Elements(ins0) || f in Elements(ins1);
        assert e in Entries(db.levels[i]);
        assert e in Span(db.levels, 0, NUM_LEVELS);
        SeqsBounded(db, history, i, f);
      }
    }

    /** MakeInputIterator: the entries of all inputs in key order. */
    static method MakeInputIterator(files: seq<File>) returns (input: seq<Entry>)
      requires UniqueSeqs(Entries(Elements(files)))
      ensures Sorted(input) && Elements(input) == Entries(Elements(files))
    {
      input := [];
      for i := 0 to |files|
        invariant Sorted(input) && Elements(input) == Entries(Elements(files[..i]))
      {
        MoreFiles(files, i);
        input := MergeFile(input, files[i].entries, Entries(Elements(files)));
      }
      assert files[..|files|] == files;
    }

    static method MergeFile(input: seq<Entry>, es: seq<Entry>, ghost all: set<Entry>) returns (r: seq<Entry>)
      requires Sorted(input) && UniqueSeqs(all) && Elements(input) + Elements(es) <= all
      ensures Sorted(r) && Elements(r) == Elements(input) + Elements(es)
    {
      r := input;
      for j := 0 to |es|
        invariant Sorted(r) && Elements(r) == Elements(input) + Elements(es[..j])
      {
        assert es[..j + 1] == es[..j] + [es[j]];
        MergeNext(r, es[j], all);
        r := Insert(r, es[j]);
      }
      assert es[..|es|] == es;
    }

    static lemma MergeNext(r: seq<Entry>, e: Entry, all: set<Entry>)
      requires Sorted(r) && UniqueSeqs(all) && Elements(r) + {e} <= all
      ensures Sorted(Insert(r, e)) && Elements(Insert(r, e)) == Elements(r) + {e}
    {
      forall x | x in r && x.user == e.user && x.sn == e.sn ensures x == e { assert x in Elements(r) + {e}; }
      InsertSorted(r, e);
      InsertElements(r, e);
    }

    static lemma MoreFiles(files: seq<File>, i: nat)
      requires i < |files|
      ensures Entries(Elements(files[..i + 1])) == Entries(Elements(files[..i])) + Elements(files[i].entries)
      ensures Entries(Elements(files[..i + 1])) <= Entries(Elements(files))
    {
      assert files[..i + 1] == files[..i] + [files[i]];
      assert Elements(files[..i + 1]) == Elements(files[..i]) + {files[i]};
      EntriesUnion(Elements(files[..i]), {files[i]});
      assert Entries({files[i]}) == Elements(files[i].entries);
      assert Elements(files[..i + 1]) <= Elements(files);
    }

    static lemma OutputsAreGood(outputs: seq<File>, first: nat)
      requires OutputsOk(outputs, first, [])
      ensures GoodOutputs(Elements(outputs), first, first + |outputs|)
    {
      forall f, g | f in Elements(outputs) && g in Elements(outputs)
        ensures f.number == g.number ==> f == g
        ensures f != g ==> Apart(f, g)
      {
        var i :| 0 <= i < |outputs| && outputs[i] == f;
        var j :| 0 <= j < |outputs| && outputs[j] == g;
      }
    }

    /** Merges the inputs and runs the drop loop. */
    static method CompactFiles(files: seq<seq<File>>, level: nat, inputs: seq<File>, grandparents: seq<File>,
                               smallest: nat, first: nat, maxFileSize: nat, fileSize: (seq<Entry>, bool) -> nat)
      returns (outputs: seq<File>)
      requires |files| == NUM_LEVELS && (forall i :: 1 <= i < NUM_LEVELS ==> SortedFiles(files[i]))
      requires UniqueSeqs(Entries(Elements(inputs))) && smallest < MAX_SEQUENCE
      requires forall e :: e in Entries(Elements(inputs)) ==> e.sn <= MAX_SEQUENCE
      ensures GoodOutputs(Elements(outputs), first, first + |outputs|)
      ensures Entries(Elements(outputs))
           == Kept(Entries(Elements(inputs)), smallest, Covered(Deeper(Abs(files), level + 2)))
      ensures WellCutOver(outputs, Entries(Elements(inputs)), grandparents, maxFileSize, fileSize)
    {
      hide WellCut;
      var c := new Compaction(files, level, grandparents, maxFileSize);
      var input := MakeInputIterator(inputs);
      StreamOk(input);
      outputs := DoCompactionWork(c, input, smallest, first, fileSize);
      OutputsHoldKept(outputs, first, input, smallest, Covered(Deeper(Abs(files), level + 2)));
    }

    static lemma StreamOk(input: seq<Entry>)
      requires Sorted(input) && UniqueSeqs(Elements(input)) && forall e :: e in Elements(input) ==> e.sn <= MAX_SEQUENCE
      ensures Stream(input)
    {
      assert forall e :: e in input ==> e in Elements(input);
    }

    static lemma OutputsHoldKept(outputs: seq<File>, first: nat, input: seq<Entry>, smallest: nat,
        covered: iset<UserKey>)
      requires Stream(input) && OutputsOk(outputs, first, [])
      requires Flat(outputs) == KeptSeq(input, |input|, smallest, covered)
      ensures GoodOutputs(Elements(outputs), first, first + |outputs|)
      ensures Entries(Elements(outputs)) == Kept(Elements(input), smallest, covered)
    {
      KeptSeqIsKept(input, smallest, covered);
      FlatEntries(outputs);
      OutputsAreGood(outputs, first);
    }

    method RunCompaction(level: nat, ins0: seq<File>, ins1: seq<File>, grandparents: seq<File>)
      returns (outputs: seq<File>)
      requires Valid() && GoodInputs(Abs(versions.current), level, Elements(ins0), Elements(ins1))
      ensures GoodOutputs(Elements(outputs), versions.nextFileNumber, versions.nextFileNumber + |outputs|)
      ensures Entries(Elements(outputs)) == Survivors(State(), level, Elements(ins0), Elements(ins1))
      ensures WellCutOver(outputs, Entries(Elements(ins0) + Elements(ins1)), grandparents, maxFileSize, fileSize)
    {
      hide WellCutOver;
      var smallest := if snapshots == [] then versions.lastSequence else snapshots[0];
      VersionIsOk(versions.current, versions.nextFileNumber);
      InputsOk(level, ins0, ins1);
      outputs := CompactFiles(versions.current, level, ins0 + ins1, grandparents, smallest,
                              versions.nextFileNumber, maxFileSize, fileSize);
    }

    static lemma CompactionIsLegal(ever: seq<set<File>>, levels: seq<set<File>>, next: nat, level: nat,
                                   ins0: seq<File>, ins1: seq<File>, outs: seq<File>, largest: IKey)
      requires Descends(ever, levels, next) && level + 1 < NUM_LEVELS
      requires GoodOutputs(Elements(outs), next, next + |outs|)
      ensures Legal(ever, levels, next + |outs|, CompactionEdit(level, ins0, ins1, outs, largest))
      ensures forall f :: f in outs ==> f.number !in Numbers(levels[level + 1])
    {
      var e := CompactionEdit(level, ins0, ins1, outs, largest);
      forall p | p in e.newFiles ensures p.1 in Elements(outs) && p.0 == level + 1 {}
      forall f | f in outs ensures f.number !in Numbers(levels[level + 1]) { assert f in Elements(outs); }
    }

    static lemma InvFiles(db: Db, h: seq<Op>)
      requires Shape(db, h)
      ensures FilesOk(db.levels, db.nextFile)
    {}

    /** DoCompactionWork and InstallCompactionResults for picked inputs.  Readers do not notice if and
        only if no dropped marker uncovers a value in a file of level + 1 that is left out. */
    method DoCompaction(level: nat, ins0: seq<File>, ins1: seq<File>, grandparents: seq<File>, largest: IKey)
      returns (outputs: seq<File>)
      requires Valid() && level + 1 < NUM_LEVELS && Picked(versions.current, level, ins0, ins1)
      modifies this, versions
      ensures Valid() && history == old(history)
      ensures CompactStep(old(State()), State(), level, Elements(ins0), Elements(ins1), Elements(outputs))
      ensures WellCutOver(outputs, Entries(Elements(ins0) + Elements(ins1)), grandparents, maxFileSize, fileSize)
      ensures PointerMoved(old(versions.compactPointer), versions.compactPointer, level, largest)
      ensures old(Faithful()) ==> (Faithful() <==> NoMarkerLost(old(State()), level, Elements(ins1)))
      ensures old(Faithful()) && BoundaryClosed(old(State()).levels, level, Elements(ins1)) ==> Faithful()
    {
      hide Shape, ViewsKept, VersionSet.Valid, Sorted, Picked, NoMarkerLost, BoundaryClosed, WellCutOver;
      ghost var before := State();
      PickedIsGoodHere(level, ins0, ins1);
      InvFiles(before, history);
      outputs := RunCompaction(level, ins0, ins1, grandparents);
      InstallCompactionResults(level, ins0, ins1, outputs, largest);
      AfterCompaction(before, State(), level, ins0, ins1, outputs);
    }

    lemma AfterCompaction(a: Db, b: Db, level: nat, ins0: seq<File>, ins1: seq<File>, outs: seq<File>)
      requires Shape(a, history) && CompactStep(a, b, level, Elements(ins0), Elements(ins1), Elements(outs))
      ensures Shape(b, history)
      ensures ViewsKept(a, history) ==> (ViewsKept(b, history) <==> NoMarkerLost(a, level, Elements(ins1)))
      ensures BoundaryClosed(a.levels, level, Elements(ins1)) ==> NoMarkerLost(a, level, Elements(ins1))
    {
      CompactionViews(a, b, history, level, Elements(ins0), Elements(ins1), Elements(outs));
      if BoundaryClosed(a.levels, level, Elements(ins1)) { BoundarySuffices(a, level, Elements(ins1)); }
    }

    /** InstallCompactionResults. */
    method InstallCompactionResults(level: nat, ins0: seq<File>, ins1: seq<File>, outputs: seq<File>, largest: IKey)
      requires FieldsOk() && level + 1 < NUM_LEVELS && FilesOk(Abs(versions.current), versions.nextFileNumber)
      requires Elements(ins0) <= Abs(versions.current)[level] && Elements(ins1) <= Abs(versions.current)[level + 1]
      requires GoodOutputs(Elements(outputs), versions.nextFileNumber, versions.nextFileNumber + |outputs|)
      modifies versions
      ensures FieldsOk()
      ensures State() == old(State()).(
                levels := Install(old(State()).levels, level, Elements(ins0), Elements(ins1), Elements(outputs)),
                nextFile := old(State()).nextFile + |outputs|)
      ensures PointerMoved(old(versions.compactPointer), versions.compactPointer, level, largest)
    {
      ghost var before := State();
      var edit := CompactionEdit(level, ins0, ins1, outputs, largest);
      CompactionIsLegal(versions.EverFiles(), before.levels, before.nextFile, level, ins0, ins1, outputs, largest);
      CompactionInstalls(before.levels, before.nextFile, level, ins0, ins1, outputs, largest);
      OnePointer(versions.compactPointer, level, largest);
      InstallOutputs(edit, |outputs|);
    }

    method InstallOutputs(edit: VersionEdit, n: nat)
      requires FieldsOk() && edit.logNumber.None?
      requires Legal(versions.EverFiles(), Abs(versions.current), versions.nextFileNumber + n, edit)
      modifies versions
      ensures FieldsOk()
      ensures State() == old(State()).(levels := CurrentAfter(old(State()).levels, edit),
                                       nextFile := old(State()).nextFile + n)
      ensures versions.compactPointer == PointersAfter(old(versions.compactPointer), edit.compactPointers)
    {
      InstallEdit(edit, n);
    }

    /** The next compaction of the level goes on after its largest key; the other levels are as before. */
    static predicate PointerMoved(before: seq<Option<IKey>>, after: seq<Option<IKey>>, level: nat, largest: IKey) {
      level < |before| && after == before[level := Some(largest)]
    }

    static lemma OnePointer(ps: seq<Option<IKey>>, level: nat, largest: IKey)
      requires level < |ps|
      ensures PointersAfter(ps, [(level, largest)]) == ps[level := Some(largest)]
    {
      assert PointersAfter(ps, []) == ps;
      assert [(level, largest)][..0] == [];
    }

    /** A trivial move (BackgroundCompaction): the one input file changes level. */
    method TrivialMove(level: nat, f: File, largest: IKey)
      requires Valid() && level + 1 < NUM_LEVELS && Picked(versions.current, level, [f], [])
      modifies this, versions
      ensures Valid() && history == old(history) && MoveStep(old(State()), State(), level, f)
      ensures PointerMoved(old(versions.compactPointer), versions.compactPointer, level, largest)
      ensures old(Faithful()) ==> Faithful()
    {
      ghost var before := State();
      PickedIsGoodHere(level, [f], []);
      assert Elements([f]) == {f} && Elements<File>([]) == {};
      MoveFile(level, f, largest);
      MoveKeeps(before, State(), history, level, f);
    }

    method MoveFile(level: nat, f: File, largest: IKey)
      requires FieldsOk() && level + 1 < NUM_LEVELS && FilesOk(Abs(versions.current), versions.nextFileNumber)
      requires f in Abs(versions.current)[level]
      modifies versions
      ensures FieldsOk()
      ensures State() == old(State()).(levels := Install(old(State()).levels, level, {f}, {}, {f}))
      ensures PointerMoved(old(versions.compactPointer), versions.compactPointer, level, largest)
    {
      hide *;
      MoveFits(level, f, largest);
      InstallOutputs(CompactionEdit(level, [f], [], [f], largest), 0);
    }

    /** The edit of a trivial move, and what becomes of the files and the pointers. */
    lemma MoveFits(level: nat, f: File, largest: IKey)
      requires FieldsOk() && level + 1 < NUM_LEVELS && FilesOk(Abs(versions.current), versions.nextFileNumber)
      requires f in Abs(versions.current)[level]
      ensures var edit, levels := CompactionEdit(level, [f], [], [f], largest), Abs(versions.current);
              && levels == State().levels && edit.logNumber.None?
              && Legal(versions.EverFiles(), levels, versions.nextFileNumber + 0, edit)
              && CurrentAfter(levels, edit) == Install(levels, level, {f}, {}, {f})
              && PointerMoved(versions.compactPointer, PointersAfter(versions.compactPointer, edit.compactPointers),
                level, largest)
    {
      var levels, next := Abs(versions.current), versions.nextFileNumber;
      MoveIsLegal(versions.EverFiles(), levels, next, level, f, largest);
      MoveInstalls(levels, next, level, f, largest);
      OnePointer(versions.compactPointer, level, largest);
    }

    static lemma MoveInstalls(levels: seq<set<File>>, next: nat, level: nat, f: File, largest: IKey)
      requires FilesOk(levels, next) && level + 1 < NUM_LEVELS && f in levels[level]
      requires f.number !in Numbers(levels[level + 1])
      ensures CurrentAfter(levels, CompactionEdit(level, [f], [], [f], largest)) == Install(levels, level, {f}, {}, {f})
    {
      assert Elements([f]) == {f} && Elements<File>([]) == {};
      CompactionInstalls(levels, next, level, [f], [], [f], largest);
    }

    static lemma MoveIsLegal(ever: seq<set<File>>, levels: seq<set<File>>, next: nat, level: nat, f: File,
        largest: IKey)
      requires Descends(ever, levels, next) && level + 1 < NUM_LEVELS && f in levels[level]
      ensures Legal(ever, levels, next, CompactionEdit(level, [f], [], [f], largest))
      ensures f.number !in Numbers(levels[level + 1])
    {
      var e := CompactionEdit(level, [f], [], [f], largest);
      assert e.newFiles == [(level + 1, f)];
      assert e.deletedFiles == [(level, f.number)];
      assert Moved(levels, e, level + 1, f);
      assert levels[level + 1] <= ever[level + 1] && levels[level] <= ever[level];
    }

    method GetSnapshot() returns (s: nat)
      requires Valid()
      modifies this
      ensures Valid() && history == old(history) && s == |history| && SnapshotStep(old(State()), State())
      ensures old(Faithful()) ==> Faithful()
    {
      ghost var before := State();
      s := versions.lastSequence;
      snapshots := snapshots + [s];
      SnapshotKeeps(before, State(), history);
    }

    method ReleaseSnapshot(i: nat)
      requires Valid() && i < |snapshots|
      modifies this
      ensures Valid() && history == old(history) && ReleaseStep(old(State()), State(), i)
      ensures old(Faithful()) ==> Faithful()
    {
      ghost var before := State();
      snapshots := snapshots[..i] + snapshots[i + 1..];
      ReleaseKeeps(before, State(), history, i);
    }

    /** DBImpl::Get: memtable, immutable memtable, then the version.  The answer is that of the newest
        entry stored; as long as the views are kept, it is the value of k in the map the database was
        after the writes up to the snapshot. */
    method Get(k: UserKey, snapshot: Option<nat>) returns (r: Option<Bytes>)
      requires Valid() && (snapshot.Some? ==> snapshot.value in snapshots)
      ensures var s := if snapshot.Some? then snapshot.value else |history|;
              && s <= |history| && |State().levels| == NUM_LEVELS && r == Read(All(State()), k, s)
              && (Faithful() ==> r == Lookup(MapAt(history, s), k))
    {
      hide Answers, ViewsKept, Span, FilesOk, LevelOrder, Read, MapAt;
      var s := if snapshot.Some? then snapshot.value else versions.lastSequence;
      VersionIsOk(versions.current, versions.nextFileNumber);
      ghost var db := State();
      ghost var deep := Span(db.levels, 0, NUM_LEVELS);
      var found := SearchTable(mem, k, s);
      if found.NotFound? {
        if imm.Some? {
          found := SearchTable(imm.value, k, s);
        }
        if found.NotFound? {
          found := Version.Get(versions.current, versions.nextFileNumber, k, s);
          AnswersLayers(db.Imm(), deep, k, s, found);
        } else {
          AnswersLayers(db.Imm(), deep, k, s, found);
        }
      }
      AnswersLayers(db.mem, db.Imm() + deep, k, s, found);
      Answered(db, history, k, s, found);
      r := if found.Found? then Some(found.value) else None;
    }

    static lemma Answered(db: Db, h: seq<Op>, k: UserKey, s: nat, found: SaverState)
      requires Shape(db, h) && s <= |h| && Answers(All(db), k, s, found) && (s in db.snapshots || s == |h|)
      ensures var r := if found.Found? then Some(found.value) else None;
              r == Read(All(db), k, s) && (ViewsKept(db, h) ==> r == Lookup(MapAt(h, s), k))
    {
      AllUnique(db, h);
      AnswersRead(All(db), k, s, found);
      HistoryIsMap(h, s, k);
      assert s >= SmallestSnapshot(db);
    }
  }
}
