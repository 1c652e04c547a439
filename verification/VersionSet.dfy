/** Version edits, the MANIFEST and its recovery (db/version_set.cc:757-1116, db/version_edit.h). */
module VersionSets {
  import opened DbFormat
  import opened Files
  import opened Lsm
  import opened Version
  import opened VersionBuilder

  datatype VersionEdit = VersionEdit(
    logNumber: Option<nat>,
    prevLogNumber: Option<nat>,
    nextFileNumber: Option<nat>,
    lastSequence: Option<nat>,
    compactPointers: seq<(nat, IKey)>,
    deletedFiles: seq<(nat, nat)>,
    newFiles: seq<(nat, File)>)

  const EMPTY_EDIT: VersionEdit := VersionEdit(None, None, None, None, [], [], [])

  predicate LevelsInRange(e: VersionEdit) {
    && (forall p :: p in e.compactPointers ==> p.0 < NUM_LEVELS)
    && (forall p :: p in e.deletedFiles ==> p.0 < NUM_LEVELS)
    && (forall p :: p in e.newFiles ==> p.0 < NUM_LEVELS)
  }

  ghost function DeletedAt(ds: seq<(nat, nat)>, lvl: nat): set<nat> { set d | d in ds && d.0 == lvl :: d.1 }

  ghost function AddedAt(ns: seq<(nat, File)>, lvl: nat): seq<File> {
    if ns == [] then []
    else AddedAt(ns[..|ns| - 1], lvl) + if ns[|ns| - 1].0 == lvl then [ns[|ns| - 1].1] else []
  }

  lemma {:induction false} AddedAtMembers(ns: seq<(nat, File)>, lvl: nat, f: File)
    ensures f in AddedAt(ns, lvl) <==> (lvl, f) in ns
  {
    if ns != [] {
      var n := |ns| - 1;
      AddedAtMembers(ns[..n], lvl, f);
      assert ns == ns[..n] + [ns[n]];
    }
  }

  /** What an edit does to one level. */
  ghost function At(e: VersionEdit, lvl: nat): LevelEdit {
    LevelEdit(DeletedAt(e.deletedFiles, lvl), AddedAt(e.newFiles, lvl))
  }

  function PointersAfter(ps: seq<Option<IKey>>, updates: seq<(nat, IKey)>): (r: seq<Option<IKey>>)
    requires forall p :: p in updates ==> p.0 < |ps|
    ensures |r| == |ps|
  {
    if updates == [] then ps
    else
      var n := |updates| - 1;
      PointersAfter(ps, updates[..n])[updates[n].0 := Some(updates[n].1)]
  }

  /** VersionSet::Builder: a base version and, per level, a deleted set and an added set. */
  class Builder {
    const base: seq<seq<File>>
    var deleted: seq<set<nat>>
    var added: seq<seq<File>>

    ghost predicate Valid()
      reads this
    {
      && |base| == |deleted| == |added| == NUM_LEVELS
      && (forall i :: 0 <= i < NUM_LEVELS ==> BySmallest(base[i]) && BySmallest(added[i]))
    }

    ghost function State(lvl: nat): LevelState
      requires Valid() && lvl < NUM_LEVELS
      reads this
    {
      LevelState(deleted[lvl], Elements(added[lvl]))
    }

    constructor (base: seq<seq<File>>)
      requires |base| == NUM_LEVELS && forall i :: 0 <= i < NUM_LEVELS ==> BySmallest(base[i])
      ensures Valid() && this.base == base
      ensures forall i :: 0 <= i < NUM_LEVELS ==> State(i) == UNTOUCHED
    {
      this.base := base;
      deleted := [{}, {}, {}, {}, {}, {}, {}];
      added := [[], [], [], [], [], [], []];
    }

    /** Builder::Apply, the file part. */
    method Apply(e: VersionEdit)
      requires Valid() && LevelsInRange(e)
      requires forall i :: 0 <= i < NUM_LEVELS ==> NumbersUnique(Elements(added[i]) + Elements(AddedAt(e.newFiles, i)))
      modifies this
      ensures Valid()
      ensures forall i :: 0 <= i < NUM_LEVELS ==> State(i) == ApplyTo(old(State(i)), At(e, i))
    {
      ApplyDeletions(e);
      ApplyNewFiles(e);
    }

    method ApplyDeletions(e: VersionEdit)
      requires Valid() && LevelsInRange(e)
      modifies this`deleted
      ensures Valid()
      ensures forall i :: 0 <= i < NUM_LEVELS ==> deleted[i] == old(deleted[i]) + DeletedAt(e.deletedFiles, i)
    {
      ghost var d0 := deleted;
      for k := 0 to |e.deletedFiles|
        invariant Valid()
        invariant forall i :: 0 <= i < NUM_LEVELS ==> deleted[i] == d0[i] + DeletedAt(e.deletedFiles[..k], i)
      {
        var d := e.deletedFiles[k];
        assert e.deletedFiles[..k + 1] == e.deletedFiles[..k] + [d];
        forall i ensures DeletedAt(e.deletedFiles[..k + 1], i)
                      == DeletedAt(e.deletedFiles[..k], i) + if i == d.0 then {d.1} else {}
        { DeletedSnoc(e.deletedFiles[..k], d, i); }
        deleted := deleted[d.0 := deleted[d.0] + {d.1}];
      }
      assert e.deletedFiles[..|e.deletedFiles|] == e.deletedFiles;
    }

    method ApplyNewFiles(e: VersionEdit)
      requires Valid() && LevelsInRange(e)
      requires forall i :: 0 <= i < NUM_LEVELS ==> NumbersUnique(Elements(added[i]) + Elements(AddedAt(e.newFiles, i)))
      modifies this
      ensures Valid()
      ensures forall i :: 0 <= i < NUM_LEVELS ==>
        NewSoFar(old(deleted[i]), old(added[i]), e.newFiles, i, deleted[i], added[i])
    {
      hide BySmallest, NumbersUnique;
      ghost var d1, a1 := deleted, added;
      NoneNew(d1, a1, e);
      for k := 0 to |e.newFiles|
        invariant Valid()
        invariant forall i :: 0 <= i < NUM_LEVELS ==>
          NewSoFar(d1[i], a1[i], e.newFiles[..k], i, deleted[i], added[i])
      {
        var n := e.newFiles[k];
        ApplyNew(d1[n.0], a1[n.0], e.newFiles, k, deleted[n.0], added[n.0]);
        deleted := deleted[n.0 := deleted[n.0] - {n.1.number}];
        var fs := InsertFile(added[n.0], n.1);
        added := added[n.0 := fs];
        assert e.newFiles[..k + 1][..k] == e.newFiles[..k];
      }
      assert e.newFiles[..|e.newFiles|] == e.newFiles;
    }

    static lemma NoneNew(d: seq<set<nat>>, a: seq<seq<File>>, e: VersionEdit)
      requires |d| == |a| == NUM_LEVELS
      ensures forall i :: 0 <= i < NUM_LEVELS ==> NewSoFar(d[i], a[i], e.newFiles[..0], i, d[i], a[i])
    {}

    static ghost predicate NewSoFar(d: set<nat>, a: seq<File>, ns: seq<(nat, File)>, lvl: nat, d': set<nat>,
        a': seq<File>) {
      && d' == d - Numbers(Elements(AddedAt(ns, lvl)))
      && Elements(a') == Elements(a) + Elements(AddedAt(ns, lvl))
    }

    static lemma DeletedSnoc(ds: seq<(nat, nat)>, d: (nat, nat), i: nat)
      ensures DeletedAt(ds + [d], i) == DeletedAt(ds, i) + if i == d.0 then {d.1} else {}
    {}

    static lemma ApplyNew(d: set<nat>, a: seq<File>, ns: seq<(nat, File)>, k: nat, d': set<nat>, a': seq<File>)
      requires k < |ns| && NewSoFar(d, a, ns[..k], ns[k].0, d', a')
      requires NumbersUnique(Elements(a) + Elements(AddedAt(ns, ns[k].0)))
      ensures NumbersUnique(Elements(a') + {ns[k].1})
      ensures d' - {ns[k].1.number} == d - Numbers(Elements(AddedAt(ns[..k + 1], ns[k].0)))
      ensures Elements(a') + {ns[k].1} == Elements(a) + Elements(AddedAt(ns[..k + 1], ns[k].0))
    {
      var lvl, f := ns[k].0, ns[k].1;
      AddedNext(ns, k);
      NumbersOne(Elements(AddedAt(ns[..k], lvl)), f);
      hide AddedAt, Numbers;
      forall g | g in Elements(a') + {f} ensures g in Elements(a) + Elements(AddedAt(ns, lvl)) {
        AddedAtMembers(ns, lvl, g);
        AddedAtMembers(ns[..k], lvl, g);
      }
    }

    static lemma AddedNext(ns: seq<(nat, File)>, k: nat)
      requires k < |ns|
      ensures Elements(AddedAt(ns[..k + 1], ns[k].0)) == Elements(AddedAt(ns[..k], ns[k].0)) + {ns[k].1}
    {
      assert ns[..k + 1][..k] == ns[..k];
      assert AddedAt(ns[..k + 1], ns[k].0) == AddedAt(ns[..k], ns[k].0) + [ns[k].1];
    }

    static lemma NumbersOne(fs: set<File>, f: File)
      ensures Numbers(fs + {f}) == Numbers(fs) + {f.number}
    {}

    /** Builder::SaveTo. */
    method SaveTo() returns (v: seq<seq<File>>)
      requires Valid()
      requires forall i :: 0 <= i < NUM_LEVELS ==> Numbers(Elements(base[i])) !! Numbers(Elements(added[i]))
      ensures |v| == NUM_LEVELS
      ensures forall i :: 0 <= i < NUM_LEVELS ==>
          BySmallest(v[i]) && Elements(v[i]) == Saved(Elements(base[i]), State(i))
    {
      v := [];
      for lvl := 0 to NUM_LEVELS
        invariant |v| == lvl
        invariant forall i :: 0 <= i < lvl ==> BySmallest(v[i]) && Elements(v[i]) == Saved(Elements(base[i]), State(i))
      {
        var files := SaveLevel(base[lvl], added[lvl], deleted[lvl]);
        v := v + [files];
      }
    }
  }

  // ---- Which edits the store issues ----------------------------------------------------------------

  /** ever[i]: all files level i has held since the MANIFEST was started; current[i]: its files now.
      A file number names one file, and a file only ever moves to deeper levels. */
  ghost predicate Descends(ever: seq<set<File>>, current: seq<set<File>>, next: nat) {
    && |ever| == |current| == NUM_LEVELS
    && (forall i :: 0 <= i < NUM_LEVELS ==> current[i] <= ever[i])
    && (forall i, j, f, g :: 0 <= i < NUM_LEVELS && 0 <= j < NUM_LEVELS && f in ever[i] && g in ever[j] ==>
          f.number < next && (f.number == g.number ==> f == g))
    && (forall i, j, f :: 0 <= i < NUM_LEVELS && 0 <= j < NUM_LEVELS && f in ever[i] && f in current[j] ==> i <= j)
  }

  ghost predicate NewNumber(ever: seq<set<File>>, f: File) {
    forall i, g :: 0 <= i < |ever| && g in ever[i] ==> g.number != f.number
  }

  /** The edit takes f from a shallower level. */
  ghost predicate Moved(current: seq<set<File>>, e: VersionEdit, lvl: nat, f: File) {
    exists j :: 0 <= j < lvl && j < |current| && f in current[j] && (j, f.number) in e.deletedFiles
  }

  /** Every added file is new or comes down from a shallower level. */
  ghost predicate Legal(ever: seq<set<File>>, current: seq<set<File>>, next: nat, e: VersionEdit) {
    && LevelsInRange(e)
    && (forall p :: p in e.newFiles ==> p.1.number < next && (NewNumber(ever, p.1) || Moved(current, e, p.0, p.1)))
    && (forall p, q :: p in e.newFiles && q in e.newFiles && p.1.number == q.1.number ==> p == q)
  }

  /** A legal edit is fresh for every level. */
  lemma LegalIsFresh(ever: seq<set<File>>, current: seq<set<File>>, next: nat, e: VersionEdit, i: nat)
    requires Descends(ever, current, next) && Legal(ever, current, next, e) && i < NUM_LEVELS
    ensures Numbers(ever[i]) !! Numbers(Elements(At(e, i).added))
    ensures NumbersUnique(Elements(At(e, i).added))
  {
    forall f, g | f in Elements(At(e, i).added) && g in ever[i] ensures f.number != g.number {
      AddedAtMembers(e.newFiles, i, f);
    }
    forall f, g | f in Elements(At(e, i).added) && g in Elements(At(e, i).added) &&
        f.number == g.number ensures f == g {
      AddedAtMembers(e.newFiles, i, f);
      AddedAtMembers(e.newFiles, i, g);
    }
  }

  ghost function EverAfter(ever: seq<set<File>>, e: VersionEdit): (r: seq<set<File>>)
    requires |ever| == NUM_LEVELS
    ensures |r| == NUM_LEVELS
  {
    seq(NUM_LEVELS, i requires 0 <= i < NUM_LEVELS => ever[i] + Elements(At(e, i).added))
  }

  ghost function CurrentAfter(current: seq<set<File>>, e: VersionEdit): (r: seq<set<File>>)
    requires |current| == NUM_LEVELS
    ensures |r| == NUM_LEVELS
  {
    seq(NUM_LEVELS, i requires 0 <= i < NUM_LEVELS => Saved(current[i], ApplyTo(UNTOUCHED, At(e, i))))
  }

  /** A file of the new version is one the edit adds or one it leaves in place. */
  lemma CurrentAfterMember(ever: seq<set<File>>, current: seq<set<File>>, next: nat, e: VersionEdit, j: nat, f: File)
    requires Descends(ever, current, next) && Legal(ever, current, next, e) && j < NUM_LEVELS
    requires f in CurrentAfter(current, e)[j]
    ensures (j, f) in e.newFiles || (f in current[j] && (j, f.number) !in e.deletedFiles)
  {
    AddedAtMembers(e.newFiles, j, f);
    if f in current[j] && f !in Elements(At(e, j).added) {
      LegalIsFresh(ever, current, next, e, j);
      assert f.number in Numbers(ever[j]);
    }
  }

  lemma DescendsAt(ever: seq<set<File>>, current: seq<set<File>>, next: nat, e: VersionEdit, i: nat, j: nat, f: File)
    requires Descends(ever, current, next) && Legal(ever, current, next, e) && i < NUM_LEVELS && j < NUM_LEVELS
    requires f in EverAfter(ever, e)[i] && f in CurrentAfter(current, e)[j]
    ensures i <= j
  {
    AddedAtMembers(e.newFiles, i, f);
    CurrentAfterMember(ever, current, next, e, j, f);
  }

  lemma LegalKeepsDescends(ever: seq<set<File>>, current: seq<set<File>>, next: nat, e: VersionEdit)
    requires Descends(ever, current, next) && Legal(ever, current, next, e)
    ensures Descends(EverAfter(ever, e), CurrentAfter(current, e), next)
  {
    var ever', current' := EverAfter(ever, e), CurrentAfter(current, e);
    forall i, f: File | 0 <= i < NUM_LEVELS && f in ever'[i] ensures f in ever[i] || (i, f) in e.newFiles {
      AddedAtMembers(e.newFiles, i, f);
    }
    forall i, j, f: File, g: File | 0 <= i < NUM_LEVELS && 0 <= j < NUM_LEVELS && f in ever'[i] && g in ever'[j]
      ensures f.number < next && (f.number == g.number ==> f == g)
    {
      SameNumber(ever, current, next, e, i, j, f, g);
    }
    forall i, j, f | 0 <= i < NUM_LEVELS && 0 <= j < NUM_LEVELS && f in ever'[i] && f in current'[j] ensures i <= j {
      DescendsAt(ever, current, next, e, i, j, f);
    }
  }

  lemma SameNumber(ever: seq<set<File>>, current: seq<set<File>>, next: nat, e: VersionEdit,
                   i: nat, j: nat, f: File, g: File)
    requires Descends(ever, current, next) && Legal(ever, current, next, e) && i < NUM_LEVELS && j < NUM_LEVELS
    requires f in ever[i] || (i, f) in e.newFiles
    requires g in ever[j] || (j, g) in e.newFiles
    ensures f.number < next && (f.number == g.number ==> f == g)
  {
    hide WellFormed, FilesOk;
    if f in ever[i] && g !in ever[j] && f.number == g.number {
      var k :| 0 <= k < j && g in current[k] && (k, g.number) in e.deletedFiles;
      assert g in ever[k];
    } else if f !in ever[i] && g in ever[j] && f.number == g.number {
      var k :| 0 <= k < i && f in current[k] && (k, f.number) in e.deletedFiles;
      assert f in ever[k];
    }
  }

  // ---- The MANIFEST ----------------------------------------------------------------------------------

  ghost function LevelEdits(records: seq<VersionEdit>, lvl: nat): (r: seq<LevelEdit>)
    ensures |r| == |records|
  {
    seq(|records|, i requires 0 <= i < |records| => At(records[i], lvl))
  }

  /** The files every level has held according to the records. */
  ghost function Ever(records: seq<VersionEdit>): (r: seq<set<File>>)
    ensures |r| == NUM_LEVELS
  {
    seq(NUM_LEVELS, i requires 0 <= i < NUM_LEVELS => EverIn({}, LevelEdits(records, i)))
  }

  /** The files every level holds after applying and saving the records one version at a time. */
  ghost function Replayed(records: seq<VersionEdit>): (r: seq<set<File>>)
    ensures |r| == NUM_LEVELS
  {
    seq(NUM_LEVELS, i requires 0 <= i < NUM_LEVELS => OneAtATime({}, LevelEdits(records, i)))
  }

  function Later<T>(now: Option<T>, edit: Option<T>): Option<T> { if edit.Some? then edit else now }

  /** The scalar fields and compaction pointers, as the last record to set each left it. */
  datatype Scalars = Scalars(logNumber: Option<nat>, prevLogNumber: Option<nat>, nextFile: Option<nat>,
                             lastSequence: Option<nat>, pointers: seq<Option<IKey>>)

  const NO_SCALARS: Scalars := Scalars(None, None, None, None, [None, None, None, None, None, None, None])

  function ScalarsStep(s: Scalars, e: VersionEdit): (r: Scalars)
    requires |s.pointers| == NUM_LEVELS && LevelsInRange(e)
    ensures |r.pointers| == NUM_LEVELS
  {
    Scalars(Later(s.logNumber, e.logNumber), Later(s.prevLogNumber, e.prevLogNumber),
            Later(s.nextFile, e.nextFileNumber), Later(s.lastSequence, e.lastSequence),
            PointersAfter(s.pointers, e.compactPointers))
  }

  function ScalarsOf(records: seq<VersionEdit>): (r: Scalars)
    requires forall e :: e in records ==> LevelsInRange(e)
    ensures |r.pointers| == NUM_LEVELS
  {
    if records == [] then NO_SCALARS else ScalarsStep(ScalarsOf(records[..|records| - 1]), records[|records| - 1])
  }

  /** The records are well-formed and every one adds only numbers new to its level. */
  ghost predicate RecordsOk(records: seq<VersionEdit>) {
    && (forall e :: e in records ==> LevelsInRange(e))
    && (forall i :: 0 <= i < NUM_LEVELS ==> Fresh({}, LevelEdits(records, i)) && NumbersUnique(Ever(records)[i]))
  }

  /** A record of a legal edit extends the MANIFEST: it stays replayable and replays to the new version. */
  lemma RecordExtends(records: seq<VersionEdit>, next: nat, e: VersionEdit)
    requires RecordsOk(records) && Descends(Ever(records), Replayed(records), next)
    requires Legal(Ever(records), Replayed(records), next, e)
    ensures RecordsOk(records + [e])
    ensures Ever(records + [e]) == EverAfter(Ever(records), e)
    ensures Replayed(records + [e]) == CurrentAfter(Replayed(records), e)
    ensures Descends(Ever(records + [e]), Replayed(records + [e]), next)
  {
    LegalKeepsDescends(Ever(records), Replayed(records), next, e);
    forall i | 0 <= i < NUM_LEVELS
      ensures EverIn({}, LevelEdits(records + [e], i)) == Ever(records)[i] + Elements(At(e, i).added)
      ensures OneAtATime({}, LevelEdits(records + [e], i)) == Saved(Replayed(records)[i], ApplyTo(UNTOUCHED, At(e, i)))
      ensures Fresh({}, LevelEdits(records + [e], i))
    {
      RecordExtendsLevel(records, e, i);
      LegalIsFresh(Ever(records), Replayed(records), next, e, i);
    }
    assert Ever(records + [e]) == EverAfter(Ever(records), e);
    assert Replayed(records + [e]) == CurrentAfter(Replayed(records), e);
  }

  lemma RecordExtendsLevel(records: seq<VersionEdit>, e: VersionEdit, i: nat)
    requires i < NUM_LEVELS
    ensures EverIn({}, LevelEdits(records + [e], i)) == EverIn({}, LevelEdits(records, i)) + Elements(At(e, i).added)
    ensures OneAtATime({}, LevelEdits(records + [e], i))
         == Saved(OneAtATime({}, LevelEdits(records, i)), ApplyTo(UNTOUCHED, At(e, i)))
    ensures Fresh({}, LevelEdits(records, i))
         && Numbers(EverIn({}, LevelEdits(records, i))) !! Numbers(Elements(At(e, i).added))
         ==> Fresh({}, LevelEdits(records + [e], i))
  {
    var es, es' := LevelEdits(records, i), LevelEdits(records + [e], i);
    assert es'[..|es|] == es && es'[|es|] == At(e, i);
    if Fresh({}, es) && Numbers(EverIn({}, es)) !! Numbers(Elements(At(e, i).added)) {
      forall k | 0 <= k < |es'| ensures Numbers(EverIn({}, es'[..k])) !! Numbers(Elements(es'[k].added)) {
        assert k < |es| ==> es'[..k] == es[..k] && es'[k] == es[k];
      }
    }
  }

  /** The files of one level as new-file records. */
  function NewFilesAt(files: seq<File>, lvl: nat): (r: seq<(nat, File)>)
    ensures |r| == |files| && forall i :: 0 <= i < |files| ==> r[i] == (lvl, files[i])
  {
    seq(|files|, i requires 0 <= i < |files| => (lvl, files[i]))
  }

  /** All files of levels < n as new-file records. */
  function NewFilesBelow(current: seq<seq<File>>, n: nat): seq<(nat, File)>
    requires n <= |current|
  {
    if n == 0 then [] else NewFilesBelow(current, n - 1) + NewFilesAt(current[n - 1], n - 1)
  }

  lemma {:induction false} NewFilesBelowMembers(current: seq<seq<File>>, n: nat, i: nat, f: File)
    requires n <= |current|
    ensures (i, f) in NewFilesBelow(current, n) <==> i < n && f in current[i]
  {
    if n > 0 {
      NewFilesBelowMembers(current, n - 1, i, f);
      var r := NewFilesAt(current[n - 1], n - 1);
      if i == n - 1 && f in current[i] {
        var k :| 0 <= k < |current[i]| && current[i][k] == f;
        assert r[k] == (i, f);
      }
    }
  }

  function PointersBelow(ps: seq<Option<IKey>>, n: nat): seq<(nat, IKey)>
    requires n <= |ps|
  {
    if n == 0 then [] else PointersBelow(ps, n - 1) + if ps[n - 1].Some? then [(n - 1, ps[n - 1].value)] else []
  }

  lemma PointersSnoc(ps: seq<Option<IKey>>, us: seq<(nat, IKey)>, u: (nat, IKey))
    requires (forall p :: p in us ==> p.0 < |ps|) && u.0 < |ps|
    ensures PointersAfter(ps, us + [u]) == PointersAfter(ps, us)[u.0 := Some(u.1)]
  {
    assert (us + [u])[..|us|] == us;
  }

  lemma {:induction false} PointersBelowRange(ps: seq<Option<IKey>>, n: nat)
    requires n <= |ps|
    ensures forall p :: p in PointersBelow(ps, n) ==> p.0 < n
  {
    if n > 0 { PointersBelowRange(ps, n - 1); }
  }

  lemma NoPointers(ps: seq<Option<IKey>>)
    ensures PointersBelow(ps, 0) == [] && PointersAfter(NO_SCALARS.pointers, []) == NO_SCALARS.pointers
  {}

  lemma PointersStep(ps: seq<Option<IKey>>, n: nat)
    requires 0 < n <= |ps|
    ensures PointersBelow(ps, n) == if ps[n - 1].Some? then PointersBelow(ps, n - 1) +
        [(n - 1, ps[n - 1].value)] else PointersBelow(ps, n - 1)
  {}

  lemma {:induction false} PointersRestored(ps: seq<Option<IKey>>, n: nat)
    requires n <= |ps| == NUM_LEVELS
    ensures forall p :: p in PointersBelow(ps, n) ==> p.0 < NUM_LEVELS
    ensures var r := PointersAfter(NO_SCALARS.pointers, PointersBelow(ps, n));
            forall i :: 0 <= i < NUM_LEVELS ==> r[i] == if i < n then ps[i] else None
  {
    hide PointersAfter, PointersBelow;
    PointersBelowRange(ps, n);
    if n == 0 {
      NoPointers(ps);
    } else {
      PointersBelowRange(ps, n - 1);
      PointersRestored(ps, n - 1);
      PointersStep(ps, n);
      if ps[n - 1].Some? {
        PointersSnoc(NO_SCALARS.pointers, PointersBelow(ps, n - 1), (n - 1, ps[n - 1].value));
      }
    }
  }

  /** WriteSnapshot: one record holding the current compaction pointers and files. */
  function SnapshotEdit(current: seq<seq<File>>, pointers: seq<Option<IKey>>): VersionEdit
    requires |current| == |pointers| == NUM_LEVELS
  {
    VersionEdit(None, None, None, None, PointersBelow(pointers, NUM_LEVELS), [], NewFilesBelow(current, NUM_LEVELS))
  }

  lemma SnapshotAt(current: seq<seq<File>>, pointers: seq<Option<IKey>>, i: nat)
    requires |current| == |pointers| == NUM_LEVELS && i < NUM_LEVELS
    ensures At(SnapshotEdit(current, pointers), i).deleted == {}
    ensures Elements(At(SnapshotEdit(current, pointers), i).added) == Elements(current[i])
  {
    var e := SnapshotEdit(current, pointers);
    forall f ensures f in At(e, i).added <==> f in current[i] {
      AddedAtMembers(e.newFiles, i, f);
      NewFilesBelowMembers(current, NUM_LEVELS, i, f);
    }
  }

  /** A MANIFEST that starts with a snapshot replays to it. */
  lemma SnapshotReplays(current: seq<seq<File>>, pointers: seq<Option<IKey>>, next: nat)
    requires |current| == |pointers| == NUM_LEVELS && Descends(Abs(current), Abs(current), next)
    ensures RecordsOk([SnapshotEdit(current, pointers)])
    ensures Ever([SnapshotEdit(current, pointers)]) == Abs(current) == Replayed([SnapshotEdit(current, pointers)])
    ensures ScalarsOf([SnapshotEdit(current, pointers)]) == NO_SCALARS.(pointers := pointers)
  {
    var e := SnapshotEdit(current, pointers);
    PointersRestored(pointers, NUM_LEVELS);
    forall p | p in e.newFiles ensures p.0 < NUM_LEVELS { NewFilesBelowMembers(current, NUM_LEVELS, p.0, p.1); }
    forall i | 0 <= i < NUM_LEVELS
      ensures EverIn({}, LevelEdits([e], i)) == Elements(current[i]) == OneAtATime({}, LevelEdits([e], i))
      ensures Fresh({}, LevelEdits([e], i)) && NumbersUnique(Elements(current[i]))
    {
      SnapshotAt(current, pointers, i);
      var es := LevelEdits([e], i);
      assert es[..0] == [] && es[0] == At(e, i);
      assert Abs(current)[i] == Elements(current[i]);
    }
    assert Ever([e]) == Abs(current);
    assert Replayed([e]) == Abs(current);
    assert [e][..0] == [];
  }

  const NO_FILES: seq<seq<File>> := [[], [], [], [], [], [], []]

  lemma EmptyVersion()
    ensures forall i :: 0 <= i < NUM_LEVELS ==> BySmallest(NO_FILES[i])
    ensures Descends(Abs(NO_FILES), Abs(NO_FILES), 2)
  {
    assert forall i :: 0 <= i < NUM_LEVELS ==> Abs(NO_FILES)[i] == {};
  }

  lemma ScalarsSnoc(records: seq<VersionEdit>, e: VersionEdit)
    requires (forall r :: r in records ==> LevelsInRange(r)) && LevelsInRange(e)
    ensures forall r :: r in records + [e] ==> LevelsInRange(r)
    ensures ScalarsOf(records + [e]) == ScalarsStep(ScalarsOf(records), e)
  {
    assert (records + [e])[..|records|] == records;
  }

  // ---- The code --------------------------------------------------------------------------------------

  class VersionSet {
    var current: seq<seq<File>>
    var compactPointer: seq<Option<IKey>>
    var nextFileNumber: nat
    var manifestFileNumber: nat
    var lastSequence: nat
    var logNumber: nat
    var prevLogNumber: nat
    /** The records of the MANIFEST, once it is open. */
    var manifest: Option<seq<VersionEdit>>

    ghost function EverFiles(): seq<set<File>>
      reads this
    {
      if manifest.Some? then Ever(manifest.value) else Abs(current)
    }

    ghost predicate Valid()
      reads this
    {
      && |current| == |compactPointer| == NUM_LEVELS
      && (forall i :: 0 <= i < NUM_LEVELS ==> BySmallest(current[i]))
      && Descends(EverFiles(), Abs(current), nextFileNumber)
      && (manifest.Some? ==> MatchesManifest(manifest.value) && PrefixesOk(manifest.value))
    }

    /** The MANIFEST describes this version set. */
    ghost predicate MatchesManifest(records: seq<VersionEdit>)
      requires |compactPointer| == NUM_LEVELS
      reads this
    {
      && RecordsOk(records)
      && Replayed(records) == Abs(current)
      && var s := ScalarsOf(records);
         && s.pointers == compactPointer
         && s.logNumber == Some(logNumber) && s.prevLogNumber == Some(prevLogNumber)
         && s.nextFile.Some? && s.nextFile.value <= nextFileNumber
         && Descends(Ever(records), Replayed(records), s.nextFile.value)
         && s.lastSequence.Some?
    }

    constructor ()
      ensures Valid() && current == NO_FILES && manifest.None?
      ensures nextFileNumber == 2 && lastSequence == logNumber == prevLogNumber == 0
      ensures compactPointer == NO_SCALARS.pointers
    {
      current := NO_FILES;
      compactPointer := [None, None, None, None, None, None, None];
      nextFileNumber, manifestFileNumber, lastSequence, logNumber, prevLogNumber := 2, 0, 0, 0, 0;
      manifest := None;
      new;
      EmptyVersion();
    }

    method NewFileNumber() returns (n: nat)
      requires Valid()
      modifies this`nextFileNumber
      ensures Valid() && n == old(nextFileNumber) && nextFileNumber == n + 1
    {
      n := nextFileNumber;
      nextFileNumber := nextFileNumber + 1;
    }

    /** The builder work of LogAndApply. */
    method BuildVersion(e: VersionEdit) returns (v: seq<seq<File>>)
      requires Valid() && Legal(EverFiles(), Abs(current), nextFileNumber, e)
      ensures |v| == NUM_LEVELS && (forall i :: 0 <= i < NUM_LEVELS ==> BySmallest(v[i]))
      ensures Abs(v) == CurrentAfter(Abs(current), e)
    {
      var b := new Builder(current);
      forall i | 0 <= i < NUM_LEVELS
        ensures NumbersUnique(Elements(b.added[i]) + Elements(AddedAt(e.newFiles, i)))
        ensures Numbers(Elements(current[i])) !! Numbers(Elements(At(e, i).added))
      {
        LegalIsFresh(EverFiles(), Abs(current), nextFileNumber, e, i);
        assert Abs(current)[i] <= EverFiles()[i];
        assert b.State(i) == UNTOUCHED;
        assert Numbers(Elements(current[i])) <= Numbers(EverFiles()[i]);
      }
      b.Apply(e);
      forall i | 0 <= i < NUM_LEVELS ensures Numbers(Elements(b.base[i])) !! Numbers(Elements(b.added[i])) {
        assert b.State(i) == ApplyTo(UNTOUCHED, At(e, i));
      }
      v := b.SaveTo();
    }

    /** The records replay to the current files and compaction pointers. */
    ghost predicate ReplaysTo(records: seq<VersionEdit>)
      reads this
    {
      && RecordsOk(records)
      && Replayed(records) == Abs(current)
      && Descends(Ever(records), Replayed(records), nextFileNumber)
      && ScalarsOf(records).pointers == compactPointer
    }

    /** Opens a new MANIFEST with a snapshot of the current version. */
    method OpenManifest()
      requires Valid()
      modifies this`manifest
      ensures manifest.Some? && ReplaysTo(manifest.value) && EverFiles() == old(EverFiles())
      ensures PrefixesOk(manifest.value)
      ensures old(manifest).Some? ==> manifest == old(manifest)
    {
      if manifest.None? {
        SnapshotReplays(current, compactPointer, nextFileNumber);
        FirstPrefixes(SnapshotEdit(current, compactPointer));
        manifest := Some([SnapshotEdit(current, compactPointer)]);
      }
    }

    /** LogAndApply, all writes succeeding. */
    method LogAndApply(edit: VersionEdit)
      requires Valid() && Legal(EverFiles(), Abs(current), nextFileNumber, edit)
      requires edit.logNumber.Some? ==> logNumber <= edit.logNumber.value < nextFileNumber
      modifies this
      ensures Valid() && manifest.Some?
      ensures Abs(current) == CurrentAfter(old(Abs(current)), edit)
      ensures compactPointer == PointersAfter(old(compactPointer), edit.compactPointers)
      ensures logNumber == if edit.logNumber.Some? then edit.logNumber.value else old(logNumber)
      ensures prevLogNumber == if edit.prevLogNumber.Some? then edit.prevLogNumber.value else old(prevLogNumber)
      ensures nextFileNumber == old(nextFileNumber) && lastSequence == old(lastSequence)
      ensures ScalarsOf(manifest.value).lastSequence == Some(lastSequence)
      ensures ScalarsOf(manifest.value).nextFile == Some(nextFileNumber)
    {
      var e := edit;
      if e.logNumber.None? { e := e.(logNumber := Some(logNumber)); }
      if e.prevLogNumber.None? { e := e.(prevLogNumber := Some(prevLogNumber)); }
      e := e.(nextFileNumber := Some(nextFileNumber), lastSequence := Some(lastSequence));
      LegalIgnoresScalars(EverFiles(), Abs(current), nextFileNumber, edit, e);
      var v := BuildVersion(e);
      OpenManifest();
      WriteRecord(e, v);
    }

    /** Appends the record and installs the new version. */
    method WriteRecord(e: VersionEdit, v: seq<seq<File>>)
      requires manifest.Some? && ReplaysTo(manifest.value) && PrefixesOk(manifest.value)
      requires |current| == |compactPointer| == NUM_LEVELS
      requires Legal(EverFiles(), Abs(current), nextFileNumber, e)
      requires e.logNumber.Some? && e.prevLogNumber.Some?
      requires e.nextFileNumber == Some(nextFileNumber) && e.lastSequence == Some(lastSequence)
      requires |v| == NUM_LEVELS && (forall i :: 0 <= i < NUM_LEVELS ==> BySmallest(v[i]))
      requires Abs(v) == CurrentAfter(Abs(current), e)
      modifies this
      ensures Valid() && manifest == Some(old(manifest).value + [e]) && current == v
      ensures compactPointer == PointersAfter(old(compactPointer), e.compactPointers)
      ensures logNumber == e.logNumber.value && prevLogNumber == e.prevLogNumber.value
      ensures nextFileNumber == old(nextFileNumber) && lastSequence == old(lastSequence)
    {
      RecordExtends(manifest.value, nextFileNumber, e);
      ScalarsSnoc(manifest.value, e);
      MorePrefixes(manifest.value, e);
      compactPointer := PointersAfter(compactPointer, e.compactPointers);
      manifest := Some(manifest.value + [e]);
      current := v;
      logNumber, prevLogNumber := e.logNumber.value, e.prevLogNumber.value;
    }

    /** Recover, on a new version set: one builder over all records of the MANIFEST. */
    method Recover(records: seq<VersionEdit>) returns (ok: bool)
      requires Valid() && current == NO_FILES && compactPointer == NO_SCALARS.pointers && manifest.None?
      requires Recoverable(records)
      modifies this
      ensures ok <==> var s := ScalarsOf(records); s.nextFile.Some? && s.logNumber.Some? && s.lastSequence.Some?
      ensures ok ==> Valid() && manifest.None? && Recovered(records)
    {
      var b := new Builder(current);
      var s := NO_SCALARS;
      for k := 0 to |records|
        invariant unchanged(this) && fresh(b) && b.base == NO_FILES
        invariant BuilderHolds(b, records, k)
        invariant |s.pointers| == NUM_LEVELS && (forall e :: e in records[..k] ==> LevelsInRange(e))
        invariant s == ScalarsOf(records[..k])
      {
        ApplyRecord(b, records, k);
        assert records[..k + 1] == records[..k] + [records[k]];
        ScalarsSnoc(records[..k], records[k]);
        s := ScalarsStep(s, records[k]);
      }
      assert records[..|records|] == records;
      if s.nextFile.None? || s.logNumber.None? || s.lastSequence.None? { return false; }
      assert forall i :: 0 <= i < NUM_LEVELS ==> Elements(b.base[i]) == {};
      var v := b.SaveTo();
      InstallRecovered(records, v, s);
      return true;
    }

    /** The builder has applied the first k records to nothing. */
    static ghost predicate BuilderHolds(b: Builder, records: seq<VersionEdit>, k: nat)
      requires k <= |records|
      reads b
    {
      b.Valid() && forall i :: 0 <= i < NUM_LEVELS ==> b.State(i) == ApplyAll(UNTOUCHED, LevelEdits(records[..k], i))
    }

    static method ApplyRecord(b: Builder, records: seq<VersionEdit>, k: nat)
      requires RecordsOk(records) && k < |records| && BuilderHolds(b, records, k)
      modifies b
      ensures BuilderHolds(b, records, k + 1)
    {
      forall i | 0 <= i < NUM_LEVELS
        ensures NumbersUnique(Elements(b.added[i]) + Elements(AddedAt(records[k].newFiles, i)))
      {
        AddedSoFar(records, k, i);
        assert b.State(i).added == Elements(b.added[i]);
      }
      forall i | 0 <= i < NUM_LEVELS
        ensures ApplyAll(UNTOUCHED, LevelEdits(records[..k + 1], i))
             == ApplyTo(ApplyAll(UNTOUCHED, LevelEdits(records[..k], i)), At(records[k], i))
      { ApplyOneMore(records, k, i); }
      b.Apply(records[k]);
    }

    /** Installs the recovered version. */
    method InstallRecovered(records: seq<VersionEdit>, v: seq<seq<File>>, s: Scalars)
      requires manifest.None? && Recoverable(records) && s == ScalarsOf(records)
      requires s.nextFile.Some? && s.logNumber.Some? && s.lastSequence.Some?
      requires |v| == NUM_LEVELS && (forall i :: 0 <= i < NUM_LEVELS ==> BySmallest(v[i]))
      requires forall i :: 0 <= i < NUM_LEVELS ==>
        Elements(v[i]) == Saved({}, ApplyAll(UNTOUCHED, LevelEdits(records, i)))
      modifies this
      ensures Valid() && manifest.None? && Recovered(records)
    {
      hide Descends, ScalarsOf, Replayed, LevelEdits, RecordsOk, Ever;
      current, compactPointer := v, s.pointers;
      manifestFileNumber := s.nextFile.value;
      nextFileNumber := s.nextFile.value + 1;
      lastSequence := s.lastSequence.value;
      logNumber := s.logNumber.value;
      prevLogNumber := if s.prevLogNumber.Some? then s.prevLogNumber.value else 0;
      RecoveredLists(records, v);
      DescendsWeaken(Ever(records), Replayed(records), s.nextFile.value, nextFileNumber);
    }

    /** The fields are what the records say. */
    ghost predicate Recovered(records: seq<VersionEdit>)
      requires forall e :: e in records ==> LevelsInRange(e)
      reads this
    {
      var s := ScalarsOf(records);
      && Abs(current) == Replayed(records) && compactPointer == s.pointers
      && s.logNumber == Some(logNumber) && s.lastSequence == Some(lastSequence)
      && prevLogNumber == (if s.prevLogNumber.Some? then s.prevLogNumber.value else 0)
      && s.nextFile == Some(manifestFileNumber) && nextFileNumber == manifestFileNumber + 1
    }

    /** Recovering from the MANIFEST of any reachable version set rebuilds its file lists, compaction
        pointers and log numbers, with the last sequence number that was logged. */
    static method CrashAndRecover(vs: VersionSet) returns (r: VersionSet)
      requires vs.Valid() && vs.manifest.Some?
      ensures fresh(r) && r.Valid()
      ensures r.current == vs.current && r.compactPointer == vs.compactPointer
      ensures r.logNumber == vs.logNumber && r.prevLogNumber == vs.prevLogNumber
      ensures ScalarsOf(vs.manifest.value).lastSequence == Some(r.lastSequence)
      ensures forall i, f :: 0 <= i < NUM_LEVELS && f in vs.EverFiles()[i] ==> f.number < r.nextFileNumber
    {
      r := new VersionSet();
      var ok := r.Recover(vs.manifest.value);
      SameLists(r.current, vs.current);
    }
  }

  /** What LogAndApply leaves in the MANIFEST. */
  ghost predicate Recoverable(records: seq<VersionEdit>) {
    && RecordsOk(records)
    && (ScalarsOf(records).nextFile.Some? ==>
          Descends(Ever(records), Replayed(records), ScalarsOf(records).nextFile.value))
  }

  /** A MANIFEST that ends anywhere between two records can be recovered from. */
  ghost predicate PrefixesOk(records: seq<VersionEdit>) {
    forall m :: 0 <= m <= |records| ==> Recoverable(records[..m])
  }

  lemma FirstPrefixes(e: VersionEdit)
    requires RecordsOk([e]) && e.nextFileNumber.None?
    ensures PrefixesOk([e])
  {
    forall m | 0 <= m <= 1 ensures Recoverable([e][..m]) {
      if m == 0 {
        NothingRecorded();
        assert [e][..0] == [];
      } else {
        ScalarsSnoc([], e);
        assert [] + [e] == [e] == [e][..1];
      }
    }
  }

  lemma NothingRecorded()
    ensures RecordsOk([]) && ScalarsOf([]) == NO_SCALARS
  {
    forall i | 0 <= i < NUM_LEVELS ensures LevelEdits([], i) == [] && Ever([])[i] == {} {}
  }

  lemma MorePrefixes(records: seq<VersionEdit>, e: VersionEdit)
    requires PrefixesOk(records) && Recoverable(records + [e])
    ensures PrefixesOk(records + [e])
  {
    hide Recoverable;
    forall m | 0 <= m <= |records| + 1 ensures Recoverable((records + [e])[..m]) {
      if m <= |records| {
        assert (records + [e])[..m] == records[..m];
      } else {
        assert (records + [e])[..m] == records + [e];
      }
    }
  }

  /** Saving once after all records gives what replaying them one by one gives. */
  lemma RecoveredLists(records: seq<VersionEdit>, v: seq<seq<File>>)
    requires RecordsOk(records) && |v| == NUM_LEVELS
    requires forall i :: 0 <= i < NUM_LEVELS ==>
        Elements(v[i]) == Saved({}, ApplyAll(UNTOUCHED, LevelEdits(records, i)))
    ensures Abs(v) == Replayed(records)
  {
    forall i | 0 <= i < NUM_LEVELS ensures Elements(v[i]) == Replayed(records)[i] {
      BatchIsOneAtATime({}, LevelEdits(records, i));
    }
  }

  lemma DescendsWeaken(ever: seq<set<File>>, current: seq<set<File>>, next: nat, next': nat)
    requires Descends(ever, current, next) && next <= next'
    ensures Descends(ever, current, next') && Descends(current, current, next')
  {}

  lemma SameLists(a: seq<seq<File>>, b: seq<seq<File>>)
    requires |a| == |b| && Abs(a) == Abs(b)
    requires forall i :: 0 <= i < |a| ==> BySmallest(a[i]) && BySmallest(b[i])
    ensures a == b
  {
    forall i | 0 <= i < |a| ensures a[i] == b[i] {
      assert Abs(a)[i] == Abs(b)[i];
      SortedListUnique(a[i], b[i]);
    }
  }

  lemma ApplyOneMore(records: seq<VersionEdit>, k: nat, i: nat)
    requires k < |records|
    ensures ApplyAll(UNTOUCHED, LevelEdits(records[..k + 1], i))
         == ApplyTo(ApplyAll(UNTOUCHED, LevelEdits(records[..k], i)), At(records[k], i))
  {
    assert LevelEdits(records[..k + 1], i)[..k] == LevelEdits(records[..k], i);
  }

  /** Whatever the first k records and the next one add to a level is among the files it ever held. */
  lemma AddedSoFar(records: seq<VersionEdit>, k: nat, i: nat)
    requires RecordsOk(records) && k < |records| && i < NUM_LEVELS
    ensures NumbersUnique(ApplyAll(UNTOUCHED, LevelEdits(records[..k], i)).added + Elements(At(records[k], i).added))
  {
    var es := LevelEdits(records, i);
    assert LevelEdits(records[..k], i) == es[..k];
    AddedAreSeen({}, es[..k]);
    EverGrows({}, es, k + 1);
    assert es[..k + 1][..k] == es[..k];
  }

  lemma {:induction false} EverGrows(base: set<File>, es: seq<LevelEdit>, k: nat)
    requires k <= |es|
    ensures EverIn(base, es[..k]) <= EverIn(base, es)
  {
    if k < |es| {
      EverGrows(base, es[..|es| - 1], k);
      assert es[..|es| - 1][..k] == es[..k];
    } else {
      assert es[..k] == es;
    }
  }

  lemma LegalIgnoresScalars(ever: seq<set<File>>, current: seq<set<File>>, next: nat, e: VersionEdit, e': VersionEdit)
    requires |ever| == |current| == NUM_LEVELS && Legal(ever, current, next, e)
    requires e' == e.(logNumber := e'.logNumber, prevLogNumber := e'.prevLogNumber,
                      nextFileNumber := e'.nextFileNumber, lastSequence := e'.lastSequence)
    ensures Legal(ever, current, next, e') && CurrentAfter(current, e') == CurrentAfter(current, e)
  {
    assert forall i :: At(e', i) == At(e, i);
    assert forall p :: p in e.newFiles ==> (Moved(current, e, p.0, p.1) <==> Moved(current, e', p.0, p.1));
  }
}
