/** The MANIFEST as a file of bytes: what a crash leaves of it, and the version set recovered from that
    (db/version_set.cc:886-1011, db/version_edit.cc). */
module ManifestBytes {
  import opened DbFormat
  import opened Coding
  import opened Files
  import opened LogFormat
  import opened VersionSets
  import E = VersionEdits

  /** How internal keys are encoded. */
  type KeyBytes = IKey -> Bytes

  function InsertAll(ds: seq<(nat, nat)>): seq<(nat, nat)> {
    if ds == [] then [] else E.Insert(InsertAll(ds[..|ds| - 1]), ds[|ds| - 1])
  }

  lemma {:induction false} InsertAllAscends(ds: seq<(nat, nat)>)
    ensures E.Ascending(InsertAll(ds)) && forall d :: d in InsertAll(ds) <==> d in ds
    decreases |ds|
  {
    if ds != [] {
      InsertAllAscends(ds[..|ds| - 1]);
      E.InsertAscends(InsertAll(ds[..|ds| - 1]), ds[|ds| - 1]);
      assert ds == ds[..|ds| - 1] + [ds[|ds| - 1]];
    }
  }

  /** The fields of an edit: of a file, all but what is stored in it. */
  function Fields(e: VersionEdit, key: KeyBytes): E.Edit {
    E.Edit(None, e.logNumber, e.prevLogNumber, e.nextFileNumber, e.lastSequence,
           seq(|e.compactPointers|,
             i requires 0 <= i < |e.compactPointers| => (e.compactPointers[i].0, key(e.compactPointers[i].1))),
           InsertAll(e.deletedFiles),
           seq(|e.newFiles|, i requires 0 <= i < |e.newFiles| => (e.newFiles[i].0, MetaData(e.newFiles[i].1, key))))
  }

  function MetaData(f: File, key: KeyBytes): E.FileMetaData {
    E.FileMetaData(f.number, f.size, key(f.smallest), key(f.largest))
  }

  /** 64-bit numbers and 32-bit lengths. */
  ghost predicate FitsWords(e: VersionEdit, key: KeyBytes) {
    && E.Small(e.logNumber) && E.Small(e.prevLogNumber) && E.Small(e.nextFileNumber) && E.Small(e.lastSequence)
    && (forall p :: p in e.compactPointers ==> |key(p.1)| < WORD)
    && (forall d :: d in e.deletedFiles ==> d.1 < DWORD)
    && forall n :: n in e.newFiles ==> E.LegalAddition((0, MetaData(n.1, key)))
  }

  lemma FieldsLegal(e: VersionEdit, key: KeyBytes)
    requires LevelsInRange(e) && FitsWords(e, key)
    ensures E.Legal(Fields(e, key))
  {
    InsertAllAscends(e.deletedFiles);
    var r := Fields(e, key);
    forall i | 0 <= i < |r.compactPointers| ensures E.LegalPointer(r.compactPointers[i]) {
      assert e.compactPointers[i] in e.compactPointers;
    }
    forall i | 0 <= i < |r.deletedFiles| ensures E.LegalDeletion(r.deletedFiles[i]) {
      assert r.deletedFiles[i] in r.deletedFiles;
    }
    forall i | 0 <= i < |r.newFiles| ensures E.LegalAddition(r.newFiles[i]) { assert e.newFiles[i] in e.newFiles; }
  }

  /** The fields tell edits apart in all but the order of deletions and what is stored in files. */
  lemma FieldsTell(a: VersionEdit, b: VersionEdit, key: KeyBytes)
    requires Fields(a, key) == Fields(b, key) && forall x, y :: key(x) == key(y) ==> x == y
    ensures a.logNumber == b.logNumber && a.prevLogNumber == b.prevLogNumber
    ensures a.nextFileNumber == b.nextFileNumber && a.lastSequence == b.lastSequence
    ensures a.compactPointers == b.compactPointers
    ensures forall d :: d in a.deletedFiles <==> d in b.deletedFiles
    ensures |a.newFiles| == |b.newFiles| && forall i :: 0 <= i < |a.newFiles| ==>
        a.newFiles[i].0 == b.newFiles[i].0 && SameFile(a.newFiles[i].1, b.newFiles[i].1)
  {
    var fa, fb := Fields(a, key), Fields(b, key);
    InsertAllAscends(a.deletedFiles);
    InsertAllAscends(b.deletedFiles);
    assert |a.compactPointers| == |fa.compactPointers| && |b.compactPointers| == |fb.compactPointers|;
    forall i | 0 <= i < |a.compactPointers| ensures a.compactPointers[i] == b.compactPointers[i] {
      assert fa.compactPointers[i] == fb.compactPointers[i];
    }
    assert |a.newFiles| == |fa.newFiles| && |b.newFiles| == |fb.newFiles|;
    forall i | 0 <= i < |a.newFiles| ensures
        a.newFiles[i].0 == b.newFiles[i].0 && SameFile(a.newFiles[i].1, b.newFiles[i].1) {
      assert fa.newFiles[i] == fb.newFiles[i];
    }
  }

  ghost predicate SameFile(f: File, g: File) {
    f.number == g.number && f.size == g.size && f.smallest == g.smallest && f.largest == g.largest
  }

  function AllFields(records: seq<VersionEdit>, key: KeyBytes): (r: seq<E.Edit>)
    ensures |r| == |records|
  {
    seq(|records|, i requires 0 <= i < |records| => Fields(records[i], key))
  }

  /** The bytes of a MANIFEST. */
  function ManifestFile(step: CrcStep, records: seq<VersionEdit>, key: KeyBytes): Bytes {
    EmitAll(step, 0, E.Records(AllFields(records, key)))
  }

  /** The number of records wholly within the first size bytes. */
  function WholeRecords(step: CrcStep, records: seq<VersionEdit>, key: KeyBytes, size: nat): (m: nat)
    ensures m <= |records|
  {
    Whole(step, 0, E.Records(AllFields(records, key)), size)
  }

  /** What is read back from a MANIFEST that was cut is the fields of its first records. */
  lemma CutGivesFields(step: CrcStep, file: Bytes, records: seq<VersionEdit>, key: KeyBytes)
    requires forall e :: e in records ==> LevelsInRange(e) && FitsWords(e, key)
    requires CutOf(file, 0, ManifestFile(step, records, key))
    ensures var read := ReadAll(step, file, 0);
            read.1 == [] && E.ParseAll(read.0) ==
              Some(AllFields(records[..WholeRecords(step, records, key, |file|)], key))
  {
    hide E.Legal, E.ParseAll, Fields, EmitAll, ReadAll, Whole, FitsWords, LevelsInRange;
    var es := AllFields(records, key);
    forall i | 0 <= i < |es| ensures E.Legal(es[i]) { FieldsLegal(records[i], key); }
    E.ManifestCut(step, file, es);
    var m := WholeRecords(step, records, key, |file|);
    assert es[..m] == AllFields(records[..m], key);
  }

  /** A crash leaves some part of the MANIFEST of a version set.  The records that are read back are the
      first ones, whole; and unless they lack a log number, next file number or last sequence number, the
      version set recovered is the one that these records describe. */
  method RecoverFromCut(vs: VersionSet, step: CrcStep, file: Bytes, key: KeyBytes) returns (m: nat, r: VersionSet,
      ok: bool)
    requires vs.Valid() && vs.manifest.Some? && forall e :: e in vs.manifest.value ==> FitsWords(e, key)
    requires CutOf(file, 0, ManifestFile(step, vs.manifest.value, key))
    ensures m == WholeRecords(step, vs.manifest.value, key, |file|)
    ensures E.ParseAll(ReadAll(step, file, 0).0) == Some(AllFields(vs.manifest.value[..m], key))
    ensures ReadAll(step, file, 0).1 == []
    ensures forall e :: e in vs.manifest.value[..m] ==> LevelsInRange(e)
    ensures ok <==>
            var s := ScalarsOf(vs.manifest.value[..m]);
            s.nextFile.Some? && s.logNumber.Some? && s.lastSequence.Some?
    ensures ok ==> fresh(r) && r.Valid() && r.Recovered(vs.manifest.value[..m])
  {
    hide VersionSet.MatchesManifest, Recoverable;
    InRange(vs);
    CutGivesFields(step, file, vs.manifest.value, key);
    m := WholeRecords(step, vs.manifest.value, key, |file|);
    r := new VersionSet();
    assert Recoverable(vs.manifest.value[..m]);
    ok := r.Recover(vs.manifest.value[..m]);
  }

  lemma InRange(vs: VersionSet)
    requires vs.Valid() && vs.manifest.Some?
    ensures forall e :: e in vs.manifest.value ==> LevelsInRange(e)
  {}
}
