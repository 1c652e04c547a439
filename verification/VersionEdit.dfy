/** Version edits as bytes (db/version_edit.h, db/version_edit.cc), and what a crash leaves of the
    MANIFEST that holds them. */
module VersionEdits {
  import opened DbFormat
  import opened Coding
  import opened LogFormat
  import Files

  /** The bounds are encoded internal keys. */
  datatype FileMetaData = FileMetaData(number: nat, fileSize: nat, smallest: Bytes, largest: Bytes)

  /** A std::set of deleted files is its elements in order. */
  datatype Edit = Edit(
    comparator: Option<Bytes>,
    logNumber: Option<nat>,
    prevLogNumber: Option<nat>,
    nextFileNumber: Option<nat>,
    lastSequence: Option<nat>,
    compactPointers: seq<(nat, Bytes)>,
    deletedFiles: seq<(nat, nat)>,
    newFiles: seq<(nat, FileMetaData)>)

  const EMPTY: Edit := Edit(None, None, None, None, None, [], [], [])

  datatype Parsed = Parsed(edit: Edit) | Corrupt(message: string)

  const COMPARATOR := 1
  const LOG_NUMBER := 2
  const NEXT_FILE_NUMBER := 3
  const LAST_SEQUENCE := 4
  const COMPACT_PTR := 5
  const DELETED_FILE := 6
  const NEW_FILE := 7
  const PREV_LOG_NUMBER := 9

  // ---- Sets of deleted files ---------------------------------------------------------------------

  predicate Before(a: (nat, nat), b: (nat, nat)) {
    a.0 < b.0 || (a.0 == b.0 && a.1 < b.1)
  }

  ghost predicate Ascending(ds: seq<(nat, nat)>) {
    forall i, j :: 0 <= i < j < |ds| ==> Before(ds[i], ds[j])
  }

  /** std::set::insert. */
  function Insert(ds: seq<(nat, nat)>, d: (nat, nat)): (r: seq<(nat, nat)>)
    ensures forall x :: x in r <==> x in ds || x == d
  {
    if ds == [] then [d]
    else if ds[0] == d then ds
    else if Before(d, ds[0]) then [d] + ds
    else [ds[0]] + Insert(ds[1..], d)
  }

  lemma {:induction false} InsertAscends(ds: seq<(nat, nat)>, d: (nat, nat))
    requires Ascending(ds)
    ensures Ascending(Insert(ds, d))
  {
    if ds != [] && ds[0] != d && !Before(d, ds[0]) {
      InsertAscends(ds[1..], d);
      var tail := Insert(ds[1..], d);
      forall j | 0 <= j < |tail| ensures Before(ds[0], tail[j]) {
        assert tail[j] in tail;
      }
    }
  }

  lemma {:induction false} InsertLast(ds: seq<(nat, nat)>, d: (nat, nat))
    requires Ascending(ds + [d])
    ensures Insert(ds, d) == ds + [d]
  {
    if ds != [] {
      assert (ds + [d])[0] == ds[0] && (ds + [d])[|ds|] == d;
      assert ds[1..] + [d] == (ds + [d])[1..];
      InsertLast(ds[1..], d);
    }
  }

  // ---- Encoding ----------------------------------------------------------------------------------

  function Tagged(tag: nat, body: Bytes): Bytes { Varint(tag) + body }

  function Number(tag: nat, v: Option<nat>): Bytes {
    match v case None => [] case Some(n) => Tagged(tag, Varint(n))
  }

  function Name(v: Option<Bytes>): Bytes {
    match v case None => [] case Some(b) => Tagged(COMPARATOR, Prefixed(b))
  }

  function PointerBytes(p: (nat, Bytes)): Bytes { Tagged(COMPACT_PTR, Varint(p.0) + Prefixed(p.1)) }

  function DeletionBytes(d: (nat, nat)): Bytes { Tagged(DELETED_FILE, Varint(d.0) + Varint(d.1)) }

  function AdditionBytes(n: (nat, FileMetaData)): Bytes {
    Tagged(NEW_FILE, Varint(n.0) +
      (Varint(n.1.number) + (Varint(n.1.fileSize) + (Prefixed(n.1.smallest) + Prefixed(n.1.largest)))))
  }

  function Concat<T>(bytes: T -> Bytes, xs: seq<T>): Bytes {
    if xs == [] then [] else bytes(xs[0]) + Concat(bytes, xs[1..])
  }

  /** The record of an edit. */
  function Record(e: Edit): Bytes {
    Name(e.comparator) + (Number(LOG_NUMBER, e.logNumber) + (Number(PREV_LOG_NUMBER, e.prevLogNumber)
      + (Number(NEXT_FILE_NUMBER, e.nextFileNumber) + (Number(LAST_SEQUENCE, e.lastSequence)
      + (Concat(PointerBytes, e.compactPointers) +
        (Concat(DeletionBytes, e.deletedFiles) + Concat(AdditionBytes, e.newFiles)))))))
  }

  /** What the types of an edit hold: 64-bit numbers, levels, strings of 32-bit length. */
  ghost predicate Legal(e: Edit) {
    && (e.comparator.Some? ==> |e.comparator.value| < WORD)
    && Small(e.logNumber) && Small(e.prevLogNumber) && Small(e.nextFileNumber) && Small(e.lastSequence)
    && (forall i :: 0 <= i < |e.compactPointers| ==> LegalPointer(e.compactPointers[i]))
    && (forall i :: 0 <= i < |e.deletedFiles| ==> LegalDeletion(e.deletedFiles[i]))
    && Ascending(e.deletedFiles)
    && forall i :: 0 <= i < |e.newFiles| ==> LegalAddition(e.newFiles[i])
  }

  predicate Small(n: Option<nat>) { n.Some? ==> n.value < DWORD }

  predicate LegalPointer(p: (nat, Bytes)) { p.0 < Files.NUM_LEVELS && |p.1| < WORD }

  predicate LegalDeletion(d: (nat, nat)) { d.0 < Files.NUM_LEVELS && d.1 < DWORD }

  predicate LegalAddition(n: (nat, FileMetaData)) {
    n.0 < Files.NUM_LEVELS && n.1.number < DWORD && n.1.fileSize < DWORD && |n.1.smallest| < WORD &&
      |n.1.largest| < WORD
  }

  // ---- Decoding ----------------------------------------------------------------------------------

  function Take32(input: Bytes): (r: Option<(nat, Bytes)>)
    ensures r.Some? ==> |r.value.1| < |input|
  {
    match VarintValue(input, 5) case None => None case Some(p) => Some((p.0 % WORD, input[p.1..]))
  }

  function Take64(input: Bytes): (r: Option<(nat, Bytes)>)
    ensures r.Some? ==> |r.value.1| < |input|
  {
    match VarintValue(input, 10) case None => None case Some(p) => Some((p.0 % DWORD, input[p.1..]))
  }

  function TakeLevel(input: Bytes): (r: Option<(nat, Bytes)>)
    ensures r.Some? ==> |r.value.1| < |input|
  {
    match Take32(input) case None => None case Some(p) => if p.0 < Files.NUM_LEVELS then Some(p) else None
  }

  function TakeSlice(input: Bytes): (r: Option<(Bytes, Bytes)>)
    ensures r.Some? ==> |r.value.1| < |input|
  {
    PrefixedExtends(input, []);
    PrefixedValue(input)
  }

  function TakePointer(input: Bytes): (r: Option<((nat, Bytes), Bytes)>)
    ensures r.Some? ==> |r.value.1| < |input|
  {
    match TakeLevel(input)
    case None => None
    case Some(l) => match TakeSlice(l.1) case None => None case Some(k) => Some(((l.0, k.0), k.1))
  }

  function TakeDeletion(input: Bytes): (r: Option<((nat, nat), Bytes)>)
    ensures r.Some? ==> |r.value.1| < |input|
  {
    match TakeLevel(input)
    case None => None
    case Some(l) => match Take64(l.1) case None => None case Some(n) => Some(((l.0, n.0), n.1))
  }

  function TakeMetaData(input: Bytes): (r: Option<(FileMetaData, Bytes)>)
    ensures r.Some? ==> |r.value.1| < |input|
  {
    match Take64(input)
    case None => None
    case Some(n) =>
      match Take64(n.1)
      case None => None
      case Some(size) =>
        match TakeSlice(size.1)
        case None => None
        case Some(small) =>
          match TakeSlice(small.1) case None => None case Some(large) => Some((FileMetaData(n.0, size.0, small.0,
              large.0), large.1))
  }

  function TakeAddition(input: Bytes): (r: Option<((nat, FileMetaData), Bytes)>)
    ensures r.Some? ==> |r.value.1| < |input|
  {
    match TakeLevel(input)
    case None => None
    case Some(l) => match TakeMetaData(l.1) case None => None case Some(f) => Some(((l.0, f.0), f.1))
  }

  /** What the entry with this tag does to an edit. */
  function ReadEntry(e: Edit, tag: nat, input: Bytes): (r: Option<(Edit, Bytes)>)
    ensures r.Some? ==> |r.value.1| < |input|
  {
    if tag == COMPARATOR then
        (match TakeSlice(input) case None => None case Some(p) => Some((e.(comparator := Some(p.0)), p.1)))
    else if tag == LOG_NUMBER then
        (match Take64(input) case None => None case Some(p) => Some((e.(logNumber := Some(p.0)), p.1)))
    else if tag == PREV_LOG_NUMBER then
        (match Take64(input) case None => None case Some(p) => Some((e.(prevLogNumber := Some(p.0)), p.1)))
    else if tag == NEXT_FILE_NUMBER then
        (match Take64(input) case None => None case Some(p) => Some((e.(nextFileNumber := Some(p.0)), p.1)))
    else if tag == LAST_SEQUENCE then
        (match Take64(input) case None => None case Some(p) => Some((e.(lastSequence := Some(p.0)), p.1)))
    else if tag == COMPACT_PTR then
      (match TakePointer(input) case None => None case Some(p) => Some((e.(compactPointers := e.compactPointers +
        [p.0]), p.1)))
    else if tag == DELETED_FILE then
      (match TakeDeletion(input) case None => None case Some(p) => Some((e.(deletedFiles :=
        Insert(e.deletedFiles, p.0)), p.1)))
    else if tag == NEW_FILE then
      (match TakeAddition(input) case None => None case Some(p) => Some((e.(newFiles := e.newFiles + [p.0]), p.1)))
    else None
  }

  /** The message for an entry that cannot be read. */
  function Complaint(tag: nat): string {
    if tag == COMPARATOR then "comparator name"
    else if tag == LOG_NUMBER then "log number"
    else if tag == PREV_LOG_NUMBER then "previous log number"
    else if tag == NEXT_FILE_NUMBER then "next file number"
    else if tag == LAST_SEQUENCE then "last sequence number"
    else if tag == COMPACT_PTR then "compaction pointer"
    else if tag == DELETED_FILE then "deleted file"
    else if tag == NEW_FILE then "new-file entry"
    else "unknown tag"
  }

  /** The loop of DecodeFrom. */
  function ParseEdit(e: Edit, input: Bytes): Parsed
    decreases |input|
  {
    match Take32(input)
    case None => if input == [] then Parsed(e) else Corrupt("invalid tag")
    case Some(t) =>
      match ReadEntry(e, t.0, t.1)
      case None => Corrupt(Complaint(t.0))
      case Some(p) => ParseEdit(p.0, p.1)
  }

  // ---- Round trip --------------------------------------------------------------------------------

  lemma TakesVarint(v: nat, rest: Bytes)
    ensures v < WORD ==> Take32(Varint(v) + rest) == Some((v, rest))
    ensures v < DWORD ==> Take64(Varint(v) + rest) == Some((v, rest))
  {
    Pow128Words();
    hide Pow128, Varint, VarintValue;
    assert (Varint(v) + rest)[|Varint(v)|..] == rest;
    if v < WORD { VarintRoundTrip(v, rest, 5); }
    if v < DWORD { VarintRoundTrip(v, rest, 10); }
  }

  lemma TakesLevel(v: nat, rest: Bytes)
    requires v < Files.NUM_LEVELS
    ensures TakeLevel(Varint(v) + rest) == Some((v, rest))
  {
    hide Varint, Take32;
    TakesVarint(v, rest);
  }

  lemma TakesEntry(e: Edit, tag: nat, body: Bytes, rest: Bytes, now: Edit)
    requires tag < WORD && ReadEntry(e, tag, body + rest) == Some((now, rest))
    ensures ParseEdit(e, Tagged(tag, body) + rest) == ParseEdit(now, rest)
  {
    hide Varint, Take32, ReadEntry;
    TakesVarint(tag, body + rest);
    assert Tagged(tag, body) + rest == Varint(tag) + (body + rest);
  }

  lemma TakesNumber(e: Edit, tag: nat, v: Option<nat>, rest: Bytes, now: Edit)
    requires Small(v) && (v.None? ==> now == e)
    requires v.Some? ==> tag < WORD && ReadEntry(e, tag, Varint(v.value) + rest) == Some((now, rest))
    ensures ParseEdit(e, Number(tag, v) + rest) == ParseEdit(now, rest)
  {
    hide Varint, ReadEntry, ParseEdit;
    if v.Some? { TakesEntry(e, tag, Varint(v.value), rest, now); } else { assert [] + rest == rest; }
  }

  lemma TakesName(e: Edit, v: Option<Bytes>, rest: Bytes)
    requires v.Some? ==> |v.value| < WORD
    ensures ParseEdit(e, Name(v) + rest) == ParseEdit(if v.Some? then e.(comparator := v) else e, rest)
  {
    hide Prefixed, PrefixedValue, ParseEdit;
    if v.Some? {
      PrefixedRoundTrip(v.value, rest);
      TakesEntry(e, COMPARATOR, Prefixed(v.value), rest, e.(comparator := v));
    } else {
      assert [] + rest == rest;
    }
  }

  lemma TakesPointer(e: Edit, p: (nat, Bytes), rest: Bytes)
    requires LegalPointer(p)
    ensures ParseEdit(e, PointerBytes(p) + rest) == ParseEdit(e.(compactPointers := e.compactPointers + [p]), rest)
  {
    hide Prefixed, PrefixedValue, ParseEdit, Varint, TakeLevel;
    var body := Varint(p.0) + Prefixed(p.1);
    assert body + rest == Varint(p.0) + (Prefixed(p.1) + rest);
    TakesLevel(p.0, Prefixed(p.1) + rest);
    PrefixedRoundTrip(p.1, rest);
    TakesEntry(e, COMPACT_PTR, body, rest, e.(compactPointers := e.compactPointers + [p]));
  }

  lemma TakesDeletion(e: Edit, d: (nat, nat), rest: Bytes)
    requires LegalDeletion(d)
    ensures ParseEdit(e, DeletionBytes(d) + rest) == ParseEdit(e.(deletedFiles := Insert(e.deletedFiles, d)), rest)
  {
    hide ParseEdit, Varint, TakeLevel, Take64, Insert;
    var body := Varint(d.0) + Varint(d.1);
    assert body + rest == Varint(d.0) + (Varint(d.1) + rest);
    TakesLevel(d.0, Varint(d.1) + rest);
    TakesVarint(d.1, rest);
    TakesEntry(e, DELETED_FILE, body, rest, e.(deletedFiles := Insert(e.deletedFiles, d)));
  }

  lemma TakesMetaData(f: FileMetaData, rest: Bytes)
    requires LegalAddition((0, f))
    ensures TakeMetaData((Varint(f.number) + (Varint(f.fileSize) + (Prefixed(f.smallest) + Prefixed(f.largest)))) +
        rest) == Some((f, rest))
  {
    hide Varint, Take64, Prefixed, PrefixedValue;
    var keys := Prefixed(f.smallest) + (Prefixed(f.largest) + rest);
    assert (Varint(f.number) + (Varint(f.fileSize) + (Prefixed(f.smallest) + Prefixed(f.largest)))) + rest
        == Varint(f.number) + (Varint(f.fileSize) + keys);
    TakesVarint(f.number, Varint(f.fileSize) + keys);
    TakesVarint(f.fileSize, keys);
    PrefixedRoundTrip(f.smallest, Prefixed(f.largest) + rest);
    PrefixedRoundTrip(f.largest, rest);
  }

  lemma TakesAddition(e: Edit, n: (nat, FileMetaData), rest: Bytes)
    requires LegalAddition(n)
    ensures ParseEdit(e, AdditionBytes(n) + rest) == ParseEdit(e.(newFiles := e.newFiles + [n]), rest)
  {
    hide ParseEdit, Varint, TakeLevel, TakeMetaData, Prefixed;
    var meta := Varint(n.1.number) + (Varint(n.1.fileSize) + (Prefixed(n.1.smallest) + Prefixed(n.1.largest)));
    assert (Varint(n.0) + meta) + rest == Varint(n.0) + (meta + rest);
    TakesLevel(n.0, meta + rest);
    TakesMetaData(n.1, rest);
    TakesEntry(e, NEW_FILE, Varint(n.0) + meta, rest, e.(newFiles := e.newFiles + [n]));
  }

  lemma {:induction false} TakesPointers(e: Edit, ps: seq<(nat, Bytes)>, rest: Bytes)
    requires forall i :: 0 <= i < |ps| ==> LegalPointer(ps[i])
    ensures ParseEdit(e, Concat(PointerBytes, ps) + rest) ==
        ParseEdit(e.(compactPointers := e.compactPointers + ps), rest)
    decreases |ps|
  {
    hide ParseEdit, PointerBytes, LegalPointer;
    if ps == [] {
      assert [] + rest == rest && e.compactPointers + [] == e.compactPointers;
    } else {
      var tail := Concat(PointerBytes, ps[1..]) + rest;
      assert Concat(PointerBytes, ps) + rest == PointerBytes(ps[0]) + tail;
      TakesPointer(e, ps[0], tail);
      TakesPointers(e.(compactPointers := e.compactPointers + [ps[0]]), ps[1..], rest);
      assert (e.compactPointers + [ps[0]]) + ps[1..] == e.compactPointers + ps;
    }
  }

  lemma {:induction false} TakesDeletions(e: Edit, ds: seq<(nat, nat)>, rest: Bytes)
    requires forall i :: 0 <= i < |ds| ==> LegalDeletion(ds[i])
    requires Ascending(e.deletedFiles + ds)
    ensures ParseEdit(e, Concat(DeletionBytes, ds) + rest) == ParseEdit(e.(deletedFiles := e.deletedFiles + ds), rest)
    decreases |ds|
  {
    hide ParseEdit, DeletionBytes, LegalDeletion;
    if ds == [] {
      assert [] + rest == rest && e.deletedFiles + [] == e.deletedFiles;
    } else {
      var tail := Concat(DeletionBytes, ds[1..]) + rest;
      assert Concat(DeletionBytes, ds) + rest == DeletionBytes(ds[0]) + tail;
      TakesDeletion(e, ds[0], tail);
      assert (e.deletedFiles + [ds[0]]) + ds[1..] == e.deletedFiles + ds;
      AscendingFront(e.deletedFiles + [ds[0]], ds[1..]);
      InsertLast(e.deletedFiles, ds[0]);
      TakesDeletions(e.(deletedFiles := e.deletedFiles + [ds[0]]), ds[1..], rest);
    }
  }

  lemma AscendingFront(a: seq<(nat, nat)>, b: seq<(nat, nat)>)
    requires Ascending(a + b)
    ensures Ascending(a)
  {
    forall i, j | 0 <= i < j < |a| ensures Before(a[i], a[j]) {
      assert a[i] == (a + b)[i] && a[j] == (a + b)[j];
    }
  }

  lemma ParsesNothing(e: Edit)
    ensures ParseEdit(e, []) == Parsed(e)
  {}

  lemma {:induction false} TakesAdditions(e: Edit, ns: seq<(nat, FileMetaData)>)
    requires forall i :: 0 <= i < |ns| ==> LegalAddition(ns[i])
    ensures ParseEdit(e, Concat(AdditionBytes, ns)) == Parsed(e.(newFiles := e.newFiles + ns))
    decreases |ns|
  {
    hide ParseEdit, AdditionBytes, LegalAddition;
    if ns == [] {
      ParsesNothing(e);
      assert e.newFiles + [] == e.newFiles;
    } else {
      TakesAddition(e, ns[0], Concat(AdditionBytes, ns[1..]));
      TakesAdditions(e.(newFiles := e.newFiles + [ns[0]]), ns[1..]);
      assert (e.newFiles + [ns[0]]) + ns[1..] == e.newFiles + ns;
    }
  }

  /** VersionEdit::Clear, which forgets to clear the compaction pointers. */
  function Cleared(e: Edit): Edit { EMPTY.(compactPointers := e.compactPointers) }

  /** A record parsed into an edit that was used before gives the edit that was written, after the
      compaction pointers the edit had: exactly the one written if it had none. */
  lemma RoundTrip(used: Edit, e: Edit)
    requires Legal(e)
    ensures ParseEdit(Cleared(used), Record(e)) ==
        Parsed(e.(compactPointers := used.compactPointers + e.compactPointers))
    ensures ParseEdit(Cleared(used), Record(e)) == Parsed(e) <==> used.compactPointers == []
  {
    NumbersTaken(Cleared(used).(comparator := e.comparator), e);
    hide ParseEdit, Concat, Number;
    var numbers := Number(LOG_NUMBER, e.logNumber) + (Number(PREV_LOG_NUMBER, e.prevLogNumber)
      + (Number(NEXT_FILE_NUMBER, e.nextFileNumber) + (Number(LAST_SEQUENCE, e.lastSequence) + Lists(e))));
    TakesName(Cleared(used), e.comparator, numbers);
    var scalars := Cleared(used).(comparator := e.comparator, logNumber := e.logNumber,
        prevLogNumber := e.prevLogNumber,
                                  nextFileNumber := e.nextFileNumber, lastSequence := e.lastSequence);
    ListsTaken(scalars, e);
    if used.compactPointers + e.compactPointers == e.compactPointers { assert |used.compactPointers| == 0; }
    assert [] + e.compactPointers == e.compactPointers;
  }

  function Lists(e: Edit): Bytes {
    Concat(PointerBytes, e.compactPointers) +
      (Concat(DeletionBytes, e.deletedFiles) + Concat(AdditionBytes, e.newFiles))
  }

  lemma NumbersTaken(start: Edit, e: Edit)
    requires Legal(e)
    requires start.logNumber.None? && start.prevLogNumber.None? && start.nextFileNumber.None?
    requires start.lastSequence.None?
    ensures ParseEdit(start, Number(LOG_NUMBER, e.logNumber) + (Number(PREV_LOG_NUMBER, e.prevLogNumber)
              + (Number(NEXT_FILE_NUMBER, e.nextFileNumber) + (Number(LAST_SEQUENCE, e.lastSequence) + Lists(e)))))
         == ParseEdit(start.(logNumber := e.logNumber, prevLogNumber := e.prevLogNumber,
           nextFileNumber := e.nextFileNumber,
                         lastSequence := e.lastSequence), Lists(e))
  {
    hide ParseEdit, Number, Lists, Varint, Take64;
    var rest4 := Lists(e);
    var rest3 := Number(LAST_SEQUENCE, e.lastSequence) + rest4;
    var rest2 := Number(NEXT_FILE_NUMBER, e.nextFileNumber) + rest3;
    var rest1 := Number(PREV_LOG_NUMBER, e.prevLogNumber) + rest2;
    var e1 := start.(logNumber := e.logNumber);
    var e2 := e1.(prevLogNumber := e.prevLogNumber);
    var e3 := e2.(nextFileNumber := e.nextFileNumber);
    var e4 := e3.(lastSequence := e.lastSequence);
    if e.logNumber.Some? { TakesVarint(e.logNumber.value, rest1); }
    TakesNumber(start, LOG_NUMBER, e.logNumber, rest1, e1);
    if e.prevLogNumber.Some? { TakesVarint(e.prevLogNumber.value, rest2); }
    TakesNumber(e1, PREV_LOG_NUMBER, e.prevLogNumber, rest2, e2);
    if e.nextFileNumber.Some? { TakesVarint(e.nextFileNumber.value, rest3); }
    TakesNumber(e2, NEXT_FILE_NUMBER, e.nextFileNumber, rest3, e3);
    if e.lastSequence.Some? { TakesVarint(e.lastSequence.value, rest4); }
    TakesNumber(e3, LAST_SEQUENCE, e.lastSequence, rest4, e4);
  }

  lemma ListsTaken(start: Edit, e: Edit)
    requires Legal(e) && start.deletedFiles == [] && start.newFiles == []
    ensures ParseEdit(start, Lists(e)) == Parsed(start.(compactPointers := start.compactPointers + e.compactPointers,
                                                    deletedFiles := e.deletedFiles, newFiles := e.newFiles))
  {
    hide ParseEdit, Concat;
    TakesPointers(start, e.compactPointers, Concat(DeletionBytes, e.deletedFiles) + Concat(AdditionBytes, e.newFiles));
    var e1 := start.(compactPointers := start.compactPointers + e.compactPointers);
    assert [] + e.deletedFiles == e.deletedFiles;
    TakesDeletions(e1, e.deletedFiles, Concat(AdditionBytes, e.newFiles));
    TakesAdditions(e1.(deletedFiles := e.deletedFiles), e.newFiles);
    assert [] + e.newFiles == e.newFiles;
  }

  // ---- The MANIFEST ------------------------------------------------------------------------------

  function Records(es: seq<Edit>): (r: seq<Bytes>)
    ensures |r| == |es|
  {
    seq(|es|, i requires 0 <= i < |es| => Record(es[i]))
  }

  /** The edits of the records of a log, read one after the other, each into a fresh edit. */
  function ParseAll(records: seq<Bytes>): Option<seq<Edit>> {
    if records == [] then Some([])
    else match ParseEdit(EMPTY, records[0])
      case Corrupt(_) => None
      case Parsed(e) => match ParseAll(records[1..]) case None => None case Some(es) => Some([e] + es)
  }

  lemma {:induction false} ParsesAll(es: seq<Edit>)
    requires forall i :: 0 <= i < |es| ==> Legal(es[i])
    ensures ParseAll(Records(es)) == Some(es)
  {
    hide Legal, ParseEdit, Record;
    if es != [] {
      RoundTrip(EMPTY, es[0]);
      assert Cleared(EMPTY) == EMPTY;
      ParsesAll(es[1..]);
      assert Records(es)[1..] == Records(es[1..]);
      assert [es[0]] + es[1..] == es;
    }
  }

  /** Cut a MANIFEST anywhere: the edits read back are exactly those that were wholly written, in order,
      each as it was logged. */
  lemma ManifestCut(step: CrcStep, file: Bytes, es: seq<Edit>)
    requires forall i :: 0 <= i < |es| ==> Legal(es[i])
    requires CutOf(file, 0, EmitAll(step, 0, Records(es)))
    ensures var m := Whole(step, 0, Records(es), |file|);
            var read := ReadAll(step, file, 0);
            read.1 == [] && ParseAll(read.0) == Some(es[..m])
  {
    hide Legal, EmitAll, ReadAll, Whole, ParseAll;
    CrashPrefix(step, file, 0, Records(es));
    var m := Whole(step, 0, Records(es), |file|);
    assert Records(es)[..m] == Records(es[..m]);
    ParsesAll(es[..m]);
  }

  // ---- Code --------------------------------------------------------------------------------------

  lemma {:induction false} ConcatNext<T>(bytes: T -> Bytes, xs: seq<T>, i: nat)
    requires i < |xs|
    ensures Concat(bytes, xs[..i + 1]) == Concat(bytes, xs[..i]) + bytes(xs[i])
  {
    if i > 0 {
      ConcatNext(bytes, xs[1..], i - 1);
      assert xs[..i + 1][1..] == xs[1..][..i] && xs[..i][1..] == xs[1..][..i - 1];
      assert bytes(xs[0]) + (Concat(bytes, xs[1..][..i - 1]) + bytes(xs[i]))
          == (bytes(xs[0]) + Concat(bytes, xs[1..][..i - 1])) + bytes(xs[i]);
    } else {
      assert xs[..1] == [xs[0]] && xs[..1][1..] == [];
      assert bytes(xs[0]) + [] == bytes(xs[0]) && [] + bytes(xs[0]) == bytes(xs[0]);
    }
  }

  /** A number or a name that may be missing. */
  method PutNumber(dst: Bytes, tag: nat, v: Option<nat>) returns (r: Bytes)
    requires tag < WORD && Small(v)
    ensures r == dst + Number(tag, v)
  {
    if v.None? { assert dst + [] == dst; return dst; }
    var t := EncodeVarint32(tag);
    var n := EncodeVarint64(v.value);
    r := dst + t + n;
    assert r == dst + (t + n);
  }

  method PutName(dst: Bytes, v: Option<Bytes>) returns (r: Bytes)
    requires v.Some? ==> |v.value| < WORD
    ensures r == dst + Name(v)
  {
    hide Prefixed;
    if v.None? { assert dst + [] == dst; return dst; }
    var t := EncodeVarint32(COMPARATOR);
    r := PutLengthPrefixedSlice(dst + t, v.value);
    assert r == dst + (t + Prefixed(v.value));
  }

  method PutPointers(dst: Bytes, ps: seq<(nat, Bytes)>) returns (r: Bytes)
    requires forall i :: 0 <= i < |ps| ==> LegalPointer(ps[i])
    ensures r == dst + Concat(PointerBytes, ps)
  {
    hide Prefixed, Varint, Concat;
    r := dst;
    ConcatNothing(PointerBytes, ps, dst);
    for i := 0 to |ps|
      invariant r == dst + Concat(PointerBytes, ps[..i])
    {
      var tag := EncodeVarint32(COMPACT_PTR);
      var level := EncodeVarint32(ps[i].0);
      r := PutLengthPrefixedSlice(r + tag + level, ps[i].1);
      ConcatNext(PointerBytes, ps, i);
      Grouped(dst, Concat(PointerBytes, ps[..i]), tag, level, Prefixed(ps[i].1));
    }
    assert ps[..|ps|] == ps;
  }

  method PutDeletions(dst: Bytes, ds: seq<(nat, nat)>) returns (r: Bytes)
    requires forall i :: 0 <= i < |ds| ==> LegalDeletion(ds[i])
    ensures r == dst + Concat(DeletionBytes, ds)
  {
    hide Varint, Concat;
    r := dst;
    ConcatNothing(DeletionBytes, ds, dst);
    for i := 0 to |ds|
      invariant r == dst + Concat(DeletionBytes, ds[..i])
    {
      var tag := EncodeVarint32(DELETED_FILE);
      var level := EncodeVarint32(ds[i].0);
      var number := EncodeVarint64(ds[i].1);
      r := r + tag + level + number;
      ConcatNext(DeletionBytes, ds, i);
      Grouped(dst, Concat(DeletionBytes, ds[..i]), tag, level, number);
    }
    assert ds[..|ds|] == ds;
  }

  method PutAdditions(dst: Bytes, ns: seq<(nat, FileMetaData)>) returns (r: Bytes)
    requires forall i :: 0 <= i < |ns| ==> LegalAddition(ns[i])
    ensures r == dst + Concat(AdditionBytes, ns)
  {
    hide Prefixed, Varint, Concat;
    r := dst;
    ConcatNothing(AdditionBytes, ns, dst);
    for i := 0 to |ns|
      invariant r == dst + Concat(AdditionBytes, ns[..i])
    {
      var f := ns[i].1;
      var tag := EncodeVarint32(NEW_FILE);
      var level := EncodeVarint32(ns[i].0);
      var number := EncodeVarint64(f.number);
      var size := EncodeVarint64(f.fileSize);
      r := PutLengthPrefixedSlice(r + tag + level + number + size, f.smallest);
      r := PutLengthPrefixedSlice(r, f.largest);
      ConcatNext(AdditionBytes, ns, i);
      ghost var had, keys := Concat(AdditionBytes, ns[..i]), Prefixed(f.smallest) + Prefixed(f.largest);
      assert r == (dst + had) + tag + level + (number + (size + keys));
      Grouped(dst, had, tag, level, number + (size + keys));
    }
    assert ns[..|ns|] == ns;
  }

  lemma Grouped(a: Bytes, b: Bytes, c: Bytes, d: Bytes, e: Bytes)
    ensures (a + b) + c + d + e == a + (b + (c + (d + e)))
  {}

  lemma ConcatNothing<T>(bytes: T -> Bytes, xs: seq<T>, dst: Bytes)
    ensures dst + Concat(bytes, xs[..0]) == dst
  {}

  class VersionEdit {
    var comparator: Option<Bytes>
    var logNumber: Option<nat>
    var prevLogNumber: Option<nat>
    var nextFileNumber: Option<nat>
    var lastSequence: Option<nat>
    var compactPointers: seq<(nat, Bytes)>
    var deletedFiles: seq<(nat, nat)>
    var newFiles: seq<(nat, FileMetaData)>

    function Contents(): Edit
      reads this
    {
      Edit(comparator, logNumber, prevLogNumber, nextFileNumber, lastSequence, compactPointers, deletedFiles, newFiles)
    }

    constructor ()
      ensures Contents() == EMPTY
    {
      comparator, logNumber, prevLogNumber, nextFileNumber, lastSequence := None, None, None, None, None;
      compactPointers, deletedFiles, newFiles := [], [], [];
    }

    method Clear()
      modifies this
      ensures Contents() == Cleared(old(Contents()))
    {
      comparator, logNumber, prevLogNumber, lastSequence, nextFileNumber := None, None, None, None, None;
      deletedFiles, newFiles := [], [];
    }

    method EncodeTo(dst: Bytes) returns (r: Bytes)
      requires Legal(Contents())
      ensures r == dst + Record(Contents())
    {
      hide Name, Number, Concat;
      var a := PutName(dst, comparator);
      var b := PutNumber(a, LOG_NUMBER, logNumber);
      var c := PutNumber(b, PREV_LOG_NUMBER, prevLogNumber);
      var d := PutNumber(c, NEXT_FILE_NUMBER, nextFileNumber);
      var e := PutNumber(d, LAST_SEQUENCE, lastSequence);
      var f := PutPointers(e, compactPointers);
      var g := PutDeletions(f, deletedFiles);
      r := PutAdditions(g, newFiles);
      Regrouped(dst, Name(comparator), Number(LOG_NUMBER, logNumber), Number(PREV_LOG_NUMBER, prevLogNumber),
                Number(NEXT_FILE_NUMBER, nextFileNumber), Number(LAST_SEQUENCE, lastSequence),
                Concat(PointerBytes, compactPointers), Concat(DeletionBytes, deletedFiles),
                  Concat(AdditionBytes, newFiles));
    }

    static lemma Regrouped(dst: Bytes, a: Bytes, b: Bytes, c: Bytes, d: Bytes, e: Bytes, f: Bytes, g: Bytes, h: Bytes)
      ensures (((((((dst + a) + b) + c) + d) + e) + f) + g) + h == dst + (a + (b + (c + (d + (e + (f + (g + h)))))))
    {
      Grouped(dst + a + b + c, d, e, f, g + h);
      Grouped(dst, a, b, c, d + (e + (f + (g + h))));
    }

    /** GetLevel. */
    static method GetLevel(input: Bytes) returns (r: Option<(nat, Bytes)>)
      ensures r == TakeLevel(input)
    {
      var v := GetVarint32(input);
      return if v.Some? && v.value.0 < Files.NUM_LEVELS then v else None;
    }

    static method GetAddition(input: Bytes) returns (r: Option<((nat, FileMetaData), Bytes)>)
      ensures r == TakeAddition(input)
    {
      hide Take64, PrefixedValue, TakeLevel;
      var level := GetLevel(input);
      if level.None? { return None; }
      var number := GetNumber(level.value.1);
      if number.None? { return None; }
      var size := GetNumber(number.value.1);
      if size.None? { return None; }
      var smallest := GetLengthPrefixedSlice(size.value.1);
      if smallest.None? { return None; }
      var largest := GetLengthPrefixedSlice(smallest.value.1);
      if largest.None? { return None; }
      return Some(((level.value.0, FileMetaData(number.value.0, size.value.0, smallest.value.0, largest.value.0)),
          largest.value.1));
    }

    /** One turn of the loop of DecodeFrom, after the tag. */
    method DecodeEntry(tag: nat, input: Bytes) returns (rest: Option<Bytes>)
      modifies this
      ensures match ReadEntry(old(Contents()), tag, input)
              case None => rest == None
              case Some(p) => rest == Some(p.1) && Contents() == p.0
    {
      hide TakeLevel, PrefixedValue, Take64, TakeAddition, Insert;
      rest := None;
      if tag == COMPARATOR {
        var str := GetLengthPrefixedSlice(input);
        if str.Some? { comparator, rest := Some(str.value.0), Some(str.value.1); }
      } else if tag == LOG_NUMBER {
        var v := GetNumber(input);
        if v.Some? { logNumber, rest := Some(v.value.0), Some(v.value.1); }
      } else if tag == PREV_LOG_NUMBER {
        var v := GetNumber(input);
        if v.Some? { prevLogNumber, rest := Some(v.value.0), Some(v.value.1); }
      } else if tag == NEXT_FILE_NUMBER {
        var v := GetNumber(input);
        if v.Some? { nextFileNumber, rest := Some(v.value.0), Some(v.value.1); }
      } else if tag == LAST_SEQUENCE {
        var v := GetNumber(input);
        if v.Some? { lastSequence, rest := Some(v.value.0), Some(v.value.1); }
      } else if tag == COMPACT_PTR {
        var level := GetLevel(input);
        if level.None? { return; }
        var key := GetLengthPrefixedSlice(level.value.1);
        if key.Some? { compactPointers, rest := compactPointers + [(level.value.0, key.value.0)], Some(key.value.1); }
      } else if tag == DELETED_FILE {
        var level := GetLevel(input);
        if level.None? { return; }
        var number := GetNumber(level.value.1);
        if number.Some? { deletedFiles, rest := Insert(deletedFiles, (level.value.0, number.value.0)),
            Some(number.value.1); }
      } else if tag == NEW_FILE {
        var f := GetAddition(input);
        if f.Some? { newFiles, rest := newFiles + [f.value.0], Some(f.value.1); }
      }
    }

    static method GetNumber(input: Bytes) returns (r: Option<(nat, Bytes)>)
      ensures r == Take64(input)
    {
      r := GetVarint64(input);
    }

    method DecodeFrom(src: Bytes) returns (msg: Option<string>)
      modifies this
      ensures match ParseEdit(Cleared(old(Contents())), src)
              case Parsed(e) => msg == None && Contents() == e
              case Corrupt(m) => msg == Some(m)
    {
      hide ReadEntry, Take32;
      Clear();
      var input := src;
      while true
        invariant ParseEdit(Contents(), input) == ParseEdit(Cleared(old(Contents())), src)
        decreases |input|
      {
        var tag := GetTag(input);
        if tag.None? { break; }
        var rest := DecodeEntry(tag.value.0, tag.value.1);
        if rest.None? { return Some(Complaint(tag.value.0)); }
        input := rest.value;
      }
      if input != [] { return Some("invalid tag"); }
      return None;
    }

    static method GetTag(input: Bytes) returns (r: Option<(nat, Bytes)>)
      ensures r == Take32(input)
    {
      r := GetVarint32(input);
    }
  }
}
