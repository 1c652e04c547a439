/** Bytes of a write-ahead log: what the writer emits and what the reader makes of them
    (db/log_format.h, db/log_writer.cc, db/log_reader.cc, util/crc32c.h). */
module LogFormat {
  import opened DbFormat
  import opened Coding

  const BLOCK_SIZE: nat := 32768
  const HEADER_SIZE: nat := 7

  const FULL_TYPE: byte := 1
  const FIRST_TYPE: byte := 2
  const MIDDLE_TYPE: byte := 3
  const LAST_TYPE: byte := 4
  const END_OF_FILE: nat := 5
  const BAD_RECORD: nat := 6

  // ---- Checksum ----------------------------------------------------------------------------------

  /** The checksum of a byte string is a fold of some step over its bytes; which step does not matter. */
  type CrcStep = (Word, byte) -> Word

  function Extend(step: CrcStep, crc: Word, data: Bytes): Word
    decreases |data|
  {
    if data == [] then crc else Extend(step, step(crc, data[0]), data[1..])
  }

  /** Extending the stored checksum of a prefix is the checksum of the whole. */
  lemma {:induction false} ExtendConcat(step: CrcStep, crc: Word, a: Bytes, b: Bytes)
    ensures Extend(step, Extend(step, crc, a), b) == Extend(step, crc, a + b)
    decreases |a|
  {
    if a == [] {
      assert a + b == b;
    } else {
      ExtendConcat(step, step(crc, a[0]), a[1..], b);
      assert (a + b)[1..] == a[1..] + b;
    }
  }

  const MASK_DELTA: nat := 0xa282_ead8

  /** Rotate right by 15 bits and add a constant, in 32 bits. */
  function Mask(crc: Word): Word {
    (crc / 0x8000 + crc % 0x8000 * 0x2_0000 + MASK_DELTA) % WORD
  }

  function Unmask(masked: Word): Word {
    var rot := (masked - MASK_DELTA + WORD) % WORD;
    rot / 0x2_0000 + rot % 0x2_0000 * 0x8000
  }

  lemma UnmaskMask(crc: Word)
    ensures Unmask(Mask(crc)) == crc
  {
    var rot := crc / 0x8000 + crc % 0x8000 * 0x2_0000;
    assert rot / 0x2_0000 == crc % 0x8000 && rot % 0x2_0000 == crc / 0x8000;
    assert ((rot + MASK_DELTA) % WORD - MASK_DELTA + WORD) % WORD == rot;
  }

  lemma MaskUnmask(masked: Word)
    ensures Mask(Unmask(masked)) == masked
  {
    var rot := (masked - MASK_DELTA + WORD) % WORD;
    var crc := Unmask(masked);
    assert crc / 0x8000 == rot % 0x2_0000 && crc % 0x8000 == rot / 0x2_0000;
    assert (rot + MASK_DELTA) % WORD == masked;
  }

  // ---- Writing -----------------------------------------------------------------------------------

  /** Room left in the block at file offset pos. */
  function Leftover(pos: nat): (r: nat)
    ensures 0 < r <= BLOCK_SIZE
  {
    BLOCK_SIZE - pos % BLOCK_SIZE
  }

  /** Bytes to skip at pos because no header fits in the block any more. */
  function Padding(pos: nat): nat {
    if Leftover(pos) < HEADER_SIZE then Leftover(pos) else 0
  }

  function RecordType(begin: bool, end: bool): byte {
    if begin && end then FULL_TYPE else if begin then FIRST_TYPE else if end then LAST_TYPE else MIDDLE_TYPE
  }

  function Checksum(step: CrcStep, t: byte, data: Bytes): Word {
    Mask(Extend(step, 0, [t] + data))
  }

  /** A physical record: masked checksum, length, type, payload. */
  function Physical(step: CrcStep, t: byte, data: Bytes): (r: Bytes)
    requires |data| < 0x1_0000
    ensures |r| == HEADER_SIZE + |data|
  {
    Fixed(4, Checksum(step, t, data)) + [|data| % 256, |data| / 256, t] + data
  }

  /** How much of n payload bytes fits in the block where the next header goes. */
  function Chunk(pos: nat, n: nat): (r: nat)
    ensures r <= n && r < BLOCK_SIZE
    ensures HEADER_SIZE + r <= Leftover(pos + Padding(pos))
  {
    var avail := Leftover(pos + Padding(pos)) - HEADER_SIZE;
    if n < avail then n else avail
  }

  /** One piece of a record: padding and a physical record. */
  function Piece(step: CrcStep, pos: nat, data: Bytes, begin: bool): (r: Bytes)
    ensures |r| == Padding(pos) + HEADER_SIZE + Chunk(pos, |data|)
  {
    var n := Chunk(pos, |data|);
    Zeros(Padding(pos)) + Physical(step, RecordType(begin, n == |data|), data[..n])
  }

  /** The bytes a record takes when it is added at file offset pos. */
  function Emit(step: CrcStep, pos: nat, data: Bytes, begin: bool): (r: Bytes)
    ensures |r| >= HEADER_SIZE
    decreases |data|, Chunk(pos, 1) == 0
  {
    var n := Chunk(pos, |data|);
    var piece := Piece(step, pos, data, begin);
    if n == |data| then piece else piece + Emit(step, pos + |piece|, data[n..], false)
  }

  function EmitAll(step: CrcStep, pos: nat, records: seq<Bytes>): Bytes
    decreases |records|
  {
    if records == [] then []
    else var e := Emit(step, pos, records[0], true); e + EmitAll(step, pos + |e|, records[1..])
  }

  // ---- Reading -----------------------------------------------------------------------------------

  /** The payload length in a header. */
  function LengthOf(header: Bytes): nat
    requires |header| >= HEADER_SIZE
  {
    var low: int, high: int := header[4], header[5];
    low + high * 0x100
  }

  /** End of the part of pos's block that the file holds. */
  function BlockEnd(file: Bytes, pos: nat): nat {
    var end := pos + Leftover(pos);
    if end <= |file| then end else |file|
  }

  /** The file ends inside pos's block. */
  predicate Short(file: Bytes, pos: nat) {
    |file| < pos + Leftover(pos)
  }

  /** What one physical read returns: a type (END_OF_FILE and BAD_RECORD included), the payload, the
      offset it leaves off at and the sizes it reports as dropped. */
  datatype Read = Read(kind: nat, fragment: Bytes, pos: nat, drops: seq<nat>)

  /** Parsing the physical record at the front of what a block still holds; `short` says that the file
      ends with it.  The position counts from the front. */
  function ParseBlock(step: CrcStep, rest: Bytes, short: bool): (r: Read)
    requires |rest| >= HEADER_SIZE
    ensures 0 < r.pos <= |rest|
  {
    var length := LengthOf(rest);
    if HEADER_SIZE + length > |rest| then
      if short then Read(END_OF_FILE, [], |rest|, []) else Read(BAD_RECORD, [], |rest|, [|rest|])
    else if rest[6] == 0 && length == 0 then Read(BAD_RECORD, [], |rest|, [])
    else if Extend(step, 0, rest[6..HEADER_SIZE + length]) != Unmask(FixedValue(rest[..4]) % WORD) then
      Read(BAD_RECORD, [], |rest|, [|rest|])
    else Read(rest[6], rest[HEADER_SIZE..HEADER_SIZE + length], HEADER_SIZE + length, [])
  }

  function Parse(step: CrcStep, file: Bytes, pos: nat): (r: Read)
    requires pos + HEADER_SIZE <= BlockEnd(file, pos)
    ensures pos < r.pos <= |file|
  {
    var r := ParseBlock(step, file[pos..BlockEnd(file, pos)], Short(file, pos));
    r.(pos := pos + r.pos)
  }

  function ReadPhysical(step: CrcStep, file: Bytes, pos: nat): (r: Read)
    requires pos <= |file|
    ensures r.pos <= |file| && (r.kind != END_OF_FILE ==> r.pos > pos)
    decreases |file| - pos
  {
    var end := BlockEnd(file, pos);
    if end - pos >= HEADER_SIZE then Parse(step, file, pos)
    else if Short(file, pos) then Read(END_OF_FILE, [], |file|, [])
    else ReadPhysical(step, file, end)
  }

  /** What one call of ReadRecord returns: the record, if any, where it stops, and the reported drops. */
  datatype Outcome = Outcome(record: Option<Bytes>, pos: nat, drops: seq<nat>) {
    function After(earlier: seq<nat>): Outcome { this.(drops := earlier + drops) }
  }

  lemma AfterTwice(o: Outcome, a: seq<nat>, b: seq<nat>)
    ensures o.After(b).After(a) == o.After(a + b)
  {
    assert a + (b + o.drops) == (a + b) + o.drops;
  }

  /** What ReadRecord does after a physical read: stop, or go on with these fragments collected. */
  datatype Then = Stop(record: Option<Bytes>) | Go(inFragment: bool, scratch: Bytes)

  /** The switch in ReadRecord, with the sizes it reports as dropped. */
  function Handled(kind: nat, fragment: Bytes, inFragment: bool, scratch: Bytes): (r: (Then, seq<nat>))
    ensures kind == END_OF_FILE ==> r.0 == Stop(None)
    ensures r.0.Stop? && r.0.record.Some? ==> kind != END_OF_FILE
  {
    var partial := if inFragment && scratch != [] then [|scratch|] else [];
    if kind == END_OF_FILE then (Stop(None), [])
    else if kind == FULL_TYPE then (Stop(Some(fragment)), partial)
    else if kind == FIRST_TYPE then (Go(true, fragment), partial)
    else if kind == MIDDLE_TYPE then
      if inFragment then (Go(true, scratch + fragment), []) else (Go(false, scratch), [|fragment|])
    else if kind == LAST_TYPE then
      if inFragment then (Stop(Some(scratch + fragment)), []) else (Go(false, scratch), [|fragment|])
    else if kind == BAD_RECORD then
      if inFragment then (Go(false, []), [|scratch|]) else (Go(false, scratch), [])
    else (Go(false, []), [|fragment| + if inFragment then |scratch| else 0])
  }

  /** Reading on from pos with the fragments collected so far. */
  function ReadFrom(step: CrcStep, file: Bytes, pos: nat, inFragment: bool, scratch: Bytes): (r: Outcome)
    requires pos <= |file|
    ensures r.pos <= |file| && (r.record.Some? ==> r.pos > pos)
    decreases |file| - pos
  {
    var p := ReadPhysical(step, file, pos);
    var h := Handled(p.kind, p.fragment, inFragment, scratch);
    match h.0
    case Stop(record) => Outcome(record, p.pos, p.drops + h.1)
    case Go(i, s) => ReadFrom(step, file, p.pos, i, s).After(p.drops + h.1)
  }

  /** Calling ReadRecord until it returns false. */
  function ReadAll(step: CrcStep, file: Bytes, pos: nat): (r: (seq<Bytes>, seq<nat>))
    requires pos <= |file|
    decreases |file| - pos
  {
    var o := ReadFrom(step, file, pos, false, []);
    if o.record.None? then ([], o.drops)
    else var rest := ReadAll(step, file, o.pos); ([o.record.value] + rest.0, o.drops + rest.1)
  }

  // ---- Crash recovery ----------------------------------------------------------------------------

  /** From pos on, the file is the stream, possibly cut short. */
  ghost predicate CutOf(file: Bytes, pos: nat, stream: Bytes) {
    && pos <= |file| <= pos + |stream|
    && forall i :: 0 <= i < |file| - pos ==> file[pos + i] == stream[i]
  }

  lemma CutConcat(file: Bytes, pos: nat, a: Bytes, b: Bytes)
    requires CutOf(file, pos, a + b) && pos + |a| <= |file|
    ensures file[pos..pos + |a|] == a && CutOf(file, pos + |a|, b)
  {
    forall i | 0 <= i < |a| ensures file[pos + i] == a[i] { assert (a + b)[i] == a[i]; }
    forall i | 0 <= i < |file| - pos - |a| ensures file[pos + |a| + i] ==
        b[i] { assert file[pos + (|a| + i)] == (a + b)[|a| + i]; }
  }

  /** A physical record at pos is read back if the file holds all of it, and is end of file otherwise. */
  lemma ReadRecordAt(step: CrcStep, file: Bytes, pos: nat, t: byte, data: Bytes, more: Bytes)
    requires HEADER_SIZE + |data| <= Leftover(pos) && FULL_TYPE <= t <= LAST_TYPE
    requires CutOf(file, pos, Physical(step, t, data) + more)
    ensures var n := HEADER_SIZE + |data|;
            if pos + n <= |file| then ReadPhysical(step, file, pos) == Read(t, data, pos + n, []) &&
                CutOf(file, pos + n, more)
            else ReadPhysical(step, file, pos).kind == END_OF_FILE && ReadPhysical(step, file, pos).drops == []
  {
    hide Physical, ParseBlock;
    var record := Physical(step, t, data);
    if pos + HEADER_SIZE <= |file| {
      var rest := file[pos..BlockEnd(file, pos)];
      var n := if |rest| < |record| then |rest| else |record|;
      forall i | 0 <= i < n ensures rest[i] == record[i] { assert file[pos + i] == (record + more)[i]; }
      assert rest[..n] == record[..n];
      ParsesBack(step, rest, Short(file, pos), t, data);
      if pos + |record| <= |file| { CutConcat(file, pos, record, more); }
    }
  }

  /** A physical record is parsed back if it is all there; a file that ends inside it ends quietly. */
  lemma ParsesBack(step: CrcStep, rest: Bytes, short: bool, t: byte, data: Bytes)
    requires |data| < 0x1_0000 && FULL_TYPE <= t && HEADER_SIZE <= |rest|
    requires var size := HEADER_SIZE + |data|;
             var n := if |rest| < size then |rest| else size; rest[..n] == Physical(step, t, data)[..n]
    ensures |rest| >= HEADER_SIZE + |data| ==> ParseBlock(step, rest, short) == Read(t, data, HEADER_SIZE + |data|, [])
    ensures |rest| < HEADER_SIZE + |data| && short ==>
        ParseBlock(step, rest, short) == Read(END_OF_FILE, [], |rest|, [])
  {
    hide Extend, Unmask, Mask, Fixed, FixedValue, Checksum;
    var record := Physical(step, t, data);
    var n := if |rest| < |record| then |rest| else |record|;
    assert rest[4] == rest[..n][4] && rest[5] == rest[..n][5] && rest[6] == rest[..n][6];
    assert LengthOf(rest) == |data| && rest[6] == t;
    if |rest| >= |record| {
      RecordParts(step, t, data);
      assert record == rest[..|record|] by { assert record[..n] == record; }
      assert rest[6..|record|] == record[6..] && rest[..4] == record[..4] && rest[7..|record|] == record[7..];
    }
  }

  lemma RecordParts(step: CrcStep, t: byte, data: Bytes)
    requires |data| < 0x1_0000
    ensures var record := Physical(step, t, data);
            && record[7..] == data
            && Extend(step, 0, record[6..]) == Unmask(FixedValue(record[..4]) % WORD)
  {
    hide Extend, Unmask, Mask, Fixed, FixedValue;
    var record := Physical(step, t, data);
    assert record[6..] == [t] + data && record[..4] == Fixed(4, Checksum(step, t, data));
    FixedWords(Checksum(step, t, data));
    UnmaskMask(Extend(step, 0, [t] + data));
  }

  /** The reader skips a full block's trailer as the writer does. */
  lemma SkipPadding(step: CrcStep, file: Bytes, pos: nat)
    requires pos <= |file|
    ensures var start := pos + Padding(pos);
            if start <= |file| then ReadPhysical(step, file, pos) == ReadPhysical(step, file, start)
            else ReadPhysical(step, file, pos) == Read(END_OF_FILE, [], |file|, [])
  {}

  /** A piece of a record is read back if the file holds all of it, and is end of file otherwise. */
  ghost predicate Returns(r: Read, file: Bytes, t: byte, data: Bytes, next: nat, more: Bytes) {
    if next <= |file| then r == Read(t, data, next, []) && CutOf(file, next, more)
    else r.kind == END_OF_FILE && r.drops == []
  }

  lemma ReadPiece(step: CrcStep, file: Bytes, pos: nat, data: Bytes, begin: bool, more: Bytes)
    requires CutOf(file, pos, Piece(step, pos, data, begin) + more)
    ensures var n := Chunk(pos, |data|);
            Returns(ReadPhysical(step, file, pos), file, RecordType(begin, n == |data|), data[..n],
              pos + |Piece(step, pos, data, begin)|, more)
  {
    hide ReadPhysical, Physical;
    var n := Chunk(pos, |data|);
    var record := Physical(step, RecordType(begin, n == |data|), data[..n]);
    var pad := Zeros(Padding(pos));
    assert Piece(step, pos, data, begin) + more == pad + (record + more);
    SkipPadding(step, file, pos);
    if pos + |pad| <= |file| {
      CutConcat(file, pos, pad, record + more);
      ReadRecordAt(step, file, pos + |pad|, RecordType(begin, n == |data|), data[..n], more);
    }
  }

  /** Reading on inside a record: it comes back whole if the file holds all of it; otherwise the call
      ends quietly. */
  ghost predicate Delivers(o: Outcome, file: Bytes, record: Bytes, next: nat, more: Bytes) {
    if next <= |file| then o == Outcome(Some(record), next, []) && CutOf(file, next, more)
    else o.record.None? && o.drops == []
  }

  lemma LastPiece(step: CrcStep, file: Bytes, pos: nat, data: Bytes, begin: bool, scratch: Bytes, more: Bytes,
      next: nat)
    requires pos <= |file| && (begin ==> scratch == [])
    requires Returns(ReadPhysical(step, file, pos), file, RecordType(begin, true), data, next, more)
    ensures Delivers(ReadFrom(step, file, pos, !begin, scratch), file, scratch + data, next, more)
  {
    assert begin ==> scratch + data == data;
  }

  lemma OtherPiece(step: CrcStep, file: Bytes, pos: nat, data: Bytes, begin: bool, scratch: Bytes, more: Bytes,
      next: nat)
    requires pos <= |file| && (begin ==> scratch == [])
    requires Returns(ReadPhysical(step, file, pos), file, RecordType(begin, false), data, next, more)
    ensures next <= |file| ==>
              ReadFrom(step, file, pos, !begin, scratch) == ReadFrom(step, file, next, true, scratch + data)
    ensures next > |file| ==>
              && ReadFrom(step, file, pos, !begin, scratch).record.None?
              && ReadFrom(step, file, pos, !begin, scratch).drops == []
  {
    assert begin ==> scratch + data == data;
    if next <= |file| {
      var o := ReadFrom(step, file, next, true, scratch + data);
      assert o.After([]) == o by { assert [] + o.drops == o.drops; }
    }
  }

  lemma EmitUnfold(step: CrcStep, pos: nat, data: Bytes, begin: bool, more: Bytes)
    ensures var n := Chunk(pos, |data|); var piece := Piece(step, pos, data, begin); var e :=
        Emit(step, pos, data, begin);
            if n == |data| then e == piece && data[..n] == data
            else var rest := Emit(step, pos + |piece|, data[n..], false);
                 e == piece + rest && |e| == |piece| + |rest| && e + more == piece + (rest + more)
  {
    hide Piece, Chunk;
  }

  /** One step of reading a record: the rest of it is read from the place after its first piece. */
  lemma ReadOnePiece(step: CrcStep, file: Bytes, pos: nat, data: Bytes, begin: bool, scratch: Bytes, more: Bytes)
    requires CutOf(file, pos, Emit(step, pos, data, begin) + more) && (begin ==> scratch == [])
    ensures var n := Chunk(pos, |data|); var next := pos + |Piece(step, pos, data, begin)|;
            var o := ReadFrom(step, file, pos, !begin, scratch);
            if n == |data| then Delivers(o, file, scratch + data, next, more)
            else if next <= |file| then
              && CutOf(file, next, Emit(step, next, data[n..], false) + more)
              && o == ReadFrom(step, file, next, true, scratch + data[..n])
            else o.record.None? && o.drops == []
  {
    EmitUnfold(step, pos, data, begin, more);
    var n := Chunk(pos, |data|);
    var next := pos + |Piece(step, pos, data, begin)|;
    if n == |data| {
      ReadPiece(step, file, pos, data, begin, more);
      LastPiece(step, file, pos, data, begin, scratch, more, next);
    } else {
      var rest := Emit(step, next, data[n..], false) + more;
      ReadPiece(step, file, pos, data, begin, rest);
      OtherPiece(step, file, pos, data[..n], begin, scratch, rest, next);
    }
  }

  lemma {:induction false} ReadEmitted(step: CrcStep, file: Bytes, pos: nat, data: Bytes, begin: bool, scratch: Bytes,
      more: Bytes)
    requires CutOf(file, pos, Emit(step, pos, data, begin) + more)
    requires begin ==> scratch == []
    ensures Delivers(ReadFrom(step, file, pos, !begin, scratch), file, scratch + data,
        pos + |Emit(step, pos, data, begin)|, more)
    decreases |Emit(step, pos, data, begin)|
  {
    hide Emit, Piece, ReadFrom;
    EmitUnfold(step, pos, data, begin, more);
    ReadOnePiece(step, file, pos, data, begin, scratch, more);
    var n := Chunk(pos, |data|);
    var next := pos + |Piece(step, pos, data, begin)|;
    if n != |data| && next <= |file| {
      ReadEmitted(step, file, next, data[n..], false, scratch + data[..n], more);
      assert (scratch + data[..n]) + data[n..] == scratch + data;
    }
  }

  /** The records that lie wholly within the first `size` bytes from pos. */
  function Whole(step: CrcStep, pos: nat, records: seq<Bytes>, size: nat): (m: nat)
    ensures m <= |records|
    decreases |records|
  {
    if records == [] then 0
    else
      var e := Emit(step, pos, records[0], true);
      if pos + |e| <= size then 1 + Whole(step, pos + |e|, records[1..], size) else 0
  }

  lemma EndQuietly(step: CrcStep, file: Bytes, pos: nat)
    requires pos == |file|
    ensures ReadFrom(step, file, pos, false, []) == Outcome(None, pos, [])
  {}

  /** Cut a log anywhere: what is read back is exactly the records that are whole, in order, and
      nothing is reported as corrupt. */
  lemma {:induction false} CrashPrefix(step: CrcStep, file: Bytes, pos: nat, records: seq<Bytes>)
    requires CutOf(file, pos, EmitAll(step, pos, records))
    ensures ReadAll(step, file, pos) == (records[..Whole(step, pos, records, |file|)], [])
    decreases |records|
  {
    hide Emit, ReadFrom;
    if records == [] {
      EndQuietly(step, file, pos);
    } else {
      var e := Emit(step, pos, records[0], true);
      ReadEmitted(step, file, pos, records[0], true, [], EmitAll(step, pos + |e|, records[1..]));
      assert [] + records[0] == records[0];
      if pos + |e| <= |file| {
        CrashPrefix(step, file, pos + |e|, records[1..]);
        var m := Whole(step, pos + |e|, records[1..], |file|);
        assert Whole(step, pos, records, |file|) == m + 1;
        assert ReadFrom(step, file, pos, false, []) == Outcome(Some(records[0]), pos + |e|, []);
        assert records[..m + 1] == [records[0]] + records[1..][..m];
        var none: seq<nat> := [];
        assert none + none == none;
      }
    }
  }

  /** Whole counts exactly: the bytes of that many records fit, those of one more do not. */
  lemma {:induction false} WholeIsExact(step: CrcStep, pos: nat, records: seq<Bytes>, size: nat, m: nat)
    requires pos <= size && m <= |records|
    ensures m <= Whole(step, pos, records, size) <==> pos + |EmitAll(step, pos, records[..m])| <= size
    decreases |records|
  {
    hide Emit;
    if m > 0 {
      var e := Emit(step, pos, records[0], true);
      assert records[..m][1..] == records[1..][..m - 1];
      if pos + |e| <= size { WholeIsExact(step, pos + |e|, records[1..], size, m - 1); }
    }
  }

  /** An uncut log gives back every record. */
  lemma UncutLog(step: CrcStep, records: seq<Bytes>)
    ensures ReadAll(step, EmitAll(step, 0, records), 0) == (records, [])
  {
    hide EmitAll, ReadAll, Whole;
    var file := EmitAll(step, 0, records);
    CrashPrefix(step, file, 0, records);
    assert records[..|records|] == records;
    WholeIsExact(step, 0, records, |file|, |records|);
  }

  lemma {:induction false} EmitAllAppend(step: CrcStep, pos: nat, records: seq<Bytes>, last: Bytes)
    ensures var all := EmitAll(step, pos, records);
            EmitAll(step, pos, records + [last]) == all + Emit(step, pos + |all|, last, true)
    decreases |records|
  {
    hide Emit;
    if records == [] {
      assert [last][1..] == [];
    } else {
      var e := Emit(step, pos, records[0], true);
      var rest := EmitAll(step, pos + |e|, records[1..]);
      EmitAllAppend(step, pos + |e|, records[1..], last);
      assert (records + [last])[1..] == records[1..] + [last];
      assert EmitAll(step, pos, records) == e + rest;
      assert (e + rest) + Emit(step, pos + |e| + |rest|, last, true) == e +
          (rest + Emit(step, pos + |e| + |rest|, last, true));
    }
  }
}

/** No record is made up: what a reader returns lies in the file with the right checksums. */
module LogIntegrity {
  import opened DbFormat
  import opened Coding
  import opened LogFormat

  /** A physical record as it lies in a file. */
  datatype Fragment = Fragment(pos: nat, kind: nat, data: Bytes)

  /** Where it ends. */
  function End(f: Fragment): nat { f.pos + HEADER_SIZE + |f.data| }

  /** It is in the file, within one block, with the checksum of its type and payload. */
  ghost predicate Intact(step: CrcStep, file: Bytes, p: Fragment) {
    && p.kind < 256 && |p.data| < 0x1_0000 && p.pos + HEADER_SIZE + |p.data| <= |file|
    && p.pos % BLOCK_SIZE + HEADER_SIZE + |p.data| <= BLOCK_SIZE
    && file[p.pos..p.pos + HEADER_SIZE + |p.data|] == Physical(step, p.kind, p.data)
  }

  /** The payloads of some fragments one after the other. */
  ghost function Joined(fragments: seq<Fragment>): Bytes {
    if fragments == [] then [] else Joined(fragments[..|fragments| - 1]) + fragments[|fragments| - 1].data
  }

  /** Stored fragments, each behind the ones before it. */
  ghost predicate InOrder(step: CrcStep, file: Bytes, fragments: seq<Fragment>) {
    && (forall i :: 0 <= i < |fragments| ==> Intact(step, file, fragments[i]))
    && forall i, j :: 0 <= i < j < |fragments| ==> End(fragments[i]) <= fragments[j].pos
  }

  /** A first piece and some middle ones. */
  ghost predicate Begun(step: CrcStep, file: Bytes, fragments: seq<Fragment>) {
    && InOrder(step, file, fragments) && fragments != []
    && forall i :: 0 <= i < |fragments| ==> fragments[i].kind == if i == 0 then FIRST_TYPE else MIDDLE_TYPE
  }

  /** The fragments make up the record: a full one alone, or a first one, middle ones and a last one. */
  ghost predicate MakeUp(step: CrcStep, file: Bytes, fragments: seq<Fragment>, record: Bytes) {
    && fragments != [] && Joined(fragments) == record && InOrder(step, file, fragments)
    && if |fragments| == 1 then fragments[0].kind == FULL_TYPE
       else Begun(step, file, fragments[..|fragments| - 1]) && fragments[|fragments| - 1].kind == LAST_TYPE
  }

  ghost predicate Genuine(step: CrcStep, file: Bytes, record: Bytes) {
    exists fragments :: MakeUp(step, file, fragments, record)
  }

  /** What parsing returns as a record of one of the four types has the right checksum. */
  lemma ParsedIsIntact(step: CrcStep, rest: Bytes, short: bool)
    requires |rest| >= HEADER_SIZE
    ensures var r := ParseBlock(step, rest, short);
            FULL_TYPE <= r.kind <= LAST_TYPE ==>
              && |r.fragment| < 0x1_0000 && r.pos == HEADER_SIZE + |r.fragment|
              && rest[..r.pos] == Physical(step, r.kind, r.fragment)
  {
    hide Extend, Unmask, Mask, Fixed, FixedValue;
    var r := ParseBlock(step, rest, short);
    if FULL_TYPE <= r.kind <= LAST_TYPE {
      var crc, length := rest[..4], LengthOf(rest);
      WordsFit(crc);
      FixedBytes(crc);
      MaskUnmask(FixedValue(crc));
      assert rest[6..HEADER_SIZE + length] == [rest[6]] + rest[HEADER_SIZE..HEADER_SIZE + length];
      assert rest[..r.pos] == crc + [rest[4], rest[5], rest[6]] + rest[HEADER_SIZE..r.pos];
      assert length % 256 == rest[4] && length / 256 == rest[5];
    }
  }

  lemma {:induction false} ReadIsIntact(step: CrcStep, file: Bytes, pos: nat) returns (at: nat)
    requires pos <= |file|
    ensures var r := ReadPhysical(step, file, pos);
            FULL_TYPE <= r.kind <= LAST_TYPE ==>
              && at >= pos && r.pos == at + HEADER_SIZE + |r.fragment|
              && Intact(step, file, Fragment(at, r.kind, r.fragment))
    decreases |file| - pos
  {
    var end := BlockEnd(file, pos);
    at := pos;
    if end - pos >= HEADER_SIZE {
      var rest := file[pos..end];
      hide ParseBlock, Physical;
      ParsedIsIntact(step, rest, Short(file, pos));
      var r := ParseBlock(step, rest, Short(file, pos));
      assert rest[..r.pos] == file[pos..pos + r.pos];
    } else if !Short(file, pos) {
      at := ReadIsIntact(step, file, end);
    }
  }

  /** One fragment more. */
  lemma OneMore(step: CrcStep, file: Bytes, fragments: seq<Fragment>, f: Fragment)
    requires InOrder(step, file, fragments) && Intact(step, file, f)
    requires fragments != [] ==> End(fragments[|fragments| - 1]) <= f.pos
    ensures InOrder(step, file, fragments + [f]) && Joined(fragments + [f]) == Joined(fragments) + f.data
  {
    hide Intact, Joined;
    JoinedMore(fragments, f);
    var all, n := fragments + [f], |fragments|;
    assert all[n] == f;
    forall i, j | 0 <= i < j < |all| ensures End(all[i]) <= all[j].pos {
      Behind(fragments, f, i, j);
    }
  }

  lemma Behind(fragments: seq<Fragment>, f: Fragment, i: nat, j: nat)
    requires i < j <= |fragments| && (j < |fragments| ==> End(fragments[i]) <= fragments[j].pos)
    requires i < |fragments| - 1 ==> End(fragments[i]) <= fragments[|fragments| - 1].pos
    requires fragments != [] ==> End(fragments[|fragments| - 1]) <= f.pos
    ensures End((fragments + [f])[i]) <= (fragments + [f])[j].pos
  {}

  lemma JoinedMore(fragments: seq<Fragment>, f: Fragment)
    ensures Joined(fragments + [f]) == Joined(fragments) + f.data
  {
    assert (fragments + [f])[..|fragments|] == fragments;
  }

  /** Whatever bytes a file has, a record read from it was stored there: it is made up of fragments whose
      checksums match, one after the other. */
  lemma {:induction false} ReadFromIsGenuine(step: CrcStep, file: Bytes, pos: nat, inFragment: bool, scratch: Bytes,
      fragments: seq<Fragment>)
    requires pos <= |file|
    requires inFragment ==> Begun(step, file, fragments) && Joined(fragments) == scratch
    requires inFragment ==> fragments != [] && End(fragments[|fragments| - 1]) <= pos
    ensures ReadFrom(step, file, pos, inFragment, scratch).record.Some? ==>
        Genuine(step, file, ReadFrom(step, file, pos, inFragment, scratch).record.value)
    decreases |file| - pos
  {
    hide Intact, ReadPhysical, InOrder, Joined;
    var p := ReadPhysical(step, file, pos);
    var at := ReadIsIntact(step, file, pos);
    var f := Fragment(at, p.kind, p.fragment);
    var h := Handled(p.kind, p.fragment, inFragment, scratch);
    Alone(step, file, f);
    if p.kind == FULL_TYPE && Intact(step, file, f) {
      assert MakeUp(step, file, [f], p.fragment);
    } else if p.kind == FIRST_TYPE && Intact(step, file, f) {
      ReadFromIsGenuine(step, file, p.pos, true, p.fragment, [f]);
    } else if inFragment && p.kind == MIDDLE_TYPE {
      OneMore(step, file, fragments, f);
      ReadFromIsGenuine(step, file, p.pos, true, scratch + p.fragment, fragments + [f]);
    } else if inFragment && p.kind == LAST_TYPE {
      OneMore(step, file, fragments, f);
      assert (fragments + [f])[..|fragments|] == fragments;
      assert MakeUp(step, file, fragments + [f], scratch + p.fragment);
    } else if h.0.Go? {
      ReadFromIsGenuine(step, file, p.pos, false, h.0.scratch, []);
    }
  }

  lemma Alone(step: CrcStep, file: Bytes, f: Fragment)
    ensures Intact(step, file, f) ==> InOrder(step, file, [f]) && Joined([f]) == f.data
  {
    hide Intact;
    assert [f][..0] == [] && [] + f.data == f.data;
  }

  lemma {:induction false} AllGenuine(step: CrcStep, file: Bytes, pos: nat)
    requires pos <= |file|
    ensures forall record :: record in ReadAll(step, file, pos).0 ==> Genuine(step, file, record)
    decreases |file| - pos
  {
    hide ReadFrom, Genuine;
    var o := ReadFrom(step, file, pos, false, []);
    ReadFromIsGenuine(step, file, pos, false, [], []);
    if o.record.Some? { AllGenuine(step, file, o.pos); }
  }
}

/** log::Writer. */
module LogWriter {
  import opened DbFormat
  import opened Coding
  import opened LogFormat

  class Writer {
    const step: CrcStep
    var dest: Bytes
    var blockOffset: nat

    ghost predicate Valid()
      reads this
    {
      blockOffset <= BLOCK_SIZE && blockOffset % BLOCK_SIZE == |dest| % BLOCK_SIZE
    }

    constructor (step: CrcStep, dest: Bytes)
      ensures Valid() && this.step == step && this.dest == dest
    {
      this.step := step;
      this.dest := dest;
      blockOffset := |dest| % BLOCK_SIZE;
    }

    method AddRecord(slice: Bytes)
      requires Valid()
      modifies this
      ensures Valid() && dest == old(dest) + Emit(step, |old(dest)|, slice, true)
    {
      hide Emit, Physical;
      ghost var target := dest + Emit(step, |dest|, slice, true);
      var ptr, begin, more := slice, true, true;
      while more
        invariant Valid() && target == if more then dest + Emit(step, |dest|, ptr, begin) else dest
        decreases more, |dest| < |target|, |target| - |dest|
      {
        ghost var was := dest;
        EmitUnfold(step, |was|, ptr, begin, []);
        LeaveTrailer();
        var avail := BLOCK_SIZE - blockOffset - HEADER_SIZE;
        var n := if |ptr| < avail then |ptr| else avail;
        var end := |ptr| == n;
        var t := if begin &&
            end then FULL_TYPE else if begin then FIRST_TYPE else if end then LAST_TYPE else MIDDLE_TYPE;
        EmitPhysicalRecord(t, ptr[..n]);
        assert dest == was + Piece(step, |was|, ptr, begin) by {
          assert t == RecordType(begin, end) && n == Chunk(|was|, |ptr|);
          Regroup(was, Zeros(Padding(|was|)), Physical(step, t, ptr[..n]));
        }
        ptr := ptr[n..];
        begin := false;
        more := |ptr| > 0;
      }
    }

    /** Switch to a new block when no header fits in this one. */
    method LeaveTrailer()
      requires Valid()
      modifies this
      ensures Valid() && dest == old(dest) + Zeros(Padding(|old(dest)|))
      ensures BLOCK_SIZE - blockOffset == Leftover(|dest|)  && blockOffset + HEADER_SIZE <= BLOCK_SIZE
    {
      var leftover := BLOCK_SIZE - blockOffset;
      if leftover < HEADER_SIZE {
        if leftover > 0 {
          dest := dest + [0, 0, 0, 0, 0, 0][..leftover];
        }
        blockOffset := 0;
        ZerosAre(leftover);
      }
    }

    method EmitPhysicalRecord(t: byte, data: Bytes)
      requires Valid() && blockOffset + HEADER_SIZE + |data| <= BLOCK_SIZE
      modifies this
      ensures Valid() && dest == old(dest) + Physical(step, t, data)
      ensures blockOffset == old(blockOffset) + HEADER_SIZE + |data|
    {
      hide Extend, Mask, Fixed;
      var crc := Extend(step, Extend(step, 0, [t]), data);
      ExtendConcat(step, 0, [t], data);
      var masked := EncodeFixed32(Mask(crc));
      dest := dest + (masked + [|data| % 256, |data| / 256, t]);
      dest := dest + data;
      blockOffset := blockOffset + HEADER_SIZE + |data|;
    }
  }

  lemma Regroup(a: Bytes, b: Bytes, c: Bytes)
    ensures (a + b) + c == a + (b + c)
  {}

  lemma ZerosAre(n: nat)
    requires n <= 6
    ensures Zeros(n) == [0, 0, 0, 0, 0, 0][..n]
  {
    if n > 0 {
      ZerosAre(n - 1);
    }
  }
}

/** log::Reader, reading from the start of the file with checksums on. */
module LogReader {
  import opened DbFormat
  import opened Coding
  import opened LogFormat

  /** Reads are of whole blocks until one comes back short. */
  ghost predicate Blockwise(size: nat, read: nat, unread: nat, eof: bool) {
    if eof then read == size && unread <= size % BLOCK_SIZE else read % BLOCK_SIZE == 0 && unread <= BLOCK_SIZE
  }

  class Reader {
    const step: CrcStep
    const file: Bytes
    /** How much of the file has been read; the buffer is the unread end of it. */
    var read: nat
    var buffer: Bytes
    var eof: bool
    /** What the reporter has been told was dropped. */
    var drops: seq<nat>

    ghost predicate Valid()
      reads this
    {
      |buffer| <= read <= |file| && buffer == file[read - |buffer|..read] && Blockwise(|file|, read, |buffer|, eof)
    }

    ghost function Position(): nat
      requires Valid()
      reads this
    {
      read - |buffer|
    }

    constructor (step: CrcStep, file: Bytes)
      ensures Valid() && this.step == step && this.file == file && Position() == 0 && drops == []
    {
      this.step := step;
      this.file := file;
      read := 0;
      buffer := [];
      eof := false;
      drops := [];
    }

    /** SequentialFile::Read of one block. */
    method ReadBlock()
      requires Valid() && !eof
      modifies this`read, this`buffer
      ensures read == if old(read) + BLOCK_SIZE <= |file| then old(read) + BLOCK_SIZE else |file|
      ensures buffer == file[old(read)..read]
    {
      var next := if read + BLOCK_SIZE <= |file| then read + BLOCK_SIZE else |file|;
      buffer := file[read..next];
      read := next;
    }

    method ReadPhysicalRecord() returns (kind: nat, fragment: Bytes)
      requires Valid()
      modifies this
      ensures Valid()
      ensures Read(kind, fragment, Position(), drops) ==
          ReadPhysical(step, file,
            old(Position())).(drops := old(drops) + ReadPhysical(step, file, old(Position())).drops)
    {
      hide Parse, ReadPhysical, BlockEnd, Short, Leftover, Blockwise;
      ghost var result := ReadPhysical(step, file, Position());
      while |buffer| < HEADER_SIZE
        invariant Valid() && drops == old(drops) && ReadPhysical(step, file, Position()) == result
        decreases !eof, |file| - read
      {
        SmallBuffer();
        if !eof {
          NextBlock();
        } else {
          AllRead();
          buffer := [];
          return END_OF_FILE, [];
        }
      }
      BufferIsBlock();
      WholeHeader();
      kind, fragment := ParseBuffer();
    }

    /** Forget the trailer that is left and read on; a short block is the last. */
    method NextBlock()
      requires Valid() && !eof
      modifies this`read, this`buffer, this`eof
      ensures Valid() && Position() == old(read) && (eof || read > old(read))
    {
      buffer := [];
      ReadBlock();
      if |buffer| < BLOCK_SIZE {
        eof := true;
      }
    }

    lemma AllRead()
      requires Valid()
      ensures eof ==> read == |file|
      ensures Blockwise(|file|, read, 0, eof)
    {}

    /** The buffer ends where its block, or the file, ends. */
    lemma BufferIsBlock()
      requires Valid()
      ensures buffer != [] ==> BlockEnd(file, Position()) == read && (Short(file, Position()) <==> eof)
      ensures buffer == [] && eof ==> BlockEnd(file, Position()) == read && Short(file, Position())
    {}

    /** With no header in the buffer, reading goes on in the next block or is over. */
    lemma SmallBuffer()
      requires Valid() && |buffer| < HEADER_SIZE
      ensures eof ==> ReadPhysical(step, file, Position()) == Read(END_OF_FILE, [], |file|, [])
      ensures !eof ==> ReadPhysical(step, file, Position()) == ReadPhysical(step, file, read)
    {
      BufferIsBlock();
    }

    lemma WholeHeader()
      requires Valid() && |buffer| >= HEADER_SIZE
      ensures Position() + HEADER_SIZE <= BlockEnd(file, Position())
      ensures ReadPhysical(step, file, Position()) == Parse(step, file, Position())
    {
      BufferIsBlock();
    }

    /** The part of ReadPhysicalRecord that follows the header. */
    method ParseBuffer() returns (kind: nat, fragment: Bytes)
      requires Valid() && |buffer| >= HEADER_SIZE && BlockEnd(file, Position()) == read
      requires (Short(file, Position()) <==> eof)
      modifies this`buffer, this`drops
      ensures Valid()
      ensures Read(kind, fragment, Position(), drops) ==
          Parse(step, file, old(Position())).(drops := old(drops) + Parse(step, file, old(Position())).drops)
    {
      hide ParseBlock, Leftover, BlockEnd, Short, Blockwise;
      Fewer();
      var used, reported;
      kind, fragment, used, reported := ParseFront(step, buffer, eof);
      drops := drops + reported;
      ghost var held := buffer;
      buffer := buffer[used..];
      assert buffer == file[read - |buffer|..read] by { assert held == file[read - |held|..read]; }
    }

    /** Using up some of the buffer keeps it blockwise. */
    lemma Fewer()
      requires Valid()
      ensures forall n: nat {:trigger Blockwise(|file|, read, n, eof)} :: n <= |buffer| ==>
          Blockwise(|file|, read, n, eof)
    {}

    /** Parse the header and check the record behind it; what is used of the buffer is to be dropped. */
    static method ParseFront(step: CrcStep, buffer: Bytes, eof: bool) returns (kind: nat, fragment: Bytes, used: nat,
        reported: seq<nat>)
      requires |buffer| >= HEADER_SIZE
      ensures used <= |buffer| && Read(kind, fragment, used, reported) == ParseBlock(step, buffer, eof)
    {
      hide Extend, Unmask, FixedValue;
      var low: int, high: int := buffer[4], buffer[5];
      var length := low + high * 0x100;
      var t := buffer[6];
      if HEADER_SIZE + length > |buffer| {
        if !eof {
          return BAD_RECORD, [], |buffer|, [|buffer|];
        }
        return END_OF_FILE, [], |buffer|, [];
      }
      if t == 0 && length == 0 {
        return BAD_RECORD, [], |buffer|, [];
      }
      var stored := DecodeFixed32(buffer);
      var actual := Extend(step, 0, buffer[6..7 + length]);
      if actual != Unmask(stored) {
        return BAD_RECORD, [], |buffer|, [|buffer|];
      }
      return t, buffer[HEADER_SIZE..HEADER_SIZE + length], HEADER_SIZE + length, [];
    }

    method ReadRecord() returns (record: Option<Bytes>)
      requires Valid()
      modifies this
      ensures Valid()
      ensures Outcome(record, Position(), drops) == ReadFrom(step, file, old(Position()), false, []).After(old(drops))
    {
      hide ReadPhysical, Parse, Leftover, Handled;
      ghost var result := ReadFrom(step, file, Position(), false, []).After(drops);
      var scratch: Bytes, inFragment := [], false;
      while true
        invariant Valid() && result == ReadFrom(step, file, Position(), inFragment, scratch).After(drops)
        decreases |file| - Position()
      {
        ghost var before, from := drops, Position();
        var kind, fragment := ReadPhysicalRecord();
        ghost var p := ReadPhysical(step, file, from);
        ghost var extra := Handled(p.kind, p.fragment, inFragment, scratch).1;
        var next := Handle(kind, fragment, inFragment, scratch);
        assert drops == before +
            (p.drops + extra) by { assert (before + p.drops) + extra == before + (p.drops + extra); }
        match next
        case Stop(r) =>
          return r;
        case Go(i, s) =>
          AfterTwice(ReadFrom(step, file, p.pos, i, s), before, p.drops + extra);
          inFragment, scratch := i, s;
      }
    }

    /** The switch in ReadRecord. */
    method Handle(kind: nat, fragment: Bytes, inFragment: bool, scratch: Bytes) returns (next: Then)
      requires Valid()
      modifies this`drops
      ensures Valid() && next == Handled(kind, fragment, inFragment, scratch).0
      ensures drops == old(drops) + Handled(kind, fragment, inFragment, scratch).1
    {
      if kind == FULL_TYPE {
        if inFragment && scratch != [] {
          drops := drops + [|scratch|];
        }
        return Stop(Some(fragment));
      } else if kind == FIRST_TYPE {
        if inFragment && scratch != [] {
          drops := drops + [|scratch|];
        }
        return Go(true, fragment);
      } else if kind == MIDDLE_TYPE {
        if !inFragment {
          drops := drops + [|fragment|];
          return Go(inFragment, scratch);
        }
        return Go(inFragment, scratch + fragment);
      } else if kind == LAST_TYPE {
        if !inFragment {
          drops := drops + [|fragment|];
          return Go(inFragment, scratch);
        }
        return Stop(Some(scratch + fragment));
      } else if kind == END_OF_FILE {
        return Stop(None);
      } else if kind == BAD_RECORD {
        if inFragment {
          drops := drops + [|scratch|];
          return Go(false, []);
        }
        return Go(inFragment, scratch);
      } else {
        drops := drops + [|fragment| + if inFragment then |scratch| else 0];
        return Go(false, []);
      }
    }
  }
}
