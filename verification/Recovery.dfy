/** Rebuilding the memtable from a log after a crash (db/db_impl.cc, RecoverLogFile). */
module Recovery {
  import opened DbFormat
  import opened Comparator
  import R = Reads
  import opened SortedEntries
  import opened Coding
  import opened LogFormat
  import opened LogReader
  import opened WriteBatches

  function ToOp(u: Update): R.Op {
    match u
    case Put(k, v) => R.Put(Rank(k), v)
    case Delete(k) => R.Delete(Rank(k))
  }

  function ToOps(us: seq<Update>): (r: seq<R.Op>)
    ensures |r| == |us| && forall i :: 0 <= i < |us| ==> r[i] == ToOp(us[i])
  {
    if us == [] then [] else [ToOp(us[0])] + ToOps(us[1..])
  }

  lemma {:induction false} ToOpsAppend(a: seq<Update>, b: seq<Update>)
    ensures ToOps(a + b) == ToOps(a) + ToOps(b)
  {}

  // ---- What updates mean ---------------------------------------------------------------------------

  /** The entry that an update becomes: a value for a Put, a deletion marker for a Delete. */
  ghost predicate IsEntryOf(u: Update, sn: nat, e: Entry) {
    && e.user == Rank(u.key) && e.sn == sn
    && match u
       case Put(_, v) => e.kind.Value? && e.value == v
       case Delete(_) => e.kind.Deletion? && e.value == []
  }

  /** One of the updates, numbered from `first`, becomes e. */
  ghost predicate Written(us: seq<Update>, first: nat, e: Entry) {
    exists i :: 0 <= i < |us| && IsEntryOf(us[i], first + i, e)
  }

  /** The entries of some updates are just what the updates become. */
  lemma EntriesOfUpdates(us: seq<Update>, first: nat)
    ensures forall e :: e in R.OpEntries(ToOps(us), first) <==> Written(us, first, e)
  {
    forall e ensures e in R.OpEntries(ToOps(us), first) <==> Written(us, first, e) {
      if e in R.OpEntries(ToOps(us), first) {
        R.OpEntryIs(ToOps(us), first, e);
        assert IsEntryOf(us[e.sn - first], first + (e.sn - first), e);
      }
      if Written(us, first, e) {
        var i :| 0 <= i < |us| && IsEntryOf(us[i], first + i, e);
        R.OpEntryIn(ToOps(us), first, i);
      }
    }
  }

  /** A database of byte keys after some updates: the last Put of a key wins, a Delete removes it. */
  ghost function Contents(us: seq<Update>): map<Bytes, Bytes> {
    if us == [] then map[]
    else match us[|us| - 1]
      case Put(k, v) => Contents(us[..|us| - 1])[k := v]
      case Delete(k) => Contents(us[..|us| - 1]) - {k}
  }

  ghost function Find(m: map<Bytes, Bytes>, k: Bytes): Option<Bytes> { if k in m then Some(m[k]) else None }

  /** The map over ranks that the store is proved against is this one over bytes. */
  lemma {:induction false} MapIsContents(us: seq<Update>, n: nat, k: Bytes)
    requires n <= |us|
    ensures R.Lookup(R.MapAt(ToOps(us), n), Rank(k)) == Find(Contents(us[..n]), k)
  {
    if n > 0 {
      MapIsContents(us, n - 1, k);
      assert us[..n][..n - 1] == us[..n - 1] && us[..n][n - 1] == us[n - 1];
      RankOrder(k, us[n - 1].key);
    }
  }

  /** What replaying one log record puts into a memtable. */
  ghost function RecordEntries(record: Bytes): set<Entry> {
    if |record| < BATCH_HEADER then {}
    else R.OpEntries(ToOps(Updates(record[12..]).0), FixedValue(record[..8]))
  }

  ghost function AllEntries(records: seq<Bytes>): set<Entry> {
    if records == [] then {} else RecordEntries(records[0]) + AllEntries(records[1..])
  }

  /** The sequence number recovery takes a record to end at, in 64 bits. */
  function LastOf(record: Bytes): nat {
    if |record| < BATCH_HEADER then 0
    else (FixedValue(record[..8]) + FixedValue(record[8..12]) + DWORD - 1) % DWORD
  }

  function MaxLast(records: seq<Bytes>, max: nat): (r: nat)
    ensures r >= max
  {
    if records == [] then max
    else MaxLast(records[1..], if LastOf(records[0]) > max then LastOf(records[0]) else max)
  }

  ghost predicate AllWellFormed(records: seq<Bytes>) {
    forall i :: 0 <= i < |records| ==> WellFormed(records[i])
  }

  ghost function TableEntries(tables: seq<seq<Entry>>): set<Entry> {
    if tables == [] then {} else Elements(tables[0]) + TableEntries(tables[1..])
  }

  lemma {:induction false} TablesAppend(tables: seq<seq<Entry>>, t: seq<Entry>)
    ensures TableEntries(tables + [t]) == TableEntries(tables) + Elements(t)
  {
    if tables == [] {
      assert [t][1..] == [];
    } else {
      TablesAppend(tables[1..], t);
      assert (tables + [t])[1..] == tables[1..] + [t];
    }
  }

  /** MemTableInserter: every update becomes an entry, with consecutive sequence numbers. */
  method InsertInto(us: seq<Update>, sequence: nat, mem: seq<Entry>) returns (r: seq<Entry>)
    ensures Elements(r) == Elements(mem) + R.OpEntries(ToOps(us), sequence)
    ensures forall e :: e in r <==> e in mem || Written(us, sequence, e)
    ensures Sorted(mem) && R.UniqueSeqs(Elements(r)) ==> Sorted(r)
  {
    hide Rank, ToOp;
    EntriesOfUpdates(us, sequence);
    r := mem;
    for i := 0 to |us|
      invariant Elements(r) == Elements(mem) + R.OpEntries(ToOps(us[..i]), sequence)
      invariant Sorted(mem) && R.UniqueSeqs(Elements(r)) ==> Sorted(r)
    {
      var e := R.OpEntry(ToOp(us[i]), sequence + i);
      InsertElements(r, e);
      InsertInOrder(r, e);
      OneMore(us, i, sequence);
      r := Insert(r, e);
    }
    assert us[..|us|] == us;
  }

  lemma InsertInOrder(es: seq<Entry>, e: Entry)
    requires Elements(Insert(es, e)) == Elements(es) + {e}
    ensures R.UniqueSeqs(Elements(Insert(es, e))) ==> R.UniqueSeqs(Elements(es))
    ensures Sorted(es) && R.UniqueSeqs(Elements(Insert(es, e))) ==> Sorted(Insert(es, e))
  {
    if Sorted(es) && R.UniqueSeqs(Elements(Insert(es, e))) {
      forall x | x in es && x.user == e.user && x.sn == e.sn ensures x == e {
        assert x in Elements(es) + {e} && e in Elements(es) + {e};
      }
      InsertSorted(es, e);
    }
  }

  lemma OneMore(us: seq<Update>, i: nat, sequence: nat)
    requires i < |us|
    ensures R.OpEntries(ToOps(us[..i + 1]), sequence) == R.OpEntries(ToOps(us[..i]), sequence) +
        {R.OpEntry(ToOp(us[i]), sequence + i)}
  {
    hide R.OpEntries, ToOp;
    var one := [ToOp(us[i])];
    assert ToOps(us[..i + 1]) == ToOps(us[..i]) + one by { hide R.OpEntry; }
    R.OpEntriesAppend(ToOps(us[..i]), one, sequence);
    OneEntry(one[0], sequence + i);
  }

  lemma OneEntry(op: R.Op, sn: nat)
    ensures R.OpEntries([op], sn) == {R.OpEntry(op, sn)}
  {
    assert [op][1..] == [];
    assert R.OpEntries([], sn + 1) == {};
  }

  /** Everything recovered so far: memtables written out and the one being filled. */
  ghost function Held(tables: seq<seq<Entry>>, mem: Option<seq<Entry>>): set<Entry> {
    TableEntries(tables) + if mem.None? then {} else Elements(mem.value)
  }

  /** All memtables are in key order. */
  ghost predicate AllSorted(tables: seq<seq<Entry>>, mem: Option<seq<Entry>>) {
    (forall t :: t in tables ==> Sorted(t)) && (mem.Some? ==> Sorted(mem.value))
  }

  lemma SortedNone()
    ensures Sorted([])
  {}

  /** One round of RecoverLogFile: a record goes into the memtable, which is written out when full. */
  method ReplayRecord(record: Bytes, paranoid: bool, full: seq<Entry> -> bool, tables: seq<seq<Entry>>,
      mem: Option<seq<Entry>>, max: nat)
    returns (ok: bool, tables': seq<seq<Entry>>, mem': Option<seq<Entry>>, max': nat)
    ensures ok <==> !paranoid || WellFormed(record)
    ensures Held(tables', mem') == Held(tables, mem) + RecordEntries(record)
    ensures R.UniqueSeqs(Held(tables', mem')) && AllSorted(tables, mem) ==> AllSorted(tables', mem')
    ensures ok ==> max' == if LastOf(record) > max then LastOf(record) else max
    ensures if ok then tables' == tables || mem' == None else tables' == tables && max' == max
  {
    hide Updates, Rank, R.OpEntries, TableEntries, FixedValue, Written, Sorted;
    SortedNone();
    ok, tables', mem', max' := true, tables, mem, max;
    if |record| < BATCH_HEADER {
      ok := !paranoid;
      return;
    }
    var batch := new WriteBatch();
    batch.rep := record;
    var before := if mem.None? then [] else mem.value;
    var handled, whole := batch.Iterate();
    var sequence := batch.Sequence();
    var after := InsertInto(handled, sequence, before);
    mem' := Some(after);
    ok := whole || !paranoid;
    if ok {
      var count := batch.Count();
      var last := (sequence + count + DWORD - 1) % DWORD;
      if last > max {
        max' := last;
      }
      if full(after) {
        TablesAppend(tables, after);
        tables' := tables + [after];
        mem' := None;
      }
    }
  }

  /** The replay goes through and nothing stops it: errors are ignored, or there are none. */
  ghost predicate GoesThrough(paranoid: bool, read: (seq<Bytes>, seq<nat>)) {
    !paranoid || (read.1 == [] && AllWellFormed(read.0))
  }

  /** What RecoverLogFile replays from pos on, and whether it gets to the end: when errors count, it stops
      at the first report of dropped bytes and at the first malformed batch. */
  ghost function Usable(step: CrcStep, file: Bytes, pos: nat, paranoid: bool): (r: (seq<Bytes>, bool))
    requires pos <= |file|
    decreases |file| - pos
  {
    var o := ReadFrom(step, file, pos, false, []);
    if paranoid && o.drops != [] then ([], false)
    else if o.record.None? then ([], true)
    else if paranoid && !WellFormed(o.record.value) then ([], false)
    else var rest := Usable(step, file, o.pos, paranoid); ([o.record.value] + rest.0, rest.1)
  }

  /** The replay gets to the end exactly if nothing stops it, and otherwise uses a prefix of the records. */
  lemma {:induction false} UsableIsPrefix(step: CrcStep, file: Bytes, pos: nat, paranoid: bool)
    requires pos <= |file|
    ensures var read, u := ReadAll(step, file, pos), Usable(step, file, pos, paranoid);
            u.0 <= read.0 && (u.1 <==> GoesThrough(paranoid, read)) && (u.1 ==> u.0 == read.0)
    decreases |file| - pos
  {
    hide ReadFrom, WellFormed;
    var o := ReadFrom(step, file, pos, false, []);
    if o.record.Some? {
      UsableIsPrefix(step, file, o.pos, paranoid);
      ThroughStep(paranoid, o.record.value, o.drops, ReadAll(step, file, o.pos));
    }
  }

  lemma ThroughStep(paranoid: bool, record: Bytes, drops: seq<nat>, rest: (seq<Bytes>, seq<nat>))
    ensures GoesThrough(paranoid, ([record] + rest.0, drops + rest.1))
       <==> GoesThrough(paranoid, rest) && (paranoid ==> drops == [] && WellFormed(record))
  {
    hide WellFormed;
    var all := [record] + rest.0;
    assert all[0] == record && all[1..] == rest.0;
    assert |drops + rest.1| == |drops| + |rest.1|;
    if AllWellFormed(all) {
      forall i | 0 <= i < |rest.0| ensures WellFormed(rest.0[i]) { assert all[i + 1] == rest.0[i]; }
    }
  }

  lemma {:induction false} EntriesAppend(records: seq<Bytes>, record: Bytes)
    ensures AllEntries(records + [record]) == AllEntries(records) + RecordEntries(record)
  {
    hide RecordEntries;
    if records == [] {
      assert [] + [record] == [record] && [record][1..] == [];
    } else {
      EntriesAppend(records[1..], record);
      assert (records + [record])[1..] == records[1..] + [record];
    }
  }

  lemma {:induction false} EntriesConcat(a: seq<Bytes>, b: seq<Bytes>)
    ensures AllEntries(a + b) == AllEntries(a) + AllEntries(b)
  {
    hide RecordEntries;
    if a == [] {
      assert a + b == b;
    } else {
      EntriesConcat(a[1..], b);
      assert (a + b)[1..] == a[1..] + b;
    }
  }

  lemma {:induction false} MaxAppend(records: seq<Bytes>, record: Bytes, max: nat)
    ensures var m := MaxLast(records, max);
            MaxLast(records + [record], max) == if LastOf(record) > m then LastOf(record) else m
  {
    hide LastOf;
    if records == [] {
      assert [] + [record] == [record] && [record][1..] == [];
    } else {
      MaxAppend(records[1..], record, if LastOf(records[0]) > max then LastOf(records[0]) else max);
      assert (records + [record])[1..] == records[1..] + [record];
    }
  }

  /** The tables hold just the entries of the first m records. */
  ghost predicate HoldsFirst(tables: seq<seq<Entry>>, records: seq<Bytes>, m: nat) {
    m <= |records| && TableEntries(tables) == AllEntries(records[..m])
  }

  lemma HoldsFirstOf(tables: seq<seq<Entry>>, records: seq<Bytes>, more: seq<Bytes>, m: nat)
    requires HoldsFirst(tables, records, m) && records <= more
    ensures HoldsFirst(tables, more, m)
  {
    assert more[..m] == records[..m];
  }

  lemma HoldsAll(tables: seq<seq<Entry>>, records: seq<Bytes>)
    requires TableEntries(tables) == AllEntries(records)
    ensures HoldsFirst(tables, records, |records|)
  {
    assert records[..|records|] == records;
  }

  /** After replaying the records `done`, of which the tables hold the first m. */
  ghost predicate Replayed(done: seq<Bytes>, m: nat, tables: seq<seq<Entry>>, mem: Option<seq<Entry>>, start: nat,
      max: nat) {
    && Held(tables, mem) == AllEntries(done) && max == MaxLast(done, start)
    && HoldsFirst(tables, done, m)
  }

  lemma ReplayedOne(done: seq<Bytes>, m: nat, tables: seq<seq<Entry>>, mem: Option<seq<Entry>>, start: nat, max: nat,
      record: Bytes, tables': seq<seq<Entry>>, mem': Option<seq<Entry>>, max': nat) returns (m': nat)
    requires Replayed(done, m, tables, mem, start, max)
    requires Held(tables', mem') == Held(tables, mem) + RecordEntries(record)
    requires max' == if LastOf(record) > max then LastOf(record) else max
    requires tables' == tables || mem'.None?
    ensures Replayed(done + [record], m', tables', mem', start, max')
  {
    hide RecordEntries, LastOf, TableEntries, AllEntries, MaxLast;
    EntriesAppend(done, record);
    MaxAppend(done, record, start);
    if tables' == tables {
      m' := m;
      HoldsFirstOf(tables, done, done + [record], m);
    } else {
      m' := |done + [record]|;
      HoldsAll(tables', done + [record]);
    }
  }

  /** RecoverLogFile: the memtables it writes out hold exactly the updates of the records it can use, or
      of the first of them if something stops it.  `full` stands for the memory budget, `paranoid` for the
      option of that name. */
  method RecoverLogFile(step: CrcStep, file: Bytes, paranoid: bool, full: seq<Entry> -> bool, maxSequence: nat)
    returns (ok: bool, tables: seq<seq<Entry>>, max: nat)
    ensures ok <==> GoesThrough(paranoid, ReadAll(step, file, 0))
    ensures var records := Usable(step, file, 0, paranoid).0;
            && max == MaxLast(records, maxSequence)
            && (ok ==> records == ReadAll(step, file, 0).0 && TableEntries(tables) == AllEntries(records))
            && (exists m: nat :: HoldsFirst(tables, records, m))
            && (R.UniqueSeqs(AllEntries(records)) ==> forall t :: t in tables ==> Sorted(t))
  {
    hide ReadFrom, WellFormed, RecordEntries, LastOf, TableEntries, AllEntries, MaxLast, HoldsFirst, ReadAll, Sorted;
    ghost var use := Usable(step, file, 0, paranoid);
    UsableIsPrefix(step, file, 0, paranoid);
    var reader := new Reader(step, file);
    var mem: Option<seq<Entry>> := None;
    ok, tables, max := true, [], maxSequence;
    ghost var done: seq<Bytes>, m: nat := [], 0;
    NothingReplayed(maxSequence);
    assert done + use.0 == use.0;
    while true
      invariant reader.Valid() && reader.step == step && reader.file == file
      invariant ok ==> Replayed(done, m, tables, mem, maxSequence, max)
      invariant ok ==> (var rest := Usable(step, file, reader.Position(), paranoid); use == (done + rest.0, rest.1))
      invariant R.UniqueSeqs(AllEntries(use.0)) ==> AllSorted(tables, if ok then mem else None)
      invariant !ok ==> use == (done, false) && max == MaxLast(done, maxSequence) && HoldsFirst(tables, done, m)
      decreases |file| - reader.Position()
    {
      assert done + [] == done;
      var reported := |reader.drops|;
      var record := reader.ReadRecord();
      if paranoid && |reader.drops| > reported {
        ok := false;
      }
      if record.None? || !ok {
        break;
      }
      ghost var tables0, mem0, max0 := tables, mem, max;
      ok, tables, mem, max := ReplayRecord(record.value, paranoid, full, tables, mem, max);
      if ok {
        m := ReplayedOne(done, m, tables0, mem0, maxSequence, max0, record.value, tables, mem, max);
        ghost var rest := Usable(step, file, reader.Position(), paranoid);
        assert done + ([record.value] + rest.0) == done + [record.value] + rest.0;
        done := done + [record.value];
        EntriesOfPrefix(done, use.0);
      } else if |record.value| >= BATCH_HEADER {
        break;
      }
    }
    if mem.Some? && ok {
      TablesAppend(tables, mem.value);
      tables := tables + [mem.value];
    }
    if ok { HoldsAll(tables, done); }
  }

  lemma EntriesOfPrefix(records: seq<Bytes>, more: seq<Bytes>)
    requires records <= more
    ensures AllEntries(records) <= AllEntries(more)
  {
    hide AllEntries;
    EntriesConcat(records, more[|records|..]);
    assert more == records + more[|records|..];
  }

  lemma NothingReplayed(start: nat)
    ensures Replayed([], 0, [], None, start, start)
  {}

  // ---- From a crash to a prefix of the writes ----------------------------------------------------

  /** The log of committed write groups: batches with consecutive sequence numbers. */
  ghost predicate Committed(records: seq<Bytes>, first: nat)
    decreases |records|
  {
    records != [] ==>
      (WellFormed(records[0]) && SequenceOf(records[0]) == first
      && Committed(records[1..], first + |UpdatesOf(records[0])|))
  }

  ghost function OpsOf(records: seq<Bytes>): seq<R.Op>
    requires AllWellFormed(records)
  {
    if records == [] then [] else ToOps(UpdatesOf(records[0])) + OpsOf(records[1..])
  }

  /** All updates of some records, in order. */
  ghost function AllUpdates(records: seq<Bytes>): seq<Update>
    requires AllWellFormed(records)
  {
    if records == [] then [] else UpdatesOf(records[0]) + AllUpdates(records[1..])
  }

  lemma {:induction false} OpsAreUpdates(records: seq<Bytes>)
    requires AllWellFormed(records)
    ensures OpsOf(records) == ToOps(AllUpdates(records))
    decreases |records|
  {
    hide WellFormed, UpdatesOf;
    if records != [] {
      OpsAreUpdates(records[1..]);
      ToOpsAppend(UpdatesOf(records[0]), AllUpdates(records[1..]));
    }
  }

  lemma {:induction false} CommittedPrefix(records: seq<Bytes>, first: nat, m: nat)
    requires Committed(records, first) && m <= |records|
    ensures Committed(records[..m], first) && AllWellFormed(records)
    decreases |records|
  {
    hide WellFormed, Updates;
    if records != [] {
      CommittedPrefix(records[1..], first + |UpdatesOf(records[0])|, if m == 0 then 0 else m - 1);
      forall i | 0 <= i < |records| ensures WellFormed(records[i]) { if i > 0 { assert records[i] ==
          records[1..][i - 1]; } }
      if m > 0 { assert records[..m][1..] == records[1..][..m - 1]; }
    }
  }

  /** Replaying committed groups writes exactly their updates, numbered as they were committed. */
  lemma {:induction false} CommittedEntries(records: seq<Bytes>, first: nat)
    requires Committed(records, first) && AllWellFormed(records)
    ensures AllEntries(records) == R.OpEntries(OpsOf(records), first)
    decreases |records|
  {
    hide Updates, FixedValue;
    if records != [] {
      var ops := ToOps(UpdatesOf(records[0]));
      CommittedEntries(records[1..], first + |ops|);
      R.OpEntriesAppend(ops, OpsOf(records[1..]), first);
    }
  }

  lemma FirstLast(records: seq<Bytes>, first: nat)
    requires Committed(records, first) && AllWellFormed(records) && records != []
    requires 0 < first && first + |OpsOf(records)| <= DWORD
    ensures LastOf(records[0]) == first + |UpdatesOf(records[0])| - 1
  {
    hide Updates, MaxLast;
  }

  lemma {:induction false} CommittedMax(records: seq<Bytes>, first: nat)
    requires Committed(records, first) && AllWellFormed(records) && 0 < first && first + |OpsOf(records)| <= DWORD
    ensures MaxLast(records, first - 1) == first - 1 + |OpsOf(records)|
    decreases |records|
  {
    hide Updates, LastOf;
    if records != [] {
      FirstLast(records, first);
      CommittedMax(records[1..], first + |UpdatesOf(records[0])|);
    }
  }

  /** Crash recovery.  The tables hold the updates `before`; the log holds the groups committed since.  Cut
      the log at any byte: the replay finds no corruption, and the database it gives is that of `before` and
      the groups wholly in the log, with the last sequence number to match: of every byte key a reader finds
      what the last update of the key says. */
  lemma CrashRecovery(step: CrcStep, file: Bytes, records: seq<Bytes>, before: seq<Update>, k: Bytes)
    requires CutOf(file, 0, EmitAll(step, 0, records)) && Committed(records, |before| + 1) && AllWellFormed(records)
    requires |before| + |OpsOf(records)| < DWORD
    ensures var m := Whole(step, 0, records, |file|);
            var read := ReadAll(step, file, 0);
            && GoesThrough(true, read) && read.0 == records[..m] && AllWellFormed(records[..m])
            && (var now := before + AllUpdates(records[..m]);
                && MaxLast(read.0, |before|) == |now|
                && R.Read(R.History(ToOps(before)) + AllEntries(read.0), Rank(k), |now|) == Find(Contents(now), k))
  {
    hide WellFormed, Updates, EmitAll, ReadFrom, ToOp, Rank;
    CrashPrefix(step, file, 0, records);
    var h, kept := ToOps(before), records[..Whole(step, 0, records, |file|)];
    CommittedPrefix(records, |h| + 1, |kept|);
    OpsPrefix(records, |kept|);
    CommittedMax(kept, |h| + 1);
    OpsAreUpdates(kept);
    ToOpsAppend(before, AllUpdates(kept));
    RecoveredReads(h, kept, before + AllUpdates(kept), k);
  }

  /** The entries of the history and of committed records read as the map after all of them. */
  lemma RecoveredReads(h: seq<R.Op>, kept: seq<Bytes>, now: seq<Update>, k: Bytes)
    requires Committed(kept, |h| + 1) && AllWellFormed(kept) && ToOps(now) == h + OpsOf(kept)
    ensures R.Read(R.History(h) + AllEntries(kept), Rank(k), |now|) == Find(Contents(now), k)
  {
    hide WellFormed, ToOp, Rank, AllEntries, R.OpEntries, Committed;
    CommittedEntries(kept, |h| + 1);
    R.OpEntriesAppend(h, OpsOf(kept), 1);
    R.HistoryIsMap(ToOps(now), |now|, Rank(k));
    MapIsContents(now, |now|, k);
    assert now[..|now|] == now;
  }

  lemma {:induction false} OpsPrefix(records: seq<Bytes>, m: nat)
    requires AllWellFormed(records) && m <= |records|
    ensures |OpsOf(records[..m])| <= |OpsOf(records)|
    decreases |records|
  {
    hide WellFormed, Updates;
    if records != [] && m > 0 {
      OpsPrefix(records[1..], m - 1);
      assert records[..m][1..] == records[1..][..m - 1];
    }
  }
}
