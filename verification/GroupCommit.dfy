/** Writers queue up, and the one in front commits a group for all (db/db_impl.cc, Write and BuildBatchGroup). */
module GroupCommit {
  import opened DbFormat
  import opened Coding
  import opened LogFormat
  import opened WriteBatches
  import opened Recovery
  import opened Comparator
  import L = Lsm
  import R = Reads

  /** A waiting writer: the bytes of its batch, if it has one, and its sync option. */
  datatype Writer = Writer(batch: Option<Bytes>, sync: bool)

  ghost predicate AllOk(ws: seq<Writer>) {
    forall i :: 0 <= i < |ws| && ws[i].batch.Some? ==> WellFormed(ws[i].batch.value)
  }

  /** The updates of some writers, in order. */
  ghost function UpdatesIn(ws: seq<Writer>): seq<Update>
    requires AllOk(ws)
  {
    if ws == [] then []
    else
      var last := ws[|ws| - 1];
      UpdatesIn(ws[..|ws| - 1]) + if last.batch.None? then [] else UpdatesOf(last.batch.value)
  }

  /** The sum of their batch sizes. */
  function SizeIn(ws: seq<Writer>): nat {
    if ws == [] then 0
    else SizeIn(ws[..|ws| - 1]) + if ws[|ws| - 1].batch.None? then 0 else |ws[|ws| - 1].batch.value|
  }

  /** How big the group of a writer with this batch may get. */
  function MaxSize(size: nat): nat {
    if size <= 0x2_0000 then size + 0x2_0000 else 0x10_0000
  }

  /** The front writer may commit for the first n: no sync writer is left to a leader that is not. */
  ghost predicate MayLead(queue: seq<Writer>, n: nat)
    requires queue != []
  {
    1 <= n <= |queue| && (!queue[0].sync ==> forall i :: 0 <= i < n ==> !queue[i].sync)
  }

  /** The first n writers of a queue are the group its front leads: as many as it may, within size. */
  ghost predicate IsGroup(queue: seq<Writer>, n: nat)
    requires queue != [] && queue[0].batch.Some?
  {
    var max := MaxSize(|queue[0].batch.value|);
    && MayLead(queue, n)
    && (SizeIn(queue[..n]) <= max || SizeIn(queue[..n]) == |queue[0].batch.value|)
    && (n < |queue| ==>
        ((queue[n].sync && !queue[0].sync) || (queue[n].batch.Some? && SizeIn(queue[..n + 1]) > max)))
  }

  lemma PrefixStep(queue: seq<Writer>, i: nat)
    requires i < |queue|
    ensures queue[..i + 1][..i] == queue[..i] && queue[..i + 1][i] == queue[i]
    ensures SizeIn(queue[..i + 1]) == SizeIn(queue[..i]) + if queue[i].batch.None? then 0 else |queue[i].batch.value|
    ensures AllOk(queue) ==>
        UpdatesIn(queue[..i + 1]) == UpdatesIn(queue[..i]) + if queue[i].batch.None? then
          [] else UpdatesOf(queue[i].batch.value)
  {
    assert queue[..i + 1][..i] == queue[..i];
  }

  lemma PrefixOne(queue: seq<Writer>)
    requires queue != [] && queue[0].batch.Some? && AllOk(queue)
    ensures WellFormed(queue[0].batch.value) && AllOk(queue[..1])
    ensures SizeIn(queue[..1]) == |queue[0].batch.value| && UpdatesIn(queue[..1]) == UpdatesOf(queue[0].batch.value)
  {
    PrefixStep(queue, 0);
    assert queue[..0] == [] && [] + UpdatesOf(queue[0].batch.value) == UpdatesOf(queue[0].batch.value);
  }

  lemma BatchOk(queue: seq<Writer>, n: nat)
    requires AllOk(queue) && n < |queue|
    ensures queue[n].batch.Some? ==> WellFormed(queue[n].batch.value)
    ensures AllOk(queue[..n]) && AllOk(queue[..n + 1])
  {}

  /** A batch has no more updates than bytes. */
  lemma {:induction false} FewUpdates(body: Bytes)
    ensures |Updates(body).0| <= |body|
    decreases |body|
  {
    if body != [] && FirstUpdate(body).Some? {
      FewUpdates(FirstUpdate(body).value.1);
    }
  }

  /** BuildBatchGroup: one batch with the updates of the whole group. */
  method BuildBatchGroup(queue: seq<Writer>) returns (rep: Bytes, n: nat)
    requires queue != [] && queue[0].batch.Some? && AllOk(queue)
    ensures IsGroup(queue, n)
    ensures WellFormed(rep) && AllOk(queue[..n]) && UpdatesOf(rep) == UpdatesIn(queue[..n])
  {
    hide WellFormed, Updates, UpdatesIn, SizeIn, AllOk;
    PrefixOne(queue);
    var first := queue[0];
    rep := first.batch.value;
    var size := |rep|;
    var maxSize := 0x10_0000;
    if size <= 0x2_0000 { maxSize := size + 0x2_0000; }
    var tmpBatch := new WriteBatch();
    var switched := false;
    n := 1;
    while n < |queue|
      invariant 1 <= n <= |queue| && size == SizeIn(queue[..n]) && (size <= maxSize || size == |first.batch.value|)
      invariant !first.sync ==> forall i :: 0 <= i < n ==> !queue[i].sync
      invariant switched ==> tmpBatch.rep == rep && |rep| <= size <= 0x10_0000
      invariant !switched ==>
          rep == first.batch.value && |rep| <= size && WellFormed(tmpBatch.rep) && UpdatesOf(tmpBatch.rep) == [] &&
            |tmpBatch.rep| == BATCH_HEADER
      invariant WellFormed(rep) && AllOk(queue[..n]) && UpdatesOf(rep) == UpdatesIn(queue[..n])
    {
      var w := queue[n];
      PrefixStep(queue, n);
      BatchOk(queue, n);
      if w.sync && !first.sync { break; }
      if w.batch.Some? {
        size := size + |w.batch.value|;
        if size > maxSize { break; }
        if !switched {
          SmallBatch(first.batch.value);
          AppendTo(tmpBatch, rep);
          assert [] + UpdatesOf(rep) == UpdatesOf(rep);
          switched := true;
        }
        SmallBatch(tmpBatch.rep);
        SmallBatch(w.batch.value);
        AppendTo(tmpBatch, w.batch.value);
        rep := tmpBatch.rep;
      }
      n := n + 1;
    }
  }

  lemma SmallBatch(rep: Bytes)
    requires WellFormed(rep)
    ensures |UpdatesOf(rep)| + BATCH_HEADER <= |rep|
  {
    FewUpdates(rep[12..]);
  }

  /** WriteBatchInternal::Append of a batch given by its bytes. */
  method AppendTo(dst: WriteBatch, src: Bytes)
    requires WellFormed(dst.rep) && WellFormed(src) && |UpdatesOf(dst.rep)| + |UpdatesOf(src)| < WORD
    modifies dst
    ensures WellFormed(dst.rep) && UpdatesOf(dst.rep) == old(UpdatesOf(dst.rep)) + UpdatesOf(src)
    ensures |dst.rep| == old(|dst.rep|) + |src| - BATCH_HEADER
  {
    hide WellFormed;
    var source := new WriteBatch();
    source.rep := src;
    dst.Append(source);
  }

  // ---- All interleavings -------------------------------------------------------------------------

  /** What the writer in front is doing: nothing yet, or logging a group of n writers, or making the
      log safe, or applying the group's updates one by one with the mutex released. */
  datatype Phase =
    | Idle
    | Built(n: nat, rep: Bytes)
    | Logged(n: nat, rep: Bytes)
    | Applying(n: nat, rep: Bytes, applied: nat)

  /** `arrived` are all writers that ever queued up and `finished` those whose Write has returned;
      `records` is the log, `synced` how much of it has been made durable, `mem` what readers can
      find, and `last` the last published sequence number. */
  datatype State = State(arrived: seq<Writer>, finished: seq<Writer>, queue: seq<Writer>, phase: Phase,
                         records: seq<Bytes>, synced: nat, mem: set<Entry>, last: nat)

  ghost predicate Init(s: State) {
    s == State([], [], [], Idle, [], 0, {}, 0)
  }

  ghost function Ops(ws: seq<Writer>): seq<R.Op>
    requires AllOk(ws)
  {
    ToOps(UpdatesIn(ws))
  }

  datatype Step = Enqueue(w: Writer) | Lead | Log | Sync | Apply | Publish | Skip

  /** One atomic step, as the mutex and the leader's privilege allow them to interleave. */
  ghost predicate Next(s: State, step: Step, s': State)
    requires AllOk(s.queue)
  {
    match step
    case Enqueue(w) =>
      && AllOk([w])
      && s' == s.(arrived := s.arrived + [w], queue := s.queue + [w])
    case Lead =>
      && s.phase.Idle? && s.queue != [] && s.queue[0].batch.Some?
      && s'.phase.Built? && s' == s.(phase := s'.phase)
      && IsGroup(s.queue, s'.phase.n)
      && WellFormed(s'.phase.rep) && SequenceOf(s'.phase.rep) == s.last + 1
      && UpdatesOf(s'.phase.rep) == UpdatesIn(s.queue[..s'.phase.n])
    case Log =>
      && s.phase.Built?
      && s' == s.(phase := Logged(s.phase.n, s.phase.rep), records := s.records + [s.phase.rep])
    case Sync =>
      && s.phase.Logged? && s.queue != []
      && s' == s.(phase := Applying(s.phase.n, s.phase.rep, 0),
        synced := if s.queue[0].sync then |s.records| else s.synced)
    case Apply =>
      && s.phase.Applying? && WellFormed(s.phase.rep) && s.phase.applied < |UpdatesOf(s.phase.rep)|
      && (var e := R.OpEntry(ToOp(UpdatesOf(s.phase.rep)[s.phase.applied]), SequenceOf(s.phase.rep) + s.phase.applied);
          s' == s.(phase := s.phase.(applied := s.phase.applied + 1), mem := s.mem + {e}))
    case Publish =>
      && s.phase.Applying? && WellFormed(s.phase.rep) && s.phase.applied == |UpdatesOf(s.phase.rep)| &&
        s.phase.n <= |s.queue|
      && s' == s.(phase := Idle, last := s.last + |UpdatesOf(s.phase.rep)|,
                  finished := s.finished + s.queue[..s.phase.n], queue := s.queue[s.phase.n..])
    case Skip =>
      && s.phase.Idle? && s.queue != [] && s.queue[0].batch.None?
      && s' == s.(finished := s.finished + s.queue[..1], queue := s.queue[1..])
  }

  /** The group being committed is a prefix of the queue, led by its first writer. */
  ghost predicate GroupOk(s: State)
    requires AllOk(s.queue)
  {
    !s.phase.Idle? ==>
      (&& s.queue != [] && s.queue[0].batch.Some? && MayLead(s.queue, s.phase.n)
       && WellFormed(s.phase.rep) && SequenceOf(s.phase.rep) == s.last + 1
       && UpdatesOf(s.phase.rep) == UpdatesIn(s.queue[..s.phase.n])
       && (s.phase.Applying? ==>
         s.phase.applied <= |UpdatesOf(s.phase.rep)| && (s.queue[0].sync ==> s.synced == |s.records|)))
  }

  /** What is in the log but not published yet. */
  ghost function Unpublished(s: State): seq<R.Op>
    requires !s.phase.Idle? ==> WellFormed(s.phase.rep)
  {
    if s.phase.Logged? || s.phase.Applying? then ToOps(UpdatesOf(s.phase.rep)) else []
  }

  /** How much of the group has been applied. */
  ghost function Applied(s: State): seq<R.Op>
    requires s.phase.Applying? ==> WellFormed(s.phase.rep) && s.phase.applied <= |UpdatesOf(s.phase.rep)|
  {
    if s.phase.Applying? then ToOps(UpdatesOf(s.phase.rep)[..s.phase.applied]) else []
  }

  /** Every finished sync writer's updates are in the durable part of the log. */
  ghost predicate Durable(finished: seq<Writer>, records: seq<Bytes>, synced: nat)
    requires AllOk(finished) && AllWellFormed(records) && synced <= |records|
  {
    forall i :: 0 <= i < |finished| && finished[i].sync && finished[i].batch.Some? ==>
        InLog(finished, i, records, synced)
  }

  /** The updates of writers up to i are in the durable part of the log. */
  ghost predicate InLog(finished: seq<Writer>, i: nat, records: seq<Bytes>, synced: nat)
    requires AllOk(finished) && AllWellFormed(records) && synced <= |records| && i < |finished|
  {
    Ops(finished[..i + 1]) <= OpsOf(records[..synced])
  }

  ghost predicate Inv(s: State) {
    && AllOk(s.queue) && AllOk(s.finished) && s.arrived == s.finished + s.queue
    && GroupOk(s)
    && AllWellFormed(s.records) && Committed(s.records, 1) && OpsOf(s.records) == Ops(s.finished) + Unpublished(s)
    && s.last == |Ops(s.finished)|
    && s.mem == R.OpEntries(Ops(s.finished) + Applied(s), 1)
    && s.synced <= |s.records| && Durable(s.finished, s.records, s.synced)
  }

  // ---- Every step keeps it -----------------------------------------------------------------------

  lemma {:induction false} UpdatesAppend(a: seq<Writer>, b: seq<Writer>)
    requires AllOk(a) && AllOk(b)
    ensures AllOk(a + b) && UpdatesIn(a + b) == UpdatesIn(a) + UpdatesIn(b)
    decreases |b|
  {
    hide WellFormed, Updates;
    if b == [] {
      assert a + b == a;
    } else {
      var rest, last := b[..|b| - 1], b[|b| - 1];
      UpdatesAppend(a, rest);
      assert (a + b)[..|a + b| - 1] == a + rest;
      assert a + b == (a + rest) + [last];
      var more := if last.batch.None? then [] else UpdatesOf(last.batch.value);
      assert (UpdatesIn(a) + UpdatesIn(rest)) + more == UpdatesIn(a) + (UpdatesIn(rest) + more);
    }
  }

  lemma OpsAppend(a: seq<Writer>, b: seq<Writer>)
    requires AllOk(a) && AllOk(b)
    ensures AllOk(a + b) && Ops(a + b) == Ops(a) + ToOps(UpdatesIn(b))
  {
    UpdatesAppend(a, b);
    ToOpsAppend(UpdatesIn(a), UpdatesIn(b));
  }

  lemma {:induction false} CommittedAppend(records: seq<Bytes>, first: nat, rep: Bytes)
    requires AllWellFormed(records) && Committed(records, first) && WellFormed(rep)
    requires SequenceOf(rep) == first + |OpsOf(records)|
    ensures AllWellFormed(records + [rep]) && Committed(records + [rep], first)
    ensures OpsOf(records + [rep]) == OpsOf(records) + ToOps(UpdatesOf(rep))
    decreases |records|
  {
    hide WellFormed, UpdatesOf, SequenceOf, ToOps;
    if records == [] {
      assert [rep][1..] == [];
      assert OpsOf([rep]) == ToOps(UpdatesOf(rep)) + [];
    } else {
      CommittedAppend(records[1..], first + |UpdatesOf(records[0])|, rep);
      assert (records + [rep])[1..] == records[1..] + [rep] && (records + [rep])[0] == records[0];
      assert AllWellFormed(records + [rep]);
      hide AllWellFormed;
    }
  }

  lemma EnqueueKeeps(s: State, w: Writer, s': State)
    requires Inv(s) && Next(s, Enqueue(w), s')
    ensures Inv(s')
  {
    hide WellFormed, Updates, Committed, OpsOf, Durable, Ops, SizeIn, ToOps, R.OpEntries, UpdatesIn;
    forall i | 0 <= i < |s'.queue| && s'.queue[i].batch.Some? ensures WellFormed(s'.queue[i].batch.value) {
      if i == |s.queue| { assert s'.queue[i] == [w][0]; }
    }
    if !s.phase.Idle? { assert s'.queue[..s.phase.n] == s.queue[..s.phase.n]; }
    assert (s.finished + s.queue) + [w] == s.finished + (s.queue + [w]);
  }

  lemma LeadKeeps(s: State, s': State)
    requires Inv(s) && Next(s, Lead, s')
    ensures Inv(s')
  {
    hide WellFormed, Updates, Committed, OpsOf, Durable, Ops, SizeIn, ToOps, R.OpEntries, UpdatesIn;
  }

  lemma LogKeeps(s: State, s': State)
    requires Inv(s) && Next(s, Log, s')
    ensures Inv(s')
  {
    hide WellFormed, Updates, UpdatesOf, SequenceOf, Committed, OpsOf, Ops, SizeIn, ToOps, R.OpEntries, UpdatesIn;
    assert Ops(s.finished) + [] == Ops(s.finished);
    CommittedAppend(s.records, 1, s.phase.rep);
    assert s'.records[..s.synced] == s.records[..s.synced];
    forall i | 0 <= i < |s.finished| && s.finished[i].sync && s.finished[i].batch.Some?
      ensures InLog(s'.finished, i, s'.records, s'.synced)
    {
      assert InLog(s.finished, i, s.records, s.synced);
    }
  }

  lemma SyncKeeps(s: State, s': State)
    requires Inv(s) && Next(s, Sync, s')
    ensures Inv(s')
  {
    hide WellFormed, Updates, Committed, Ops, SizeIn, R.OpEntries, UpdatesIn;
    if s.queue[0].sync { SyncedAll(s, s'); }
  }

  lemma SyncedAll(s: State, s': State)
    requires Inv(s) && s'.finished == s.finished && s'.records == s.records && s'.synced == |s.records|
    ensures Durable(s'.finished, s'.records, s'.synced)
  {
    hide WellFormed, Updates, UpdatesOf, Committed, SizeIn, R.OpEntries, UpdatesIn, OpsOf, Ops;
    assert s.records[..|s.records|] == s.records;
    forall i | 0 <= i < |s.finished| ensures InLog(s.finished, i, s.records, |s.records|) {
      OpsPrefixOf(s.finished, i + 1);
    }
  }

  lemma OpsPrefixOf(ws: seq<Writer>, n: nat)
    requires AllOk(ws) && n <= |ws|
    ensures AllOk(ws[..n]) && Ops(ws[..n]) <= Ops(ws)
  {
    hide WellFormed, Updates, UpdatesIn;
    OpsAppend(ws[..n], ws[n..]);
    assert ws == ws[..n] + ws[n..];
  }

  lemma ApplyKeeps(s: State, s': State)
    requires Inv(s) && Next(s, Apply, s')
    ensures Inv(s')
  {
    hide WellFormed, Updates, UpdatesOf, SequenceOf, Committed, OpsOf, Durable, Ops, SizeIn, UpdatesIn, ToOps, ToOp;
    hide AllWellFormed, R.OpEntries, R.OpEntry;
    var us, n := UpdatesOf(s.phase.rep), s.phase.applied;
    AppliedOneMore(Ops(s.finished), us, n);
  }

  /** One more update of the group is in the memtable. */
  lemma {:induction false} AppliedOneMore(done: seq<R.Op>, us: seq<Update>, n: nat)
    requires n < |us|
    ensures R.OpEntries(done + ToOps(us[..n + 1]), 1)
         == R.OpEntries(done + ToOps(us[..n]), 1) + {R.OpEntry(ToOp(us[n]), |done| + 1 + n)}
  {
    hide R.OpEntries, R.OpEntry, ToOp;
    OneMore(us, n, |done| + 1);
    R.OpEntriesAppend(done, ToOps(us[..n]), 1);
    R.OpEntriesAppend(done, ToOps(us[..n + 1]), 1);
  }

  lemma PublishKeeps(s: State, s': State)
    requires Inv(s) && Next(s, Publish, s')
    ensures Inv(s')
  {
    hide WellFormed, Updates, UpdatesOf, SequenceOf, Committed, OpsOf, Durable, SizeIn, UpdatesIn, R.OpEntries, ToOps;
    var n := s.phase.n;
    assert s.queue == s.queue[..n] + s.queue[n..];
    OpsAppend(s.finished, s.queue[..n]);
    assert UpdatesOf(s.phase.rep)[..s.phase.applied] == UpdatesOf(s.phase.rep);
    hide Ops;
    assert Ops(s'.finished) + [] == Ops(s'.finished);
    PublishDurable(s, s');
  }

  lemma PublishDurable(s: State, s': State)
    requires Inv(s) && Next(s, Publish, s') && AllOk(s'.finished)
    ensures Durable(s'.finished, s'.records, s'.synced)
  {
    hide WellFormed, Updates, UpdatesOf, SequenceOf, Committed, OpsOf, SizeIn, UpdatesIn, R.OpEntries, Ops, ToOps;
    assert Ops(s.finished) + ToOps(UpdatesOf(s.phase.rep)) == OpsOf(s.records);
    var n := s.phase.n;
    forall i | 0 <= i < |s'.finished| && s'.finished[i].sync && s'.finished[i].batch.Some?
      ensures InLog(s'.finished, i, s'.records, s'.synced)
    {
      if i < |s.finished| {
        assert InLog(s.finished, i, s.records, s.synced);
        assert s'.finished[..i + 1] == s.finished[..i + 1];
      } else {
        assert s.queue[..n][i - |s.finished|] == s.queue[i - |s.finished|];
        assert s.queue[0].sync;
        OpsAppend(s.finished, s.queue[..n]);
        OpsPrefixOf(s'.finished, i + 1);
        assert s.records[..|s.records|] == s.records;
      }
    }
  }

  lemma SkipKeeps(s: State, s': State)
    requires Inv(s) && Next(s, Skip, s')
    ensures Inv(s')
  {
    hide WellFormed, Updates, UpdatesOf, SequenceOf, Committed, OpsOf, SizeIn, R.OpEntries, Ops;
    var one := s.queue[..1];
    assert one[..0] == [] && UpdatesIn(one) == [];
    assert s.queue == one + s.queue[1..];
    OpsAppend(s.finished, one);
    assert Ops(s.finished) + [] == Ops(s.finished);
    forall i | 0 <= i < |s'.finished| && s'.finished[i].sync && s'.finished[i].batch.Some?
      ensures InLog(s'.finished, i, s'.records, s'.synced)
    {
      assert i < |s.finished|;
      assert InLog(s.finished, i, s.records, s.synced);
      assert s'.finished[..i + 1] == s.finished[..i + 1];
    }
  }

  lemma NextKeeps(s: State, step: Step, s': State)
    requires Inv(s) && Next(s, step, s')
    ensures Inv(s')
  {
    hide Inv, Next;
    match step
    case Enqueue(w) => EnqueueKeeps(s, w, s');
    case Lead => LeadKeeps(s, s');
    case Log => LogKeeps(s, s');
    case Sync => SyncKeeps(s, s');
    case Apply => ApplyKeeps(s, s');
    case Publish => PublishKeeps(s, s');
    case Skip => SkipKeeps(s, s');
  }

  // ---- Runs --------------------------------------------------------------------------------------

  ghost predicate Run(states: seq<State>, steps: seq<Step>) {
    && |states| == |steps| + 1 && Init(states[0])
    && forall i :: 0 <= i < |steps| ==> AllOk(states[i].queue) && Next(states[i], steps[i], states[i + 1])
  }

  lemma {:induction false} RunKeepsInv(states: seq<State>, steps: seq<Step>, n: nat)
    requires Run(states, steps) && n < |states|
    ensures Inv(states[n])
  {
    if n == 0 {
      assert Ops([]) == [];
    } else {
      hide Inv;
      RunKeepsInv(states, steps, n - 1);
      NextKeeps(states[n - 1], steps[n - 1], states[n]);
    }
  }

  /** In every state of every interleaving: the writes are logged once each, in order of arrival, with
      consecutive sequence numbers, and at most one group is logged ahead of what is published. */
  lemma LoggedOnceInOrder(states: seq<State>, steps: seq<Step>, n: nat)
    requires Run(states, steps) && n < |states|
    ensures var s := states[n];
            && AllOk(s.arrived) && AllOk(s.finished) && AllWellFormed(s.records) && Committed(s.records, 1)
            && OpsOf(s.records) <= Ops(s.arrived) && Ops(s.finished) <= OpsOf(s.records) && s.last == |Ops(s.finished)|
            && (s.phase.Idle? ==> OpsOf(s.records) == Ops(s.finished))
  {
    hide WellFormed, Updates, UpdatesOf, Committed, OpsOf, SizeIn, UpdatesIn, R.OpEntries, Durable;
    RunKeepsInv(states, steps, n);
    var s := states[n];
    OpsAppend(s.finished, s.queue);
    assert Ops(s.finished) + [] == Ops(s.finished);
    if s.phase.Logged? || s.phase.Applying? {
      OpsAppend(s.queue[..s.phase.n], s.queue[s.phase.n..]);
      assert s.queue == s.queue[..s.phase.n] + s.queue[s.phase.n..];
    }
  }

  /** No reader sees part of a group: at the published sequence number the memtable, in whatever state
      the leader has it, has for every byte key what the finished writers' last update of it says. */
  lemma ReadersSeeWholeGroups(states: seq<State>, steps: seq<Step>, n: nat, k: Bytes)
    requires Run(states, steps) && n < |states|
    ensures var s := states[n];
            AllOk(s.finished) && s.last == |UpdatesIn(s.finished)|
            && R.Read(s.mem, Rank(k), s.last) == Find(Contents(UpdatesIn(s.finished)), k)
  {
    hide WellFormed, Updates, UpdatesOf, Committed, OpsOf, SizeIn, UpdatesIn, Durable, R.OpEntries;
    RunKeepsInv(states, steps, n);
    var s := states[n];
    var all := Ops(s.finished) + Applied(s);
    R.HistoryIsMap(all, s.last, Rank(k));
    PrefixMap(Ops(s.finished), Applied(s), s.last);
    var us := UpdatesIn(s.finished);
    MapIsContents(us, |us|, k);
    assert us[..|us|] == us;
  }

  lemma {:induction false} PrefixMap(a: seq<R.Op>, b: seq<R.Op>, n: nat)
    requires n <= |a|
    ensures R.MapAt(a + b, n) == R.MapAt(a, n)
  {
    if n > 0 { PrefixMap(a, b, n - 1); }
  }

  // ---- What readers of the store see of it -----------------------------------------------------------

  /** The store as far as it is published. */
  ghost function Published(s: State): L.Db {
    L.Db((set e | e in s.mem && e.sn <= s.last), None, [{}, {}, {}, {}, {}, {}, {}], s.last, [], 2)
  }

  lemma PublishedMem(s: State)
    requires Inv(s)
    ensures Published(s).mem == R.OpEntries(Ops(s.finished), 1)
  {
    hide WellFormed, Updates, UpdatesOf, SequenceOf, Committed, OpsOf, Durable, SizeIn, UpdatesIn, Ops;
    R.OpEntriesAppend(Ops(s.finished), Applied(s), 1);
  }

  /** Publishing a group is one write of all its updates to the store, and no other step of any writer
      changes what is published. */
  lemma PublishIsWrite(s: State, step: Step, s': State)
    requires Inv(s) && Next(s, step, s') && s'.last < MAX_SEQUENCE
    ensures AllOk(s.finished) && AllOk(s'.finished)
    ensures if step.Publish? then
              && s.phase.Applying? && WellFormed(s.phase.rep)
              && Ops(s'.finished) == Ops(s.finished) + ToOps(UpdatesOf(s.phase.rep))
              && L.WriteStep(Published(s), Published(s'), ToOps(UpdatesOf(s.phase.rep)))
            else Ops(s'.finished) == Ops(s.finished) && Published(s') == Published(s)
  {
    hide Inv, Next, WellFormed, UpdatesOf, ToOps, R.OpEntries, Ops, AllOk;
    NextKeeps(s, step, s');
    FinishedAfter(s, step, s');
    PublishedMem(s);
    PublishedMem(s');
    LastIsCount(s);
    if step.Publish? { R.OpEntriesAppend(Ops(s.finished), ToOps(UpdatesOf(s.phase.rep)), 1); }
  }

  lemma LastIsCount(s: State)
    requires Inv(s)
    ensures AllOk(s.finished) && s.last == |Ops(s.finished)|
  {}

  /** What a step adds to the writers that are done. */
  lemma FinishedAfter(s: State, step: Step, s': State)
    requires Inv(s) && Next(s, step, s')
    ensures AllOk(s.finished) && AllOk(s'.finished)
    ensures if step.Publish? then
              && s.phase.Applying? && WellFormed(s.phase.rep)
              && Ops(s'.finished) == Ops(s.finished) + ToOps(UpdatesOf(s.phase.rep))
              && s'.last == s.last + |UpdatesOf(s.phase.rep)|
            else Ops(s'.finished) == Ops(s.finished) && s'.last == s.last
  {
    hide WellFormed, Updates, UpdatesOf, SequenceOf, Committed, OpsOf, Durable, SizeIn, R.OpEntries, ToOps;
    if step.Publish? {
      hide UpdatesIn;
      OpsAppend(s.finished, s.queue[..s.phase.n]);
    } else if step.Skip? {
      assert s.queue[..1][..0] == [] && UpdatesIn(s.queue[..1]) == [];
      OpsAppend(s.finished, s.queue[..1]);
      NoOps();
      assert Ops(s.finished) + [] == Ops(s.finished);
    }
  }

  lemma NoOps()
    ensures ToOps([]) == []
  {}

  /** A finished sync write survives any crash that keeps the durable part of the log: it is among the
      updates that recovery finds. */
  lemma SyncedSurvives(states: seq<State>, steps: seq<Step>, n: nat, i: nat, step: CrcStep, file: Bytes)
    requires Run(states, steps) && n < |states| && i < |states[n].finished|
    requires states[n].finished[i].sync && states[n].finished[i].batch.Some?
    requires CutOf(file, 0, EmitAll(step, 0, states[n].records))
    requires states[n].synced <= |states[n].records| ==>
        |EmitAll(step, 0, states[n].records[..states[n].synced])| <= |file|
    ensures var s := states[n]; var found := ReadAll(step, file, 0).0;
            AllOk(s.finished) && AllWellFormed(found) && Ops(s.finished[..i + 1]) <= OpsOf(found) && found <= s.records
  {
    hide WellFormed, Updates, UpdatesOf, Committed, SizeIn, UpdatesIn, R.OpEntries, EmitAll, ReadAll, Ops;
    RunKeepsInv(states, steps, n);
    var s := states[n];
    CrashPrefix(step, file, 0, s.records);
    var m := Whole(step, 0, s.records, |file|);
    WholeIsExact(step, 0, s.records, |file|, s.synced);
    assert InLog(s.finished, i, s.records, s.synced);
    assert s.records[..m][..s.synced] == s.records[..s.synced];
    OpsOfPrefix(s.records[..m], s.synced);
  }

  lemma {:induction false} OpsOfPrefix(records: seq<Bytes>, m: nat)
    requires AllWellFormed(records) && m <= |records|
    ensures OpsOf(records[..m]) <= OpsOf(records)
    decreases |records|
  {
    hide WellFormed, Updates;
    if records != [] && m > 0 {
      OpsOfPrefix(records[1..], m - 1);
      assert records[..m][1..] == records[1..][..m - 1];
    }
  }
}
