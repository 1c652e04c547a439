/** What a reader at a snapshot sees in a collection of entries, and in the history of writes. */
module Reads {
  import opened DbFormat

  ghost predicate Visible(e: Entry, k: UserKey, s: nat) { e.user == k && e.sn <= s }

  /** e is the newest entry of user key k that a reader at snapshot s may see. */
  ghost predicate Newest(S: set<Entry>, k: UserKey, s: nat, e: Entry) {
    e in S && Visible(e, k, s) && forall f :: f in S && Visible(f, k, s) ==> f.sn <= e.sn
  }

  ghost predicate NoneVisible(S: set<Entry>, k: UserKey, s: nat) {
    forall f :: f in S ==> !Visible(f, k, s)
  }

  ghost predicate UniqueSeqs(S: set<Entry>) {
    forall e, f :: e in S && f in S && e.user == f.user && e.sn == f.sn ==> e == f
  }

  /** For every user key, all of A is newer than all of B. */
  ghost predicate Newer(A: set<Entry>, B: set<Entry>) {
    forall a, b :: a in A && b in B && a.user == b.user ==> a.sn > b.sn
  }

  function Answer(e: Entry): Option<Bytes> { if e.kind.Value? then Some(e.value) else None }

  /** The value of k at snapshot s; a deletion reads as absent. */
  ghost function Read(S: set<Entry>, k: UserKey, s: nat): Option<Bytes> {
    if exists e :: Newest(S, k, s, e) then
      var e :| Newest(S, k, s, e); Answer(e)
    else None
  }

  lemma NewestExists(S: set<Entry>, k: UserKey, s: nat) returns (r: Option<Entry>)
    ensures r.None? ==> NoneVisible(S, k, s)
    ensures r.Some? ==> Newest(S, k, s, r.value)
  {
    if x :| x in S && Visible(x, k, s) {
      r := NewestExists(S - {x}, k, s);
      if r.None? || r.value.sn < x.sn { r := Some(x); }
    } else {
      r := None;
    }
  }

  lemma ReadNewest(S: set<Entry>, k: UserKey, s: nat, e: Entry)
    requires UniqueSeqs(S) && Newest(S, k, s, e)
    ensures Read(S, k, s) == Answer(e)
  {
    forall f | Newest(S, k, s, f) ensures f == e { assert f.sn == e.sn; }
  }

  lemma ReadNone(S: set<Entry>, k: UserKey, s: nat)
    requires NoneVisible(S, k, s)
    ensures Read(S, k, s) == None
  {}

  /** A reader that finds nothing in a newer layer reads the older layer. */
  lemma ReadSkips(U: set<Entry>, A: set<Entry>, k: UserKey, s: nat)
    requires UniqueSeqs(U + A) && NoneVisible(U, k, s)
    ensures Read(U + A, k, s) == Read(A, k, s)
  {
    var r := NewestExists(A, k, s);
    if r.Some? {
      ReadNewest(A, k, s, r.value);
      ReadNewest(U + A, k, s, r.value);
    }
  }

  /** The first layer with a visible entry decides. */
  lemma ReadStops(U: set<Entry>, A: set<Entry>, k: UserKey, s: nat, e: Entry)
    requires UniqueSeqs(U + A) && Newer(U, A) && Newest(U, k, s, e)
    ensures Newest(U + A, k, s, e) && Read(U + A, k, s) == Answer(e)
  {
    ReadNewest(U + A, k, s, e);
  }

  /** Layers that read alike still read alike under a common newer layer. */
  lemma ReadUnderLayer(U: set<Entry>, A: set<Entry>, B: set<Entry>, k: UserKey, s: nat)
    requires UniqueSeqs(U + A) && UniqueSeqs(U + B) && Newer(U, A) && Newer(U, B)
    requires Read(A, k, s) == Read(B, k, s)
    ensures Read(U + A, k, s) == Read(U + B, k, s)
  {
    var r := NewestExists(U, k, s);
    if r.Some? {
      ReadStops(U, A, k, s, r.value);
      ReadStops(U, B, k, s, r.value);
    } else {
      ReadSkips(U, A, k, s);
      ReadSkips(U, B, k, s);
    }
  }

  // ---- The history of writes -------------------------------------------------------------

  /** One record of a write batch; the i-th record ever written carries sequence number i + 1. */
  datatype Op = Put(user: UserKey, value: Bytes) | Delete(user: UserKey)

  function OpEntry(op: Op, sn: nat): Entry {
    match op
    case Put(k, v) => Entry(k, sn, Value, v)
    case Delete(k) => Entry(k, sn, Deletion, [])
  }

  /** The entries written by `ops` when the first gets sequence number `first`. */
  ghost function OpEntries(ops: seq<Op>, first: nat): (r: set<Entry>)
    ensures forall e :: e in r ==> first <= e.sn < first + |ops|
  {
    if ops == [] then {} else {OpEntry(ops[0], first)} + OpEntries(ops[1..], first + 1)
  }

  lemma {:induction false} OpEntryIn(ops: seq<Op>, first: nat, i: nat)
    requires i < |ops|
    ensures OpEntry(ops[i], first + i) in OpEntries(ops, first)
  {
    if i > 0 { OpEntryIn(ops[1..], first + 1, i - 1); }
  }

  lemma {:induction false} OpEntryIs(ops: seq<Op>, first: nat, e: Entry)
    requires e in OpEntries(ops, first)
    ensures e == OpEntry(ops[e.sn - first], e.sn)
  {
    if e != OpEntry(ops[0], first) { OpEntryIs(ops[1..], first + 1, e); }
  }

  lemma {:induction false} OpEntriesAppend(x: seq<Op>, y: seq<Op>, first: nat)
    ensures OpEntries(x + y, first) == OpEntries(x, first) + OpEntries(y, first + |x|)
  {
    if x == [] {
      assert x + y == y;
    } else {
      assert (x + y)[1..] == x[1..] + y;
      OpEntriesAppend(x[1..], y, first + 1);
    }
  }

  ghost function History(h: seq<Op>): set<Entry> { OpEntries(h, 1) }

  /** The database as a finite map after the first n writes: the specification of a snapshot. */
  ghost function MapAt(h: seq<Op>, n: nat): map<UserKey, Bytes>
    requires n <= |h|
  {
    if n == 0 then map[]
    else match h[n - 1]
      case Put(k, v) => MapAt(h, n - 1)[k := v]
      case Delete(k) => MapAt(h, n - 1) - {k}
  }

  ghost function Lookup(m: map<UserKey, Bytes>, k: UserKey): Option<Bytes> {
    if k in m then Some(m[k]) else None
  }

  lemma HistoryUnique(h: seq<Op>)
    ensures UniqueSeqs(History(h))
  {
    forall e, f | e in History(h) && f in History(h) && e.user == f.user && e.sn == f.sn ensures e == f {
      OpEntryIs(h, 1, e);
      OpEntryIs(h, 1, f);
    }
  }

  lemma HistoryStep(h: seq<Op>, n: nat, k: UserKey)
    requires 0 < n <= |h|
    ensures Read(History(h), k, n)
         == if h[n - 1].user == k then Answer(OpEntry(h[n - 1], n)) else Read(History(h), k, n - 1)
  {
    HistoryUnique(h);
    var e := OpEntry(h[n - 1], n);
    OpEntryIn(h, 1, n - 1);
    if e.user == k {
      ReadNewest(History(h), k, n, e);
    } else {
      var r := NewestExists(History(h), k, n - 1);
      forall f | f in History(h) && Visible(f, k, n) ensures f.sn <= n - 1 { OpEntryIs(h, 1, f); }
      if r.Some? {
        ReadNewest(History(h), k, n - 1, r.value);
        ReadNewest(History(h), k, n, r.value);
      }
    }
  }

  /** Reading the history at snapshot n is looking the key up in the n-th map. */
  lemma {:induction false} HistoryIsMap(h: seq<Op>, n: nat, k: UserKey)
    requires n <= |h|
    ensures Read(History(h), k, n) == Lookup(MapAt(h, n), k)
  {
    if n == 0 {
      ReadNone(History(h), k, 0);
    } else {
      HistoryIsMap(h, n - 1, k);
      HistoryStep(h, n, k);
    }
  }

  /** Later writes do not change what earlier snapshots read. */
  lemma HistoryGrows(h: seq<Op>, ops: seq<Op>)
    ensures History(h + ops) == History(h) + OpEntries(ops, |h| + 1)
    ensures Newer(OpEntries(ops, |h| + 1), History(h))
  {
    OpEntriesAppend(h, ops, 1);
  }

  // ---- Compaction's drop rule ------------------------------------------------------------

  /** Rule (A): a newer entry of the same user key is itself old enough for every snapshot. */
  ghost predicate Hidden(In: set<Entry>, e: Entry, smallest: nat) {
    exists p :: p in In && p.user == e.user && e.sn < p.sn <= smallest
  }

  /** The other rule: a deletion marker every snapshot sees, in a key that no deeper level covers. */
  ghost predicate Obsolete(e: Entry, smallest: nat, covered: iset<UserKey>) {
    e.kind.Deletion? && e.sn <= smallest && e.user !in covered
  }

  ghost function Kept(In: set<Entry>, smallest: nat, covered: iset<UserKey>): set<Entry> {
    set e | e in In && !Hidden(In, e, smallest) && !Obsolete(e, smallest, covered)
  }

  /** The store's entries after the compaction inputs In are replaced by what survives. */
  ghost function AfterDrop(S: set<Entry>, In: set<Entry>, smallest: nat, covered: iset<UserKey>): set<Entry> {
    S - In + Kept(In, smallest, covered)
  }

  /** No dropped deletion marker that is the current answer has a live value left underneath. */
  ghost predicate NothingResurfaces(S: set<Entry>, In: set<Entry>, smallest: nat, covered: iset<UserKey>) {
    forall e :: e in In && Obsolete(e, smallest, covered) && Newest(S, e.user, smallest, e)
      ==> Read(S - In, e.user, smallest) == None
  }

  /** When the newest visible entry is a dropped deletion marker, the reader falls through to
      whatever the compaction did not touch. */
  lemma MarkerGone(S: set<Entry>, In: set<Entry>, smallest: nat, covered: iset<UserKey>, s: nat, e: Entry)
    requires UniqueSeqs(S) && In <= S && s >= smallest
    requires e in In && Newest(S, e.user, s, e) && Obsolete(e, smallest, covered)
    ensures Read(S, e.user, s) == None
    ensures Read(AfterDrop(S, In, smallest, covered), e.user, s) == Read(S - In, e.user, smallest)
  {
    var K := Kept(In, smallest, covered);
    ReadNewest(S, e.user, s, e);
    forall f | f in In && f.user == e.user && f.sn < e.sn ensures Hidden(In, f, smallest) {}
    assert NoneVisible(K, e.user, s);
    var d := NewestExists(S - In, e.user, s);
    if d.Some? {
      ReadNewest(S - In, e.user, smallest, d.value);
      ReadNewest(S - In + K, e.user, s, d.value);
    }
  }

  lemma DropKeepsRead(S: set<Entry>, In: set<Entry>, smallest: nat, covered: iset<UserKey>, k: UserKey, s: nat)
    requires UniqueSeqs(S) && In <= S && s >= smallest
    requires NothingResurfaces(S, In, smallest, covered)
    ensures Read(AfterDrop(S, In, smallest, covered), k, s) == Read(S, k, s)
  {
    var r := NewestExists(S, k, s);
    if r.Some? {
      var e, S' := r.value, AfterDrop(S, In, smallest, covered);
      if e in S' {
        ReadNewest(S, k, s, e);
        ReadNewest(S', k, s, e);
      } else {
        MarkerGone(S, In, smallest, covered, s, e);
      }
    }
  }

  /** The drop rule keeps every read at every snapshot a compaction must honour if and only if no
      dropped deletion marker has a live value left underneath. */
  lemma DropRuleExact(S: set<Entry>, In: set<Entry>, smallest: nat, covered: iset<UserKey>)
    requires UniqueSeqs(S) && In <= S
    ensures NothingResurfaces(S, In, smallest, covered) <==>
            forall k, s: nat :: s >= smallest ==> Read(AfterDrop(S, In, smallest, covered), k, s) == Read(S, k, s)
  {
    if NothingResurfaces(S, In, smallest, covered) {
      forall k, s: nat | s >= smallest
        ensures Read(AfterDrop(S, In, smallest, covered), k, s) == Read(S, k, s)
      { DropKeepsRead(S, In, smallest, covered, k, s); }
    } else {
      var e :| e in In && Obsolete(e, smallest, covered) && Newest(S, e.user, smallest, e)
        && Read(S - In, e.user, smallest) != None;
      MarkerGone(S, In, smallest, covered, smallest, e);
    }
  }
}
