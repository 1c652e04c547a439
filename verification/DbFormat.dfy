/** Internal keys and their order (db/dbformat.h, db/dbformat.cc, util/comparator.cc). */
module DbFormat {

  datatype Option<+T> = None | Some(value: T)

  type byte = x: int | 0 <= x < 256
  type Bytes = seq<byte>

  /** A user key stands for its position in the user comparator's order.  Reals lose nothing:
      `Comparator.RankOrder` places every byte string so that rank order is bytewise order. */
  type UserKey = real

  /** kMaxSequenceNumber. */
  const MAX_SEQUENCE: nat := 0x100_0000_0000_0000 - 1

  datatype Kind = Deletion | Value {
    function Code(): nat { if Value? then 1 else 0 }
  }

  function PackSequenceAndType(sn: nat, kind: Kind): nat { sn * 256 + kind.Code() }

  datatype IKey = IKey(user: UserKey, sn: nat, kind: Kind) {
    function Tag(): nat { PackSequenceAndType(sn, kind) }
  }

  /** InternalKeyComparator::Compare(a, b) < 0. */
  predicate Less(a: IKey, b: IKey) {
    a.user < b.user || (a.user == b.user && a.Tag() > b.Tag())
  }

  /** The packed 64-bit tag orders by sequence number first and by type second, and the
      comparator's "equal" is equality. */
  lemma TagOrder(a: IKey, b: IKey)
    ensures a.Tag() > b.Tag() <==> a.sn > b.sn || (a.sn == b.sn && a.kind.Value? && b.kind.Deletion?)
    ensures !Less(a, b) && !Less(b, a) <==> a == b
  {}

  datatype Entry = Entry(user: UserKey, sn: nat, kind: Kind, value: Bytes) {
    function Key(): IKey { IKey(user, sn, kind) }
  }

  ghost predicate Sorted(es: seq<Entry>) {
    forall i, j :: 0 <= i < j < |es| ==> Less(es[i].Key(), es[j].Key())
  }

  ghost function Elements<T>(s: seq<T>): (r: set<T>)
    ensures forall i :: 0 <= i < |s| ==> s[i] in r
    ensures forall x :: x in r ==> x in s
  {
    set x | x in s
  }

  /** LookupKey: the first internal key of `user` that a reader at `snapshot` may see. */
  function LookupKey(user: UserKey, snapshot: nat): IKey { IKey(user, snapshot, Value) }

  /** An entry sorts before the lookup key of (k, s) exactly when it belongs to a smaller user
      key or is too new for s. */
  lemma LookupOrder(e: IKey, k: UserKey, s: nat)
    ensures Less(e, LookupKey(k, s)) <==> e.user < k || (e.user == k && e.sn > s)
  {}
}

/** The bytewise comparator (util/comparator.cc). */
module Comparator {
  import opened DbFormat

  /** Slice::compare(a, b) < 0. */
  predicate BytesLess(a: Bytes, b: Bytes) {
    if b == [] then false
    else if a == [] then true
    else a[0] < b[0] || (a[0] == b[0] && BytesLess(a[1..], b[1..]))
  }

  /** A byte string read as a base-257 fraction with digits 1..256. */
  function Rank(s: Bytes): (r: real)
    ensures 0.0 <= r < 1.0
    ensures s != [] ==> r > 0.0
  {
    if s == [] then 0.0 else (s[0] as real + 1.0 + Rank(s[1..])) / 257.0
  }

  lemma {:induction false} RankOrder(a: Bytes, b: Bytes)
    ensures BytesLess(a, b) <==> Rank(a) < Rank(b)
    ensures a == b <==> Rank(a) == Rank(b)
  {
    if a != [] && b != [] {
      RankOrder(a[1..], b[1..]);
      if a[0] == b[0] {
        assert a == b <==> a[1..] == b[1..] by { assert a == [a[0]] + a[1..] && b == [b[0]] + b[1..]; }
      } else if a[0] < b[0] {
        assert a[0] as real + 1.0 <= b[0] as real;
      } else {
        assert b[0] as real + 1.0 <= a[0] as real;
      }
    }
  }
}
