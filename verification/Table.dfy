/** Internal keys as byte strings, their order, and shortened keys between them
    (db/dbformat.cc, util/comparator.cc). */
module InternalKeys {
  import opened DbFormat
  import opened Comparator
  import opened Coding
  import opened FilterBlocks

  /** DecodeFixed64 of the last 8 bytes. */
  function TagOf(key: Bytes): nat
    requires |key| >= 8
  {
    FixedValue(key[|key| - 8..])
  }

  /** InternalKeyComparator::Compare(a, b) < 0. */
  predicate KeyLess(a: Bytes, b: Bytes) {
    && |a| >= 8 && |b| >= 8
    && (BytesLess(UserPart(a), UserPart(b)) || (UserPart(a) == UserPart(b) && TagOf(a) > TagOf(b)))
  }

  /** The same order through ranks, for every pair of keys. */
  lemma KeyOrder()
    ensures forall a, b {:trigger KeyLess(a, b)} :: KeyLess(a, b) <==>
      |a| >= 8 && |b| >= 8 &&
        (Rank(UserPart(a)) < Rank(UserPart(b)) || (Rank(UserPart(a)) == Rank(UserPart(b)) && TagOf(a) > TagOf(b)))
    ensures forall a, b {:trigger UserPart(a), UserPart(b)} :: |a| >= 8 && |b| >= 8 ==>
        (UserPart(a) == UserPart(b) <==> Rank(UserPart(a)) == Rank(UserPart(b)))
    ensures forall a, b {:trigger BytesLess(a, b)} :: BytesLess(a, b) <==> Rank(a) < Rank(b)
  {
    forall a, b ensures BytesLess(a, b) <==> Rank(a) < Rank(b) { RankOrder(a, b); }
    forall a, b | |a| >= 8 && |b| >= 8
      ensures BytesLess(UserPart(a), UserPart(b)) <==> Rank(UserPart(a)) < Rank(UserPart(b))
      ensures UserPart(a) == UserPart(b) <==> Rank(UserPart(a)) == Rank(UserPart(b))
    {
      RankOrder(UserPart(a), UserPart(b));
    }
  }

  /** Equal up to n, smaller at n. */
  lemma {:induction false} FirstDifference(a: Bytes, b: Bytes, n: nat)
    requires n < |a| && n < |b| && a[..n] == b[..n] && a[n] < b[n]
    ensures BytesLess(a, b)
  {
    if n > 0 {
      assert a[0] == a[..n][0] == b[..n][0] == b[0];
      assert a[1..][..n - 1] == a[..n][1..] && b[1..][..n - 1] == b[..n][1..];
      FirstDifference(a[1..], b[1..], n - 1);
    }
  }

  /** BytewiseComparator::FindShortestSeparator, in place on a string. */
  method ShortestSeparator(start: Bytes, limit: Bytes) returns (r: Bytes)
    ensures |r| <= |start|
    ensures r == start || (BytesLess(start, r) && BytesLess(r, limit))
    ensures start <= limit || limit <= start ==> r == start
    ensures forall d :: 0 <= d < |start| && d < |limit| && start[..d] == limit[..d] && start[d] != limit[d] ==>
              r == if start[d] < 0xff && start[d] + 1 < limit[d] then start[..d] + [start[d] + 1] else start
  {
    r := start;
    var minLength := if |start| < |limit| then |start| else |limit|;
    var diff := 0;
    while diff < minLength && start[diff] == limit[diff]
      invariant diff <= minLength && start[..diff] == limit[..diff]
    {
      diff := diff + 1;
    }
    OneDifference(start, limit, diff);
    if diff < minLength {
      var c: int := start[diff];
      if c < 0xff && c + 1 < limit[diff] {
        r := r[diff := c + 1];
        r := r[..diff + 1];
        assert r[..diff] == start[..diff];
        FirstDifference(start, r, diff);
        FirstDifference(r, limit, diff);
      }
    }
  }

  lemma OneDifference(a: Bytes, b: Bytes, n: nat)
    requires n <= |a| && n <= |b| && a[..n] == b[..n]
    requires n < |a| && n < |b| ==> a[n] != b[n]
    ensures forall d :: 0 <= d < |a| && d < |b| && a[..d] == b[..d] && a[d] != b[d] ==> d == n
    ensures a <= b || b <= a ==> n == |a| || n == |b|
  {
    forall d | 0 <= d < |a| && d < |b| && a[..d] == b[..d] && a[d] != b[d] ensures d == n {
      if d < n { SamePlace(a, b, n, d); }
      if d > n { SamePlace(a, b, d, n); }
    }
  }

  lemma SamePlace(a: Bytes, b: Bytes, n: nat, i: nat)
    requires i < n <= |a| && n <= |b| && a[..n] == b[..n]
    ensures a[i] == b[i]
  {
    assert a[..n][i] == a[i] && b[..n][i] == b[i];
  }

  /** BytewiseComparator::FindShortSuccessor. */
  method ShortSuccessor(key: Bytes) returns (r: Bytes)
    ensures |r| <= |key|
    ensures r == key || BytesLess(key, r)
    ensures r == key ==> forall i :: 0 <= i < |key| ==> key[i] == 0xff
    ensures forall i :: 0 <= i < |key| && key[i] != 0xff && (forall n :: 0 <= n < i ==> key[n] == 0xff) ==>
        r == key[..i] + [key[i] + 1]
  {
    r := key;
    for i := 0 to |key|
      invariant forall n :: 0 <= n < i ==> key[n] == 0xff
    {
      var c: int := key[i];
      if c != 0xff {
        r := r[i := c + 1];
        r := r[..i + 1];
        assert r[..i] == key[..i];
        FirstDifference(key, r, i);
        assert r[i] != key[i];
        return;
      }
    }
  }

  /** A shortened key: a user key with the tag that sorts first. */
  function Earliest(user: Bytes): (r: Bytes)
    ensures |r| >= 8 && UserPart(r) == user
  {
    user + Fixed(8, PackSequenceAndType(MAX_SEQUENCE, Value))
  }

  /** sep may stand for everything from last up to, not including, the keys of next's user key. */
  ghost predicate Separates(last: Bytes, sep: Bytes, next: Option<Bytes>) {
    && |last| >= 8 && |sep| >= 8 && (next.Some? ==> |next.value| >= 8)
    && (sep == last || (BytesLess(UserPart(last), UserPart(sep)) &&
      (next.Some? ==> BytesLess(UserPart(sep), UserPart(next.value)))))
  }

  /** InternalKeyComparator::FindShortestSeparator. */
  method FindShortestSeparator(start: Bytes, limit: Bytes) returns (r: Bytes)
    requires |start| >= 8 && |limit| >= 8
    ensures Separates(start, r, Some(limit)) && |r| <= |start|
  {
    var userStart, userLimit := UserPart(start), UserPart(limit);
    var tmp := ShortestSeparator(userStart, userLimit);
    r := start;
    if |tmp| < |userStart| && BytesLess(userStart, tmp) {
      assert UserPart(Earliest(tmp)) == tmp;
      r := Earliest(tmp);
    }
  }

  /** InternalKeyComparator::FindShortSuccessor. */
  method FindShortSuccessor(key: Bytes) returns (r: Bytes)
    requires |key| >= 8
    ensures Separates(key, r, None) && |r| <= |key|
  {
    var userKey := UserPart(key);
    var tmp := ShortSuccessor(userKey);
    r := key;
    if |tmp| < |userKey| && BytesLess(userKey, tmp) {
      assert UserPart(Earliest(tmp)) == tmp;
      r := Earliest(tmp);
    }
  }
}

/** Why a lookup that trusts shortened index keys and filters is exact. */
module TableLookup {
  import opened DbFormat
  import opened Comparator
  import opened BlockFormat
  import opened FilterBlocks
  import opened InternalKeys

  ghost predicate Keyed(pairs: seq<Pair>) {
    forall i :: 0 <= i < |pairs| ==> |pairs[i].key| >= 8
  }

  /** The data blocks of a table. */
  type Chunks = seq<seq<Pair>>

  ghost function AllPairs(chunks: Chunks): seq<Pair> {
    if chunks == [] then [] else AllPairs(chunks[..|chunks| - 1]) + chunks[|chunks| - 1]
  }

  lemma {:induction false} AllPairsHas(chunks: Chunks, x: Pair)
    ensures x in AllPairs(chunks) <==> exists c :: 0 <= c < |chunks| && x in chunks[c]
  {
    if chunks != [] {
      var rest := chunks[..|chunks| - 1];
      AllPairsHas(rest, x);
      if x in AllPairs(rest) {
        var c :| 0 <= c < |rest| && x in rest[c];
        assert x in chunks[c];
      }
      if c :| 0 <= c < |chunks| && x in chunks[c] && c < |rest| { assert x in rest[c]; }
    }
  }

  /** What a lookup of k in a table of these pairs may report: the first pair at or after k, or
      nothing when no pair at or after k has k's user key. */
  ghost predicate Exact(pairs: seq<Pair>, k: Bytes, r: Option<Pair>)
    requires |k| >= 8
  {
    match r
    case Some(e) => e in pairs && !KeyLess(e.key, k) && forall x :: x in pairs ==>
        KeyLess(x.key, k) || !KeyLess(x.key, e.key)
    case None => forall x :: x in pairs && |x.key| >= 8 ==> KeyLess(x.key, k) || UserPart(x.key) != UserPart(k)
  }

  /** Every chunk is non-empty, in order, and followed by its separator. */
  ghost predicate Separated(chunks: Chunks, seps: seq<Bytes>) {
    && |seps| == |chunks|
    && (forall c :: 0 <= c < |chunks| ==> chunks[c] != [] && Keyed(chunks[c]) && Ascending(KeyLess, chunks[c]))
    && forall c :: 0 <= c < |chunks| ==> SeparatedAt(chunks, seps, c)
  }

  ghost predicate SeparatedAt(chunks: Chunks, seps: seq<Bytes>, c: nat)
    requires c < |chunks| == |seps|
  {
    && chunks[c] != [] && (c + 1 < |chunks| ==> chunks[c + 1] != [])
    && Separates(chunks[c][|chunks[c]| - 1].key, seps[c], if c + 1 < |chunks| then Some(chunks[c + 1][0].key) else None)
    && (c + 1 < |chunks| ==> KeyLess(chunks[c][|chunks[c]| - 1].key, chunks[c + 1][0].key))
  }

  /** The keys of a chunk are at most its separator, and below those of later chunks. */
  lemma BelowSeparator(chunks: Chunks, seps: seq<Bytes>, c: nat, x: Pair)
    requires Separated(chunks, seps) && c < |chunks| && x in chunks[c]
    ensures |x.key| >= 8 && |seps[c]| >= 8 && !KeyLess(seps[c], x.key)
    ensures c + 1 < |chunks| ==> KeyLess(seps[c], chunks[c + 1][0].key)
  {
    hide Rank, BytesLess, TagOf;
    KeyOrder();
    assert SeparatedAt(chunks, seps, c);
    var last := |chunks[c]| - 1;
    var i :| 0 <= i < |chunks[c]| && chunks[c][i] == x;
    assert i < last ==> KeyLess(x.key, chunks[c][last].key);
  }

  lemma {:induction false} SeparatorsAscend(chunks: Chunks, seps: seq<Bytes>, c: nat, d: nat)
    requires Separated(chunks, seps) && c < d < |chunks|
    ensures KeyLess(seps[c], seps[d]) && KeyLess(seps[c], chunks[d][0].key)
    decreases d
  {
    hide Rank, BytesLess, TagOf;
    KeyOrder();
    BelowSeparator(chunks, seps, d - 1, chunks[d - 1][0]);
    BelowSeparator(chunks, seps, d, chunks[d][0]);
    if c < d - 1 { SeparatorsAscend(chunks, seps, c, d - 1); }
  }

  /** Past a chunk, every user key is at least that of the next chunk's first key. */
  lemma FirstIsLeast(chunks: Chunks, seps: seq<Bytes>, c: nat, x: Pair)
    requires Separated(chunks, seps) && c < |chunks| && x in chunks[c]
    ensures |x.key| >= 8 && |chunks[c][0].key| >= 8 && !KeyLess(x.key, chunks[c][0].key)
  {
    hide Rank, BytesLess, TagOf;
    KeyOrder();
    var i :| 0 <= i < |chunks[c]| && chunks[c][i] == x;
    assert i > 0 ==> KeyLess(chunks[c][0].key, x.key);
  }

  /** No later chunk has k's user key at or after k unless this one does. */
  lemma LaterChunks(chunks: Chunks, seps: seq<Bytes>, k: Bytes, c: nat, d: nat, x: Pair)
    requires Separated(chunks, seps) && c < d < |chunks| && x in chunks[d] && |k| >= 8 && !KeyLess(seps[c], k)
    ensures |x.key| >= 8 && !KeyLess(x.key, k)
    ensures UserPart(x.key) == UserPart(k) ==>
      && seps[c] == chunks[c][|chunks[c]| - 1].key && UserPart(seps[c]) == UserPart(k)
  {
    hide Rank, BytesLess, TagOf;
    KeyOrder();
    BelowSeparator(chunks, seps, c, chunks[c][0]);
    FirstIsLeast(chunks, seps, d, x);
    FirstIsLeast(chunks, seps, c + 1, chunks[c + 1][0]);
    if c + 1 < d { SeparatorsAscend(chunks, seps, c + 1, d); BelowSeparator(chunks, seps, c + 1, chunks[c + 1][0]); }
    assert SeparatedAt(chunks, seps, c);
  }

  /** The index sends k to chunk c: all earlier chunks are below k. */
  lemma EarlierChunks(chunks: Chunks, seps: seq<Bytes>, k: Bytes, d: nat, x: Pair)
    requires Separated(chunks, seps) && d < |chunks| && x in chunks[d] && |k| >= 8 && KeyLess(seps[d], k)
    ensures KeyLess(x.key, k)
  {
    hide Rank, BytesLess, TagOf;
    KeyOrder();
    BelowSeparator(chunks, seps, d, x);
  }

  /** Searching chunk c alone gives an exact answer. */
  lemma ChunkDecides(chunks: Chunks, seps: seq<Bytes>, k: Bytes, c: nat, p: nat)
    requires Separated(chunks, seps) && c < |chunks| && |k| >= 8 && p <= |chunks[c]|
    requires (forall d :: 0 <= d < c ==> KeyLess(seps[d], k)) && !KeyLess(seps[c], k)
    requires forall i :: 0 <= i < p ==> KeyLess(chunks[c][i].key, k)
    requires forall i :: p <= i < |chunks[c]| ==> !KeyLess(chunks[c][i].key, k)
    ensures Exact(AllPairs(chunks), k, if p < |chunks[c]| then Some(chunks[c][p]) else None)
  {
    var r := if p < |chunks[c]| then Some(chunks[c][p]) else None;
    if r.Some? {
      AllPairsHas(chunks, r.value);
      assert r.value in chunks[c];
    }
    forall x | x in AllPairs(chunks)
      ensures KeyLess(x.key, k) ||
          (if r.Some? then !KeyLess(x.key, r.value.key) else |x.key| < 8 || UserPart(x.key) != UserPart(k))
    {
      AllPairsHas(chunks, x);
      var d :| 0 <= d < |chunks| && x in chunks[d];
      OtherPair(chunks, seps, k, c, p, d, x);
    }
  }

  lemma OtherPair(chunks: Chunks, seps: seq<Bytes>, k: Bytes, c: nat, p: nat, d: nat, x: Pair)
    requires Separated(chunks, seps) && c < |chunks| && d < |chunks| && x in chunks[d] && |k| >= 8 && p <= |chunks[c]|
    requires (forall d :: 0 <= d < c ==> KeyLess(seps[d], k)) && !KeyLess(seps[c], k)
    requires forall i :: 0 <= i < p ==> KeyLess(chunks[c][i].key, k)
    ensures KeyLess(x.key, k)
      || (if p < |chunks[c]| then !KeyLess(x.key, chunks[c][p].key) else |x.key| < 8 || UserPart(x.key) != UserPart(k))
  {
    hide Rank, BytesLess, TagOf;
    KeyOrder();
    if d < c {
      EarlierChunks(chunks, seps, k, d, x);
    } else if d > c {
      LaterChunks(chunks, seps, k, c, d, x);
      if p < |chunks[c]| {
        BelowSeparator(chunks, seps, c, chunks[c][p]);
        SeparatorsAscend(chunks, seps, c, d);
        FirstIsLeast(chunks, seps, d, x);
      } else {
        assert KeyLess(chunks[c][|chunks[c]| - 1].key, k);
      }
    } else {
      var i :| 0 <= i < |chunks[c]| && chunks[c][i] == x;
      if i > p { assert KeyLess(chunks[c][p].key, x.key); }
    }
  }

  /** When the chunk the index points to has no pair with k's user key, nothing at or after k has. */
  lemma SkipIsExact(chunks: Chunks, seps: seq<Bytes>, k: Bytes, c: nat)
    requires Separated(chunks, seps) && c < |chunks| && |k| >= 8
    requires (forall d :: 0 <= d < c ==> KeyLess(seps[d], k)) && !KeyLess(seps[c], k)
    requires forall i :: 0 <= i < |chunks[c]| ==> |chunks[c][i].key| >= 8 && UserPart(chunks[c][i].key) != UserPart(k)
    ensures Exact(AllPairs(chunks), k, None)
  {
    forall x | x in AllPairs(chunks) && |x.key| >= 8 ensures KeyLess(x.key, k) || UserPart(x.key) != UserPart(k) {
      AllPairsHas(chunks, x);
      var d :| 0 <= d < |chunks| && x in chunks[d];
      if d < c {
        EarlierChunks(chunks, seps, k, d, x);
      } else if d > c {
        LaterChunks(chunks, seps, k, c, d, x);
      }
    }
  }

  /** Past the last separator there is nothing. */
  lemma PastTheEnd(chunks: Chunks, seps: seq<Bytes>, k: Bytes)
    requires Separated(chunks, seps) && |k| >= 8 && forall d :: 0 <= d < |seps| ==> KeyLess(seps[d], k)
    ensures Exact(AllPairs(chunks), k, None)
  {
    forall x | x in AllPairs(chunks) ensures KeyLess(x.key, k) {
      AllPairsHas(chunks, x);
      var d :| 0 <= d < |chunks| && x in chunks[d];
      EarlierChunks(chunks, seps, k, d, x);
    }
  }
}
