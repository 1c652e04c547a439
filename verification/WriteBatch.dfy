/** Batches of writes and their bytes (db/write_batch.cc). */
module WriteBatches {
  import opened DbFormat
  import opened Coding

  const BATCH_HEADER: nat := 12

  datatype Update = Put(key: Bytes, value: Bytes) | Delete(key: Bytes)

  /** Lengths are stored in 32 bits. */
  predicate Fits(u: Update) {
    |u.key| < WORD && (u.Put? ==> |u.value| < WORD)
  }

  function Bytewise(u: Update): Bytes {
    match u
    case Put(k, v) => [1] + Prefixed(k) + Prefixed(v)
    case Delete(k) => [0] + Prefixed(k)
  }

  /** The update at the front of a batch body and what follows it. */
  function FirstUpdate(body: Bytes): (r: Option<(Update, Bytes)>)
    requires body != []
    ensures r.Some? ==> |r.value.1| < |body|
  {
    if body[0] == 1 then
      match PrefixedValue(body[1..])
      case None => None
      case Some(k) => (
        match PrefixedValue(k.1)
        case None => None
        case Some(v) => Some((Put(k.0, v.0), v.1)))
    else if body[0] == 0 then
      match PrefixedValue(body[1..])
      case None => None
      case Some(k) => Some((Delete(k.0), k.1))
    else None
  }

  /** The updates a batch body holds, up to the first malformed one, and whether there is none. */
  function Updates(body: Bytes): (r: (seq<Update>, bool))
    decreases |body|
  {
    if body == [] then ([], true)
    else match FirstUpdate(body)
      case None => ([], false)
      case Some(p) => (var rest := Updates(p.1); ([p.0] + rest.0, rest.1))
  }

  lemma FirstRoundTrip(u: Update, rest: Bytes)
    requires Fits(u)
    ensures FirstUpdate(Bytewise(u) + rest) == Some((u, rest))
  {
    hide Prefixed, PrefixedValue;
    var b := Bytewise(u) + rest;
    match u
    case Put(k, v) =>
      assert b[1..] == Prefixed(k) + (Prefixed(v) + rest);
      PrefixedRoundTrip(k, Prefixed(v) + rest);
      PrefixedRoundTrip(v, rest);
    case Delete(k) =>
      assert b[1..] == Prefixed(k) + rest;
      PrefixedRoundTrip(k, rest);
  }

  /** What follows a complete update does not change how it is read. */
  lemma FirstExtends(body: Bytes, rest: Bytes)
    requires body != [] && FirstUpdate(body).Some?
    ensures FirstUpdate(body + rest) == Some((FirstUpdate(body).value.0, FirstUpdate(body).value.1 + rest))
  {
    hide PrefixedValue;
    assert (body + rest)[1..] == body[1..] + rest;
    PrefixedExtends(body[1..], rest);
    var k := PrefixedValue(body[1..]).value;
    if body[0] == 1 { PrefixedExtends(k.1, rest); }
  }

  /** The updates of a well-formed body followed by another are the one's followed by the other's. */
  lemma {:induction false} UpdatesConcat(a: Bytes, b: Bytes)
    requires Updates(a).1
    ensures Updates(a + b) == (Updates(a).0 + Updates(b).0, Updates(b).1)
    decreases |a|
  {
    hide FirstUpdate;
    if a == [] {
      assert a + b == b;
      assert Updates(a).0 + Updates(b).0 == Updates(b).0;
    } else {
      FirstExtends(a, b);
      var p := FirstUpdate(a).value;
      UpdatesConcat(p.1, b);
      assert [p.0] + (Updates(p.1).0 + Updates(b).0) == ([p.0] + Updates(p.1).0) + Updates(b).0;
    }
  }

  lemma UpdatesOne(u: Update)
    requires Fits(u)
    ensures Updates(Bytewise(u)) == ([u], true)
  {
    hide FirstUpdate, Bytewise;
    FirstRoundTrip(u, []);
    assert Bytewise(u) + [] == Bytewise(u);
    NotEmpty(u);
    assert [u] + Updates([]).0 == [u];
  }

  lemma NotEmpty(u: Update)
    ensures Bytewise(u) != []
  {}

  // ---- The bytes of a batch ----------------------------------------------------------------------

  /** A complete batch: a sequence number, a count, and that many updates. */
  predicate WellFormed(rep: Bytes) {
    |rep| >= BATCH_HEADER && Updates(rep[12..]).1 && FixedValue(rep[8..12]) == |Updates(rep[12..]).0|
  }

  function SequenceOf(rep: Bytes): nat
    requires WellFormed(rep)
  {
    FixedValue(rep[..8])
  }

  function UpdatesOf(rep: Bytes): seq<Update>
    requires WellFormed(rep)
  {
    Updates(rep[12..]).0
  }

  /** Growing a batch: a new count, and more bytes at the end. */
  lemma Grown(rep: Bytes, tail: Bytes, longer: Bytes)
    requires WellFormed(rep) && Updates(tail).1
    requires |UpdatesOf(rep)| + |Updates(tail).0| < WORD
    requires longer == rep[..8] + Fixed(4, |UpdatesOf(rep)| + |Updates(tail).0|) + rep[12..] + tail
    ensures WellFormed(longer) && SequenceOf(longer) == SequenceOf(rep)
    ensures UpdatesOf(longer) == UpdatesOf(rep) + Updates(tail).0
  {
    hide FirstUpdate, Updates, Fixed, FixedValue;
    var n := |UpdatesOf(rep)| + |Updates(tail).0|;
    assert longer[..8] == rep[..8] && longer[8..12] == Fixed(4, n) && longer[12..] == rep[12..] + tail;
    FixedWords(n);
    UpdatesConcat(rep[12..], tail);
  }

  class WriteBatch {
    var rep: Bytes

    constructor ()
      ensures WellFormed(rep) && UpdatesOf(rep) == [] && |rep| == BATCH_HEADER
    {
      rep := Fixed(8, 0) + Fixed(4, 0);
      new;
      FixedWords(0);
      assert rep[8..12] == Fixed(4, 0) && rep[12..] == [];
    }

    method Clear()
      modifies this
      ensures WellFormed(rep) && UpdatesOf(rep) == [] && |rep| == BATCH_HEADER
    {
      var empty := new WriteBatch();
      rep := empty.rep;
    }

    method Count() returns (n: nat)
      requires |rep| >= BATCH_HEADER
      ensures n == FixedValue(rep[8..12]) && n < WORD
    {
      n := DecodeFixed32(rep[8..]);
      assert rep[8..][..4] == rep[8..12];
    }

    method SetCount(n: nat)
      requires |rep| >= BATCH_HEADER && n < WORD
      modifies this
      ensures rep == old(rep[..8]) + Fixed(4, n) + old(rep[12..])
    {
      var c := EncodeFixed32(n);
      rep := rep[..8] + c + rep[12..];
    }

    method Sequence() returns (n: nat)
      requires |rep| >= BATCH_HEADER
      ensures n == FixedValue(rep[..8]) && n < DWORD
    {
      n := DecodeFixed64(rep);
    }

    method SetSequence(sequence: nat)
      requires WellFormed(rep) && sequence < DWORD
      modifies this
      ensures WellFormed(rep) && SequenceOf(rep) == sequence && UpdatesOf(rep) == old(UpdatesOf(rep))
    {
      hide Updates;
      ghost var was := rep;
      rep := Fixed(8, sequence) + rep[8..];
      FixedWords(sequence);
      assert rep[..8] == Fixed(8, sequence) && rep[8..12] == was[8..12] && rep[12..] == was[12..];
    }

    method Put(key: Bytes, value: Bytes)
      requires WellFormed(rep) && Fits(Update.Put(key, value)) && |UpdatesOf(rep)| + 1 < WORD
      modifies this
      ensures WellFormed(rep) && SequenceOf(rep) == old(SequenceOf(rep))
      ensures UpdatesOf(rep) == old(UpdatesOf(rep)) + [Update.Put(key, value)]
    {
      hide Updates, Fixed, FixedValue, Prefixed;
      ghost var was := rep;
      var n := Count();
      SetCount(n + 1);
      ghost var counted := rep;
      rep := rep + [1];
      rep := PutLengthPrefixedSlice(rep, key);
      rep := PutLengthPrefixedSlice(rep, value);
      ghost var u := Update.Put(key, value);
      assert rep == counted + Bytewise(u);
      UpdatesOne(u);
      Grown(was, Bytewise(u), rep);
    }

    method Delete(key: Bytes)
      requires WellFormed(rep) && Fits(Update.Delete(key)) && |UpdatesOf(rep)| + 1 < WORD
      modifies this
      ensures WellFormed(rep) && SequenceOf(rep) == old(SequenceOf(rep))
      ensures UpdatesOf(rep) == old(UpdatesOf(rep)) + [Update.Delete(key)]
    {
      hide Updates, Fixed, FixedValue, Prefixed;
      ghost var was := rep;
      var n := Count();
      SetCount(n + 1);
      ghost var counted := rep;
      rep := rep + [0];
      rep := PutLengthPrefixedSlice(rep, key);
      ghost var u := Update.Delete(key);
      assert rep == counted + Bytewise(u);
      UpdatesOne(u);
      Grown(was, Bytewise(u), rep);
    }

    /** Append: the other batch's updates follow this one's; its header is dropped. */
    method Append(src: WriteBatch)
      requires WellFormed(rep) && WellFormed(src.rep) && |UpdatesOf(rep)| + |UpdatesOf(src.rep)| < WORD && src != this
      modifies this
      ensures WellFormed(rep) && SequenceOf(rep) == old(SequenceOf(rep))
      ensures UpdatesOf(rep) == old(UpdatesOf(rep)) + UpdatesOf(src.rep)
      ensures |rep| == old(|rep|) + |src.rep| - BATCH_HEADER
    {
      hide Updates, Fixed, FixedValue;
      ghost var was := rep;
      var n := Count();
      var m := src.Count();
      SetCount(n + m);
      rep := rep + src.rep[12..];
      Grown(was, src.rep[12..], rep);
    }

    /** Iterate: the updates handed to the handler, and whether the batch is well formed. */
    method Iterate() returns (handled: seq<Update>, ok: bool)
      ensures ok <==> WellFormed(rep)
      ensures handled == if |rep| < BATCH_HEADER then [] else Updates(rep[12..]).0
    {
      hide FixedValue, PrefixedValue;
      handled := [];
      if |rep| < BATCH_HEADER { return [], false; }
      var input := rep[12..];
      var found: nat := 0;
      assert handled + Updates(input).0 == Updates(input).0;
      while input != []
        invariant Updates(rep[12..]) == (handled + Updates(input).0, Updates(input).1) && found == |handled|
        decreases |input|
      {
        ghost var body := input;
        found := found + 1;
        var next := Handle(input);
        if next.None? { return handled, false; }
        assert handled + ([next.value.0] + Updates(next.value.1).0) == (handled + [next.value.0]) +
            Updates(next.value.1).0;
        handled, input := handled + [next.value.0], next.value.1;
      }
      var n := Count();
      ok := found == n;
    }

    /** One round of Iterate: what the handler gets, unless the update is malformed. */
    static method Handle(body: Bytes) returns (r: Option<(Update, Bytes)>)
      requires body != []
      ensures r == FirstUpdate(body)
    {
      hide PrefixedValue;
      var tag := body[0];
      var input := body[1..];
      if tag == 1 {
        var key := GetLengthPrefixedSlice(input);
        if key.None? { return None; }
        var value := GetLengthPrefixedSlice(key.value.1);
        if value.None? { return None; }
        return Some((Update.Put(key.value.0, value.value.0), value.value.1));
      } else if tag == 0 {
        var key := GetLengthPrefixedSlice(input);
        if key.None? { return None; }
        return Some((Update.Delete(key.value.0), key.value.1));
      } else {
        return None;
      }
    }
  }
}
