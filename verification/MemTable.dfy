/** The memtable's entries as bytes (db/memtable.cc, db/dbformat.h, LookupKey in db/dbformat.cc).  The
    skip list that keeps them in order is `SkipLists`; here it is a sorted sequence. */
module MemTables {
  import opened DbFormat
  import opened Comparator
  import opened Coding
  import opened FilterBlocks
  import opened InternalKeys
  import opened Version

  /** The arguments of one Add. */
  datatype Insertion = Insertion(user: Bytes, sn: nat, kind: Kind, value: Bytes)

  predicate Fits(a: Insertion) {
    |a.user| + 8 < WORD && |a.value| < WORD && a.sn <= MAX_SEQUENCE
  }

  /** The entry it stands for. */
  function Image(a: Insertion): Entry { Entry(Rank(a.user), a.sn, a.kind, a.value) }

  function Images(added: seq<Insertion>): (r: seq<Entry>)
    ensures |r| == |added| && forall i :: 0 <= i < |added| ==> r[i] == Image(added[i])
  {
    seq(|added|, i requires 0 <= i < |added| => Image(added[i]))
  }

  /** AppendInternalKey. */
  function InternalKey(user: Bytes, sn: nat, kind: Kind): Bytes {
    user + Fixed(8, PackSequenceAndType(sn, kind))
  }

  function Encoded(a: Insertion): Bytes {
    Prefixed(InternalKey(a.user, a.sn, a.kind)) + Prefixed(a.value)
  }

  lemma InternalKeyParts(user: Bytes, sn: nat, kind: Kind)
    requires sn <= MAX_SEQUENCE
    ensures var key := InternalKey(user, sn, kind);
            |key| == |user| + 8 && UserPart(key) == user && TagOf(key) == PackSequenceAndType(sn, kind)
  {
    hide Fixed, FixedValue;
    var tag := PackSequenceAndType(sn, kind);
    FixedWords(tag);
    assert InternalKey(user, sn, kind)[|user|..] == Fixed(8, tag);
    assert UserPart(InternalKey(user, sn, kind)) == user;
  }

  /** An encoded entry gives back its key and its value. */
  lemma EncodedReads(a: Insertion)
    requires Fits(a)
    ensures PrefixedValue(Encoded(a)) == Some((InternalKey(a.user, a.sn, a.kind), Prefixed(a.value)))
    ensures PrefixedValue(Prefixed(a.value)) == Some((a.value, []))
  {
    hide Prefixed, PrefixedValue;
    InternalKeyParts(a.user, a.sn, a.kind);
    PrefixedRoundTrip(InternalKey(a.user, a.sn, a.kind), Prefixed(a.value));
    PrefixedRoundTrip(a.value, []);
    assert Prefixed(a.value) + [] == Prefixed(a.value);
  }

  /** The order of encoded entries is the order of the entries they stand for. */
  lemma EncodedOrder(a: Insertion, user: Bytes, sn: nat, kind: Kind)
    requires Fits(a) && sn <= MAX_SEQUENCE
    ensures KeyLess(InternalKey(a.user, a.sn, a.kind), InternalKey(user, sn, kind))
       <==> Less(Image(a).Key(), IKey(Rank(user), sn, kind))
    ensures KeyLess(InternalKey(user, sn, kind), InternalKey(a.user, a.sn, a.kind))
       <==> Less(IKey(Rank(user), sn, kind), Image(a).Key())
  {
    hide TagOf, UserPart;
    InternalKeyParts(a.user, a.sn, a.kind);
    InternalKeyParts(user, sn, kind);
    RankOrder(a.user, user);
    RankOrder(user, a.user);
  }

  /** MemTable::KeyComparator: both entries begin with a length-prefixed internal key. */
  method EntryLess(a: Bytes, b: Bytes) returns (r: bool)
    requires PrefixedValue(a).Some? && PrefixedValue(b).Some?
    ensures r <==> KeyLess(PrefixedValue(a).value.0, PrefixedValue(b).value.0)
  {
    var x := GetLengthPrefixedSlice(a);
    var y := GetLengthPrefixedSlice(b);
    r := KeyLess(x.value.0, y.value.0);
  }

  class MemTable {
    var table: seq<Bytes>
    ghost var added: seq<Insertion>

    ghost predicate Valid()
      reads this
    {
      && |table| == |added|
      && (forall i :: 0 <= i < |added| ==> Fits(added[i]) && table[i] == Encoded(added[i]))
      && Sorted(Images(added))
    }

    ghost function Contents(): set<Entry>
      reads this
    {
      Elements(Images(added))
    }

    constructor ()
      ensures Valid() && Contents() == {}
    {
      table, added := [], [];
    }

    /** The skip list's Seek: the first entry not before the one given. */
    method FindGreaterOrEqual(buf: Bytes, ghost user: Bytes, ghost sn: nat, ghost kind: Kind) returns (pos: nat)
      requires Valid() && sn <= MAX_SEQUENCE
      requires PrefixedValue(buf).Some? && PrefixedValue(buf).value.0 == InternalKey(user, sn, kind)
      ensures pos <= |table|
      ensures forall i :: 0 <= i < pos ==> Less(Image(added[i]).Key(), IKey(Rank(user), sn, kind))
      ensures pos < |table| ==> !Less(Image(added[pos]).Key(), IKey(Rank(user), sn, kind))
    {
      hide PrefixedValue, Encoded, KeyLess, InternalKey;
      pos := 0;
      while pos < |table|
        invariant pos <= |table|
        invariant forall i :: 0 <= i < pos ==> Less(Image(added[i]).Key(), IKey(Rank(user), sn, kind))
      {
        EncodedReads(added[pos]);
        EncodedOrder(added[pos], user, sn, kind);
        var before := EntryLess(table[pos], buf);
        if !before { return; }
        pos := pos + 1;
      }
    }

    /** Add; nothing that compares equal may be in the table. */
    method Add(sn: nat, kind: Kind, key: Bytes, value: Bytes)
      requires Valid() && Fits(Insertion(key, sn, kind, value))
      requires forall e :: e in Contents() ==> e.Key() != IKey(Rank(key), sn, kind)
      modifies this
      ensures Valid() && Contents() == old(Contents()) + {Image(Insertion(key, sn, kind, value))}
    {
      ghost var a := Insertion(key, sn, kind, value);
      var keyLength := EncodeVarint32(|key| + 8);
      var valueLength := EncodeVarint32(|value|);
      var buf := keyLength + key + Fixed(8, PackSequenceAndType(sn, kind)) + valueLength + value;
      Assembled(a, keyLength, valueLength, buf);
      EncodedReads(a);
      hide Encoded, PrefixedValue, Prefixed, Fixed, InternalKey, Sorted, Less, Rank, Varint;
      var pos := FindGreaterOrEqual(buf, key, sn, kind);
      assert pos < |added| ==> Images(added)[pos] in Contents();
      InsertAt(pos, buf, a);
    }

    /** The skip list's insertion before position pos. */
    method InsertAt(pos: nat, buf: Bytes, ghost a: Insertion)
      requires Valid() && Fits(a) && buf == Encoded(a) && pos <= |table|
      requires forall i :: 0 <= i < pos ==> Less(Image(added[i]).Key(), Image(a).Key())
      requires pos < |added| ==>
          !Less(Image(added[pos]).Key(), Image(a).Key()) && Image(added[pos]).Key() != Image(a).Key()
      modifies this
      ensures Valid() && Contents() == old(Contents()) + {Image(a)}
    {
      hide Encoded, Sorted, Less, Image, Fits;
      InsertedSorted(added, pos, a);
      InsertedContents(added, pos, a);
      table := table[..pos] + [buf] + table[pos..];
      added := added[..pos] + [a] + added[pos..];
    }

    static lemma Assembled(a: Insertion, keyLength: Bytes, valueLength: Bytes, buf: Bytes)
      requires keyLength == Varint(|a.user| + 8) && valueLength == Varint(|a.value|)
      requires buf == keyLength + a.user + Fixed(8, PackSequenceAndType(a.sn, a.kind)) + valueLength + a.value
      ensures buf == Encoded(a)
    {
      hide Varint, Fixed;
      var tag := Fixed(8, PackSequenceAndType(a.sn, a.kind));
      assert keyLength + a.user + tag + valueLength + a.value == (keyLength + (a.user + tag)) + (valueLength + a.value);
    }

    static lemma InsertedSorted(added: seq<Insertion>, pos: nat, a: Insertion)
      requires Sorted(Images(added)) && pos <= |added|
      requires forall i :: 0 <= i < pos ==> Less(Image(added[i]).Key(), Image(a).Key())
      requires pos < |added| ==>
          !Less(Image(added[pos]).Key(), Image(a).Key()) && Image(added[pos]).Key() != Image(a).Key()
      ensures Sorted(Images(added[..pos] + [a] + added[pos..]))
    {
      if pos < |added| { TagOrder(Image(added[pos]).Key(), Image(a).Key()); }
      forall i | pos <= i < |added| ensures Less(Image(a).Key(), Image(added[i]).Key()) {
        assert i > pos ==> Less(Images(added)[pos].Key(), Images(added)[i].Key());
      }
      forall i, j | 0 <= i < j < |added| ensures Less(Image(added[i]).Key(), Image(added[j]).Key()) {
        assert Less(Images(added)[i].Key(), Images(added)[j].Key());
      }
    }

    static lemma InsertedContents(added: seq<Insertion>, pos: nat, a: Insertion)
      requires pos <= |added|
      ensures Elements(Images(added[..pos] + [a] + added[pos..])) == Elements(Images(added)) + {Image(a)}
    {
      var now := added[..pos] + [a] + added[pos..];
      forall e | e in Elements(Images(added)) ensures e in Elements(Images(now)) {
        var i :| 0 <= i < |added| && Images(added)[i] == e;
        assert Images(now)[if i < pos then i else i + 1] == e;
      }
      assert Images(now)[pos] == Image(a);
      forall e | e in Elements(Images(now)) ensures e in Elements(Images(added)) + {Image(a)} {
        var i :| 0 <= i < |now| && Images(now)[i] == e;
        if i < pos { assert Images(added)[i] == e; } else if i > pos { assert Images(added)[i - 1] == e; }
      }
    }

    /** Get: what a reader of the key at the snapshot is told. */
    method Get(key: Bytes, snapshot: nat) returns (r: SaverState)
      requires Valid() && |key| + 8 < WORD && snapshot <= MAX_SEQUENCE
      ensures Answers(Contents(), Rank(key), snapshot, r)
    {
      hide Encoded, PrefixedValue, Prefixed, Fixed, InternalKey, Answers, LookedUp, UserPart, TagOf;
      InternalKeyParts(key, snapshot, Value);
      var memtableKey := PutLengthPrefixedSlice([], key + Fixed(8, PackSequenceAndType(snapshot, Value)));
      LookupKeyReads(key, snapshot, memtableKey);
      var pos := FindGreaterOrEqual(memtableKey, key, snapshot, Value);
      SeekLooksUp(added, key, snapshot, pos);
      ghost var entry := if pos < |added| then Some(Image(added[pos])) else None;
      LookupAnswers(Images(added), Rank(key), snapshot, entry);
      if pos == |table| { return NotFound; }
      ghost var a := added[pos];
      EncodedReads(a);
      InternalKeyParts(a.user, a.sn, a.kind);
      RankOrder(a.user, key);
      var found := GetLengthPrefixedSlice(table[pos]);
      var internalKey := found.value.0;
      if UserPart(internalKey) != key { return NotFound; }
      var tag := TagOf(internalKey);
      if tag % 256 == 1 {
        var v := GetLengthPrefixedSlice(found.value.1);
        return Found(v.value.0);
      }
      return Deleted;
    }

    static lemma LookupKeyReads(key: Bytes, snapshot: nat, memtableKey: Bytes)
      requires |key| + 8 < WORD && snapshot <= MAX_SEQUENCE
      requires memtableKey == [] + Prefixed(key + Fixed(8, PackSequenceAndType(snapshot, Value)))
      ensures PrefixedValue(memtableKey) == Some((InternalKey(key, snapshot, Value), []))
    {
      hide Prefixed, PrefixedValue, Fixed;
      var k := InternalKey(key, snapshot, Value);
      PrefixedRoundTrip(k, []);
      assert memtableKey == Prefixed(k) && Prefixed(k) + [] == Prefixed(k);
    }

    static lemma SeekLooksUp(added: seq<Insertion>, key: Bytes, snapshot: nat, pos: nat)
      requires Sorted(Images(added)) && pos <= |added|
      requires forall i :: 0 <= i < pos ==> Less(Image(added[i]).Key(), LookupKey(Rank(key), snapshot))
      requires pos < |added| ==> !Less(Image(added[pos]).Key(), LookupKey(Rank(key), snapshot))
      ensures LookedUp(Images(added), LookupKey(Rank(key), snapshot),
          if pos < |added| then Some(Image(added[pos])) else None)
    {
      hide Less, Rank;
      FirstLooksUp(Images(added), LookupKey(Rank(key), snapshot), pos);
    }

    static lemma FirstLooksUp(es: seq<Entry>, key: IKey, pos: nat)
      requires Sorted(es) && pos <= |es|
      requires forall i :: 0 <= i < pos ==> Less(es[i].Key(), key)
      requires pos < |es| ==> !Less(es[pos].Key(), key)
      ensures LookedUp(es, key, if pos < |es| then Some(es[pos]) else None)
    {
      if pos < |es| {
        forall x | x in es && Less(x.Key(), es[pos].Key()) ensures Less(x.Key(), key) {
          var i :| 0 <= i < |es| && es[i] == x;
          NotBehind(es, pos, i);
        }
      }
    }

    static lemma NotBehind(es: seq<Entry>, pos: nat, i: nat)
      requires Sorted(es) && pos < |es| && i < |es| && Less(es[i].Key(), es[pos].Key())
      ensures i < pos
    {
      TagOrder(es[pos].Key(), es[i].Key());
    }
  }
}
