/** A table file from the entries put in to the answers given out (db/builder.cc, db/table_cache.cc,
    SaveValue in db/version_set.cc). */
module StoredTables {
  import opened DbFormat
  import opened Comparator
  import opened Coding
  import opened Bloom
  import opened BlockFormat
  import opened FilterBlocks
  import opened InternalKeys
  import opened TableLookup
  import opened TableReader
  import opened TableBuilders
  import opened Version
  import opened MemTables

  /** The key and value that go into a table for an entry. */
  function PairOf(a: Insertion): Pair { Pair(InternalKey(a.user, a.sn, a.kind), a.value) }

  function PairsOf(added: seq<Insertion>): (r: seq<Pair>)
    ensures |r| == |added| && forall i :: 0 <= i < |added| ==> r[i] == PairOf(added[i])
  {
    seq(|added|, i requires 0 <= i < |added| => PairOf(added[i]))
  }

  /** SaveValue of version_set.cc on the pair that a table reports. */
  function Save(r: Option<Pair>, user: Bytes): SaverState {
    if r.None? || |r.value.key| < 8 || UserPart(r.value.key) != user then NotFound
    else if TagOf(r.value.key) % 256 == 1 then Found(r.value.value) else Deleted
  }

  lemma PairLess(a: Insertion, user: Bytes, sn: nat, kind: Kind)
    requires Fits(a) && sn <= MAX_SEQUENCE
    ensures KeyLess(PairOf(a).key, InternalKey(user, sn, kind)) <==> Less(Image(a).Key(), IKey(Rank(user), sn, kind))
    ensures KeyLess(InternalKey(user, sn, kind), PairOf(a).key) <==> Less(IKey(Rank(user), sn, kind), Image(a).Key())
    ensures |PairOf(a).key| >= 8 && (UserPart(PairOf(a).key) == user <==> Rank(a.user) == Rank(user))
  {
    hide KeyLess, Less;
    EncodedOrder(a, user, sn, kind);
    InternalKeyParts(a.user, a.sn, a.kind);
    RankOrder(a.user, user);
  }

  /** What comes before the pair that is found comes before the key that was looked up. */
  lemma EarlierPair(added: seq<Insertion>, user: Bytes, s: nat, i: nat, j: nat)
    requires i < |added| && j < |added| && Fits(added[i]) && Fits(added[j]) && s <= MAX_SEQUENCE
    requires |InternalKey(user, s, Value)| >= 8
    requires Exact(PairsOf(added), InternalKey(user, s, Value), Some(PairOf(added[i])))
    requires Less(Image(added[j]).Key(), Image(added[i]).Key())
    ensures Less(Image(added[j]).Key(), LookupKey(Rank(user), s))
  {
    hide Rank, Less, KeyLess;
    PairLess(added[j], user, s, Value);
    PairLess(added[j], added[i].user, added[i].sn, added[i].kind);
    assert PairsOf(added)[j] in PairsOf(added);
  }

  lemma NoneAt(added: seq<Insertion>, user: Bytes, s: nat, i: nat)
    requires i < |added| && Fits(added[i]) && s <= MAX_SEQUENCE
    requires |InternalKey(user, s, Value)| >= 8 && Exact(PairsOf(added), InternalKey(user, s, Value), None)
    ensures Rank(added[i].user) == Rank(user) ==> Less(Image(added[i]).Key(), LookupKey(Rank(user), s))
  {
    hide Rank, Less, KeyLess;
    PairLess(added[i], user, s, Value);
    InternalKeyParts(user, s, Value);
    assert PairsOf(added)[i] in PairsOf(added);
  }

  /** An exact lookup among keys in bytes is an exact lookup among the entries they stand for. */
  lemma NoneLooksUp(added: seq<Insertion>, user: Bytes, s: nat)
    requires (forall i :: 0 <= i < |added| ==> Fits(added[i])) && s <= MAX_SEQUENCE
    requires |InternalKey(user, s, Value)| >= 8 && Exact(PairsOf(added), InternalKey(user, s, Value), None)
    ensures LookedUp(Images(added), LookupKey(Rank(user), s), None)
  {
    hide Rank, Less, KeyLess, Exact;
    forall i | 0 <= i < |added| ensures Rank(added[i].user) == Rank(user) ==>
        Less(Image(added[i]).Key(), LookupKey(Rank(user), s)) {
      NoneAt(added, user, s, i);
    }
  }

  lemma SomeLooksUp(added: seq<Insertion>, user: Bytes, s: nat, i: nat)
    requires (forall i :: 0 <= i < |added| ==> Fits(added[i])) && i < |added| && s <= MAX_SEQUENCE
    requires |InternalKey(user, s, Value)| >= 8
    requires Exact(PairsOf(added), InternalKey(user, s, Value), Some(PairOf(added[i])))
    ensures LookedUp(Images(added), LookupKey(Rank(user), s), Some(Image(added[i])))
  {
    hide Rank, Less, KeyLess;
    PairLess(added[i], user, s, Value);
    assert Images(added)[i] == Image(added[i]);
    hide Exact;
    forall j | 0 <= j < |added| && Less(Image(added[j]).Key(), Image(added[i]).Key())
      ensures Less(Image(added[j]).Key(), LookupKey(Rank(user), s))
    {
      EarlierPair(added, user, s, i, j);
    }
  }

  /** What SaveValue makes of an exact lookup is what a reader of the entries must be told. */
  lemma SavedAnswers(added: seq<Insertion>, user: Bytes, s: nat, r: Option<Pair>)
    requires (forall i :: 0 <= i < |added| ==> Fits(added[i])) && s <= MAX_SEQUENCE
    requires |InternalKey(user, s, Value)| >= 8 && Exact(PairsOf(added), InternalKey(user, s, Value), r)
    ensures Answers(Elements(Images(added)), Rank(user), s, Save(r, user))
  {
    hide Answers, LookedUp, Rank, KeyLess, Less, InternalKey, UserPart, TagOf;
    if r.None? {
      NoneLooksUp(added, user, s);
      LookupAnswers(Images(added), Rank(user), s, None);
    } else {
      var i :| 0 <= i < |added| && PairsOf(added)[i] == r.value;
      var a := added[i];
      SomeLooksUp(added, user, s, i);
      LookupAnswers(Images(added), Rank(user), s, Some(Image(a)));
      SavedIs(a, user);
    }
  }

  lemma SavedIs(a: Insertion, user: Bytes)
    requires Fits(a)
    ensures Save(Some(PairOf(a)), user) == SaveValue(Some(Image(a)), Rank(user))
  {
    hide Rank, UserPart, TagOf, InternalKey;
    InternalKeyParts(a.user, a.sn, a.kind);
    RankOrder(a.user, user);
  }

  /** The end of BuildTable and the table cache's way back: finish the file and open it.  A file of 2^64
      bytes or more cannot be. */
  method FinishAndOpen(builder: TableBuilder, hash: Hash, paranoid: bool, filtered: bool) returns (t: Table?)
    requires builder.Valid() && builder.dataBlock.CurrentSizeEstimate() < WORD && |builder.file| < DWORD
    requires builder.indexBlock.CurrentSizeEstimate() + |builder.lastKey| + 39 < WORD
    requires builder.filterBlock != null ==> builder.filterBlock.hash == hash
    modifies builder.Parts()
    ensures builder.closed && (t != null <==> |builder.file| < DWORD)
    ensures t != null ==> t.Valid() && t.file == builder.file && AllPairs(t.parts.chunks) == old(builder.Contents())
  {
    ghost var parts := builder.Finish(hash);
    if |builder.file| >= DWORD { return null; }
    t := Table.Open(builder.step, hash, builder.file, paranoid, filtered, parts);
  }

  /** TableCache::Get with SaveValue: a table of these entries tells a reader what the entries do. */
  method Get(t: Table, ghost added: seq<Insertion>, user: Bytes, s: nat, verifyChecksums: bool) returns (r: SaverState)
    requires t.Valid() && AllPairs(t.parts.chunks) == PairsOf(added) && forall i :: 0 <= i < |added| ==> Fits(added[i])
    requires s <= MAX_SEQUENCE && (t.parts.filter.Some? ==> |t.parts.filter.value.result| < WORD)
    ensures Answers(Elements(Images(added)), Rank(user), s, r)
  {
    InternalKeyParts(user, s, Value);
    var pair := t.InternalGet(InternalKey(user, s, Value), verifyChecksums);
    SavedAnswers(added, user, s, pair);
    r := Save(pair, user);
  }
}
