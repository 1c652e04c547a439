/** A bidirectional cursor over a sorted sequence of entries: the contract of every internal iterator. */
module Cursors {
  import opened DbFormat

  datatype Direction = Forward | Reverse

  class Cursor {
    const es: seq<Entry>
    /** |es| means "not valid". */
    var pos: nat

    ghost predicate Ok()
      reads this
    {
      Sorted(es) && pos <= |es|
    }

    constructor (es: seq<Entry>)
      requires Sorted(es)
      ensures Ok() && this.es == es && pos == |es|
    {
      this.es := es;
      pos := |es|;
    }

    predicate Valid()
      reads this
    {
      pos < |es|
    }

    method SeekToFirst()
      requires Ok()
      modifies this
      ensures Ok() && pos == 0
    {
      pos := 0;
    }

    method SeekToLast()
      requires Ok()
      modifies this
      ensures Ok() && pos == if |es| == 0 then 0 else |es| - 1
    {
      pos := if |es| == 0 then 0 else |es| - 1;
    }

    method Seek(target: IKey)
      requires Ok()
      modifies this
      ensures Ok()
      ensures forall i :: 0 <= i < pos ==> Less(es[i].Key(), target)
      ensures forall i :: pos <= i < |es| ==> !Less(es[i].Key(), target)
    {
      pos := 0;
      while pos < |es| && Less(es[pos].Key(), target)
        invariant pos <= |es| && forall i :: 0 <= i < pos ==> Less(es[i].Key(), target)
      {
        pos := pos + 1;
      }
    }

    method Next()
      requires Ok() && Valid()
      modifies this
      ensures Ok() && pos == old(pos) + 1
    {
      pos := pos + 1;
    }

    method Prev()
      requires Ok() && Valid()
      modifies this
      ensures Ok() && pos == if old(pos) == 0 then |es| else old(pos) - 1
    {
      pos := if pos == 0 then |es| else pos - 1;
    }
  }
}

/** The user-facing iterator (db/db_iter.cc): one entry per live user key, both directions. */
module DbIter {
  import opened DbFormat
  import opened Reads
  import opened Cursors
  import opened Merger

  ghost predicate Seen(es: seq<Entry>, s: nat, i: nat)
    requires i < |es|
  {
    es[i].sn <= s
  }

  /** Entry i is the first visible one of its user key. */
  ghost predicate Leads(es: seq<Entry>, s: nat, i: nat)
    requires i < |es|
  {
    Seen(es, s, i) && forall j :: 0 <= j < i && es[j].user == es[i].user ==> !Seen(es, s, j)
  }

  /** Entry i is what a reader at s sees for its user key, and it is a value. */
  ghost predicate LiveAt(es: seq<Entry>, s: nat, i: nat)
    requires i < |es|
  {
    Leads(es, s, i) && es[i].kind.Value?
  }

  lemma Ascending(es: seq<Entry>, i: nat, j: nat)
    requires Sorted(es) && i <= j < |es|
    ensures es[i].user <= es[j].user
    ensures es[i].user == es[j].user ==> es[i].sn >= es[j].sn
  {
    if i < j { TagOrder(es[i].Key(), es[j].Key()); }
  }

  /** Live entries are exactly the values a reader reads. */
  lemma LiveIsRead(es: seq<Entry>, s: nat, k: UserKey)
    requires Sorted(es) && UniqueSeqs(Elements(es))
    ensures Read(Elements(es), k, s).Some? <==> exists i :: 0 <= i < |es| && LiveAt(es, s, i) && es[i].user == k
    ensures forall i :: 0 <= i < |es| && LiveAt(es, s, i) && es[i].user == k ==>
        Read(Elements(es), k, s) == Some(es[i].value)
  {
    forall i | 0 <= i < |es| && Leads(es, s, i) && es[i].user == k
      ensures Read(Elements(es), k, s) == Answer(es[i])
    {
      LeaderIsNewest(es, s, i);
      ReadNewest(Elements(es), k, s, es[i]);
    }
    var r := NewestExists(Elements(es), k, s);
    if r.Some? {
      var i :| 0 <= i < |es| && es[i] == r.value;
      NewestIsLeader(es, s, i);
    }
  }

  lemma LeaderIsNewest(es: seq<Entry>, s: nat, i: nat)
    requires Sorted(es) && i < |es| && Leads(es, s, i)
    ensures Newest(Elements(es), es[i].user, s, es[i])
  {
    forall f | f in Elements(es) && Visible(f, es[i].user, s) ensures f.sn <= es[i].sn {
      var j :| 0 <= j < |es| && es[j] == f;
      assert Seen(es, s, j);
      Ascending(es, i, if j < i then i else j);
    }
  }

  lemma NewestIsLeader(es: seq<Entry>, s: nat, i: nat)
    requires Sorted(es) && UniqueSeqs(Elements(es)) && i < |es| && Newest(Elements(es), es[i].user, s, es[i])
    ensures Leads(es, s, i)
  {
    forall j | 0 <= j < i && es[j].user == es[i].user ensures !Seen(es, s, j) {
      Ascending(es, j, i);
      assert es[j] in Elements(es) && es[i] in Elements(es);
      assert Less(es[j].Key(), es[i].Key());
    }
  }

  // ---- What a position means to the caller ----------------------------------------------------------

  /** k is the smallest live key above (or at) the bound; None if there is none. */
  ghost predicate FirstLive(es: seq<Entry>, s: nat, bound: Option<UserKey>, strict: bool, r: Option<nat>) {
    match r
    case Some(c) =>
      && c < |es| && LiveAt(es, s, c) && Above(es[c].user, bound, strict)
      && forall i :: 0 <= i < |es| && LiveAt(es, s, i) && Above(es[i].user, bound, strict) ==> es[c].user <= es[i].user
    case None => forall i :: 0 <= i < |es| && LiveAt(es, s, i) ==> !Above(es[i].user, bound, strict)
  }

  ghost predicate LastLive(es: seq<Entry>, s: nat, bound: Option<UserKey>, r: Option<nat>) {
    match r
    case Some(c) =>
      && c < |es| && LiveAt(es, s, c) && Below(es[c].user, bound)
      && forall i :: 0 <= i < |es| && LiveAt(es, s, i) && Below(es[i].user, bound) ==> es[i].user <= es[c].user
    case None => forall i :: 0 <= i < |es| && LiveAt(es, s, i) ==> !Below(es[i].user, bound)
  }

  predicate Above(k: UserKey, bound: Option<UserKey>, strict: bool) {
    bound.None? || k > bound.value || (!strict && k == bound.value)
  }

  predicate Below(k: UserKey, bound: Option<UserKey>) { bound.None? || k < bound.value }

  class DBIter {
    const iter: MergingIterator
    const sequence: nat
    var direction: Direction
    var valid: bool
    var savedKey: UserKey
    var savedValue: Bytes
    /** The index of the entry the iterator stands for. */
    ghost var at: nat

    ghost predicate Ok()
      reads this, iter, iter.children
    {
      && iter.Ok() && UniqueSeqs(Elements(iter.all))
      && (valid ==> at < |iter.all| && LiveAt(iter.all, sequence, at))
      && (valid && direction.Forward? ==> iter.pos == at)
      && (valid && direction.Reverse? ==> savedKey == iter.all[at].user && savedValue == iter.all[at].value
                                          && Gap(iter.all, sequence, iter.pos, savedKey))
    }

    /** pos stands before all visible entries below k except those at or before pos. */
    static ghost predicate Gap(es: seq<Entry>, s: nat, pos: nat, k: UserKey) {
      && (pos < |es| ==> es[pos].user < k)
      && forall j :: 0 <= j < |es| && (pos < j || pos == |es|) && es[j].user < k ==> !Seen(es, s, j)
    }

    ghost function Current(): Option<nat>
      reads this
    {
      if valid then Some(at) else None
    }

    constructor (iter: MergingIterator, s: nat)
      requires iter.Ok() && UniqueSeqs(Elements(iter.all))
      ensures Ok() && !valid && this.iter == iter && sequence == s
    {
      this.iter, sequence, direction, valid, savedKey, savedValue, at := iter, s, Forward, false, 0.0, [], 0;
    }

    /** key() and value() are a user key and its value at the iterator's sequence number. */
    method KeyValue() returns (k: UserKey, v: Bytes)
      requires Ok() && valid
      ensures k == iter.all[at].user && v == iter.all[at].value
      ensures Read(Elements(iter.all), k, sequence) == Some(v)
    {
      hide MergingIterator.Ok;
      if direction.Forward? {
        k, v := iter.Now().user, iter.Now().value;
      } else {
        k, v := savedKey, savedValue;
      }
      LiveIsRead(iter.all, sequence, k);
    }

    method SeekToFirst()
      requires Ok()
      modifies this, iter, iter.children
      ensures Ok() && FirstLive(iter.all, sequence, None, false, Current())
    {
      hide MergingIterator.Ok;
      direction, valid := Forward, false;
      savedValue := [];
      iter.SeekToFirst();
      if iter.Valid() {
        FindNextUserEntry(None, None, false);
      }
    }

    method Seek(target: UserKey)
      requires Ok()
      modifies this, iter, iter.children
      ensures Ok() && FirstLive(iter.all, sequence, Some(target), false, Current())
    {
      hide MergingIterator.Ok;
      direction, valid := Forward, false;
      savedValue := [];
      iter.Seek(IKey(target, sequence, Value));
      SeekSkips(target);
      if iter.Valid() {
        FindNextUserEntry(None, Some(target), false);
      }
    }

    lemma SeekSkips(target: UserKey)
      requires iter.Ok()
      requires forall i :: 0 <= i < iter.pos ==> Less(iter.all[i].Key(), IKey(target, sequence, Value))
      requires forall i :: iter.pos <= i < |iter.all| ==> !Less(iter.all[i].Key(), IKey(target, sequence, Value))
      ensures forall i :: 0 <= i < iter.pos ==> iter.all[i].user < target || !Seen(iter.all, sequence, i)
      ensures forall i :: iter.pos <= i < |iter.all| ==> iter.all[i].user >= target
      ensures forall i :: 0 <= i < iter.pos && iter.pos < |iter.all| && iter.all[i].user == iter.all[iter.pos].user
                ==> !Seen(iter.all, sequence, i)
    {
      forall i | 0 <= i < |iter.all|
        ensures Less(iter.all[i].Key(), IKey(target, sequence, Value)) <==>
                iter.all[i].user < target || (iter.all[i].user == target && !Seen(iter.all, sequence, i))
      {
        LookupOrder(iter.all[i].Key(), target, sequence);
      }
    }

    method Next()
      requires Ok() && valid
      modifies this, iter, iter.children
      ensures Ok() && FirstLive(iter.all, sequence, Some(old(iter.all[at].user)), true, Current())
    {
      hide MergingIterator.Ok;
      ghost var k := iter.all[at].user;
      if direction.Reverse? {
        direction := Forward;
        if !iter.Valid() {
          iter.SeekToFirst();
        } else {
          iter.Next();
        }
        // Entry `at` still lies ahead, so iter is valid here: the check at db_iter.cc:153-157 never fires.
      } else {
        savedKey := iter.Now().user;
      }
      valid := false;
      FindNextUserEntry(Some(savedKey), Some(k), true);
    }

    /** FindNextUserEntry(skipping, skip): `skip0` is Some exactly when skipping. */
    method FindNextUserEntry(skip0: Option<UserKey>, ghost bound: Option<UserKey>, ghost strict: bool)
      requires iter.Ok() && iter.Valid() && UniqueSeqs(Elements(iter.all)) && direction.Forward? && !valid
      requires SkipMatches(iter.all, iter.pos, skip0, bound, strict)
      requires Scan(iter.all, sequence, iter.pos, skip0, skip0, bound, strict)
      modifies this, iter, iter.children
      ensures Ok() && FirstLive(iter.all, sequence, bound, strict, Current())
    {
      hide MergingIterator.Ok;
      valid := ScanForward(iter, sequence, skip0, bound, strict);
      at := iter.pos;
    }

    /** The loop of FindNextUserEntry. */
    static method ScanForward(iter: MergingIterator, sequence: nat, skip0: Option<UserKey>,
        ghost bound: Option<UserKey>, ghost strict: bool)
      returns (found: bool)
      requires iter.Ok() && iter.Valid()
      requires SkipMatches(iter.all, iter.pos, skip0, bound, strict)
      requires Scan(iter.all, sequence, iter.pos, skip0, skip0, bound, strict)
      modifies iter, iter.children
      ensures iter.Ok() && (found ==> iter.pos < |iter.all| && LiveAt(iter.all, sequence, iter.pos))
      ensures FirstLive(iter.all, sequence, bound, strict, if found then Some(iter.pos) else None)
    {
      hide MergingIterator.Ok;
      var skip := skip0;
      ghost var start := iter.pos;
      while true
        invariant iter.Ok() && iter.Valid() && start <= iter.pos
        invariant Scan(iter.all, sequence, iter.pos, skip0, skip, bound, strict)
        decreases |iter.all| - iter.pos
      {
        var e := iter.Now();
        ScanStep(iter.all, sequence, iter.pos, skip0, skip, bound, strict);
        if e.sn <= sequence {
          if e.kind.Deletion? {
            skip := Some(e.user);
          } else if !(skip.Some? && e.user <= skip.value) {
            return true;
          }
        }
        iter.Next();
        if !iter.Valid() { break; }
      }
      return false;
    }

    /** One round of the loop: either the entry is the answer or the scan moves past it. */
    static lemma ScanStep(es: seq<Entry>, s: nat, pos: nat, skip0: Option<UserKey>, skip: Option<UserKey>,
                          bound: Option<UserKey>, strict: bool)
      requires Sorted(es) && pos < |es| && Scan(es, s, pos, skip0, skip, bound, strict)
      requires SkipMatches(es, pos, skip0, bound, strict)
      ensures var e := es[pos];
              if Seen(es, s, pos) && e.kind.Value? && !(skip.Some? && e.user <= skip.value) then
                LiveAt(es, s, pos) && FirstLive(es, s, bound, strict, Some(pos))
              else
                Scan(es, s, pos + 1, skip0, if Seen(es, s, pos) &&
                  e.kind.Deletion? then Some(e.user) else skip, bound, strict)
    {
      if !Seen(es, s, pos) {
        ScanUnseen(es, s, pos, skip0, skip, bound, strict);
      } else if es[pos].kind.Deletion? {
        ScanDeletion(es, s, pos, skip0, skip, bound, strict);
      } else if skip.Some? && es[pos].user <= skip.value {
        ScanHidden(es, s, pos, skip0, skip, bound, strict);
      } else {
        ScanFound(es, s, pos, skip0, skip, bound, strict);
      }
    }

    /** From pos on, being above the bound is not being skipped at the start. */
    static ghost predicate SkipMatches(es: seq<Entry>, pos: nat, skip0: Option<UserKey>, bound: Option<UserKey>,
        strict: bool) {
      forall i :: pos <= i < |es| ==>
        (Above(es[i].user, bound, strict) <==> !(skip0.Some? && es[i].user <= skip0.value))
    }

    /** The forward scan has passed every entry before pos: none of them is an answer, and whatever
        hides the entry at pos is recorded in skip. */
    static ghost predicate Scan(es: seq<Entry>, s: nat, pos: nat, skip0: Option<UserKey>, skip: Option<UserKey>,
                                bound: Option<UserKey>, strict: bool) {
      && pos <= |es|
      && (forall i :: 0 <= i < pos && LiveAt(es, s, i) ==> !Above(es[i].user, bound, strict))
      && (forall i :: pos <= i < |es| && Seen(es, s, i) && skip0.Some? ==> es[i].user >= skip0.value)
      && (skip0.Some? ==> skip.Some? && skip.value >= skip0.value)
      && (skip == skip0 || SeenBefore(es, s, pos, skip))
      && (pos < |es| && SeenBefore(es, s, pos, Some(es[pos].user)) ==> skip.Some? && es[pos].user <= skip.value)
    }

    /** Some visible entry before pos has the user key k. */
    static ghost predicate SeenBefore(es: seq<Entry>, s: nat, pos: nat, k: Option<UserKey>) {
      k.Some? && exists j :: 0 <= j < pos && j < |es| && es[j].user == k.value && Seen(es, s, j)
    }

    static lemma SameUserNext(es: seq<Entry>, s: nat, pos: nat)
      requires Sorted(es) && pos + 1 < |es|
      ensures SeenBefore(es, s, pos + 1, Some(es[pos + 1].user)) ==> es[pos].user == es[pos + 1].user
      ensures SeenBefore(es, s, pos + 1, Some(es[pos].user)) && !Seen(es, s, pos) ==>
          SeenBefore(es, s, pos, Some(es[pos].user))
    {
      if SeenBefore(es, s, pos + 1, Some(es[pos + 1].user)) {
        var j :| 0 <= j < pos + 1 && es[j].user == es[pos + 1].user && Seen(es, s, j);
        Ascending(es, j, pos);
        Ascending(es, pos, pos + 1);
      }
    }

    static lemma ScanUnseen(es: seq<Entry>, s: nat, pos: nat, skip0: Option<UserKey>, skip: Option<UserKey>,
                            bound: Option<UserKey>, strict: bool)
      requires Sorted(es) && pos < |es| && Scan(es, s, pos, skip0, skip, bound, strict) && !Seen(es, s, pos)
      ensures Scan(es, s, pos + 1, skip0, skip, bound, strict)
    {
      if pos + 1 < |es| { SameUserNext(es, s, pos); }
    }

    static lemma ScanDeletion(es: seq<Entry>, s: nat, pos: nat, skip0: Option<UserKey>, skip: Option<UserKey>,
                              bound: Option<UserKey>, strict: bool)
      requires Sorted(es) && pos < |es| && Scan(es, s, pos, skip0, skip, bound, strict)
      requires Seen(es, s, pos) && es[pos].kind.Deletion?
      ensures Scan(es, s, pos + 1, skip0, Some(es[pos].user), bound, strict)
    {
      if pos + 1 < |es| { SameUserNext(es, s, pos); }
    }

    static lemma ScanHidden(es: seq<Entry>, s: nat, pos: nat, skip0: Option<UserKey>, skip: Option<UserKey>,
                            bound: Option<UserKey>, strict: bool)
      requires Sorted(es) && pos < |es| && Scan(es, s, pos, skip0, skip, bound, strict)
      requires skip.Some? && es[pos].user <= skip.value
      requires Above(es[pos].user, bound, strict) <==> !(skip0.Some? && es[pos].user <= skip0.value)
      ensures Scan(es, s, pos + 1, skip0, skip, bound, strict)
    {
      if pos + 1 < |es| { SameUserNext(es, s, pos); }
      if skip != skip0 {
        var j :| 0 <= j < pos && es[j].user == skip.value && Seen(es, s, j);
        Ascending(es, j, pos);
      }
    }

    static lemma ScanFound(es: seq<Entry>, s: nat, pos: nat, skip0: Option<UserKey>, skip: Option<UserKey>,
                           bound: Option<UserKey>, strict: bool)
      requires Sorted(es) && pos < |es| && Scan(es, s, pos, skip0, skip, bound, strict)
      requires Seen(es, s, pos) && es[pos].kind.Value? && !(skip.Some? && es[pos].user <= skip.value)
      requires Above(es[pos].user, bound, strict) <==> !(skip0.Some? && es[pos].user <= skip0.value)
      ensures LiveAt(es, s, pos) && FirstLive(es, s, bound, strict, Some(pos))
    {
      assert !SeenBefore(es, s, pos, Some(es[pos].user));
      forall i | 0 <= i < |es| && LiveAt(es, s, i) &&
          Above(es[i].user, bound, strict) ensures es[pos].user <= es[i].user {
        Ascending(es, pos, if i < pos then pos else i);
      }
    }

    // ---- Backwards ---------------------------------------------------------------------------------------

    method SeekToLast()
      requires Ok()
      modifies this, iter, iter.children
      ensures Ok() && LastLive(iter.all, sequence, None, Current())
    {
      hide MergingIterator.Ok;
      direction, valid := Reverse, false;
      savedValue := [];
      iter.SeekToLast();
      FindPrevUserEntry(None);
    }

    method Prev()
      requires Ok() && valid
      modifies this, iter, iter.children
      ensures Ok() && LastLive(iter.all, sequence, Some(old(iter.all[at].user)), Current())
    {
      hide MergingIterator.Ok;
      ghost var k := iter.all[at].user;
      if direction.Forward? {
        savedKey := iter.Now().user;
        valid := false;
        while true
          invariant iter.Ok() && iter.Valid() && savedKey == k && !valid
          invariant forall i :: iter.pos <= i < |iter.all| ==> iter.all[i].user >= k
          decreases iter.pos
        {
          if iter.pos > 0 { assert forall i :: iter.pos - 1 <= i < |iter.all| ==>
              i == iter.pos - 1 || iter.all[i].user >= k; }
          iter.Prev();
          if !iter.Valid() {
            return;
          }
          if iter.Now().user < savedKey { break; }
        }
        direction := Reverse;
      }
      valid := false;
      FindPrevUserEntry(Some(k));
    }

    /** FindPrevUserEntry. */
    method FindPrevUserEntry(ghost bound: Option<UserKey>)
      requires iter.Ok() && UniqueSeqs(Elements(iter.all)) && direction.Reverse? && !valid
      requires BackScan(iter.all, sequence, iter.pos, bound, None)
      modifies this, iter, iter.children
      ensures Ok() && LastLive(iter.all, sequence, bound, Current())
    {
      hide MergingIterator.Ok;
      var valueType, found, k, v := ScanBackward(iter, sequence, bound);
      if valueType.Deletion? {
        valid, savedValue, direction := false, [], Forward;
      } else {
        valid, savedKey, savedValue := true, k, v;
        at := found.value;
      }
    }

    /** The loop of FindPrevUserEntry: remembers the last visible value until a visible entry of a smaller
        user key shows that nothing newer follows. */
    static method ScanBackward(iter: MergingIterator, sequence: nat, ghost bound: Option<UserKey>)
      returns (valueType: Kind, ghost found: Option<nat>, savedKey: UserKey, savedValue: Bytes)
      requires iter.Ok() && BackScan(iter.all, sequence, iter.pos, bound, None)
      modifies iter, iter.children
      ensures iter.Ok() && LastLive(iter.all, sequence, bound, found) && (valueType.Value? <==> found.Some?)
      ensures found.Some? ==> savedKey == iter.all[found.value].user && savedValue == iter.all[found.value].value
      ensures found.Some? ==> Gap(iter.all, sequence, iter.pos, savedKey)
    {
      hide MergingIterator.Ok;
      valueType, found, savedKey, savedValue := Deletion, None, 0.0, [];
      while iter.Valid()
        invariant iter.Ok() && BackScan(iter.all, sequence, iter.pos, bound, found)
        invariant valueType.Value? <==> found.Some?
        invariant found.Some? ==> savedKey == iter.all[found.value].user && savedValue == iter.all[found.value].value
        decreases if iter.Valid() then iter.pos + 1 else 0
      {
        var e := iter.Now();
        BackStep(iter.all, sequence, iter.pos, bound, found);
        if e.sn <= sequence {
          if !valueType.Deletion? && e.user < savedKey { return; }
          valueType := e.kind;
          if valueType.Deletion? {
            found := None;
          } else {
            found, savedKey, savedValue := Some(iter.pos), e.user, e.value;
          }
        }
        iter.Prev();
      }
      BackDone(iter.all, sequence, bound, found);
    }

    /** The entries a backward scan at pos has left behind. */
    static predicate Passed(es: seq<Entry>, pos: nat, i: nat) { i < |es| && (pos < i || pos == |es|) }

    /** Of the entries passed below the bound only c, the candidate, can be live. */
    static ghost predicate BackScan(es: seq<Entry>, s: nat, pos: nat, bound: Option<UserKey>, c: Option<nat>) {
      && pos <= |es|
      && (pos < |es| ==> Below(es[pos].user, bound))
      && (forall i: nat :: i < |es| && Passed(es, pos, i) && LiveAt(es, s, i) && Below(es[i].user, bound) ==>
        c == Some(i))
      && (c.Some? ==> CandidateOk(es, s, pos, bound, c.value))
    }

    static ghost predicate CandidateOk(es: seq<Entry>, s: nat, pos: nat, bound: Option<UserKey>, c: nat) {
      && Passed(es, pos, c) && Seen(es, s, c) && es[c].kind.Value? && Below(es[c].user, bound)
      && forall i: nat :: i < c && Passed(es, pos, i) ==> !Seen(es, s, i)
    }

    static function BackPos(es: seq<Entry>, pos: nat): nat { if pos == 0 then |es| else pos - 1 }

    static lemma BackStep(es: seq<Entry>, s: nat, pos: nat, bound: Option<UserKey>, c: Option<nat>)
      requires Sorted(es) && pos < |es| && BackScan(es, s, pos, bound, c)
      ensures var e := es[pos];
              if !Seen(es, s, pos) then BackScan(es, s, BackPos(es, pos), bound, c)
              else if c.Some? && e.user < es[c.value].user then
                LastLive(es, s, bound, c) && Gap(es, s, pos, es[c.value].user)
              else BackScan(es, s, BackPos(es, pos), bound, if e.kind.Deletion? then None else Some(pos))
    {
      forall i: nat | i < |es| ensures Passed(es, BackPos(es, pos), i) <==> Passed(es, pos, i) || i == pos {}
      if pos > 0 { Ascending(es, pos - 1, pos); }
      if Seen(es, s, pos) {
        if c.Some? && es[pos].user < es[c.value].user {
          BackFound(es, s, pos, bound, c.value);
        } else if c.Some? {
          Ascending(es, pos, c.value);
          assert !LiveAt(es, s, c.value);
        }
      }
    }

    /** A visible entry of a smaller user key: the candidate leads its user key and is the last live one. */
    static lemma BackFound(es: seq<Entry>, s: nat, pos: nat, bound: Option<UserKey>, c: nat)
      requires Sorted(es) && pos < |es| && BackScan(es, s, pos, bound, Some(c)) && es[pos].user < es[c].user
      ensures LastLive(es, s, bound, Some(c)) && Gap(es, s, pos, es[c].user)
    {
      forall j | 0 <= j < c && es[j].user == es[c].user ensures !Seen(es, s, j) {
        Ascending(es, if j < pos then j else pos, pos);
        assert Passed(es, pos, j);
      }
      forall i | 0 <= i < |es| && LiveAt(es, s, i) && Below(es[i].user, bound) ensures es[i].user <= es[c].user {
        if i <= pos { Ascending(es, i, pos); } else { assert Passed(es, pos, i); }
      }
      forall j | 0 <= j < |es| && pos < j && es[j].user < es[c].user ensures !Seen(es, s, j) {
        Ascending(es, if c < j then c else j, j);
        assert Passed(es, pos, j);
      }
    }

    /** The scan ran off the front. */
    static lemma BackDone(es: seq<Entry>, s: nat, bound: Option<UserKey>, c: Option<nat>)
      requires Sorted(es) && BackScan(es, s, |es|, bound, c)
      ensures LastLive(es, s, bound, c)
      ensures c.Some? ==> Gap(es, s, |es|, es[c.value].user)
    {
      assert forall i: nat :: i < |es| ==> Passed(es, |es|, i);
      if c.Some? {
        forall j | 0 <= j < |es| && es[j].user < es[c.value].user ensures !Seen(es, s, j) {
          Ascending(es, if c.value < j then c.value else j, j);
        }
      }
    }
  }
}
