/** Applying version edits (VersionSet::Builder, db/version_set.cc:590-755). */
module VersionBuilder {
  import opened DbFormat
  import opened Files
  import opened Lsm

  /** BySmallestKey: order by smallest key, then by file number. */
  predicate FileLess(f: File, g: File) {
    Less(f.smallest, g.smallest) || (f.smallest == g.smallest && f.number < g.number)
  }

  ghost predicate BySmallest(fs: seq<File>) { forall i, j :: 0 <= i < j < |fs| ==> FileLess(fs[i], fs[j]) }

  ghost function Numbers(fs: set<File>): set<nat> { set f | f in fs :: f.number }

  /** What one edit does to one level. */
  datatype LevelEdit = LevelEdit(deleted: set<nat>, added: seq<File>)

  /** A builder's accumulated changes to one level. */
  datatype LevelState = LevelState(deleted: set<nat>, added: set<File>)

  const UNTOUCHED: LevelState := LevelState({}, {})

  ghost function ApplyTo(st: LevelState, e: LevelEdit): LevelState {
    LevelState(st.deleted + e.deleted - Numbers(Elements(e.added)), st.added + Elements(e.added))
  }

  ghost function ApplyAll(st: LevelState, es: seq<LevelEdit>): LevelState {
    if es == [] then st else ApplyTo(ApplyAll(st, es[..|es| - 1]), es[|es| - 1])
  }

  /** The files of the level after saving. */
  ghost function Saved(base: set<File>, st: LevelState): set<File> {
    set f | f in base + st.added && f.number !in st.deleted
  }

  /** The level after applying and saving one edit at a time. */
  ghost function OneAtATime(base: set<File>, es: seq<LevelEdit>): set<File> {
    if es == [] then base
    else Saved(OneAtATime(base, es[..|es| - 1]), ApplyTo(UNTOUCHED, es[|es| - 1]))
  }

  /** All files that were ever in the level. */
  ghost function EverIn(base: set<File>, es: seq<LevelEdit>): set<File> {
    if es == [] then base else EverIn(base, es[..|es| - 1]) + Elements(es[|es| - 1].added)
  }

  /** No edit adds a number the level has seen before. */
  ghost predicate Fresh(base: set<File>, es: seq<LevelEdit>) {
    forall i :: 0 <= i < |es| ==> Numbers(EverIn(base, es[..i])) !! Numbers(Elements(es[i].added))
  }

  lemma {:induction false} AddedAreSeen(base: set<File>, es: seq<LevelEdit>)
    ensures base + ApplyAll(UNTOUCHED, es).added == EverIn(base, es)
  {
    if es != [] { AddedAreSeen(base, es[..|es| - 1]); }
  }

  lemma SaveOneMore(base: set<File>, st: LevelState, e: LevelEdit)
    requires Numbers(base + st.added) !! Numbers(Elements(e.added))
    ensures Saved(base, ApplyTo(st, e)) == Saved(Saved(base, st), ApplyTo(UNTOUCHED, e))
  {
    forall f | f in base + st.added ensures f.number !in Numbers(Elements(e.added)) {
      assert f.number in Numbers(base + st.added);
    }
    forall f | f in Elements(e.added) ensures f.number in Numbers(Elements(e.added)) {}
  }

  /** One builder for many edits saves the same files as one version per edit. */
  lemma {:induction false} BatchIsOneAtATime(base: set<File>, es: seq<LevelEdit>)
    requires Fresh(base, es)
    ensures Saved(base, ApplyAll(UNTOUCHED, es)) == OneAtATime(base, es)
  {
    if es == [] {
    } else {
      var n := |es| - 1;
      var front := es[..n];
      forall i | 0 <= i < n ensures Numbers(EverIn(base, front[..i])) !! Numbers(Elements(front[i].added)) {
        assert front[..i] == es[..i];
      }
      BatchIsOneAtATime(base, front);
      AddedAreSeen(base, front);
      SaveOneMore(base, ApplyAll(UNTOUCHED, front), es[n]);
    }
  }

  // ---- The code ------------------------------------------------------------------------------------

  lemma FileLessTotal(f: File, g: File)
    ensures FileLess(f, g) || FileLess(g, f) || (f.smallest == g.smallest && f.number == g.number)
    ensures !(FileLess(f, g) && FileLess(g, f))
  {
    TagOrder(f.smallest, g.smallest);
  }

  lemma FileLessTrans(f: File, g: File, h: File)
    requires FileLess(f, g) && FileLess(g, h)
    ensures FileLess(f, h)
  {}

  /** std::set::insert with BySmallestKey. */
  method InsertFile(fs: seq<File>, f: File) returns (r: seq<File>)
    requires BySmallest(fs) && NumbersUnique(Elements(fs) + {f})
    ensures BySmallest(r) && Elements(r) == Elements(fs) + {f}
  {
    var p := 0;
    while p < |fs| && FileLess(fs[p], f)
      invariant p <= |fs| && forall i :: 0 <= i < p ==> FileLess(fs[i], f)
    {
      p := p + 1;
    }
    if p < |fs| {
      FileLessTotal(fs[p], f);
      if fs[p].smallest == f.smallest && fs[p].number == f.number {
        assert fs[p] in Elements(fs);
        return fs;
      }
    }
    r := fs[..p] + [f] + fs[p..];
    InsertedInOrder(fs, p, f);
  }

  lemma InsertedInOrder(fs: seq<File>, p: nat, f: File)
    requires BySmallest(fs) && p <= |fs|
    requires forall i :: 0 <= i < p ==> FileLess(fs[i], f)
    requires p < |fs| ==> FileLess(f, fs[p])
    ensures BySmallest(fs[..p] + [f] + fs[p..])
    ensures Elements(fs[..p] + [f] + fs[p..]) == Elements(fs) + {f}
  {
    var r := fs[..p] + [f] + fs[p..];
    forall i | p <= i < |fs| ensures FileLess(f, fs[i]) {
      if i > p { FileLessTrans(f, fs[p], fs[i]); }
    }
    assert fs == fs[..p] + fs[p..];
    forall i, j | 0 <= i < j < |r| ensures FileLess(r[i], r[j]) {
      var i', j' := if i <= p then i else i - 1, if j <= p then j else j - 1;
      if i != p && j != p {
        assert r[i] == fs[i'] && r[j] == fs[j'];
      } else if i == p {
        assert r[j] == fs[j'];
      } else {
        assert r[i] == fs[i'];
      }
    }
  }

  /** The sorted file list of a set of files is unique. */
  lemma {:induction false} SortedListUnique(a: seq<File>, b: seq<File>)
    requires BySmallest(a) && BySmallest(b) && Elements(a) == Elements(b)
    ensures a == b
  {
    if a == [] {
      assert forall f :: f in b ==> f in Elements(b);
      assert b == [];
    } else {
      assert b != [] by { assert a[0] in Elements(b); }
      FirstOfSorted(a, b);
      FirstOfSorted(b, a);
      FileLessTotal(a[0], b[0]);
      assert a[0] == b[0];
      TailElements(a);
      TailElements(b);
      SortedListUnique(a[1..], b[1..]);
    }
  }

  lemma FirstOfSorted(a: seq<File>, b: seq<File>)
    requires BySmallest(a) && a != [] && b != [] && Elements(a) == Elements(b)
    ensures a[0] == b[0] || FileLess(a[0], b[0])
  {
    assert b[0] in Elements(a);
    var i :| 0 <= i < |a| && a[i] == b[0];
  }

  lemma TailElements(a: seq<File>)
    requires BySmallest(a) && a != []
    ensures Elements(a[1..]) == Elements(a) - {a[0]}
  {
    forall f ensures f in Elements(a[1..]) <==> f in Elements(a) - {a[0]} {
      if f in a[1..] {
        var i :| 0 <= i < |a[1..]| && a[1..][i] == f;
        FileLessTotal(a[0], a[i + 1]);
      }
      if f in Elements(a) - {a[0]} {
        var i :| 0 <= i < |a| && a[i] == f;
        assert a[1..][i - 1] == f;
      }
    }
  }

  /** MaybeAddFile. */
  function MaybeAdd(v: seq<File>, f: File, deleted: set<nat>): seq<File> {
    if f.number in deleted then v else v + [f]
  }

  ghost predicate AllBeforeFile(v: seq<File>, g: File) { forall f :: f in v ==> FileLess(f, g) }

  /** v holds, in order, what is left of the first b base files and the first a added files. */
  ghost predicate SavedSoFar(v: seq<File>, base: seq<File>, b: nat, added: seq<File>, a: nat, deleted: set<nat>)
    requires b <= |base| && a <= |added|
  {
    && BySmallest(v)
    && (forall f :: f in v <==> (f in base[..b] || f in added[..a]) && f.number !in deleted)
    && (b < |base| ==> AllBeforeFile(v, base[b]))
    && (a < |added| ==> AllBeforeFile(v, added[a]))
  }

  lemma SaveBaseFile(v: seq<File>, base: seq<File>, b: nat, added: seq<File>, a: nat, deleted: set<nat>)
    requires b < |base| && a <= |added| && BySmallest(base)
    requires SavedSoFar(v, base, b, added, a, deleted)
    requires a < |added| ==> FileLess(base[b], added[a])
    ensures SavedSoFar(MaybeAdd(v, base[b], deleted), base, b + 1, added, a, deleted)
  {
    hide FileLess;
    assert base[..b + 1] == base[..b] + [base[b]];
    if b + 1 < |base| {
      forall f | f in v ensures FileLess(f, base[b + 1]) { FileLessTrans(f, base[b], base[b + 1]); }
    }
  }

  lemma SaveAddedFile(v: seq<File>, base: seq<File>, b: nat, added: seq<File>, a: nat, deleted: set<nat>)
    requires b <= |base| && a < |added| && BySmallest(added)
    requires SavedSoFar(v, base, b, added, a, deleted)
    requires b < |base| ==> FileLess(added[a], base[b])
    ensures SavedSoFar(MaybeAdd(v, added[a], deleted), base, b, added, a + 1, deleted)
  {
    hide FileLess;
    assert added[..a + 1] == added[..a] + [added[a]];
    if a + 1 < |added| {
      forall f | f in v ensures FileLess(f, added[a + 1]) { FileLessTrans(f, added[a], added[a + 1]); }
    }
  }

  /** SaveTo, one level: merge the base list with the added set, dropping deleted files. */
  method SaveLevel(base: seq<File>, added: seq<File>, deleted: set<nat>) returns (v: seq<File>)
    requires BySmallest(base) && BySmallest(added)
    requires Numbers(Elements(base)) !! Numbers(Elements(added))
    ensures BySmallest(v)
    ensures Elements(v) == Saved(Elements(base), LevelState(deleted, Elements(added)))
  {
    v := [];
    var b := 0;
    for a := 0 to |added|
      invariant b <= |base| && SavedSoFar(v, base, b, added, a, deleted)
    {
      while b < |base| && !FileLess(added[a], base[b])
        invariant b <= |base| && SavedSoFar(v, base, b, added, a, deleted)
        decreases |base| - b
      {
        DistinctFiles(base, added, b, a);
        FileLessTotal(added[a], base[b]);
        SaveBaseFile(v, base, b, added, a, deleted);
        v := MaybeAdd(v, base[b], deleted);
        b := b + 1;
      }
      SaveAddedFile(v, base, b, added, a, deleted);
      v := MaybeAdd(v, added[a], deleted);
    }
    while b < |base|
      invariant b <= |base| && SavedSoFar(v, base, b, added, |added|, deleted)
      decreases |base| - b
    {
      SaveBaseFile(v, base, b, added, |added|, deleted);
      v := MaybeAdd(v, base[b], deleted);
      b := b + 1;
    }
    assert added[..|added|] == added && base[..|base|] == base;
  }

  lemma DistinctFiles(base: seq<File>, added: seq<File>, b: nat, a: nat)
    requires b < |base| && a < |added| && Numbers(Elements(base)) !! Numbers(Elements(added))
    ensures base[b].number != added[a].number
  {
    assert base[b] in Elements(base) && added[a] in Elements(added);
    assert base[b].number in Numbers(Elements(base)) && added[a].number in Numbers(Elements(added));
  }
}
