/** gen_anitsu_files.py: the browsable catalog. Every post of the database
    becomes one top-level directory, named by its title (de-duplicated
    with a numeric suffix) and holding the merge of the trees of all its
    nextcloud links; `count` reports the number of files. */
module Catalog {
  import opened Wrappers
  import opened Text
  import opened Trees
  import opened Database
  import Navigation

  // ---------------------------------------------------------------------
  // Unique titles
  // ---------------------------------------------------------------------

  /** The c-th alternative key for a title: `f'{title}.{c}'`. */
  function Candidate(title: string, c: nat): string {
    title + "." + ShowNat(c)
  }

  lemma CandidateInjective(title: string, a: nat, b: nat)
    requires a != b
    ensures Candidate(title, a) != Candidate(title, b)
  {
    ShowNatInjective(a, b);
    assert Candidate(title, a)[|title| + 1..] == ShowNat(a);
    assert Candidate(title, b)[|title| + 1..] == ShowNat(b);
  }

  function Candidates(title: string, c: nat): set<string> {
    set i | 1 <= i < c :: Candidate(title, i)
  }

  lemma {:induction false} CandidatesCard(title: string, c: nat)
    requires c >= 1
    ensures |Candidates(title, c)| == c - 1
    decreases c
  {
    if c > 1 {
      CandidatesCard(title, c - 1);
      assert Candidates(title, c) == Candidates(title, c - 1) + {Candidate(title, c - 1)};
      if Candidate(title, c - 1) in Candidates(title, c - 1) {
        var i :| 1 <= i < c - 1 && Candidate(title, i) == Candidate(title, c - 1);
        CandidateInjective(title, i, c - 1);
      }
    } else {
      assert Candidates(title, c) == {};
    }
  }

  lemma {:induction false} SubsetCard<T>(a: set<T>, b: set<T>)
    requires a <= b
    ensures |a| <= |b|
    decreases b
  {
    if b != {} {
      var x :| x in b;
      SubsetCard(a - {x}, b - {x});
    }
  }

  lemma {:induction false} KeySetCard(ks: seq<string>)
    ensures |set x | x in ks| <= |ks|
    decreases |ks|
  {
    if |ks| > 0 {
      KeySetCard(ks[1..]);
      assert (set x | x in ks) == (set x | x in ks[1..]) + {ks[0]};
    }
  }

  /** A level holding the first `n - 1` alternatives has at least that
      many keys. */
  lemma ProbeBound(files: Tree, title: string, n: nat)
    requires n >= 1
    requires forall i :: 1 <= i < n ==> Candidate(title, i) in Keys(files)
    ensures n - 1 <= |files|
  {
    CandidatesCard(title, n);
    SubsetCard(Candidates(title, n), set x | x in Keys(files));
    KeySetCard(Keys(files));
  }

  /** The `while s in files` loop from the c-th alternative on: the first
      alternative not yet used. */
  function Probe(files: Tree, title: string, c: nat): (r: nat)
    requires c >= 1
    requires forall i :: 1 <= i < c ==> Candidate(title, i) in Keys(files)
    ensures r >= c
    ensures Candidate(title, r) !in Keys(files)
    ensures forall i :: 1 <= i < r ==> Candidate(title, i) in Keys(files)
    decreases |files| + 1 - c
  {
    ProbeBound(files, title, c);
    if Candidate(title, c) !in Keys(files) then c
    else
      ProbeBound(files, title, c + 1);
      Probe(files, title, c + 1)
  }

  /** The key a post gets: its title when unused, otherwise the title with
      the smallest numeric suffix not yet used. */
  function FreshKey(files: Tree, title: string): (s: string)
    ensures s !in Keys(files)
    ensures title !in Keys(files) ==> s == title
    ensures title in Keys(files) ==> s == Candidate(title, Probe(files, title, 1))
  {
    if title !in Keys(files) then title else Candidate(title, Probe(files, title, 1))
  }

  // ---------------------------------------------------------------------
  // Merging a post's trees
  // ---------------------------------------------------------------------

  /** `files[s] = dict()` then `files[s].update(v2)` for every tree of the
      post, in link order. */
  function Merge(trees: Dict<Tree>): (r: Tree)
    ensures (forall i :: 0 <= i < |trees| ==> UniqueKeys(trees[i].1)) ==> UniqueKeys(r)
    decreases |trees|
  {
    if |trees| == 0 then []
    else Update(Merge(trees[..|trees| - 1]), trees[|trees| - 1].1)
  }

  /** The entry the last tree holding `k` gives it. */
  function LastHolder(trees: Dict<Tree>, k: string): Option<Entry>
    decreases |trees|
  {
    if |trees| == 0 then None
    else
      match Lookup<Entry>(trees[|trees| - 1].1, k)
      case Some(e) => Some(e)
      case None => LastHolder(trees[..|trees| - 1], k)
  }

  /** A shallow merge: on a clashing top-level key the later tree wins,
      and a key is present exactly when some tree holds it. */
  lemma {:induction false} MergeLookup(trees: Dict<Tree>, k: string)
    requires forall i :: 0 <= i < |trees| ==> UniqueKeys(trees[i].1)
    ensures Lookup(Merge(trees), k) == LastHolder(trees, k)
    decreases |trees|
  {
    if |trees| > 0 {
      var n := |trees| - 1;
      MergeLookup(trees[..n], k);
      UpdateLookup(Merge(trees[..n]), trees[n].1, k);
    }
  }

  // ---------------------------------------------------------------------
  // The catalog
  // ---------------------------------------------------------------------

  /** gen_anitsu_files.py:14-24: one directory per post, in database
      order; an existing entry is never overwritten. */
  function GenCatalog(db: Db): (files: Tree)
    ensures |files| == |db|
    ensures UniqueKeys(files)
    decreases |db|
  {
    if |db| == 0 then []
    else
      var n := |db| - 1;
      var prev := GenCatalog(db[..n]);
      var s := FreshKey(prev, db[n].1.title);
      AssignFresh(prev, s, Dir(Merge(db[n].1.nextcloud)));
      Assign(prev, s, Dir(Merge(db[n].1.nextcloud)))
  }

  /** The i-th post gets the i-th entry: its key is the fresh key for its
      title among the entries before it, its content the merge of its
      trees. */
  lemma {:induction false} GenCatalogEntries(db: Db, i: nat)
    requires i < |db|
    ensures GenCatalog(db)[i] == (FreshKey(GenCatalog(db)[..i], db[i].1.title), Dir(Merge(db[i].1.nextcloud)))
    decreases |db|
  {
    var n := |db| - 1;
    var files := GenCatalog(db);
    GenCatalogLast(db);
    if i < n {
      GenCatalogEntries(db[..n], i);
      TakeTake(files, n, i);
      assert db[..n][i] == db[i];
    }
  }

  /** The posts before the last keep their directories, and the last
      post's directory is appended after them. */
  lemma GenCatalogLast(db: Db)
    requires |db| > 0
    ensures GenCatalog(db)[..|db| - 1] == GenCatalog(db[..|db| - 1])
    ensures GenCatalog(db)[|db| - 1]
         == (FreshKey(GenCatalog(db[..|db| - 1]), db[|db| - 1].1.title), Dir(Merge(db[|db| - 1].1.nextcloud)))
  {
    var n := |db| - 1;
    var prev := GenCatalog(db[..n]);
    AssignFresh(prev, FreshKey(prev, db[n].1.title), Dir(Merge(db[n].1.nextcloud)));
  }

  /** A post's directory holds, for every key of any of its trees, the
      entry of the last tree that has that key. */
  lemma CatalogEntry(db: Db, i: nat, k: string)
    requires i < |db|
    requires forall j :: 0 <= j < |db[i].1.nextcloud| ==> UniqueKeys(db[i].1.nextcloud[j].1)
    ensures GetEntry(Dir(GenCatalog(db)), [GenCatalog(db)[i].0, k]) == LastHolder(db[i].1.nextcloud, k)
  {
    var files := GenCatalog(db);
    var m := Merge(db[i].1.nextcloud);
    GenCatalogEntries(db, i);
    assert files[i] == (files[i].0, Dir(m));
    LookupAt(files, i);
    MergeLookup(db[i].1.nextcloud, k);
    var p := [files[i].0, k];
    GetEntryStep(files, p);
    assert p[1..] == [k];
    GetEntryStep(m, [k]);
    assert [k][1..] == [];
  }

  // ---------------------------------------------------------------------
  // count
  // ---------------------------------------------------------------------

  /** `count(data)`: a non-directory value counts one, a directory counts
      what it holds. It is the number of URLs `find_files` lists. */
  function Count(t: Tree): (n: nat)
    ensures n == |Navigation.FindFiles(t)|
    decreases t
  {
    if |t| == 0 then 0 else CountItem(t[0]) + Count(t[1..])
  }

  function CountItem(item: (string, Entry)): (n: nat)
    ensures n == |Navigation.ItemFiles(item)|
    decreases item
  {
    match item.1
    case File(_) => 1
    case Dir(c) => Count(c)
  }
}
