/** delete_files.py: every resolved nextcloud tree of every post is
    forgotten, so that the next get_files run resolves every link again.
    The links themselves, the Google Drive map and every other field stay
    as they were. The confirmation prompt and the file I/O are left out. */
module Reset {
  import opened Wrappers
  import opened Trees
  import opened Database
  import Files

  /** `for i in d: d[i] = dict()`: every link of one post maps to the
      empty tree; assigning existing keys keeps their order. */
  function ClearLinks(m: Dict<Tree>): (r: Dict<Tree>)
    ensures Keys(r) == Keys(m)
    ensures forall i :: 0 <= i < |r| ==> r[i].1 == []
    decreases |m|
  {
    if |m| == 0 then []
    else
      var rest := ClearLinks(m[1..]);
      KeysCons(m);
      assert Keys([(m[0].0, [])] + rest) == [m[0].0] + Keys(rest);
      [(m[0].0, [])] + rest
  }

  /** A cleared map holds exactly the same links, each with no tree. */
  lemma ClearLinksLookup(m: Dict<Tree>, u: string)
    ensures Lookup(ClearLinks(m), u) == if u in Keys(m) then Some([]) else None
  {
    var r := ClearLinks(m);
    if u in Keys(m) {
      assert Keys(r) == Keys(m);
      var i := IndexOf(r, u);
      assert r[i].1 == [];
    }
  }

  /** The outer loop over the posts, in database order: each post in turn
      has its nextcloud map cleared. */
  function ResetFiles(db: Db): (r: Db)
    ensures Keys(r) == Keys(db)
    ensures forall i :: 0 <= i < |r| ==> r[i].1 == db[i].1.(nextcloud := ClearLinks(db[i].1.nextcloud))
  {
    seq(|db|, i requires 0 <= i < |db| => (db[i].0, db[i].1.(nextcloud := ClearLinks(db[i].1.nextcloud))))
  }

  /** Link maps keep their keys, so a well-formed database stays
      well-formed. */
  lemma ResetFilesWellFormed(db: Db)
    requires DbWellFormed(db)
    ensures DbWellFormed(ResetFiles(db))
  {
    var r := ResetFiles(db);
    assert Keys(r) == Keys(db);
    forall x | x in r
      ensures UniqueKeys(x.1.nextcloud) && UniqueKeys(x.1.gdrive)
    {
      var i :| 0 <= i < |r| && r[i] == x;
      assert db[i] in db;
      assert Keys(x.1.nextcloud) == Keys(db[i].1.nextcloud);
    }
  }

  /** Each post is the post it was, with its nextcloud trees cleared. */
  lemma ResetFilesLookup(db: Db, k: string)
    ensures Lookup(ResetFiles(db), k)
         == match Lookup(db, k)
            case None => None
            case Some(p) => Some(p.(nextcloud := ClearLinks(p.nextcloud)))
  {
    var r := ResetFiles(db);
    if k in Keys(db) {
      var i := IndexOf(db, k);
      assert Keys(r)[i] == k;
      LookupFirst(r, k, i);
      LookupFirst(db, k, i);
    }
  }

  /** Resetting twice is resetting once. */
  lemma ResetFilesIdempotent(db: Db)
    ensures ResetFiles(ResetFiles(db)) == ResetFiles(db)
  {
    var r := ResetFiles(db);
    var r2 := ResetFiles(r);
    forall i | 0 <= i < |r|
      ensures r2[i] == r[i]
    {
      ClearLinksTwice(db[i].1.nextcloud);
      assert Keys(r2)[i] == Keys(r)[i];
    }
  }

  lemma ClearLinksTwice(m: Dict<Tree>)
    ensures ClearLinks(ClearLinks(m)) == ClearLinks(m)
  {
    var r := ClearLinks(m);
    var r2 := ClearLinks(r);
    forall i | 0 <= i < |r|
      ensures r2[i] == r[i]
    {
      assert Keys(r2)[i] == Keys(r)[i];
    }
  }

  /** After a reset every link of every post is waiting in the refresh
      queue that get_files.py builds. */
  lemma ResetQueuesEverything(db: Db, k: string, url: string)
    requires DbWellFormed(db)
    ensures (k, url) in Files.RefreshQueue(ResetFiles(db))
        <==> Lookup(db, k).Some? && Lookup(Lookup(db, k).value.nextcloud, url).Some?
  {
    ResetFilesWellFormed(db);
    Files.RefreshQueueMembers(ResetFiles(db), k, url);
    ResetFilesLookup(db, k);
    if Lookup(db, k).Some? {
      ClearLinksLookup(Lookup(db, k).value.nextcloud, url);
    }
  }
}
