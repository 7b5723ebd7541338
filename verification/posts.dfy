/** get_posts.py: posts fetched from the WordPress API are folded into the
    database. A post is (re)written with its current metadata; its link
    maps are kept while the post is unmodified and started afresh when it
    changed; links found in its content are added; a post whose content
    holds no link at all is deleted. The regular-expression searches, the
    HTML clean-up of the title and `str.lower` are inputs or parameters. */
module Posts {
  import opened Wrappers
  import opened Text
  import opened Trees
  import opened Database

  /** What the regular expressions found in a post's content: the first
      capture of each `search` (None when nothing matched), and every
      match of the two `findall`s in order. */
  datatype Scan = Scan(
    password: Option<string>,
    imageUrl: Option<string>,
    malId: Option<string>,
    anilist: Option<string>,
    nextcloud: seq<string>,
    gdrive: seq<string>)

  /** One post of an API page: its numeric id, the raw fields used as
      they come, the cleaned title, the rendered content and what the
      regular expressions found in it. */
  datatype Incoming = Incoming(
    id: nat,
    modified: string,
    title: string,
    link: string,
    date: string,
    content: string,
    scan: Scan)

  /** `regex(expr, text)`: the first group of the match, or "" when there
      is none (the AttributeError on `None.group`). */
  function Group(m: Option<string>): (r: string)
    ensures m.None? ==> r == ""
    ensures m.Some? ==> r == m.value
  {
    match m
    case None => ""
    case Some(g) => g
  }

  /** The database key of a post: `str(post['id'])`. */
  function PostKey(inc: Incoming): string {
    ShowNat(inc.id)
  }

  /** The marker of a current release, searched in the lower-cased
      content. */
  const ReleaseMarker: string := "[em lançamento"

  /** A post keeps its place in the database only when some nextcloud or
      Google Drive link was found. */
  predicate HasFiles(inc: Incoming) {
    |inc.scan.nextcloud| > 0 || |inc.scan.gdrive| > 0
  }

  // ---------------------------------------------------------------------
  // Adding links
  // ---------------------------------------------------------------------

  /** `for i in links: if i not in m: m[i] = dict()`. */
  function AddLinks(m: Dict<Tree>, links: seq<string>): (r: Dict<Tree>)
    ensures |m| <= |r| && r[..|m|] == m
    ensures Keys(r) == Keys(m) + NewKeys(links, Keys(m))
    ensures forall i :: |m| <= i < |r| ==> r[i].1 == []
    ensures forall k :: k in Keys(r) <==> k in Keys(m) || k in links
    ensures UniqueKeys(m) ==> UniqueKeys(r)
    decreases |links|
  {
    if |links| == 0 then m
    else
      var n := |links| - 1;
      var prev := AddLinks(m, links[..n]);
      FrontLast(links);
      assert links[n] in Keys(prev) <==> links[n] in Keys(m) || links[n] in links[..n];
      if links[n] in Keys(prev) then prev
      else
        AssignFresh(prev, links[n], []);
        assert Assign(prev, links[n], [])[..|prev|] == prev;
        SeqAssoc(Keys(m), NewKeys(links[..n], Keys(m)), [links[n]]);
        Assign(prev, links[n], [])
  }

  /** A link already in the map keeps its tree, a new link maps to the
      empty tree, anything else stays absent. */
  lemma AddLinksLookup(m: Dict<Tree>, links: seq<string>, u: string)
    ensures Lookup(AddLinks(m, links), u)
         == if u in Keys(m) then Lookup(m, u) else if u in links then Some([]) else None
  {
    if u in Keys(m) {
      AddLinksOld(m, links, u);
    } else if u in links {
      AddLinksNew(m, links, u);
    }
  }

  lemma AddLinksOld(m: Dict<Tree>, links: seq<string>, u: string)
    requires u in Keys(m)
    ensures Lookup(AddLinks(m, links), u) == Lookup(m, u)
  {
    var r := AddLinks(m, links);
    var i := IndexOf(m, u);
    assert r[i] == m[i];
    LookupFirst(r, u, i);
    LookupFirst(m, u, i);
  }

  lemma AddLinksNew(m: Dict<Tree>, links: seq<string>, u: string)
    requires u !in Keys(m) && u in links
    ensures Lookup(AddLinks(m, links), u) == Some([])
  {
    var r := AddLinks(m, links);
    var i := IndexOf(r, u);
    LookupFirst(r, u, i);
  }

  /** Links the map already holds add nothing. */
  lemma {:induction false} AddLinksKnown(m: Dict<Tree>, links: seq<string>)
    requires forall l :: l in links ==> l in Keys(m)
    ensures AddLinks(m, links) == m
    decreases |links|
  {
    if |links| > 0 {
      var n := |links| - 1;
      assert forall l :: l in links[..n] ==> l in links;
      AddLinksKnown(m, links[..n]);
      assert links[n] in links;
    }
  }

  /** Adding the same links twice adds nothing the second time. */
  lemma AddLinksIdempotent(m: Dict<Tree>, links: seq<string>)
    ensures AddLinks(AddLinks(m, links), links) == AddLinks(m, links)
  {
    AddLinksKnown(AddLinks(m, links), links);
  }

  // ---------------------------------------------------------------------
  // update_db, one post
  // ---------------------------------------------------------------------

  /** The link maps a post starts from: the stored ones when the post is
      known and its `modified` stamp is unchanged, empty maps otherwise. */
  function KeptLinks(db: Db, inc: Incoming): (r: (Dict<Tree>, Dict<Tree>))
    ensures (match Lookup(db, PostKey(inc))
             case Some(p) => p.modified == inc.modified
             case None => false) ==> r == (Lookup(db, PostKey(inc)).value.nextcloud, Lookup(db, PostKey(inc)).value.gdrive)
    ensures (match Lookup(db, PostKey(inc))
             case Some(p) => p.modified != inc.modified
             case None => true) ==> r == ([], [])
  {
    match Lookup(db, PostKey(inc))
    case None => ([], [])
    case Some(p) => if p.modified != inc.modified then ([], []) else (p.nextcloud, p.gdrive)
  }

  /** The scalar fields a post gets from the API, whatever it held before. */
  predicate FreshFields(p: Post, inc: Incoming, lower: string -> string, imgDir: string) {
    && p.title == inc.title
    && p.url == inc.link
    && p.date == inc.date
    && p.modified == inc.modified
    && p.password == Group(inc.scan.password)
    && p.isRelease == Contains(lower(inc.content), ReleaseMarker)
    && p.image == imgDir + "/" + PostKey(inc) + ".jpg"
    && p.imageUrl == Group(inc.scan.imageUrl)
    && p.malId == Group(inc.scan.malId)
    && p.anilist == Group(inc.scan.anilist)
  }

  /** The record `update_db` stores for a post. */
  function NewPost(db: Db, inc: Incoming, lower: string -> string, imgDir: string): (p: Post)
    ensures FreshFields(p, inc, lower, imgDir)
  {
    var (nc, gd) := KeptLinks(db, inc);
    Post(
      inc.title, inc.link, inc.date, inc.modified,
      Group(inc.scan.password),
      Contains(lower(inc.content), ReleaseMarker),
      imgDir + "/" + PostKey(inc) + ".jpg",
      Group(inc.scan.imageUrl), Group(inc.scan.malId), Group(inc.scan.anilist),
      AddLinks(nc, inc.scan.nextcloud),
      AddLinks(gd, inc.scan.gdrive))
  }

  /** get_posts.py:53-103 for one post: the post is created when new,
      written, and then deleted when no link was found. */
  function UpdatePost(db: Db, inc: Incoming, lower: string -> string, imgDir: string): (r: Db)
    ensures HasFiles(inc) ==> Keys(r) == if PostKey(inc) in Keys(db) then Keys(db) else Keys(db) + [PostKey(inc)]
    ensures !HasFiles(inc) ==> r == Remove(db, PostKey(inc))
    ensures HasFiles(inc) ==> Lookup(r, PostKey(inc)).Some? && FreshFields(Lookup(r, PostKey(inc)).value, inc, lower, imgDir)
    ensures !HasFiles(inc) ==> Lookup(r, PostKey(inc)).None?
  {
    var k := PostKey(inc);
    var written := Assign(db, k, NewPost(db, inc, lower, imgDir));
    if HasFiles(inc) then written
    else
      RemoveAssign(db, k, NewPost(db, inc, lower, imgDir));
      Remove(written, k)
  }

  /** Posts with another id are untouched. */
  lemma UpdatePostOthers(db: Db, inc: Incoming, lower: string -> string, imgDir: string, k: string)
    requires k != PostKey(inc)
    ensures Lookup(UpdatePost(db, inc, lower, imgDir), k) == Lookup(db, k)
  {
    var written := Assign(db, PostKey(inc), NewPost(db, inc, lower, imgDir));
    RemoveLookup(written, PostKey(inc), k);
  }

  /** The links a surviving post holds: those it kept (an unmodified known
      post) with their trees, plus every newly found link with an empty
      tree. */
  lemma UpdatePostLinks(db: Db, inc: Incoming, lower: string -> string, imgDir: string, u: string)
    requires HasFiles(inc)
    ensures var p := Lookup(UpdatePost(db, inc, lower, imgDir), PostKey(inc)).value;
      var (nc, gd) := KeptLinks(db, inc);
      && Lookup(p.nextcloud, u) == (if u in Keys(nc) then Lookup(nc, u) else if u in inc.scan.nextcloud then Some([]) else None)
      && Lookup(p.gdrive, u) == (if u in Keys(gd) then Lookup(gd, u) else if u in inc.scan.gdrive then Some([]) else None)
  {
    var (nc, gd) := KeptLinks(db, inc);
    AddLinksLookup(nc, inc.scan.nextcloud, u);
    AddLinksLookup(gd, inc.scan.gdrive, u);
  }

  /** A changed post loses every tree it had resolved: each of its links
      maps to the empty tree again. */
  lemma UpdatePostModifiedClears(db: Db, inc: Incoming, lower: string -> string, imgDir: string, u: string)
    requires HasFiles(inc)
    requires Lookup(db, PostKey(inc)).Some? && Lookup(db, PostKey(inc)).value.modified != inc.modified
    ensures var p := Lookup(UpdatePost(db, inc, lower, imgDir), PostKey(inc)).value;
      && (Lookup(p.nextcloud, u).Some? <==> u in inc.scan.nextcloud)
      && (Lookup(p.nextcloud, u).Some? ==> Lookup(p.nextcloud, u).value == [])
  {
    UpdatePostLinks(db, inc, lower, imgDir, u);
  }

  /** A well-formed database stays well-formed. */
  lemma UpdatePostWellFormed(db: Db, inc: Incoming, lower: string -> string, imgDir: string)
    requires DbWellFormed(db)
    ensures DbWellFormed(UpdatePost(db, inc, lower, imgDir))
  {
    var k := PostKey(inc);
    var p := NewPost(db, inc, lower, imgDir);
    var (nc, gd) := KeptLinks(db, inc);
    if Lookup(db, k).Some? {
      assert Lookup(db, k).value in Values(db);
      var i :| 0 <= i < |db| && Values(db)[i] == Lookup(db, k).value;
      assert db[i] in db;
    }
    assert UniqueKeys(nc) && UniqueKeys(gd);
    var written := Assign(db, k, p);
    assert forall x :: x in written ==> x in db || x == (k, p);
    RemoveUnique(written, k);
  }

  // ---------------------------------------------------------------------
  // update_db, a page of posts
  // ---------------------------------------------------------------------

  /** `for post in posts`: the posts of a page, in order. */
  function UpdateDb(db: Db, page: seq<Incoming>, lower: string -> string, imgDir: string): (r: Db)
    decreases |page|
  {
    if |page| == 0 then db
    else
      var n := |page| - 1;
      UpdatePost(UpdateDb(db, page[..n], lower, imgDir), page[n], lower, imgDir)
  }

  /** The last post of the page with key `k`, if any. */
  function LastFor(page: seq<Incoming>, k: string): (r: Option<Incoming>)
    ensures r.Some? ==> r.value in page && PostKey(r.value) == k
    ensures r.None? ==> forall inc :: inc in page ==> PostKey(inc) != k
    decreases |page|
  {
    if |page| == 0 then None
    else
      var n := |page| - 1;
      if PostKey(page[n]) == k then Some(page[n])
      else
        var r := LastFor(page[..n], k);
        assert forall inc :: inc in page ==> inc in page[..n] || inc == page[n];
        r
  }

  /** After a page, a post not on it is as it was; a post on it is
      present exactly when its last occurrence found links, and then
      carries that occurrence's fields. */
  lemma {:induction false} UpdateDbLast(db: Db, page: seq<Incoming>, lower: string -> string, imgDir: string, k: string)
    ensures LastFor(page, k).None? ==> Lookup(UpdateDb(db, page, lower, imgDir), k) == Lookup(db, k)
    ensures LastFor(page, k).Some? ==>
      var p := Lookup(UpdateDb(db, page, lower, imgDir), k);
      && (p.Some? <==> HasFiles(LastFor(page, k).value))
      && (p.Some? ==> FreshFields(p.value, LastFor(page, k).value, lower, imgDir))
    decreases |page|
  {
    if |page| > 0 {
      var n := |page| - 1;
      var prev := UpdateDb(db, page[..n], lower, imgDir);
      assert UpdateDb(db, page, lower, imgDir) == UpdatePost(prev, page[n], lower, imgDir);
      if PostKey(page[n]) != k {
        assert LastFor(page, k) == LastFor(page[..n], k);
        UpdateDbLast(db, page[..n], lower, imgDir, k);
        UpdatePostOthers(prev, page[n], lower, imgDir, k);
      } else {
        assert LastFor(page, k) == Some(page[n]);
      }
    }
  }

  lemma {:induction false} UpdateDbWellFormed(db: Db, page: seq<Incoming>, lower: string -> string, imgDir: string)
    requires DbWellFormed(db)
    ensures DbWellFormed(UpdateDb(db, page, lower, imgDir))
    decreases |page|
  {
    if |page| > 0 {
      var n := |page| - 1;
      UpdateDbWellFormed(db, page[..n], lower, imgDir);
      UpdatePostWellFormed(UpdateDb(db, page[..n], lower, imgDir), page[n], lower, imgDir);
    }
  }
}
