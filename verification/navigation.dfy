/** The list-reload side of anitsu-cli.py: one pass of the main loop turns
    the current level `db`, the back-stack `old_db` and one request from
    the finder (its lines, already split, stripped and with empty lines
    dropped) into the next level and its reply, a download selection, or
    the end of the session. */
module Navigation {
  import opened Wrappers
  import opened Trees

  /** The finder's "go back" line. */
  const Back: string := ".."

  /** The first line of a request sent by the ctrl-d binding. */
  const DownloadFolder: string := "download_folder"

  datatype Outcome =
    /** The loop goes on at level `tree` with back-stack `stack` and writes
        `reply` back to the finder. */
    | Continue(tree: Tree, stack: seq<Tree>, reply: seq<string>)
    /** The loop ends and `urls` go to the downloader (nothing is
        downloaded when the list is empty). */
    | Download(urls: seq<string>)
    /** The empty read that ends the loop without a selection. */
    | Stop
    /** An exception nobody catches ends the main thread. */
    | Crash

  /** What the finder is shown at a level: its keys, then `..` unless the
      level is the root of the session. */
  function Listing(t: Tree, stack: seq<Tree>): seq<string> {
    Keys(t) + (if |stack| > 0 then [Back] else [])
  }

  // ---------------------------------------------------------------------
  // find_files
  // ---------------------------------------------------------------------

  /** `find_files`: every URL below a level, depth first, in key order. */
  function FindFiles(t: Tree): seq<string>
    decreases t
  {
    if |t| == 0 then [] else ItemFiles(t[0]) + FindFiles(t[1..])
  }

  function ItemFiles(item: (string, Entry)): seq<string>
    decreases item
  {
    match item.1
    case File(u) => [u]
    case Dir(c) => FindFiles(c)
  }

  /** Flattening respects the order of the keys. */
  lemma {:induction false} FindFilesAppend(a: Tree, b: Tree)
    ensures FindFiles(a + b) == FindFiles(a) + FindFiles(b)
    decreases |a|
  {
    if |a| > 0 {
      assert (a + b)[0] == a[0];
      assert (a + b)[1..] == a[1..] + b;
      FindFilesAppend(a[1..], b);
    } else {
      assert a + b == b;
    }
  }

  /** The URLs below the `i`-th entry are among the URLs of the level. */
  lemma ItemFilesWithin(t: Tree, i: nat)
    requires i < |t|
    ensures forall u :: u in ItemFiles(t[i]) ==> u in FindFiles(t)
  {
    assert t == t[..i] + ([t[i]] + t[i + 1..]);
    FindFilesAppend(t[..i], [t[i]] + t[i + 1..]);
    assert FindFiles([t[i]] + t[i + 1..]) == ItemFiles(t[i]) + FindFiles(t[i + 1..]) by {
      assert ([t[i]] + t[i + 1..])[1..] == t[i + 1..];
    }
  }

  /** Every file reachable by a path of keys is found by `find_files`. */
  lemma {:induction false} FindFilesComplete(t: Tree, path: seq<string>, u: string)
    requires GetEntry(Dir(t), path) == Some(File(u))
    ensures u in FindFiles(t)
    decreases |path|
  {
    var e := Lookup(t, path[0]).value;
    var i :| 0 <= i < |t| && t[i].1 == e;
    ItemFilesWithin(t, i);
    match e
    case File(_) =>
    case Dir(c) =>
      FindFilesComplete(c, path[1..], u);
  }

  /** Some entry of the level holds each URL `find_files` reports. */
  lemma {:induction false} FindFilesIndex(t: Tree, u: string) returns (i: nat)
    requires u in FindFiles(t)
    ensures i < |t| && u in ItemFiles(t[i])
    decreases |t|
  {
    if u in ItemFiles(t[0]) {
      i := 0;
    } else {
      var j := FindFilesIndex(t[1..], u);
      i := j + 1;
    }
  }

  /** On a well-formed tree, each URL `find_files` reports is reachable
      by a path of keys. */
  lemma {:induction false} FindFilesSound(t: Tree, u: string)
    requires WellFormed(t) && u in FindFiles(t)
    ensures exists path :: GetEntry(Dir(t), path) == Some(File(u))
    decreases t
  {
    var i := FindFilesIndex(t, u);
    ItemFilesSound(t[i], u);
    var q :| GetEntry(t[i].1, q) == Some(File(u));
    LookupAt(t, i);
    assert GetEntry(Dir(t), [t[i].0] + q) == GetEntry(t[i].1, q) by {
      assert ([t[i].0] + q)[1..] == q;
    }
  }

  lemma {:induction false} ItemFilesSound(item: (string, Entry), u: string)
    requires ItemWellFormed(item) && u in ItemFiles(item)
    ensures exists path :: GetEntry(item.1, path) == Some(File(u))
    decreases item
  {
    match item.1
    case File(v) =>
      assert GetEntry(item.1, []) == Some(File(u));
    case Dir(c) =>
      FindFilesSound(c, u);
  }

  /** `find_files` reports exactly the URLs reachable by a path of keys. */
  lemma FindFilesLeaves(t: Tree, u: string)
    requires WellFormed(t)
    ensures u in FindFiles(t) <==> exists path :: GetEntry(Dir(t), path) == Some(File(u))
  {
    if u in FindFiles(t) {
      FindFilesSound(t, u);
    }
    if exists path :: GetEntry(Dir(t), path) == Some(File(u)) {
      var path :| GetEntry(Dir(t), path) == Some(File(u));
      FindFilesComplete(t, path, u);
    }
  }

  // ---------------------------------------------------------------------
  // The download_folder branch
  // ---------------------------------------------------------------------

  /** A key the download_folder loop cannot flatten: absent (KeyError) or
      mapped to a non-empty URL, whose characters `find_files` tries to
      use as dict keys (TypeError). Both exceptions are caught and end the
      loop with what has been collected. */
  predicate Unflattenable(t: Tree, k: string) {
    match Lookup<Entry>(t, k)
    case None => true
    case Some(File(u)) => u != ""
    case Some(Dir(_)) => false
  }

  /** `files += find_files(db[k])` for each key until one raises. */
  function FolderFiles(t: Tree, keys: seq<string>): seq<string>
    decreases |keys|
  {
    if |keys| == 0 || Unflattenable(t, keys[0]) then []
    else
      var here := match Lookup<Entry>(t, keys[0]) case Some(Dir(c)) => FindFiles(c) case _ => [];
      here + FolderFiles(t, keys[1..])
  }

  function Concat(ss: seq<seq<string>>): seq<string>
  {
    if |ss| == 0 then [] else ss[0] + Concat(ss[1..])
  }

  predicate AllDirs(t: Tree, keys: seq<string>) {
    forall i :: 0 <= i < |keys| ==> Lookup(t, keys[i]).Some? && Lookup(t, keys[i]).value.Dir?
  }

  /** When every key names a directory, the selection is the flattening of
      each directory in the order of the keys. */
  lemma {:induction false} FolderFilesOfDirs(t: Tree, keys: seq<string>)
    requires AllDirs(t, keys)
    ensures FolderFiles(t, keys)
         == Concat(seq(|keys|, i requires 0 <= i < |keys| && AllDirs(t, keys) => FindFiles(Lookup(t, keys[i]).value.items)))
    decreases |keys|
  {
    if |keys| > 0 {
      FolderFilesOfDirs(t, keys[1..]);
      var ss := seq(|keys|, i requires 0 <= i < |keys| && AllDirs(t, keys) => FindFiles(Lookup(t, keys[i]).value.items));
      var tl := seq(|keys| - 1, i requires 0 <= i < |keys| - 1 && AllDirs(t, keys[1..]) => FindFiles(Lookup(t, keys[1..][i]).value.items));
      assert ss[1..] == tl;
    }
  }

  /** The first key that cannot be flattened ends the collection: nothing
      after it is downloaded. */
  lemma {:induction false} FolderFilesStopsAt(t: Tree, before: seq<string>, k: string, after: seq<string>)
    requires Unflattenable(t, k)
    ensures FolderFiles(t, before + [k] + after) == FolderFiles(t, before)
    decreases |before|
  {
    if |before| > 0 {
      assert (before + [k] + after)[1..] == before[1..] + [k] + after;
      FolderFilesStopsAt(t, before[1..], k, after);
    }
  }

  // ---------------------------------------------------------------------
  // The key loop and one pass of the main loop
  // ---------------------------------------------------------------------

  /** The lines of a request before its first `..`. */
  function BeforeBack(req: seq<string>): (r: seq<string>)
    ensures r <= req
    ensures Back !in r
    ensures |r| < |req| ==> req[|r|] == Back
  {
    if |req| == 0 || req[0] == Back then [] else [req[0]] + BeforeBack(req[1..])
  }

  predicate AllPresent(t: Tree, keys: seq<string>) {
    forall i :: 0 <= i < |keys| ==> keys[i] in Keys(t)
  }

  /** The URLs of the file-valued keys among `keys`, in order; directory
      keys contribute nothing. */
  function FileUrls(t: Tree, keys: seq<string>): seq<string>
    decreases |keys|
  {
    if |keys| == 0 then []
    else
      (match Lookup<Entry>(t, keys[0]) case Some(File(u)) => [u] case _ => []) + FileUrls(t, keys[1..])
  }

  /** The level and back-stack after `..`: the top of the stack is
      restored, or nothing changes at the root. */
  function Pop(t: Tree, stack: seq<Tree>): (Tree, seq<Tree>)
  {
    if |stack| > 0 then (stack[|stack| - 1], stack[..|stack| - 1]) else (t, stack)
  }

  /** State left by the `for k in data` loop: the URLs collected, the
      level and stack (changed only by `..`), and the last `k` seen. */
  datatype Scan = Scan(files: seq<string>, tree: Tree, stack: seq<Tree>, last: string)

  function ScanKeys(t: Tree, stack: seq<Tree>, keys: seq<string>, files: seq<string>): Result<Scan>
    requires |keys| > 0
    decreases |keys|
  {
    var k := keys[0];
    if k == Back then
      var (t', stack') := Pop(t, stack);
      Ok(Scan(files, t', stack', k))
    else
      match Lookup<Entry>(t, k)
      case None => Raised
      case Some(e) =>
        var files' := if e.File? then files + [e.url] else files;
        if |keys| == 1 then Ok(Scan(files', t, stack, k))
        else ScanKeys(t, stack, keys[1..], files')
  }

  /** One pass of the main loop (anitsu-cli.py:274-313). */
  function Step(t: Tree, stack: seq<Tree>, req: seq<string>): (r: Outcome)
    ensures |req| == 0 <==> r == Stop
    ensures |req| > 0 && DownloadFolder in req ==> r == Download(FolderFiles(t, req[1..]))
    ensures r.Continue? ==> r.reply == Listing(r.tree, r.stack)
    ensures r.Download? && DownloadFolder !in req ==> |r.urls| > 0
  {
    if |req| == 0 then Stop
    else if DownloadFolder in req then Download(FolderFiles(t, req[1..]))
    else
      match ScanKeys(t, stack, req, [])
      case Raised => Crash
      case Ok(s) =>
        if |s.files| > 0 then Download(s.files)
        else
          match Lookup<Entry>(s.tree, s.last)
          case Some(Dir(c)) => Continue(c, s.stack + [s.tree], Keys(c) + [Back])
          case Some(File(_)) => Crash
          case None => Continue(s.tree, s.stack, Listing(s.tree, s.stack))
  }

  // ---------------------------------------------------------------------
  // What the key loop computes
  // ---------------------------------------------------------------------

  /** Where the key loop stops: on the first `..` (after popping), or on
      the last key with the level and stack untouched. */
  function ScanEnd(t: Tree, stack: seq<Tree>, keys: seq<string>): (Tree, seq<Tree>, string)
    requires |keys| > 0
  {
    if Back in keys then (Pop(t, stack).0, Pop(t, stack).1, Back)
    else (t, stack, keys[|keys| - 1])
  }

  /** What one present key adds to the collected URLs. */
  function KeyUrls(t: Tree, k: string): seq<string> {
    match Lookup<Entry>(t, k) case Some(File(u)) => [u] case _ => []
  }

  lemma FileUrlsCons(t: Tree, k: string, keys: seq<string>)
    ensures FileUrls(t, [k] + keys) == KeyUrls(t, k) + FileUrls(t, keys)
  {
    assert ([k] + keys)[1..] == keys;
  }

  /** One turn of the key loop on a present key that is not `..`. */
  lemma ScanOne(t: Tree, stack: seq<Tree>, keys: seq<string>, acc: seq<string>)
    requires |keys| > 0 && keys[0] != Back && keys[0] in Keys(t)
    ensures |keys| == 1 ==> ScanKeys(t, stack, keys, acc) == Ok(Scan(acc + KeyUrls(t, keys[0]), t, stack, keys[0]))
    ensures |keys| > 1 ==> ScanKeys(t, stack, keys, acc) == ScanKeys(t, stack, keys[1..], acc + KeyUrls(t, keys[0]))
  {
    var e := Lookup(t, keys[0]).value;
    if e.File? {
      assert KeyUrls(t, keys[0]) == [e.url];
    } else {
      assert acc + KeyUrls(t, keys[0]) == acc;
    }
  }

  /** With every key before the first `..` present, the loop collects
      exactly the URLs of the file keys among them and stops where
      `ScanEnd` says. */
  lemma {:induction false} ScanSpec(t: Tree, stack: seq<Tree>, keys: seq<string>, acc: seq<string>)
    requires |keys| > 0 && AllPresent(t, BeforeBack(keys))
    ensures ScanKeys(t, stack, keys, acc)
         == Ok(Scan(acc + FileUrls(t, BeforeBack(keys)),
                    ScanEnd(t, stack, keys).0, ScanEnd(t, stack, keys).1, ScanEnd(t, stack, keys).2))
    decreases |keys|
  {
    var k := keys[0];
    if k != Back {
      var rest := keys[1..];
      assert keys == [k] + rest;
      assert BeforeBack(keys) == [k] + BeforeBack(rest);
      assert k in Keys(t) by { assert BeforeBack(keys)[0] == k; }
      FileUrlsCons(t, k, BeforeBack(rest));
      ScanOne(t, stack, keys, acc);
      if |keys| == 1 {
        assert BeforeBack(rest) == [];
        assert FileUrls(t, BeforeBack(keys)) == KeyUrls(t, k);
      } else {
        assert AllPresent(t, BeforeBack(rest)) by {
          forall i | 0 <= i < |BeforeBack(rest)|
            ensures BeforeBack(rest)[i] in Keys(t)
          {
            assert BeforeBack(rest)[i] == BeforeBack(keys)[i + 1];
          }
        }
        ScanRest(t, stack, keys, acc);
      }
    } else {
      assert keys[0] in keys;
      assert acc + FileUrls(t, BeforeBack(keys)) == acc;
    }
  }

  lemma {:induction false} ScanRest(t: Tree, stack: seq<Tree>, keys: seq<string>, acc: seq<string>)
    requires |keys| > 1 && keys[0] != Back && keys[0] in Keys(t)
    requires AllPresent(t, BeforeBack(keys[1..]))
    requires BeforeBack(keys) == [keys[0]] + BeforeBack(keys[1..])
    ensures ScanKeys(t, stack, keys, acc)
         == Ok(Scan(acc + FileUrls(t, BeforeBack(keys)),
                    ScanEnd(t, stack, keys).0, ScanEnd(t, stack, keys).1, ScanEnd(t, stack, keys).2))
    decreases |keys|, 0
  {
    var k := keys[0];
    var rest := keys[1..];
    ScanOne(t, stack, keys, acc);
    ScanSpec(t, stack, rest, acc + KeyUrls(t, k));
    FileUrlsCons(t, k, BeforeBack(rest));
    assert (acc + KeyUrls(t, k)) + FileUrls(t, BeforeBack(rest)) == acc + FileUrls(t, BeforeBack(keys));
    assert keys == [k] + rest;
    assert Back in keys <==> Back in rest;
    assert keys[|keys| - 1] == rest[|rest| - 1];
  }

  /** A key before the first `..` that the level does not hold raises
      KeyError: the main thread dies instead of skipping the key. */
  lemma {:induction false} ScanMissingKey(t: Tree, stack: seq<Tree>, keys: seq<string>, acc: seq<string>)
    requires |keys| > 0 && !AllPresent(t, BeforeBack(keys))
    ensures ScanKeys(t, stack, keys, acc) == Raised
    decreases |keys|
  {
    var k := keys[0];
    assert k != Back;
    assert BeforeBack(keys) == [k] + BeforeBack(keys[1..]);
    if k in Keys(t) {
      assert !AllPresent(t, BeforeBack(keys[1..]));
      var e := Lookup(t, k).value;
      var acc' := if e.File? then acc + [e.url] else acc;
      ScanMissingKey(t, stack, keys[1..], acc');
    }
  }

  // ---------------------------------------------------------------------
  // Properties of one pass
  // ---------------------------------------------------------------------

  /** A stale key (one the current level does not hold) before any `..`
      ends the session with an uncaught KeyError. */
  lemma StaleKeyCrashes(t: Tree, stack: seq<Tree>, req: seq<string>)
    requires |req| > 0 && DownloadFolder !in req
    requires !AllPresent(t, BeforeBack(req))
    ensures Step(t, stack, req) == Crash
  {
    ScanMissingKey(t, stack, req, []);
  }

  /** A request naming at least one file before its first `..` is a file
      selection: exactly the URLs of its file keys, in request order, are
      downloaded, and its directory keys are ignored. Conversely, every
      download from a plain request is such a selection. */
  lemma StepSelectsFiles(t: Tree, stack: seq<Tree>, req: seq<string>)
    requires |req| > 0 && DownloadFolder !in req
    ensures Step(t, stack, req).Download?
        <==> AllPresent(t, BeforeBack(req)) && |FileUrls(t, BeforeBack(req))| > 0
    ensures Step(t, stack, req).Download? ==> Step(t, stack, req).urls == FileUrls(t, BeforeBack(req))
  {
    if AllPresent(t, BeforeBack(req)) {
      ScanSpec(t, stack, req, []);
    } else {
      ScanMissingKey(t, stack, req, []);
    }
  }

  /** Without file keys the lookup of the key is a directory. */
  lemma {:induction false} NoFileUrlsMeansDirs(t: Tree, keys: seq<string>, i: nat)
    requires AllPresent(t, keys) && FileUrls(t, keys) == [] && i < |keys|
    ensures Lookup(t, keys[i]).Some? && Lookup(t, keys[i]).value.Dir?
    decreases i
  {
    if i > 0 {
      NoFileUrlsMeansDirs(t, keys[1..], i - 1);
    }
  }

  lemma {:induction false} BeforeBackWithoutBack(req: seq<string>)
    requires Back !in req
    ensures BeforeBack(req) == req
  {
    if |req| > 0 {
      assert req == [req[0]] + req[1..];
      BeforeBackWithoutBack(req[1..]);
    }
  }

  /** A pass that goes on was fed a plain request whose keys before the
      first `..` all exist. */
  lemma ContinueMeansPresent(t: Tree, stack: seq<Tree>, req: seq<string>)
    requires Step(t, stack, req).Continue?
    ensures |req| > 0 && DownloadFolder !in req && AllPresent(t, BeforeBack(req))
  {
    if |req| > 0 && DownloadFolder !in req && !AllPresent(t, BeforeBack(req)) {
      StaleKeyCrashes(t, stack, req);
    }
  }

  /** A request of directory keys only (no `..`) descends into its last
      key: the current level is pushed, and the reply lists the new
      level's keys followed by `..`. */
  lemma StepDescendsIntoLast(t: Tree, stack: seq<Tree>, req: seq<string>)
    requires |req| > 0 && DownloadFolder !in req && Back !in req
    requires AllPresent(t, req) && FileUrls(t, req) == []
    ensures Lookup(t, req[|req| - 1]).Some? && Lookup(t, req[|req| - 1]).value.Dir?
    ensures var c := Lookup(t, req[|req| - 1]).value.items;
            Step(t, stack, req) == Continue(c, stack + [t], Keys(c) + [Back])
  {
    BeforeBackWithoutBack(req);
    ScanSpec(t, stack, req, []);
    NoFileUrlsMeansDirs(t, req, |req| - 1);
  }

  /** A request starting with `..` restores the top of the back-stack and
      replies with its listing; at the root it redisplays the level. */
  lemma StepBack(t: Tree, stack: seq<Tree>, req: seq<string>)
    requires |req| > 0 && req[0] == Back && DownloadFolder !in req
    requires Back !in Keys(Pop(t, stack).0)
    ensures var (t', stack') := Pop(t, stack);
            Step(t, stack, req) == Continue(t', stack', Listing(t', stack'))
  {
  }

  /** Descending into a directory and then going back restores the exact
      level and back-stack. */
  lemma DescendThenBack(t: Tree, stack: seq<Tree>, k: string)
    requires k != Back && k != DownloadFolder
    requires Lookup(t, k).Some? && Lookup(t, k).value.Dir?
    requires Back !in Keys(t)
    ensures var c := Lookup(t, k).value.items;
            && Step(t, stack, [k]) == Continue(c, stack + [t], Keys(c) + [Back])
            && Step(c, stack + [t], [Back]) == Continue(t, stack, Listing(t, stack))
  {
    var c := Lookup(t, k).value.items;
    assert (stack + [t])[..|stack|] == stack;
  }

  /** How the back-stack moves in one pass, when the level on top of the
      stack holds no `..` key: a descent pushes the current level and moves
      to one of its directories; a back pops; a back at the root changes
      nothing. */
  lemma StepShape(t: Tree, stack: seq<Tree>, req: seq<string>)
    requires |stack| > 0 ==> Back !in Keys(stack[|stack| - 1])
    requires Step(t, stack, req).Continue?
    ensures var r := Step(t, stack, req);
      || (r.stack == stack + [t] && Dir(r.tree) in Values(t))
      || (|stack| > 0 && r.stack == stack[..|stack| - 1] && r.tree == stack[|stack| - 1])
      || (|stack| == 0 && r.stack == stack && r.tree == t)
  {
    ContinueMeansPresent(t, stack, req);
    ScanSpec(t, stack, req, []);
  }

  // ---------------------------------------------------------------------
  // The back-stack invariant
  // ---------------------------------------------------------------------

  /** `child` is one of the directories directly inside `parent`. */
  predicate Descends(parent: Tree, child: Tree) {
    Dir(child) in Values(parent)
  }

  /** The back-stack records the way down from the session's root: it is
      empty exactly at the root; otherwise it starts at the root and each
      level, the current one included, is a directory of the one before. */
  predicate NavInv(root: Tree, t: Tree, stack: seq<Tree>) {
    if |stack| == 0 then t == root
    else
      && stack[0] == root
      && (forall i :: 0 <= i < |stack| - 1 ==> Descends(stack[i], stack[i + 1]))
      && Descends(stack[|stack| - 1], t)
  }

  lemma PopKeepsNavInv(root: Tree, t: Tree, stack: seq<Tree>)
    requires NavInv(root, t, stack)
    ensures NavInv(root, Pop(t, stack).0, Pop(t, stack).1)
  {
  }

  lemma PushKeepsNavInv(root: Tree, t: Tree, stack: seq<Tree>, c: Tree)
    requires NavInv(root, t, stack) && Descends(t, c)
    ensures NavInv(root, c, stack + [t])
  {
    var s := stack + [t];
    forall i | 0 <= i < |s| - 1
      ensures Descends(s[i], s[i + 1])
    {
      if i < |stack| - 1 {
        assert s[i] == stack[i] && s[i + 1] == stack[i + 1];
      }
    }
  }

  /** Every pass that goes on keeps the back-stack invariant. */
  lemma StepKeepsNavInv(root: Tree, t: Tree, stack: seq<Tree>, req: seq<string>)
    requires NavInv(root, t, stack)
    requires Step(t, stack, req).Continue?
    ensures NavInv(root, Step(t, stack, req).tree, Step(t, stack, req).stack)
  {
    ContinueMeansPresent(t, stack, req);
    ScanSpec(t, stack, req, []);
    var s := ScanKeys(t, stack, req, []).value;
    PopKeepsNavInv(root, t, stack);
    assert NavInv(root, s.tree, s.stack);
    match Lookup<Entry>(s.tree, s.last)
    case Some(Dir(c)) =>
      PushKeepsNavInv(root, s.tree, s.stack, c);
    case Some(File(_)) =>
    case None =>
  }

  // ---------------------------------------------------------------------
  // A whole session
  // ---------------------------------------------------------------------

  /** The main loop fed a sequence of requests, until one of them ends it. */
  function Run(t: Tree, stack: seq<Tree>, reqs: seq<seq<string>>): Outcome
    decreases |reqs|
  {
    if |reqs| == 0 then Continue(t, stack, Listing(t, stack))
    else
      match Step(t, stack, reqs[0])
      case Continue(t', stack', _) => Run(t', stack', reqs[1..])
      case other => other
  }

  /** One single-key request per key of `path`. */
  function OneByOne(path: seq<string>): (reqs: seq<seq<string>>)
    ensures |reqs| == |path|
    ensures forall i :: 0 <= i < |path| ==> reqs[i] == [path[i]]
  {
    seq(|path|, i requires 0 <= i < |path| => [path[i]])
  }

  /** Opening the keys of a path one at a time, from any position, ends in
      the download of the file the path leads to. */
  lemma {:induction false} WalkToFile(t: Tree, stack: seq<Tree>, path: seq<string>, u: string)
    requires |path| > 0
    requires forall i :: 0 <= i < |path| ==> path[i] != Back && path[i] != DownloadFolder
    requires GetEntry(Dir(t), path) == Some(File(u))
    ensures Run(t, stack, OneByOne(path)) == Download([u])
    decreases |path|
  {
    var k := path[0];
    assert [k][0] == k;
    match Lookup<Entry>(t, k).value
    case File(_) =>
    case Dir(c) =>
      assert OneByOne(path)[1..] == OneByOne(path[1..]);
      WalkToFile(c, stack + [t], path[1..], u);
  }
}
