/** The preview listener of anitsu-cli.py (`preview_fifo` and its `rec`):
    for each request it lists what the finder's highlighted key holds. It
    reads the level the main loop is currently showing (a snapshot passed
    in here) and remembers across requests the last key it found on that
    level (`main_k`). */
module PreviewLookup {
  import opened Wrappers
  import opened Trees
  import opened Text
  import Navigation

  /** At most this many lines go back to the preview pane. */
  const PreviewCap: nat := 80

  // ---------------------------------------------------------------------
  // rec
  // ---------------------------------------------------------------------

  /** What a found key lists: a directory's keys, nothing for a file. */
  function Contents(e: Entry): seq<string> {
    match e
    case Dir(c) => Keys(c)
    case File(_) => []
  }

  /** `rec(q, data)`: the contents of `q` when the level holds it;
      otherwise the search goes on in the level's FIRST directory only
      (the loop returns whatever that call returns), and yields None when
      the level has no directory. */
  function Rec(q: string, t: Tree): Option<seq<string>>
    decreases t, 1
  {
    match Lookup<Entry>(t, q)
    case Some(e) => Some(Contents(e))
    case None => DescendFirst(q, t)
  }

  function DescendFirst(q: string, t: Tree): Option<seq<string>>
    decreases t, 0
  {
    if |t| == 0 then None
    else if t[0].1.Dir? then RecInItem(q, t[0])
    else DescendFirst(q, t[1..])
  }

  function RecInItem(q: string, item: (string, Entry)): Option<seq<string>>
    requires item.1.Dir?
    decreases item
  {
    Rec(q, item.1.items)
  }

  /** The first directory of a level, in key order. */
  function FirstDir(t: Tree): (r: Option<Tree>)
    ensures r.Some? ==> Dir(r.value) in Values(t)
    ensures r.None? ==> forall i :: 0 <= i < |t| ==> t[i].1.File?
  {
    if |t| == 0 then None
    else if t[0].1.Dir? then
      assert Values(t)[0] == t[0].1;
      Some(t[0].1.items)
    else
      var r := FirstDir(t[1..]);
      assert r.Some? ==> Values(t[1..]) <= Values(t)[1..];
      r
  }

  lemma {:induction false} DescendFirstIsFirstDir(q: string, t: Tree)
    ensures DescendFirst(q, t) == match FirstDir(t) case None => None case Some(c) => Rec(q, c)
    decreases |t|
  {
    if |t| > 0 && !t[0].1.Dir? {
      DescendFirstIsFirstDir(q, t[1..]);
    }
  }

  /** The chain of first directories below a level: level 0 is the level
      itself, level n + 1 the first directory of level n. */
  function Spine(t: Tree, n: nat): Option<Tree>
    decreases n
  {
    if n == 0 then Some(t)
    else
      match FirstDir(t)
      case None => None
      case Some(c) => Spine(c, n - 1)
  }

  predicate OnSpine(t: Tree, n: nat, q: string) {
    Spine(t, n).Some? && q in Keys(Spine(t, n).value)
  }

  /** `rec` answers from the first spine level that holds the key. */
  lemma {:induction false} RecOnSpine(q: string, t: Tree, n: nat)
    requires OnSpine(t, n, q)
    requires forall m :: 0 <= m < n ==> !OnSpine(t, m, q)
    ensures Rec(q, t) == Some(Contents(Lookup(Spine(t, n).value, q).value))
    decreases n
  {
    if n > 0 {
      assert !OnSpine(t, 0, q);
      DescendFirstIsFirstDir(q, t);
      var c := FirstDir(t).value;
      forall m | 0 <= m < n - 1
        ensures !OnSpine(c, m, q)
      {
        assert Spine(t, m + 1) == Spine(c, m);
        assert !OnSpine(t, m + 1, q);
      }
      RecOnSpine(q, c, n - 1);
    }
  }

  /** `rec` gives None exactly when no spine level holds the key: keys in
      any other directory are never found. */
  lemma {:induction false} RecNoneOffSpine(q: string, t: Tree, n: nat)
    requires Rec(q, t) == None
    ensures !OnSpine(t, n, q)
    decreases n
  {
    DescendFirstIsFirstDir(q, t);
    if n > 0 {
      match FirstDir(t)
      case None =>
      case Some(c) =>
        RecNoneOffSpine(q, c, n - 1);
    }
  }

  /** A key `rec` finds lies on some spine level. */
  lemma RecSomeOnSpine(q: string, t: Tree) returns (n: nat)
    requires Rec(q, t).Some?
    ensures OnSpine(t, n, q)
    decreases t, 1
  {
    if q in Keys(t) {
      n := 0;
    } else {
      DescendFirstIsFirstDir(q, t);
      var m := DescendFirstOnSpine(q, t);
      n := m + 1;
    }
  }

  lemma DescendFirstOnSpine(q: string, t: Tree) returns (m: nat)
    requires DescendFirst(q, t).Some?
    ensures FirstDir(t).Some? && OnSpine(FirstDir(t).value, m, q)
    decreases t, 0
  {
    if t[0].1.Dir? {
      m := RecInItemOnSpine(q, t[0]);
    } else {
      m := DescendFirstOnSpine(q, t[1..]);
    }
  }

  lemma RecInItemOnSpine(q: string, item: (string, Entry)) returns (m: nat)
    requires item.1.Dir? && Rec(q, item.1.items).Some?
    ensures OnSpine(item.1.items, m, q)
    decreases item
  {
    m := RecSomeOnSpine(q, item.1.items);
  }

  /** `rec` finds a key exactly when some level of the first-directory
      chain holds it; keys held only by other directories are not found. */
  lemma RecFindsOnSpine(q: string, t: Tree)
    ensures Rec(q, t).Some? <==> exists n: nat :: OnSpine(t, n, q)
  {
    if Rec(q, t).Some? {
      var n := RecSomeOnSpine(q, t);
    } else {
      forall n: nat
        ensures !OnSpine(t, n, q)
      {
        RecNoneOffSpine(q, t, n);
      }
    }
  }

  // ---------------------------------------------------------------------
  // One preview request
  // ---------------------------------------------------------------------

  datatype PreviewOutcome =
    /** The lines written back to the preview command, and the new `main_k`. */
    | Reply(lines: seq<string>, mainKey: Option<string>)
    /** The empty read that ends the listener. */
    | Quit
    /** An exception nobody catches ends the listener thread. */
    | Died

  /** Output of the loop so far: a list, or Python's None from `rec`. */
  type Output = Option<seq<string>>

  /** One key looked up under the remembered main key `m` of the level. */
  function UnderMainKey(db: Tree, m: Option<string>, k: string, output: Output): Result<Output>
  {
    match m
    case None => Raised                              // db[None]
    case Some(mk) =>
      match Lookup<Entry>(db, mk)
      case None => Raised                            // the level changed under main_k
      case Some(Dir(mt)) =>
        (match Lookup<Entry>(mt, k)
         case Some(Dir(c)) => Ok(Some(Keys(c)))
         case Some(File(_)) => Ok(output)
         case None => Ok(Rec(k, mt)))
      case Some(File(s)) =>
        // `k in s` is a substring test on a URL; indexing the URL by a
        // string, or by one of its characters inside `rec`, raises
        // TypeError; only an empty URL lets `rec` fall through to None.
        if Contains(s, k) || s != "" then Raised else Ok(None)
  }

  /** The `for k in ...` loop: the output so far, the main key, and the
      last key seen. */
  function PreviewScan(db: Tree, mainKey: Option<string>, keys: seq<string>, output: Output)
    : Result<(Output, Option<string>, string)>
    requires |keys| > 0
    decreases |keys|
  {
    var k := keys[0];
    if k == Navigation.Back then Ok((output, mainKey, k))
    else
      var next: Result<(Output, Option<string>)> :=
        match Lookup<Entry>(db, k)
        case Some(e) => Ok((if e.Dir? then Some(Keys(e.items)) else output, Some(k)))
        case None =>
          match UnderMainKey(db, mainKey, k, output)
          case Raised => Raised
          case Ok(o) => Ok((o, mainKey));
      match next
      case Raised => Raised
      case Ok((o, m)) =>
        if |keys| == 1 then Ok((o, m, k)) else PreviewScan(db, m, keys[1..], o)
  }

  /** Python truthiness of the output: None and the empty list are false. */
  predicate Empty(o: Output) {
    o.None? || o.value == []
  }

  /** One request of the preview listener (anitsu-cli.py:206-231). */
  function PreviewStep(db: Tree, mainKey: Option<string>, req: seq<string>): (r: PreviewOutcome)
    ensures |req| == 0 <==> r == Quit
    ensures r.Reply? ==> |r.lines| <= PreviewCap
    ensures r.Reply? && Navigation.Back !in req ==> |r.lines| > 0
    ensures r.Reply? && r.mainKey != mainKey ==> r.mainKey.Some? && r.mainKey.value in Keys(db)
  {
    if |req| == 0 then Quit
    else
      match PreviewScan(db, mainKey, req, Some([]))
      case Raised => Died
      case Ok((output, m, last)) =>
        var out := if Empty(output) && last != Navigation.Back then Some([last]) else output;
        match out
        case None => Died                                   // None[:80]
        case Some(lines) =>
          PreviewScanFacts(db, mainKey, req, Some([]));
          Reply(if |lines| <= PreviewCap then lines else lines[..PreviewCap], m)
  }

  lemma {:induction false} PreviewScanFacts(db: Tree, mainKey: Option<string>, keys: seq<string>, output: Output)
    requires |keys| > 0
    ensures var r := PreviewScan(db, mainKey, keys, output);
      r.Ok? ==>
        && (r.value.1 != mainKey ==> r.value.1.Some? && r.value.1.value in Keys(db))
        && (Navigation.Back !in keys ==> r.value.2 != Navigation.Back)
    decreases |keys|
  {
    if keys[0] != Navigation.Back && |keys| > 1 {
      assert keys[0] in keys;
      var k := keys[0];
      match Lookup<Entry>(db, k)
      case Some(e) =>
        PreviewScanFacts(db, Some(k), keys[1..], if e.Dir? then Some(Keys(e.items)) else output);
      case None =>
        match UnderMainKey(db, mainKey, k, output)
        case Raised =>
        case Ok(o) => PreviewScanFacts(db, mainKey, keys[1..], o);
    }
  }

  // ---------------------------------------------------------------------
  // Properties of single-key requests (what the finder sends)
  // ---------------------------------------------------------------------

  /** A key of the shown level becomes the main key; a directory lists its
      first 80 keys (an empty one lists its own name), a file lists its
      own name. */
  lemma PreviewOfShownKey(db: Tree, mainKey: Option<string>, k: string)
    requires k != Navigation.Back && k in Keys(db)
    ensures var e := Lookup(db, k).value;
            var full := if Contents(e) == [] then [k] else Contents(e);
            PreviewStep(db, mainKey, [k])
              == Reply(if |full| <= PreviewCap then full else full[..PreviewCap], Some(k))
  {
  }

  /** A key found inside the main key's directory lists that entry. */
  lemma PreviewUnderMainKey(db: Tree, m: string, k: string)
    requires k != Navigation.Back && k !in Keys(db)
    requires Lookup(db, m).Some? && Lookup(db, m).value.Dir?
    requires k in Keys(Lookup(db, m).value.items)
    ensures var e := Lookup(Lookup(db, m).value.items, k).value;
            var full := if Contents(e) == [] then [k] else Contents(e);
            PreviewStep(db, Some(m), [k])
              == Reply(if |full| <= PreviewCap then full else full[..PreviewCap], Some(m))
  {
  }

  /** Before any key of the shown level has been previewed, a key that is
      not on it makes the listener index `db[None]` and die. */
  lemma PreviewWithoutMainKeyDies(db: Tree, k: string)
    requires k != Navigation.Back && k !in Keys(db)
    ensures PreviewStep(db, None, [k]) == Died
  {
  }
}
