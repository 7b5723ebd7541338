/** The one data shape every tool works on: a JSON object whose keys are
    labels and whose values are either nested objects ("directories") or
    URL strings ("files"). Python dicts keep insertion order and the order
    is visible to the user, so a dict is an ordered association list; the
    dict operations below serve any value type (the post database uses
    them too). */
module Trees {
  import opened Wrappers
  import Text

  datatype Entry = Dir(items: seq<(string, Entry)>) | File(url: string)

  /** A string-keyed dict, in insertion order. */
  type Dict<V> = seq<(string, V)>

  /** One level of the catalog. */
  type Tree = Dict<Entry>

  /** `list(d)`: the keys of a level in order. */
  function Keys<V>(t: Dict<V>): (ks: seq<string>)
    ensures |ks| == |t|
    ensures forall i :: 0 <= i < |t| ==> ks[i] == t[i].0
  {
    seq(|t|, i requires 0 <= i < |t| => t[i].0)
  }

  lemma KeysCons<V>(t: Dict<V>)
    requires |t| > 0
    ensures Keys(t) == [t[0].0] + Keys(t[1..])
  {
    var a := Keys(t);
    var b := [t[0].0] + Keys(t[1..]);
    forall i | 0 <= i < |t|
      ensures a[i] == b[i]
    {
      if i > 0 {
        assert b[i] == Keys(t[1..])[i - 1];
      }
    }
  }

  /** `list(d.values())`. */
  function Values<V>(t: Dict<V>): (vs: seq<V>)
    ensures |vs| == |t|
    ensures forall i :: 0 <= i < |t| ==> vs[i] == t[i].1
  {
    seq(|t|, i requires 0 <= i < |t| => t[i].1)
  }

  /** A Python dict never holds a key twice. */
  predicate UniqueKeys<V>(t: Dict<V>) {
    forall i, j :: 0 <= i < j < |t| ==> t[i].0 != t[j].0
  }

  /** Unique keys on every level, recursively. */
  predicate WellFormed(t: Tree)
    decreases t
  {
    UniqueKeys(t) && forall i :: 0 <= i < |t| ==> ItemWellFormed(t[i])
  }

  predicate ItemWellFormed(item: (string, Entry))
    decreases item
  {
    match item.1
    case File(_) => true
    case Dir(c) => WellFormed(c)
  }

  /** Position of the first occurrence of key `k`. */
  function IndexOf<V>(t: Dict<V>, k: string): (i: nat)
    requires k in Keys(t)
    ensures i < |t| && t[i].0 == k
    ensures forall j :: 0 <= j < i ==> t[j].0 != k
  {
    if t[0].0 == k then 0
    else
      assert k in Keys(t[1..]) by {
        var j :| 0 <= j < |t| && Keys(t)[j] == k;
        assert Keys(t[1..])[j - 1] == k;
      }
      var i := IndexOf(t[1..], k);
      assert forall j :: 1 <= j <= i ==> t[j] == t[1..][j - 1];
      1 + i
  }

  /** `d[k]` when `k in d`, None otherwise. */
  function Lookup<V(==)>(t: Dict<V>, k: string): (r: Option<V>)
    ensures r.Some? <==> k in Keys(t)
    ensures r.Some? ==> r.value in Values(t)
  {
    if k in Keys(t) then
      var i := IndexOf(t, k);
      assert Values(t)[i] == t[i].1;
      Some(t[i].1)
    else None
  }

  /** On a level with unique keys, the entry stored at position `i` is
      what a lookup of its key returns. */
  lemma LookupAt<V>(t: Dict<V>, i: nat)
    requires UniqueKeys(t) && i < |t|
    ensures Lookup(t, t[i].0) == Some(t[i].1)
  {
    assert Keys(t)[i] == t[i].0;
  }

  /** A key is found at the first position that holds it. */
  lemma LookupFirst<V>(t: Dict<V>, k: string, i: nat)
    requires i < |t| && t[i].0 == k
    requires forall j :: 0 <= j < i ==> t[j].0 != k
    ensures Lookup(t, k) == Some(t[i].1)
  {
    assert Keys(t)[i] == k;
    var i' := IndexOf(t, k);
    assert !(i' < i) && !(i < i');
  }

  /** `d[k] = v`: an existing key keeps its position and gets the new
      value, a new key is appended. */
  function Assign<V(==)>(t: Dict<V>, k: string, v: V): (r: Dict<V>)
    ensures Keys(r) == if k in Keys(t) then Keys(t) else Keys(t) + [k]
    ensures Lookup(r, k) == Some(v)
    ensures forall k' :: k' != k ==> Lookup(r, k') == Lookup(t, k')
    ensures UniqueKeys(t) ==> UniqueKeys(r)
    ensures forall x :: x in r ==> x in t || x == (k, v)
  {
    var r := if k in Keys(t) then t[IndexOf(t, k) := (k, v)] else t + [(k, v)];
    AssignFacts(t, k, v, r);
    r
  }

  lemma AssignFacts<V>(t: Dict<V>, k: string, v: V, r: Dict<V>)
    requires r == if k in Keys(t) then t[IndexOf(t, k) := (k, v)] else t + [(k, v)]
    ensures Keys(r) == if k in Keys(t) then Keys(t) else Keys(t) + [k]
    ensures Lookup(r, k) == Some(v)
    ensures forall k' :: k' != k ==> Lookup(r, k') == Lookup(t, k')
  {
    assert Keys(r) == if k in Keys(t) then Keys(t) else Keys(t) + [k];
    forall k' | k' != k
      ensures Lookup(r, k') == Lookup(t, k')
    {
      if k' in Keys(t) {
        LookupFirst(r, k', IndexOf(t, k'));
      }
    }
    if k in Keys(t) {
      LookupFirst(r, k, IndexOf(t, k));
    } else {
      LookupFirst(r, k, |t|);
    }
  }

  /** Assigning a key the dict does not hold appends it. */
  lemma AssignFresh<V>(t: Dict<V>, k: string, v: V)
    requires k !in Keys(t)
    ensures Assign(t, k, v) == t + [(k, v)]
  {
  }

  /** Assigning a well-formed entry into a well-formed level keeps it
      well-formed. */
  lemma AssignWellFormed(t: Tree, k: string, v: Entry)
    requires WellFormed(t) && ItemWellFormed((k, v))
    ensures WellFormed(Assign(t, k, v))
  {
    var r := Assign(t, k, v);
    forall i | 0 <= i < |r|
      ensures ItemWellFormed(r[i])
    {
      if k in Keys(t) {
        var j := IndexOf(t, k);
        if i != j {
          assert r[i] == t[i];
        }
      } else if i < |t| {
        assert r[i] == t[i];
      }
    }
  }

  /** The entry reached from `e` by following the keys of `path` one
      level at a time (`e[p0][p1]...`), None when a key is missing or a
      file is met before the path ends. */
  function GetEntry(e: Entry, path: seq<string>): Option<Entry>
    decreases |path|
  {
    if |path| == 0 then Some(e)
    else match e
      case File(_) => None
      case Dir(t) =>
        match Lookup(t, path[0])
        case None => None
        case Some(child) => GetEntry(child, path[1..])
  }

  /** Following `a + b` is following `a`, then `b` from where `a` ends. */
  lemma {:induction false} GetEntryAppend(e: Entry, a: seq<string>, b: seq<string>)
    ensures GetEntry(e, a + b) == match GetEntry(e, a) case None => None case Some(x) => GetEntry(x, b)
    decreases |a|
  {
    if |a| == 0 {
      assert a + b == b;
    } else {
      assert (a + b)[0] == a[0];
      assert (a + b)[1..] == a[1..] + b;
      match e
      case File(_) =>
      case Dir(t) =>
        match Lookup<Entry>(t, a[0])
        case None =>
        case Some(child) => GetEntryAppend(child, a[1..], b);
    }
  }

  /** One step of a path: look the first key up in the directory. */
  lemma GetEntryStep(t: Tree, q: seq<string>)
    requires |q| > 0
    ensures GetEntry(Dir(t), q) == match Lookup<Entry>(t, q[0]) case None => None case Some(ch) => GetEntry(ch, q[1..])
  {
  }

  /** A lookup checks the first item, then the rest. */
  lemma LookupCons<V>(t: Dict<V>, k: string)
    requires |t| > 0
    ensures Lookup(t, k) == if t[0].0 == k then Some(t[0].1) else Lookup(t[1..], k)
  {
    KeysCons(t);
    if t[0].0 == k {
      LookupFirst(t, k, 0);
    } else if k in Keys(t[1..]) {
      var j := IndexOf(t[1..], k);
      forall x | 0 <= x < j + 1
        ensures t[x].0 != k
      {
        if x > 0 {
          assert t[x] == t[1..][x - 1];
        }
      }
      LookupFirst(t, k, j + 1);
      LookupFirst(t[1..], k, j);
    }
  }

  /** `del d[k]`: the item of key `k` leaves, the others keep their order. */
  function Remove<V>(t: Dict<V>, k: string): (r: Dict<V>)
    ensures Keys(r) == RemoveKey(Keys(t), k)
    ensures forall x :: x in r ==> x in t
    decreases |t|
  {
    if |t| == 0 then []
    else
      KeysCons(t);
      var rest := Remove(t[1..], k);
      if t[0].0 == k then rest
      else
        assert Keys([t[0]] + rest) == [t[0].0] + Keys(rest);
        [t[0]] + rest
  }

  /** After `del d[k]` the key is gone and every other key holds what it
      held. */
  lemma {:induction false} RemoveLookup<V>(t: Dict<V>, k: string, k': string)
    ensures Lookup(Remove(t, k), k') == if k' == k then None else Lookup(t, k')
    decreases |t|
  {
    if |t| > 0 {
      RemoveLookup(t[1..], k, k');
      LookupCons(t, k');
      if t[0].0 != k {
        LookupCons(Remove(t, k), k');
        assert Remove(t, k)[1..] == Remove(t[1..], k);
      }
    }
  }

  lemma {:induction false} RemoveUnique<V>(t: Dict<V>, k: string)
    requires UniqueKeys(t)
    ensures UniqueKeys(Remove(t, k))
    decreases |t|
  {
    if |t| > 0 {
      RemoveUnique(t[1..], k);
      if t[0].0 != k {
        var rest := Remove(t[1..], k);
        KeysCons(t);
        assert t[0].0 !in Keys(rest);
        forall j | 1 <= j < |rest| + 1
          ensures ([t[0]] + rest)[j].0 != t[0].0
        {
          assert ([t[0]] + rest)[j].0 == Keys(rest)[j - 1];
        }
      }
    }
  }

  /** Deleting a key right after assigning it is deleting it: the
      assigned value leaves with the key. */
  lemma RemoveAssign<V>(t: Dict<V>, k: string, v: V)
    ensures Remove(Assign(t, k, v), k) == Remove(t, k)
  {
    if k in Keys(t) {
      RemoveReplaced(t, k, v, IndexOf(t, k));
    } else {
      RemoveAppended(t, k, v);
    }
  }

  lemma {:induction false} RemoveReplaced<V>(t: Dict<V>, k: string, v: V, i: nat)
    requires i < |t| && t[i].0 == k
    ensures Remove(t[i := (k, v)], k) == Remove(t, k)
    decreases |t|
  {
    if i > 0 {
      RemoveReplaced(t[1..], k, v, i - 1);
      assert t[i := (k, v)][1..] == t[1..][i - 1 := (k, v)];
    } else {
      assert t[i := (k, v)][1..] == t[1..];
    }
  }

  lemma {:induction false} RemoveAppended<V>(t: Dict<V>, k: string, v: V)
    ensures Remove(t + [(k, v)], k) == Remove(t, k)
    decreases |t|
  {
    if |t| == 0 {
      assert Remove([(k, v)], k) == Remove([(k, v)][1..], k);
    } else {
      RemoveAppended(t[1..], k, v);
      assert (t + [(k, v)])[1..] == t[1..] + [(k, v)];
    }
  }

  /** A key sequence without `k`. */
  function RemoveKey(ks: seq<string>, k: string): (r: seq<string>)
    ensures forall x :: x in r <==> x in ks && x != k
    decreases |ks|
  {
    if |ks| == 0 then []
    else if ks[0] == k then RemoveKey(ks[1..], k)
    else [ks[0]] + RemoveKey(ks[1..], k)
  }

  /** The keys of `ks` that `seen` lacks, each at its first occurrence, in
      the order `ks` lists them: the keys a run of assignments appends. */
  function NewKeys(ks: seq<string>, seen: seq<string>): (r: seq<string>)
    decreases |ks|
  {
    if |ks| == 0 then []
    else
      var n := |ks| - 1;
      if ks[n] in seen || ks[n] in ks[..n] then NewKeys(ks[..n], seen)
      else NewKeys(ks[..n], seen) + [ks[n]]
  }

  /** A key is new exactly when `ks` holds it and `seen` does not. */
  lemma {:induction false} NewKeysMembers(ks: seq<string>, seen: seq<string>, x: string)
    ensures x in NewKeys(ks, seen) <==> x in ks && x !in seen
    decreases |ks|
  {
    if |ks| > 0 {
      var n := |ks| - 1;
      NewKeysMembers(ks[..n], seen, x);
      Text.FrontLast(ks);
    }
  }

  /** Taking the first key off the front: it is new unless already seen,
      and then it counts as seen for the rest. */
  lemma {:induction false} NewKeysCons(k: string, ks: seq<string>, seen: seq<string>)
    ensures NewKeys([k] + ks, seen)
         == if k in seen then NewKeys(ks, seen) else [k] + NewKeys(ks, seen + [k])
    decreases |ks|
  {
    var all := [k] + ks;
    if |ks| == 0 {
      assert all[..0] == [];
    } else {
      var n := |ks| - 1;
      var x := ks[n];
      assert all[..n + 1] == [k] + ks[..n];
      assert all[n + 1] == x;
      NewKeysCons(k, ks[..n], seen);
      assert x in [k] + ks[..n] <==> x == k || x in ks[..n];
      assert x in seen + [k] <==> x in seen || x == k;
      if k !in seen {
        var p := NewKeys(ks[..n], seen + [k]);
        assert [k] + p + [x] == [k] + (p + [x]);
      }
    }
  }

  /** `d.update(other)`: every entry of `other`, in order, assigned into
      `d`. Existing keys keep their position; new keys follow in the order
      `other` lists them. */
  function Update<V(==)>(t: Dict<V>, other: Dict<V>): (r: Dict<V>)
    ensures |t| <= |r| && Keys(r)[..|t|] == Keys(t)
    ensures Keys(r) == Keys(t) + NewKeys(Keys(other), Keys(t))
    ensures forall k :: k in Keys(r) <==> k in Keys(t) || k in Keys(other)
    ensures UniqueKeys(t) ==> UniqueKeys(r)
    decreases |other|
  {
    if |other| == 0 then t
    else
      KeysCons(other);
      var k := other[0].0;
      var mid := Assign(t, k, other[0].1);
      AssignThenNewKeys(Keys(t), k, Keys(other[1..]));
      Update(mid, other[1..])
  }

  /** One assignment, then the rest: the keys come out as if all the new
      keys were appended at once. */
  lemma AssignThenNewKeys(keys: seq<string>, k: string, ks: seq<string>)
    ensures var after := if k in keys then keys else keys + [k];
      after + NewKeys(ks, after) == keys + NewKeys([k] + ks, keys)
  {
    NewKeysCons(k, ks, keys);
    if k !in keys {
      var p := NewKeys(ks, keys + [k]);
      Text.SeqAssoc(keys, [k], p);
    }
  }


  /** After `d.update(other)` a key of `other` holds `other`'s value and
      every other key holds what it held in `d`. */
  lemma {:induction false} UpdateLookup<V>(t: Dict<V>, other: Dict<V>, k: string)
    requires UniqueKeys(other)
    ensures Lookup(Update(t, other), k) == if k in Keys(other) then Lookup(other, k) else Lookup(t, k)
    decreases |other|
  {
    if |other| > 0 {
      var rest := other[1..];
      KeysCons(other);
      assert other[0].0 !in Keys(rest);
      UpdateLookup(Assign(t, other[0].0, other[0].1), rest, k);
      LookupCons(other, k);
    }
  }
}
