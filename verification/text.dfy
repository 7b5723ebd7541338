/** The handful of Python `str` operations the tools rely on, written out
    over `seq<char>`: prefix/suffix tests, the `in` operator, `split`/`join`,
    `strip`, and decimal conversion in both directions (`int(s)` and
    `f"{n}"`). */
module Text {

  predicate StartsWith(s: string, p: string) {
    |p| <= |s| && s[..|p|] == p
  }

  predicate EndsWith(s: string, p: string) {
    |p| <= |s| && s[|s| - |p|..] == p
  }

  /** A common tail keeps a suffix a suffix. */
  lemma EndsWithExtend(s: string, p: string, c: string)
    requires EndsWith(s, p)
    ensures EndsWith(s + c, p + c)
  {
    var k := |s| - |p|;
    assert |s + c| - |p + c| == k;
    assert (s + c)[k..] == s[k..] + c;
  }

  /** A suffix `a + b` splits into `b` at the very end and `a` before it. */
  lemma EndsWithSplit(s: string, a: string, b: string)
    requires EndsWith(s, a + b)
    ensures EndsWith(s[..|s| - |b|], a) && s[|s| - |b|..] == b
    ensures |a| > 0 ==> s[|s| - |b| - 1] == a[|a| - 1]
  {
    var k := |s| - |a + b|;
    assert s[k..] == a + b;
    assert s[..|s| - |b|][k..] == s[k..][..|a|];
    assert s[|s| - |b|..] == s[k..][|a|..];
    if |a| > 0 {
      assert s[|s| - |b| - 1] == s[k..][|a| - 1];
    }
  }

  /** Concatenation is associative. */
  lemma SeqAssoc<T>(a: seq<T>, b: seq<T>, c: seq<T>)
    ensures a + b + c == a + (b + c)
  {
  }

  /** A non-empty sequence is its front followed by its last element. */
  lemma FrontLast<T>(s: seq<T>)
    requires |s| > 0
    ensures s == s[..|s| - 1] + [s[|s| - 1]]
  {
  }

  /** A prefix of a prefix is a prefix, and indexes the same. */
  lemma TakeTake<T>(s: seq<T>, n: nat, i: nat)
    requires i < n <= |s|
    ensures s[..n][..i] == s[..i] && s[..n][i] == s[i]
  {
  }

  /** A slice of a slice is a slice. */
  lemma SliceOfSlice<T>(s: seq<T>, a: nat, b: nat, i: nat, j: nat)
    requires a <= b <= |s| && i <= j <= b - a
    ensures s[a..b][i..j] == s[a + i..a + j]
  {
    var u := s[a..b];
    var v := u[i..j];
    forall x | 0 <= x < j - i
      ensures v[x] == s[a + i + x]
    {
      assert v[x] == u[i + x];
    }
  }

  /** Python's `p in s` on strings: `p` occurs in `s` at some position. */
  predicate Contains(s: string, p: string)
    decreases |s|
  {
    StartsWith(s, p) || (|s| > 0 && Contains(s[1..], p))
  }

  /** An occurrence of `p` inside `s[k..]` is an occurrence inside `s`. */
  lemma {:induction false} ContainsSuffix(s: string, k: nat, p: string)
    requires k <= |s|
    requires Contains(s[k..], p)
    ensures Contains(s, p)
    decreases k
  {
    if k > 0 {
      assert s[1..][k - 1..] == s[k..];
      ContainsSuffix(s[1..], k - 1, p);
    }
  }

  /** An occurrence of `p` inside a prefix of `s` is an occurrence inside `s`. */
  lemma {:induction false} ContainsPrefix(s: string, k: nat, p: string)
    requires k <= |s|
    requires Contains(s[..k], p)
    ensures Contains(s, p)
    decreases k
  {
    if StartsWith(s[..k], p) {
      assert s[..|p|] == s[..k][..|p|];
    } else {
      assert s[..k][1..] == s[1..][..k - 1];
      ContainsPrefix(s[1..], k - 1, p);
    }
  }

  // ---------------------------------------------------------------------
  // Decimal numbers
  // ---------------------------------------------------------------------

  predicate IsDigit(c: char) {
    '0' <= c <= '9'
  }

  predicate AllDigits(s: string) {
    forall i :: 0 <= i < |s| ==> IsDigit(s[i])
  }

  function DigitChar(d: nat): (c: char)
    requires d < 10
    ensures IsDigit(c)
  {
    ('0' as int + d) as char
  }

  /** Python's `int(s)` on a string of ASCII digits. */
  function ParseDecimal(s: string): nat
    requires AllDigits(s)
    decreases |s|
  {
    if |s| == 0 then 0
    else ParseDecimal(s[..|s| - 1]) * 10 + (s[|s| - 1] as int - '0' as int)
  }

  /** Python's `f"{n}"` for a non-negative int: the canonical decimal
      numeral, digits only, no leading zero. */
  function ShowNat(n: nat): (r: string)
    ensures |r| > 0 && AllDigits(r)
    ensures |r| > 1 ==> r[0] != '0'
  {
    if n < 10 then [DigitChar(n)]
    else ShowNat(n / 10) + [DigitChar(n % 10)]
  }

  /** `int(f"{n}") == n`. */
  lemma {:induction false} ParseShowNat(n: nat)
    ensures ParseDecimal(ShowNat(n)) == n
  {
    if n >= 10 {
      var s := ShowNat(n);
      assert s[..|s| - 1] == ShowNat(n / 10);
      ParseShowNat(n / 10);
    }
  }

  /** Distinct numbers have distinct numerals. */
  lemma ShowNatInjective(a: nat, b: nat)
    requires a != b
    ensures ShowNat(a) != ShowNat(b)
  {
    ParseShowNat(a);
    ParseShowNat(b);
  }

  // ---------------------------------------------------------------------
  // split / join
  // ---------------------------------------------------------------------

  /** Python's `s.split(sep)` for a non-empty separator: the pieces between
      the occurrences of `sep`, found left to right without overlap. */
  function Split(s: string, sep: string): (r: seq<string>)
    requires |sep| > 0
    ensures |r| > 0
    decreases |s|
  {
    if |s| < |sep| then [s]
    else if s[..|sep|] == sep then [""] + Split(s[|sep|..], sep)
    else
      var rest := Split(s[1..], sep);
      [[s[0]] + rest[0]] + rest[1..]
  }

  /** Python's `sep.join(parts)`. */
  function Join(parts: seq<string>, sep: string): string
  {
    if |parts| == 0 then ""
    else if |parts| == 1 then parts[0]
    else parts[0] + sep + Join(parts[1..], sep)
  }

  /** Joining the pieces of a split gives back the string. */
  lemma {:induction false} JoinSplit(s: string, sep: string)
    requires |sep| > 0
    ensures Join(Split(s, sep), sep) == s
    decreases |s|
  {
    if |s| < |sep| {
    } else if s[..|sep|] == sep {
      var tail := Split(s[|sep|..], sep);
      JoinSplit(s[|sep|..], sep);
      assert Split(s, sep) == [""] + tail;
      JoinCons("", tail, sep);
      assert s == sep + s[|sep|..];
    } else {
      var rest := Split(s[1..], sep);
      JoinSplit(s[1..], sep);
      assert Split(s, sep) == [[s[0]] + rest[0]] + rest[1..];
      JoinExtendHead(s[0], rest, sep);
      assert s == [s[0]] + s[1..];
    }
  }

  lemma JoinCons(head: string, tail: seq<string>, sep: string)
    requires |tail| > 0
    ensures Join([head] + tail, sep) == head + sep + Join(tail, sep)
  {
    assert ([head] + tail)[1..] == tail;
  }

  lemma JoinExtendHead(c: char, parts: seq<string>, sep: string)
    requires |parts| > 0
    ensures Join([[c] + parts[0]] + parts[1..], sep) == [c] + Join(parts, sep)
  {
    var q := [[c] + parts[0]] + parts[1..];
    if |parts| > 1 {
      assert q[1..] == parts[1..];
    }
  }

  /** A join starts with its first piece, followed by the separator when
      more pieces come. */
  lemma JoinHead(parts: seq<string>, sep: string)
    requires |parts| > 0
    ensures StartsWith(Join(parts, sep), parts[0])
    ensures |parts| > 1 ==>
      (|parts[0]| + |sep| <= |Join(parts, sep)| && Join(parts, sep)[|parts[0]|..|parts[0]| + |sep|] == sep)
  {
    if |parts| > 1 {
      var j := Join(parts, sep);
      assert j == parts[0] + sep + Join(parts[1..], sep);
      assert j[..|parts[0]|] == parts[0];
    }
  }

  /** A join ends with its last piece, preceded by the separator when
      more pieces come before it. */
  lemma {:induction false} JoinLast(parts: seq<string>, sep: string)
    requires |parts| > 0
    ensures EndsWith(Join(parts, sep), parts[|parts| - 1])
    ensures |parts| > 1 ==> var j := Join(parts, sep); var l := parts[|parts| - 1];
      |l| + |sep| <= |j| && j[|j| - |l| - |sep|..|j| - |l|] == sep
    decreases |parts|
  {
    if |parts| > 1 {
      var j := Join(parts, sep);
      var l := parts[|parts| - 1];
      var rest := Join(parts[1..], sep);
      assert j == parts[0] + sep + rest;
      assert parts[1..][|parts[1..]| - 1] == l;
      JoinLast(parts[1..], sep);
      assert j[|j| - |rest|..] == rest;
      assert j[|j| - |l|..] == rest[|rest| - |l|..];
      if |parts| == 2 {
        assert rest == l;
        assert j[|j| - |l| - |sep|..|j| - |l|] == sep;
      } else {
        assert j[|j| - |l| - |sep|..|j| - |l|] == rest[|rest| - |l| - |sep|..|rest| - |l|];
      }
    }
  }

  /** With a one-character separator no piece contains that character. */
  lemma {:induction false} SplitPiecesFree(s: string, sep: char)
    ensures forall i :: 0 <= i < |Split(s, [sep])| ==> sep !in Split(s, [sep])[i]
    decreases |s|
  {
    if |s| >= 1 {
      if s[..1] == [sep] {
        SplitPiecesFree(s[1..], sep);
      } else {
        SplitPiecesFree(s[1..], sep);
        assert s[0] != sep by { assert s[..1] == [s[0]]; }
      }
    }
  }

  /** Python's `x[1:]`: drops the first character, if any. */
  function DropFirst(s: string): (r: string)
    ensures |s| > 0 ==> [s[0]] + r == s
    ensures |s| == 0 ==> r == ""
  {
    if |s| == 0 then "" else s[1..]
  }

  // ---------------------------------------------------------------------
  // strip
  // ---------------------------------------------------------------------

  /** The characters Python's `str.isspace` accepts, which `str.strip()`
      removes from both ends. */
  predicate IsSpace(c: char) {
    || c == ' '
    || '\t' <= c <= '\r'
    || '\U{1c}' <= c <= '\U{1f}'
    || c == '\U{85}' || c == '\U{a0}' || c == '\U{1680}'
    || '\U{2000}' <= c <= '\U{200a}'
    || c == '\U{2028}' || c == '\U{2029}' || c == '\U{202f}'
    || c == '\U{205f}' || c == '\U{3000}'
  }

  /** Number of leading whitespace characters of `s`. */
  function LeadingSpace(s: string): (n: nat)
    ensures n <= |s|
    ensures forall i :: 0 <= i < n ==> IsSpace(s[i])
    ensures n < |s| ==> !IsSpace(s[n])
    decreases |s|
  {
    if |s| > 0 && IsSpace(s[0]) then 1 + LeadingSpace(s[1..]) else 0
  }

  /** Number of trailing whitespace characters of `s`. */
  function TrailingSpace(s: string): (n: nat)
    ensures n <= |s|
    ensures forall i :: |s| - n <= i < |s| ==> IsSpace(s[i])
    ensures n < |s| ==> !IsSpace(s[|s| - n - 1])
    decreases |s|
  {
    if |s| > 0 && IsSpace(s[|s| - 1]) then 1 + TrailingSpace(s[..|s| - 1]) else 0
  }

  /** The trailing whitespace of the text after the leading whitespace is
      whitespace of the whole string; the last kept character is not. */
  lemma StripTail(s: string, a: nat, b: nat)
    requires a <= |s| && b == TrailingSpace(s[a..])
    ensures forall i :: |s| - b <= i < |s| ==> IsSpace(s[i])
    ensures b < |s| - a ==> !IsSpace(s[|s| - b - 1])
  {
    var rest := s[a..];
    assert |rest| == |s| - a;
    forall i | |s| - b <= i < |s|
      ensures IsSpace(s[i])
    {
      assert s[i] == rest[i - a];
    }
    if b < |rest| {
      assert s[|s| - b - 1] == rest[|rest| - b - 1];
    }
  }

  /** Python's `s.strip()`: `s` without its leading and trailing whitespace. */
  function Strip(s: string): (r: string)
    ensures LeadingSpace(s) + |r| <= |s|
    ensures r == s[LeadingSpace(s)..LeadingSpace(s) + |r|]
    ensures forall i :: 0 <= i < LeadingSpace(s) ==> IsSpace(s[i])
    ensures forall i :: LeadingSpace(s) + |r| <= i < |s| ==> IsSpace(s[i])
    ensures |r| > 0 ==> !IsSpace(r[0]) && !IsSpace(r[|r| - 1])
  {
    var a := LeadingSpace(s);
    var b := TrailingSpace(s[a..]);
    StripTail(s, a, b);
    var r := s[a..|s| - b];
    assert |r| > 0 ==> r[0] == s[a] && r[|r| - 1] == s[|s| - b - 1];
    r
  }
}
