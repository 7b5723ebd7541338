/** The `preview` command of anitsu-cli.py: the lines the listener sent
    back are shown directories first, each file with its size, and a total
    line when any size was read. The image of a post is chosen from the
    `(post-N)` annotation of the highlighted line. */
module PreviewRender {
  import opened Wrappers
  import opened Text
  import opened Partition
  import opened Sizes

  /** The annotations that end file and post labels. */
  const SizeTag := " (size-"
  const PostTag := " (post-"

  // ---------------------------------------------------------------------
  // Annotations at the end of a line
  // ---------------------------------------------------------------------

  /** Length of the run of digits that ends `s`. */
  function TrailingDigits(s: string): (n: nat)
    ensures n <= |s|
    ensures forall i :: |s| - n <= i < |s| ==> IsDigit(s[i])
    ensures n < |s| ==> !IsDigit(s[|s| - n - 1])
    decreases |s|
  {
    if |s| == 0 || !IsDigit(s[|s| - 1]) then 0
    else
      var p := s[..|s| - 1];
      var n := TrailingDigits(p);
      assert forall i :: |s| - (n + 1) <= i < |s| - 1 ==> s[i] == p[i];
      n + 1
  }

  /** The last `n` characters, all digits, as a string of digits. */
  lemma DigitsTail(s: string, n: nat)
    requires n <= |s| && forall i :: |s| - n <= i < |s| ==> IsDigit(s[i])
    ensures AllDigits(s[|s| - n..])
  {
    var d := s[|s| - n..];
    forall i | 0 <= i < |d|
      ensures IsDigit(d[i])
    {
      assert d[i] == s[|s| - n + i];
    }
  }

  /** The digits of `tag`, digits, `)` ending `s` (the group of
      `re.search(tag + r'(\d+)\)$', s)`), None when `s` does not end so. */
  function Annotation(s: string, tag: string): (r: Option<string>)
    ensures r.Some? ==> |r.value| > 0 && AllDigits(r.value) && EndsWith(s, tag + r.value + ")")
  {
    if |s| == 0 || s[|s| - 1] != ')' then None
    else
      var body := s[..|s| - 1];
      var n := TrailingDigits(body);
      if n > 0 && EndsWith(body[..|body| - n], tag) then
        AnnotationFound(s, tag, n);
        DigitsTail(body, n);
        Some(body[|body| - n..])
      else None
  }

  /** `tag`, then the last `n` characters before the closing `)`, end `s`. */
  lemma AnnotationFound(s: string, tag: string, n: nat)
    requires |s| > 0 && s[|s| - 1] == ')' && n < |s|
    requires EndsWith(s[..|s| - 1][..|s| - 1 - n], tag)
    ensures EndsWith(s, tag + s[..|s| - 1][|s| - 1 - n..] + ")")
  {
    var body := s[..|s| - 1];
    var pre := body[..|body| - n];
    var d := body[|body| - n..];
    assert s == pre + (d + ")");
    EndsWithExtend(pre, tag, d + ")");
    SeqAssoc(tag, d, ")");
  }

  /** The run of digits ending `s` has length `k` when the last `k`
      characters are digits and the one before them is not. */
  lemma TrailingDigitsExact(s: string, k: nat)
    requires k <= |s| && AllDigits(s[|s| - k..])
    requires k < |s| ==> !IsDigit(s[|s| - k - 1])
    ensures TrailingDigits(s) == k
  {
    DigitsSpread(s, k);
  }

  /** A digit string ending `s` makes each of its last positions a digit. */
  lemma DigitsSpread(s: string, k: nat)
    requires k <= |s| && AllDigits(s[|s| - k..])
    ensures forall i :: |s| - k <= i < |s| ==> IsDigit(s[i])
  {
    forall i | |s| - k <= i < |s|
      ensures IsDigit(s[i])
    {
      assert s[i] == s[|s| - k..][i - (|s| - k)];
    }
  }

  /** A tag ending in a non-digit fixes where the digits start, so the
      annotation is found exactly when the string ends with one. */
  lemma AnnotationExact(s: string, tag: string, d: string)
    requires |tag| > 0 && !IsDigit(tag[|tag| - 1])
    ensures Annotation(s, tag) == Some(d) <==> |d| > 0 && AllDigits(d) && EndsWith(s, tag + d + ")")
  {
    if |d| > 0 && AllDigits(d) && EndsWith(s, tag + d + ")") {
      var body := s[..|s| - 1];
      EndsWithSplit(s, tag + d, ")");
      EndsWithSplit(body, tag, d);
      TrailingDigitsExact(body, |d|);
    }
  }

  /** A label built as `label + " (size-N)"` reads back as size N. */
  lemma AnnotationRoundTrip(name: string, tag: string, n: nat)
    requires |tag| > 0 && !IsDigit(tag[|tag| - 1])
    ensures Annotation(name + tag + ShowNat(n) + ")", tag) == Some(ShowNat(n))
  {
    AnnotationBuilt(name, tag, ShowNat(n));
  }

  lemma AnnotationBuilt(name: string, tag: string, d: string)
    requires |tag| > 0 && !IsDigit(tag[|tag| - 1])
    requires |d| > 0 && AllDigits(d)
    ensures Annotation(name + tag + d + ")", tag) == Some(d)
  {
    var e := tag + d + ")";
    var s := name + tag + d + ")";
    assert s == name + e;
    assert s[|s| - |e|..] == e;
    AnnotationExact(s, tag, d);
  }

  /** The size of a file line: `int(re.search(r' \(size-(\d+)\)$', s).group(1))`. */
  function SizeOf(s: string): Option<nat> {
    match Annotation(s, SizeTag)
    case Some(d) => Some(ParseDecimal(d))
    case None => None
  }

  lemma SizeOfLabel(name: string, n: nat)
    ensures SizeOf(name + SizeTag + ShowNat(n) + ")") == Some(n)
  {
    AnnotationRoundTrip(name, SizeTag, n);
    ParseShowNat(n);
  }

  /** The image shown next to a highlighted post: `<dir>/<id>.jpg` for a
      line ending in `(post-<id>)`, and `''` (no image) otherwise. */
  function ImageFile(imgDir: string, arg: string): (img: string)
    ensures img != "" ==> |img| >= |imgDir| + 5 && img[..|imgDir| + 1] == imgDir + "/" && EndsWith(img, ".jpg")
  {
    match Annotation(arg, PostTag)
    case Some(d) => imgDir + "/" + d + ".jpg"
    case None => ""
  }

  /** The image is `<dir>/<d>.jpg` exactly when the line ends in
      ` (post-<d>)` with `d` a run of digits. */
  lemma ImageFileExact(imgDir: string, arg: string, d: string)
    ensures ImageFile(imgDir, arg) == imgDir + "/" + d + ".jpg"
        <==> |d| > 0 && AllDigits(d) && EndsWith(arg, PostTag + d + ")")
  {
    AnnotationExact(arg, PostTag, d);
    var a := Annotation(arg, PostTag);
    if a.Some? && ImageFile(imgDir, arg) == imgDir + "/" + d + ".jpg" {
      var x := imgDir + "/" + a.value + ".jpg";
      var y := imgDir + "/" + d + ".jpg";
      assert |a.value| == |d|;
      assert x[|imgDir| + 1..|x| - 4] == a.value;
      assert y[|imgDir| + 1..|y| - 4] == d;
    }
  }

  lemma ImageOfPost(imgDir: string, name: string, id: nat)
    ensures ImageFile(imgDir, name + PostTag + ShowNat(id) + ")") == imgDir + "/" + ShowNat(id) + ".jpg"
  {
    AnnotationRoundTrip(name, PostTag, id);
  }

  // ---------------------------------------------------------------------
  // Cutting the annotation off
  // ---------------------------------------------------------------------

  /** An annotation starts at position `i` of `s`. */
  predicate MarkerAt(s: string, i: nat)
    requires i <= |s|
  {
    StartsWith(s[i..], SizeTag) || StartsWith(s[i..], PostTag)
  }

  /** No annotation starts before position `j` of `s`. */
  predicate Unmarked(s: string, j: nat)
    requires j <= |s|
  {
    forall i :: 0 <= i < j ==> !MarkerAt(s, i)
  }

  /** `re.sub(r' \((?:size|post)-.*$', '', s)` on a line without newline:
      everything before the first annotation. */
  function CutLabel(s: string): (r: string)
    ensures |r| <= |s| && r == s[..|r|]
    ensures forall i :: 0 <= i < |r| ==> !MarkerAt(s, i)
    ensures |r| < |s| ==> MarkerAt(s, |r|)
    decreases |s|
  {
    if |s| == 0 || StartsWith(s, SizeTag) || StartsWith(s, PostTag) then ""
    else
      var r := CutLabel(s[1..]);
      forall i | 0 < i <= |r|
        ensures MarkerAt(s, i) == MarkerAt(s[1..], i - 1)
      {
        assert s[i..] == s[1..][i - 1..];
      }
      [s[0]] + r
  }

  /** The cut ends at the first annotation: when one starts at `j` and
      none before, the label is the first `j` characters. */
  lemma CutLabelAt(s: string, j: nat)
    requires j <= |s| && MarkerAt(s, j)
    requires Unmarked(s, j)
    ensures CutLabel(s) == s[..j]
  {
    var r := CutLabel(s);
  }

  /** Cutting a built label gives back the name, when the name itself holds
      no annotation. */
  lemma CutLabelOfLabel(name: string, n: nat)
    requires Unmarked(name + SizeTag + ShowNat(n) + ")", |name|)
    ensures CutLabel(name + SizeTag + ShowNat(n) + ")") == name
  {
    CutSized(name, ShowNat(n));
  }

  lemma CutSized(name: string, d: string)
    requires Unmarked(name + SizeTag + d + ")", |name|)
    ensures CutLabel(name + SizeTag + d + ")") == name
  {
    var s := name + SizeTag + d + ")";
    assert s[|name|..][..|SizeTag|] == SizeTag;
    CutLabelAt(s, |name|);
    assert s[..|name|] == name;
  }

  // ---------------------------------------------------------------------
  // The sort key
  // ---------------------------------------------------------------------

  /** One or more digits, then `)`, at the start of `s`. */
  predicate DigitsClose(s: string)
    decreases |s|
  {
    |s| >= 2 && IsDigit(s[0]) && (s[1] == ')' || DigitsClose(s[1..]))
  }

  predicate MarkAt(s: string) {
    StartsWith(s, "(size-") && DigitsClose(s[6..])
  }

  /** `re.match(r'.*\(size-\d+\)', x)` on a line without newline: the line
      holds `(size-`, digits, `)` somewhere. */
  predicate SizeMarked(s: string)
    decreases |s|
  {
    MarkAt(s) || (|s| > 0 && SizeMarked(s[1..]))
  }

  lemma {:induction false} DigitsThenClose(d: string, y: string)
    requires |d| > 0 && AllDigits(d)
    ensures DigitsClose(d + ")" + y)
    decreases |d|
  {
    var s := d + ")" + y;
    assert s[0] == d[0];
    if |d| > 1 {
      assert s[1..] == d[1..] + ")" + y;
      DigitsThenClose(d[1..], y);
    } else {
      assert s[1] == ')';
    }
  }

  lemma {:induction false} SizeMarkedSuffix(s: string, k: nat)
    requires k <= |s| && SizeMarked(s[k..])
    ensures SizeMarked(s)
    decreases k
  {
    if k > 0 {
      assert s[1..][k - 1..] == s[k..];
      SizeMarkedSuffix(s[1..], k - 1);
    }
  }

  /** `(size-`, digits, `)` at position `k` mark the line. */
  lemma MarkInside(t: string, k: nat, d: string)
    requires |d| > 0 && AllDigits(d)
    requires k + |d| + 7 <= |t| && t[k..k + |d| + 7] == "(size-" + d + ")"
    ensures SizeMarked(t)
  {
    var post := t[k + |d| + 7..];
    assert t[k..] == t[k..k + |d| + 7] + post;
    DigitsThenClose(d, post);
    assert t[k..][6..] == d + ")" + post;
    SizeMarkedSuffix(t, k);
  }

  /** Every line whose stripped text carries a size is sorted with the
      files; the converse fails for a `(size-N)` that is not at the end. */
  lemma SizedIsMarked(line: string)
    requires SizeOf(Strip(line)).Some?
    ensures SizeMarked(line)
  {
    var s := Strip(line);
    var d := Annotation(s, SizeTag).value;
    var lead := LeadingSpace(line);
    var k := lead + |s| - |d| - 7;
    SizeWindow(line, s, lead, d);
    MarkInside(line, k, d);
  }

  /** The `(size-N)` that ends the stripped text sits at the same place in
      the line. */
  lemma SizeWindow(line: string, s: string, lead: nat, d: string)
    requires lead + |s| <= |line| && s == line[lead..lead + |s|]
    requires EndsWith(s, SizeTag + d + ")")
    ensures lead + |s| - |d| - 7 >= 0
    ensures line[lead + |s| - |d| - 7..lead + |s|] == "(size-" + d + ")"
  {
    var e := SizeTag + d + ")";
    var w := "(size-" + d + ")";
    var k := lead + |s| - |d| - 7;
    forall x | 0 <= x < |w|
      ensures line[k + x] == w[x]
    {
      assert line[k + x] == s[|s| - |e| + 1 + x];
      assert s[|s| - |e| + 1 + x] == s[|s| - |e|..][1 + x];
      assert e[1 + x] == w[x];
    }
  }

  // ---------------------------------------------------------------------
  // The rendered pane
  // ---------------------------------------------------------------------

  /** A line of the pane: a file shows its size, a directory none; both
      show the label without its annotation. Padding and colours are not
      modelled. */
  datatype Row = Row(size: Option<nat>, name: string)

  function RenderLine(line: string): Row {
    var s := Strip(line);
    Row(SizeOf(s), CutLabel(s))
  }

  /** What a line adds to the total. */
  function LineSize(line: string): nat {
    SizeOf(Strip(line)).GetOr(0)
  }

  function RowsTotal(rows: seq<Row>): nat
    decreases |rows|
  {
    if |rows| == 0 then 0 else rows[0].size.GetOr(0) + RowsTotal(rows[1..])
  }

  /** The order the pane shows the lines in: `sorted` on the size mark. */
  function Arrange(raw: string): seq<string> {
    StablePartition(SizeMarked, Split(raw, "\n"))
  }

  /** The `Total size:` line (when the total is positive) and the rows. */
  datatype Pane = Pane(total: Option<SizeText>, rows: seq<Row>)

  /** `preview`: the listener's reply, split on newlines, sorted, each line
      rendered, the sizes summed. */
  function Render(raw: string): (r: Pane)
    ensures |r.rows| == |Split(raw, "\n")|
    ensures r.total.Some? <==> SumOf(LineSize, Split(raw, "\n")) > 0
    ensures r.total.Some? ==> r.total.value == PSize(SumOf(LineSize, Split(raw, "\n")))
  {
    var lines := Arrange(raw);
    var rows := Map(RenderLine, lines);
    var total := RowsTotal(rows);
    RenderTotal(Split(raw, "\n"), lines, rows);
    Pane(if total > 0 then Some(PSize(total)) else None, rows)
  }

  lemma RenderTotal(input: seq<string>, lines: seq<string>, rows: seq<Row>)
    requires lines == StablePartition(SizeMarked, input) && rows == Map(RenderLine, lines)
    ensures |rows| == |input|
    ensures RowsTotal(rows) == SumOf(LineSize, input)
  {
    StablePartitionPermutation(SizeMarked, input);
    assert |multiset(lines)| == |multiset(input)|;
    RowsTotalMap(lines);
    SumOfStablePartition(LineSize, SizeMarked, input);
  }

  lemma {:induction false} RowsTotalMap(lines: seq<string>)
    ensures RowsTotal(Map(RenderLine, lines)) == SumOf(LineSize, lines)
    decreases |lines|
  {
    if |lines| > 0 {
      assert Map(RenderLine, lines)[1..] == Map(RenderLine, lines[1..]);
      RowsTotalMap(lines[1..]);
    }
  }

  /** The pane shows every line of the reply once: its rows are the
      rendered lines, rearranged. */
  lemma RenderShowsEveryLine(raw: string)
    ensures multiset(Render(raw).rows) == multiset(Map(RenderLine, Split(raw, "\n")))
  {
    MapStablePartitionPermutation(RenderLine, SizeMarked, Split(raw, "\n"));
  }

  /** Directories first: no line with a size is shown before a line
      without the size mark, and within each group the reply's order is
      kept. */
  lemma RenderDirectoriesFirst(raw: string)
    ensures var rows := Render(raw).rows;
            var lines := Arrange(raw);
            && |lines| == |rows|
            && (forall i :: 0 <= i < |rows| ==> rows[i] == RenderLine(lines[i]))
            && (forall i, j :: 0 <= i < j < |rows| && rows[i].size.Some? ==> SizeMarked(lines[j]))
            && Filter(SizeMarked, lines) == Filter(SizeMarked, Split(raw, "\n"))
            && Filter(Not(SizeMarked), lines) == Filter(Not(SizeMarked), Split(raw, "\n"))
  {
    var lines := Arrange(raw);
    StablePartitionSorted(SizeMarked, Split(raw, "\n"));
    StablePartitionStable(SizeMarked, Split(raw, "\n"));
    forall i | 0 <= i < |lines| && RenderLine(lines[i]).size.Some?
      ensures SizeMarked(lines[i])
    {
      SizedIsMarked(lines[i]);
    }
  }
}
