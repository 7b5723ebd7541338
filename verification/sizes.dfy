/** `get_psize` of anitsu-cli.py: a byte count shown with the largest
    decimal unit (1000-based) it reaches. */
module Sizes {
  import opened Text

  /** The units `get_psize` steps through, one per division by 1000. */
  const Units: seq<string> := ["KB", "MB", "GB", "TB", "PB"]

  function Pow1000(j: nat): (r: nat)
    ensures r >= 1
  {
    if j == 0 then 1 else 1000 * Pow1000(j - 1)
  }

  lemma {:induction false} Pow1000Grows(a: nat, b: nat)
    requires a < b
    ensures Pow1000(a + 1) <= Pow1000(b)
    decreases b
  {
    if a + 1 < b {
      Pow1000Grows(a, b - 1);
    }
  }

  /** Integer division by 1000 keeps the comparisons with powers of 1000. */
  lemma DivThousand(q: nat, m: nat)
    ensures q / 1000 >= Pow1000(m) <==> q >= Pow1000(m + 1)
  {
    var p := Pow1000(m);
    assert Pow1000(m + 1) == 1000 * p;
    var d := q / 1000;
    assert q == 1000 * d + q % 1000;
    if d >= p {
      assert 1000 * d >= 1000 * p;
    } else {
      assert d <= p - 1;
      assert 1000 * d <= 1000 * (p - 1);
    }
  }

  /** The loop of `get_psize`: the value has already been divided `j`
      times (`q` is the quotient) and the loop goes on while the value is
      at least 1000 and units remain. The result is the total number of
      divisions. The quotient is exact here; the source's repeated float
      division is not modelled. */
  function Divisions(q: nat, j: nat): (r: nat)
    requires j <= |Units|
    ensures j <= r <= |Units|
    ensures r == j || q >= Pow1000(r - j)
    ensures r == |Units| || q < Pow1000(r - j + 1)
    decreases |Units| - j
  {
    if j == |Units| || q < 1000 then j
    else
      var r := Divisions(q / 1000, j + 1);
      DivThousand(q, r - j - 1);
      DivThousand(q, r - j);
      r
  }

  /** The number of units `get_psize` moves up: the largest `j` of at most
      five with `n >= 1000^j`, and 0 below 1000. */
  function UnitIndex(n: nat): (j: nat)
    ensures j <= |Units|
    ensures j == 0 || n >= Pow1000(j)
    ensures j == |Units| || n < Pow1000(j + 1)
  {
    Divisions(n, 0)
  }

  /** The index is the only one in range that brackets `n`. */
  lemma UnitIndexUnique(n: nat, j: nat)
    requires j <= |Units|
    requires j == 0 || n >= Pow1000(j)
    requires j == |Units| || n < Pow1000(j + 1)
    ensures UnitIndex(n) == j
  {
    var u := UnitIndex(n);
    if u < j {
      Pow1000Grows(u, j);
    } else if j < u {
      Pow1000Grows(j, u);
    }
  }

  /** The text `get_psize` builds. Below 1000 it is the integer followed by
      " B"; otherwise it is `n / 1000^j` printed with two decimals and the
      j-th unit, kept here as the exact count and the unit (the float text
      is not modelled). */
  datatype SizeText = Bytes(text: string) | Scaled(bytes: nat, unit: string)

  function PSize(n: nat): (r: SizeText)
    ensures r.Bytes? <==> n < 1000
    ensures r.Bytes? ==> r.text == ShowNat(n) + " B"
    ensures r.Scaled? ==> r.bytes == n && r.unit == Units[UnitIndex(n) - 1]
  {
    var j := UnitIndex(n);
    if j == 0 then
      assert n < 1000 by { assert Pow1000(1) == 1000; }
      Bytes(ShowNat(n) + " B")
    else
      assert n >= 1000 by { Pow1000Grows(0, j); }
      Scaled(n, Units[j - 1])
  }

  /** Reading the number back out of the " B" text gives the count. */
  lemma PSizeBytesRoundTrip(n: nat)
    requires n < 1000
    ensures PSize(n).text == ShowNat(n) + " B"
    ensures ParseDecimal(PSize(n).text[..|PSize(n).text| - 2]) == n
  {
    var t := PSize(n).text;
    assert t[..|t| - 2] == ShowNat(n);
    ParseShowNat(n);
  }

  /** A count in `[1000^j, 1000^(j+1))` is shown with the j-th unit; the
      last unit takes everything from 1000^5 up. */
  lemma PSizeUnit(n: nat, j: nat)
    requires 1 <= j <= |Units|
    requires n >= Pow1000(j)
    requires j == |Units| || n < Pow1000(j + 1)
    ensures PSize(n) == Scaled(n, Units[j - 1])
  {
    UnitIndexUnique(n, j);
    Pow1000Grows(0, j);
  }
}
