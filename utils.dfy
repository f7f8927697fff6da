/**
 * The helpers of `src/utils.py` that carry logic: `human_size`, which renders a
 * byte count with a 1024-based unit, and `write_manifest_entry`, which appends one
 * JSON record per line to the manifest file.
 */
module Utils {
  import opened Wrappers
  import Decimal
  import Text
  import Json

  // ---------------------------------------------------------------------------
  // human_size

  const Units: seq<string> := ["", "K", "M", "G", "T", "P"]

  function Pow1024(k: nat): (p: nat)
    ensures p >= 1
  {
    if k == 0 then 1 else 1024 * Pow1024(k - 1)
  }

  /** `floor(log(num, 1024))`, computed exactly: the power of 1024 that `num` reaches. */
  function UnitIndex(num: nat): (idx: nat)
    requires num >= 1
    ensures Pow1024(idx) <= num < Pow1024(idx + 1)
  {
    if num < 1024 then 0
    else
      var k := UnitIndex(num / 1024);
      assert Pow1024(k + 1) == 1024 * Pow1024(k);
      assert Pow1024(k + 2) == 1024 * Pow1024(k + 1);
      assert 1024 * (num / 1024) <= num < 1024 * (num / 1024 + 1);
      MulLe(Pow1024(k), num / 1024);
      MulLe(num / 1024 + 1, Pow1024(k + 1));
      k + 1
  }

  lemma MulLe(a: nat, b: nat)
    requires a <= b
    ensures 1024 * a <= 1024 * b
  {
  }

  /**
   * `n / d` rounded to the nearest integer, an exact tie going to the even
   * neighbour, as Python's `round` does.
   */
  function RoundHalfEven(n: nat, d: nat): (r: nat)
    requires d > 0
    ensures 2 * n <= 2 * r * d + d && 2 * r * d <= 2 * n + d
    ensures (2 * n == 2 * r * d + d || 2 * r * d == 2 * n + d) ==> r % 2 == 0
  {
    var q, rem := n / d, n % d;
    var r := if 2 * rem < d then q else if 2 * rem > d then q + 1 else if q % 2 == 0 then q else q + 1;
    HalfEvenBounds(n, d, q, rem, r);
    r
  }

  /** Either neighbour of the quotient is within half a divisor of `n / d`, as the remainder decides. */
  lemma HalfEvenBounds(n: nat, d: nat, q: nat, rem: nat, r: nat)
    requires d > 0 && n == q * d + rem && rem < d
    requires r == q || r == q + 1
    requires r == q ==> 2 * rem <= d
    requires r == q + 1 ==> 2 * rem >= d
    ensures 2 * n <= 2 * r * d + d && 2 * r * d <= 2 * n + d
    ensures 2 * n == 2 * r * d + d || 2 * r * d == 2 * n + d ==> 2 * rem == d
  {
    var qd := q * d;
    assert (q + 1) * d == qd + d;
    assert 2 * r * d == 2 * (r * d);
  }

  /** `round(num / 1024**idx, 2)` in hundredths, for the unit index of `num`. */
  function ScaledHundredths(num: nat): nat
    requires num >= 1
  {
    RoundHalfEven(100 * num, Pow1024(UnitIndex(num)))
  }

  /**
   * The text Python's `str` gives a float holding `h / 100` when `h` came from
   * rounding to two places: the integer part, a point, and the fraction with
   * trailing zeros dropped but at least one digit.
   */
  function HundredthsText(h: nat): string
  {
    Decimal.NatToString(h / 100) + "." + FractionText(h % 100)
  }

  /** The digits after the point: trailing zeros dropped, but at least one digit. */
  function FractionText(frac: nat): string
    requires frac < 100
  {
    if frac == 0 then "0"
    else if frac % 10 == 0 then [Decimal.DigitChar(frac / 10)]
    else Decimal.ZeroPad(frac, 2)
  }

  /** A whole number is written with a single zero after the point. */
  lemma WholeHundredths(n: nat)
    ensures HundredthsText(100 * n) == Decimal.NatToString(n) + ".0"
  {
    assert (100 * n) % 100 == 0 && (100 * n) / 100 == n;
  }

  datatype SizeError =
    | MathDomainError   // math.log of a negative number
    | UnitIndexError    // the unit index runs past 'P'

  /** `human_size(num, suffix)`; `None` for `num` stands for Python's `None`. */
  function HumanSize(num: Option<int>, suffix: string): (r: Result<string, SizeError>)
    ensures num == None || num == Some(0) ==> r == Ok("0B")
    ensures num.Some? && num.value < 0 ==> r == Err(MathDomainError)
  {
    if num.None? || num.value == 0 then Ok("0B")
    else if num.value < 0 then Err(MathDomainError)
    else
      var idx := UnitIndex(num.value);
      if idx >= |Units| then Err(UnitIndexError)
      else Ok(HundredthsText(ScaledHundredths(num.value)) + Units[idx] + suffix)
  }

  /**
   * For a positive count up to the petabyte range, the text is the scaled value
   * followed by the unit and the suffix; the unit is the largest power of 1024
   * not above `num`, and the value is within half a hundredth of `num / 1024**idx`.
   */
  lemma HumanSizeShape(num: nat, suffix: string)
    requires 1 <= num < Pow1024(6)
    ensures var idx := UnitIndex(num); var h := ScaledHundredths(num);
      && idx < 6
      && Pow1024(idx) <= num < Pow1024(idx + 1)
      && 2 * 100 * num <= (2 * h + 1) * Pow1024(idx)
      && (2 * h - 1) * Pow1024(idx) <= 2 * 100 * num
      && HumanSize(Some(num), suffix) == Ok(HundredthsText(h) + Units[idx] + suffix)
  {
    var idx := UnitIndex(num);
    if idx >= 6 {
      PowMonotone(6, idx);
    }
  }

  lemma {:induction false} PowMonotone(i: nat, j: nat)
    requires i <= j
    ensures Pow1024(i) <= Pow1024(j)
  {
    if i < j {
      PowMonotone(i, j - 1);
    }
  }

  /** From the petabyte range on, the unit list runs out and `human_size` raises. */
  lemma HumanSizeTooLarge(num: nat, suffix: string)
    requires num >= Pow1024(6)
    ensures HumanSize(Some(num), suffix) == Err(UnitIndexError)
  {
    var idx := UnitIndex(num);
    if idx < 6 {
      PowMonotone(idx + 1, 6);
    }
  }

  /** Reading the number back from HundredthsText gives the hundredths again. */
  function ParseHundredths(t: string): Option<nat>
  {
    var dot := DotIndex(t);
    if dot == |t| || dot == 0 then None else ParseParts(t[..dot], t[dot + 1..])
  }

  /** The number before the point and the one or two digits after it. */
  function ParseParts(whole: string, frac: string): Option<nat>
  {
    if !Decimal.AllDigits(whole) || !Decimal.AllDigits(frac) then None
    else if |frac| == 1 then Some(100 * Decimal.DigitsValue(whole) + 10 * Decimal.DigitsValue(frac))
    else if |frac| == 2 then Some(100 * Decimal.DigitsValue(whole) + Decimal.DigitsValue(frac))
    else None
  }

  function DotIndex(t: string): (i: nat)
    ensures i <= |t|
    ensures i < |t| ==> t[i] == '.'
    ensures forall j :: 0 <= j < i ==> t[j] != '.'
  {
    if t == [] || t[0] == '.' then 0 else DotIndex(t[1..]) + 1
  }

  lemma HundredthsRoundTrip(h: nat)
    ensures ParseHundredths(HundredthsText(h)) == Some(h)
  {
    var whole := Decimal.NatToString(h / 100);
    FractionValue(h % 100);
    SplitAtDot(whole, FractionText(h % 100));
  }

  /** One or two digits that denote `frac` hundredths. */
  lemma FractionValue(frac: nat)
    requires frac < 100
    ensures var f := FractionText(frac);
      1 <= |f| <= 2 && Decimal.AllDigits(f)
      && (if |f| == 1 then 10 * Decimal.DigitsValue(f) else Decimal.DigitsValue(f)) == frac
  {
    var f := FractionText(frac);
    assert f[..|f| - 1] == [] || |f| == 2;
    if frac != 0 && frac % 10 != 0 {
      Decimal.ZeroPadWidth(frac, 2);
    }
  }

  /** Digits, a point and more text are read as the digits and that text. */
  lemma SplitAtDot(whole: string, f: string)
    requires 1 <= |whole| && Decimal.AllDigits(whole)
    ensures ParseHundredths(whole + "." + f) == ParseParts(whole, f)
  {
    var t := whole + "." + f;
    DotAfter(whole, f);
    assert t[..|whole|] == whole;
    assert t[|whole| + 1..] == f;
  }

  lemma DotAfter(whole: string, rest: string)
    requires Decimal.AllDigits(whole)
    ensures DotIndex(whole + "." + rest) == |whole|
  {
    var t := whole + "." + rest;
    assert t[|whole|] == '.';
    assert forall j :: 0 <= j < |whole| ==> t[j] == whole[j];
  }

  /** The examples of `tests/test_utils.py`, and the two ways to get `'0B'`. */
  lemma HumanSizeExamples()
    ensures HumanSize(None, "B") == Ok("0B") && HumanSize(Some(0), "B") == Ok("0B")
    ensures HumanSize(Some(1024), "B") == Ok("1.0KB")
    ensures HumanSize(Some(1024 * 1024), "B") == Ok("1.0MB")
    ensures HumanSize(Some(1536), "B") == Ok("1.5KB")
  {
    OneUnit(1024);
    OneUnit(1536);
    assert UnitIndex(1024 * 1024) == 2 by {
      assert (1024 * 1024) / 1024 == 1024;
    }
    assert Pow1024(2) == 1024 * 1024 by { assert Pow1024(1) == 1024; }
    assert ScaledHundredths(1024) == 100;
    assert ScaledHundredths(1024 * 1024) == 100;
    assert ScaledHundredths(1536) == 150;
    assert HundredthsText(100) == "1.0" by { OneDigit(1); }
    assert HundredthsText(150) == "1.5" by { OneDigit(1); OneDigit(5); }
    assert HumanSize(Some(1024), "B") == Ok(HundredthsText(100) + Units[1] + "B");
    assert HumanSize(Some(1536), "B") == Ok(HundredthsText(150) + Units[1] + "B");
    assert HumanSize(Some(1024 * 1024), "B") == Ok(HundredthsText(100) + Units[2] + "B");
    assert "1.0" + "K" + "B" == "1.0KB";
    assert "1.5" + "K" + "B" == "1.5KB";
    assert "1.0" + "M" + "B" == "1.0MB";
  }

  lemma OneUnit(num: nat)
    requires 1024 <= num < 1024 * 1024
    ensures UnitIndex(num) == 1 && Pow1024(1) == 1024
  {
    assert num / 1024 < 1024;
  }

  lemma OneDigit(n: nat)
    requires n < 10
    ensures Decimal.NatToString(n) == [Decimal.DigitChar(n)]
  {
  }

  /** The suffix is dropped for zero: `human_size(0, 'iB')` is still `'0B'`. */
  lemma HumanSizeZeroIgnoresSuffix(suffix: string)
    ensures HumanSize(Some(0), suffix) == Ok("0B")
  {
  }

  /** Just below 1 MiB the unit stays `K` while the value rounds up to `1024.0`. */
  lemma HumanSizeJustBelowMebibyte()
    ensures HumanSize(Some(1024 * 1024 - 1), "B") == Ok("1024.0KB")
  {
    OneUnit(1024 * 1024 - 1);
    assert ScaledHundredths(1024 * 1024 - 1) == 102400;
    assert Decimal.NatToString(1024) == "1024" by {
      OneDigit(1);
      assert Decimal.NatToString(10) == "10" by { OneDigit(0); }
      assert Decimal.NatToString(102) == "102" by { OneDigit(2); }
      OneDigit(4);
    }
    assert HundredthsText(102400) == "1024.0";
    assert HumanSize(Some(1024 * 1024 - 1), "B") == Ok(HundredthsText(102400) + Units[1] + "B");
    assert "1024.0" + "K" + "B" == "1024.0KB";
  }

  // ---------------------------------------------------------------------------
  // write_manifest_entry

  /** A manifest file on disk, as the text it holds. */
  class ManifestFile {
    var text: string

    constructor (initial: string)
      ensures text == initial
    {
      text := initial;
    }

    /** The records a line-based reader sees in the file. */
    ghost function Records(): seq<string>
      reads this
    {
      Text.Lines(text)
    }

    /**
     * `write_manifest_entry(path, entry)`: append `json.dumps(entry)` and a newline.
     * The old text is kept as it was; a file whose last line was complete gains
     * exactly one record, which reads back as `entry`.
     */
    method WriteManifestEntry(entry: Json.Dict)
      modifies this
      ensures text == old(text) + Json.Dumps(entry) + "\n"
      ensures Text.Complete(old(text)) ==>
        && Text.Complete(text)
        && Records() == old(Records()) + [Json.Dumps(entry)]
        && Json.Loads(Records()[|Records()| - 1]) == Some(entry)
    {
      var line := Json.Dumps(entry);
      Json.DumpsPrintable(entry);
      Json.LoadsDumps(entry);
      if Text.Complete(text) {
        Text.LinesAppendRecord(text, line);
      }
      text := text + line + "\n";
    }
  }
}
