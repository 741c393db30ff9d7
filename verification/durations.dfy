/**
 * The `seconds` argument of `finishTestWithDelay` (`src/Zest/ZTest.ts`): a
 * JavaScript number that is printed into the transcript as `${seconds}` and
 * handed to the timer as `seconds * 1000` milliseconds. The callers pass
 * decimals such as `0.8` and `1`; a value with at most three decimal places is
 * kept here exactly, as its count of milliseconds.
 */
module Durations {
  import opened Wrappers
  import opened Strings

  datatype Seconds = Seconds(millis: nat)

  predicate IsDigits(t: string) {
    forall i :: 0 <= i < |t| ==> '0' <= t[i] <= '9'
  }

  /** The decimal places of `m` thousandths, most significant first, without trailing zeros. */
  function FractionDigits(m: nat): (f: string)
    requires 0 < m < 1000
    ensures 1 <= |f| <= 3 && f[|f| - 1] != '0'
    ensures IsDigits(f)
  {
    var d1 := DigitChar(m / 100);
    var d2 := DigitChar(m / 10 % 10);
    var d3 := DigitChar(m % 10);
    if m % 10 != 0 then [d1, d2, d3]
    else if m % 100 != 0 then [d1, d2]
    else [d1]
  }

  /** What one to three decimal places are worth, in thousandths. */
  function FractionValue(f: string): nat
    requires IsDigits(f) && |f| <= 3
  {
    ParseDigits(f) * (if |f| == 3 then 1 else if |f| == 2 then 10 else 100)
  }

  /**
   * `${seconds}`: JavaScript's shortest decimal form, which for a value with at
   * most three decimal places is the whole part, then a point and the decimal
   * places without trailing zeros when there are any.
   */
  function SecondsText(s: Seconds): (r: string)
    ensures StartsWith(r, NatToString(s.millis / 1000))
    ensures '.' in r <==> s.millis % 1000 != 0
    ensures s.millis % 1000 != 0 ==> r[|r| - 1] != '0'
  {
    var w := NatToString(s.millis / 1000);
    var m := s.millis % 1000;
    if m == 0 then
      assert w[..|w|] == w;
      w
    else
      var r := w + "." + FractionDigits(m);
      assert r[..|w|] == w;
      assert r[|w|] == '.';
      r
  }

  /** Reads a decimal with at most three places back as a duration; anything else is refused. */
  function ParseSeconds(t: string): Option<Seconds> {
    match IndexOf(t, ".")
    case None => if |t| > 0 && IsDigits(t) then Some(Seconds(ParseDigits(t) * 1000)) else None
    case Some(i) => ParseDecimal(t[..i], t[i + 1..])
  }

  /** The reading of a whole part `w` and decimal places `f` found either side of the point. */
  function ParseDecimal(w: string, f: string): Option<Seconds> {
    if |w| > 0 && IsDigits(w) && 1 <= |f| <= 3 && IsDigits(f)
    then Some(Seconds(ParseDigits(w) * 1000 + FractionValue(f)))
    else None
  }

  /** The printed form reads back as the same duration. */
  lemma SecondsRoundTrip(s: Seconds)
    ensures ParseSeconds(SecondsText(s)) == Some(s)
  {
    var q := s.millis / 1000;
    var m := s.millis % 1000;
    var w := NatToString(q);
    NatToStringRoundTrip(q);
    if m == 0 {
      NoPointInDigits(w);
    } else {
      var f := FractionDigits(m);
      SplitAtPoint(w, f);
      FractionDigitsValue(m);
    }
  }

  /** A whole part, a point and decimal places are read as that whole part and those places. */
  lemma SplitAtPoint(w: string, f: string)
    requires IsDigits(w)
    ensures ParseSeconds(w + "." + f) == ParseDecimal(w, f)
  {
    var t := w + "." + f;
    PointAfterDigits(w, f);
    assert t[..|w|] == w;
    assert t[|w| + 1..] == f;
  }

  /** The first point in `w + "." + f` is the one after the whole part `w`. */
  lemma PointAfterDigits(w: string, f: string)
    requires IsDigits(w)
    ensures IndexOf(w + "." + f, ".") == Some(|w|)
  {
    var t := w + "." + f;
    forall j | 0 <= j < |w|
      ensures !StartsWith(t[j..], ".")
    {
      assert t[j] == w[j];
    }
    assert t[|w|..][..1] == ".";
    IndexOfAt(t, ".", |w|);
  }

  /** A string of digits holds no decimal point. */
  lemma NoPointInDigits(w: string)
    requires IsDigits(w)
    ensures IndexOf(w, ".") == None
  {
  }

  lemma FractionDigitsValue(m: nat)
    requires 0 < m < 1000
    ensures FractionValue(FractionDigits(m)) == m
  {
    var a, b, c := m / 100, m / 10 % 10, m % 10;
    var d1, d2, d3 := DigitChar(a), DigitChar(b), DigitChar(c);
    assert m == 100 * a + 10 * b + c;
    assert ParseDigits([]) == 0;
    assert [d1, d2][..1] == [d1];
    assert [d1, d2, d3][..2] == [d1, d2];
    assert ParseDigits([d1]) == a;
    assert ParseDigits([d1, d2]) == a * 10 + b;
    assert ParseDigits([d1, d2, d3]) == (a * 10 + b) * 10 + c;
  }

  /** The values the callers pass: `0.8` prints as `0.8` and waits 800 ms; `1` prints as `1`. */
  lemma CallerValues()
    ensures SecondsText(Seconds(800)) == "0.8"
    ensures SecondsText(Seconds(1000)) == "1"
    ensures SecondsText(Seconds(1250)) == "1.25"
  {
    PrintsWithOnePlace();
    PrintsWhole();
    PrintsWithTwoPlaces();
  }

  lemma PrintsWithOnePlace()
    ensures SecondsText(Seconds(800)) == "0.8"
  {
    assert NatToString(0) == "0";
    assert FractionDigits(800) == "8";
  }

  lemma PrintsWhole()
    ensures SecondsText(Seconds(1000)) == "1"
  {
    assert NatToString(1) == "1";
  }

  lemma PrintsWithTwoPlaces()
    ensures SecondsText(Seconds(1250)) == "1.25"
  {
    assert NatToString(1) == "1";
    assert FractionDigits(250) == "25";
  }
}
