/**
 * Go's strconv.Atoi on a platform whose int is 64 bits wide: an optional
 * sign followed by one or more decimal digits, rejected when the value does
 * not fit the int range. Only the success/failure outcome and the value are
 * modelled; the error values Go returns are not.
 */
module Strconv {
  import opened Wrappers

  const MinInt: int := -0x8000_0000_0000_0000
  const MaxInt: int := 0x7fff_ffff_ffff_ffff

  predicate IsDigit(c: char) { '0' <= c <= '9' }

  predicate AllDigits(s: string) { forall i :: 0 <= i < |s| ==> IsDigit(s[i]) }

  /** The value of a string of decimal digits, most significant first. */
  function DigitsValue(s: string): nat
    requires AllDigits(s)
  {
    if |s| == 0 then 0
    else DigitsValue(s[..|s| - 1]) * 10 + (s[|s| - 1] as int - '0' as int)
  }

  function Atoi(s: string): (r: Option<int>)
    ensures r.Some? ==> |s| > 0 && MinInt <= r.value <= MaxInt
    ensures r.Some? && s[0] != '-' ==> r.value >= 0
  {
    if |s| == 0 then None
    else
      var digits := if s[0] == '-' || s[0] == '+' then s[1..] else s;
      if |digits| == 0 || !AllDigits(digits) then None
      else
        var v: int := if s[0] == '-' then -(DigitsValue(digits) as int) else DigitsValue(digits);
        if MinInt <= v <= MaxInt then Some(v) else None
  }

  /** Atoi on a few inputs: a plain and a signed number, an empty string, a letter, a bare sign. */
  lemma AtoiSamples()
    ensures Atoi("20") == Some(20) && Atoi("10") == Some(10)
    ensures Atoi("-7") == Some(-7) && Atoi("+3") == Some(3)
    ensures Atoi("") == None && Atoi("x") == None && Atoi("-") == None
  {
    assert AllDigits("20") && "20"[..1] == "2" && "2"[..0] == "";
    assert DigitsValue("20") == 20;
    assert AllDigits("10") && "10"[..1] == "1" && "1"[..0] == "";
    assert DigitsValue("10") == 10;
    assert "-7"[1..] == "7" && "+3"[1..] == "3";
    assert !IsDigit("x"[0]);
    assert "-"[1..] == "";
  }

  /** Two decimal digits parse to their value. */
  lemma AtoiTwoDigits(c: char, d: char)
    requires IsDigit(c) && IsDigit(d)
    ensures Atoi([c, d]) == Some((c as int - '0' as int) * 10 + (d as int - '0' as int))
  {
    var s := [c, d];
    assert s[0] == c && s[1] == d && s[0] != '-' && s[0] != '+';
    assert AllDigits(s);
    assert s[..|s| - 1] == [c] && [c][..0] == [];
    assert DigitsValue([c]) == c as int - '0' as int;
    assert DigitsValue(s) == DigitsValue([c]) * 10 + (d as int - '0' as int);
  }

  /** A single decimal digit parses to its value. */
  lemma AtoiDigit(c: char)
    requires IsDigit(c)
    ensures Atoi([c]) == Some(c as int - '0' as int)
  {
    var s := [c];
    assert s[..0] == [] && s[0] == c && s[0] != '-' && s[0] != '+';
    assert AllDigits(s);
    assert DigitsValue(s) == DigitsValue(s[..0]) * 10 + (c as int - '0' as int);
  }
}
