/**
 * The string operations the chart pipelines use: `startsWith`, `includes`,
 * `toLowerCase` (on ASCII letters), and the unary `+` that turns a CSV rank
 * cell into a JavaScript number.
 */
module Text {

  /** `s.startsWith(prefix)`. */
  predicate StartsWith(s: string, prefix: string) {
    |prefix| <= |s| && s[..|prefix|] == prefix
  }

  /** `s.includes(sub)`: `sub` starts at some position of `s`. */
  predicate Contains(s: string, sub: string)
    decreases |s|
  {
    StartsWith(s, sub) || (|s| > 0 && Contains(s[1..], sub))
  }

  /** `sub` occurs in `s` starting at position `i`. */
  predicate OccursAt(s: string, sub: string, i: int) {
    0 <= i && i + |sub| <= |s| && s[i..i + |sub|] == sub
  }

  /** `Contains` holds exactly when `sub` occurs as a slice of `s`. */
  lemma {:induction false} ContainsIff(s: string, sub: string)
    ensures Contains(s, sub) <==> exists i :: OccursAt(s, sub, i)
    decreases |s|
  {
    if |s| > 0 {
      ContainsIff(s[1..], sub);
      if exists i :: OccursAt(s, sub, i) {
        var i :| OccursAt(s, sub, i);
        if i > 0 {
          assert OccursAt(s[1..], sub, i - 1);
        }
      }
      if Contains(s[1..], sub) {
        var i :| OccursAt(s[1..], sub, i);
        assert OccursAt(s, sub, i + 1);
      }
    } else {
      if exists i :: OccursAt(s, sub, i) {
        var i :| OccursAt(s, sub, i);
        assert i == 0 && StartsWith(s, sub);
      }
    }
    if StartsWith(s, sub) {
      assert OccursAt(s, sub, 0);
    }
  }

  function LowerChar(c: char): char {
    if 'A' <= c <= 'Z' then (c as int + 32) as char else c
  }

  /** `s.toLowerCase()`, on the ASCII letters. */
  function ToLower(s: string): (r: string)
    ensures |r| == |s|
    ensures forall i :: 0 <= i < |s| ==> r[i] == LowerChar(s[i])
  {
    seq(|s|, i requires 0 <= i < |s| => LowerChar(s[i]))
  }

  /** Lower-casing twice changes nothing more than lower-casing once. */
  lemma ToLowerIdempotent(s: string)
    ensures ToLower(ToLower(s)) == ToLower(s)
  {
    forall i | 0 <= i < |s|
      ensures ToLower(ToLower(s))[i] == ToLower(s)[i]
    {
      var c := s[i];
      if 'A' <= c <= 'Z' {
        assert 'a' <= LowerChar(c) <= 'z';
      }
    }
  }

  predicate IsDigit(c: char) {
    '0' <= c <= '9'
  }

  predicate AllDigits(s: string) {
    forall i :: 0 <= i < |s| ==> IsDigit(s[i])
  }

  /** The value of a string of decimal digits, most significant first. */
  function DigitsValue(s: string): nat
    requires AllDigits(s)
  {
    if |s| == 0 then 0
    else DigitsValue(s[..|s| - 1]) * 10 + (s[|s| - 1] as int - '0' as int)
  }

  /** A JavaScript number, as far as the rank columns need one. */
  datatype Number = NaN | Int(value: int)

  /**
   * Unary `+` on a CSV cell. The empty string is 0 and a string of decimal
   * digits is its value; every other string is NaN here.
   */
  function ToNumber(s: string): (r: Number)
    ensures r.Int? <==> AllDigits(s)
    ensures r.Int? ==> r.value >= 0
    ensures s == "" ==> r == Int(0)
  {
    if AllDigits(s) then Int(DigitsValue(s)) else NaN
  }

  /** The decimal digits of `n`, without leading zeros. */
  function DecimalString(n: nat): (r: string)
    ensures |r| > 0 && AllDigits(r)
  {
    var d := [(n % 10 + '0' as int) as char];
    if n < 10 then d else DecimalString(n / 10) + d
  }

  /** Reading back the digits of `n` gives `n`. */
  lemma {:induction false} ToNumberDecimal(n: nat)
    ensures ToNumber(DecimalString(n)) == Int(n)
  {
    var s := DecimalString(n);
    if n >= 10 {
      ToNumberDecimal(n / 10);
      assert s[..|s| - 1] == DecimalString(n / 10);
    }
    assert DigitsValue(s) == n;
  }
}
