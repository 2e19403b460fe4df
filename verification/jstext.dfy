/**
 * The JavaScript string and number primitives the token codec is built from:
 * decimal spelling (`toString`), `padStart`, `split`, `join`, `reverse`,
 * `Number(...)` on strings, and `String.fromCharCode`.
 */
module JsText {

  /** A UTF-16 code unit, what `charCodeAt` returns and `fromCharCode` takes. */
  type CodeUnit = c: int | 0 <= c < 0x1_0000

  predicate IsDigit(c: char) { '0' <= c <= '9' }

  predicate AllDigits(s: string) { forall i :: 0 <= i < |s| ==> IsDigit(s[i]) }

  function DigitValue(c: char): nat
    requires IsDigit(c)
  {
    c as int - '0' as int
  }

  function DigitChar(d: nat): (c: char)
    requires d < 10
    ensures IsDigit(c) && DigitValue(c) == d
  {
    ('0' as int + d) as char
  }

  function Pow10(n: nat): (p: nat)
    ensures p >= 1
  {
    if n == 0 then 1 else 10 * Pow10(n - 1)
  }

  /** The value of a string of decimal digits, most significant digit first; "" is 0. */
  function DigitsValue(s: string): nat
    requires AllDigits(s)
  {
    if s == [] then 0 else DigitsValue(s[..|s| - 1]) * 10 + DigitValue(s[|s| - 1])
  }

  /** `n.toString()` for a non-negative integer: its shortest decimal spelling. */
  function Dec(n: nat): (s: string)
    ensures 1 <= |s| && AllDigits(s)
    ensures DigitsValue(s) == n
    ensures s[0] == '0' <==> n == 0
  {
    if n < 10 then [DigitChar(n)]
    else
      var s := Dec(n / 10) + [DigitChar(n % 10)];
      assert s[..|s| - 1] == Dec(n / 10);
      s
  }

  /** `x.toString()` for any integer: a minus sign in front of a negative one. */
  function IntStr(x: int): (s: string)
    ensures x >= 0 ==> s == Dec(x)
    ensures |s| >= 1 && (x < 0 ==> s[0] == '-')
  {
    if x < 0 then "-" + Dec(-x) else Dec(x)
  }

  function Zeros(k: nat): (s: string)
    ensures |s| == k && AllDigits(s)
  {
    if k == 0 then [] else Zeros(k - 1) + "0"
  }

  /** `s.padStart(width, "0")`: left-pads with '0' up to `width`, and never truncates. */
  function PadStart(s: string, width: nat): (r: string)
    ensures |r| == if |s| >= width then |s| else width
    ensures r[|r| - |s|..] == s
    ensures AllDigits(s) ==> AllDigits(r) && DigitsValue(r) == DigitsValue(s)
  {
    if |s| >= width then s
    else
      var z := Zeros(width - |s|);
      assert AllDigits(s) ==> AllDigits(z + s) && DigitsValue(z + s) == DigitsValue(s) by {
        if AllDigits(s) { DigitsValueLeadingZeros(width - |s|, s); }
      }
      z + s
  }

  /** `parts.join("")`: the concatenation of the parts in order. */
  function Join<T>(parts: seq<seq<T>>): (r: seq<T>)
  {
    if parts == [] then [] else Join(parts[..|parts| - 1]) + parts[|parts| - 1]
  }

  /** `parts.join(sep)` for a one-character separator. */
  function JoinWith(parts: seq<string>, sep: char): string
    requires |parts| >= 1
  {
    if |parts| == 1 then parts[0] else parts[0] + [sep] + JoinWith(parts[1..], sep)
  }

  /**
   * `s.split(sep)` for a one-character separator: the pieces between the
   * separators, always at least one, and more than one exactly when the
   * separator occurs (`SplitPieces` and `SplitJoin` state the rest).
   */
  function Split(s: string, sep: char): (r: seq<string>)
    ensures |r| >= 1
    ensures |r| == 1 <==> sep !in s
  {
    if s == [] then [[]]
    else
      var rest := Split(s[1..], sep);
      if s[0] == sep then
        [[]] + rest
      else
        [[s[0]] + rest[0]] + rest[1..]
  }

  /** No piece of `s.split(sep)` holds the separator. */
  lemma {:induction false} SplitPieces(s: string, sep: char)
    ensures forall i :: 0 <= i < |Split(s, sep)| ==> sep !in Split(s, sep)[i]
  {
    if s != [] {
      SplitPieces(s[1..], sep);
      var rest, r := Split(s[1..], sep), Split(s, sep);
      if s[0] == sep {
        assert r[1..] == rest;
      } else {
        assert r[1..] == rest[1..];
      }
    }
  }

  /** `split` and `join` are inverse: joining the pieces with the separator gives the string back. */
  lemma {:induction false} SplitJoin(s: string, sep: char)
    ensures JoinWith(Split(s, sep), sep) == s
  {
    if s != [] {
      var rest := Split(s[1..], sep);
      SplitJoin(s[1..], sep);
      assert [s[0]] + s[1..] == s;
      if s[0] == sep {
        assert Split(s, sep)[1..] == rest;
      } else {
        JoinWithCons(s[0], rest, sep);
      }
    }
  }

  /** Putting a character in front of the first piece puts it in front of the joined string. */
  lemma JoinWithCons(c: char, parts: seq<string>, sep: char)
    requires |parts| >= 1
    ensures JoinWith([[c] + parts[0]] + parts[1..], sep) == [c] + JoinWith(parts, sep)
  {
    var r := [[c] + parts[0]] + parts[1..];
    assert r[1..] == parts[1..];
  }

  /** `s.split("").reverse()` joined back: the characters in reverse order. */
  function Reverse(s: string): (r: string)
    ensures |r| == |s|
    ensures forall i :: 0 <= i < |s| ==> r[i] == s[|s| - 1 - i]
  {
    if s == [] then [] else Reverse(s[1..]) + [s[0]]
  }

  /**
   * The characters JavaScript's string-to-number conversion skips around a
   * numeral: the WhiteSpace and LineTerminator characters of ECMA-262
   * (tab, line feed, vertical tab, form feed, carriage return, the space
   * separators of Unicode category Zs, LS, PS and the byte order mark).
   */
  predicate IsJsSpace(c: char)
  {
    var k := c as int;
    k == 0x09 || k == 0x0A || k == 0x0B || k == 0x0C || k == 0x0D || k == 0x20 || k == 0xA0
    || k == 0x1680 || (0x2000 <= k <= 0x200A) || k == 0x2028 || k == 0x2029 || k == 0x202F
    || k == 0x205F || k == 0x3000 || k == 0xFEFF
  }

  function TrimStart(s: string): string
  {
    if s != [] && IsJsSpace(s[0]) then TrimStart(s[1..]) else s
  }

  function TrimEnd(s: string): string
  {
    if s != [] && IsJsSpace(s[|s| - 1]) then TrimEnd(s[..|s| - 1]) else s
  }

  /** A JavaScript number as the codec produces it: an integer, or NaN. */
  datatype Num = NaN | Val(v: int)

  function Plus(a: Num, b: Num): Num
  {
    if a.Val? && b.Val? then Val(a.v + b.v) else NaN
  }

  function Minus(a: Num, b: Num): Num
  {
    if a.Val? && b.Val? then Val(a.v - b.v) else NaN
  }

  function Times(a: Num, k: int): Num
  {
    if a.Val? then Val(a.v * k) else NaN
  }

  /** `i < n` for a JavaScript number `n`; every comparison with NaN is false. */
  predicate Below(i: int, n: Num)
  {
    n.Val? && i < n.v
  }

  /**
   * `Number(s)` on the strings the codec converts: surrounding white space is
   * dropped, a blank string is 0, a decimal numeral is its value and anything
   * else is NaN.
   */
  function StringNumber(s: string): (r: Num)
    ensures AllDigits(s) ==> r == Val(DigitsValue(s))
    ensures r.Val? ==> r.v >= 0
  {
    var u := TrimEnd(TrimStart(s));
    assert AllDigits(s) ==> u == s by {
      if AllDigits(s) { TrimOfDigits(s); }
    }
    if AllDigits(u) then Val(DigitsValue(u)) else NaN
  }

  /** `String.fromCharCode(x)`: the code unit `x` modulo 2^16, and 0 for NaN. */
  function FromCharCode(x: Num): (c: CodeUnit)
    ensures x.Val? && 0 <= x.v < 0x1_0000 ==> c == x.v
  {
    if x.Val? then x.v % 0x1_0000 else 0
  }

  lemma TrimOfDigits(s: string)
    requires AllDigits(s)
    ensures TrimEnd(TrimStart(s)) == s
  {
    assert s != [] ==> !IsJsSpace(s[0]) && !IsJsSpace(s[|s| - 1]);
  }

  /** Appending digits shifts the value left: the positional law of decimal numerals. */
  lemma {:induction false} DigitsValueAppend(a: string, b: string)
    requires AllDigits(a) && AllDigits(b)
    ensures AllDigits(a + b)
    ensures DigitsValue(a + b) == DigitsValue(a) * Pow10(|b|) + DigitsValue(b)
  {
    if b == [] {
      assert a + b == a;
    } else {
      var b', d := b[..|b| - 1], DigitValue(b[|b| - 1]);
      DigitsValueAppend(a, b');
      assert (a + b)[..|a + b| - 1] == a + b';
      assert (a + b)[|a + b| - 1] == b[|b| - 1];
      var va, vb', p := DigitsValue(a), DigitsValue(b'), Pow10(|b'|);
      assert DigitsValue(a + b) == (va * p + vb') * 10 + d;
      assert Pow10(|b|) == p * 10;
      assert DigitsValue(b) == vb' * 10 + d;
      MulShift(va, p, vb', d);
    }
  }

  lemma MulShift(va: int, p: int, vb: int, d: int)
    ensures (va * p + vb) * 10 + d == va * (p * 10) + (vb * 10 + d)
  {
  }

  /** Leading zeros do not change the value of a numeral, which is what `padStart(_, "0")` relies on. */
  lemma {:induction false} DigitsValueLeadingZeros(k: nat, s: string)
    requires AllDigits(s)
    ensures AllDigits(Zeros(k) + s) && DigitsValue(Zeros(k) + s) == DigitsValue(s)
  {
    ZerosValue(k);
    DigitsValueAppend(Zeros(k), s);
  }

  lemma {:induction false} ZerosValue(k: nat)
    ensures DigitsValue(Zeros(k)) == 0
  {
    if k > 0 {
      ZerosValue(k - 1);
      assert Zeros(k)[..k - 1] == Zeros(k - 1);
    }
  }

  /** A number below 10^w is spelled with at most w digits. */
  lemma {:induction false} DecWidth(n: nat, w: nat)
    requires 1 <= w && n < Pow10(w)
    ensures |Dec(n)| <= w
  {
    if n >= 10 {
      assert w >= 2;
      assert n / 10 < Pow10(w - 1);
      DecWidth(n / 10, w - 1);
    }
  }
}
