/**
 * The few JavaScript string and number primitives the `send` pipeline leans
 * on, with the semantics of the ECMAScript language rather than of Dafny:
 * `s[i]` that yields `undefined` out of range, `indexOf` that yields -1,
 * the 32-bit `~` operator applied to its result, and the loose comparison
 * `-1 == s` that converts a string to a Number.
 */
module JsString {

  datatype Option<+T> = None | Some(value: T)

  /** `s[i]`: the character at `i`, or `undefined` (None) outside the string. */
  function CharAt(s: string, i: int): (r: Option<char>)
    ensures r.Some? <==> 0 <= i < |s|
    ensures r.Some? ==> r.value == s[i]
  {
    if 0 <= i < |s| then Some(s[i]) else None
  }

  /** `s.substring(start, end)` for 0 <= start <= end: both ends clamped to the length. */
  function Substring(s: string, start: nat, end: nat): (r: string)
    requires start <= end
    ensures |r| == (if end <= |s| then end else |s|) - (if start <= |s| then start else |s|)
    ensures start <= |s| ==> r == s[start..if end <= |s| then end else |s|]
  {
    var e := if end <= |s| then end else |s|;
    var b := if start <= e then start else e;
    s[b..e]
  }

  /** `sub` occurs in `s` starting at index `i`. */
  predicate OccursAt(s: string, sub: string, i: int)
  {
    0 <= i && i + |sub| <= |s| && s[i..i + |sub|] == sub
  }

  /** `sub` occurs somewhere in `s`. */
  predicate Occurs(s: string, sub: string)
  {
    exists i :: 0 <= i <= |s| && OccursAt(s, sub, i)
  }

  /** Dropping a prefix of `s` before an occurrence moves it left by the prefix's length. */
  lemma OccursAtDrop(s: string, sub: string, m: nat, i: int)
    requires m <= i && OccursAt(s, sub, i)
    ensures OccursAt(s[m..], sub, i - m)
  {
    assert s[m..][i - m..i - m + |sub|] == s[i..i + |sub|];
  }

  /**
   * The search behind `s.indexOf(sub)`, resumed at `from`: the first index at
   * or after `from` at which `sub` occurs, or -1 when there is none.
   */
  function IndexFrom(s: string, sub: string, from: nat): (r: int)
    ensures r == -1 || from <= r <= |s| - |sub|
    ensures r >= 0 ==> OccursAt(s, sub, r)
    ensures forall i :: from <= i && (r == -1 || i < r) ==> !OccursAt(s, sub, i)
    decreases |s| - from
  {
    if from + |sub| > |s| then -1
    else if s[from..from + |sub|] == sub then from
    else IndexFrom(s, sub, from + 1)
  }

  /** `s.indexOf(sub)`: -1 exactly when `sub` does not occur, and otherwise the first index where it does. */
  function IndexOf(s: string, sub: string): (r: int)
    ensures r == -1 <==> !Occurs(s, sub)
    ensures r != -1 ==> 0 <= r <= |s| - |sub| && OccursAt(s, sub, r)
    ensures r != -1 ==> forall i :: 0 <= i < r ==> !OccursAt(s, sub, i)
  {
    IndexFrom(s, sub, 0)
  }

  const TwoTo32: int := 0x1_0000_0000

  /** ECMAScript ToInt32 of an integral Number: wrap modulo 2^32 into the signed range. */
  function ToInt32(x: int): (r: int)
    ensures -0x8000_0000 <= r < 0x8000_0000
    ensures (x - r) % TwoTo32 == 0
  {
    var m := x % TwoTo32;
    if m >= 0x8000_0000 then m - TwoTo32 else m
  }

  /** The `~` operator on an integral Number: a signed 32-bit result, zero exactly for -1 modulo 2^32. */
  function BitNot(x: int): (r: int)
    ensures -0x8000_0000 <= r < 0x8000_0000
    ensures r == 0 <==> (x + 1) % TwoTo32 == 0
  {
    -ToInt32(x) - 1
  }

  /**
   * koa-send's idiom `~s.indexOf(sub)` used as a condition: truthy unless
   * `~` yields 0, which happens exactly when the index is -1 modulo 2^32.
   * It agrees with "occurs" for every string shorter than 2^32 - 1.
   */
  predicate Includes(s: string, sub: string)
    ensures Includes(s, sub) ==> Occurs(s, sub)
    ensures |s| < TwoTo32 - 1 && Occurs(s, sub) ==> Includes(s, sub)
  {
    var k := IndexOf(s, sub);
    assert k >= 0 ==> OccursAt(s, sub, k);
    BitNot(k) != 0
  }

  /** A one-character occurrence is plain membership. */
  lemma OccursChar(s: string, c: char)
    ensures Occurs(s, [c]) <==> c in s
  {
    if c in s {
      var i :| 0 <= i < |s| && s[i] == c;
      assert OccursAt(s, [c], i);
    }
    if Occurs(s, [c]) {
      var i :| 0 <= i <= |s| && OccursAt(s, [c], i);
      assert s[i..i + 1] == [c];
      assert s[i] == c;
    }
  }

  /** `s` begins with `prefix`. */
  predicate StartsWith(s: string, prefix: string)
  {
    |prefix| <= |s| && s[..|prefix|] == prefix
  }

  /** A common head does not change whether one string begins with another. */
  lemma StartsWithAfter(x: string, a: string, b: string)
    ensures StartsWith(x + a, x + b) <==> StartsWith(a, b)
  {
    if |b| <= |a| {
      assert (x + a)[..|x + b|] == x + a[..|b|];
      if (x + a)[..|x + b|] == x + b {
        assert a[..|b|] == (x + a)[..|x + b|][|x|..];
      }
    }
  }

  /** A prefix is found at index 0, and index 0 means a prefix. */
  lemma IndexOfZeroIsPrefix(s: string, sub: string)
    ensures IndexOf(s, sub) == 0 <==> StartsWith(s, sub)
  {
    if |sub| <= |s| && s[..|sub|] == sub {
      assert OccursAt(s, sub, 0);
    }
  }

  // ---------------------------------------------------------------------
  // ToNumber on strings, as far as the comparison `-1 == s` needs it
  // ---------------------------------------------------------------------

  /** The WhiteSpace and LineTerminator code points that StringToNumber trims. */
  predicate IsJsSpace(c: char)
  {
    c == '\t' || c == '\n' || c == '\U{B}' || c == '\U{C}' || c == '\r' || c == ' '
    || c == '\U{A0}' || c == '\U{1680}' || ('\U{2000}' <= c <= '\U{200A}')
    || c == '\U{2028}' || c == '\U{2029}' || c == '\U{202F}' || c == '\U{205F}'
    || c == '\U{3000}' || c == '\U{FEFF}'
  }

  function TrimStart(s: string): (r: string)
    ensures |r| <= |s| && r == s[|s| - |r|..]
    ensures r == [] || !IsJsSpace(r[0])
    ensures forall i :: 0 <= i < |s| - |r| ==> IsJsSpace(s[i])
  {
    if s != [] && IsJsSpace(s[0]) then TrimStart(s[1..]) else s
  }

  function TrimEnd(s: string): (r: string)
    ensures |r| <= |s| && r == s[..|r|]
    ensures r == [] || !IsJsSpace(r[|r| - 1])
    ensures forall i :: |r| <= i < |s| ==> IsJsSpace(s[i])
  {
    if s != [] && IsJsSpace(s[|s| - 1]) then TrimEnd(s[..|s| - 1]) else s
  }

  function Trim(s: string): string
  {
    TrimEnd(TrimStart(s))
  }

  predicate IsDigit(c: char)
  {
    '0' <= c <= '9'
  }

  /** Length of the run of decimal digits at the start of `s`. */
  function DigitRun(s: string): (n: nat)
    ensures n <= |s|
    ensures forall i :: 0 <= i < n ==> IsDigit(s[i])
    ensures n == |s| || !IsDigit(s[n])
  {
    if s != [] && IsDigit(s[0]) then 1 + DigitRun(s[1..]) else 0
  }

  /** The value of a string of decimal digits (0 for the empty string). */
  function DigitsValue(s: string): nat
    requires forall i :: 0 <= i < |s| ==> IsDigit(s[i])
  {
    if s == [] then 0
    else
      assert IsDigit(s[|s| - 1]);
      10 * DigitsValue(s[..|s| - 1]) + (s[|s| - 1] as int - '0' as int)
  }

  function Pow10(n: nat): (r: nat)
    ensures r >= 1
  {
    if n == 0 then 1 else 10 * Pow10(n - 1)
  }

  /** A decimal literal's exact value: mantissa * 10^scale. */
  datatype Decimal = Decimal(mantissa: nat, scale: int)

  /** The optional ExponentPart of a StrUnsignedDecimalLiteral: `e` or `E`, an optional sign, digits. */
  function ParseExponent(s: string): Option<int>
  {
    if s == [] then Some(0)
    else if s[0] != 'e' && s[0] != 'E' then None
    else
      var t := s[1..];
      var negative := t != [] && t[0] == '-';
      var u := if t != [] && (t[0] == '+' || t[0] == '-') then t[1..] else t;
      if u != [] && DigitRun(u) == |u| then
        var v: int := DigitsValue(u);
        Some(if negative then -v else v)
      else None
  }

  /**
   * StrUnsignedDecimalLiteral other than `Infinity`: digits with an optional
   * fraction (at least one digit in all) and an optional exponent.
   */
  function ParseUnsignedDecimal(s: string): (r: Option<Decimal>)
    ensures r.Some? ==> s != [] && (IsDigit(s[0]) || s[0] == '.')
  {
    var i := DigitRun(s);
    ParseAfterDigits(s[..i], s[i..])
  }

  /** After the integer digits `ds`: an optional `.` with fraction digits, then the exponent part. */
  function ParseAfterDigits(ds: string, rest: string): (r: Option<Decimal>)
    requires forall k :: 0 <= k < |ds| ==> IsDigit(ds[k])
    ensures r.Some? ==> ds != [] || (rest != [] && rest[0] == '.')
  {
    if rest != [] && rest[0] == '.' then
      var afterPoint := rest[1..];
      var f := DigitRun(afterPoint);
      ParseScaled(ds + afterPoint[..f], f, afterPoint[f..])
    else ParseScaled(ds, 0, rest)
  }

  /** All the literal's digits, how many of them follow the `.`, and what is left for the exponent part. */
  function ParseScaled(digits: string, f: nat, tail: string): (r: Option<Decimal>)
    requires forall k :: 0 <= k < |digits| ==> IsDigit(digits[k])
    ensures r.Some? ==> digits != [] && ParseExponent(tail).Some?
  {
    if digits == [] then None
    else match ParseExponent(tail)
      case None => None
      case Some(e) => Some(Decimal(DigitsValue(digits), e - f))
  }

  /** mantissa * 10^scale == 1 */
  predicate IsOne(d: Decimal)
  {
    d.scale <= 0 && d.mantissa == Pow10(-d.scale)
  }

  /**
   * `ToNumber(s) == -1`: after trimming white space, a minus sign followed by
   * an unsigned decimal literal whose exact value is 1.
   */
  predicate NumberIsMinusOne(s: string)
    ensures NumberIsMinusOne(s) ==> |s| >= 2 && '-' in s
  {
    var t := Trim(s);
    |t| >= 1 && t[0] == '-' &&
    match ParseUnsignedDecimal(t[1..])
    case Some(d) => IsOne(d)
    case None => false
  }

  /** A string whose first character is neither white space nor `-` is never the Number -1. */
  lemma NotMinusOneByFirstChar(s: string)
    requires |s| > 0 && !IsJsSpace(s[0]) && s[0] != '-'
    ensures !NumberIsMinusOne(s)
  {
    var t := TrimStart(s);
    assert t == s;
    var u := TrimEnd(t);
    if |u| >= 1 {
      assert u[0] == s[0];
    }
  }

  /** The characters a StrDecimalLiteral is written with. */
  predicate IsNumeralChar(c: char)
  {
    IsDigit(c) || c == '.' || c == 'e' || c == 'E' || c == '+' || c == '-'
  }

  lemma ExponentChars(s: string)
    requires ParseExponent(s).Some?
    ensures forall i :: 0 <= i < |s| ==> IsNumeralChar(s[i])
  {
    if s != [] {
      var t := s[1..];
      var u := if t != [] && (t[0] == '+' || t[0] == '-') then t[1..] else t;
      assert forall i :: 0 <= i < |u| ==> IsDigit(u[i]);
      forall i | 0 <= i < |s| ensures IsNumeralChar(s[i]) {
        if i >= |s| - |u| {
          assert s[i] == u[i - (|s| - |u|)];
        }
      }
    }
  }

  lemma UnsignedDecimalChars(s: string)
    requires ParseUnsignedDecimal(s).Some?
    ensures forall i :: 0 <= i < |s| ==> IsNumeralChar(s[i])
  {
    var i := DigitRun(s);
    AfterDigitsChars(s[..i], s[i..]);
    forall k | 0 <= k < |s| ensures IsNumeralChar(s[k]) {
      if k >= i {
        assert s[k] == s[i..][k - i];
      }
    }
  }

  /** What follows the integer digits of a literal that parses is made of numeral characters. */
  lemma AfterDigitsChars(ds: string, rest: string)
    requires forall k :: 0 <= k < |ds| ==> IsDigit(ds[k])
    requires ParseAfterDigits(ds, rest).Some?
    ensures forall k :: 0 <= k < |rest| ==> IsNumeralChar(rest[k])
  {
    if rest != [] && rest[0] == '.' {
      var afterPoint := rest[1..];
      var f := DigitRun(afterPoint);
      var tail := afterPoint[f..];
      ExponentChars(tail);
      forall k | 0 <= k < |rest| ensures IsNumeralChar(rest[k]) {
        if k > 0 && k - 1 >= f {
          assert rest[k] == tail[k - 1 - f];
        } else if k > 0 {
          assert rest[k] == afterPoint[k - 1];
        }
      }
    } else {
      ExponentChars(rest);
    }
  }

  /** Each character of a string is trimmed white space or a character of the trimmed string. */
  lemma TrimmedChar(s: string, i: int)
    requires 0 <= i < |s|
    ensures var off := |s| - |TrimStart(s)|;
      IsJsSpace(s[i]) || (off <= i < off + |Trim(s)| && s[i] == Trim(s)[i - off])
  {
    var a := TrimStart(s);
    var off := |s| - |a|;
    assert Trim(s) == TrimEnd(a);
    if off <= i {
      assert s[i] == a[i - off];
      TrimEndChar(a, i - off);
    } else {
      assert IsJsSpace(s[i]);
    }
  }

  /** Each character of a string is trailing white space or a character of its `TrimEnd`. */
  lemma TrimEndChar(a: string, j: int)
    requires 0 <= j < |a|
    ensures IsJsSpace(a[j]) || (j < |TrimEnd(a)| && a[j] == TrimEnd(a)[j])
  {
    var b := TrimEnd(a);
    if j < |b| {
      assert b == a[..|b|];
    }
  }

  /**
   * A string equal to -1 under ToNumber holds nothing but white space and
   * numeral characters; in particular no `/` and no NUL.
   */
  lemma MinusOneChars(s: string)
    requires NumberIsMinusOne(s)
    ensures forall i :: 0 <= i < |s| ==> IsNumeralChar(s[i]) || IsJsSpace(s[i])
  {
    var t := Trim(s);
    UnsignedDecimalChars(t[1..]);
    var off := |s| - |TrimStart(s)|;
    forall i | 0 <= i < |s| ensures IsNumeralChar(s[i]) || IsJsSpace(s[i]) {
      TrimmedChar(s, i);
      if off < i < off + |t| {
        assert t[i - off] == t[1..][i - off - 1];
      }
    }
  }

  /** A string holding a character that is neither white space nor numeral is never the Number -1. */
  lemma NotMinusOneByChar(s: string, c: char)
    requires c in s && !IsNumeralChar(c) && !IsJsSpace(c)
    ensures !NumberIsMinusOne(s)
  {
    if NumberIsMinusOne(s) {
      MinusOneChars(s);
      assert false;
    }
  }

  /** ToNumber gives -1 for text that trims to `-` followed by a literal of value one. */
  lemma MinusOneFromParts(s: string, body: string, d: Decimal)
    requires Trim(s) == ['-'] + body && ParseUnsignedDecimal(body) == Some(d) && IsOne(d)
    ensures NumberIsMinusOne(s)
  {
    assert Trim(s)[1..] == body;
  }

  /** The digit string `1`. */
  lemma DigitsOne()
    ensures DigitRun("1") == 1 && DigitsValue("1") == 1
  {
    assert "1"[1..] == [] && "1"[..0] == [];
    assert DigitRun([]) == 0;
  }

  /** The literal `1`: mantissa 1, scale 0. */
  lemma ParseOne()
    ensures ParseUnsignedDecimal("1") == Some(Decimal(1, 0))
  {
    DigitsOne();
    assert "1"[1..] == [] && "1"[..1] == "1";
    assert DigitRun([]) == 0;
    assert ParseExponent([]) == Some(0);
  }

  /** `-1` has nothing to trim: it is the sign followed by `1`. */
  lemma TrimMinusOne()
    ensures Trim("-1") == ['-'] + "1"
  {
    assert !IsJsSpace('-') && !IsJsSpace('1');
    assert TrimStart("-1") == "-1";
    assert TrimEnd("-1") == "-1";
    assert "-1" == ['-'] + "1";
  }

  /** `1` written as mantissa 1 and scale 0 is one. */
  lemma ValuesOne()
    ensures IsOne(Decimal(1, 0))
  {
    assert Pow10(0) == 1;
  }

  /** The plain literal. */
  lemma MinusOneLiteral()
    ensures NumberIsMinusOne("-1")
  {
    TrimMinusOne();
    ParseOne();
    ValuesOne();
    MinusOneFromParts("-1", "1", Decimal(1, 0));
  }

  // ---------------------------------------------------------------------
  // The general forms of -1: surrounding white space, a zero fraction,
  // trailing zeros taken back by a negative exponent
  // ---------------------------------------------------------------------

  /** A run of decimal digits followed by something that is not a digit: the run is all of `DigitRun`. */
  lemma {:induction false} DigitRunOfDigits(a: string, t: string)
    requires forall k :: 0 <= k < |a| ==> IsDigit(a[k])
    requires t == [] || !IsDigit(t[0])
    ensures DigitRun(a + t) == |a|
    decreases |a|
  {
    if a == [] {
      assert a + t == t;
    } else {
      assert (a + t)[0] == a[0];
      assert (a + t)[1..] == a[1..] + t;
      DigitRunOfDigits(a[1..], t);
    }
  }

  /** What the literal parser reads from digits followed by an exponent part or nothing. */
  lemma ParseWithoutPoint(s: string, n: nat, x: int)
    requires n > 0 && DigitRun(s) == n
    requires ParseExponent(s[n..]) == Some(x)
    ensures ParseUnsignedDecimal(s) == Some(Decimal(DigitsValue(s[..n]), x))
  {
    var rest := s[n..];
    assert rest == [] || rest[0] == 'e' || rest[0] == 'E';
    assert ParseAfterDigits(s[..n], rest) == ParseScaled(s[..n], 0, rest);
  }

  /** What the literal parser reads from digits, a `.` and digits. */
  lemma ParseWithPoint(s: string, n: nat, f: string)
    requires DigitRun(s) == n && n < |s| && s[n] == '.' && s[n + 1..] == f
    requires DigitRun(f) == |f| && n + |f| > 0
    ensures ParseUnsignedDecimal(s) == Some(Decimal(DigitsValue(s[..n] + f), -|f|))
  {
    var rest := s[n..];
    assert rest[1..] == f;
    assert f[..|f|] == f && f[|f|..] == [];
    assert ParseAfterDigits(s[..n], rest) == ParseScaled(s[..n] + f, |f|, []);
    assert ParseExponent([]) == Some(0);
  }

  /** An integer literal with an optional exponent: its digits' value, scaled by the exponent. */
  lemma ParseWithExponent(a: string, e: string, x: int)
    requires a != [] && forall k :: 0 <= k < |a| ==> IsDigit(a[k])
    requires ParseExponent(e) == Some(x)
    ensures ParseUnsignedDecimal(a + e) == Some(Decimal(DigitsValue(a), x))
  {
    var s := a + e;
    DigitRunOfDigits(a, e);
    assert s[|a|..] == e && s[..|a|] == a;
    ParseWithoutPoint(s, |a|, x);
  }

  /** A non-empty run of digits alone reads as its decimal value, unscaled. */
  lemma ParseInteger(d: string)
    requires d != [] && forall k :: 0 <= k < |d| ==> IsDigit(d[k])
    ensures ParseUnsignedDecimal(d) == Some(Decimal(DigitsValue(d), 0))
  {
    assert ParseExponent([]) == Some(0);
    assert d + [] == d;
    ParseWithExponent(d, [], 0);
  }

  /** Two digit strings side by side are a digit string. */
  lemma DigitsAppend(a: string, f: string)
    requires forall k :: 0 <= k < |a| ==> IsDigit(a[k])
    requires forall k :: 0 <= k < |f| ==> IsDigit(f[k])
    ensures forall k :: 0 <= k < |a + f| ==> IsDigit((a + f)[k])
  {
  }

  /** A literal with a fraction: the value of all its digits, scaled down by the fraction's length. */
  lemma ParseFraction(a: string, f: string)
    requires forall k :: 0 <= k < |a| ==> IsDigit(a[k])
    requires forall k :: 0 <= k < |f| ==> IsDigit(f[k])
    requires |a| + |f| > 0
    ensures forall k :: 0 <= k < |a + f| ==> IsDigit((a + f)[k])
    ensures ParseUnsignedDecimal(a + "." + f) == Some(Decimal(DigitsValue(a + f), -|f|))
  {
    DigitsAppend(a, f);
    var s := a + "." + f;
    assert s == a + ("." + f);
    DigitRunOfDigits(a, "." + f);
    assert f + [] == f;
    DigitRunOfDigits(f, []);
    assert s[|a|] == '.' && s[|a| + 1..] == f && s[..|a|] == a;
    ParseWithPoint(s, |a|, f);
  }

  /** White space in front of a string that starts with something else is trimmed away. */
  lemma {:induction false} TrimStartSpaces(w: string, x: string)
    requires forall k :: 0 <= k < |w| ==> IsJsSpace(w[k])
    requires x != [] && !IsJsSpace(x[0])
    ensures TrimStart(w + x) == x
    decreases |w|
  {
    if w == [] {
      assert w + x == x;
    } else {
      assert (w + x)[0] == w[0];
      assert (w + x)[1..] == w[1..] + x;
      TrimStartSpaces(w[1..], x);
    }
  }

  /** White space after a string that ends in something else is trimmed away. */
  lemma {:induction false} TrimEndSpaces(x: string, w: string)
    requires forall k :: 0 <= k < |w| ==> IsJsSpace(w[k])
    requires x != [] && !IsJsSpace(x[|x| - 1])
    ensures TrimEnd(x + w) == x
    decreases |w|
  {
    if w == [] {
      assert x + w == x;
    } else {
      var v := w[..|w| - 1];
      assert (x + w)[|x + w| - 1] == w[|w| - 1];
      assert (x + w)[..|x + w| - 1] == x + v;
      TrimEndSpaces(x, v);
    }
  }

  /** Trimming removes exactly the white space around a string that neither starts nor ends with it. */
  lemma TrimAround(w1: string, x: string, w2: string)
    requires forall k :: 0 <= k < |w1| ==> IsJsSpace(w1[k])
    requires forall k :: 0 <= k < |w2| ==> IsJsSpace(w2[k])
    requires x != [] && !IsJsSpace(x[0]) && !IsJsSpace(x[|x| - 1])
    ensures Trim(w1 + x + w2) == x
  {
    assert w1 + x + w2 == w1 + (x + w2);
    assert (x + w2)[0] == x[0];
    TrimStartSpaces(w1, x + w2);
    TrimEndSpaces(x, w2);
  }

  /** Regrouping a concatenation of four strings. */
  lemma Regroup(p: string, a: string, b: string, q: string)
    ensures p + a + b + q == p + (a + b) + q
  {
  }

  /** Regrouping a concatenation of five strings. */
  lemma RegroupThree(p: string, a: string, b: string, c: string, q: string)
    ensures p + a + b + c + q == p + (a + b + c) + q
  {
  }

  /** A numeral character is not white space. */
  lemma NumeralNotSpace(c: char)
    requires IsNumeralChar(c)
    ensures !IsJsSpace(c)
  {
  }

  /** `-` and a literal of value one, with any white space around them, is the Number -1. */
  lemma MinusOneAround(w1: string, body: string, w2: string, d: Decimal)
    requires forall k :: 0 <= k < |w1| ==> IsJsSpace(w1[k])
    requires forall k :: 0 <= k < |w2| ==> IsJsSpace(w2[k])
    requires ParseUnsignedDecimal(body) == Some(d) && IsOne(d)
    ensures NumberIsMinusOne(w1 + "-" + body + w2)
  {
    var x := "-" + body;
    UnsignedDecimalChars(body);
    NumeralNotSpace(body[|body| - 1]);
    assert x[|x| - 1] == body[|body| - 1];
    TrimAround(w1, x, w2);
    Regroup(w1, "-", body, w2);
    MinusOneFromParts(w1 + x + w2, body, d);
  }

  /** `k` zero digits. */
  function Zeros(k: nat): (z: string)
    ensures |z| == k && forall i :: 0 <= i < k ==> z[i] == '0'
  {
    if k == 0 then [] else Zeros(k - 1) + "0"
  }

  /** `1` followed by `k` zeros is a digit string worth 10^k. */
  lemma {:induction false} OneThenZeros(k: nat)
    ensures forall i :: 0 <= i < k + 1 ==> IsDigit(("1" + Zeros(k))[i])
    ensures DigitsValue("1" + Zeros(k)) == Pow10(k)
  {
    if k > 0 {
      OneThenZeros(k - 1);
      var s := "1" + Zeros(k);
      assert s[..|s| - 1] == "1" + Zeros(k - 1);
      assert s[|s| - 1] == '0';
    }
  }

  /** `1` followed by `k` zeros and scaled by 10^-k is one. */
  lemma ScaledOne(k: nat)
    ensures IsOne(Decimal(Pow10(k), -(k as int)))
  {
  }

  /** `1.` and `k` zeros reads as 10^k scaled by 10^-k, which is one. */
  lemma OneFraction(k: nat)
    ensures ParseUnsignedDecimal("1" + "." + Zeros(k)) == Some(Decimal(Pow10(k), -(k as int)))
  {
    OneThenZeros(k);
    ParseFraction("1", Zeros(k));
  }

  /** White space around `-1.` and any number of zeros: a zero fraction does not change the Number -1. */
  lemma MinusOneSpacedFraction(w1: string, w2: string, k: nat)
    requires forall i :: 0 <= i < |w1| ==> IsJsSpace(w1[i])
    requires forall i :: 0 <= i < |w2| ==> IsJsSpace(w2[i])
    ensures NumberIsMinusOne(w1 + "-" + "1" + "." + Zeros(k) + w2)
  {
    var body := "1" + "." + Zeros(k);
    OneFraction(k);
    ScaledOne(k);
    MinusOneAround(w1, body, w2, Decimal(Pow10(k), -(k as int)));
    RegroupThree(w1 + "-", "1", ".", Zeros(k), w2);
  }

  /** `1`, `k` zeros and an exponent part of -k reads as 10^k scaled by 10^-k, which is one. */
  lemma OneExponent(k: nat, e: string)
    requires ParseExponent(e) == Some(-(k as int))
    ensures ParseUnsignedDecimal("1" + Zeros(k) + e) == Some(Decimal(Pow10(k), -(k as int)))
  {
    OneThenZeros(k);
    ParseWithExponent("1" + Zeros(k), e, -(k as int));
  }

  /** `-1` and `k` zeros with an exponent of -k, with white space around it, is the Number -1. */
  lemma MinusOneExponent(w1: string, w2: string, k: nat, e: string)
    requires forall i :: 0 <= i < |w1| ==> IsJsSpace(w1[i])
    requires forall i :: 0 <= i < |w2| ==> IsJsSpace(w2[i])
    requires ParseExponent(e) == Some(-(k as int))
    ensures NumberIsMinusOne(w1 + "-" + "1" + Zeros(k) + e + w2)
  {
    var body := "1" + Zeros(k) + e;
    OneExponent(k, e);
    ScaledOne(k);
    MinusOneAround(w1, body, w2, Decimal(Pow10(k), -(k as int)));
    RegroupThree(w1 + "-", "1", Zeros(k), e, w2);
  }
}
