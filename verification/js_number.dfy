/**
 The global `parseInt` of JavaScript called with no radix (section 19.2.5 of
 ECMA-262), as the update form applies it to the id typed by the user.
 `None` stands for NaN, which compares unequal to every number.
 */
module JsNumber {
  import opened Text

  /** StrWhiteSpaceChar of ECMA-262: the WhiteSpace and LineTerminator code points. */
  predicate IsJsWhitespace(c: char) {
    var n := c as int;
    // TAB, VT, FF and ZWNBSP
    n == 0x09 || n == 0x0B || n == 0x0C || n == 0xFEFF
    // the Unicode space separators (category Zs)
    || n == 0x20 || n == 0xA0 || n == 0x1680 || (0x2000 <= n <= 0x200A)
    || n == 0x202F || n == 0x205F || n == 0x3000
    // LF, CR, LINE SEPARATOR and PARAGRAPH SEPARATOR
    || n == 0x0A || n == 0x0D || n == 0x2028 || n == 0x2029
  }

  /** The input with its leading white space removed. */
  function TrimStart(s: String): (t: String)
    ensures |t| <= |s| && t == s[|s| - |t|..]
    ensures forall k :: 0 <= k < |s| - |t| ==> IsJsWhitespace(s[k])
    ensures |t| > 0 ==> !IsJsWhitespace(t[0])
  {
    if |s| > 0 && IsJsWhitespace(s[0]) then TrimStart(s[1..]) else s
  }

  /** The longest prefix of `s` made of digits of `radix`. */
  function DigitPrefix(s: String, radix: nat): (z: String)
    ensures |z| <= |s| && z == s[..|z|]
    ensures forall k :: 0 <= k < |z| ==> DigitVal(z[k]) < radix
    ensures |z| < |s| ==> DigitVal(s[|z|]) >= radix
  {
    if |s| > 0 && DigitVal(s[0]) < radix then [s[0]] + DigitPrefix(s[1..], radix) else []
  }

  lemma DecimalDigitVal(c: char)
    ensures DigitVal(c) < 10 <==> IsDigit(c)
  {
  }

  /**
   Reads the unsigned part: radix 16 after a `0x` or `0X` prefix, radix 10
   otherwise, and the longest run of digits of that radix; NaN when the run is
   empty.
   */
  function ReadMagnitude(u: String): (r: Option<nat>)
    ensures (forall k :: 0 <= k < |u| ==> !IsDigit(u[k])) ==> r == None
  {
    var hex := |u| >= 2 && u[0] == '0' && (u[1] == 'x' || u[1] == 'X');
    var radix := if hex then 16 else 10;
    var z := DigitPrefix(if hex then u[2..] else u, radix);
    if z == [] then None
    else
      FoldDigitsGrows(0, z, radix);
      DecimalDigitVal(z[0]);
      Some(FoldDigits(0, z, radix))
  }

  /** Reads an optional sign and the magnitude after it. */
  function ReadSigned(t: String): (r: Option<int>)
    ensures (forall k :: 0 <= k < |t| ==> !IsDigit(t[k])) ==> r == None
  {
    var negative := |t| > 0 && t[0] == '-';
    var u := if |t| > 0 && (t[0] == '+' || t[0] == '-') then t[1..] else t;
    assert u == t[|t| - |u|..];
    match ReadMagnitude(u)
    case None => None
    case Some(m) => Some(if negative then -(m as int) else m as int)
  }

  /** `parseInt(s)`: skip the leading white space, then read a signed magnitude. */
  function ParseInt(s: String): (r: Option<int>)
    ensures (forall k :: 0 <= k < |s| ==> !IsDigit(s[k])) ==> r == None
  {
    ReadSigned(TrimStart(s))
  }

  lemma {:induction false} TrimStartSkips(ws: String, x: String)
    requires forall k :: 0 <= k < |ws| ==> IsJsWhitespace(ws[k])
    requires |x| > 0 && !IsJsWhitespace(x[0])
    ensures TrimStart(ws + x) == x
    decreases |ws|
  {
    if ws != [] {
      assert (ws + x)[0] == ws[0];
      assert (ws + x)[1..] == ws[1..] + x;
      assert TrimStart(ws + x) == TrimStart(ws[1..] + x);
      TrimStartSkips(ws[1..], x);
    } else {
      assert ws + x == x;
    }
  }

  lemma {:induction false} DigitPrefixStops(ds: String, rest: String)
    requires AllDigits(ds)
    requires |rest| == 0 || !IsDigit(rest[0])
    ensures DigitPrefix(ds + rest, 10) == ds
    decreases |ds|
  {
    if ds == [] {
      assert ds + rest == rest;
      if |rest| > 0 {
        DecimalDigitVal(rest[0]);
      }
    } else {
      DecimalDigitVal(ds[0]);
      assert (ds + rest)[1..] == ds[1..] + rest;
      DigitPrefixStops(ds[1..], rest);
      assert ds == [ds[0]] + ds[1..];
    }
  }

  /** A run of decimal digits is read as its value unless it is a lone `0` before an `x`, the hex prefix. */
  lemma ReadMagnitudeOfDigits(ds: String, rest: String)
    requires |ds| >= 1 && AllDigits(ds)
    requires |rest| == 0 || (!IsDigit(rest[0]) && (ds == "0" ==> rest[0] != 'x' && rest[0] != 'X'))
    ensures ReadMagnitude(ds + rest) == Some(DecimalValue(ds))
  {
    var u := ds + rest;
    assert !(|u| >= 2 && u[0] == '0' && (u[1] == 'x' || u[1] == 'X')) by {
      if |ds| >= 2 {
        assert u[1] == ds[1];
      } else if |u| >= 2 {
        assert u[1] == rest[0];
      }
    }
    DigitPrefixStops(ds, rest);
  }

  /** Leading white space never changes what `parseInt` reads. */
  lemma ParseIntSkipsSpace(ws: String, x: String)
    requires forall k :: 0 <= k < |ws| ==> IsJsWhitespace(ws[k])
    requires |x| > 0 && !IsJsWhitespace(x[0])
    ensures ParseInt(ws + x) == ParseInt(x)
  {
    TrimStartSkips(ws, x);
    TrimStartSkips([], x);
    assert [] + x == x;
    assert ParseInt(ws + x) == ReadSigned(x);
  }

  lemma ReadSignedMinus(ds: String, rest: String)
    requires |ds| >= 1 && AllDigits(ds)
    requires |rest| == 0 || (!IsDigit(rest[0]) && (ds == "0" ==> rest[0] != 'x' && rest[0] != 'X'))
    ensures ReadSigned(['-'] + (ds + rest)) == Some(-(DecimalValue(ds) as int))
  {
    var x := ['-'] + (ds + rest);
    assert x[1..] == ds + rest;
    ReadMagnitudeOfDigits(ds, rest);
  }

  lemma ReadSignedPlain(ds: String, rest: String)
    requires |ds| >= 1 && AllDigits(ds)
    requires |rest| == 0 || (!IsDigit(rest[0]) && (ds == "0" ==> rest[0] != 'x' && rest[0] != 'X'))
    ensures ReadSigned(ds + rest) == Some(DecimalValue(ds) as int)
  {
    assert (ds + rest)[0] == ds[0];
    ReadMagnitudeOfDigits(ds, rest);
  }

  lemma ReadSignedOfText(n: int, rest: String)
    requires |rest| == 0 || (!IsDigit(rest[0]) && (n == 0 ==> rest[0] != 'x' && rest[0] != 'X'))
    ensures ReadSigned(IntText(n) + rest) == Some(n)
  {
    if n < 0 {
      var ds := DecimalText(-n);
      assert IntText(n) + rest == ['-'] + (ds + rest);
      ReadSignedMinus(ds, rest);
    } else {
      ReadSignedPlain(DecimalText(n), rest);
    }
  }

  /**
   A decimal text, after any leading white space, is read back as its value,
   and parsing stops at the first character that cannot continue the number.
   */
  lemma ParseIntOfText(ws: String, n: int, rest: String)
    requires forall k :: 0 <= k < |ws| ==> IsJsWhitespace(ws[k])
    requires |rest| == 0 || (!IsDigit(rest[0]) && (n == 0 ==> rest[0] != 'x' && rest[0] != 'X'))
    ensures ParseInt(ws + IntText(n) + rest) == Some(n)
  {
    var x := IntText(n) + rest;
    assert ws + IntText(n) + rest == ws + x;
    assert x[0] == IntText(n)[0];
    ParseIntSkipsSpace(ws, x);
    TrimStartSkips([], x);
    assert [] + x == x;
    ReadSignedOfText(n, rest);
  }

  /** The decimal text of an integer, alone, is read back as that integer. */
  lemma ParseIntOfIntText(n: int)
    ensures ParseInt(IntText(n)) == Some(n)
  {
    assert [] + IntText(n) + [] == IntText(n);
    ParseIntOfText([], n, []);
  }

  /** The empty id of a cleared draft is read as NaN, so it matches no record. */
  lemma ParseIntEmpty()
    ensures ParseInt("") == None
  {
  }
}
