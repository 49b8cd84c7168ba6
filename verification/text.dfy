/**
 Strings as character sequences, the `Option` wrapper, the pattern split that
 both the Rust `str::split` and the reference `Join` are stated with, and the
 digit arithmetic shared by the Rust and JavaScript integer parsers.
 */
module Text {

  datatype Option<+T> = None | Some(value: T)

  type String = seq<char>

  predicate StartsWith(s: String, prefix: String) {
    |prefix| <= |s| && s[..|prefix|] == prefix
  }

  predicate EndsWith(s: String, suffix: String) {
    |suffix| <= |s| && s[|s| - |suffix|..] == suffix
  }

  /** `pat` occurs in `s` starting at index `i`. */
  predicate OccursAt(s: String, pat: String, i: nat) {
    i + |pat| <= |s| && s[i..i + |pat|] == pat
  }

  predicate Contains(s: String, pat: String) {
    exists i: nat | i <= |s| :: OccursAt(s, pat, i)
  }

  /** The first index at or after `i` where `pat` occurs in `s`. */
  function FindFrom(s: String, pat: String, i: nat): (r: Option<nat>)
    requires |pat| > 0 && i <= |s|
    ensures r.Some? ==> i <= r.value && OccursAt(s, pat, r.value)
    ensures r.Some? ==> forall j: nat :: i <= j < r.value ==> !OccursAt(s, pat, j)
    ensures r.None? ==> forall j: nat :: i <= j ==> !OccursAt(s, pat, j)
    decreases |s| - i
  {
    if i + |pat| > |s| then None
    else if s[i..i + |pat|] == pat then Some(i)
    else FindFrom(s, pat, i + 1)
  }

  lemma NoOccurrenceBefore(s: String, pat: String, i: nat)
    requires |pat| > 0 && i <= |s|
    requires forall j: nat :: j < i ==> !OccursAt(s, pat, j)
    ensures !Contains(s[..i], pat)
  {
    forall j: nat ensures !OccursAt(s[..i], pat, j) {
      if j + |pat| <= i {
        assert s[..i][j..j + |pat|] == s[j..j + |pat|];
        assert !OccursAt(s, pat, j);
      } else {
        assert |s[..i]| == i;
      }
    }
  }

  /**
   The pieces of `s` between the non-overlapping occurrences of `pat`, found
   left to right; like Rust's `str::split` with a non-empty string pattern.
   */
  function Split(s: String, pat: String): (pieces: seq<String>)
    requires |pat| > 0
    ensures |pieces| >= 1
    ensures forall k :: 0 <= k < |pieces| ==> !Contains(pieces[k], pat)
    decreases |s|
  {
    match FindFrom(s, pat, 0)
    case None => [s]
    case Some(i) =>
      NoOccurrenceBefore(s, pat, i);
      [s[..i]] + Split(s[i + |pat|..], pat)
  }

  /** The pieces glued back together with `pat` between neighbours. */
  function Join(pieces: seq<String>, pat: String): String {
    if |pieces| == 0 then []
    else if |pieces| == 1 then pieces[0]
    else pieces[0] + pat + Join(pieces[1..], pat)
  }

  lemma JoinCons(p: String, pieces: seq<String>, pat: String)
    requires |pieces| >= 1
    ensures Join([p] + pieces, pat) == p + pat + Join(pieces, pat)
  {
    assert ([p] + pieces)[1..] == pieces;
  }

  lemma JoinTwo(c: String, d: String, t: seq<String>, pat: String)
    requires |t| >= 1
    ensures Join([c, d] + t, pat) == (c + pat + d + pat) + Join(t, pat)
  {
    assert [c, d] + t == [c] + ([d] + t);
    JoinCons(c, [d] + t, pat);
    JoinCons(d, t, pat);
  }

  lemma JoinThree(b: String, c: String, d: String, t: seq<String>, pat: String)
    requires |t| >= 1
    ensures Join([b, c, d] + t, pat) == (b + pat + c + pat + d + pat) + Join(t, pat)
  {
    assert [b, c, d] + t == [b] + ([c, d] + t);
    JoinCons(b, [c, d] + t, pat);
    JoinTwo(c, d, t, pat);
  }

  /** Joining four leading pieces in front of the rest. */
  lemma JoinFour(a: String, b: String, c: String, d: String, t: seq<String>, pat: String)
    requires |t| >= 1
    ensures Join([a, b, c, d] + t, pat) == (a + pat + b + pat + c + pat + d + pat) + Join(t, pat)
  {
    assert [a, b, c, d] + t == [a] + ([b, c, d] + t);
    JoinCons(a, [b, c, d] + t, pat);
    JoinThree(b, c, d, t, pat);
  }

  lemma SplitAround(s: String, pat: String, i: nat)
    requires OccursAt(s, pat, i)
    ensures s == s[..i] + pat + s[i + |pat|..]
  {
    assert s == s[..i] + s[i..i + |pat|] + s[i + |pat|..];
  }

  /** Splitting loses nothing: joining the pieces gives the input back. */
  lemma {:induction false} SplitJoin(s: String, pat: String)
    requires |pat| > 0
    ensures Join(Split(s, pat), pat) == s
    decreases |s|
  {
    match FindFrom(s, pat, 0)
    case None =>
      SplitStep(s, pat);
    case Some(i) =>
      var rest := s[i + |pat|..];
      SplitJoin(rest, pat);
      SplitStep(s, pat);
      JoinAround(s, pat, i, Split(rest, pat));
  }

  /** One step of `Split`: the piece before the first occurrence, then the split of the rest. */
  lemma SplitStep(s: String, pat: String)
    requires |pat| > 0
    ensures FindFrom(s, pat, 0).None? ==> Split(s, pat) == [s]
    ensures FindFrom(s, pat, 0).Some? ==>
      var i := FindFrom(s, pat, 0).value;
      Split(s, pat) == [s[..i]] + Split(s[i + |pat|..], pat)
  {
  }

  /** Gluing the text before an occurrence to pieces that join to the text after it. */
  lemma JoinAround(s: String, pat: String, i: nat, ps: seq<String>)
    requires OccursAt(s, pat, i)
    requires |ps| >= 1 && Join(ps, pat) == s[i + |pat|..]
    ensures Join([s[..i]] + ps, pat) == s
  {
    JoinCons(s[..i], ps, pat);
    SplitAround(s, pat, i);
  }

  lemma CharNotOccurring(s: String, c: char)
    requires c !in s
    ensures forall j: nat :: !OccursAt(s, [c], j)
  {
    forall j: nat ensures !OccursAt(s, [c], j) {
      if j + 1 <= |s| {
        assert s[j..j + 1] == [s[j]];
      }
    }
  }

  lemma CharOccurring(s: String, c: char)
    requires !Contains(s, [c])
    ensures c !in s
  {
    forall j | 0 <= j < |s| ensures s[j] != c {
      assert s[j..j + 1] == [s[j]];
      assert !OccursAt(s, [c], j);
    }
  }

  /**
   With a one-character separator the other direction holds too: pieces free of
   the separator are recovered exactly from their join.
   */
  lemma {:induction false} JoinSplit(pieces: seq<String>, c: char)
    requires |pieces| >= 1
    requires forall k :: 0 <= k < |pieces| ==> c !in pieces[k]
    ensures Split(Join(pieces, [c]), [c]) == pieces
    decreases |pieces|
  {
    var s := Join(pieces, [c]);
    if |pieces| == 1 {
      CharNotOccurring(s, c);
      assert FindFrom(s, [c], 0).None?;
    } else {
      var p := pieces[0];
      var rest := Join(pieces[1..], [c]);
      assert s == p + [c] + rest;
      CharNotOccurring(p, c);
      forall j: nat | j < |p| ensures !OccursAt(s, [c], j) {
        assert s[j..j + 1] == p[j..j + 1];
        assert !OccursAt(p, [c], j);
      }
      assert OccursAt(s, [c], |p|) by {
        assert s[|p|..|p| + 1] == [c];
      }
      assert FindFrom(s, [c], 0) == Some(|p|);
      assert s[..|p|] == p;
      assert s[|p| + 1..] == rest;
      assert Split(s, [c]) == [p] + Split(rest, [c]);
      JoinSplit(pieces[1..], c);
      assert pieces == [p] + pieces[1..];
    }
  }

  /** The last piece of a join follows the last separator. */
  lemma {:induction false} JoinLast(pieces: seq<String>, pat: String)
    requires |pieces| >= 2
    ensures Join(pieces, pat) == Join(pieces[..|pieces| - 1], pat) + pat + pieces[|pieces| - 1]
    decreases |pieces|
  {
    if |pieces| > 2 {
      JoinLast(pieces[1..], pat);
      assert pieces[1..][..|pieces| - 2] == pieces[..|pieces| - 1][1..];
    }
  }

  // Digits

  /** The value of `c` as a digit in any radix up to 36, or 36 when it is no digit. */
  function DigitVal(c: char): (v: nat)
    ensures v <= 36
  {
    if '0' <= c <= '9' then (c - '0') as nat
    else if 'a' <= c <= 'z' then (c - 'a') as nat + 10
    else if 'A' <= c <= 'Z' then (c - 'A') as nat + 10
    else 36
  }

  predicate IsDigit(c: char) {
    '0' <= c <= '9'
  }

  predicate AllDigits(s: String) {
    forall k :: 0 <= k < |s| ==> IsDigit(s[k])
  }

  /** Reads `ds` most significant first in `radix`, starting from `acc`. */
  function FoldDigits(acc: int, ds: String, radix: nat): int
    decreases |ds|
  {
    if ds == [] then acc
    else FoldDigits(acc * radix + DigitVal(ds[0]) as int, ds[1..], radix)
  }

  /** Appending one digit scales the value read so far and adds the digit. */
  lemma {:induction false} FoldDigitsSnoc(acc: int, ds: String, c: char, radix: nat)
    ensures FoldDigits(acc, ds + [c], radix) == FoldDigits(acc, ds, radix) * radix + DigitVal(c) as int
    decreases |ds|
  {
    if ds == [] {
      assert [c][1..] == [];
    } else {
      assert (ds + [c])[1..] == ds[1..] + [c];
      FoldDigitsSnoc(acc * radix + DigitVal(ds[0]) as int, ds[1..], c, radix);
    }
  }

  /** Reading digits from a non-negative start never goes below the start. */
  lemma {:induction false} FoldDigitsGrows(acc: int, ds: String, radix: nat)
    requires acc >= 0 && radix >= 1
    ensures FoldDigits(acc, ds, radix) >= acc
    decreases |ds|
  {
    if ds != [] {
      var next := acc * radix + DigitVal(ds[0]) as int;
      MulGrows(acc, radix);
      FoldDigitsGrows(next, ds[1..], radix);
    }
  }

  lemma MulGrows(a: int, r: nat)
    requires a >= 0 && r >= 1
    ensures a * r >= a
  {
    assert a * r == a + a * (r - 1);
  }

  function DecimalValue(ds: String): nat
  {
    FoldDigitsGrows(0, ds, 10);
    FoldDigits(0, ds, 10)
  }

  function DigitChar(d: nat): (c: char)
    requires d < 10
    ensures IsDigit(c) && DigitVal(c) == d
  {
    ('0' as int + d) as char
  }

  /** The shortest decimal text of `n`, as Rust's and JavaScript's formatting write it. */
  function DecimalText(n: nat): (t: String)
    ensures |t| >= 1 && AllDigits(t)
    ensures DecimalValue(t) == n
    ensures t[0] == '0' <==> n == 0
    ensures n == 0 ==> t == "0"
    decreases n
  {
    if n < 10 then
      var t := [DigitChar(n)];
      assert t[1..] == [];
      assert FoldDigits(0, t, 10) == FoldDigits(n, [], 10);
      t
    else
      var t := DecimalText(n / 10) + [DigitChar(n % 10)];
      FoldDigitsSnoc(0, DecimalText(n / 10), DigitChar(n % 10), 10);
      t
  }

  /** Formatting of any integer, with a leading minus sign for negatives. */
  function IntText(n: int): (t: String)
    ensures |t| >= 1
  {
    if n < 0 then "-" + DecimalText(-n) else DecimalText(n)
  }
}
