/**
 The text handling of `backend/src/main.rs`: `get_id`, the body-extraction
 step of `get_user_request_body`, and `str::parse::<i32>` applied to the id.
 The request is the raw text read from the socket, headers and body included.
 */
module RequestText {
  import opened Text

  // White space and words

  /** Rust's `char::is_whitespace`: the Unicode White_Space property. */
  predicate IsWhitespace(c: char) {
    var n := c as int;
    (0x09 <= n <= 0x0D) || n == 0x20 || n == 0x85 || n == 0xA0 || n == 0x1680
    || (0x2000 <= n <= 0x200A) || n == 0x2028 || n == 0x2029 || n == 0x202F
    || n == 0x205F || n == 0x3000
  }

  function SkipWhitespace(s: String): (t: String)
    ensures |t| <= |s| && t == s[|s| - |t|..]
    ensures forall k :: 0 <= k < |s| - |t| ==> IsWhitespace(s[k])
    ensures |t| > 0 ==> !IsWhitespace(t[0])
  {
    if |s| > 0 && IsWhitespace(s[0]) then SkipWhitespace(s[1..]) else s
  }

  function TakeWord(s: String): (w: String)
    ensures |w| <= |s| && w == s[..|w|]
    ensures forall k :: 0 <= k < |w| ==> !IsWhitespace(w[k])
    ensures |w| < |s| ==> IsWhitespace(s[|w|])
  {
    if |s| > 0 && !IsWhitespace(s[0]) then [s[0]] + TakeWord(s[1..]) else []
  }

  /**
   `split_whitespace().next().unwrap_or_default()`: the first maximal run of
   non-white-space characters, or empty when there is none.
   */
  function FirstWord(s: String): (w: String)
    ensures forall k :: 0 <= k < |w| ==> !IsWhitespace(w[k]) && w[k] in s
    ensures w == [] <==> forall k :: 0 <= k < |s| ==> IsWhitespace(s[k])
  {
    var t := SkipWhitespace(s);
    var w := TakeWord(t);
    assert forall k :: 0 <= k < |w| ==> w[k] == s[|s| - |t| + k];
    w
  }

  lemma {:induction false} SkipWhitespaceOf(lead: String, x: String)
    requires forall k :: 0 <= k < |lead| ==> IsWhitespace(lead[k])
    requires |x| > 0 && !IsWhitespace(x[0])
    ensures SkipWhitespace(lead + x) == x
    decreases |lead|
  {
    if lead == [] {
      assert lead + x == x;
    } else {
      assert (lead + x)[1..] == lead[1..] + x;
      SkipWhitespaceOf(lead[1..], x);
    }
  }

  lemma {:induction false} TakeWordOf(word: String, rest: String)
    requires forall k :: 0 <= k < |word| ==> !IsWhitespace(word[k])
    requires |rest| == 0 || IsWhitespace(rest[0])
    ensures TakeWord(word + rest) == word
    decreases |word|
  {
    if word == [] {
      assert word + rest == rest;
    } else {
      assert (word + rest)[1..] == word[1..] + rest;
      TakeWordOf(word[1..], rest);
      assert word == [word[0]] + word[1..];
    }
  }

  /** The first word is found after any white space and ends at the next white space. */
  lemma FirstWordOf(lead: String, word: String, rest: String)
    requires forall k :: 0 <= k < |lead| ==> IsWhitespace(lead[k])
    requires |word| > 0 && forall k :: 0 <= k < |word| ==> !IsWhitespace(word[k])
    requires |rest| == 0 || IsWhitespace(rest[0])
    ensures FirstWord(lead + word + rest) == word
  {
    assert lead + word + rest == lead + (word + rest);
    SkipWhitespaceOf(lead, word + rest);
    TakeWordOf(word, rest);
  }

  /** A word at the very start is the first word. */
  lemma FirstWordAtStart(word: String, rest: String)
    requires |word| > 0 && forall k :: 0 <= k < |word| ==> !IsWhitespace(word[k])
    requires |rest| == 0 || IsWhitespace(rest[0])
    ensures FirstWord(word + rest) == word
  {
    assert (word + rest)[0] == word[0];
    TakeWordOf(word, rest);
  }

  // get_id

  function CountChar(s: String, c: char): nat {
    if s == [] then 0 else (if s[0] == c then 1 else 0) + CountChar(s[1..], c)
  }

  lemma {:induction false} CountCharAppend(a: String, b: String, c: char)
    ensures CountChar(a + b, c) == CountChar(a, c) + CountChar(b, c)
    decreases |a|
  {
    if a == [] {
      assert a + b == b;
    } else {
      assert (a + b)[1..] == a[1..] + b;
      CountCharAppend(a[1..], b, c);
    }
  }

  lemma {:induction false} CountCharAbsent(s: String, c: char)
    requires c !in s
    ensures CountChar(s, c) == 0
    decreases |s|
  {
    if s != [] {
      CountCharAbsent(s[1..], c);
    }
  }

  /** Splitting at a character gives one more piece than it has occurrences. */
  lemma {:induction false} SplitCount(s: String, c: char)
    ensures |Split(s, [c])| == CountChar(s, c) + 1
    decreases |s|
  {
    match FindFrom(s, [c], 0)
    case None =>
      assert !Contains(s, [c]);
      CharOccurring(s, c);
      CountCharAbsent(s, c);
    case Some(i) =>
      var rest := s[i + 1..];
      SplitCount(rest, c);
      NoOccurrenceBefore(s, [c], i);
      CharOccurring(s[..i], c);
      CountCharAbsent(s[..i], c);
      SplitAround(s, [c], i);
      CountCharAppend(s[..i], [c], c);
      CountCharAppend(s[..i] + [c], rest, c);
  }

  /**
   `get_id`: the fifth `/`-separated piece of the request (empty when there is
   none), cut down to its first word.
   */
  function GetId(request: String): (id: String)
    ensures forall k :: 0 <= k < |id| ==> id[k] != '/' && !IsWhitespace(id[k])
    ensures CountChar(request, '/') < 4 ==> id == []
  {
    var pieces := Split(request, "/");
    SplitCount(request, '/');
    if |pieces| > 4 then
      CharOccurring(pieces[4], '/');
      FirstWord(pieces[4])
    else
      FirstWord("")
  }

  /** For a request assembled from `/`-free pieces, `get_id` reads the fifth piece. */
  lemma GetIdOfPieces(pieces: seq<String>)
    requires |pieces| >= 5
    requires forall k :: 0 <= k < |pieces| ==> '/' !in pieces[k]
    ensures GetId(Join(pieces, "/")) == FirstWord(pieces[4])
  {
    JoinSplit(pieces, '/');
  }

  lemma GetIdExample()
    ensures GetId("GET /api/rust/users/42 HTTP/1.1") == "42"
  {
    var pieces := ["GET ", "api", "rust", "users", "42 HTTP", "1.1"];
    ExampleJoin();
    ExampleSlashFree();
    GetIdOfPieces(pieces);
    FirstWordExample();
  }

  lemma ExampleJoin()
    ensures Join(["GET ", "api", "rust", "users", "42 HTTP", "1.1"], "/") == "GET /api/rust/users/42 HTTP/1.1"
  {
    var t := ["42 HTTP", "1.1"];
    assert ["GET ", "api", "rust", "users", "42 HTTP", "1.1"] == ["GET ", "api", "rust", "users"] + t;
    JoinFour("GET ", "api", "rust", "users", t, "/");
    assert Join(t, "/") == "42 HTTP" + "/" + "1.1" by {
      assert t == ["42 HTTP"] + ["1.1"];
      JoinCons("42 HTTP", ["1.1"], "/");
    }
    ExampleText();
  }

  lemma ExampleText()
    ensures ("GET " + "/" + "api" + "/" + "rust" + "/" + "users" + "/") + ("42 HTTP" + "/" + "1.1")
      == "GET /api/rust/users/42 HTTP/1.1"
  {
  }

  lemma ExampleSlashFree()
    ensures var pieces := ["GET ", "api", "rust", "users", "42 HTTP", "1.1"];
      forall k :: 0 <= k < |pieces| ==> '/' !in pieces[k]
  {
  }

  lemma FirstWordExample()
    ensures FirstWord("42 HTTP") == "42"
  {
    assert !IsWhitespace('4') && !IsWhitespace('2') && IsWhitespace(' ');
    FirstWordAtStart("42", " HTTP");
    assert "42" + " HTTP" == "42 HTTP";
  }

  // Body extraction

  const BlankLine: String := "\r\n\r\n"

  /**
   The text handed to the JSON decoder by `get_user_request_body`: the last
   piece of the request split at blank lines.
   */
  function RequestBody(request: String): (body: String)
    ensures !Contains(body, BlankLine)
    ensures EndsWith(request, body)
    ensures body != request ==> EndsWith(request[..|request| - |body|], BlankLine)
    ensures !Contains(request, BlankLine) ==> body == request
  {
    var pieces := Split(request, BlankLine);
    SplitJoin(request, BlankLine);
    var body := pieces[|pieces| - 1];
    if |pieces| >= 2 then
      var head := Join(pieces[..|pieces| - 1], BlankLine);
      JoinLast(pieces, BlankLine);
      assert request == head + BlankLine + body;
      assert request[..|request| - |body|] == head + BlankLine;
      assert OccursAt(request, BlankLine, |head|);
      body
    else
      body
  }

  /** When `pat` first occurs right after `head`, splitting peels `head` off. */
  lemma SplitAtFirst(head: String, pat: String, rest: String)
    requires |pat| > 0
    requires !Contains(head + pat[..|pat| - 1], pat)
    ensures Split(head + pat + rest, pat) == [head] + Split(rest, pat)
  {
    var s := head + pat + rest;
    var h := head + pat[..|pat| - 1];
    forall j: nat | j < |head| ensures !OccursAt(s, pat, j) {
      assert j + |pat| <= |h|;
      assert s[j..j + |pat|] == h[j..j + |pat|];
      assert !OccursAt(h, pat, j);
    }
    assert s[|head|..|head| + |pat|] == pat;
    assert OccursAt(s, pat, |head|);
    assert FindFrom(s, pat, 0) == Some(|head|);
    assert s[..|head|] == head;
    assert s[|head| + |pat|..] == rest;
  }

  lemma ShortNotContains(s: String, pat: String)
    requires |s| < |pat|
    ensures !Contains(s, pat)
  {
  }

  /** A header block ending at the first blank line is dropped before the body is taken. */
  lemma RequestBodySkipsHead(head: String, rest: String)
    requires !Contains(head + "\r\n\r", BlankLine)
    ensures RequestBody(head + BlankLine + rest) == RequestBody(rest)
  {
    assert head + BlankLine[..3] == head + "\r\n\r";
    SplitAtFirst(head, BlankLine, rest);
  }

  /**
   When the header block ends at the first blank line and the body has no blank
   line of its own, the extracted text is exactly the message body of section
   2.1 of RFC 9112.
   */
  lemma BodyAfterFirstBlankLine(head: String, body: String)
    requires !Contains(head + "\r\n\r", BlankLine)
    requires !Contains(body, BlankLine)
    ensures RequestBody(head + BlankLine + body) == body
  {
    RequestBodySkipsHead(head, body);
  }

  /**
   A blank line inside the body cuts it: only the text after the body's last
   blank line reaches the decoder, and what comes before is lost.
   */
  lemma BodyCutAtInnerBlankLine(head: String, part: String, last: String)
    requires !Contains(head + "\r\n\r", BlankLine)
    requires !Contains(part + "\r\n\r", BlankLine)
    requires !Contains(last, BlankLine)
    ensures RequestBody(head + BlankLine + part + BlankLine + last) == last
  {
    assert head + BlankLine + part + BlankLine + last == head + BlankLine + (part + BlankLine + last);
    RequestBodySkipsHead(head, part + BlankLine + last);
    RequestBodySkipsHead(part, last);
  }

  lemma NoBlankLineInRequestLine()
    ensures !Contains("PUT /" + "\r\n\r", BlankLine)
  {
    var h := "PUT /\r\n\r";
    assert "PUT /" + "\r\n\r" == h;
    forall j: nat ensures !OccursAt(h, BlankLine, j) {
      if j + 4 <= 8 {
        assert h[j..j + 4][0] != BlankLine[0];
      }
    }
  }

  lemma NoBlankLineInBrace()
    ensures !Contains("{" + "\r\n\r", BlankLine)
  {
    var h := "{\r\n\r";
    assert "{" + "\r\n\r" == h;
    assert h[0..4][0] != BlankLine[0];
  }

  /** An instance of the cut: a JSON object split by a blank line loses its opening brace. */
  lemma BodyWithBlankLine()
    ensures RequestBody("PUT /\r\n\r\n{\r\n\r\n}") == "}"
  {
    assert "PUT /\r\n\r\n{\r\n\r\n}" == "PUT /" + BlankLine + "{" + BlankLine + "}";
    NoBlankLineInRequestLine();
    NoBlankLineInBrace();
    ShortNotContains("}", BlankLine);
    BodyCutAtInnerBlankLine("PUT /", "{", "}");
  }

  /**
   Matches are taken left to right without overlap, so the piece after the
   last match need not follow the rightmost occurrence of a blank line.
   */
  lemma BodyOfThreeLineBreaks()
    ensures RequestBody("\r\n\r\n\r\n") == "\r\n"
  {
    assert "\r\n\r\n\r\n" == "" + BlankLine + "\r\n";
    ShortNotContains("" + "\r\n\r", BlankLine);
    RequestBodySkipsHead("", "\r\n");
    ShortNotContains("\r\n", BlankLine);
  }

  // parse::<i32>

  const I32Min: int := -0x8000_0000
  const I32Max: int := 0x7fff_ffff

  predicate InI32(v: int) {
    I32Min <= v <= I32Max
  }

  predicate HasSign(s: String) {
    |s| > 0 && (s[0] == '+' || s[0] == '-')
  }

  function Magnitude(s: String): String {
    if HasSign(s) then s[1..] else s
  }

  /** The shape `parse::<i32>` accepts: an optional sign and at least one ASCII digit. */
  predicate IsIntText(s: String) {
    |Magnitude(s)| >= 1 && AllDigits(Magnitude(s))
  }

  /** The mathematical value of a text of that shape. */
  function IntTextValue(s: String): int {
    if |s| > 0 && s[0] == '-' then -(DecimalValue(Magnitude(s)) as int) else DecimalValue(Magnitude(s))
  }

  /** The value the digits denote when appended to `acc` with the given sign. */
  function Extended(acc: int, ds: String, negative: bool): int {
    if negative then -FoldDigits(-acc, ds, 10) else FoldDigits(acc, ds, 10)
  }

  /**
   The digit loop of `i32::from_str`: each step is a checked multiplication by
   ten and a checked addition (subtraction for a negative number) of the digit;
   a non-digit or an overflow ends the parse with an error.
   */
  function Accumulate(acc: int, ds: String, negative: bool): (r: Option<int>)
    requires InI32(acc) && (if negative then acc <= 0 else acc >= 0)
    ensures r.Some? <==> AllDigits(ds) && InI32(Extended(acc, ds, negative))
    ensures r.Some? ==> r.value == Extended(acc, ds, negative)
    decreases |ds|
  {
    if ds == [] then Some(acc)
    else if !IsDigit(ds[0]) then None
    else
      var d := DigitVal(ds[0]) as int;
      var mul := acc * 10;
      var next := if negative then mul - d else mul + d;
      assert Extended(acc, ds, negative) == Extended(next, ds[1..], negative);
      if !InI32(mul) then
        AccumulateOverflow(next, ds[1..], negative);
        None
      else if !InI32(next) then
        AccumulateOverflow(next, ds[1..], negative);
        None
      else
        Accumulate(next, ds[1..], negative)
  }

  /** Once the running value leaves the i32 range, more digits cannot bring it back. */
  lemma AccumulateOverflow(acc: int, ds: String, negative: bool)
    requires if negative then acc < I32Min else acc > I32Max
    ensures !InI32(Extended(acc, ds, negative))
  {
    if negative {
      FoldDigitsGrows(-acc, ds, 10);
    } else {
      FoldDigitsGrows(acc, ds, 10);
    }
  }

  /** `str::parse::<i32>`, with every error collapsed to `None`. */
  function ParseI32(s: String): (r: Option<int>)
    ensures r.Some? <==> IsIntText(s) && InI32(IntTextValue(s))
    ensures r.Some? ==> r.value == IntTextValue(s)
  {
    if s == [] then None
    else if HasSign(s) && |s| == 1 then None
    else Accumulate(0, Magnitude(s), |s| > 0 && s[0] == '-')
  }

  /** Every i32, written in decimal, is parsed back to itself. */
  lemma ParseI32OfText(v: int)
    requires InI32(v)
    ensures ParseI32(IntText(v)) == Some(v)
  {
    if v < 0 {
      assert IntText(v)[1..] == DecimalText(-v);
    }
  }

  lemma ParseI32RejectsEmpty()
    ensures ParseI32("") == None
  {
  }
}
