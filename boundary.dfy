/** `extractBoundary` (server.js:11-23): the multipart boundary token of an
    upstream `Content-Type` header value. */
module Boundary {
  import opened Builtins

  /** The characters the regular expression class `\s` matches in JavaScript:
      the ASCII white space characters, the no-break and other Unicode space
      separators, the line and paragraph separators and the byte order mark. */
  predicate IsWhitespace(c: char) {
    c == ' ' || c == '\t' || c == '\n' || c == '\U{B}' || c == '\U{C}' || c == '\r'
    || c == '\U{A0}' || c == '\U{1680}' || ('\U{2000}' <= c <= '\U{200A}')
    || c == '\U{2028}' || c == '\U{2029}' || c == '\U{202F}' || c == '\U{205F}'
    || c == '\U{3000}' || c == '\U{FEFF}'
  }

  predicate NoWhitespace(s: string) {
    forall c :: c in s ==> !IsWhitespace(c)
  }

  /** `contentType.replace(/\s+/g, '')`: every white space character removed,
      every other character kept in order. */
  function StripWhitespace(s: string): (r: string)
    ensures NoWhitespace(r)
    ensures forall c :: c in r ==> c in s
    ensures NoWhitespace(s) ==> r == s
  {
    if s == [] then []
    else (if IsWhitespace(s[0]) then [] else [s[0]]) + StripWhitespace(s[1..])
  }

  lemma {:induction false} StripWhitespaceAppend(a: string, b: string)
    ensures StripWhitespace(a + b) == StripWhitespace(a) + StripWhitespace(b)
  {
    if a == [] {
      assert a + b == b;
    } else {
      assert (a + b)[1..] == a[1..] + b;
      StripWhitespaceAppend(a[1..], b);
    }
  }

  /** `.replace(/"/gi, '')`: every double quote removed. */
  function RemoveQuotes(s: string): (r: string)
    ensures '"' !in r
    ensures forall c :: c in r ==> c in s
    ensures '"' !in s ==> r == s
  {
    if s == [] then []
    else (if s[0] == '"' then [] else [s[0]]) + RemoveQuotes(s[1..])
  }

  /** Quote removal distributes over concatenation: together with its effect
      on one character, every other character is kept, in order. */
  lemma {:induction false} RemoveQuotesAppend(a: string, b: string)
    ensures RemoveQuotes(a + b) == RemoveQuotes(a) + RemoveQuotes(b)
  {
    if a == [] {
      assert a + b == b;
    } else {
      assert (a + b)[1..] == a[1..] + b;
      RemoveQuotesAppend(a[1..], b);
    }
  }

  /** `.replace(/^\-\-/gi, '')`: the anchored pattern matches only at index 0,
      so at most one leading `--` goes. */
  function StripLeadingDashes(s: string): (r: string)
    ensures forall c :: c in r ==> c in s
  {
    if |s| >= 2 && s[..2] == "--" then s[2..] else s
  }

  const BoundaryParam: string := "boundary="

  /** Where the token ends (server.js:15-21): the first `;` after `boundary=`,
      else the first `\r` after it, else the end of the header. */
  function TokenEnd(s: string, startIndex: int): int {
    var semicolon := IndexOf(s, ";", startIndex);
    if semicolon == -1 then
      var cr := IndexOf(s, "\r", startIndex);
      if cr == -1 then |s| else cr
    else semicolon
  }

  /** server.js:11-23. A header with no `boundary=` does not fail: the search
      position -1 makes the `;` search start at 0 and the token start at 8. */
  function ExtractBoundary(contentType: string): (token: string)
    ensures NoWhitespace(token) && '"' !in token
    ensures IndexOf(StripWhitespace(contentType), BoundaryParam, 0) >= 0 ==> ';' !in token
  {
    var s := StripWhitespace(contentType);
    var startIndex := IndexOf(s, BoundaryParam, 0);
    var raw := Substring(s, startIndex + 9, TokenEnd(s, startIndex));
    TokenStopsAtSemicolon(s, startIndex);
    StripLeadingDashes(RemoveQuotes(raw))
  }

  /** Once `boundary=` is found, the raw token holds no `;`. */
  lemma TokenStopsAtSemicolon(s: string, startIndex: int)
    requires startIndex == IndexOf(s, BoundaryParam, 0)
    ensures startIndex >= 0 ==> ';' !in Substring(s, startIndex + 9, TokenEnd(s, startIndex))
  {
    if startIndex >= 0 {
      var semicolon := IndexOf(s, ";", startIndex);
      NoSemicolonBefore(s, startIndex, semicolon);
      var lo, hi := Clamp(startIndex + 9, |s|), Clamp(TokenEnd(s, startIndex), |s|);
      if lo <= hi {
        NotInSlice(s, lo, hi, ';');
      } else {
        NotInSlice(s, hi, lo, ';');
      }
    }
  }

  /** No `;` stands between `boundary=` and the first `;` after it. */
  lemma NoSemicolonBefore(s: string, startIndex: int, semicolon: int)
    requires startIndex == IndexOf(s, BoundaryParam, 0) >= 0
    requires semicolon == IndexOf(s, ";", startIndex)
    ensures semicolon == -1 || semicolon >= startIndex + 9
    ensures forall i :: startIndex <= i < |s| && (semicolon == -1 || i < semicolon) ==> s[i] != ';'
  {
    assert s[startIndex..startIndex + 9] == BoundaryParam;
    forall i | startIndex <= i < startIndex + 9
      ensures s[i] != ';'
    {
      assert s[i] == BoundaryParam[i - startIndex];
    }
    forall i | startIndex <= i < |s| && (semicolon == -1 || i < semicolon)
      ensures s[i] != ';'
    {
      OccursAtSingle(s, ';', i);
    }
    if semicolon != -1 {
      OccursAtSingle(s, ';', semicolon);
    }
  }

  /** The `Content-Type` a viewer is sent (server.js:114). */
  function ContentTypeFor(boundary: string): string {
    MultipartPrefix + BoundaryParam + boundary
  }

  /** After white space removal no `\r` is left, so the `\r` fallback of line
      18 never fires: with no `;` after `boundary=` the token runs to the end
      of the header. */
  lemma CarriageReturnBranchIsDead(contentType: string)
    ensures var s := StripWhitespace(contentType);
            var startIndex := IndexOf(s, BoundaryParam, 0);
            IndexOf(s, ";", startIndex) == -1 ==>
              ExtractBoundary(contentType)
              == StripLeadingDashes(RemoveQuotes(Substring(s, startIndex + 9, |s|)))
  {
    var s := StripWhitespace(contentType);
    var startIndex := IndexOf(s, BoundaryParam, 0);
    NoCarriageReturnFound(s, startIndex);
  }

  lemma NoCarriageReturnFound(s: string, from: int)
    requires NoWhitespace(s)
    ensures IndexOf(s, "\r", from) == -1
  {
    assert '\r' !in s;
    AbsentPatternNotFound(s, "\r", 0, from);
  }

  /** A header whose first parameter named `boundary` is `T`, followed by `;`
      or by the end of the header, yields `T` with its quotes and one leading
      `--` removed, whatever white space the header carried. */
  lemma ExtractsBoundaryParameter(contentType: string, pre: string, tok: string, rest: string)
    requires StripWhitespace(contentType) == pre + BoundaryParam + tok + rest
    requires IndexOf(pre + "boundary", BoundaryParam, 0) == -1
    requires ';' !in tok
    requires rest == [] || rest[0] == ';'
    ensures ExtractBoundary(contentType) == StripLeadingDashes(RemoveQuotes(tok))
  {
    var s := StripWhitespace(contentType);
    var n, e := |pre|, |pre| + 9 + |tok|;
    FirstParameterFound(s, pre, tok + rest);
    TokenEndsAtSemicolonOrEnd(s, pre, tok, rest);
    assert s[n + 9..e] == tok;
    ExtractBoundaryAt(contentType, n, e);
  }

  /** The result once the two searches are known. */
  lemma ExtractBoundaryAt(contentType: string, n: int, e: int)
    requires IndexOf(StripWhitespace(contentType), BoundaryParam, 0) == n
    requires TokenEnd(StripWhitespace(contentType), n) == e
    requires 0 <= n && n + 9 <= e <= |StripWhitespace(contentType)|
    ensures ExtractBoundary(contentType)
            == StripLeadingDashes(RemoveQuotes(StripWhitespace(contentType)[n + 9..e]))
  {
  }

  /** `boundary=` right after `pre` is found there when `pre` does not hold it. */
  lemma FirstParameterFound(s: string, pre: string, after: string)
    requires s == pre + BoundaryParam + after
    requires IndexOf(pre + "boundary", BoundaryParam, 0) == -1
    ensures IndexOf(s, BoundaryParam, 0) == |pre|
  {
    var n := |pre|;
    var head := pre + "boundary";
    assert s[n..n + 9] == BoundaryParam;
    forall j | 0 <= j < n
      ensures !OccursAt(s, BoundaryParam, j)
    {
      assert !OccursAt(head, BoundaryParam, j);
      assert s[j..j + 9] == head[j..j + 9];
    }
    IndexOfIsFirst(s, BoundaryParam, 0, n);
  }

  /** The token ends at the `;` that follows it, or at the end of the header. */
  lemma TokenEndsAtSemicolonOrEnd(s: string, pre: string, tok: string, rest: string)
    requires s == pre + BoundaryParam + tok + rest
    requires NoWhitespace(s)
    requires ';' !in tok
    requires rest == [] || rest[0] == ';'
    ensures TokenEnd(s, |pre|) == |pre| + 9 + |tok|
  {
    var n, e := |pre|, |pre| + 9 + |tok|;
    forall j | n <= j < e
      ensures !OccursAt(s, ";", j)
    {
      OccursAtSingle(s, ';', j);
      if j < n + 9 {
        assert s[j] == BoundaryParam[j - n];
      } else {
        assert s[j] == tok[j - n - 9];
      }
    }
    if rest == [] {
      var semicolon := IndexOf(s, ";", n);
      if semicolon != -1 {
        OccursAtSingle(s, ';', semicolon);
      }
      NoCarriageReturnFound(s, n);
    } else {
      assert s[e] == ';';
      OccursAtSingle(s, ';', e);
      IndexOfIsFirst(s, ";", n, e);
    }
  }

  /** With no `boundary=` anywhere and no `;`, the result is the header from
      index 8 on (nothing when it is shorter): the -1 search position is added
      to 9. */
  lemma MissingParameterTakesFromIndexEight(contentType: string)
    requires var s := StripWhitespace(contentType);
             IndexOf(s, BoundaryParam, 0) == -1 && ';' !in s
    ensures var s := StripWhitespace(contentType);
            ExtractBoundary(contentType)
            == StripLeadingDashes(RemoveQuotes(if |s| <= 8 then "" else s[8..]))
  {
    var s := StripWhitespace(contentType);
    AbsentPatternNotFound(s, ";", 0, -1);
    NoCarriageReturnFound(s, -1);
    assert TokenEnd(s, -1) == |s|;
    assert Substring(s, 8, |s|) == if |s| <= 8 then "" else s[8..];
  }

  /** With no `boundary=` anywhere, the token is read from index 8 up to the
      first `;` (or the end), whichever way round those bounds lie. */
  lemma MissingParameterReadsFromIndexEight(contentType: string)
    requires IndexOf(StripWhitespace(contentType), BoundaryParam, 0) == -1
    ensures var s := StripWhitespace(contentType);
            var semicolon := IndexOf(s, ";", 0);
            ExtractBoundary(contentType)
            == StripLeadingDashes(RemoveQuotes(Substring(s, 8, if semicolon == -1 then |s| else semicolon)))
  {
    var s := StripWhitespace(contentType);
    NoCarriageReturnFound(s, -1);
    assert IndexOf(s, ";", -1) == IndexOf(s, ";", 0);
  }

  /** A short header with a `;` and no `boundary=` yields a token that starts
      at the `;`: `substring(8, 1)` swaps its bounds. */
  lemma MissingParameterSwapsBounds(contentType: string)
    requires contentType == "a;b"
    ensures ExtractBoundary(contentType) == ";b"
  {
    ExampleNamesNoParameter(contentType);
    ExampleSemicolonAtOne(contentType);
    MissingParameterReadsFromIndexEight(contentType);
    ExampleTokenFromSemicolon(contentType);
  }

  lemma ExampleNamesNoParameter(s: string)
    requires s == "a;b"
    ensures StripWhitespace(s) == s && IndexOf(s, BoundaryParam, 0) == -1
  {
    assert NoWhitespace(s);
    AbsentPatternNotFound(s, BoundaryParam, 1, 0);
  }

  lemma ExampleSemicolonAtOne(s: string)
    requires s == "a;b"
    ensures IndexOf(s, ";", 0) == 1
  {
    OccursAtSingle(s, ';', 1);
    OccursAtSingle(s, ';', 0);
    IndexOfIsFirst(s, ";", 0, 1);
  }

  lemma ExampleTokenFromSemicolon(s: string)
    requires s == "a;b"
    ensures StripLeadingDashes(RemoveQuotes(Substring(s, 8, 1))) == ";b"
  {
    SubstringClampsAndSwaps(s, 8, 1);
    assert Substring(s, 8, 1) == s[1..] == ";b";
    assert RemoveQuotes(";b") == ";b";
  }

  const MultipartPrefix: string := "multipart/x-mixed-replace;"

  /** The fixed part of the header a viewer is sent has no white space. */
  lemma HeaderPrefixHasNoWhitespace()
    ensures NoWhitespace(MultipartPrefix + BoundaryParam)
  {
  }

  /** The fixed part names no `boundary=` before the parameter: it holds no `=`. */
  lemma HeaderPrefixNamesNoParameter()
    ensures IndexOf(MultipartPrefix + "boundary", BoundaryParam, 0) == -1
  {
    AbsentPatternNotFound(MultipartPrefix + "boundary", BoundaryParam, 8, 0);
  }

  /** The header a viewer is sent (server.js:114) gives back, on extraction,
      the token it was built from less one leading `--`, when that token has
      no white space, quote or `;`. */
  lemma HeaderExtraction(boundary: string)
    requires NoWhitespace(boundary) && '"' !in boundary && ';' !in boundary
    ensures ExtractBoundary(ContentTypeFor(boundary)) == StripLeadingDashes(boundary)
  {
    var h := ContentTypeFor(boundary);
    HeaderPrefixHasNoWhitespace();
    HeaderPrefixNamesNoParameter();
    StripWhitespaceAppend(MultipartPrefix + BoundaryParam, boundary);
    assert StripWhitespace(h) == MultipartPrefix + BoundaryParam + boundary + "";
    ExtractsBoundaryParameter(h, MultipartPrefix, boundary, "");
  }

  /** The header a viewer is sent names the token it was built from, when that
      token is already in canonical form: no white space, quote or `;`, and no
      leading `--`. */
  lemma HeaderRoundTrip(boundary: string)
    requires NoWhitespace(boundary) && '"' !in boundary && ';' !in boundary
    requires !(|boundary| >= 2 && boundary[..2] == "--")
    ensures ExtractBoundary(ContentTypeFor(boundary)) == boundary
  {
    HeaderExtraction(boundary);
  }

  /** Extracting again from the header built from an extracted token gives the
      same token, unless that token still starts with `--`. */
  lemma ReExtractionIsStable(contentType: string)
    requires IndexOf(StripWhitespace(contentType), BoundaryParam, 0) >= 0
    requires var t := ExtractBoundary(contentType); !(|t| >= 2 && t[..2] == "--")
    ensures ExtractBoundary(ContentTypeFor(ExtractBoundary(contentType))) == ExtractBoundary(contentType)
  {
    HeaderRoundTrip(ExtractBoundary(contentType));
  }

  /** A header whose token carries a leading `--` and that ends in a CRLF, as
      some cameras send it (`…;boundary=--abc123\r\n` gives `abc123`). */
  lemma ExtractsFromCameraHeader(t: string)
    requires NoWhitespace(t) && '"' !in t && ';' !in t
    ensures ExtractBoundary(ContentTypeFor("--" + t) + "\r\n") == t
  {
    var b := "--" + t;
    var h := ContentTypeFor(b);
    assert forall c :: c in b ==> c == '-' || c in t;
    HeaderExtraction(b);
    StripWhitespaceAppend(h, "\r\n");
    assert StripWhitespace("\r\n") == [];
    assert StripWhitespace(h + "\r\n") == StripWhitespace(h);
    assert b[..2] == "--";
    assert b[2..] == t;
  }

  /** Only one leading `--` is stripped: `----x` gives `--x`, which a second
      extraction would shorten again. */
  lemma StripsOnlyOneDashPair(t: string)
    requires NoWhitespace(t) && '"' !in t && ';' !in t
    ensures ExtractBoundary(ContentTypeFor("----" + t)) == "--" + t
  {
    var rest := "--" + t;
    var b := "--" + rest;
    assert b == "----" + t;
    assert forall c :: c in b ==> c == '-' || c in t;
    HeaderExtraction(b);
    assert b[..2] == "--";
    assert b[2..] == rest;
  }

  /** Quotes around a quote-free token are all that quote removal drops. */
  lemma RemoveSurroundingQuotes(t: string)
    requires '"' !in t
    ensures RemoveQuotes("\"" + t + "\"") == t
  {
    RemoveQuotesAppend("\"" + t, "\"");
    RemoveQuotesAppend("\"", t);
    assert RemoveQuotes("\"") == [];
  }

  /** The header announced for a token with no white space or `;`, quoted or
      not, is read back as that token unquoted and less one leading `--`. */
  lemma HeaderExtractionUnquotes(q: string)
    requires NoWhitespace(q) && ';' !in q
    ensures ExtractBoundary(ContentTypeFor(q)) == StripLeadingDashes(RemoveQuotes(q))
  {
    var h := ContentTypeFor(q);
    HeaderPrefixHasNoWhitespace();
    HeaderPrefixNamesNoParameter();
    StripWhitespaceAppend(MultipartPrefix + BoundaryParam, q);
    assert StripWhitespace(h) == MultipartPrefix + BoundaryParam + q + "";
    ExtractsBoundaryParameter(h, MultipartPrefix, q, "");
  }

  /** A quoted token, `…;boundary="T"`, gives `T` with its quotes removed and
      one leading `--` stripped. */
  lemma ExtractsQuotedBoundary(t: string)
    requires NoWhitespace(t) && '"' !in t && ';' !in t
    ensures ExtractBoundary(ContentTypeFor("\"" + t + "\"")) == StripLeadingDashes(t)
  {
    var q := "\"" + t + "\"";
    assert forall c :: c in q ==> c == '"' || c in t;
    HeaderExtractionUnquotes(q);
    RemoveSurroundingQuotes(t);
  }
}
