/** Percent-decoding of a URL path segment, restricted to ASCII escapes.

    A `%` followed by two hexadecimal digits (either case) stands for the
    character with that code; any other `%` is kept as it is and decoding
    goes on from the character after it.
 */
module PercentDecoding {

  predicate IsHexDigit(c: char)
  {
    '0' <= c <= '9' || 'a' <= c <= 'f' || 'A' <= c <= 'F'
  }

  function HexValue(c: char): (v: nat)
    requires IsHexDigit(c)
    ensures v < 16
  {
    if '0' <= c <= '9' then c as nat - '0' as nat
    else if 'a' <= c <= 'f' then c as nat - 'a' as nat + 10
    else c as nat - 'A' as nat + 10
  }

  /** Upper-case hexadecimal digit for a value below 16. */
  function HexDigit(v: nat): (c: char)
    requires v < 16
    ensures IsHexDigit(c) && HexValue(c) == v
  {
    if v < 10 then ('0' as nat + v) as char else ('A' as nat + v - 10) as char
  }

  /** Whether `s` has a well-formed escape `%XX` at position `i`. */
  predicate EscapeAt(s: string, i: nat)
  {
    i + 2 < |s| && s[i] == '%' && IsHexDigit(s[i + 1]) && IsHexDigit(s[i + 2])
  }

  /** The character an escape `%` `hi` `lo` stands for. */
  function EscapedChar(hi: char, lo: char): (c: char)
    requires IsHexDigit(hi) && IsHexDigit(lo)
    ensures c as nat < 256
  {
    (16 * HexValue(hi) + HexValue(lo)) as char
  }

  /** The source's `unquote`, over ASCII escapes. */
  function Unquote(s: string): (r: string)
    ensures |r| <= |s| && |s| <= 3 * |r|
    ensures '%' !in s ==> r == s
    decreases |s|
  {
    if s == [] then []
    else if EscapeAt(s, 0) then
      [EscapedChar(s[1], s[2])] + Unquote(s[3..])
    else
      assert '%' !in s ==> '%' !in s[1..];
      [s[0]] + Unquote(s[1..])
  }

  /** Characters whose code fits in one escape. */
  predicate IsByteChar(c: char) { c as nat < 256 }

  /** Every character written as an escape: the reference encoding that
      `Unquote` inverts. */
  function QuoteAll(s: string): (r: string)
    requires forall i :: 0 <= i < |s| ==> IsByteChar(s[i])
    ensures |r| == 3 * |s|
  {
    if s == [] then []
    else
      assert IsByteChar(s[0]);
      var n := s[0] as nat;
      ['%', HexDigit(n / 16), HexDigit(n % 16)] + QuoteAll(s[1..])
  }

  /** Decoding undoes full escaping. */
  lemma {:induction false} UnquoteQuoteAll(s: string)
    requires forall i :: 0 <= i < |s| ==> IsByteChar(s[i])
    ensures Unquote(QuoteAll(s)) == s
  {
    if s != [] {
      var n := s[0] as nat;
      var q := QuoteAll(s);
      assert EscapeAt(q, 0);
      assert q[3..] == QuoteAll(s[1..]);
      UnquoteQuoteAll(s[1..]);
      assert EscapedChar(HexDigit(n / 16), HexDigit(n % 16)) == s[0];
    }
  }

  /** Text without `%` is left as it is on both sides of an escape. */
  lemma UnquoteOneEscape(head: string, hi: char, lo: char, tail: string)
    requires '%' !in head && '%' !in tail
    requires IsHexDigit(hi) && IsHexDigit(lo)
    ensures Unquote(head + ['%', hi, lo] + tail) == head + [EscapedChar(hi, lo)] + tail
  {
    var escaped := ['%', hi, lo] + tail;
    assert EscapeAt(escaped, 0);
    assert escaped[3..] == tail;
    assert Unquote(escaped) == [EscapedChar(hi, lo)] + tail;
    assert head + ['%', hi, lo] + tail == head + escaped;
    UnquoteAppendPlain(head, escaped);
  }

  /** A `%` not followed by two hexadecimal digits is kept, and decoding
      goes on from the character after it. */
  lemma UnquoteKeepsMalformed(head: string, tail: string)
    requires '%' !in head
    requires !EscapeAt(['%'] + tail, 0)
    ensures Unquote(head + ['%'] + tail) == head + ['%'] + Unquote(tail)
  {
    var rest := ['%'] + tail;
    assert rest[1..] == tail;
    assert Unquote(rest) == ['%'] + Unquote(tail);
    assert head + ['%'] + tail == head + rest;
    UnquoteAppendPlain(head, rest);
  }

  /** Decoding is applied piece by piece: text without `%` before an escape
      or before other text decodes on its own. */
  lemma {:induction false} UnquoteAppendPlain(plain: string, rest: string)
    requires '%' !in plain
    ensures Unquote(plain + rest) == plain + Unquote(rest)
  {
    if plain != [] {
      var s := plain + rest;
      assert s[0] == plain[0] != '%';
      assert s[1..] == plain[1..] + rest;
      assert Unquote(s) == [s[0]] + Unquote(s[1..]);
      assert '%' !in plain[1..];
      UnquoteAppendPlain(plain[1..], rest);
      assert plain == [plain[0]] + plain[1..];
    } else {
      assert plain + rest == rest;
    }
  }
}

/** The output file name derived from the path component of the document URL. */
module FileName {
  import opened PercentDecoding

  const DefaultStem: string := "scribd_document"
  const PdfExtension: string := ".pdf"

  predicate AllSlashes(s: string) { forall i :: 0 <= i < |s| ==> s[i] == '/' }

  /** Python's `rstrip('/')`: the path with every trailing slash removed. */
  function StripTrailingSlashes(path: string): (r: string)
    ensures |r| <= |path| && r == path[..|r|]
    ensures r == [] || r[|r| - 1] != '/'
    ensures AllSlashes(path[|r|..])
    decreases |path|
  {
    if path != [] && path[|path| - 1] == '/' then
      var r := StripTrailingSlashes(path[..|path| - 1]);
      assert path[..|path| - 1][..|r|] == path[..|r|];
      assert path[|r|..] == path[..|path| - 1][|r|..] + ['/'];
      r
    else
      path
  }

  /** Python's `split('/')[-1]`: the text after the last slash, or the whole
      path when it has none. */
  function LastSegment(path: string): (r: string)
    ensures '/' !in r
    ensures |r| <= |path| && r == path[|path| - |r|..]
    ensures |r| == |path| || path[|path| - |r| - 1] == '/'
    decreases |path|
  {
    if path == [] || path[|path| - 1] == '/' then []
    else
      var n := |path| - 1;
      var r := LastSegment(path[..n]);
      assert path[..n][n - |r|..] == path[n - |r|..n];
      assert path[n - |r|..] == path[n - |r|..n] + [path[n]];
      assert |r| < n ==> path[..n][n - |r| - 1] == path[n - |r| - 1];
      r + [path[n]]
  }

  /** The source's `get_filename_from_url`, applied to the URL's path. */
  function FilenameFromPath(path: string): (r: string)
    ensures |r| > |PdfExtension| && r[|r| - |PdfExtension|..] == PdfExtension
  {
    var stripped := StripTrailingSlashes(path);
    var stem := if stripped != [] then LastSegment(stripped) else DefaultStem;
    Unquote(stem) + PdfExtension
  }

  /** An empty path, or one of slashes only, gives the default name. */
  lemma SlashesOnlyGiveDefault(path: string)
    requires AllSlashes(path)
    ensures FilenameFromPath(path) == DefaultStem + PdfExtension
  {
    assert StripTrailingSlashes(path) == [];
    assert '%' !in DefaultStem;
  }

  /** Trailing slashes are stripped whatever their number. */
  lemma {:induction false} StripAppendedSlashes(path: string, slashes: string)
    requires AllSlashes(slashes)
    ensures StripTrailingSlashes(path + slashes) == StripTrailingSlashes(path)
    decreases |slashes|
  {
    if slashes != [] {
      var s := path + slashes;
      assert s[|s| - 1] == slashes[|slashes| - 1] == '/';
      assert s[..|s| - 1] == path + slashes[..|slashes| - 1];
      assert StripTrailingSlashes(s) == StripTrailingSlashes(s[..|s| - 1]);
      StripAppendedSlashes(path, slashes[..|slashes| - 1]);
    } else {
      assert path + slashes == path;
    }
  }

  /** Appending slashes to a path does not change its file name. */
  lemma TrailingSlashesIgnored(path: string, slashes: string)
    requires AllSlashes(slashes)
    ensures FilenameFromPath(path + slashes) == FilenameFromPath(path)
  {
    StripAppendedSlashes(path, slashes);
  }

  /** The last segment of a path ending in a slash-free segment is that
      segment. */
  lemma {:induction false} LastSegmentOfAppend(dir: string, segment: string)
    requires dir == [] || dir[|dir| - 1] == '/'
    requires '/' !in segment
    ensures LastSegment(dir + segment) == segment
    decreases |segment|
  {
    var p := dir + segment;
    if segment != [] {
      assert p[|p| - 1] == segment[|segment| - 1];
      assert p[..|p| - 1] == dir + segment[..|segment| - 1];
      LastSegmentOfAppend(dir, segment[..|segment| - 1]);
    }
  }

  /** The name is the decoded last non-empty segment of the path, whatever
      precedes it and however many slashes follow it. */
  lemma NameIsDecodedLastSegment(dir: string, segment: string, slashes: string)
    requires dir == [] || dir[|dir| - 1] == '/'
    requires segment != [] && '/' !in segment
    requires AllSlashes(slashes)
    ensures FilenameFromPath(dir + segment + slashes) == Unquote(segment) + PdfExtension
  {
    StripAppendedSlashes(dir + segment, slashes);
    var p := dir + segment;
    assert p[|p| - 1] == segment[|segment| - 1];
    LastSegmentOfAppend(dir, segment);
  }

  /** A segment without escapes is used as it is. */
  lemma PlainSegmentKept(dir: string, segment: string, slashes: string)
    requires dir == [] || dir[|dir| - 1] == '/'
    requires segment != [] && '/' !in segment && '%' !in segment
    requires AllSlashes(slashes)
    ensures FilenameFromPath(dir + segment + slashes) == segment + PdfExtension
  {
    NameIsDecodedLastSegment(dir, segment, slashes);
  }

  /** The worked example: a title segment. */
  lemma SampleTitleExample(path: string)
    requires path == "/document/555/Sample-Title"
    ensures FilenameFromPath(path) == "Sample-Title.pdf"
  {
    assert "Sample-Title" + PdfExtension == "Sample-Title.pdf";
    assert path == "/document/555/" + "Sample-Title" + "";
    PlainSegmentKept("/document/555/", "Sample-Title", "");
  }

  /** The same title followed by a slash. */
  lemma SampleTitleSlashExample(path: string)
    requires path == "/document/555/Sample-Title/"
    ensures FilenameFromPath(path) == "Sample-Title.pdf"
  {
    assert "Sample-Title" + PdfExtension == "Sample-Title.pdf";
    assert path == "/document/555/" + "Sample-Title" + "/";
    PlainSegmentKept("/document/555/", "Sample-Title", "/");
  }

  /** An escaped space is decoded. */
  lemma EscapedSpaceDecoded(segment: string)
    requires segment == "My%20Document"
    ensures Unquote(segment) == "My Document"
  {
    assert segment == "My" + ['%', '2', '0'] + "Document";
    assert EscapedChar('2', '0') == ' ';
    assert "My" + [' '] + "Document" == "My Document";
    UnquoteOneEscape("My", '2', '0', "Document");
  }

  /** An escaped space in the title is decoded in the file name. */
  lemma EscapedSpaceExample(path: string)
    requires path == "/document/555/My%20Document"
    ensures FilenameFromPath(path) == "My Document.pdf"
  {
    var dir, segment := "/document/555/", "My%20Document";
    assert path == dir + segment + "";
    assert "My Document" + PdfExtension == "My Document.pdf";
    NameIsDecodedLastSegment(dir, segment, "");
    EscapedSpaceDecoded(segment);
  }
}
