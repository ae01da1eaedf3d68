/** Conversion of a Scribd document URL into the embeddable content URL.

    The script searches the input, anywhere in it, for the pattern
    `https://www.scribd.com/document/` + one or more digits + `/`; the digits
    are the document id. A match yields `https://www.scribd.com/embeds/<id>/content`,
    no match yields the sentinel string "Invalid Scribd URL".
 */
module ScribdLink {

  datatype Option<T> = None | Some(value: T)

  /** The literal text the document pattern starts with. */
  const DocumentPrefix: string := "https://www.scribd.com/document/"
  const EmbedPrefix: string := "https://www.scribd.com/embeds/"
  const EmbedSuffix: string := "/content"
  /** The sentinel returned when the input holds no document URL. */
  const InvalidUrl: string := "Invalid Scribd URL"

  /** ASCII digits only: the pattern's `\d`. */
  predicate IsDigit(c: char) { '0' <= c <= '9' }

  predicate AllDigits(s: string) { forall i :: 0 <= i < |s| ==> IsDigit(s[i]) }

  /** Length of the longest run of digits in `s` that starts at `i`. */
  function DigitRun(s: string, i: nat): (n: nat)
    requires i <= |s|
    ensures i + n <= |s|
    ensures AllDigits(s[i..i + n])
    ensures i + n == |s| || !IsDigit(s[i + n])
    decreases |s| - i
  {
    if i < |s| && IsDigit(s[i]) then
      var m := DigitRun(s, i + 1);
      assert s[i..i + 1 + m] == [s[i]] + s[i + 1..i + 1 + m];
      1 + m
    else
      0
  }

  /** What the pattern means at start position `p` with a digit group of
      length `n`: the literal, `n >= 1` digits, then a slash. */
  ghost predicate PatternAt(s: string, p: nat, n: nat)
  {
    var d := p + |DocumentPrefix|;
    d + n < |s| && s[p..d] == DocumentPrefix && n > 0
    && AllDigits(s[d..d + n]) && s[d + n] == '/'
  }

  /** The pattern matches at `p`: the literal, then a maximal, non-empty run
      of digits, then a slash. */
  predicate MatchesAt(s: string, p: nat)
  {
    var d := p + |DocumentPrefix|;
    d <= |s| && s[p..d] == DocumentPrefix
    && var n := DigitRun(s, d);
    n > 0 && d + n < |s| && s[d + n] == '/'
  }

  /** The document id captured by a match at `p`. */
  function DocumentId(s: string, p: nat): (id: string)
    requires MatchesAt(s, p)
    ensures id != [] && AllDigits(id)
    ensures PatternAt(s, p, |id|)
    ensures id == s[p + |DocumentPrefix|..p + |DocumentPrefix| + |id|]
  {
    var d := p + |DocumentPrefix|;
    s[d..d + DigitRun(s, d)]
  }

  /** A regular-expression match may backtrack over the digits, but only one
      length of digit group is followed by a slash: the maximal run. So the
      captured group is the same whether the repetition is greedy or not. */
  lemma PatternIsMaximalRun(s: string, p: nat, n: nat)
    ensures PatternAt(s, p, n) <==> MatchesAt(s, p) && n == |DocumentId(s, p)|
  {
  }

  /** A start position that matches while no earlier one does: where a
      left-to-right search stops. */
  ghost predicate IsLeftmostMatch(s: string, p: nat)
  {
    MatchesAt(s, p) && forall q: nat :: q < p ==> !MatchesAt(s, q)
  }

  /** The search: the first matching start position at or after `from`. */
  function FindMatch(s: string, from: nat): (r: Option<nat>)
    requires from <= |s|
    ensures r.Some? ==> from <= r.value < |s| && MatchesAt(s, r.value)
    ensures r.Some? ==> forall q: nat :: from <= q < r.value ==> !MatchesAt(s, q)
    ensures r.None? ==> forall q: nat :: from <= q ==> !MatchesAt(s, q)
    decreases |s| - from
  {
    if from == |s| then None
    else if MatchesAt(s, from) then Some(from)
    else FindMatch(s, from + 1)
  }

  /** The embed URL for a document id. */
  function EmbedUrl(id: string): string
  {
    EmbedPrefix + id + EmbedSuffix
  }

  /** The source's `convert_scribd_link`. */
  function ConvertScribdLink(url: string): (r: string)
    ensures r == InvalidUrl <==> forall p: nat :: !MatchesAt(url, p)
    ensures forall p: nat :: IsLeftmostMatch(url, p) ==> r == EmbedUrl(DocumentId(url, p))
  {
    match FindMatch(url, 0)
    case Some(p) =>
      EmbeddedNotSentinel(DocumentId(url, p));
      EmbedUrl(DocumentId(url, p))
    case None => InvalidUrl
  }

  /** No embed URL equals the sentinel, so comparing the result with the
      sentinel tells a converted URL from a refused one. */
  lemma EmbeddedNotSentinel(id: string)
    ensures EmbedUrl(id) != InvalidUrl
  {
  }

  /** The id can be read back from the embed URL: distinct ids give distinct
      embed URLs, so the embed URL carries exactly the captured digits. */
  lemma EmbedUrlInjective(id1: string, id2: string)
    requires EmbedUrl(id1) == EmbedUrl(id2)
    ensures id1 == id2
  {
    var n := |EmbedPrefix|;
    assert |id1| == |id2|;
    forall i | 0 <= i < |id1| ensures id1[i] == id2[i] {
      assert EmbedUrl(id1)[n + i] == id1[i];
      assert EmbedUrl(id2)[n + i] == id2[i];
    }
  }

  /** A match can only start at an `h`, the first letter of the literal. */
  lemma MatchStartsWithH(s: string, q: nat)
    requires MatchesAt(s, q)
    ensures s[q] == 'h'
  {
    assert s[q..q + |DocumentPrefix|][0] == s[q];
  }

  /** A document URL converts to the embed URL of its id whatever follows
      the slash after the id, and whatever comes before it as long as no
      match starts there. */
  lemma ConvertDocumentUrl(url: string, pre: string, id: string, rest: string)
    requires url == pre + DocumentPrefix + id + "/" + rest
    requires forall q: nat :: q < |pre| ==> !MatchesAt(url, q)
    requires id != [] && AllDigits(id)
    ensures ConvertScribdLink(url) == EmbedUrl(id)
  {
    var p := |pre|;
    var d := p + |DocumentPrefix|;
    assert url[p..d] == DocumentPrefix;
    assert url[d..d + |id|] == id;
    assert url[d + |id|] == '/';
    assert MatchesAt(url, p);
    assert IsLeftmostMatch(url, p);
    assert DocumentId(url, p) == id;
  }

  /** Text holding no `h` cannot start a match, so a document URL after it
      converts to the embed URL of its id. */
  lemma ConvertAfterPlainPreamble(url: string, pre: string, id: string, rest: string)
    requires url == pre + DocumentPrefix + id + "/" + rest
    requires 'h' !in pre
    requires id != [] && AllDigits(id)
    ensures ConvertScribdLink(url) == EmbedUrl(id)
  {
    forall q: nat | q < |pre| ensures !MatchesAt(url, q) {
      assert url[q] == pre[q];
      if MatchesAt(url, q) {
        MatchStartsWithH(url, q);
        assert false;
      }
    }
    ConvertDocumentUrl(url, pre, id, rest);
  }

  /** A document URL whose id is not followed by a slash is refused. */
  lemma IdWithoutSlashIsInvalid()
    ensures ConvertScribdLink("https://www.scribd.com/document/555") == InvalidUrl
  {
  }

  /** A URL of another site is refused. */
  lemma OtherSiteIsInvalid()
    ensures ConvertScribdLink("https://example.com/not-scribd") == InvalidUrl
  {
  }

  /** The worked example: a document URL with a title after the id. */
  lemma SampleTitleExample(url: string)
    requires url == "https://www.scribd.com/document/555/Sample-Title"
    ensures ConvertScribdLink(url) == "https://www.scribd.com/embeds/555/content"
  {
    assert EmbedUrl("555") == "https://www.scribd.com/embeds/555/content";
    ConvertDocumentUrl(url, [], "555", "Sample-Title");
  }
}
