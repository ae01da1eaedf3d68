# Scribd downloader: URL handling and scroll progress

The downloader script reads a Scribd document URL, rewrites it into the
viewer's embed URL, derives the output PDF file name from the URL's path,
and refuses to start the browser when the URL is not a document URL. Later,
it scrolls every page element of the embedded viewer into view and prints a
progress line after every tenth element. This project models those parts
and proves their properties in Dafny.

- `ScribdLink` (`scribd_link.dfy`) models `convert_scribd_link`. The regular
  expression `https://www\.scribd\.com/document/(\d+)/` is searched anywhere
  in the input. A match at position `p` is the literal, then a maximal,
  non-empty run of ASCII digits, then `/`. `FindMatch` returns the first
  such position, as a regular-expression search does. The captured digits
  give `https://www.scribd.com/embeds/<id>/content`. When nothing matches,
  the result is the sentinel `"Invalid Scribd URL"`.
- `PercentDecoding` (`file_name.dfy`) models `unquote` for ASCII escapes. A
  `%` followed by two hexadecimal digits, in either case, becomes the
  character with that code. Any other `%` is kept, and decoding goes on
  from the next character. `QuoteAll`, which escapes every character, is a
  reference encoding. `Unquote` is proved to invert it.
- `FileName` (`file_name.dfy`) models `get_filename_from_url` over the
  URL's path component. The trailing slashes are stripped, the text after
  the last `/` is taken (or `scribd_document` if nothing is left), it is
  decoded, and `.pdf` is appended.
- `Downloader` (`downloader.dfy`) models the script's first step: convert,
  derive the name, and stop when the conversion returned the sentinel.
- `PageScroll` (`page_scroll.dfy`) models the scroll loop as a method. It
  visits the page elements in order and emits `Progress(i + 1, total)`
  after element `i` when `(i + 1) % 10 == 0`.

The search follows the code. The regular expression matches at the first
position where the whole pattern fits. An earlier occurrence of the literal
that is not followed by digits and a `/` is skipped. The captured group is
the whole digit run: `PatternIsMaximalRun` shows that only the maximal run
can be followed by `/`, so backtracking cannot yield a shorter id.

## Model

| member | source | states |
|---|---|---|
| ScribdLink.DigitRun | scribd-downloader.py:62 | the `\d+` run starting at a position: every character in it is a digit, and it stops at the end of the text or at a non-digit |
| ScribdLink.PatternIsMaximalRun | scribd-downloader.py:62 | the pattern matches at `p` with a group of `n` digits iff a match is at `p` and `n` is the length of the captured id; the group is the maximal digit run |
| ScribdLink.DocumentId | scribd-downloader.py:64 | the captured id is a non-empty string of digits, it is exactly the input's text right after the literal, and the pattern matches around it |
| ScribdLink.FindMatch | scribd-downloader.py:62-63 | the search returns a matching position with no match before it, or reports that no position from the start matches |
| ScribdLink.ConvertScribdLink | scribd-downloader.py:48-67 | the result is the sentinel iff the pattern matches nowhere; otherwise it is the embed URL of the id at the leftmost match |
| ScribdLink.EmbeddedNotSentinel | scribd-downloader.py:63-67 | no embed URL equals the sentinel, so the caller's comparison separates success from refusal |
| ScribdLink.EmbedUrlInjective | scribd-downloader.py:64-65 | distinct ids give distinct embed URLs: the embed URL carries exactly the captured digits |
| ScribdLink.ConvertDocumentUrl | scribd-downloader.py:62-65 | literal, digit id, `/` and any tail converts to the embed URL of that id, after any preamble in which no match starts |
| ScribdLink.MatchStartsWithH | scribd-downloader.py:62 | a match can only start at an `h`, the first letter of the literal |
| ScribdLink.ConvertAfterPlainPreamble | scribd-downloader.py:62-65 | a document URL after text holding no `h` converts to the embed URL of its id |
| ScribdLink.IdWithoutSlashIsInvalid | scribd-downloader.py:62-67 | `https://www.scribd.com/document/555`, whose id has no `/` after it, gives the sentinel |
| ScribdLink.OtherSiteIsInvalid | scribd-downloader.py:62-67 | `https://example.com/not-scribd` gives the sentinel |
| ScribdLink.SampleTitleExample | scribd-downloader.py:62-65 | `https://www.scribd.com/document/555/Sample-Title` gives `https://www.scribd.com/embeds/555/content` |
| PercentDecoding.Unquote | scribd-downloader.py:87 | decoding never lengthens the text and shortens it by at most two thirds; text without `%` is unchanged |
| PercentDecoding.UnquoteQuoteAll | scribd-downloader.py:87 | decoding inverts the encoding that escapes every character below 256 |
| PercentDecoding.UnquoteAppendPlain | scribd-downloader.py:87 | text without `%` in front of anything passes through decoding unchanged |
| PercentDecoding.UnquoteKeepsMalformed | scribd-downloader.py:87 | a `%` not followed by two hexadecimal digits is kept, and decoding goes on from the character after it |
| PercentDecoding.UnquoteOneEscape | scribd-downloader.py:87 | one escape between plain text is replaced by its character, and the plain text is kept |
| FileName.StripTrailingSlashes | scribd-downloader.py:84 | the result is a prefix of the path that does not end in `/`, and everything removed is `/` |
| FileName.LastSegment | scribd-downloader.py:85 | the result holds no `/`, is a suffix of the path, and is preceded by a `/` unless it is the whole path |
| FileName.FilenameFromPath | scribd-downloader.py:70-88 | the file name is longer than `.pdf` and ends with `.pdf` |
| FileName.SlashesOnlyGiveDefault | scribd-downloader.py:84-85 | an empty path, or one made of slashes only, gives `scribd_document.pdf` |
| FileName.StripAppendedSlashes | scribd-downloader.py:84 | stripping ignores any number of appended slashes |
| FileName.TrailingSlashesIgnored | scribd-downloader.py:84-88 | appending slashes to a path does not change its file name |
| FileName.LastSegmentOfAppend | scribd-downloader.py:85 | the last segment of a directory ending in `/` plus a slash-free segment is that segment |
| FileName.NameIsDecodedLastSegment | scribd-downloader.py:84-88 | the file name is the decoded last non-empty segment plus `.pdf`, whatever precedes it and however many slashes follow it |
| FileName.PlainSegmentKept | scribd-downloader.py:84-88 | a last segment without `%` is used unchanged |
| FileName.SampleTitleExample | scribd-downloader.py:84-88 | `/document/555/Sample-Title` gives `Sample-Title.pdf` |
| FileName.SampleTitleSlashExample | scribd-downloader.py:84-88 | `/document/555/Sample-Title/` gives `Sample-Title.pdf` |
| FileName.EscapedSpaceDecoded | scribd-downloader.py:87 | `My%20Document` decodes to `My Document` |
| FileName.EscapedSpaceExample | scribd-downloader.py:84-88 | `/document/555/My%20Document` gives `My Document.pdf` |
| Downloader.StartRun | scribd-downloader.py:146-156 | the run aborts iff the pattern matches nowhere in the input; otherwise it goes on with the embed URL of the leftmost match and the file name of the path |
| PageScroll.ScrollPages | scribd-downloader.py:291-305 | every page is visited, in order; exactly `total / 10` progress lines are emitted, the k-th reporting `10 * (k + 1)` of `total` |
| PageScroll.ReportedExactlyWhenRuleFires | scribd-downloader.py:304-305 | the count after element `i` is reported iff `(i + 1) % 10 == 0` |

## Left out

- Browser configuration, the browser session and all driver calls: they drive an external process.
- The cookie-banner and toolbar removal scripts and the print CSS: they run inside the browser against a page the model cannot see.
- `save_pdf_directly` and the fallback to the print dialog: a browser command, base64 decoding by a library and a file write. Its page sizes are floating point.
- Pauses, console input and output, and the process exit: timing and I/O. The abort is modelled as the `Abort` result.
- Parsing the URL into its parts: a library call. `FileName.FilenameFromPath` and `Downloader.StartRun` take the path component as an argument.
- PercentDecoding.Unquote: an escape of a byte at or above 0x80 becomes the character with that code. The library decodes such bytes as UTF-8 and replaces invalid sequences, which is not modelled.
- ScribdLink.DigitRun: only ASCII digits count, while the library's `\d` also accepts other Unicode decimal digits.
- The scroll loop records the visited elements instead of scrolling them. The progress line's text is represented by the two numbers it prints.
- Deriving the file name twice from the same URL gives the same name. This needs no lemma, because the model's functions are deterministic.
