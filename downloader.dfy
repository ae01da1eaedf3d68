/** The start of the script: the entered URL is converted, the file name is
    derived from it, and the run stops before any browser is started when
    the conversion returned the sentinel.
 */
module Downloader {
  import opened ScribdLink
  import FileName

  /** What the script does after reading the URL. */
  datatype Start = Abort | Proceed(embedUrl: string, filename: string)

  /** The checks of the script's first step. The URL's path component is
      passed in, since parsing the URL is a library call. */
  function StartRun(inputUrl: string, urlPath: string): (r: Start)
    ensures r.Abort? <==> forall p: nat :: !MatchesAt(inputUrl, p)
    ensures r.Proceed? ==> exists p: nat :: IsLeftmostMatch(inputUrl, p)
                                          && r.embedUrl == EmbedUrl(DocumentId(inputUrl, p))
    ensures r.Proceed? ==> r.filename == FileName.FilenameFromPath(urlPath)
  {
    var converted := ConvertScribdLink(inputUrl);
    var filename := FileName.FilenameFromPath(urlPath);
    if converted == InvalidUrl then Abort
    else
      var p := FindMatch(inputUrl, 0).value;
      assert IsLeftmostMatch(inputUrl, p);
      Proceed(converted, filename)
  }
}
