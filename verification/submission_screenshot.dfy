/** The screenshot form (`SubmissionScreenshot.tsx`): the content stored
    for a pasted image address, with the file name taken from its last path
    segment. */
module SubmissionScreenshot {
  import opened Wrappers
  import opened Text
  import opened Types

  /** The name used when the address has no last segment. */
  const DefaultFileName := "screenshot"

  /** `url.split("/").pop()`: the text after the last `/`, or the whole
      address when it has none. */
  function LastSegment(url: string): (r: string)
    ensures '/' !in r
    ensures LastPieceFollows(url, '/', r)
  {
    var pieces := Split(url, '/');
    SplitLast(url, '/');
    pieces[|pieces| - 1]
  }

  /** The content stored when the address field changes: the address as
      typed and its last segment, or the default name when that segment is
      empty. */
  function ScreenshotOf(url: string): (r: ScreenshotContent)
    ensures r.fileUrl == url
    ensures r.fileName != [] && '/' !in r.fileName
    ensures url == [] || url[|url| - 1] == '/' ==> r.fileName == DefaultFileName
    ensures !(url == [] || url[|url| - 1] == '/') ==> LastPieceFollows(url, '/', r.fileName)
  {
    var segment := LastSegment(url);
    if segment == [] then ScreenshotContent(url, DefaultFileName)
    else ScreenshotContent(url, segment)
  }

  /** What the address field shows: the stored address, or nothing. */
  function DisplayedUrl(value: Option<ScreenshotContent>): (r: string)
    ensures value.None? ==> r == []
    ensures value.Some? ==> r == value.value.fileUrl
  {
    match value
    case None => ""
    case Some(content) => content.fileUrl
  }

  /** The field shows back exactly what was typed into it. */
  lemma DisplayRoundTrip(url: string)
    ensures DisplayedUrl(Some(ScreenshotOf(url))) == url
  {
  }

  /** The segment after the last `/` is the text following it, whatever
      comes before. */
  lemma LastSegmentAfterSlash(a: string, b: string)
    requires '/' !in b
    ensures LastSegment(a + "/" + b) == b
  {
    var s := a + "/" + b;
    var r := LastSegment(s);
    assert s[|a|] == '/';
    if |r| != |b| {
      assert false;
    }
  }

  /** An address without `/` is its own last segment. */
  lemma LastSegmentWhole(url: string)
    requires '/' !in url
    ensures LastSegment(url) == url
  {
    var r := LastSegment(url);
    if |r| < |url| {
      assert false;
    }
  }

  /** The file name of an address ending in a non-empty segment is that
      segment. */
  lemma FileNameIsSegment(a: string, b: string)
    requires '/' !in b && b != []
    ensures ScreenshotOf(a + "/" + b).fileName == b
  {
    LastSegmentAfterSlash(a, b);
  }

  /** An address ending in `/` falls back to the default name. */
  lemma TrailingSlashFallsBack(a: string)
    ensures ScreenshotOf(a + "/").fileName == DefaultFileName
  {
    var s := a + "/";
    assert s[|s| - 1] == '/';
  }
}
