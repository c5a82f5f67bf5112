/**
 * The story redirect: the first match of `/"url"\s*:\s*"(\\\/story\.php\?[^"]+)"/` in the
 * first page names a canonical story page, which is fetched instead.
 */
module Story {
  import opened Wrappers
  import opened Text

  const UrlKey: string := "\"url\""
  /** The escaped path that opens a story location in the page's JSON: `\/story.php?`. */
  const StoryPath: string := "\\/story.php?"
  const Origin: string := "https://www.facebook.com"

  /** The expression's capture when it matches at index `p`, and `None` when it does not. */
  function CaptureAt(html: string, p: nat): (r: Option<string>)
    ensures r.Some? ==> |r.value| > |StoryPath| && r.value[..|StoryPath|] == StoryPath
    ensures r.Some? ==> '"' !in r.value
  {
    if !OccursAt(html, UrlKey, p) then None
    else
      var colon := SkipSpaces(html, p + |UrlKey|);
      if colon == |html| || html[colon] != ':' then None
      else
        var quote := SkipSpaces(html, colon + 1);
        if quote == |html| || html[quote] != '"' then None
        else if !OccursAt(html, StoryPath, quote + 1) then None
        else
          var tail := quote + 1 + |StoryPath|;
          var e := IndexOf(html, "\"", tail);
          if e < 0 || e == tail then None
          else
            CaptureShape(html, quote, e);
            Some(html[quote + 1..e])
  }

  /** The text between the opening quote and the next quote is a story path without quotes. */
  lemma CaptureShape(html: string, quote: nat, e: nat)
    requires OccursAt(html, StoryPath, quote + 1)
    requires IndexOf(html, "\"", quote + 1 + |StoryPath|) == e && e > quote + 1 + |StoryPath|
    ensures |html[quote + 1..e]| > |StoryPath| && html[quote + 1..e][..|StoryPath|] == StoryPath
    ensures '"' !in html[quote + 1..e]
  {
    var tail := quote + 1 + |StoryPath|;
    var c := html[quote + 1..e];
    assert c[..|StoryPath|] == html[quote + 1..tail];
    IndexOfIsFirst(html, "\"", tail);
    forall k | 0 <= k < |c|
      ensures c[k] != '"'
    {
      if k < |StoryPath| {
        assert c[k] == StoryPath[k];
      } else {
        var j := quote + 1 + k;
        assert !OccursAt(html, "\"", j);
        assert html[j..j + 1] == [html[j]];
      }
    }
  }

  /** `html.match(storyUrlRegex)`: the capture of the leftmost match at or after `from`. */
  function FindStory(html: string, from: nat): (r: Option<string>)
    ensures r.Some? ==> exists p :: from <= p <= |html| && CaptureAt(html, p) == r && forall q :: from <= q < p ==> CaptureAt(html, q).None?
    ensures r.Some? ==> |r.value| > |StoryPath| && r.value[..|StoryPath|] == StoryPath && '"' !in r.value
    ensures r.None? ==> forall p :: from <= p <= |html| ==> CaptureAt(html, p).None?
    decreases |html| - from
  {
    if from > |html| then None
    else if CaptureAt(html, from).Some? then CaptureAt(html, from)
    else FindStory(html, from + 1)
  }

  /** The resolved address: `\/` unescaped to `/`, with the origin in front. */
  function StoryUrl(capture: string): string {
    Origin + ReplaceAll(capture, "\\/", "/")
  }

  lemma PathLiterals()
    ensures "/" + "story.php?" == "/story.php?"
    ensures '"' !in Origin + "/story.php?"
  {
  }

  lemma ConcatAssoc(a: string, b: string, c: string)
    ensures a + (b + c) == (a + b) + c
  {
  }

  /** The rewrite of a capture starts with `/story.php?` and adds no `"`. */
  lemma StoryUrlOfCapture(c: string)
    requires |c| > |StoryPath| && c[..|StoryPath|] == StoryPath && '"' !in c
    ensures var url := StoryUrl(c);
      |url| > |Origin + "/story.php?"| && url[..|Origin + "/story.php?"|] == Origin + "/story.php?"
      && '"' !in url
  {
    var path := "story.php?";
    var rest := c[|StoryPath|..];
    assert c == "\\/" + (path + rest);
    ReplaceAllPlainHead(path, rest, "\\/", "/");
    assert ReplaceAll(c, "\\/", "/") == "/" + ReplaceAll(path + rest, "\\/", "/") by {
      assert c[..2] == "\\/";
    }
    var tail := ReplaceAll(rest, "\\/", "/");
    var head := Origin + "/story.php?";
    ConcatAssoc("/", path, tail);
    PathLiterals();
    ConcatAssoc(Origin, "/story.php?", tail);
    assert StoryUrl(c) == head + tail;
    assert (head + tail)[..|head|] == head;
    ReplaceAllChars(c, "\\/", "/");
    assert '"' !in Origin;
  }

  /**
   * A story address always points into the site's story pages and has no `"` in it,
   * whatever page it was found in.
   */
  lemma StoryUrlShape(html: string)
    requires FindStory(html, 0).Some?
    ensures var url := StoryUrl(FindStory(html, 0).value);
      |url| > |Origin + "/story.php?"| && url[..|Origin + "/story.php?"|] == Origin + "/story.php?"
      && '"' !in url
  {
    StoryUrlOfCapture(FindStory(html, 0).value);
  }

  /** The page the rest of the pipeline reads: the story page when there is one, else the first. */
  function ResolvePage(first: string, fetch: string -> Result<string, string>): Result<string, string> {
    match FindStory(first, 0)
    case Some(c) => fetch(StoryUrl(c))
    case None => Success(first)
  }
}
