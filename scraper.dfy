/**
 * `scrape(url)`: fetches the page (or the story page it points to), harvests its embedded
 * JSON, walks every blob for image locations, picks an author, filters and unescapes the
 * locations, and reports every failure as one message prefixed with `Scrape Failed: `.
 */
module Scraper {
  import opened Wrappers
  import opened Text
  import opened JsonTree
  import opened Locator
  import opened Harvest
  import opened Story

  /** What can be thrown inside `scrape`, before the wrapping at its `catch`. */
  datatype Failure =
    | NoImages
      /** `json.author` read on a blob that parsed to `null`. */
    | PropertyOfNull(property: string)
      /** A method called on a candidate that does not have it (`uri.includes`, `uri.replace`). */
    | NotAFunction(callee: string)
      /** A failed `axios.get`, with the client's message. */
    | Transport(message: string)

  /** The `message` of the thrown error. */
  function Message(f: Failure): string {
    match f
    case NoImages => "No images found. Kemungkinan Private Post atau logic berubah."
    case PropertyOfNull(p) => "Cannot read properties of null (reading '" + p + "')"
    case NotAFunction(c) => c + " is not a function"
    case Transport(m) => m
  }

  const FailurePrefix: string := "Scrape Failed: "

  datatype Stats = Stats(likes: int, comments: int, shares: int)

  /** The returned `result`; `author` holds whatever truthy value `author.name` had. */
  datatype ScrapeResult = ScrapeResult(author: Json, stats: Stats, images: seq<string>)

  const Unknown: Json := Str("Unknown")

  // ---------------------------------------------------------------------------
  // The author

  /** `json.author && json.author.name`, when that is truthy. */
  function AuthorName(blob: Json): (r: Option<Json>)
    ensures r.Some? ==> Truthy(r.value)
  {
    match Get(blob, "author")
    case Some(a) =>
      if !Truthy(a) then None
      else (match Get(a, "name")
        case Some(n) => if Truthy(n) then Some(n) else None
        case None => None)
    case None => None
  }

  /** `!result.author || result.author === 'Unknown'`: the author may still change. */
  predicate Unresolved(author: Json) {
    !Truthy(author) || author == Unknown
  }

  /** The author after one blob; reading `author` off a `null` blob throws. */
  function NextAuthor(author: Json, blob: Json): Result<Json, Failure> {
    if !Unresolved(author) then Success(author)
    else if blob.Null? then Failure(PropertyOfNull("author"))
    else
      match AuthorName(blob)
      case Some(n) => Success(n)
      case None => Success(author)
  }

  /** The state the `forEach` builds: the author so far and the set's insertion order. */
  datatype Gathered = Gathered(author: Json, candidates: seq<Json>)

  /** The `forEach` over the blobs: the author step, then the walk, blob by blob. */
  function Gather(blobs: seq<Json>, g: Gathered): Result<Gathered, Failure> {
    if blobs == [] then Success(g)
    else
      match NextAuthor(g.author, blobs[0])
      case Failure(f) => Failure(f)
      case Success(a) => Gather(blobs[1..], Gathered(a, Walk(blobs[0], g.candidates)))
  }

  // ---------------------------------------------------------------------------
  // Filtering and unescaping

  /** A low-resolution or placeholder marker occurs in `u`. */
  predicate HasThumbnailMarker(u: string) {
    Contains(u, "_s64x64") || Contains(u, "_s48x48") || Contains(u, "cp0") || Contains(u, "p50x50")
  }

  /**
   * The filter callback. A string is searched for the markers; an array has its own
   * `includes`, which looks for the markers among its elements; any other value has no
   * `includes` and the call throws.
   */
  function Keeps(c: Json): Result<bool, Failure> {
    match c
    case Str(u) => Success(!HasThumbnailMarker(u))
    case Arr(xs) => Success(Str("_s64x64") !in xs && Str("_s48x48") !in xs && Str("cp0") !in xs && Str("p50x50") !in xs)
    case _ => Failure(NotAFunction("uri.includes"))
  }

  /** `xs` is `ys` with some elements left out, the rest in their order. */
  ghost predicate IsSubsequence(xs: seq<Json>, ys: seq<Json>)
    decreases |ys|
  {
    if xs == [] then true
    else if ys == [] then false
    else (xs[0] == ys[0] && IsSubsequence(xs[1..], ys[1..])) || IsSubsequence(xs, ys[1..])
  }

  /** `Array.prototype.filter` with `Keeps`: the first throwing call ends it. */
  function FilterCandidates(cs: seq<Json>): (r: Result<seq<Json>, Failure>)
    ensures r.Success? <==> forall i :: 0 <= i < |cs| ==> Keeps(cs[i]).Success?
    ensures r.Failure? ==> exists i :: 0 <= i < |cs| && Keeps(cs[i]) == Failure(r.error)
    ensures r.Success? ==> forall x :: x in r.value <==> x in cs && Keeps(x) == Success(true)
    ensures r.Success? ==> IsSubsequence(r.value, cs)
  {
    if cs == [] then Success([])
    else
      match Keeps(cs[0])
      case Failure(f) => Failure(f)
      case Success(keep) =>
        var rest := FilterCandidates(cs[1..]);
        assert forall i :: 1 <= i < |cs| ==> cs[i] == cs[1..][i - 1];
        match rest
        case Failure(f) => Failure(f)
        case Success(vs) =>
          if keep then
            assert ([cs[0]] + vs)[0] == cs[0] && ([cs[0]] + vs)[1..] == vs;
            Success([cs[0]] + vs)
          else
            assert vs != [] ==> IsSubsequence(vs, cs[1..]);
            Success(vs)
  }

  /** `.replace(/\\u0025/g, '%').replace(/\\/g, '')`: the percent escape first, then every backslash. */
  function Unescape(u: string): (r: string)
    ensures '\\' !in r
  {
    DeleteAll(ReplaceAll(u, "\\u0025", "%"), '\\')
  }

  /** `Array.prototype.map` with `Unescape`: only strings have `replace`. */
  function UnescapeAll(cs: seq<Json>): (r: Result<seq<string>, Failure>)
    ensures r.Success? <==> forall i :: 0 <= i < |cs| ==> cs[i].Str?
    ensures r.Success? ==> |r.value| == |cs| && forall i :: 0 <= i < |cs| ==> r.value[i] == Unescape(cs[i].s)
    ensures r.Failure? ==> r.error == NotAFunction("uri.replace")
  {
    if cs == [] then Success([])
    else if !cs[0].Str? then Failure(NotAFunction("uri.replace"))
    else
      match UnescapeAll(cs[1..])
      case Failure(f) => Failure(f)
      case Success(us) => Success([Unescape(cs[0].s)] + us)
  }

  /** Lines 103-116: filter, unescape, refuse an empty list, return the result. */
  function Finish(g: Gathered): Result<ScrapeResult, Failure> {
    match FilterCandidates(g.candidates)
    case Failure(f) => Failure(f)
    case Success(kept) =>
      match UnescapeAll(kept)
      case Failure(f) => Failure(f)
      case Success(images) =>
        if images == [] then Failure(NoImages)
        else Success(ScrapeResult(g.author, Stats(0, 0, 0), images))
  }

  /** Everything `scrape` does once the blobs are harvested. */
  function Aggregated(blobs: seq<Json>): Result<ScrapeResult, Failure> {
    match Gather(blobs, Gathered(Unknown, []))
    case Failure(f) => Failure(f)
    case Success(g) => Finish(g)
  }

  // ---------------------------------------------------------------------------
  // The whole call

  /**
   * The body of the `try`: the first fetch, the optional story fetch, the harvest and the
   * aggregation. `fetch` stands for `axios.get(...).data`, or the error's message.
   */
  function Pipeline(url: string, fetch: string -> Result<string, string>, parse: string -> Option<Json>): Result<ScrapeResult, Failure> {
    match fetch(url)
    case Failure(m) => Failure(Transport(m))
    case Success(first) =>
      match ResolvePage(first, fetch)
      case Failure(m) => Failure(Transport(m))
      case Success(page) => Aggregated(Harvested(page, parse))
  }

  /** `scrape(url)`: the pipeline, with every failure rethrown as `Scrape Failed: <message>`. */
  function Scraped(url: string, fetch: string -> Result<string, string>, parse: string -> Option<Json>): Result<ScrapeResult, string> {
    match Pipeline(url, fetch, parse)
    case Success(r) => Success(r)
    case Failure(f) => Failure(FailurePrefix + Message(f))
  }

  function Prepend<T>(xs: seq<T>, r: Result<seq<T>, Failure>): Result<seq<T>, Failure> {
    match r
    case Success(ys) => Success(xs + ys)
    case Failure(f) => Failure(f)
  }

  lemma PrependNil<T>(r: Result<seq<T>, Failure>)
    ensures Prepend([], r) == r
  {
    if r.Success? {
      assert [] + r.value == r.value;
    }
  }

  lemma PrependConcat<T>(xs: seq<T>, ys: seq<T>, r: Result<seq<T>, Failure>)
    ensures Prepend(xs, Prepend(ys, r)) == Prepend(xs + ys, r)
  {
    if r.Success? {
      assert xs + (ys + r.value) == (xs + ys) + r.value;
    }
  }

  /** One call of the filter callback. */
  lemma FilterStep(cs: seq<Json>)
    requires cs != [] && Keeps(cs[0]).Success?
    ensures FilterCandidates(cs) == Prepend(if Keeps(cs[0]).value then [cs[0]] else [], FilterCandidates(cs[1..]))
  {
    if !Keeps(cs[0]).value {
      PrependNil(FilterCandidates(cs[1..]));
    }
  }

  /** The `forEach` at lines 93-101, with `result.author` and the shared `Set` updated in place. */
  method GatherBlobs(blobs: seq<Json>) returns (r: Result<Gathered, Failure>)
    ensures r == Gather(blobs, Gathered(Unknown, []))
  {
    var author := Unknown;
    var imageSet := new ImageSet();
    var i := 0;
    while i < |blobs|
      invariant 0 <= i <= |blobs|
      invariant imageSet.Valid()
      invariant Gather(blobs[i..], Gathered(author, imageSet.items)) == Gather(blobs, Gathered(Unknown, []))
    {
      var json := blobs[i];
      assert blobs[i..][0] == json && blobs[i..][1..] == blobs[i + 1..];
      if !Truthy(author) || author == Unknown {
        if json.Null? {
          return Failure(PropertyOfNull("author"));
        }
        var name := AuthorName(json);
        if name.Some? {
          author := name.value;
        }
      }
      FindImagesRecursive(json, imageSet);
      i := i + 1;
    }
    assert blobs[i..] == [];
    return Success(Gathered(author, imageSet.items));
  }

  /** The `filter` at lines 103-109, one candidate at a time. */
  method FilterEach(candidates: seq<Json>) returns (r: Result<seq<Json>, Failure>)
    ensures r == FilterCandidates(candidates)
  {
    var kept: seq<Json> := [];
    var k := 0;
    assert candidates[k..] == candidates;
    PrependNil(FilterCandidates(candidates));
    while k < |candidates|
      invariant 0 <= k <= |candidates|
      invariant FilterCandidates(candidates) == Prepend(kept, FilterCandidates(candidates[k..]))
    {
      var uri := candidates[k];
      assert candidates[k..][0] == uri && candidates[k..][1..] == candidates[k + 1..];
      var keep := Keeps(uri);
      if keep.Failure? {
        return Failure(keep.error);
      }
      FilterStep(candidates[k..]);
      if keep.value {
        PrependConcat(kept, [uri], FilterCandidates(candidates[k + 1..]));
        kept := kept + [uri];
      } else {
        PrependConcat(kept, [], FilterCandidates(candidates[k + 1..]));
        assert kept + [] == kept;
      }
      k := k + 1;
    }
    assert candidates[k..] == [];
    assert kept + [] == kept;
    return Success(kept);
  }

  /** The `map` at line 110, one candidate at a time. */
  method UnescapeEach(kept: seq<Json>) returns (r: Result<seq<string>, Failure>)
    ensures r == UnescapeAll(kept)
  {
    var images: seq<string> := [];
    var n := 0;
    assert kept[n..] == kept;
    PrependNil(UnescapeAll(kept));
    while n < |kept|
      invariant 0 <= n <= |kept|
      invariant UnescapeAll(kept) == Prepend(images, UnescapeAll(kept[n..]))
    {
      var uri := kept[n];
      assert kept[n..][0] == uri && kept[n..][1..] == kept[n + 1..];
      if !uri.Str? {
        return Failure(NotAFunction("uri.replace"));
      }
      PrependConcat(images, [Unescape(uri.s)], UnescapeAll(kept[n + 1..]));
      images := images + [Unescape(uri.s)];
      n := n + 1;
    }
    assert kept[n..] == [];
    assert images + [] == images;
    return Success(images);
  }

  /** Lines 85-116: gather, filter, unescape, and refuse an empty list. */
  method Aggregate(blobs: seq<Json>) returns (r: Result<ScrapeResult, Failure>)
    ensures r == Aggregated(blobs)
  {
    var gathered := GatherBlobs(blobs);
    if gathered.Failure? {
      return Failure(gathered.error);
    }
    var filtered := FilterEach(gathered.value.candidates);
    if filtered.Failure? {
      return Failure(filtered.error);
    }
    var images := UnescapeEach(filtered.value);
    if images.Failure? {
      return Failure(images.error);
    }
    if |images.value| == 0 {
      return Failure(NoImages);
    }
    return Success(ScrapeResult(gathered.value.author, Stats(0, 0, 0), images.value));
  }

  /** `scrape(url)` with its `try`/`catch`. */
  method Scrape(url: string, fetch: string -> Result<string, string>, parse: string -> Option<Json>)
    returns (r: Result<ScrapeResult, string>)
    ensures r == Scraped(url, fetch, parse)
  {
    var response := fetch(url);
    if response.Failure? {
      return Failure(FailurePrefix + Message(Transport(response.error)));
    }
    var html := response.value;
    var storyMatch := FindStory(html, 0);
    if storyMatch.Some? {
      var storyResp := fetch(StoryUrl(storyMatch.value));
      if storyResp.Failure? {
        return Failure(FailurePrefix + Message(Transport(storyResp.error)));
      }
      html := storyResp.value;
    }
    var jsonScripts := HarvestScripts(html, parse);
    var result := Aggregate(jsonScripts);
    match result
    case Failure(f) => r := Failure(FailurePrefix + Message(f));
    case Success(v) => r := Success(v);
  }

  // ---------------------------------------------------------------------------
  // The author is first-wins

  /** Blob `b` names an author that settles the choice. */
  predicate Names(b: Json) {
    AuthorName(b).Some? && AuthorName(b).value != Unknown
  }

  /** The reference choice: the name of the first blob that names an author, else `"Unknown"`. */
  function AuthorOf(blobs: seq<Json>): (r: Json)
    ensures r == Unknown <==> forall i :: 0 <= i < |blobs| ==> !Names(blobs[i])
    ensures r != Unknown ==>
      exists i :: 0 <= i < |blobs| && Names(blobs[i]) && AuthorName(blobs[i]) == Some(r) && forall k :: 0 <= k < i ==> !Names(blobs[k])
  {
    if blobs == [] then Unknown
    else if Names(blobs[0]) then AuthorName(blobs[0]).value
    else
      var r := AuthorOf(blobs[1..]);
      assert forall i :: 1 <= i < |blobs| ==> blobs[i] == blobs[1..][i - 1];
      if r != Unknown then
        var i :| 0 <= i < |blobs| - 1 && Names(blobs[1..][i]) && AuthorName(blobs[1..][i]) == Some(r)
          && forall k :: 0 <= k < i ==> !Names(blobs[1..][k]);
        assert forall k :: 0 <= k < i + 1 ==> !Names(blobs[k]) by {
          forall k | 0 <= k < i + 1 ensures !Names(blobs[k]) {
            if k > 0 { assert blobs[k] == blobs[1..][k - 1]; }
          }
        }
        r
      else r
  }

  /** A `null` blob comes before any blob that names an author: reading `author` throws. */
  ghost predicate NullBeforeName(blobs: seq<Json>) {
    exists i :: 0 <= i < |blobs| && blobs[i].Null? && forall k :: 0 <= k < i ==> !Names(blobs[k])
  }

  /** Every blob walked in order into one set. */
  function WalkAll(blobs: seq<Json>, acc: seq<Json>): seq<Json> {
    if blobs == [] then acc else WalkAll(blobs[1..], Walk(blobs[0], acc))
  }

  /** The candidate set after all blobs: a duplicate-free extension holding what each blob yields. */
  lemma {:induction false} WalkAllFinds(blobs: seq<Json>, acc: seq<Json>)
    ensures |acc| <= |WalkAll(blobs, acc)| && WalkAll(blobs, acc)[..|acc|] == acc
    ensures Distinct(acc) ==> Distinct(WalkAll(blobs, acc))
    ensures forall x :: x in WalkAll(blobs, acc) <==> x in acc || exists i :: 0 <= i < |blobs| && x in Collect(blobs[i])
  {
    if blobs != [] {
      var next := Walk(blobs[0], acc);
      WalkExtends(blobs[0], acc);
      WalkAllFinds(blobs[1..], next);
      assert WalkAll(blobs, acc)[..|next|] == next;
      assert next[..|acc|] == acc;
      forall x
        ensures x in WalkAll(blobs, acc) <==> x in acc || exists i :: 0 <= i < |blobs| && x in Collect(blobs[i])
      {
        if exists i :: 0 <= i < |blobs| - 1 && x in Collect(blobs[1..][i]) {
          var i :| 0 <= i < |blobs| - 1 && x in Collect(blobs[1..][i]);
          assert blobs[1..][i] == blobs[i + 1];
        }
        if exists i :: 0 <= i < |blobs| && x in Collect(blobs[i]) {
          var i :| 0 <= i < |blobs| && x in Collect(blobs[i]);
          if i > 0 {
            assert blobs[1..][i - 1] == blobs[i];
          }
        }
      }
    }
  }

  /** Once the author is resolved no later blob changes it, and no later blob can throw. */
  lemma {:induction false} ResolvedAuthorStays(blobs: seq<Json>, a: Json, acc: seq<Json>)
    requires !Unresolved(a)
    ensures Gather(blobs, Gathered(a, acc)) == Success(Gathered(a, WalkAll(blobs, acc)))
  {
    if blobs != [] {
      ResolvedAuthorStays(blobs[1..], a, Walk(blobs[0], acc));
    }
  }

  /**
   * The `forEach` throws exactly when a `null` blob comes before the first blob naming an
   * author; otherwise the author is the first such name (or `"Unknown"`) and the set holds
   * every blob's walk, in order.
   */
  lemma {:induction false} GatherOutcome(blobs: seq<Json>, acc: seq<Json>)
    ensures Gather(blobs, Gathered(Unknown, acc))
         == if NullBeforeName(blobs) then Failure(PropertyOfNull("author"))
            else Success(Gathered(AuthorOf(blobs), WalkAll(blobs, acc)))
  {
    if blobs == [] {
      return;
    }
    var b := blobs[0];
    if b.Null? {
      assert NullBeforeName(blobs) by {
        assert blobs[0].Null?;
      }
    } else if Names(b) {
      var n := AuthorName(b).value;
      ResolvedAuthorStays(blobs[1..], n, Walk(b, acc));
      assert !NullBeforeName(blobs) by {
        forall i | 0 <= i < |blobs| && blobs[i].Null?
          ensures exists k :: 0 <= k < i && Names(blobs[k])
        {
          assert i != 0;
          assert Names(blobs[0]);
        }
      }
    } else {
      assert NextAuthor(Unknown, b) == Success(Unknown);
      GatherOutcome(blobs[1..], Walk(b, acc));
      assert NullBeforeName(blobs) <==> NullBeforeName(blobs[1..]) by {
        if NullBeforeName(blobs) {
          var i :| 0 <= i < |blobs| && blobs[i].Null? && forall k :: 0 <= k < i ==> !Names(blobs[k]);
          assert i > 0;
          assert blobs[1..][i - 1].Null?;
          assert forall k :: 0 <= k < i - 1 ==> !Names(blobs[1..][k]) by {
            forall k | 0 <= k < i - 1 ensures !Names(blobs[1..][k]) {
              assert blobs[1..][k] == blobs[k + 1];
            }
          }
        }
        if NullBeforeName(blobs[1..]) {
          var i :| 0 <= i < |blobs| - 1 && blobs[1..][i].Null? && forall k :: 0 <= k < i ==> !Names(blobs[1..][k]);
          assert blobs[i + 1].Null?;
          assert forall k :: 0 <= k < i + 1 ==> !Names(blobs[k]) by {
            forall k | 0 <= k < i + 1 ensures !Names(blobs[k]) {
              if k > 0 { assert blobs[k] == blobs[1..][k - 1]; }
            }
          }
        }
      }
    }
  }

  // ---------------------------------------------------------------------------
  // What a call returns

  /** The candidates every blob contributes, in the order they were first found. */
  function Candidates(blobs: seq<Json>): seq<Json> {
    WalkAll(blobs, [])
  }

  /**
   * `images` are, in order, the unescaped forms of `kept`, and `kept` is the subsequence of
   * `cs` made of exactly its string candidates without a thumbnail marker.
   */
  ghost predicate ImagesOf(kept: seq<Json>, cs: seq<Json>, images: seq<string>) {
    && IsSubsequence(kept, cs)
    && (forall x :: x in kept <==> x in cs && x.Str? && !HasThumbnailMarker(x.s))
    && |kept| == |images|
    && forall i :: 0 <= i < |kept| ==> kept[i].Str? && !HasThumbnailMarker(kept[i].s) && images[i] == Unescape(kept[i].s)
  }

  /**
   * A successful aggregation names the first author, leaves the stats at zero, and lists at
   * least one image. The images are, in order, the unescaped forms of the string candidates
   * whose raw text carries no thumbnail marker; none of them has a backslash.
   */
  lemma SuccessShape(blobs: seq<Json>)
    requires Aggregated(blobs).Success?
    ensures var res := Aggregated(blobs).value;
      && res.author == AuthorOf(blobs)
      && res.stats == Stats(0, 0, 0)
      && res.images != []
      && (forall i :: 0 <= i < |res.images| ==> '\\' !in res.images[i])
      && exists kept: seq<Json> :: ImagesOf(kept, Candidates(blobs), res.images)
    ensures forall x :: x in Candidates(blobs) && x.Str? && !HasThumbnailMarker(x.s) ==> Unescape(x.s) in Aggregated(blobs).value.images
    ensures Distinct(Candidates(blobs))
  {
    WalkAllFinds(blobs, []);
    AggregatedSuccess(blobs);
    var kept := FilterCandidates(Candidates(blobs)).value;
    KeptExactly(Candidates(blobs), kept);
    SuccessComplete(blobs, kept);
    assert ImagesOf(kept, Candidates(blobs), Aggregated(blobs).value.images);
  }

  /** A successful aggregation is the filter's strings, unescaped, under the first author. */
  lemma AggregatedSuccess(blobs: seq<Json>)
    requires Aggregated(blobs).Success?
    ensures !NullBeforeName(blobs) && FilterCandidates(Candidates(blobs)).Success?
    ensures var kept := FilterCandidates(Candidates(blobs)).value;
      && UnescapeAll(kept).Success? && UnescapeAll(kept).value != []
      && Aggregated(blobs) == Success(ScrapeResult(AuthorOf(blobs), Stats(0, 0, 0), UnescapeAll(kept).value))
  {
    GatherOutcome(blobs, []);
  }

  /** On success the filter keeps exactly the candidates that are strings without a marker. */
  lemma KeptExactly(cs: seq<Json>, kept: seq<Json>)
    requires FilterCandidates(cs) == Success(kept)
    requires forall i :: 0 <= i < |kept| ==> kept[i].Str?
    ensures forall i :: 0 <= i < |kept| ==> kept[i].Str? && !HasThumbnailMarker(kept[i].s)
    ensures forall x :: x in kept <==> x in cs && x.Str? && !HasThumbnailMarker(x.s)
  {
    forall x | x in kept
      ensures x.Str? && !HasThumbnailMarker(x.s)
    {
      var i :| 0 <= i < |kept| && kept[i] == x;
      assert Keeps(x) == Success(true);
    }
  }


  /** Every string candidate without a marker comes out, unescaped, among the images. */
  lemma SuccessComplete(blobs: seq<Json>, kept: seq<Json>)
    requires !NullBeforeName(blobs)
    requires FilterCandidates(Candidates(blobs)) == Success(kept)
    requires UnescapeAll(kept).Success? && Aggregated(blobs) == Success(ScrapeResult(AuthorOf(blobs), Stats(0, 0, 0), UnescapeAll(kept).value))
    ensures forall x :: x in Candidates(blobs) && x.Str? && !HasThumbnailMarker(x.s) ==> Unescape(x.s) in Aggregated(blobs).value.images
  {
    var images := UnescapeAll(kept).value;
    forall x | x in Candidates(blobs) && x.Str? && !HasThumbnailMarker(x.s)
      ensures Unescape(x.s) in images
    {
      assert Keeps(x) == Success(true);
      var i :| 0 <= i < |kept| && kept[i] == x;
      assert images[i] == Unescape(x.s);
    }
  }

  /**
   * The three ways aggregation fails: a `null` blob before any author (`author` of null),
   * a candidate that is not a string (`includes` or `replace` is not a function), or
   * nothing left after filtering. With only string candidates the second cannot happen.
   */
  lemma FailureKinds(blobs: seq<Json>)
    ensures Aggregated(blobs) == Failure(PropertyOfNull("author")) <==> NullBeforeName(blobs)
    ensures Aggregated(blobs) == Failure(NoImages) <==> !NullBeforeName(blobs) && FilterCandidates(Candidates(blobs)) == Success([])
    ensures Aggregated(blobs).Failure? && Aggregated(blobs).error.NotAFunction? ==>
      !NullBeforeName(blobs) && exists x :: x in Candidates(blobs) && !x.Str?
    ensures Aggregated(blobs) == Failure(NotAFunction("uri.includes")) <==>
      !NullBeforeName(blobs) && exists x :: x in Candidates(blobs) && Keeps(x).Failure?
    ensures Aggregated(blobs) == Failure(NotAFunction("uri.replace")) <==>
      && !NullBeforeName(blobs)
      && FilterCandidates(Candidates(blobs)).Success?
      && exists x :: x in FilterCandidates(Candidates(blobs)).value && x.Arr?
    ensures Aggregated(blobs).Failure? ==>
      Aggregated(blobs).error in {PropertyOfNull("author"), NotAFunction("uri.includes"), NotAFunction("uri.replace"), NoImages}
  {
    GatherOutcome(blobs, []);
    IncludesFailure(blobs);
    ReplaceFailure(blobs);
    if !NullBeforeName(blobs) {
      var cs := Candidates(blobs);
      match FilterCandidates(cs)
      case Failure(f) =>
        var i :| 0 <= i < |cs| && Keeps(cs[i]) == Failure(f);
        assert cs[i] in cs && !cs[i].Str?;
      case Success(kept) =>
        if UnescapeAll(kept).Failure? {
          var i :| 0 <= i < |kept| && !kept[i].Str?;
          assert kept[i] in kept;
        } else if kept != [] {
          assert |UnescapeAll(kept).value| == |kept|;
        }
    }
  }

  /** The filter throws exactly when some candidate has no `includes`: neither a string nor an array. */
  lemma IncludesFailure(blobs: seq<Json>)
    ensures Aggregated(blobs) == Failure(NotAFunction("uri.includes")) <==>
      !NullBeforeName(blobs) && exists x :: x in Candidates(blobs) && Keeps(x).Failure?
  {
    GatherOutcome(blobs, []);
    var cs := Candidates(blobs);
    if !NullBeforeName(blobs) {
      if exists x :: x in cs && Keeps(x).Failure? {
        var x :| x in cs && Keeps(x).Failure?;
        var i :| 0 <= i < |cs| && cs[i] == x;
        assert FilterCandidates(cs).Failure?;
        var j :| 0 <= j < |cs| && Keeps(cs[j]) == Failure(FilterCandidates(cs).error);
        assert FilterCandidates(cs).error == NotAFunction("uri.includes");
      } else {
        assert FilterCandidates(cs).Success? by {
          forall i | 0 <= i < |cs| ensures Keeps(cs[i]).Success? {
            assert cs[i] in cs;
          }
        }
      }
    }
  }

  /**
   * The map throws exactly when the filter succeeds and keeps an array: an array without a
   * marker passes the filter, and then has no `replace`.
   */
  lemma ReplaceFailure(blobs: seq<Json>)
    ensures Aggregated(blobs) == Failure(NotAFunction("uri.replace")) <==>
      && !NullBeforeName(blobs)
      && FilterCandidates(Candidates(blobs)).Success?
      && exists x :: x in FilterCandidates(Candidates(blobs)).value && x.Arr?
  {
    GatherOutcome(blobs, []);
    var cs := Candidates(blobs);
    if !NullBeforeName(blobs) && FilterCandidates(cs).Success? {
      var kept := FilterCandidates(cs).value;
      if exists x :: x in kept && x.Arr? {
        var x :| x in kept && x.Arr?;
        var i :| 0 <= i < |kept| && kept[i] == x;
        assert UnescapeAll(kept).Failure?;
      } else {
        forall i | 0 <= i < |kept|
          ensures kept[i].Str?
        {
          assert kept[i] in kept;
          assert Keeps(kept[i]) == Success(true);
        }
      }
    } else if !NullBeforeName(blobs) {
      var j :| 0 <= j < |cs| && Keeps(cs[j]) == Failure(FilterCandidates(cs).error);
    }
  }

  /** A page whose blobs yield nothing, for instance one whose only script does not parse, is a failure. */
  lemma NoBlobsNoImages(page: string, parse: string -> Option<Json>)
    requires Harvested(page, parse) == []
    ensures Aggregated(Harvested(page, parse)) == Failure(NoImages)
  {
  }

  /** Every failure reaches the caller as `Scrape Failed: ` followed by the thrown message. */
  lemma FailuresWrapped(url: string, fetch: string -> Result<string, string>, parse: string -> Option<Json>)
    ensures Scraped(url, fetch, parse).Failure? <==> Pipeline(url, fetch, parse).Failure?
    ensures Scraped(url, fetch, parse).Failure? ==>
      var e := Scraped(url, fetch, parse).error;
      |e| >= |FailurePrefix| && e[..|FailurePrefix|] == FailurePrefix
      && e[|FailurePrefix|..] == Message(Pipeline(url, fetch, parse).error)
    ensures Scraped(url, fetch, parse).Success? ==>
      Scraped(url, fetch, parse).value.images != [] && Scraped(url, fetch, parse).value.stats == Stats(0, 0, 0)
  {
    var p := Pipeline(url, fetch, parse);
    if p.Success? {
      var page := ResolvePage(fetch(url).value, fetch).value;
      SuccessShape(Harvested(page, parse));
    }
  }

  /**
   * When the first page points at a story, only the story page matters: two first pages
   * with the same story address give the same result, whatever else they contain.
   */
  lemma StoryPageSupersedes(url: string, fetch1: string -> Result<string, string>, fetch2: string -> Result<string, string>,
                            parse: string -> Option<Json>)
    requires fetch1(url).Success? && fetch2(url).Success?
    requires FindStory(fetch1(url).value, 0).Some?
    requires FindStory(fetch1(url).value, 0) == FindStory(fetch2(url).value, 0)
    requires fetch1(StoryUrl(FindStory(fetch1(url).value, 0).value)) == fetch2(StoryUrl(FindStory(fetch1(url).value, 0).value))
    ensures Scraped(url, fetch1, parse) == Scraped(url, fetch2, parse)
  {
  }

  /** Without a story address the first page is the one harvested. */
  lemma NoStoryKeepsFirstPage(url: string, fetch: string -> Result<string, string>, parse: string -> Option<Json>)
    requires fetch(url).Success? && FindStory(fetch(url).value, 0).None?
    ensures Pipeline(url, fetch, parse) == Aggregated(Harvested(fetch(url).value, parse))
  {
  }

  // ---------------------------------------------------------------------------
  // Escapes

  /** Unescaping twice changes nothing more: the first pass leaves no backslash. */
  lemma UnescapeIdempotent(u: string)
    ensures Unescape(Unescape(u)) == Unescape(u)
  {
    var v := Unescape(u);
    var pat := "\\u0025";
    assert pat[0] == '\\';
    ReplaceAllAbsent(v, pat, "%");
  }

  /**
   * The filter reads the raw text: `c\p0` carries no marker and is kept, yet unescapes to
   * `cp0`, which the filter would have dropped.
   */
  lemma FilterSeesRawText()
    ensures Keeps(Str("c\\p0")) == Success(true)
    ensures Unescape("c\\p0") == "cp0" && HasThumbnailMarker("cp0")
  {
    RawTextUnmarked();
    RawTextUnescaped();
    assert OccursAt("cp0", "cp0", 0);
  }

  lemma RawTextUnmarked()
    ensures !HasThumbnailMarker("c\\p0")
  {
    var raw := "c\\p0";
    MissingChar(raw, "_s64x64", '_');
    MissingChar(raw, "_s48x48", '_');
    MissingChar(raw, "p50x50", '5');
    forall i
      ensures !OccursAt(raw, "cp0", i)
    {
      if i == 0 {
        assert raw[i..i + 3][1] == '\\';
      } else if i == 1 {
        assert raw[i..i + 3][0] == '\\';
      }
    }
  }

  lemma RawTextUnescaped()
    ensures Unescape("c\\p0") == "cp0"
  {
    var raw := "c\\p0";
    assert ReplaceAll(raw, "\\u0025", "%") == raw;
    assert raw[1..][0] == '\\';
    assert DeleteAll(raw[2..], '\\') == raw[2..];
  }

  /**
   * Duplicates are removed before unescaping only: `a\/b` and `a/b` are two candidates,
   * and both come out as `a/b`.
   */
  lemma DuplicatesAfterUnescape()
    ensures Str("a\\/b") != Str("a/b")
    ensures UnescapeAll([Str("a\\/b"), Str("a/b")]) == Success(["a/b", "a/b"])
  {
    var escaped := "a\\/b";
    assert escaped[1] != "a/b"[1];
    assert ReplaceAll(escaped, "\\u0025", "%") == escaped by {
      assert |escaped| < |"\\u0025"|;
    }
    assert DeleteAll(escaped, '\\') == "a/b" by {
      assert escaped[1..][0] == '\\';
      assert DeleteAll(escaped[2..], '\\') == escaped[2..];
    }
    assert Unescape(escaped) == "a/b";
    assert Unescape("a/b") == "a/b";
    var cs := [Str(escaped), Str("a/b")];
    assert cs[1..] == [Str("a/b")] && cs[1..][1..] == [];
    assert UnescapeAll(cs[1..][1..]) == Success([]);
    assert cs[1..][0].s == "a/b";
    assert UnescapeAll(cs[1..]) == Success([Unescape("a/b")] + []);
    assert [Unescape("a/b")] + [] == ["a/b"];
    assert UnescapeAll(cs[1..]) == Success(["a/b"]);
    assert cs[0].s == escaped && cs[0].Str?;
    assert UnescapeAll(cs) == Success([Unescape(escaped)] + ["a/b"]);
    assert ["a/b"] + ["a/b"] == ["a/b", "a/b"];
  }

  /**
   * The percent escape is resolved before backslashes are stripped:
   * `https:\/\/scontent\/img.jpg% 20` becomes `https://scontent/img.jpg% 20`, where
   * stripping first would have left `u0025` behind.
   */
  lemma EscapeOrderExample()
    ensures Unescape("https:\\/\\/scontent\\/img.jpg\\u0025 20") == "https://scontent/img.jpg% 20"
    ensures DeleteAll("https:\\/\\/scontent\\/img.jpg\\u0025 20", '\\') == "https://scontent/img.jpgu0025 20"
  {
    InputLiteral();
    OutputLiteral();
    NaiveLiteral();
    PercentFirst();
    StripAfter();
    StripFirst();
  }

  lemma PercentFirst()
    ensures ReplaceAll("https:" + ("\\/" + ("\\/" + ("scontent" + ("\\/" + ("img.jpg" + ("\\u0025" + " 20")))))), "\\u0025", "%")
         == "https:" + ("\\/" + ("\\/" + ("scontent" + ("\\/" + ("img.jpg" + ("%" + " 20"))))))
  {
    var pct := "\\u0025";
    var sl := "\\/";
    var r1 := pct + " 20";
    var r2 := "img.jpg" + r1;
    var r3 := sl + r2;
    var r4 := "scontent" + r3;
    var r5 := sl + r4;
    var r6 := sl + r5;
    ReplaceAllMatchHead(" 20", pct, "%");
    ReplaceAllPlainHead("img.jpg", r1, pct, "%");
    ReplaceAllBrokenHead(sl, r2, pct, "%");
    ReplaceAllPlainHead("scontent", r3, pct, "%");
    ReplaceAllBrokenHead(sl, r4, pct, "%");
    ReplaceAllBrokenHead(sl, r5, pct, "%");
    ReplaceAllPlainHead("https:", r6, pct, "%");
  }

  lemma StripAfter()
    ensures DeleteAll("https:" + ("\\/" + ("\\/" + ("scontent" + ("\\/" + ("img.jpg" + ("%" + " 20")))))), '\\')
         == "https:" + ("/" + ("/" + ("scontent" + ("/" + ("img.jpg" + ("%" + " 20"))))))
  {
    var sl := "\\/";
    var e2 := "scontent" + (sl + ("img.jpg" + ("%" + " 20")));
    var e3 := sl + e2;
    var e4 := sl + e3;
    StripAfterTail();
    DeleteSlashThen(e2);
    DeleteSlashThen(e3);
    DeletePlainThen("https:", e4);
  }

  lemma StripAfterTail()
    ensures DeleteAll("scontent" + ("\\/" + ("img.jpg" + ("%" + " 20"))), '\\')
         == "scontent" + ("/" + ("img.jpg" + ("%" + " 20")))
  {
    var sl := "\\/";
    var e1 := sl + ("img.jpg" + ("%" + " 20"));
    DeletePlainThen("%", " 20");
    DeletePlainThen("img.jpg", "%" + " 20");
    DeleteSlashThen("img.jpg" + ("%" + " 20"));
    DeletePlainThen("scontent", e1);
  }

  lemma StripFirst()
    ensures DeleteAll("https:" + ("\\/" + ("\\/" + ("scontent" + ("\\/" + ("img.jpg" + ("\\u0025" + " 20")))))), '\\')
         == "https:" + ("/" + ("/" + ("scontent" + ("/" + ("img.jpg" + ("u0025" + " 20"))))))
  {
    var sl := "\\/";
    var e3 := "scontent" + (sl + ("img.jpg" + ("\\u0025" + " 20")));
    var e4 := sl + e3;
    var e5 := sl + e4;
    StripFirstTail();
    DeleteSlashThen(e3);
    DeleteSlashThen(e4);
    DeletePlainThen("https:", e5);
  }

  lemma StripFirstTail()
    ensures DeleteAll("scontent" + ("\\/" + ("img.jpg" + ("\\u0025" + " 20"))), '\\')
         == "scontent" + ("/" + ("img.jpg" + ("u0025" + " 20")))
  {
    var sl := "\\/";
    var e0 := "\\u0025" + " 20";
    assert e0 == "\\" + ("u0025" + " 20");
    DeleteBackslashThen("u0025" + " 20");
    DeletePlainThen("u0025", " 20");
    DeletePlainThen(" 20", "");
    var e1 := "img.jpg" + e0;
    var e2 := sl + e1;
    DeletePlainThen("img.jpg", e0);
    DeleteSlashThen(e1);
    DeletePlainThen("scontent", e2);
  }

  lemma InputLiteral()
    ensures "https:" + ("\\/" + ("\\/" + ("scontent" + ("\\/" + ("img.jpg" + ("\\u0025" + " 20"))))))
         == "https:\\/\\/scontent\\/img.jpg\\u0025 20"
  {
  }

  lemma OutputLiteral()
    ensures "https:" + ("/" + ("/" + ("scontent" + ("/" + ("img.jpg" + ("%" + " 20"))))))
         == "https://scontent/img.jpg% 20"
  {
  }

  lemma NaiveLiteral()
    ensures "https:" + ("/" + ("/" + ("scontent" + ("/" + ("img.jpg" + ("u0025" + " 20"))))))
         == "https://scontent/img.jpgu0025 20"
  {
  }

  lemma DeleteSlashThen(rest: string)
    ensures DeleteAll("\\/" + rest, '\\') == "/" + DeleteAll(rest, '\\')
  {
    var s := "\\/" + rest;
    assert s[0] == '\\' && s[1..] == "/" + rest;
    assert ("/" + rest)[0] == '/' && ("/" + rest)[1..] == rest;
  }

  lemma DeleteBackslashThen(rest: string)
    ensures DeleteAll("\\" + rest, '\\') == DeleteAll(rest, '\\')
  {
    assert ("\\" + rest)[1..] == rest;
  }

  lemma DeletePlainThen(a: string, rest: string)
    requires '\\' !in a
    ensures DeleteAll(a + rest, '\\') == a + DeleteAll(rest, '\\')
  {
    DeleteAllConcat(a, rest, '\\');
  }

  // ---------------------------------------------------------------------------
  // A page with one usable blob

  /** `{name: "Jane"}` */
  const JaneNode: Json := Obj([("name", Str("Jane"))])
  /** `{author: {name: "Jane"}, image: {uri: "https://scontent.cdn/x.jpg"}}` */
  const JaneBlob: Json := Obj([("author", JaneNode), ("image", HostedNode)])

  lemma WalkJaneBlob()
    ensures Walk(JaneBlob, []) == [Str(HostedUri)]
  {
    var one := [Str(HostedUri)];
    assert Get(JaneBlob, "uri") == None && Get(JaneBlob, "photo_image") == None;
    assert Get(JaneNode, "uri") == None && Get(JaneNode, "photo_image") == None;
    assert Children(JaneNode) == [Str("Jane")];
    assert WalkFrom(JaneNode, 1, []) == [];
    assert Walk(JaneNode, []) == [];
    assert Children(JaneBlob) == [JaneNode, HostedNode];
    WalkHostedNode([]);
    assert [] + one == one;
    assert WalkFrom(JaneBlob, 2, one) == one;
    assert WalkFrom(JaneBlob, 1, []) == one;
    assert WalkFrom(JaneBlob, 0, []) == one;
  }

  lemma HostedUriNoUnderscore()
    ensures !Contains(HostedUri, "_s64x64") && !Contains(HostedUri, "_s48x48")
  {
    assert '_' !in HostedUri;
    MissingChar(HostedUri, "_s64x64", '_');
    MissingChar(HostedUri, "_s48x48", '_');
  }

  lemma HostedUriNoCp0()
    ensures !Contains(HostedUri, "cp0")
  {
    assert '0' !in HostedUri;
    MissingChar(HostedUri, "cp0", '0');
  }

  lemma HostedUriNoP50()
    ensures !Contains(HostedUri, "p50x50")
  {
    assert '5' !in HostedUri;
    MissingChar(HostedUri, "p50x50", '5');
  }

  lemma HostedUriKept()
    ensures Keeps(Str(HostedUri)) == Success(true)
  {
    HostedUriNoUnderscore();
    HostedUriNoCp0();
    HostedUriNoP50();
  }

  lemma HostedUriPlain()
    ensures Unescape(HostedUri) == HostedUri
  {
    var pat := "\\u0025";
    assert pat[0] == '\\';
    assert '\\' !in HostedUri;
    ReplaceAllAbsent(HostedUri, pat, "%");
  }

  lemma JaneGathered()
    ensures Gather([JaneBlob], Gathered(Unknown, [])) == Success(Gathered(Str("Jane"), [Str(HostedUri)]))
  {
    var blobs := [JaneBlob];
    GatherOutcome(blobs, []);
    assert AuthorName(JaneBlob) == Some(Str("Jane"));
    assert Names(JaneBlob);
    assert AuthorOf(blobs) == Str("Jane");
    assert !NullBeforeName(blobs);
    WalkJaneBlob();
    assert blobs[1..] == [];
    assert WalkAll(blobs, []) == [Str(HostedUri)];
  }

  lemma FilterSingle(c: Json)
    requires Keeps(c) == Success(true)
    ensures FilterCandidates([c]) == Success([c])
  {
    var cs := [c];
    assert cs[1..] == [];
    assert [c] + [] == [c];
  }

  lemma UnescapeSingle(u: string)
    ensures UnescapeAll([Str(u)]) == Success([Unescape(u)])
  {
    var cs := [Str(u)];
    assert cs[1..] == [];
    assert [Unescape(u)] + [] == [Unescape(u)];
  }

  lemma FinishSingle(author: Json, u: string)
    requires Keeps(Str(u)) == Success(true)
    ensures Finish(Gathered(author, [Str(u)])) == Success(ScrapeResult(author, Stats(0, 0, 0), [Unescape(u)]))
  {
    FilterSingle(Str(u));
    UnescapeSingle(u);
  }

  lemma HostedFinish(author: Json)
    ensures Finish(Gathered(author, [Str(HostedUri)])) == Success(ScrapeResult(author, Stats(0, 0, 0), [HostedUri]))
  {
    HostedUriKept();
    HostedUriPlain();
    FinishSingle(author, HostedUri);
  }

  /** One blob naming `Jane` and holding one hosted image gives exactly that author and image. */
  lemma JaneExample()
    ensures Aggregated([JaneBlob]) == Success(ScrapeResult(Str("Jane"), Stats(0, 0, 0), [HostedUri]))
  {
    JaneGathered();
    HostedFinish(Str("Jane"));
  }
}
