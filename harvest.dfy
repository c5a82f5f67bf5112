/**
 * The embedded-JSON harvester: the `while (regex.exec(html))` loop over
 * `/<script type="application\/json".*?>(.*?)<\/script>/gs`, keeping every capture that parses.
 */
module Harvest {
  import opened Wrappers
  import opened Text
  import opened JsonTree

  const ScriptOpen: string := "<script type=\"application/json\""
  const ScriptClose: string := "</script>"

  /** One match: the opening tag at `start`, the capture `[bodyStart, bodyEnd)`, the match's end. */
  datatype ScriptMatch = ScriptMatch(start: nat, bodyStart: nat, bodyEnd: nat, end: nat)

  /** The opening tag at `m.start`, its lazy `.*?` stopping at the first `>` after the opening text. */
  ghost predicate OpenTagAt(html: string, m: ScriptMatch) {
    && OccursAt(html, ScriptOpen, m.start)
    && m.start + |ScriptOpen| < m.bodyStart <= |html|
    && html[m.bodyStart - 1] == '>'
    && (forall k :: m.start + |ScriptOpen| <= k < m.bodyStart - 1 ==> html[k] != '>')
  }

  /** The capture `[bodyStart, bodyEnd)`, its lazy `(.*?)` stopping at the first `</script>`. */
  ghost predicate ClosedAt(html: string, m: ScriptMatch) {
    && m.bodyStart <= m.bodyEnd
    && OccursAt(html, ScriptClose, m.bodyEnd)
    && m.end == m.bodyEnd + |ScriptClose|
    && (forall k :: m.bodyStart <= k < m.bodyEnd ==> !OccursAt(html, ScriptClose, k))
  }

  /** The expression matches at `m.start`, with both lazy parts as short as they can be. */
  ghost predicate MatchesAt(html: string, m: ScriptMatch) {
    OpenTagAt(html, m) && ClosedAt(html, m)
  }

  /** The expression matches nowhere at or after `from`. */
  ghost predicate NoMatchFrom(html: string, from: nat) {
    forall m: ScriptMatch :: from <= m.start ==> !MatchesAt(html, m)
  }

  /** The parts of a match lie in order inside the text. */
  predicate InBounds(html: string, m: ScriptMatch) {
    m.start < m.bodyStart <= m.bodyEnd < m.end <= |html|
  }

  /** `regex.exec(html)` with `lastIndex == from`; `NextScriptIsLeftmostMatch` says what it finds. */
  function NextScript(html: string, from: nat): (r: Option<ScriptMatch>)
    ensures r.Some? ==> InBounds(html, r.value) && from <= r.value.start
  {
    var p := IndexOf(html, ScriptOpen, from);
    if p < 0 then None
    else
      var g := IndexOf(html, ">", p + |ScriptOpen|);
      if g < 0 then None
      else
        var e := IndexOf(html, ScriptClose, g + 1);
        if e < 0 then None
        else Some(ScriptMatch(p, g + 1, e, e + |ScriptClose|))
  }

  /**
   * `NextScript` finds the leftmost match at or after `from`, with both lazy parts as short
   * as they can be, and finds none exactly when the expression cannot match there.
   */
  lemma NextScriptIsLeftmostMatch(html: string, from: nat)
    ensures NextScript(html, from).Some? ==> MatchesAt(html, NextScript(html, from).value)
    ensures NextScript(html, from).Some? ==>
      forall k :: from <= k < NextScript(html, from).value.start ==> !OccursAt(html, ScriptOpen, k)
    ensures NextScript(html, from).None? ==> forall m: ScriptMatch :: from <= m.start ==> !MatchesAt(html, m)
  {
    NextScriptMatches(html, from);
    NextScriptFirst(html, from);
    NextScriptNone(html, from);
  }

  lemma NextScriptMatches(html: string, from: nat)
    ensures NextScript(html, from).Some? ==> MatchesAt(html, NextScript(html, from).value)
  {
    if NextScript(html, from).Some? {
      var p := IndexOf(html, ScriptOpen, from);
      var g := IndexOf(html, ">", p + |ScriptOpen|);
      var e := IndexOf(html, ScriptClose, g + 1);
      FoundMatch(html, from, p, g, e);
    }
  }

  lemma NextScriptFirst(html: string, from: nat)
    ensures NextScript(html, from).Some? ==>
      forall k :: from <= k < NextScript(html, from).value.start ==> !OccursAt(html, ScriptOpen, k)
  {
    IndexOfIsFirst(html, ScriptOpen, from);
  }

  lemma NextScriptNone(html: string, from: nat)
    ensures NextScript(html, from).None? ==> NoMatchFrom(html, from)
  {
    if NextScript(html, from).None? {
      var p := IndexOf(html, ScriptOpen, from);
      if p < 0 {
        NoMatchWithoutOpen(html, from);
      } else {
        var g := IndexOf(html, ">", p + |ScriptOpen|);
        if g < 0 {
          NoMatchWithoutGt(html, from, p);
        } else {
          NoMatchWithoutClose(html, from, p, g);
        }
      }
    }
  }

  /** The three searches succeed: what they found is a match with both lazy parts shortest. */
  lemma FoundMatch(html: string, from: nat, p: nat, g: nat, e: nat)
    requires IndexOf(html, ScriptOpen, from) == p
    requires IndexOf(html, ">", p + |ScriptOpen|) == g
    requires IndexOf(html, ScriptClose, g + 1) == e
    ensures MatchesAt(html, ScriptMatch(p, g + 1, e, e + |ScriptClose|))
  {
    FoundOpenTag(html, from, p, g, e, e + |ScriptClose|);
    FoundClose(html, p, g, e);
  }

  /** The first `>` after the first opening tag ends that tag. */
  lemma FoundOpenTag(html: string, from: nat, p: nat, g: nat, e: nat, end: nat)
    requires IndexOf(html, ScriptOpen, from) == p
    requires IndexOf(html, ">", p + |ScriptOpen|) == g
    ensures OpenTagAt(html, ScriptMatch(p, g + 1, e, end))
  {
    FirstGt(html, p + |ScriptOpen|, g);
  }

  /** The first `</script>` after the tag ends the capture. */
  lemma FoundClose(html: string, p: nat, g: nat, e: nat)
    requires IndexOf(html, ScriptClose, g + 1) == e
    ensures ClosedAt(html, ScriptMatch(p, g + 1, e, e + |ScriptClose|))
  {
    IndexOfIsFirst(html, ScriptClose, g + 1);
  }

  /** `IndexOf(html, ">", from) == g`: no `>` comes before `g`. */
  lemma FirstGt(html: string, from: nat, g: nat)
    requires IndexOf(html, ">", from) == g
    ensures g < |html| && html[g] == '>'
    ensures forall k :: from <= k < g ==> html[k] != '>'
  {
    assert html[g..g + 1] == ">";
    IndexOfIsFirst(html, ">", from);
    forall k | from <= k < g
      ensures html[k] != '>'
    {
      assert !OccursAt(html, ">", k);
      assert html[k..k + 1] == [html[k]];
    }
  }

  /**
   * A match at or after `from` starts no earlier than the first opening tag there, so the
   * `>` that ends its tag lies after that first tag's opening text.
   */
  lemma GtAfterFirstOpen(html: string, from: nat, p: nat, m: ScriptMatch)
    requires IndexOf(html, ScriptOpen, from) == p
    requires from <= m.start && MatchesAt(html, m)
    ensures p + |ScriptOpen| <= m.bodyStart - 1 && OccursAt(html, ">", m.bodyStart - 1)
  {
    IndexOfIsFirst(html, ScriptOpen, from);
    assert p <= m.start;
    var gt := m.bodyStart - 1;
    assert html[gt..gt + 1] == [html[gt]];
  }

  /** With no opening tag at or after `from`, nothing matches. */
  lemma NoMatchWithoutOpen(html: string, from: nat)
    requires IndexOf(html, ScriptOpen, from) == -1
    ensures NoMatchFrom(html, from)
  {
    IndexOfIsFirst(html, ScriptOpen, from);
  }

  /** When the first opening tag at or after `from` has no `>` after it, nothing matches. */
  lemma NoMatchWithoutGt(html: string, from: nat, p: nat)
    requires IndexOf(html, ScriptOpen, from) == p
    requires IndexOf(html, ">", p + |ScriptOpen|) == -1
    ensures NoMatchFrom(html, from)
  {
    IndexOfIsFirst(html, ">", p + |ScriptOpen|);
    forall m: ScriptMatch | from <= m.start && MatchesAt(html, m)
      ensures false
    {
      GtAfterFirstOpen(html, from, p, m);
    }
  }

  /**
   * When the first `>` after the first opening tag at or after `from` is at `g` and no
   * `</script>` follows it, nothing matches.
   */
  lemma NoMatchWithoutClose(html: string, from: nat, p: nat, g: nat)
    requires IndexOf(html, ScriptOpen, from) == p
    requires IndexOf(html, ">", p + |ScriptOpen|) == g
    requires IndexOf(html, ScriptClose, g + 1) == -1
    ensures NoMatchFrom(html, from)
  {
    IndexOfIsFirst(html, ">", p + |ScriptOpen|);
    IndexOfIsFirst(html, ScriptClose, g + 1);
    forall m: ScriptMatch | from <= m.start && MatchesAt(html, m)
      ensures false
    {
      GtAfterFirstOpen(html, from, p, m);
    }
  }

  /** The captured text of a match. */
  function Body(html: string, m: ScriptMatch): string
    requires InBounds(html, m)
  {
    html[m.bodyStart..m.bodyEnd]
  }

  /** All matches from `from` on, in the order the loop finds them. */
  function Matches(html: string, from: nat): (ms: seq<ScriptMatch>)
    ensures forall k :: 0 <= k < |ms| ==> InBounds(html, ms[k]) && from <= ms[k].start
    decreases |html| - from
  {
    match NextScript(html, from)
    case None => []
    case Some(m) => [m] + Matches(html, m.end)
  }

  /** The blobs parsed from the captures of `ms`; a capture that does not parse is dropped. */
  function ParseCaptures(html: string, ms: seq<ScriptMatch>, parse: string -> Option<Json>): seq<Json>
    requires forall k :: 0 <= k < |ms| ==> InBounds(html, ms[k])
  {
    if ms == [] then []
    else
      match parse(Body(html, ms[0]))
      case Some(blob) => [blob] + ParseCaptures(html, ms[1..], parse)
      case None => ParseCaptures(html, ms[1..], parse)
  }

  /** What the harvesting loop leaves in `jsonScripts`. */
  function Harvested(html: string, parse: string -> Option<Json>): seq<Json> {
    ParseCaptures(html, Matches(html, 0), parse)
  }

  /** The harvesting loop, with the expression's `lastIndex` kept as an explicit index. */
  method HarvestScripts(html: string, parse: string -> Option<Json>) returns (blobs: seq<Json>)
    ensures blobs == Harvested(html, parse)
  {
    blobs := [];
    var pos: nat := 0;
    while true
      invariant pos <= |html|
      invariant blobs + ParseCaptures(html, Matches(html, pos), parse) == Harvested(html, parse)
      decreases |html| - pos
    {
      var next := NextScript(html, pos);
      if next.None? {
        assert Matches(html, pos) == [];
        break;
      }
      var m := next.value;
      var parsed := parse(html[m.bodyStart..m.bodyEnd]);
      HarvestStep(html, pos, parse, blobs);
      if parsed.Some? {
        blobs := blobs + [parsed.value];
      }
      pos := m.end;
    }
  }

  /** The loop invariant survives one turn. */
  lemma HarvestStep(html: string, pos: nat, parse: string -> Option<Json>, blobs: seq<Json>)
    requires NextScript(html, pos).Some?
    requires blobs + ParseCaptures(html, Matches(html, pos), parse) == Harvested(html, parse)
    ensures var m := NextScript(html, pos).value;
      (match parse(Body(html, m)) case Some(b) => blobs + [b] case None => blobs)
      + ParseCaptures(html, Matches(html, m.end), parse) == Harvested(html, parse)
  {
    var m := NextScript(html, pos).value;
    ParseCapturesStep(html, pos, parse);
    var rest := ParseCaptures(html, Matches(html, m.end), parse);
    match parse(Body(html, m))
    case Some(b) =>
      assert blobs + ([b] + rest) == (blobs + [b]) + rest;
    case None =>
      assert [] + rest == rest;
  }

  /** One turn of the harvesting loop: the next match's blob, if it parses, comes first. */
  lemma ParseCapturesStep(html: string, pos: nat, parse: string -> Option<Json>)
    requires NextScript(html, pos).Some?
    ensures var m := NextScript(html, pos).value;
      ParseCaptures(html, Matches(html, pos), parse)
      == (match parse(Body(html, m)) case Some(b) => [b] case None => []) + ParseCaptures(html, Matches(html, m.end), parse)
  {
    var m := NextScript(html, pos).value;
    var rest := Matches(html, m.end);
    assert Matches(html, pos) == [m] + rest;
    assert ([m] + rest)[0] == m && ([m] + rest)[1..] == rest;
  }

  // ---------------------------------------------------------------------------

  /** Every match the loop finds is one the expression makes, with its lazy parts shortest. */
  lemma {:induction false} MatchesAreMatches(html: string, from: nat)
    ensures forall k :: 0 <= k < |Matches(html, from)| ==> MatchesAt(html, Matches(html, from)[k])
    decreases |html| - from
  {
    if NextScript(html, from).Some? {
      var m := NextScript(html, from).value;
      NextScriptMatches(html, from);
      MatchesAreMatches(html, m.end);
      assert Matches(html, from) == [m] + Matches(html, m.end);
    }
  }

  /** The matches come in document order and never overlap. */
  lemma {:induction false} MatchesInOrder(html: string, from: nat)
    ensures forall i, k :: 0 <= i < k < |Matches(html, from)| ==> Matches(html, from)[i].end <= Matches(html, from)[k].start
    decreases |html| - from
  {
    if NextScript(html, from).Some? {
      var m := NextScript(html, from).value;
      MatchesInOrder(html, m.end);
      assert Matches(html, from) == [m] + Matches(html, m.end);
    }
  }

  lemma {:induction false} ParseCapturesSplit(html: string, ms: seq<ScriptMatch>, ns: seq<ScriptMatch>, parse: string -> Option<Json>)
    requires forall k :: 0 <= k < |ms| ==> InBounds(html, ms[k])
    requires forall k :: 0 <= k < |ns| ==> InBounds(html, ns[k])
    ensures ParseCaptures(html, ms + ns, parse) == ParseCaptures(html, ms, parse) + ParseCaptures(html, ns, parse)
    decreases |ms|
  {
    if ms == [] {
      assert ms + ns == ns;
    } else {
      assert (ms + ns)[0] == ms[0] && (ms + ns)[1..] == ms[1..] + ns;
      ParseCapturesSplit(html, ms[1..], ns, parse);
    }
  }

  /** Dropping the blob of a capture that does not parse leaves those before and after it. */
  lemma SkipOne(html: string, ms: seq<ScriptMatch>, parse: string -> Option<Json>, k: nat)
    requires forall i :: 0 <= i < |ms| ==> InBounds(html, ms[i])
    requires k < |ms| && parse(Body(html, ms[k])).None?
    ensures ParseCaptures(html, ms, parse) == ParseCaptures(html, ms[..k], parse) + ParseCaptures(html, ms[k + 1..], parse)
  {
    var pre, post := ms[..k], ms[k + 1..];
    var tail := [ms[k]] + post;
    assert ms == pre + tail;
    ParseCapturesSplit(html, pre, tail, parse);
    assert tail[0] == ms[k] && tail[1..] == post;
  }

  /**
   * A capture that does not parse is skipped and the scan goes on: the blobs are those of
   * the matches before it followed by those of the matches after it, in document order.
   */
  lemma SkipsUnparsable(html: string, parse: string -> Option<Json>, k: nat)
    requires k < |Matches(html, 0)|
    requires parse(Body(html, Matches(html, 0)[k])).None?
    ensures Harvested(html, parse)
         == ParseCaptures(html, Matches(html, 0)[..k], parse) + ParseCaptures(html, Matches(html, 0)[k + 1..], parse)
  {
    SkipOne(html, Matches(html, 0), parse, k);
  }

  /** A blob is harvested exactly when some match's capture parses to it. */
  lemma {:induction false} ParseCapturesMembers(html: string, ms: seq<ScriptMatch>, parse: string -> Option<Json>, blob: Json)
    requires forall k :: 0 <= k < |ms| ==> InBounds(html, ms[k])
    ensures blob in ParseCaptures(html, ms, parse) <==> exists k :: 0 <= k < |ms| && parse(Body(html, ms[k])) == Some(blob)
    decreases |ms|
  {
    if ms != [] {
      ParseCapturesMembers(html, ms[1..], parse, blob);
      if exists k :: 0 <= k < |ms| && parse(Body(html, ms[k])) == Some(blob) {
        var k :| 0 <= k < |ms| && parse(Body(html, ms[k])) == Some(blob);
        if k > 0 {
          assert ms[1..][k - 1] == ms[k];
        }
      }
      if exists k :: 0 <= k < |ms| - 1 && parse(Body(html, ms[1..][k])) == Some(blob) {
        var k :| 0 <= k < |ms| - 1 && parse(Body(html, ms[1..][k])) == Some(blob);
        assert ms[1..][k] == ms[k + 1];
      }
    }
  }

  /** At most one blob per match. */
  lemma {:induction false} ParseCapturesLength(html: string, ms: seq<ScriptMatch>, parse: string -> Option<Json>)
    requires forall k :: 0 <= k < |ms| ==> InBounds(html, ms[k])
    ensures |ParseCaptures(html, ms, parse)| <= |ms|
    decreases |ms|
  {
    if ms != [] {
      ParseCapturesLength(html, ms[1..], parse);
    }
  }
}
