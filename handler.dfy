// The command handler's input check: which text is taken as the link, and which
// links are handed to the scraper at all.

module Handler {
  import opened Wrappers
  import opened Text

  /** `args.join(' ')` */
  function JoinWords(args: seq<string>): (r: string)
    ensures args == [] ==> r == []
    ensures |args| == 1 ==> r == args[0]
  {
    if |args| <= 1 then (if args == [] then [] else args[0])
    else JoinWords(args[..|args| - 1]) + " " + args[|args| - 1]
  }

  /** Joining one more word appends a space and that word. */
  lemma {:induction false} JoinAppend(args: seq<string>, w: string)
    requires args != []
    ensures JoinWords(args + [w]) == JoinWords(args) + " " + w
  {
    assert (args + [w])[..|args|] == args;
  }

  /** Line 125: the query text if there is one, otherwise the arguments joined by spaces. */
  function InputUrl(q: string, args: seq<string>): string {
    if q != [] then q else JoinWords(args)
  }

  /** `/facebook\.com|fb\.watch/i.test(input)`: either host name, in any letter case. */
  predicate MentionsFacebook(input: string) {
    Contains(Lower(input), "facebook.com") || Contains(Lower(input), "fb.watch")
  }

  /**
   * Line 127: an empty input or one that mentions neither host gets the usage reply
   * (`None`); anything else is the link handed to `scrape`.
   */
  function Validate(q: string, args: seq<string>): (r: Option<string>)
    ensures r.Some? ==> r.value == InputUrl(q, args) && r.value != []
    ensures r.Some? <==> InputUrl(q, args) != [] && MentionsFacebook(InputUrl(q, args))
    ensures q != [] ==> (r.Some? <==> MentionsFacebook(q))
  {
    var input := InputUrl(q, args);
    if input == [] || !MentionsFacebook(input) then None else Some(input)
  }

  lemma LowerOfUpper(s: string)
    ensures Lower(Upper(s)) == Lower(s)
  {
    forall i | 0 <= i < |s|
      ensures Lower(Upper(s))[i] == Lower(s)[i]
    {
      var c := s[i];
      assert Upper(s)[i] == UpperChar(c);
      if 'a' <= c <= 'z' {
        assert LowerChar(UpperChar(c)) == c == LowerChar(c);
      }
    }
  }

  /** The `i` flag: changing letters to upper case never changes the verdict. */
  lemma CaseDoesNotMatter(input: string)
    ensures MentionsFacebook(Upper(input)) == MentionsFacebook(input)
  {
    LowerOfUpper(input);
  }

  /** No query and no arguments: the usage reply. */
  lemma NothingGivenIsRefused()
    ensures Validate([], []) == None
  {
  }

  /** A link that only carries the host in upper case is still accepted. */
  lemma UpperCaseHostAccepted()
    ensures Validate("FB.WATCH/x", []) == Some("FB.WATCH/x")
  {
    var q := "FB.WATCH/x";
    assert Lower(q)[..8] == "fb.watch";
    assert OccursAt(Lower(q), "fb.watch", 0);
  }

  /** A link to another site is refused, whatever the arguments say. */
  lemma OtherSiteRefused(args: seq<string>)
    ensures Validate("x.com/p", args) == None
  {
    var q := "x.com/p";
    assert 'f' !in Lower(q);
    MissingChar(Lower(q), "facebook.com", 'f');
    MissingChar(Lower(q), "fb.watch", 'f');
  }
}
