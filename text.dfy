/** The JavaScript string operations the scraper relies on, over `seq<char>`. */
module Text {
  import opened Wrappers

  /** `t` occurs in `s` starting at index `i`. */
  predicate OccursAt(s: string, t: string, i: int) {
    0 <= i && i + |t| <= |s| && s[i..i + |t|] == t
  }

  /**
   * `String.prototype.indexOf(t, from)`: the first occurrence of `t` at or after `from`,
   * or -1 when there is none.
   */
  function IndexOf(s: string, t: string, from: nat): (r: int)
    ensures r == -1 || (from <= r && OccursAt(s, t, r))
    decreases |s| - from
  {
    if from + |t| > |s| then -1
    else if s[from..from + |t|] == t then from
    else IndexOf(s, t, from + 1)
  }

  /** What `IndexOf` finds is the first occurrence; when it finds none, there is none from `from` on. */
  lemma {:induction false} IndexOfIsFirst(s: string, t: string, from: nat)
    ensures forall i :: from <= i && (IndexOf(s, t, from) == -1 || i < IndexOf(s, t, from)) ==> !OccursAt(s, t, i)
    decreases |s| - from
  {
    if from + |t| <= |s| && s[from..from + |t|] != t {
      IndexOfIsFirst(s, t, from + 1);
    }
  }

  /** `String.prototype.includes(t)`. */
  function Contains(s: string, t: string): (b: bool)
    ensures b <==> exists i :: OccursAt(s, t, i)
  {
    IndexOfIsFirst(s, t, 0);
    IndexOf(s, t, 0) >= 0
  }

  /**
   * `s.replace(/pat/g, rep)` for a regular expression that is a plain, non-empty literal:
   * occurrences are replaced from left to right and never overlap.
   */
  function ReplaceAll(s: string, pat: string, rep: string): (r: string)
    requires pat != []
    decreases |s|
  {
    if |s| < |pat| then s
    else if s[..|pat|] == pat then
      assert pat[0] == s[0];
      rep + ReplaceAll(s[|pat|..], pat, rep)
    else [s[0]] + ReplaceAll(s[1..], pat, rep)
  }

  /** `s.replace(/c/g, '')` for a single character `c`: every occurrence of `c` is deleted. */
  function DeleteAll(s: string, c: char): (r: string)
    ensures forall x :: x in r <==> x in s && x != c
    ensures |r| <= |s|
    ensures c !in s ==> r == s
  {
    if s == [] then []
    else if s[0] == c then DeleteAll(s[1..], c)
    else [s[0]] + DeleteAll(s[1..], c)
  }

  /** The characters JavaScript counts as white space in `\s` and in `parseInt`/`parseFloat`. */
  predicate IsJsSpace(c: char) {
    var n := c as int;
    n == 0x09 || n == 0x0A || n == 0x0B || n == 0x0C || n == 0x0D || n == 0x20
    || n == 0xA0 || n == 0x1680 || (0x2000 <= n <= 0x200A)
    || n == 0x2028 || n == 0x2029 || n == 0x202F || n == 0x205F || n == 0x3000 || n == 0xFEFF
  }

  /** The first index at or after `i` that is not white space. */
  function SkipSpaces(s: string, i: nat): (r: nat)
    requires i <= |s|
    ensures i <= r <= |s|
    ensures forall k :: i <= k < r ==> IsJsSpace(s[k])
    ensures r < |s| ==> !IsJsSpace(s[r])
    decreases |s| - i
  {
    if i < |s| && IsJsSpace(s[i]) then SkipSpaces(s, i + 1) else i
  }

  function UpperChar(c: char): char {
    if 'a' <= c <= 'z' then (c as int - 32) as char else c
  }

  function LowerChar(c: char): char {
    if 'A' <= c <= 'Z' then (c as int + 32) as char else c
  }

  /** `toUpperCase` restricted to the ASCII letters. */
  function Upper(s: string): (r: string)
    ensures |r| == |s|
  {
    seq(|s|, i requires 0 <= i < |s| => UpperChar(s[i]))
  }

  /** `toLowerCase` restricted to the ASCII letters. */
  function Lower(s: string): (r: string)
    ensures |r| == |s|
  {
    seq(|s|, i requires 0 <= i < |s| => LowerChar(s[i]))
  }

  /** Where the pattern does not start at the front, the first character is kept. */
  lemma ReplaceAllSkipHead(s: string, pat: string, rep: string)
    requires pat != [] && |s| >= |pat| && s[..|pat|] != pat
    ensures ReplaceAll(s, pat, rep) == [s[0]] + ReplaceAll(s[1..], pat, rep)
  {
  }

  /** One step of `ReplaceAllPlainHead`: a first character unlike the pattern's is kept. */
  lemma ReplaceAllKeepHead(a: string, b: string, pat: string, rep: string)
    requires pat != [] && a != [] && |a + b| >= |pat| && a[0] != pat[0]
    requires ReplaceAll(a[1..] + b, pat, rep) == a[1..] + ReplaceAll(b, pat, rep)
    ensures ReplaceAll(a + b, pat, rep) == a + ReplaceAll(b, pat, rep)
  {
    var s := a + b;
    var t := a[1..];
    var rb := ReplaceAll(b, pat, rep);
    assert s[..|pat|][0] == a[0];
    ReplaceAllSkipHead(s, pat, rep);
    assert s[1..] == t + b;
    assert a == [a[0]] + t;
    assert [a[0]] + (t + rb) == a + rb;
  }

  /** Text without the pattern's first character passes through the rewrite unchanged. */
  lemma {:induction false} ReplaceAllPlainHead(a: string, b: string, pat: string, rep: string)
    requires pat != [] && pat[0] !in a
    ensures ReplaceAll(a + b, pat, rep) == a + ReplaceAll(b, pat, rep)
    decreases |a|
  {
    if a == [] {
      assert a + b == b;
    } else if |a + b| >= |pat| {
      assert pat[0] !in a[1..];
      ReplaceAllPlainHead(a[1..], b, pat, rep);
      ReplaceAllKeepHead(a, b, pat, rep);
    } else {
      assert |b| < |pat|;
    }
  }

  /** Text without the pattern's first character is left as it is. */
  lemma ReplaceAllAbsent(s: string, pat: string, rep: string)
    requires pat != [] && pat[0] !in s
    ensures ReplaceAll(s, pat, rep) == s
  {
    ReplaceAllPlainHead(s, [], pat, rep);
    assert s + [] == s;
  }

  /** The rewrite brings in no character that is in neither the text nor the replacement. */
  lemma {:induction false} ReplaceAllChars(s: string, pat: string, rep: string)
    requires pat != []
    ensures forall c :: c in ReplaceAll(s, pat, rep) ==> c in s || c in rep
    decreases |s|
  {
    if |s| >= |pat| {
      if s[..|pat|] == pat {
        ReplaceAllChars(s[|pat|..], pat, rep);
      } else {
        ReplaceAllChars(s[1..], pat, rep);
      }
    }
  }

  /** A complete occurrence of the pattern at the front is replaced, and the scan resumes after it. */
  lemma ReplaceAllMatchHead(b: string, pat: string, rep: string)
    requires pat != []
    ensures ReplaceAll(pat + b, pat, rep) == rep + ReplaceAll(b, pat, rep)
  {
    assert (pat + b)[..|pat|] == pat && (pat + b)[|pat|..] == b;
  }

  /**
   * Two characters that start like the pattern but break off at the second one are kept,
   * and the scan resumes after them.
   */
  lemma ReplaceAllBrokenHead(x: string, b: string, pat: string, rep: string)
    requires |pat| >= 2 && |x| == 2 && x[1] != pat[1] && x[1] != pat[0]
    ensures ReplaceAll(x + b, pat, rep) == x + ReplaceAll(b, pat, rep)
  {
    var s := x + b;
    assert s[1..] == [x[1]] + b;
    ReplaceAllPlainHead([x[1]], b, pat, rep);
    if |s| < |pat| {
      assert |b| < |pat|;
    } else {
      assert s[..|pat|][1] == x[1];
      ReplaceAllSkipHead(s, pat, rep);
      assert x == [x[0]] + [x[1]];
    }
  }

  lemma {:induction false} DeleteAllConcat(a: string, b: string, c: char)
    ensures DeleteAll(a + b, c) == DeleteAll(a, c) + DeleteAll(b, c)
    decreases |a|
  {
    if a == [] {
      assert a + b == b;
    } else {
      assert (a + b)[0] == a[0] && (a + b)[1..] == a[1..] + b;
      DeleteAllConcat(a[1..], b, c);
    }
  }

  /** A text that lacks one of the characters of `t` cannot contain `t`. */
  lemma MissingChar(s: string, t: string, c: char)
    requires c in t && c !in s
    ensures !Contains(s, t)
  {
    var j :| 0 <= j < |t| && t[j] == c;
    forall i
      ensures !OccursAt(s, t, i)
    {
      if 0 <= i && i + |t| <= |s| {
        assert s[i..i + |t|][j] == s[i + j] != c;
      }
    }
  }
}
