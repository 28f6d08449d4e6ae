/**
 * The string helpers the word logic of the text-document proxy calls:
 * `wordFragmentAtEnd`, `wordFragmentAtStart`, `split(by:)` and
 * `trimming(.whitespaces)`. Their Swift sources are not part of this model;
 * each is given here by a simple stated definition over `seq<char>`, with a
 * set of one-character word delimiters `d`.
 */
module StringWords {
  import opened Wrappers

  /** `r` ends `s`: the last `|r|` characters of `s` are those of `r`. */
  predicate EndsWith(s: string, r: string) {
    |r| <= |s| && forall i :: 0 <= i < |r| ==> r[i] == s[|s| - |r| + i]
  }

  /** No character of `s` is a delimiter. */
  predicate NoDelimiter(s: string, d: set<char>) {
    forall i :: 0 <= i < |s| ==> s[i] !in d
  }

  /** The longest run of non-delimiter characters at the end of `s` (possibly empty). */
  function TrailingRun(s: string, d: set<char>): (r: string)
    ensures EndsWith(s, r)
    ensures NoDelimiter(r, d)
    ensures |r| == |s| || s[|s| - |r| - 1] in d
    decreases |s|
  {
    if |s| == 0 || s[|s| - 1] in d then []
    else TrailingRun(s[..|s| - 1], d) + [s[|s| - 1]]
  }

  /** The longest run of non-delimiter characters at the start of `s` (possibly empty). */
  function LeadingRun(s: string, d: set<char>): (r: string)
    ensures |r| <= |s| && r == s[..|r|]
    ensures NoDelimiter(r, d)
    ensures |r| == |s| || s[|r|] in d
    decreases |s|
  {
    if |s| == 0 || s[0] in d then []
    else [s[0]] + LeadingRun(s[1..], d)
  }

  /** The trailing run is the only delimiter-free suffix that reaches back to a delimiter or to the start. */
  lemma {:induction false} TrailingRunUnique(s: string, d: set<char>, r: string)
    requires EndsWith(s, r) && NoDelimiter(r, d)
    requires |r| == |s| || s[|s| - |r| - 1] in d
    ensures TrailingRun(s, d) == r
    decreases |s|
  {
    assert |r| > 0 ==> r[|r| - 1] == s[|s| - 1];
    if |s| > 0 && s[|s| - 1] !in d {
      var t, r' := s[..|s| - 1], r[..|r| - 1];
      assert EndsWith(t, r') by {
        forall i | 0 <= i < |r'| ensures r'[i] == t[|t| - |r'| + i] {
          assert r'[i] == r[i] == s[|s| - |r| + i];
        }
      }
      TrailingRunUnique(t, d, r');
      assert r == r' + [s[|s| - 1]];
    }
  }

  /** The leading run is the only delimiter-free prefix that reaches a delimiter or the end. */
  lemma LeadingRunUnique(s: string, d: set<char>, r: string)
    requires |r| <= |s| && r == s[..|r|] && NoDelimiter(r, d)
    requires |r| == |s| || s[|r|] in d
    ensures LeadingRun(s, d) == r
  {
  }

  /** `wordFragmentAtEnd`: the trailing word fragment, nil when there is none. */
  function WordFragmentAtEnd(s: string, d: set<char>): (r: Option<string>)
    ensures r.None? <==> |s| == 0 || s[|s| - 1] in d
    ensures r.Some? ==> 0 < |r.value| && EndsWith(s, r.value)
    ensures r.Some? ==> NoDelimiter(r.value, d)
    ensures r.Some? ==> |r.value| == |s| || s[|s| - |r.value| - 1] in d
  {
    var run := TrailingRun(s, d);
    if |run| == 0 then None else Some(run)
  }

  /** `wordFragmentAtStart`: the leading word fragment, nil when there is none. */
  function WordFragmentAtStart(s: string, d: set<char>): (r: Option<string>)
    ensures r.None? <==> |s| == 0 || s[0] in d
    ensures r.Some? ==> 0 < |r.value| <= |s| && r.value == s[..|r.value|]
    ensures r.Some? ==> NoDelimiter(r.value, d)
    ensures r.Some? ==> |r.value| == |s| || s[|r.value|] in d
  {
    var run := LeadingRun(s, d);
    if |run| == 0 then None else Some(run)
  }

  /** A word that follows a delimiter is the trailing run of the text. */
  lemma TrailingRunAfterDelimiter(prefix: string, c: char, w: string, d: set<char>)
    requires c in d && NoDelimiter(w, d)
    ensures TrailingRun(prefix + [c] + w, d) == w
  {
    var s := prefix + [c] + w;
    assert EndsWith(s, w) by {
      forall i | 0 <= i < |w| ensures w[i] == s[|s| - |w| + i] {}
    }
    assert s[|s| - |w| - 1] == c;
    TrailingRunUnique(s, d, w);
  }

  /** A word that a delimiter follows is the leading run of the text. */
  lemma LeadingRunBeforeDelimiter(w: string, c: char, rest: string, d: set<char>)
    requires c in d && NoDelimiter(w, d)
    ensures LeadingRun(w + [c] + rest, d) == w
  {
    var s := w + [c] + rest;
    assert s[..|w|] == w && s[|w|] == c;
    LeadingRunUnique(s, d, w);
  }

  /** A non-empty text without delimiters is its own word fragment at either end; an empty text has none. */
  lemma WordFragmentsOfWord(s: string, d: set<char>)
    requires NoDelimiter(s, d)
    ensures |s| > 0 ==> WordFragmentAtEnd(s, d) == Some(s) && WordFragmentAtStart(s, d) == Some(s)
    ensures |s| == 0 ==> WordFragmentAtEnd(s, d).None? && WordFragmentAtStart(s, d).None?
  {
    TrailingRunUnique(s, d, s);
    LeadingRunUnique(s, d, s);
  }

  /** A member of `CharacterSet.whitespaces` (space and horizontal tab). */
  predicate IsWhitespace(c: char) {
    c == ' ' || c == '\t'
  }

  predicate AllWhitespace(s: string) {
    forall i :: 0 <= i < |s| ==> IsWhitespace(s[i])
  }

  /** `trimming(.whitespaces)`: `s` without its leading and trailing whitespace. */
  function Trim(s: string): (r: string)
    ensures |r| == 0 <==> AllWhitespace(s)
    ensures |r| > 0 ==> !IsWhitespace(r[0]) && !IsWhitespace(r[|r| - 1])
    ensures |s| > 0 && !IsWhitespace(s[0]) && !IsWhitespace(s[|s| - 1]) ==> r == s
    ensures |r| <= |s|
    decreases |s|
  {
    if |s| > 0 && IsWhitespace(s[0]) then
      var r := Trim(s[1..]);
      assert AllWhitespace(s[1..]) ==> AllWhitespace(s) by {
        if AllWhitespace(s[1..]) {
          forall i | 0 <= i < |s| ensures IsWhitespace(s[i]) {
            if i > 0 { assert s[i] == s[1..][i - 1]; }
          }
        }
      }
      r
    else if |s| > 0 && IsWhitespace(s[|s| - 1]) then
      var r := Trim(s[..|s| - 1]);
      assert |s| >= 2 && s[..|s| - 1][0] == s[0];
      r
    else s
  }

  lemma AllWhitespaceJoin(a: string, b: string)
    requires AllWhitespace(a) && AllWhitespace(b)
    ensures AllWhitespace(a + b)
  {
    forall k | 0 <= k < |a + b| ensures IsWhitespace((a + b)[k]) {
      if k < |a| { assert (a + b)[k] == a[k]; } else { assert (a + b)[k] == b[k - |a|]; }
    }
  }

  /** Whitespace around the middle slice `s[i..j]`. */
  predicate TrimmedAt(s: string, i: nat, j: nat) {
    i <= j <= |s| && AllWhitespace(s[..i]) && AllWhitespace(s[j..])
  }

  lemma TrimmedAtDropFirst(s: string, i: nat, j: nat)
    requires |s| > 0 && IsWhitespace(s[0]) && TrimmedAt(s[1..], i, j)
    ensures TrimmedAt(s, i + 1, j + 1) && s[1..][i..j] == s[i + 1..j + 1]
  {
    assert s[..i + 1] == [s[0]] + s[1..][..i];
    AllWhitespaceJoin([s[0]], s[1..][..i]);
    assert s[j + 1..] == s[1..][j..];
  }

  lemma TrimmedAtDropLast(s: string, i: nat, j: nat)
    requires |s| > 0 && IsWhitespace(s[|s| - 1]) && TrimmedAt(s[..|s| - 1], i, j)
    ensures TrimmedAt(s, i, j) && s[..|s| - 1][i..j] == s[i..j]
  {
    var u := s[..|s| - 1];
    assert u[..i] == s[..i];
    assert s[j..] == u[j..] + [s[|s| - 1]];
    AllWhitespaceJoin(u[j..], [s[|s| - 1]]);
  }

  /** `Trim` removes leading and trailing whitespace and nothing else: the result is a middle slice of `s` with only whitespace on either side of it. */
  lemma {:induction false} TrimIsInfix(s: string)
    ensures exists i: nat, j: nat :: TrimmedAt(s, i, j) && Trim(s) == s[i..j]
    decreases |s|
  {
    if |s| > 0 && IsWhitespace(s[0]) {
      TrimIsInfix(s[1..]);
      var i: nat, j: nat :| TrimmedAt(s[1..], i, j) && Trim(s[1..]) == s[1..][i..j];
      TrimmedAtDropFirst(s, i, j);
    } else if |s| > 0 && IsWhitespace(s[|s| - 1]) {
      TrimIsInfix(s[..|s| - 1]);
      var i: nat, j: nat :| TrimmedAt(s[..|s| - 1], i, j) && Trim(s[..|s| - 1]) == s[..|s| - 1][i..j];
      TrimmedAtDropLast(s, i, j);
    } else {
      assert TrimmedAt(s, 0, |s|) && Trim(s) == s[0..|s|];
    }
  }

  /** The last element of a non-empty sequence. */
  function Last<T>(s: seq<T>): T
    requires |s| > 0
  {
    s[|s| - 1]
  }

  /**
   * `split(by:)`: the string cut after every delimiter. Each segment but the
   * last ends with the delimiter that closed it; the last segment is the
   * (possibly empty) unterminated remainder, so there is always one.
   */
  function Split(s: string, d: set<char>): (r: seq<string>)
    ensures |r| > 0
    decreases |s|
  {
    if |s| == 0 then [""]
    else
      var init := Split(s[..|s| - 1], d);
      var c := s[|s| - 1];
      var grown := init[..|init| - 1] + [Last(init) + [c]];
      if c in d then grown + [""] else grown
  }

  /** A segment closed by a delimiter: non-empty, ending with a delimiter, with no other delimiter. */
  predicate ClosedSegment(seg: string, d: set<char>) {
    |seg| > 0 && seg[|seg| - 1] in d && NoDelimiter(seg[..|seg| - 1], d)
  }

  /** Every segment of a split but the last is closed by its delimiter, and the last holds no delimiter. */
  lemma {:induction false} SplitSegments(s: string, d: set<char>)
    ensures forall k :: 0 <= k < |Split(s, d)| - 1 ==> ClosedSegment(Split(s, d)[k], d)
    ensures NoDelimiter(Last(Split(s, d)), d)
    decreases |s|
  {
    if |s| > 0 {
      var t, c := s[..|s| - 1], s[|s| - 1];
      SplitSegments(t, d);
      var init := Split(t, d);
      var n := |init|;
      var tail := Last(init) + [c];
      var grown := init[..n - 1] + [tail];
      assert forall k :: 0 <= k < n - 1 ==> grown[k] == init[k];
      assert tail[..|tail| - 1] == Last(init);
      if c in d {
        assert Split(s, d) == grown + [""];
        assert ClosedSegment(tail, d);
        assert forall k :: 0 <= k < n ==> (grown + [""])[k] == grown[k];
      } else {
        assert Split(s, d) == grown;
        assert NoDelimiter(tail, d) by {
          forall k | 0 <= k < |tail| ensures tail[k] !in d {
            if k < |tail| - 1 { assert tail[k] == Last(init)[k]; }
          }
        }
      }
    }
  }

  /** The concatenation of a sequence of strings. */
  function Concat(parts: seq<string>): string {
    if |parts| == 0 then "" else Concat(parts[..|parts| - 1]) + Last(parts)
  }

  lemma ConcatSnoc(parts: seq<string>, x: string)
    ensures Concat(parts + [x]) == Concat(parts) + x
  {
    assert (parts + [x])[..|parts|] == parts;
  }

  /** Splitting loses nothing: joining the segments gives back the string. */
  lemma {:induction false} SplitConcat(s: string, d: set<char>)
    ensures Concat(Split(s, d)) == s
    decreases |s|
  {
    if |s| > 0 {
      var t := s[..|s| - 1];
      var c := s[|s| - 1];
      var init := Split(t, d);
      SplitConcat(t, d);
      var front := init[..|init| - 1];
      assert init == front + [Last(init)];
      ConcatSnoc(front, Last(init));
      ConcatSnoc(front, Last(init) + [c]);
      var grown := front + [Last(init) + [c]];
      assert Concat(grown) == t + [c];
      assert s == t + [c];
      if c in d {
        ConcatSnoc(grown, "");
      }
    }
  }

  /** The last segment of a split is the trailing word run of the string. */
  lemma {:induction false} SplitLast(s: string, d: set<char>)
    ensures Last(Split(s, d)) == TrailingRun(s, d)
    decreases |s|
  {
    if |s| > 0 {
      SplitLast(s[..|s| - 1], d);
    }
  }

  /**
   * For a string ending in a delimiter `c`, the segment before the final
   * (empty) one is the word run that `c` ended, followed by `c`.
   */
  lemma SplitBeforeLast(s: string, d: set<char>)
    requires |s| > 0 && s[|s| - 1] in d
    ensures var r := Split(s, d);
      |r| >= 2 && Last(r) == "" && r[|r| - 2] == TrailingRun(s[..|s| - 1], d) + [s[|s| - 1]]
  {
    var t := s[..|s| - 1];
    SplitLast(t, d);
    var init := Split(t, d);
    var grown := init[..|init| - 1] + [Last(init) + [s[|s| - 1]]];
    assert Split(s, d) == grown + [""];
    assert (grown + [""])[|grown| - 1] == Last(init) + [s[|s| - 1]];
  }
}
