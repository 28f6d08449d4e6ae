/**
 * The word logic of the text-document proxy: the current word around the
 * cursor and the queries built from it, the word before the input, the
 * `name.ticker` format check, and the replacement of the current word.
 */
module ProxyWords {
  import opened Wrappers
  import opened StringWords
  import opened HostProxy

  /** The text before the cursor, "" when the host reports none. */
  function Before(p: Context): string {
    p.beforeInput.GetOr("")
  }

  /** The text after the cursor, "" when the host reports none. */
  function After(p: Context): string {
    p.afterInput.GetOr("")
  }

  /** The cursor touches a word: a non-delimiter stands right before it or right after it. */
  predicate TouchesWord(p: Context) {
    var b, a := Before(p), After(p);
    (|b| > 0 && b[|b| - 1] !in p.wordDelimiters) || (|a| > 0 && a[0] !in p.wordDelimiters)
  }

  // ---------------------------------------------------------------------
  // Read-only queries
  // ---------------------------------------------------------------------

  /** `currentWordPreCursorPart`: the part of the current word before the cursor. */
  function CurrentWordPreCursorPart(p: Context): (r: Option<string>)
    ensures r.None? <==> |Before(p)| == 0 || Before(p)[|Before(p)| - 1] in p.wordDelimiters
    ensures r.Some? ==> r.value == TrailingRun(Before(p), p.wordDelimiters)
  {
    match p.beforeInput
    case None => None
    case Some(s) => WordFragmentAtEnd(s, p.wordDelimiters)
  }

  /** `currentWordPostCursorPart`: the part of the current word after the cursor. */
  function CurrentWordPostCursorPart(p: Context): (r: Option<string>)
    ensures r.None? <==> |After(p)| == 0 || After(p)[0] in p.wordDelimiters
    ensures r.Some? ==> r.value == LeadingRun(After(p), p.wordDelimiters)
  {
    match p.afterInput
    case None => None
    case Some(s) => WordFragmentAtStart(s, p.wordDelimiters)
  }

  /**
   * `currentWord`: nil when the cursor touches no word; otherwise the
   * longest delimiter-free stretch of text that runs through the cursor.
   */
  function CurrentWord(p: Context): (r: Option<string>)
    ensures r.None? <==> !TouchesWord(p)
    ensures r.Some? ==> |r.value| > 0 && NoDelimiter(r.value, p.wordDelimiters)
    ensures r.Some? ==> r.value == TrailingRun(Before(p), p.wordDelimiters) + LeadingRun(After(p), p.wordDelimiters)
  {
    var pre := CurrentWordPreCursorPart(p);
    var post := CurrentWordPostCursorPart(p);
    if pre.None? && post.None? then None
    else
      var w := pre.GetOr("") + post.GetOr("");
      assert pre.None? ==> TrailingRun(Before(p), p.wordDelimiters) == "" by {
        var b := Before(p);
        var run := TrailingRun(b, p.wordDelimiters);
        assert |run| > 0 ==> run[|run| - 1] == b[|b| - 1];
      }
      assert post.None? ==> LeadingRun(After(p), p.wordDelimiters) == "" by {
        var a := After(p);
        var run := LeadingRun(a, p.wordDelimiters);
        assert |run| > 0 ==> run[0] == a[0];
      }
      assert NoDelimiter(w, p.wordDelimiters) by {
        var x, y := pre.GetOr(""), post.GetOr("");
        forall i | 0 <= i < |w| ensures w[i] !in p.wordDelimiters {
          if i < |x| { assert w[i] == x[i]; } else { assert w[i] == y[i - |x|]; }
        }
      }
      Some(w)
  }

  /** The current word is its two parts joined; it is nil exactly when both parts are. */
  lemma CurrentWordParts(p: Context)
    ensures CurrentWord(p).None? <==> CurrentWordPreCursorPart(p).None? && CurrentWordPostCursorPart(p).None?
    ensures CurrentWord(p).Some? ==>
      CurrentWord(p).value == CurrentWordPreCursorPart(p).GetOr("") + CurrentWordPostCursorPart(p).GetOr("")
  {
  }

  /** `hasCurrentWord`: whether the cursor touches a word. */
  function HasCurrentWord(p: Context): (r: bool)
    ensures r <==> TouchesWord(p)
  {
    CurrentWord(p) != None
  }

  /** `isCursorAtNewWord`: no text before the cursor, or it ends with a delimiter. */
  function IsCursorAtNewWord(p: Context): (r: bool)
    ensures r <==> CurrentWordPreCursorPart(p).None?
  {
    match p.beforeInput
    case None => true
    case Some(pre) => |pre| == 0 || pre[|pre| - 1] in p.wordDelimiters
  }

  /**
   * `isCursorAtTheEndOfTheCurrentWord`: a word part stands before the cursor
   * and all that follows it in the word, if anything, is whitespace.
   */
  function IsCursorAtTheEndOfTheCurrentWord(p: Context): (r: bool)
    ensures r <==> CurrentWordPreCursorPart(p).Some? && AllWhitespace(LeadingRun(After(p), p.wordDelimiters))
  {
    if CurrentWord(p).None? then false
    else
      var postCount := match CurrentWordPostCursorPart(p) case None => 0 case Some(post) => |Trim(post)|;
      if postCount > 0 then false
      else
        match CurrentWordPreCursorPart(p)
        case None => false
        case Some(pre) => |pre| == 0 || pre[|pre| - 1] !in p.wordDelimiters
  }

  /** With the whitespace characters among the delimiters, the cursor is at the end of the word exactly when no word part follows it. */
  lemma {:induction false} AtEndWhenWhitespaceDelimits(p: Context)
    requires ' ' in p.wordDelimiters && '\t' in p.wordDelimiters
    ensures IsCursorAtTheEndOfTheCurrentWord(p) <==>
      CurrentWordPreCursorPart(p).Some? && CurrentWordPostCursorPart(p).None?
  {
    var run := LeadingRun(After(p), p.wordDelimiters);
    assert |run| > 0 ==> run[0] !in p.wordDelimiters;
  }

  /**
   * `wordBeforeInput`: the word just ended before the cursor. Nil at a new
   * sentence or when the cursor is not at a new word; otherwise the
   * second-to-last segment of the split text before the cursor, trimmed,
   * and nil when that is missing or empty.
   */
  function WordBeforeInput(p: Context, isCursorAtNewSentence: bool): (r: Option<string>)
    ensures isCursorAtNewSentence || !IsCursorAtNewWord(p) ==> r.None?
    ensures r.Some? ==> |r.value| > 0 && !IsWhitespace(r.value[0]) && !IsWhitespace(r.value[|r.value| - 1])
  {
    if isCursorAtNewSentence then None
    else if !IsCursorAtNewWord(p) then None
    else
      match p.beforeInput
      case None => None
      case Some(context) =>
        var segments := Split(context, p.wordDelimiters);
        var dropped := segments[..|segments| - 1];
        if |dropped| == 0 then None
        else
          var result := Trim(Last(dropped));
          if |result| == 0 then None else Some(result)
  }

  /**
   * The word before the input is the run of word characters that the last
   * character (a delimiter) closed, together with that delimiter, trimmed.
   */
  lemma WordBeforeInputIsLastEndedWord(p: Context, s: string)
    requires p.beforeInput == Some(s)
    ensures WordBeforeInput(p, false) ==
      if |s| == 0 || s[|s| - 1] !in p.wordDelimiters then None
      else
        var w := Trim(TrailingRun(s[..|s| - 1], p.wordDelimiters) + [s[|s| - 1]]);
        if |w| == 0 then None else Some(w)
  {
    if |s| > 0 && s[|s| - 1] in p.wordDelimiters {
      SplitBeforeLast(s, p.wordDelimiters);
      var segments := Split(s, p.wordDelimiters);
      assert Last(segments[..|segments| - 1]) == segments[|segments| - 2];
    }
  }

  /** `shouldIncludeCharacterInCurrentWord`: a character that is there and is not a delimiter. */
  function ShouldIncludeCharacterInCurrentWord(c: Option<char>, d: set<char>): (r: bool)
    ensures r <==> c.Some? && NoDelimiter([c.value], d)
  {
    match c
    case None => false
    case Some(ch) =>
      assert [ch][0] == ch;
      ch !in d
  }

  /**
   * The pre-cursor part is what a character-by-character scan backwards from
   * the cursor collects while `shouldIncludeCharacterInCurrentWord` holds.
   */
  lemma PreCursorPartIsIncludedRun(p: Context)
    ensures var b, k := Before(p), |CurrentWordPreCursorPart(p).GetOr("")|;
      k <= |b| &&
      (forall i :: |b| - k <= i < |b| ==> ShouldIncludeCharacterInCurrentWord(Some(b[i]), p.wordDelimiters)) &&
      !ShouldIncludeCharacterInCurrentWord(if k < |b| then Some(b[|b| - k - 1]) else None, p.wordDelimiters)
  {
    var b := Before(p);
    var run := TrailingRun(b, p.wordDelimiters);
    if CurrentWordPreCursorPart(p).None? && |b| > 0 {
      assert b[|b| - 1] in p.wordDelimiters;
    }
    forall i | |b| - |run| <= i < |b| ensures b[i] !in p.wordDelimiters {
      assert b[i] == run[i - (|b| - |run|)];
    }
  }

  /**
   * The post-cursor part is what a forward scan from the cursor collects
   * while `shouldIncludeCharacterInCurrentWord` holds.
   */
  lemma PostCursorPartIsIncludedRun(p: Context)
    ensures var a, k := After(p), |CurrentWordPostCursorPart(p).GetOr("")|;
      k <= |a| &&
      (forall i :: 0 <= i < k ==> ShouldIncludeCharacterInCurrentWord(Some(a[i]), p.wordDelimiters)) &&
      !ShouldIncludeCharacterInCurrentWord(if k < |a| then Some(a[k]) else None, p.wordDelimiters)
  {
    var a := After(p);
    var run := LeadingRun(a, p.wordDelimiters);
    if CurrentWordPostCursorPart(p).None? && |a| > 0 {
      assert a[0] in p.wordDelimiters;
    }
    forall i | 0 <= i < |run| ensures a[i] !in p.wordDelimiters {
      assert a[i] == run[i];
    }
  }

  // ---------------------------------------------------------------------
  // The `name.ticker` format
  // ---------------------------------------------------------------------

  /** A character of the regular-expression class `\w`, restricted to ASCII. */
  predicate IsWordChar(c: char) {
    ('a' <= c <= 'z') || ('A' <= c <= 'Z') || ('0' <= c <= '9') || c == '_'
  }

  predicate AllWordChars(s: string) {
    forall i :: 0 <= i < |s| ==> IsWordChar(s[i])
  }

  /** The ticker allow-list, `^(btc|eth|web|twitter)$`, compared case-sensitively. */
  predicate IsListedTicker(s: string) {
    s == "btc" || s == "eth" || s == "web" || s == "twitter"
  }

  /** Group 2 of `^(\w+)\.(\w+)$`, which must also match the allow-list. */
  predicate TickerGroup(s: string) {
    |s| > 0 && AllWordChars(s) && IsListedTicker(s)
  }

  /** Where the stretch of word characters starting at `i` ends: the first later non-word character, or the end. */
  function WordRunEnd(t: string, i: nat): (j: nat)
    requires i <= |t|
    ensures i <= j <= |t|
    ensures forall k :: i <= k < j ==> IsWordChar(t[k])
    ensures j == |t| || !IsWordChar(t[j])
    decreases |t| - i
  {
    if i < |t| && IsWordChar(t[i]) then WordRunEnd(t, i + 1) else i
  }

  /** A dot right after a non-empty group 1 that ends at `n`, followed by the ticker group. */
  predicate DotAfterName(t: string, n: nat) {
    0 < n < |t| && t[n] == '.' && TickerGroup(t[n + 1..])
  }

  /**
   * The scan behind `checkFormat`, at position `i` of group 1: word
   * characters extend the group, and the first other character must be the
   * dot that ends it.
   */
  predicate MatchFormatFrom(t: string, i: nat)
    requires i <= |t|
    decreases |t| - i
  {
    if i < |t| && IsWordChar(t[i]) then MatchFormatFrom(t, i + 1) else DotAfterName(t, i)
  }

  /**
   * `checkFormat`: `t` matches `^(\w+)\.(\w+)$` and its second group matches
   * `^(btc|eth|web|twitter)$`. Since `\w` excludes the dot, group 1 is the
   * leading stretch of word characters, and the dot must come right after it.
   */
  predicate CheckFormat(t: string)
    ensures CheckFormat(t) <==> DotAfterName(t, WordRunEnd(t, 0))
  {
    MatchFormatFromRunEnd(t, 0);
    MatchFormatFrom(t, 0)
  }

  /** The scan from `i` decides at the end of the word-character stretch that starts there. */
  lemma {:induction false} MatchFormatFromRunEnd(t: string, i: nat)
    requires i <= |t|
    ensures MatchFormatFrom(t, i) == DotAfterName(t, WordRunEnd(t, i))
    decreases |t| - i
  {
    if i < |t| && IsWordChar(t[i]) {
      MatchFormatFromRunEnd(t, i + 1);
    }
  }

  /** The `name.ticker` shape: a dot with a non-empty word before it and an allow-listed word after it. */
  ghost predicate TickerShape(t: string) {
    exists i :: 0 < i < |t| && t[i] == '.' && AllWordChars(t[..i]) && TickerGroup(t[i + 1..])
  }

  /** A string the check accepts has the `name.ticker` shape, split at the end of its leading word-character stretch. */
  lemma CheckFormatGivesShape(t: string)
    requires CheckFormat(t)
    ensures var n := WordRunEnd(t, 0); DotAfterName(t, n) && AllWordChars(t[..n])
  {
    var n := WordRunEnd(t, 0);
    MatchFormatFromRunEnd(t, 0);
    assert AllWordChars(t[..n]) by {
      forall k | 0 <= k < n ensures IsWordChar(t[..n][k]) { assert t[..n][k] == t[k]; }
    }
  }

  /** A string of the `name.ticker` shape passes the check: its only possible split is at its first dot. */
  lemma ShapeGivesCheckFormat(t: string, i: nat)
    requires 0 < i < |t| && t[i] == '.' && AllWordChars(t[..i]) && TickerGroup(t[i + 1..])
    ensures CheckFormat(t)
  {
    assert WordRunEnd(t, 0) == i;
    MatchFormatFromRunEnd(t, 0);
  }

  /** The check accepts exactly the strings of the `name.ticker` shape. */
  lemma CheckFormatMatchesShape(t: string)
    ensures CheckFormat(t) <==> TickerShape(t)
  {
    if CheckFormat(t) {
      CheckFormatGivesShape(t);
    }
    if TickerShape(t) {
      var i :| 0 < i < |t| && t[i] == '.' && AllWordChars(t[..i]) && TickerGroup(t[i + 1..]);
      ShapeGivesCheckFormat(t, i);
    }
  }

  /** A name of word characters, a dot and a listed ticker pass the check. */
  lemma CheckFormatParts(name: string, ticker: string)
    requires |name| > 0 && AllWordChars(name) && IsListedTicker(ticker)
    ensures CheckFormat(name + "." + ticker)
  {
    var t := name + "." + ticker;
    assert t[|name|] == '.' && t[..|name|] == name && t[|name| + 1..] == ticker;
    assert AllWordChars(ticker);
    CheckFormatMatchesShape(t);
  }

  /** Every match has exactly one dot, the one between the name and the ticker. */
  lemma CheckFormatHasOneDot(t: string)
    requires CheckFormat(t)
    ensures exists i :: 0 <= i < |t| && t[i] == '.'
    ensures forall i, j :: 0 <= i < j < |t| && t[i] == '.' ==> t[j] != '.'
  {
    var n := WordRunEnd(t, 0);
    MatchFormatFromRunEnd(t, 0);
    var second := t[n + 1..];
    assert forall j :: n < j < |t| ==> IsWordChar(t[j]) by {
      forall j | n < j < |t| ensures IsWordChar(t[j]) { assert t[j] == second[j - n - 1]; }
    }
  }

  lemma CheckFormatAcceptsListedTickers()
    ensures CheckFormat("user.btc") && CheckFormat("user.eth")
  {
    CheckFormatParts("user", "btc");
    assert "user" + "." + "btc" == "user.btc";
    CheckFormatParts("user", "eth");
    assert "user" + "." + "eth" == "user.eth";
  }

  lemma CheckFormatRejectsOtherShapes()
    ensures !CheckFormat("user.sol") && !CheckFormat("userbtc") && !CheckFormat("a.b.btc") && !CheckFormat("")
  {
    assert !CheckFormat("a.b.btc") by {
      var t := "a.b.btc";
      assert t[1] == '.' && t[3] == '.';
      if CheckFormat(t) {
        CheckFormatHasOneDot(t);
      }
    }
  }

  // ---------------------------------------------------------------------
  // Replacing the current word
  // ---------------------------------------------------------------------

  /** The last index of `c` in `s`, nil when `c` does not occur (`lastIndex(of:)`). */
  function LastIndexOf(s: string, c: char): (r: Option<nat>)
    ensures r.None? <==> c !in s
    ensures r.Some? ==> r.value < |s| && s[r.value] == c && forall j :: r.value < j < |s| ==> s[j] != c
    decreases |s|
  {
    if |s| == 0 then None
    else if s[|s| - 1] == c then Some(|s| - 1)
    else
      var r := LastIndexOf(s[..|s| - 1], c);
      assert c in s <==> c in s[..|s| - 1] by {
        assert s == s[..|s| - 1] + [s[|s| - 1]];
      }
      r
  }

  /**
   * The text that the format check is applied to: what follows the last
   * space of `context`, or all of `context` when it holds no space.
   */
  function TickerCandidate(context: string): (r: string)
    ensures r == TrailingRun(context, {' '})
  {
    var r := match LastIndexOf(context, ' ')
      case Some(i) =>
        // `lastIndex(of:)` never returns `endIndex`, so this test always passes
        if i != |context| then context[i + 1..] else context
      case None => context;
    assert EndsWith(context, r) && NoDelimiter(r, {' '});
    TrailingRunUnique(context, {' '}, r);
    r
  }



  /** How many characters the replacement erases: the whole candidate when it is a `name.ticker` token, else the current word. */
  function DeleteCount(documentContext: Option<string>, word: string): (n: nat)
    ensures var s := TrailingRun(documentContext.GetOr(""), {' '});
      n == if CheckFormat(s) then |s| else |word|
  {
    var context := documentContext.GetOr("");
    var s := TickerCandidate(context);
    if CheckFormat(s) then |s| else |word|
  }

  /** The erase count, stated through the `name.ticker` shape of the text after the context's last space. */
  lemma DeleteCountByShape(documentContext: Option<string>, word: string)
    ensures var s := TrailingRun(documentContext.GetOr(""), {' '});
      DeleteCount(documentContext, word) == if TickerShape(s) then |s| else |word|
  {
    var s := TrailingRun(documentContext.GetOr(""), {' '});
    CheckFormatMatchesShape(s);
  }

  /** A context that ends in a space always erases just the current word. */
  lemma DeleteCountAfterSpace(context: string, word: string)
    requires |context| > 0 && context[|context| - 1] == ' '
    ensures DeleteCount(Some(context), word) == |word|
  {
    assert TickerCandidate(context) == "";
  }

  /** The two numbers `replaceCurrentWord(with:)` works out before it changes anything. */
  datatype Plan = Plan(offset: nat, deleteCount: nat)

  /**
   * The plan for a document: nil without a current word; otherwise the move
   * past the post-cursor part, and the erase count read from the text
   * before the cursor as it was before the move.
   */
  function ReplacePlan(t: Text, d: set<char>): (r: Option<Plan>)
    ensures r.None? <==> !TouchesWord(Context(Some(t.before), Some(t.after), d))
    ensures r.Some? ==> r.value.offset == |LeadingRun(t.after, d)|
    ensures r.Some? && CheckFormat(TickerCandidate(t.before)) ==> r.value.deleteCount == |TickerCandidate(t.before)|
    ensures r.Some? && !CheckFormat(TickerCandidate(t.before)) ==>
      r.value.deleteCount == |TrailingRun(t.before, d)| + |LeadingRun(t.after, d)|
  {
    var p := Context(Some(t.before), Some(t.after), d);
    match CurrentWord(p)
    case None => None
    case Some(word) =>
      Some(Plan(|CurrentWordPostCursorPart(p).GetOr("")|, DeleteCount(Some(t.before), word)))
  }

  /** Carrying out a plan: move, erase, insert. */
  function ApplyPlan(t: Text, plan: Option<Plan>, replacement: string): Text {
    match plan
    case None => t
    case Some(pl) => AfterInsert(AfterDelete(AfterAdjust(t, pl.offset), pl.deleteCount), replacement)
  }

  /**
   * A plan whose move stays inside the text after the cursor and whose
   * erase stays inside the text then before it splices the replacement in
   * at the erased stretch.
   */
  lemma ApplyPlanSplices(t: Text, plan: Option<Plan>, offset: nat, deleteCount: nat, replacement: string)
    requires plan.Some? && plan.value.offset == offset && plan.value.deleteCount == deleteCount
    requires offset <= |t.after| && deleteCount <= |t.before| + offset
    ensures ApplyPlan(t, plan, replacement) ==
      Text((t.before + t.after[..offset])[..|t.before| + offset - deleteCount] + replacement, t.after[offset..])
  {
    var moved := AfterAdjust(t, offset);
    assert moved.before == t.before + t.after[..offset] by {
      assert moved.before + moved.after == t.before + t.after[..offset] + t.after[offset..];
      assert |moved.before| == |t.before| + offset;
      assert moved.before == (moved.before + moved.after)[..|moved.before|];
    }
  }

  lemma PrefixOfJoin(a: string, b: string, k: nat)
    requires k <= |a|
    ensures (a + b)[..k] == a[..k]
  {
  }

  lemma EmptyJoin(b: string, a: string, post: string)
    requires post == []
    ensures b + post == b && a[|post|..] == a
  {
  }

  lemma AppendThree<T>(s: seq<T>, a: T, b: T, c: T)
    ensures s + [a] + [b] + [c] == s + [a, b, c]
  {
  }

  /** The document after `replaceCurrentWord(with:)`. */
  function ReplacedText(t: Text, d: set<char>, replacement: string): Text {
    ApplyPlan(t, ReplacePlan(t, d), replacement)
  }

  /** A document's replacement follows the splice of its plan. */
  lemma ReplacedByPlan(t: Text, d: set<char>, replacement: string, offset: nat, deleteCount: nat)
    requires offset <= |t.after| && deleteCount <= |t.before| + offset
    requires ReplacePlan(t, d).Some?
    requires ReplacePlan(t, d).value.offset == offset && ReplacePlan(t, d).value.deleteCount == deleteCount
    ensures ReplacedText(t, d, replacement) ==
      Text((t.before + t.after[..offset])[..|t.before| + offset - deleteCount] + replacement, t.after[offset..])
  {
    ApplyPlanSplices(t, ReplacePlan(t, d), offset, deleteCount, replacement);
  }

  /** The host calls `replaceCurrentWord(with:)` makes: none, or one move, one delete and one insert, in that order. */
  function ReplaceCalls(t: Text, d: set<char>, replacement: string): seq<HostCall> {
    match ReplacePlan(t, d)
    case None => []
    case Some(plan) => [AdjustCall(plan.offset), DeleteCall(plan.deleteCount), InsertCall(replacement)]
  }

  /** `replaceCurrentWord(with:)`, on a host proxy. */
  method ReplaceCurrentWord(proxy: TextDocument, replacement: string)
    modifies proxy
    ensures proxy.Document() == ReplacedText(old(proxy.Document()), proxy.wordDelimiters, replacement)
    ensures proxy.log == old(proxy.log) + ReplaceCalls(old(proxy.Document()), proxy.wordDelimiters, replacement)
  {
    ghost var t, d, log0 := proxy.Document(), proxy.wordDelimiters, proxy.log;
    var snapshot := proxy.Snapshot();
    assert snapshot == Context(Some(t.before), Some(t.after), d);
    var word := CurrentWord(snapshot);
    if word.None? {
      return;
    }
    // read before the cursor moves
    var sentenceVal := proxy.DocumentContext().GetOr("");

    var offset := |CurrentWordPostCursorPart(snapshot).GetOr("")|;
    ghost var count := DeleteCount(Some(sentenceVal), word.value);
    assert ReplacePlan(t, d) == Some(Plan(offset, count));
    proxy.AdjustTextPosition(offset);
    ghost var moved := proxy.Document();

    var lastIndex := LastIndexOf(sentenceVal, ' ');
    var substring;
    if lastIndex.Some? && lastIndex.value != |sentenceVal| {
      substring := sentenceVal[lastIndex.value + 1..];
    } else {
      substring := sentenceVal;
    }
    assert substring == TickerCandidate(sentenceVal);
    // a `name.ticker` token is erased by its own length, anything else by the word's
    var times := if CheckFormat(substring) then |substring| else |word.value|;
    assert times == count;
    proxy.DeleteBackward(times);
    proxy.InsertText(replacement);
    AppendThree(log0, AdjustCall(offset), DeleteCall(count), InsertCall(replacement));
  }

  /** Without a current word the document is left as it was. */
  lemma ReplaceWithoutWordKeepsText(t: Text, d: set<char>, replacement: string)
    requires !TouchesWord(Context(Some(t.before), Some(t.after), d))
    ensures ReplacedText(t, d, replacement) == t
    ensures ReplaceCalls(t, d, replacement) == []
  {
  }

  /** Outside the ticker case the plan moves past the post-cursor part and erases the whole current word. */
  lemma PlainPlanFacts(t: Text, d: set<char>)
    requires TouchesWord(Context(Some(t.before), Some(t.after), d))
    requires !CheckFormat(TickerCandidate(t.before))
    ensures ReplacePlan(t, d).Some? && ReplacePlan(t, d).value.offset == |LeadingRun(t.after, d)|
    ensures ReplacePlan(t, d).value.deleteCount == |TrailingRun(t.before, d)| + |LeadingRun(t.after, d)|
  {}


  /**
   * Outside the ticker case the current word, and only it, is replaced: the
   * text before its pre-cursor part, the replacement, and the text after
   * its post-cursor part, with the cursor after the replacement.
   */
  lemma ReplaceSwapsCurrentWord(t: Text, d: set<char>, replacement: string)
    requires TouchesWord(Context(Some(t.before), Some(t.after), d))
    requires !CheckFormat(TickerCandidate(t.before))
    ensures ReplacedText(t, d, replacement) ==
      Text(t.before[..|t.before| - |TrailingRun(t.before, d)|] + replacement, t.after[|LeadingRun(t.after, d)|..])
  {
    var pre, post := TrailingRun(t.before, d), LeadingRun(t.after, d);
    PlainPlanFacts(t, d);
    ReplacedByPlan(t, d, replacement, |post|, |pre| + |post|);
    PrefixOfJoin(t.before, t.after[..|post|], |t.before| - |pre|);
  }

  /** In the ticker case the plan moves past the post-cursor part and erases the token's length. */
  lemma TickerPlanFacts(t: Text, d: set<char>)
    requires TouchesWord(Context(Some(t.before), Some(t.after), d))
    requires CheckFormat(TickerCandidate(t.before))
    ensures ReplacePlan(t, d).Some? && ReplacePlan(t, d).value.offset == |LeadingRun(t.after, d)|
    ensures ReplacePlan(t, d).value.deleteCount == |TickerCandidate(t.before)|
  {}

  /**
   * In the ticker case the erased stretch is counted back from the end of
   * the word, but its length is that of the token before the cursor: the
   * token is replaced together with the post-cursor part only when the
   * latter is empty, and otherwise that many characters less of the token's
   * start are erased.
   */
  lemma ReplaceTickerErasesCandidateLength(t: Text, d: set<char>, replacement: string)
    requires TouchesWord(Context(Some(t.before), Some(t.after), d))
    requires CheckFormat(TickerCandidate(t.before))
    ensures ReplacedText(t, d, replacement) ==
      Text((t.before + LeadingRun(t.after, d))[..|t.before| + |LeadingRun(t.after, d)| - |TickerCandidate(t.before)|] + replacement,
           t.after[|LeadingRun(t.after, d)|..])
  {
    var s, post := TickerCandidate(t.before), LeadingRun(t.after, d);
    assert |s| <= |t.before| && |post| <= |t.after|;
    TickerPlanFacts(t, d);
    ReplacedByPlan(t, d, replacement, |post|, |s|);
    assert t.after[..|post|] == post;
  }

  /** With the cursor at the end of the word, a `name.ticker` token before it is replaced whole. */
  lemma ReplaceTickerAtWordEnd(t: Text, d: set<char>, replacement: string)
    requires TouchesWord(Context(Some(t.before), Some(t.after), d))
    requires |t.after| == 0 || t.after[0] in d
    requires CheckFormat(TickerCandidate(t.before))
    ensures ReplacedText(t, d, replacement) == Text(t.before[..|t.before| - |TickerCandidate(t.before)|] + replacement, t.after)
  {
    var post := LeadingRun(t.after, d);
    assert post == [];
    ReplaceTickerErasesCandidateLength(t, d, replacement);
    EmptyJoin(t.before, t.after, post);
  }
}
