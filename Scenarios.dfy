/**
 * Worked examples of the word logic on concrete documents, with the
 * western delimiters space, period, comma, exclamation and question mark.
 */
module WordScenarios {
  import opened Wrappers
  import opened StringWords
  import opened HostProxy
  import opened ProxyWords

  const Western: set<char> := {' ', '.', ',', '!', '?'}

  /** The word touched in the middle is joined from its two parts. */
  lemma CurrentWordAcrossCursor()
    ensures CurrentWord(Context(Some("hello wor"), Some("ld there"), Western)) == Some("world")
  {
    HelloWorldRuns();
    assert TouchesWord(Context(Some("hello wor"), Some("ld there"), Western));
    assert "wor" + "ld" == "world";
  }

  lemma HelloWorldRuns()
    ensures TrailingRun("hello wor", Western) == "wor"
    ensures LeadingRun("ld there", Western) == "ld"
  {
    assert "hello wor" == "hello" + [' '] + "wor";
    TrailingRunAfterDelimiter("hello", ' ', "wor", Western);
    assert "ld there" == "ld" + [' '] + "there";
    LeadingRunBeforeDelimiter("ld", ' ', "there", Western);
  }

  /** An empty document has no current word, its cursor is at a new word, and a replacement leaves it alone. */
  lemma EmptyDocument(replacement: string)
    ensures CurrentWord(Context(Some(""), Some(""), Western)).None?
    ensures IsCursorAtNewWord(Context(Some(""), Some(""), Western))
    ensures ReplacedText(Text("", ""), Western, replacement) == Text("", "")
  {
    ReplaceWithoutWordKeepsText(Text("", ""), Western, replacement);
  }

  lemma AliceBtcIsTicker()
    ensures CheckFormat("alice.btc")
  {
    CheckFormatParts("alice", "btc");
    assert "alice" + "." + "btc" == "alice.btc";
  }

  /** The candidate is the token after the last space. */
  lemma CandidateOfBuyNowAliceBtc()
    ensures TickerCandidate("buy now alice.btc") == "alice.btc"
  {
    var before := "buy now alice.btc";
    assert before == "buy now" + [' '] + "alice.btc";
    TrailingRunAfterDelimiter("buy now", ' ', "alice.btc", {' '});
  }

  lemma TouchesBuyNowAliceBtc()
    ensures TouchesWord(Context(Some("buy now alice.btc"), Some(""), Western))
  {
    assert "buy now alice.btc"[16] == 'c';
  }

  lemma KeepsBuyNow()
    ensures "buy now alice.btc"[..8] + "alice.eth" == "buy now alice.eth"
  {
  }

  /** A `name.ticker` token before the cursor is replaced whole, not just its last word. */
  lemma ReplaceTickerToken()
    ensures ReplacedText(Text("buy now alice.btc", ""), Western, "alice.eth") == Text("buy now alice.eth", "")
  {
    var before := "buy now alice.btc";
    CandidateOfBuyNowAliceBtc();
    AliceBtcIsTicker();
    TouchesBuyNowAliceBtc();
    ReplaceTickerAtWordEnd(Text(before, ""), Western, "alice.eth");
    KeepsBuyNow();
  }

  lemma AlicebtcIsNotTicker()
    ensures !CheckFormat("alicebtc")
  {
    if CheckFormat("alicebtc") {
      CheckFormatHasOneDot("alicebtc");
    }
  }

  /** The candidate is the text after the space. */
  lemma CandidateOfBuyNowAlicebtc()
    ensures TickerCandidate("buy now alicebtc") == "alicebtc"
  {
    var before := "buy now alicebtc";
    assert before == "buy now" + [' '] + "alicebtc";
    TrailingRunAfterDelimiter("buy now", ' ', "alicebtc", {' '});
  }

  /** The word before the cursor is the text after the space. */
  lemma PreCursorOfBuyNowAlicebtc()
    ensures TrailingRun("buy now alicebtc", Western) == "alicebtc"
  {
    var before := "buy now alicebtc";
    assert before == "buy now" + [' '] + "alicebtc";
    TrailingRunAfterDelimiter("buy now", ' ', "alicebtc", Western);
  }

  lemma TouchesBuyNowAlicebtc()
    ensures TouchesWord(Context(Some("buy now alicebtc"), Some(""), Western))
  {
    assert "buy now alicebtc"[15] == 'c';
  }

  lemma KeepsBuyNowPlain()
    ensures "buy now alicebtc"[..8] + "X" == "buy now X"
    ensures LeadingRun("", Western) == ""
  {
  }

  /** Without the dot the trailing text is an ordinary word, and only that word is replaced. */
  lemma ReplacePlainWord()
    ensures ReplacedText(Text("buy now alicebtc", ""), Western, "X") == Text("buy now X", "")
  {
    var t := Text("buy now alicebtc", "");
    CandidateOfBuyNowAlicebtc();
    PreCursorOfBuyNowAlicebtc();
    AlicebtcIsNotTicker();
    TouchesBuyNowAlicebtc();
    ReplaceSwapsCurrentWord(t, Western, "X");
    KeepsBuyNowPlain();
  }

  /** A context that ends in a space never takes the ticker branch: the current word after the cursor is erased by its own length. */
  lemma ReplaceAfterSpace()
    ensures ReplacedText(Text("buy ", "now"), Western, "X") == Text("buy X", "")
  {
    var t := Text("buy ", "now");
    DeleteCountAfterSpace(t.before, "now");
    TrailingRunUnique(t.before, Western, "");
    LeadingRunUnique(t.after, Western, "now");
    ReplaceSwapsCurrentWord(t, Western, "X");
  }

  /** Without a space the candidate is the whole context. */
  lemma CandidateOfAliceBtc()
    ensures TickerCandidate("alice.btc") == "alice.btc"
  {
    TrailingRunUnique("alice.btc", {' '}, "alice.btc");
  }

  lemma TouchesAliceBtcX()
    ensures TouchesWord(Context(Some("alice.btc"), Some("x"), Western))
    ensures LeadingRun("x", Western) == "x"
  {
    assert "alice.btc"[8] == 'c';
    LeadingRunUnique("x", Western, "x");
  }

  lemma KeepsFirstLetter()
    ensures ("alice.btc" + "x")[..1] + "R" == "aR"
  {
  }

  /**
   * With the cursor inside a ticker's last word, the erase is counted from
   * the end of the whole word but sized by the token before the cursor, so
   * the token's first character survives.
   */
  lemma ReplaceTickerInsideWord()
    ensures ReplacedText(Text("alice.btc", "x"), Western, "R") == Text("aR", "")
  {
    var t := Text("alice.btc", "x");
    CandidateOfAliceBtc();
    AliceBtcIsTicker();
    TouchesAliceBtcX();
    ReplaceTickerErasesCandidateLength(t, Western, "R");
    KeepsFirstLetter();
  }
}
