# KeyboardKit word logic, in Dafny

A model of the word-boundary logic that KeyboardKit adds to the host's
text-document proxy (`UITextDocumentProxy+Words.swift`). Here the proxy is an
editable buffer: the text before the cursor and the text after it, plus three
operations. One moves the cursor, one deletes backward and one inserts text.
The model covers:

- the read-only queries built from the word fragments next to the cursor:
  `currentWord`, its pre- and post-cursor parts, `hasCurrentWord`,
  `isCursorAtNewWord`, `isCursorAtTheEndOfTheCurrentWord`, `wordBeforeInput`
  and `shouldIncludeCharacterInCurrentWord`;
- the free predicate `checkFormat`, which recognises a `name.ticker` token
  whose ticker is on the allow-list `btc`, `eth`, `web`, `twitter`;
- `replaceCurrentWord(with:)`, the destructive protocol: move the cursor to
  the end of the word, erase either the word or the whole `name.ticker`
  token, then insert the replacement.

Files:

- `Wrappers.dfy`: Swift's `Optional` and `??`.
- `StringWords.dfy`: the string helpers the word logic calls (`wordFragmentAtEnd`,
  `wordFragmentAtStart`, `split(by:)`, `trimming(.whitespaces)`). Their Swift
  sources are not part of this model. Each is given a simple stated
  definition. Lemmas characterise what each one returns: uniqueness lemmas
  for the two fragments, the segment shape and round trip for `split(by:)`,
  and the trimmed slice for `trimming(.whitespaces)`.
- `HostProxy.dfy`: the host proxy. The queries read a `Context` value. The
  replacement runs on a `TextDocument` object whose `before`/`after` fields
  are changed in place. The object also logs the host calls made on it.
- `ProxyWords.dfy`: the word logic itself.
- `Scenarios.dfy`: worked examples on concrete documents.

The queries are pure functions of a `Context`, which holds
`documentContextBeforeInput`, `documentContextAfterInput` (either may be nil)
and the word delimiters. `ReplaceCurrentWord` is a method on a
`TextDocument`. Its postcondition ties the new document to `ReplacedText`
(a function of the old document) and the calls it logged to `ReplaceCalls`.
The lemmas then state what that replacement does in each branch.

Two details of the code shape the replacement:

- **Where the context is read.** `documentContext` is read at line 101,
  before the cursor move at line 104. So the erase count comes from the text
  before the cursor as it was before the move.
- **Context ending in a space.** `lastIndex(of:)` never returns `endIndex`,
  so the test on line 107 always passes. A context ending in a space gives
  the empty text after that space as the candidate, and `checkFormat("")` is
  false. The erase is therefore `word.count` (`DeleteCountAfterSpace`).

## Model

| member | source | states |
|---|---|---|
| `StringWords.WordFragmentAtEnd` | Sources/KeyboardKit/Proxy/UITextDocumentProxy+Words.swift:27-29 | nil exactly when the text is empty or ends in a delimiter; otherwise a non-empty, delimiter-free suffix that reaches back to a delimiter or to the start |
| `StringWords.WordFragmentAtStart` | Sources/KeyboardKit/Proxy/UITextDocumentProxy+Words.swift:34-36 | nil exactly when the text is empty or starts with a delimiter; otherwise a non-empty, delimiter-free prefix that reaches a delimiter or the end |
| `StringWords.TrailingRunUnique` | Sources/KeyboardKit/Proxy/UITextDocumentProxy+Words.swift:27-29 | any delimiter-free suffix bounded by a delimiter or the start is the trailing word run, so the fragment is uniquely determined |
| `StringWords.LeadingRunUnique` | Sources/KeyboardKit/Proxy/UITextDocumentProxy+Words.swift:34-36 | any delimiter-free prefix bounded by a delimiter or the end is the leading word run |
| `StringWords.TrailingRunAfterDelimiter` | Sources/KeyboardKit/Proxy/UITextDocumentProxy+Words.swift:27-29 | a word that follows a delimiter is exactly the trailing run of the text |
| `StringWords.LeadingRunBeforeDelimiter` | Sources/KeyboardKit/Proxy/UITextDocumentProxy+Words.swift:34-36 | a word that a delimiter follows is exactly the leading run of the text |
| `StringWords.WordFragmentsOfWord` | Sources/KeyboardKit/Proxy/UITextDocumentProxy+Words.swift:27-36 | a non-empty delimiter-free text is its own fragment at both ends; an empty text has no fragment |
| `StringWords.Trim` | Sources/KeyboardKit/Proxy/UITextDocumentProxy+Words.swift:62 | the result is empty exactly when the text is all whitespace, otherwise it neither starts nor ends with whitespace; an already-trimmed text is unchanged |
| `StringWords.TrimIsInfix` | Sources/KeyboardKit/Proxy/UITextDocumentProxy+Words.swift:62 | the trimmed text is a middle slice of the input with only whitespace on either side of it, so only leading and trailing whitespace is removed |
| `StringWords.SplitConcat` | Sources/KeyboardKit/Proxy/UITextDocumentProxy+Words.swift:76-77 | joining the segments of `split(by:)` gives back the original text |
| `StringWords.Split` | Sources/KeyboardKit/Proxy/UITextDocumentProxy+Words.swift:76-77 | there is always at least one segment: the unterminated remainder, possibly empty |
| `StringWords.SplitSegments` | Sources/KeyboardKit/Proxy/UITextDocumentProxy+Words.swift:76-77 | every segment but the last is non-empty, ends with a delimiter and has no other delimiter; the last segment has no delimiter |
| `StringWords.SplitLast` | Sources/KeyboardKit/Proxy/UITextDocumentProxy+Words.swift:76-79 | the last segment of a split is the trailing word run (the word in progress) |
| `StringWords.SplitBeforeLast` | Sources/KeyboardKit/Proxy/UITextDocumentProxy+Words.swift:76-79 | for a text ending in a delimiter, the last segment is empty and the one before it is the word that delimiter closed, with the delimiter |
| `ProxyWords.CurrentWordPreCursorPart` | Sources/KeyboardKit/Proxy/UITextDocumentProxy+Words.swift:27-29 | nil exactly when the text before the cursor is missing, empty or ends in a delimiter; otherwise the trailing word run of that text |
| `ProxyWords.CurrentWordPostCursorPart` | Sources/KeyboardKit/Proxy/UITextDocumentProxy+Words.swift:34-36 | nil exactly when the text after the cursor is missing, empty or starts with a delimiter; otherwise the leading word run of that text |
| `ProxyWords.CurrentWord` | Sources/KeyboardKit/Proxy/UITextDocumentProxy+Words.swift:17-22 | nil exactly when no non-delimiter character touches the cursor; otherwise a non-empty, delimiter-free word: the trailing run before the cursor followed by the leading run after it |
| `ProxyWords.CurrentWordParts` | Sources/KeyboardKit/Proxy/UITextDocumentProxy+Words.swift:17-22 | the current word is nil exactly when both parts are nil, and otherwise equals `(pre ?? "") + (post ?? "")` |
| `ProxyWords.HasCurrentWord` | Sources/KeyboardKit/Proxy/UITextDocumentProxy+Words.swift:42-44 | true exactly when a non-delimiter character touches the cursor, i.e. when the current word is non-nil |
| `ProxyWords.IsCursorAtNewWord` | Sources/KeyboardKit/Proxy/UITextDocumentProxy+Words.swift:50-54 | true exactly when there is no pre-cursor word part: the text before is nil, empty, or ends in a delimiter |
| `ProxyWords.IsCursorAtTheEndOfTheCurrentWord` | Sources/KeyboardKit/Proxy/UITextDocumentProxy+Words.swift:60-67 | true exactly when a pre-cursor word part exists and the post-cursor word part is empty or all whitespace |
| `ProxyWords.AtEndWhenWhitespaceDelimits` | Sources/KeyboardKit/Proxy/UITextDocumentProxy+Words.swift:60-67 | when space and tab are delimiters, the cursor is at the end of the word exactly when a pre-cursor part exists and no post-cursor part does |
| `ProxyWords.WordBeforeInput` | Sources/KeyboardKit/Proxy/UITextDocumentProxy+Words.swift:72-83 | nil at a new sentence or when the cursor is not at a new word; a result is non-empty and trimmed at both ends |
| `ProxyWords.WordBeforeInputIsLastEndedWord` | Sources/KeyboardKit/Proxy/UITextDocumentProxy+Words.swift:72-83 | outside a new sentence: nil unless the text ends in a delimiter; otherwise the word that delimiter closed, together with the delimiter, trimmed, and nil when that trims to empty |
| `ProxyWords.PreCursorPartIsIncludedRun` | Sources/KeyboardKit/Proxy/UITextDocumentProxy+Words.swift:170-173 | every character of the pre-cursor part passes `shouldIncludeCharacterInCurrentWord`, and the character before it (or nil at the start) does not |
| `ProxyWords.PostCursorPartIsIncludedRun` | Sources/KeyboardKit/Proxy/UITextDocumentProxy+Words.swift:170-173 | every character of the post-cursor part passes `shouldIncludeCharacterInCurrentWord`, and the character after it (or nil at the end) does not |
| `ProxyWords.ShouldIncludeCharacterInCurrentWord` | Sources/KeyboardKit/Proxy/UITextDocumentProxy+Words.swift:170-173 | false for nil; for a character, true exactly when it is not a delimiter |
| `ProxyWords.CheckFormatMatchesShape` | Sources/KeyboardKit/Proxy/UITextDocumentProxy+Words.swift:140-162 | `checkFormat(t)` holds exactly when `t` is a non-empty run of word characters, a dot, and an allow-listed ticker |
| `ProxyWords.CheckFormatGivesShape` | Sources/KeyboardKit/Proxy/UITextDocumentProxy+Words.swift:140-162 | a matching text splits, at the end of its leading word-character run, into a name, a dot and an allow-listed ticker |
| `ProxyWords.ShapeGivesCheckFormat` | Sources/KeyboardKit/Proxy/UITextDocumentProxy+Words.swift:140-162 | every text of the `name.ticker` shape matches |
| `ProxyWords.CheckFormatParts` | Sources/KeyboardKit/Proxy/UITextDocumentProxy+Words.swift:140-162 | a non-empty word-character name, a dot and a listed ticker always match |
| `ProxyWords.CheckFormatHasOneDot` | Sources/KeyboardKit/Proxy/UITextDocumentProxy+Words.swift:140-162 | a matching text contains exactly one dot |
| `ProxyWords.CheckFormatAcceptsListedTickers` | Sources/KeyboardKit/Proxy/UITextDocumentProxy+Words.swift:140-162 | `user.btc` and `user.eth` match |
| `ProxyWords.CheckFormatRejectsOtherShapes` | Sources/KeyboardKit/Proxy/UITextDocumentProxy+Words.swift:140-162 | `user.sol`, `userbtc`, `a.b.btc` and the empty text do not match |
| `ProxyWords.CheckFormat` | Sources/KeyboardKit/Proxy/UITextDocumentProxy+Words.swift:140-162 | holds exactly when the text's leading run of word characters is non-empty, is followed by a dot, and the rest after the dot is an allow-listed ticker of word characters |
| `ProxyWords.LastIndexOf` | Sources/KeyboardKit/Proxy/UITextDocumentProxy+Words.swift:106 | nil exactly when the character does not occur; otherwise an index holding it with no later occurrence |
| `ProxyWords.TickerCandidate` | Sources/KeyboardKit/Proxy/UITextDocumentProxy+Words.swift:106-108 | the candidate is exactly the text after the last space, or the whole context when it has no space: the trailing run of the context with the space as the only delimiter |
| `ProxyWords.DeleteCount` | Sources/KeyboardKit/Proxy/UITextDocumentProxy+Words.swift:106-132 | with `S` the text after the context's last space (or the whole context), the erase count is `S`'s length when `checkFormat(S)` holds, and the word's length otherwise |
| `ProxyWords.DeleteCountByShape` | Sources/KeyboardKit/Proxy/UITextDocumentProxy+Words.swift:106-132 | the same count stated through the `name.ticker` shape: `S`'s length when `S` is a word-character name, a dot and an allow-listed ticker, else the word's length |
| `ProxyWords.DeleteCountAfterSpace` | Sources/KeyboardKit/Proxy/UITextDocumentProxy+Words.swift:106-119 | a context ending in a space always erases the word's length |
| `ProxyWords.ReplacePlan` | Sources/KeyboardKit/Proxy/UITextDocumentProxy+Words.swift:100-132 | no plan without a current word; otherwise the move is the post-cursor part's length, and the erase is the token's length (ticker case) or the whole current word's length |
| `ProxyWords.ReplacedByPlan` | Sources/KeyboardKit/Proxy/UITextDocumentProxy+Words.swift:103-132 | move, erase, insert amount to splicing the replacement over the erased stretch, with the cursor after the replacement |
| `ProxyWords.ReplaceCurrentWord` | Sources/KeyboardKit/Proxy/UITextDocumentProxy+Words.swift:98-137 | the new document is the old one with the plan applied, and the host sees either no call, or exactly one move, one delete and one insert, in that order |
| `ProxyWords.ReplaceWithoutWordKeepsText` | Sources/KeyboardKit/Proxy/UITextDocumentProxy+Words.swift:100 | without a current word the document is unchanged and no host call is made |
| `ProxyWords.PlainPlanFacts` | Sources/KeyboardKit/Proxy/UITextDocumentProxy+Words.swift:115-119 | outside the ticker case the plan moves past the post-cursor part and erases the whole current word |
| `ProxyWords.ReplaceSwapsCurrentWord` | Sources/KeyboardKit/Proxy/UITextDocumentProxy+Words.swift:103-119 | outside the ticker case, exactly the current word is replaced; the text around it is kept and the cursor ends after the replacement |
| `ProxyWords.TickerPlanFacts` | Sources/KeyboardKit/Proxy/UITextDocumentProxy+Words.swift:103-111 | in the ticker case the plan moves past the post-cursor part and erases the token's length |
| `ProxyWords.ReplaceTickerErasesCandidateLength` | Sources/KeyboardKit/Proxy/UITextDocumentProxy+Words.swift:103-111 | in the ticker case, the token's length is erased backward from the end of the whole current word |
| `ProxyWords.ReplaceTickerAtWordEnd` | Sources/KeyboardKit/Proxy/UITextDocumentProxy+Words.swift:106-114 | with the cursor at the end of the word, a `name.ticker` token before it is replaced whole |
| `HostProxy.AfterAdjust` | Sources/KeyboardKit/Proxy/UITextDocumentProxy+Words.swift:104 | a cursor move keeps the document text and moves the cursor by the offset, stopping at either end |
| `HostProxy.AfterDelete` | Sources/KeyboardKit/Proxy/UITextDocumentProxy+Words.swift:111 | a backward delete removes up to that many characters just before the cursor and keeps the text after it |
| `HostProxy.AfterInsert` | Sources/KeyboardKit/Proxy/UITextDocumentProxy+Words.swift:113 | an insert puts the text at the cursor and leaves the cursor after it |
| `HostProxy.TextDocument.AdjustTextPosition` | Sources/KeyboardKit/Proxy/UITextDocumentProxy+Words.swift:104 | the document becomes `AfterAdjust` of the old one, and the move is logged |
| `HostProxy.TextDocument.DeleteBackward` | Sources/KeyboardKit/Proxy/UITextDocumentProxy+Words.swift:111 | the document becomes `AfterDelete` of the old one, and the delete is logged |
| `HostProxy.TextDocument.InsertText` | Sources/KeyboardKit/Proxy/UITextDocumentProxy+Words.swift:113 | the document becomes `AfterInsert` of the old one, and the insert is logged |
| `HostProxy.TextDocument.Snapshot` | Sources/KeyboardKit/Proxy/UITextDocumentProxy+Words.swift:28-35 | the queries see the text on each side of the cursor and the word delimiters |
| `HostProxy.TextDocument.DocumentContext` | Sources/KeyboardKit/Proxy/UITextDocumentProxy+Words.swift:101 | `documentContext` is the whole text before the cursor |
| `WordScenarios.CurrentWordAcrossCursor` | Sources/KeyboardKit/Proxy/UITextDocumentProxy+Words.swift:17-22 | with `hello wor` before the cursor and `ld there` after it, the current word is `world` |
| `WordScenarios.EmptyDocument` | Sources/KeyboardKit/Proxy/UITextDocumentProxy+Words.swift:50-54 | an empty document has no current word, its cursor is at a new word, and a replacement leaves it unchanged |
| `WordScenarios.ReplaceTickerToken` | Sources/KeyboardKit/Proxy/UITextDocumentProxy+Words.swift:106-114 | `buy now alice.btc` with replacement `alice.eth` becomes `buy now alice.eth` |
| `WordScenarios.ReplacePlainWord` | Sources/KeyboardKit/Proxy/UITextDocumentProxy+Words.swift:115-119 | `buy now alicebtc` with replacement `X` becomes `buy now X` |
| `WordScenarios.ReplaceAfterSpace` | Sources/KeyboardKit/Proxy/UITextDocumentProxy+Words.swift:106-119 | `buy ` before and `now` after the cursor, with replacement `X`, becomes `buy X` |
| `WordScenarios.ReplaceTickerInsideWord` | Sources/KeyboardKit/Proxy/UITextDocumentProxy+Words.swift:103-111 | `alice.btc` before and `x` after the cursor, with replacement `R`, becomes `aR`: the erase is sized by the token but counted from the end of the whole word |

## Left out

- Definitions of the string helpers `wordFragmentAtEnd`, `wordFragmentAtStart`, `split(by:)`, `trimming(.whitespaces)` and `isWordDelimiter`: their Swift files are not part of this model. Each is given a stated definition. `split(by:)` is taken to keep each delimiter at the end of its segment and to end with the (possibly empty) unterminated remainder.
- `String.wordDelimiters`: its contents are not part of this model. Delimiters are a parameter, a set of single characters; multi-character delimiter strings are not modelled.
- `trimming(.whitespaces)`: only space and horizontal tab count as whitespace, not the other Unicode space separators.
- `documentContext`: its definition is not part of this model. It is taken to be the text before the cursor, read before the cursor moves.
- `isCursorAtNewSentence`: its definition is not part of this model. It is a boolean parameter of `WordBeforeInput`.
- `HostProxy.TextDocument.Snapshot`: the modelled document always reports both halves. Nil halves are handled by the `Context`-level queries, not by the replacement.
- `checkFormat` regular expressions: `NSRegularExpression` is replaced by a hand-written shape predicate. `\w` is ASCII letters, digits and `_`, not the Unicode word classes. ICU's `$` matching before a final line terminator is not modelled.
- Unicode and lengths: strings are sequences of characters. Swift grapheme-cluster counts and the UTF-16 lengths used for `NSRange` are not distinguished.
- `HostProxy.AfterAdjust`, `HostProxy.AfterDelete`: the host's real text system is not part of this model. A cursor move stops at either end of the document, and a delete stops at its start.
- `WordBeforeInput`: its own contract states only the nil cases and trimming. The exact value is stated by `WordBeforeInputIsLastEndedWord`.
- The other files of the repository (deprecated autocomplete toolbar initialisers, the demo keyboard view, the UIKit button row and the paged keyboard controller) are SwiftUI or UIKit view wiring with no word logic, and are not modelled.
