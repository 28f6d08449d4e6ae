/**
 * The host's text-document proxy, reduced to what the word logic uses: the
 * text before and after the cursor, a cursor move, delete-backward and
 * insert-text. The real host text system is not part of this model.
 */
module HostProxy {
  import opened Wrappers

  /** What the word queries read from a proxy: the text on each side of the cursor (nil when the host reports none) and the word delimiters. */
  datatype Context = Context(beforeInput: Option<string>, afterInput: Option<string>, wordDelimiters: set<char>)

  /** The document as two halves around the cursor. */
  datatype Text = Text(before: string, after: string)

  /** One call the word logic makes on the host proxy. */
  datatype HostCall = AdjustCall(offset: int) | DeleteCall(times: nat) | InsertCall(text: string)

  function Min(a: int, b: int): int {
    if a < b then a else b
  }

  /** `adjustTextPosition(byCharacterOffset:)`: the cursor moves by `offset`, stopping at either end of the document. */
  function AfterAdjust(t: Text, offset: int): (r: Text)
    ensures r.before + r.after == t.before + t.after
    ensures offset >= 0 ==> |r.before| == Min(|t.before| + offset, |t.before| + |t.after|)
    ensures offset < 0 ==> |r.before| == |t.before| - Min(-offset, |t.before|)
  {
    if offset >= 0 then
      var k := Min(offset, |t.after|);
      assert t.before + t.after == t.before + t.after[..k] + t.after[k..];
      Text(t.before + t.after[..k], t.after[k..])
    else
      var k := Min(-offset, |t.before|);
      var cut := |t.before| - k;
      assert t.before + t.after == t.before[..cut] + (t.before[cut..] + t.after);
      Text(t.before[..cut], t.before[cut..] + t.after)
  }

  /** `deleteBackward(times:)`: up to `times` characters before the cursor are removed; nothing past the start of the document. */
  function AfterDelete(t: Text, times: nat): (r: Text)
    ensures r.after == t.after
    ensures |r.before| == |t.before| - Min(times, |t.before|)
    ensures r.before == t.before[..|r.before|]
  {
    Text(t.before[..|t.before| - Min(times, |t.before|)], t.after)
  }

  /** `insertText(_:)`: the text goes in at the cursor, which ends up after it. */
  function AfterInsert(t: Text, s: string): (r: Text)
    ensures r.after == t.after
    ensures |r.before| == |t.before| + |s|
    ensures r.before[..|t.before|] == t.before && r.before[|t.before|..] == s
  {
    Text(t.before + s, t.after)
  }

  /** A host proxy: the document around the cursor and the calls made on it so far. */
  class TextDocument {
    var before: string
    var after: string
    var log: seq<HostCall>
    const wordDelimiters: set<char>

    constructor (before: string, after: string, wordDelimiters: set<char>)
      ensures this.before == before && this.after == after
      ensures this.wordDelimiters == wordDelimiters && log == []
    {
      this.before := before;
      this.after := after;
      this.wordDelimiters := wordDelimiters;
      log := [];
    }

    function Document(): Text
      reads this
    {
      Text(before, after)
    }

    /** `documentContextBeforeInput`, `documentContextAfterInput` and the delimiters. */
    function Snapshot(): (c: Context)
      reads this
      ensures c.beforeInput == Some(before) && c.afterInput == Some(after)
      ensures c.wordDelimiters == wordDelimiters
    {
      Context(Some(before), Some(after), wordDelimiters)
    }

    /** `documentContext`: the document text up to the cursor. */
    function DocumentContext(): (r: Option<string>)
      reads this
      ensures r == Some(before)
    {
      Some(before)
    }

    method AdjustTextPosition(offset: int)
      modifies this
      ensures Document() == AfterAdjust(old(Document()), offset)
      ensures log == old(log) + [AdjustCall(offset)]
    {
      var t := AfterAdjust(Document(), offset);
      before, after := t.before, t.after;
      log := log + [AdjustCall(offset)];
    }

    method DeleteBackward(times: nat)
      modifies this
      ensures Document() == AfterDelete(old(Document()), times)
      ensures log == old(log) + [DeleteCall(times)]
    {
      before := before[..|before| - Min(times, |before|)];
      log := log + [DeleteCall(times)];
    }

    method InsertText(s: string)
      modifies this
      ensures Document() == AfterInsert(old(Document()), s)
      ensures log == old(log) + [InsertCall(s)]
    {
      before := before + s;
      log := log + [InsertCall(s)];
    }
  }
}
