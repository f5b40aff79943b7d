/**
 `post_process_response` of the console assistant: collapse whitespace runs
 to single spaces, make sure the text ends in `.`, `!` or `?`, then maybe
 append a space and one emoji. The two random draws of the source (the 30%
 coin and the emoji choice) are parameters.
 */
module Finisher {
  import opened Text

  /** The marks `'.!?'` that count as terminal punctuation. */
  predicate IsTerminal(c: char) {
    c == '.' || c == '!' || c == '?'
  }

  /** The eight emojis the source draws from, in the source's order. Each
      is a single code point. */
  const Emojis: seq<char> := [
    '\U{1F916}', '\U{1F60F}', '\U{1F644}', '\U{1F60C}',
    '\U{1F3AD}', '\U{1F4AD}', '\U{1F9E0}', '\U{26A1}'
  ]

  predicate EndsInTerminal(s: string) {
    s != [] && IsTerminal(s[|s| - 1])
  }

  /** The token list with a `.` glued to its last token. */
  function WithDot(ws: seq<string>): (r: seq<string>)
    requires ws != []
    ensures |r| == |ws| && r[..|ws| - 1] == ws[..|ws| - 1]
  {
    ws[..|ws| - 1] + [ws[|ws| - 1] + "."]
  }

  /** Step (b): a `.` is appended to non-empty text that does not already
      end in terminal punctuation; anything else is left alone. */
  function Punctuate(s: string): (r: string)
    ensures s != [] ==> EndsInTerminal(r)
    ensures r == s || (r == s + "." && s != [] && !EndsInTerminal(s))
  {
    if s != [] && !IsTerminal(s[|s| - 1]) then s + "." else s
  }

  lemma {:induction false} JoinWithDot(ws: seq<string>)
    requires ws != []
    ensures Join(ws) + "." == Join(WithDot(ws))
  {
    if |ws| > 1 {
      JoinWithDot(ws[1..]);
      assert WithDot(ws) == [ws[0]] + WithDot(ws[1..]);
      JoinCons(ws[0], ws[1..]);
      JoinCons(ws[0], WithDot(ws[1..]));
      assert [ws[0]] + ws[1..] == ws;
    }
  }

  /** Steps (a) and (b) together: the text the emoji, if any, is added to.
      It is collapsed, empty exactly for blank input, ends in terminal
      punctuation otherwise, and has the input's tokens, the last of which
      gains a `.` when it does not already end in terminal punctuation. */
  function Finish(response: string): (r: string)
    ensures IsCollapsed(r)
    ensures r == [] <==> Blank(response)
    ensures r != [] ==> EndsInTerminal(r)
    ensures var ws := Split(response);
      ws != [] ==>
        Split(r) == (if EndsInTerminal(ws[|ws| - 1]) then ws else WithDot(ws))
  {
    var ws := Split(response);
    SplitBlank(response);
    PunctuatedJoin(ws);
    Punctuate(Join(ws))
  }

  lemma PunctuatedJoin(ws: seq<string>)
    requires AllWords(ws)
    ensures Join(ws) == [] <==> ws == []
    ensures IsCollapsed(Punctuate(Join(ws)))
    ensures ws != [] ==>
      Split(Punctuate(Join(ws))) == (if EndsInTerminal(ws[|ws| - 1]) then ws else WithDot(ws))
  {
    JoinEnds(ws);
    if ws != [] {
      PunctuatedCollapsed(ws);
      PunctuatedTokens(ws);
    }
  }

  lemma PunctuatedCollapsed(ws: seq<string>)
    requires ws != [] && AllWords(ws)
    ensures IsCollapsed(Punctuate(Join(ws)))
  {
    DotWhenNeeded(ws);
    if EndsInTerminal(ws[|ws| - 1]) {
      JoinCollapsed(ws);
    } else {
      DottedCollapsed(ws);
    }
  }

  lemma PunctuatedTokens(ws: seq<string>)
    requires ws != [] && AllWords(ws)
    ensures Split(Punctuate(Join(ws))) == if EndsInTerminal(ws[|ws| - 1]) then ws else WithDot(ws)
  {
    DotWhenNeeded(ws);
    if EndsInTerminal(ws[|ws| - 1]) {
      SplitJoin(ws);
    } else {
      DottedSplit(ws);
    }
  }

  /** Punctuating joined tokens appends a `.` exactly when the last token
      lacks terminal punctuation. */
  lemma DotWhenNeeded(ws: seq<string>)
    requires ws != [] && AllWords(ws)
    ensures Punctuate(Join(ws)) == if EndsInTerminal(ws[|ws| - 1]) then Join(ws) else Join(ws) + "."
  {
    JoinEnds(ws);
  }

  lemma DottedWords(ws: seq<string>)
    requires ws != [] && AllWords(ws)
    ensures AllWords(WithDot(ws))
  {
    var dotted := WithDot(ws);
    var last := ws[|ws| - 1];
    assert IsWord(last + ".");
    assert forall i :: 0 <= i < |dotted| ==> dotted[i] == ws[i] || dotted[i] == last + ".";
  }

  /** Appending `.` to joined tokens keeps the text collapsed. */
  lemma DottedCollapsed(ws: seq<string>)
    requires ws != [] && AllWords(ws)
    ensures IsCollapsed(Join(ws) + ".")
  {
    JoinWithDot(ws);
    DottedWords(ws);
    JoinCollapsed(WithDot(ws));
  }

  /** Appending `.` to joined tokens glues the dot to the last token. */
  lemma DottedSplit(ws: seq<string>)
    requires ws != [] && AllWords(ws)
    ensures Split(Join(ws) + ".") == WithDot(ws)
  {
    JoinWithDot(ws);
    DottedWords(ws);
    SplitJoin(WithDot(ws));
  }

  /** Finishing is idempotent: collapse plus punctuation applied to its own
      result changes nothing. */
  lemma FinishIdempotent(response: string)
    ensures Finish(Finish(response)) == Finish(response)
  {
    var r := Finish(response);
    JoinSplitCollapsed(r);
    assert Collapse(r) == r;
  }

  /** What the emoji step left behind. */
  datatype Decoration = Plain | Emoji(index: nat)

  /** Position of `c` in `xs`, or `|xs|` when absent. */
  function IndexOf(xs: seq<char>, c: char): (k: nat)
    ensures k <= |xs|
    ensures k < |xs| ==> xs[k] == c
    ensures forall j :: 0 <= j < k ==> xs[j] != c
  {
    if xs == [] then 0
    else if xs[0] == c then 0
    else 1 + IndexOf(xs[1..], c)
  }

  /** Splits a finished response into its text and its emoji: a trailing
      space followed by one of the emojis is taken as decoration. */
  function Undecorate(r: string): (string, Decoration) {
    if |r| >= 2 && r[|r| - 2] == ' ' && IndexOf(Emojis, r[|r| - 1]) < |Emojis| then
      (r[..|r| - 2], Emoji(IndexOf(Emojis, r[|r| - 1])))
    else
      (r, Plain)
  }

  /** The emojis are distinct, so an emoji's position identifies it. */
  lemma EmojiIndex(i: nat)
    requires i < |Emojis|
    ensures IndexOf(Emojis, Emojis[i]) == i
  {
    EmojisDistinct();
    var k := IndexOf(Emojis, Emojis[i]);
    assert k <= i;
  }

  lemma EmojisDistinct()
    ensures forall j, k :: 0 <= j < k < |Emojis| ==> Emojis[j] != Emojis[k]
  {
  }

  /** No terminal mark is an emoji. */
  lemma TerminalNotEmoji(c: char)
    requires IsTerminal(c)
    ensures IndexOf(Emojis, c) == |Emojis|
  {
    assert forall j :: 0 <= j < |Emojis| ==> Emojis[j] > '?';
  }

  /** The text with the drawn decoration applied. */
  function Decorate(base: string, addEmoji: bool, emojiIndex: nat): string
    requires emojiIndex < |Emojis|
  {
    if addEmoji then base + " " + [Emojis[emojiIndex]] else base
  }

  /** `post_process_response(response)` where `addEmoji` is the outcome of
      `random.random() < 0.3` and `emojiIndex` the index `random.choice`
      picked. The finished text is recovered from the result together with
      exactly the decoration that was drawn. */
  function PostProcess(response: string, addEmoji: bool, emojiIndex: nat): (r: string)
    requires emojiIndex < |Emojis|
    ensures Undecorate(r) == (Finish(response), if addEmoji then Emoji(emojiIndex) else Plain)
  {
    var base := Finish(response);
    UndecorateFinished(base, addEmoji, emojiIndex);
    Decorate(base, addEmoji, emojiIndex)
  }

  lemma UndecorateFinished(base: string, addEmoji: bool, emojiIndex: nat)
    requires emojiIndex < |Emojis|
    requires base == [] || EndsInTerminal(base)
    ensures Undecorate(Decorate(base, addEmoji, emojiIndex)) == (base, if addEmoji then Emoji(emojiIndex) else Plain)
  {
    if addEmoji {
      EmojiIndex(emojiIndex);
      var r := base + " " + [Emojis[emojiIndex]];
      assert r[|r| - 1] == Emojis[emojiIndex];
      assert r[..|r| - 2] == base;
    } else if |base| >= 2 {
      TerminalNotEmoji(base[|base| - 1]);
    }
  }

  /** Shape of every decorated finished text: it ends in terminal
      punctuation, or in terminal punctuation, a space and one emoji. */
  lemma DecorateShape(base: string, addEmoji: bool, emojiIndex: nat)
    requires emojiIndex < |Emojis|
    requires EndsInTerminal(base)
    ensures var r := Decorate(base, addEmoji, emojiIndex);
      || (!addEmoji && EndsInTerminal(r))
      || (addEmoji && |r| >= 3 && r[|r| - 2] == ' ' && r[|r| - 1] in Emojis && EndsInTerminal(r[..|r| - 2]))
  {
    if addEmoji {
      var r := base + " " + [Emojis[emojiIndex]];
      assert r[..|r| - 2] == base;
    }
  }

  /** Shape of every response made from non-blank text. */
  lemma {:induction false} PostProcessShape(response: string, addEmoji: bool, emojiIndex: nat)
    requires emojiIndex < |Emojis|
    requires !Blank(response)
    ensures var r := PostProcess(response, addEmoji, emojiIndex);
      || (!addEmoji && EndsInTerminal(r))
      || (addEmoji && |r| >= 3 && r[|r| - 2] == ' ' && r[|r| - 1] in Emojis && EndsInTerminal(r[..|r| - 2]))
  {
    DecorateShape(Finish(response), addEmoji, emojiIndex);
  }
}
