/**
 The Python string primitives the assistant is built from: the whitespace
 class used by `str.split()` and `str.strip()`, `' '.join(...)`,
 `str.lower()` and the substring test `needle in haystack`.
 */
module Text {

  /** A character Python's `str.isspace` accepts: the set `split()` and
      `strip()` without arguments break and trim on. */
  predicate IsSpace(c: char) {
    || ('\U{9}' <= c <= '\U{D}')
    || ('\U{1C}' <= c <= '\U{1F}')
    || c == ' '
    || c == '\U{85}'
    || c == '\U{A0}'
    || c == '\U{1680}'
    || ('\U{2000}' <= c <= '\U{200A}')
    || c == '\U{2028}'
    || c == '\U{2029}'
    || c == '\U{202F}'
    || c == '\U{205F}'
    || c == '\U{3000}'
  }

  predicate Blank(s: string) {
    forall i :: 0 <= i < |s| ==> IsSpace(s[i])
  }

  /** A token of `split()`: non-empty and free of whitespace. */
  predicate IsWord(w: string) {
    w != [] && forall i :: 0 <= i < |w| ==> !IsSpace(w[i])
  }

  predicate AllWords(ws: seq<string>) {
    forall i :: 0 <= i < |ws| ==> IsWord(ws[i])
  }

  /** `s.lstrip()`: the suffix left after dropping leading whitespace. */
  function TrimStart(s: string): (r: string)
    ensures |r| <= |s| && r == s[|s| - |r|..]
    ensures forall i :: 0 <= i < |s| - |r| ==> IsSpace(s[i])
    ensures r == [] || !IsSpace(r[0])
  {
    if s != [] && IsSpace(s[0]) then TrimStart(s[1..]) else s
  }

  /** `s.rstrip()`: the prefix left after dropping trailing whitespace. */
  function TrimEnd(s: string): (r: string)
    ensures |r| <= |s| && r == s[..|r|]
    ensures forall i :: |r| <= i < |s| ==> IsSpace(s[i])
    ensures r == [] || !IsSpace(r[|r| - 1])
  {
    if s != [] && IsSpace(s[|s| - 1]) then TrimEnd(s[..|s| - 1]) else s
  }

  /** `r` is the slice of `s` starting at `a`, and everything in `s`
      before and after that slice is whitespace. */
  predicate TrimmedAt(s: string, r: string, a: int) {
    && 0 <= a <= |s| - |r|
    && r == s[a..a + |r|]
    && (forall i :: 0 <= i < a ==> IsSpace(s[i]))
    && (forall i :: a + |r| <= i < |s| ==> IsSpace(s[i]))
  }

  /** `r` is `s` with a whitespace-only prefix and a whitespace-only
      suffix cut off. */
  ghost predicate TrimmedFrom(s: string, r: string) {
    exists a :: TrimmedAt(s, r, a)
  }

  /** What `s.strip()` promises of its result `r`: it neither starts nor
      ends in whitespace, it is empty exactly when `s` is blank, and it is
      `s` with only leading and trailing whitespace cut off. */
  ghost predicate Stripped(s: string, r: string) {
    && (r == [] || (!IsSpace(r[0]) && !IsSpace(r[|r| - 1])))
    && (r == [] <==> Blank(s))
    && TrimmedFrom(s, r)
  }

  /** `s.strip()`. */
  function Strip(s: string): (r: string)
    ensures Stripped(s, r)
  {
    StripFacts(s);
    TrimEnd(TrimStart(s))
  }

  lemma StripFacts(s: string)
    ensures Stripped(s, TrimEnd(TrimStart(s)))
  {
    StripBlank(s);
    StripTrimmed(s);
  }

  /** Stripping leaves nothing exactly when everything was whitespace. */
  lemma StripBlank(s: string)
    ensures TrimEnd(TrimStart(s)) == [] <==> Blank(s)
  {
    var t := TrimStart(s);
    if t != [] {
      assert s[|s| - |t|] == t[0];
    }
  }

  /** Cutting the leading and then the trailing whitespace leaves a slice
      of `s` with only whitespace around it. */
  lemma StripTrimmed(s: string)
    ensures TrimmedFrom(s, TrimEnd(TrimStart(s)))
  {
    var t := TrimStart(s);
    StripSlice(s, t, TrimEnd(t));
  }

  /** A whitespace-only prefix and then a whitespace-only suffix cut off
      leave a slice with whitespace only around it. */
  lemma StripSlice(s: string, t: string, r: string)
    requires |t| <= |s| && t == s[|s| - |t|..]
    requires forall i :: 0 <= i < |s| - |t| ==> IsSpace(s[i])
    requires |r| <= |t| && r == t[..|r|]
    requires forall i :: |r| <= i < |t| ==> IsSpace(t[i])
    ensures TrimmedAt(s, r, |s| - |t|)
  {
    var a := |s| - |t|;
    assert r == s[a..a + |r|];
    forall i | a + |r| <= i < |s| ensures IsSpace(s[i]) {
      assert s[i] == t[i - a];
    }
  }

  /** The longest whitespace-free prefix of `s`. */
  function Word(s: string): (w: string)
    ensures |w| <= |s| && w == s[..|w|]
    ensures forall i :: 0 <= i < |w| ==> !IsSpace(w[i])
    ensures |w| == |s| || IsSpace(s[|w|])
    ensures s != [] && !IsSpace(s[0]) ==> w != []
  {
    if s == [] || IsSpace(s[0]) then [] else [s[0]] + Word(s[1..])
  }

  /** `s.split()`: the maximal whitespace-free runs of `s`, in order. */
  function Split(s: string): (ws: seq<string>)
    ensures AllWords(ws)
    decreases |s|
  {
    var t := TrimStart(s);
    if t == [] then []
    else
      var w := Word(t);
      AllWordsCons(w, Split(t[|w|..]));
      [w] + Split(t[|w|..])
  }

  lemma AllWordsCons(w: string, ws: seq<string>)
    requires IsWord(w) && AllWords(ws)
    ensures AllWords([w] + ws)
  {
    forall i | 0 <= i < |[w] + ws|
      ensures IsWord(([w] + ws)[i])
    {
      if i > 0 {
        assert ([w] + ws)[i] == ws[i - 1];
      }
    }
  }

  /** The characters of `s` that are not whitespace, in order. */
  function NonSpace(s: string): string {
    if s == [] then [] else (if IsSpace(s[0]) then [] else [s[0]]) + NonSpace(s[1..])
  }

  /** The strings written one after the other with no separator. */
  function Flatten(ws: seq<string>): string {
    if ws == [] then [] else ws[0] + Flatten(ws[1..])
  }

  lemma {:induction false} NonSpaceAppend(a: string, b: string)
    ensures NonSpace(a + b) == NonSpace(a) + NonSpace(b)
    decreases |a|
  {
    if a != [] {
      assert (a + b)[1..] == a[1..] + b;
      NonSpaceAppend(a[1..], b);
    } else {
      assert a + b == b;
    }
  }

  lemma {:induction false} NonSpaceBlank(s: string)
    requires Blank(s)
    ensures NonSpace(s) == []
    decreases |s|
  {
    if s != [] {
      NonSpaceBlank(s[1..]);
    }
  }

  lemma {:induction false} NonSpaceWord(w: string)
    requires forall i :: 0 <= i < |w| ==> !IsSpace(w[i])
    ensures NonSpace(w) == w
    decreases |w|
  {
    if w != [] {
      NonSpaceWord(w[1..]);
      assert [w[0]] + w[1..] == w;
    }
  }

  /** `split()` loses exactly the whitespace: written one after the other,
      the tokens spell the non-whitespace characters of `s` in order. */
  lemma {:induction false} SplitKeepsText(s: string)
    ensures Flatten(Split(s)) == NonSpace(s)
    decreases |s|
  {
    var t := TrimStart(s);
    NonSpaceTrimStart(s);
    if t != [] {
      var w := Word(t);
      NonSpaceWordThen(t);
      SplitKeepsText(t[|w|..]);
      FlattenCons(w, Split(t[|w|..]));
    }
  }

  lemma NonSpaceTrimStart(s: string)
    ensures NonSpace(TrimStart(s)) == NonSpace(s)
  {
    var t := TrimStart(s);
    var lead := s[..|s| - |t|];
    assert s == lead + t;
    assert Blank(lead) by {
      forall i | 0 <= i < |lead| ensures IsSpace(lead[i]) {
        assert lead[i] == s[i];
      }
    }
    NonSpaceBlank(lead);
    NonSpaceAppend(lead, t);
  }

  lemma NonSpaceWordThen(t: string)
    ensures NonSpace(t) == Word(t) + NonSpace(t[|Word(t)|..])
  {
    var w := Word(t);
    assert t == w + t[|w|..];
    NonSpaceWord(w);
    NonSpaceAppend(w, t[|w|..]);
  }

  lemma FlattenCons(w: string, ws: seq<string>)
    ensures Flatten([w] + ws) == w + Flatten(ws)
  {
    assert ([w] + ws)[1..] == ws;
  }

  /** `split()` breaks at every whitespace character: the tokens of text
      around one whitespace character are the tokens before it followed by
      the tokens after it. With `SplitBlank` and `SplitWord` this fixes the
      result for every input. */
  lemma {:induction false} SplitAtSpace(a: string, c: char, b: string)
    requires IsSpace(c)
    ensures Split(a + [c] + b) == Split(a) + Split(b)
    decreases |a|
  {
    if TrimStart(a) == [] {
      SplitAtSpaceBlank(a, c, b);
    } else {
      var lead, w, rest := LeadWordRest(a);
      SplitAtSpace(rest, c, b);
      SplitAtSpaceAfterWord(a, lead, w, rest, c, b);
    }
  }

  /** Text that is not blank is whitespace, then its first token, then
      either nothing or more text starting with whitespace. */
  lemma LeadWordRest(a: string) returns (lead: string, w: string, rest: string)
    requires TrimStart(a) != []
    ensures a == lead + w + rest && |rest| < |a|
    ensures Blank(lead) && IsWord(w)
    ensures rest == [] || IsSpace(rest[0])
  {
    var t := TrimStart(a);
    lead, w := a[..|a| - |t|], Word(t);
    rest := t[|w|..];
    BlankLead(a);
    TakeDrop(a, |a| - |t|);
    TakeDrop(t, |w|);
    Assoc(lead, w, rest);
    if rest != [] {
      assert rest[0] == t[|w|];
    }
  }

  /** `SplitAtSpace` when there is no token before the whitespace. */
  lemma SplitAtSpaceBlank(a: string, c: char, b: string)
    requires TrimStart(a) == [] && IsSpace(c)
    ensures Split(a + [c] + b) == Split(a) + Split(b)
  {
    TrimmedAway(a);
    BlankSnoc(a, c);
    SplitBlankPrefix(a + [c], b);
    SplitBlank(a);
    PrependEmpty(Split(b));
  }

  /** Text that `lstrip()` removes entirely is blank. */
  lemma TrimmedAway(a: string)
    requires TrimStart(a) == []
    ensures Blank(a)
  {
  }

  /** The step of `SplitAtSpace` past the first token `w`. */
  lemma SplitAtSpaceAfterWord(a: string, lead: string, w: string, rest: string, c: char, b: string)
    requires a == lead + w + rest
    requires Blank(lead) && IsWord(w) && IsSpace(c)
    requires rest == [] || IsSpace(rest[0])
    requires Split(rest + [c] + b) == Split(rest) + Split(b)
    ensures Split(a + [c] + b) == Split(a) + Split(b)
  {
    var more := rest + [c] + b;
    SpaceFirst(rest, c, b);
    Regroup(lead, w, rest, [c], b);
    SplitBlankPrefix(lead, w + more);
    SplitWordThen(w, more);
    Assoc(lead, w, rest);
    SplitBlankPrefix(lead, w + rest);
    SplitWordThen(w, rest);
    Assoc([w], Split(rest), Split(b));
  }

  lemma SpaceFirst(rest: string, c: char, b: string)
    requires IsSpace(c) && (rest == [] || IsSpace(rest[0]))
    ensures IsSpace((rest + [c] + b)[0])
  {
  }

  lemma BlankSnoc(a: string, c: char)
    requires Blank(a) && IsSpace(c)
    ensures Blank(a + [c])
  {
    forall i | 0 <= i < |a + [c]| ensures IsSpace((a + [c])[i]) {
      if i < |a| {
        assert (a + [c])[i] == a[i];
      }
    }
  }

  /** What `lstrip()` cuts off is whitespace. */
  lemma BlankLead(s: string)
    ensures Blank(s[..|s| - |TrimStart(s)|])
  {
    var lead := s[..|s| - |TrimStart(s)|];
    forall i | 0 <= i < |lead| ensures IsSpace(lead[i]) {
      assert lead[i] == s[i];
    }
  }

  /** Leading whitespace does not change the tokens. */
  lemma {:induction false} SplitBlankPrefix(p: string, u: string)
    requires Blank(p)
    ensures Split(p + u) == Split(u)
    decreases |p|
  {
    if p == [] {
      assert p + u == u;
    } else {
      assert (p + u)[1..] == p[1..] + u;
      SplitBlankPrefix(p[1..], u);
    }
  }

  /** `' '.join(ws)`. */
  function Join(ws: seq<string>): string {
    if |ws| == 0 then []
    else if |ws| == 1 then ws[0]
    else ws[0] + " " + Join(ws[1..])
  }

  /** Text in which every whitespace character is a single space with a
      non-whitespace character on both sides: no leading or trailing
      whitespace and no run of two. */
  ghost predicate IsCollapsed(t: string) {
    && (t == [] || (!IsSpace(t[0]) && !IsSpace(t[|t| - 1])))
    && (forall i :: 0 <= i < |t| && IsSpace(t[i]) ==> t[i] == ' ')
    && (forall i :: !SpaceRun(t, i))
  }

  /** Positions `i` and `i + 1` of `t` both hold whitespace. */
  predicate SpaceRun(t: string, i: int) {
    0 <= i && i + 1 < |t| && IsSpace(t[i]) && IsSpace(t[i + 1])
  }

  lemma {:induction false} SplitBlank(s: string)
    ensures Split(s) == [] <==> Blank(s)
  {
    var t := TrimStart(s);
    if t != [] {
      assert s[|s| - |t|] == t[0];
    }
  }

  lemma SplitLeadingSpace(x: string)
    ensures Split(" " + x) == Split(x)
  {
    assert (" " + x)[1..] == x;
  }

  lemma {:induction false} WordOf(w: string, rest: string)
    requires IsWord(w)
    requires rest == [] || IsSpace(rest[0])
    ensures Word(w + rest) == w
    decreases |w|
  {
    var s := w + rest;
    assert s[1..] == w[1..] + rest;
    if |w| > 1 {
      WordOf(w[1..], rest);
    } else {
      assert w[1..] == [];
    }
  }

  lemma SplitWordThen(w: string, rest: string)
    requires IsWord(w)
    requires rest == [] || IsSpace(rest[0])
    ensures Split(w + rest) == [w] + Split(rest)
  {
    var s := w + rest;
    assert TrimStart(s) == s;
    WordOf(w, rest);
    assert s[|w|..] == rest;
  }

  /** Splitting a join of well-formed tokens gives the tokens back. */
  lemma {:induction false} SplitJoin(ws: seq<string>)
    requires AllWords(ws)
    ensures Split(Join(ws)) == ws
  {
    if |ws| == 0 {
    } else if |ws| == 1 {
      SplitWord(ws[0]);
      Singleton(ws);
    } else {
      var rest := ws[1..];
      assert AllWords(rest);
      SplitCons(ws[0], Join(rest));
      SplitJoin(rest);
      ConsTail(ws);
    }
  }

  lemma SplitWord(w: string)
    requires IsWord(w)
    ensures Split(w) == [w]
  {
    SplitWordThen(w, []);
    AppendEmpty(w);
    AppendEmpty([w]);
  }

  // Small sequence identities, kept as lemmas so that the proofs using
  // them state the one equation they need instead of asking the solver
  // for extensionality in a large context.

  lemma AppendEmpty<T>(s: seq<T>)
    ensures s + [] == s
  {
  }

  lemma Singleton<T>(s: seq<T>)
    requires |s| == 1
    ensures s == [s[0]]
  {
  }

  lemma Assoc<T>(x: seq<T>, y: seq<T>, z: seq<T>)
    ensures (x + y) + z == x + (y + z)
  {
  }

  lemma Regroup<T>(p: seq<T>, q: seq<T>, r: seq<T>, x: seq<T>, y: seq<T>)
    ensures p + q + r + x + y == p + (q + (r + x + y))
  {
  }

  lemma TakeDrop<T>(s: seq<T>, k: nat)
    requires k <= |s|
    ensures s == s[..k] + s[k..]
  {
  }

  lemma PrependEmpty<T>(s: seq<T>)
    ensures [] + s == s
  {
  }

  lemma ConsTail<T>(s: seq<T>)
    requires s != []
    ensures [s[0]] + s[1..] == s
  {
  }

  lemma Decompose(t: string, k: nat)
    requires k < |t|
    ensures t == t[..k] + [t[k]] + t[k + 1..]
  {
  }

  /** A token, a space and more text split into the token and the rest. */
  lemma SplitCons(w: string, tail: string)
    requires IsWord(w)
    ensures Split(w + " " + tail) == [w] + Split(tail)
  {
    assert w + " " + tail == w + (" " + tail);
    SplitWordThen(w, " " + tail);
    SplitLeadingSpace(tail);
  }

  /** Joining well-formed tokens gives text that is empty only for no
      tokens and starts and ends with the first and last token's
      characters. */
  lemma {:induction false} JoinEnds(ws: seq<string>)
    requires AllWords(ws)
    ensures Join(ws) == [] <==> ws == []
    ensures ws != [] ==> Join(ws)[0] == ws[0][0]
    ensures ws != [] ==> Join(ws)[|Join(ws)| - 1] == ws[|ws| - 1][|ws[|ws| - 1]| - 1]
  {
    if |ws| > 1 {
      var rest := ws[1..];
      assert AllWords(rest);
      JoinEnds(rest);
      var tail := Join(rest);
      var t := ws[0] + " " + tail;
      assert Join(ws) == t;
      assert t[0] == ws[0][0];
      assert t[|t| - 1] == tail[|tail| - 1];
    }
  }

  /** Joining well-formed tokens yields collapsed text. */
  lemma {:induction false} JoinCollapsed(ws: seq<string>)
    requires AllWords(ws)
    ensures IsCollapsed(Join(ws))
  {
    JoinEnds(ws);
    if |ws| > 1 {
      var w := ws[0];
      var rest := ws[1..];
      assert AllWords(rest);
      JoinCollapsed(rest);
      JoinEnds(rest);
      var tail := Join(rest);
      var t := w + " " + tail;
      assert Join(ws) == t;
      forall i | 0 <= i < |t| && IsSpace(t[i])
        ensures t[i] == ' '
      {
        if i > |w| {
          assert t[i] == tail[i - |w| - 1];
        }
      }
      forall i
        ensures !SpaceRun(t, i)
      {
        if i == |w| && i + 1 < |t| {
          assert t[i + 1] == tail[0];
        } else if i > |w| && i + 1 < |t| {
          assert !SpaceRun(tail, i - |w| - 1);
          assert t[i] == tail[i - |w| - 1];
          assert t[i + 1] == tail[i - |w|];
        }
      }
    }
  }

  /** What follows a space of collapsed text is collapsed and starts with
      a token character. */
  lemma CollapsedAfterSpace(t: string, k: nat)
    requires IsCollapsed(t)
    requires 0 < k <= |t| && IsSpace(t[k - 1])
    ensures t[k..] != [] && !IsSpace(t[k])
    ensures IsCollapsed(t[k..])
  {
    assert k < |t|;
    assert !SpaceRun(t, k - 1);
    var more := t[k..];
    forall i
      ensures !SpaceRun(more, i)
    {
      if 0 <= i && i + 1 < |more| {
        assert more[i] == t[k + i] && more[i + 1] == t[k + i + 1];
        assert !SpaceRun(t, k + i);
      }
    }
  }

  lemma JoinCons(w: string, ms: seq<string>)
    requires ms != []
    ensures Join([w] + ms) == w + " " + Join(ms)
  {
    var all := [w] + ms;
    assert all[0] == w && all[1..] == ms;
  }

  /** The first token of collapsed text is followed by nothing or by one
      space and more collapsed text. */
  lemma CollapsedStep(t: string)
    requires IsCollapsed(t) && t != []
    ensures IsWord(Word(t))
    ensures var n := |Word(t)|;
      n == |t| || (n + 1 < |t| && t[n] == ' ' && IsCollapsed(t[n + 1..]) && !IsSpace(t[n + 1]))
  {
    assert !IsSpace(t[0]);
    var n := |Word(t)|;
    if n < |t| {
      assert IsSpace(t[n]);
      CollapsedAfterSpace(t, n + 1);
    }
  }

  lemma SplitAfterWord(t: string, w: string, more: string)
    requires IsWord(w) && more != [] && !IsSpace(more[0])
    requires t == w + " " + more
    ensures Split(t) == [w] + Split(more)
    ensures Split(more) != []
  {
    assert t == w + (" " + more);
    SplitWordThen(w, " " + more);
    SplitLeadingSpace(more);
    SplitBlank(more);
  }

  /** Collapsed text is its own `' '.join(t.split())`. */
  lemma {:induction false} JoinSplitCollapsed(t: string)
    requires IsCollapsed(t)
    ensures Join(Split(t)) == t
    decreases |t|
  {
    if t != [] {
      CollapsedStep(t);
      var w := Word(t);
      if |w| == |t| {
        assert t == w + [];
        SplitWordThen(w, []);
      } else {
        var more := t[|w| + 1..];
        Decompose(t, |w|);
        SplitAfterWord(t, w, more);
        JoinSplitCollapsed(more);
        JoinCons(w, Split(more));
      }
    }
  }

  /** `' '.join(s.split())`: collapsed text with exactly the tokens of `s`. */
  function Collapse(s: string): (r: string)
    ensures IsCollapsed(r)
    ensures Split(r) == Split(s)
    ensures r == [] <==> Blank(s)
  {
    var ws := Split(s);
    JoinCollapsed(ws);
    JoinEnds(ws);
    SplitJoin(ws);
    SplitBlank(s);
    Join(ws)
  }

  /** Collapsing is idempotent. */
  lemma CollapseIdempotent(s: string)
    ensures Collapse(Collapse(s)) == Collapse(s)
  {
    JoinSplitCollapsed(Collapse(s));
  }

  /** Characters `str.lower()` changes in this model: ASCII `A`-`Z` and the
      Latin-1 capitals U+00C0..U+00DE other than U+00D7. */
  predicate IsUpper(c: char) {
    ('A' <= c <= 'Z') || ('\U{C0}' <= c <= '\U{DE}' && c != '\U{D7}')
  }

  function LowerChar(c: char): char {
    if IsUpper(c) then (c as int + 32) as char else c
  }

  /** `s.lower()`, character by character. */
  function Lower(s: string): (r: string)
    ensures |r| == |s|
    ensures forall i :: 0 <= i < |r| ==> !IsUpper(r[i])
    ensures forall i :: 0 <= i < |s| && !IsUpper(s[i]) ==> r[i] == s[i]
    ensures forall i :: 0 <= i < |s| && IsUpper(s[i]) ==> r[i] as int == s[i] as int + 32
  {
    seq(|s|, i requires 0 <= i < |s| => LowerChar(s[i]))
  }

  lemma LowerIdempotent(s: string)
    ensures Lower(Lower(s)) == Lower(s)
  {
  }

  lemma LowerConcat(a: string, b: string)
    ensures Lower(a + b) == Lower(a) + Lower(b)
  {
  }

  /** `k` occurs in `s` starting at index `j`. */
  predicate OccursAt(k: string, s: string, j: int) {
    0 <= j && j + |k| <= |s| && s[j..j + |k|] == k
  }

  /** Python's `k in s` for strings. */
  function Contains(s: string, k: string): (b: bool)
    ensures b <==> exists j :: OccursAt(k, s, j)
    decreases |s|
  {
    if |k| > |s| then false
    else if s[..|k|] == k then
      assert OccursAt(k, s, 0);
      true
    else
      ContainsShift(s, k);
      Contains(s[1..], k)
  }

  /** Occurrences in `s` not at index 0 are the occurrences in `s[1..]`. */
  lemma ContainsShift(s: string, k: string)
    requires |k| <= |s| && s[..|k|] != k
    ensures (exists j :: OccursAt(k, s, j)) <==> (exists j :: OccursAt(k, s[1..], j))
  {
    if j :| OccursAt(k, s[1..], j) {
      assert s[j + 1..j + 1 + |k|] == s[1..][j..j + |k|];
      assert OccursAt(k, s, j + 1);
    }
    if j :| OccursAt(k, s, j) {
      assert j != 0;
      assert s[1..][j - 1..j - 1 + |k|] == s[j..j + |k|];
      assert OccursAt(k, s[1..], j - 1);
    }
  }

  /** An occurrence survives putting text around it. */
  lemma ContainsInContext(k: string, pre: string, s: string, post: string)
    requires Contains(s, k)
    ensures Contains(pre + s + post, k)
  {
    var j :| OccursAt(k, s, j);
    var t := pre + s + post;
    assert t[|pre| + j..|pre| + j + |k|] == s[j..j + |k|];
    assert OccursAt(k, t, |pre| + j);
  }
}
