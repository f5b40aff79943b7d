/**
 The sound-sensor assistant (`app_LLM4RPI.py`): a poll of the sensor's
 digital line until it reads HIGH, a recording of the analog line as 8-bit
 samples, the RMS intensity of the recording classified as quiet, normal or
 loud, and a prompt chosen by that class whose completion gets one of three
 sarcastic prefixes. Sensor readings, the model and the prefix draw are
 parameters.
 */
module Audio {
  import opened Text
  import opened Engine

  // ---------------------------------------------------------------------
  // Polling and recording

  /** `wait_for_speech` over the digital readings taken within the timeout,
      one per poll (`true` is HIGH). It reports speech exactly when some
      reading is HIGH, and stops polling at the first HIGH one. */
  method WaitForSpeech(readings: seq<bool>) returns (heard: bool, polls: nat)
    ensures heard <==> true in readings
    ensures polls <= |readings|
    ensures forall i :: 0 <= i < polls - 1 ==> !readings[i]
    ensures heard ==> 1 <= polls && readings[polls - 1]
    ensures !heard ==> polls == |readings|
  {
    heard, polls := false, 0;
    while polls < |readings|
      invariant polls <= |readings|
      invariant forall i :: 0 <= i < polls ==> !readings[i]
      decreases |readings| - polls
    {
      polls := polls + 1;
      if readings[polls - 1] {
        heard := true;
        return;
      }
    }
  }

  /** One unsigned 8-bit sample, as `struct.pack('B', ...)` stores it. */
  type Byte = x: int | 0 <= x < 256

  /** `min(255, max(0, v))`. */
  function Clamp(v: int): (b: Byte)
    ensures 0 <= v <= 255 ==> b == v
    ensures v < 0 ==> b == 0
    ensures v > 255 ==> b == 255
  {
    if v < 0 then 0 else if v > 255 then 255 else v
  }

  /** The sample `record_audio` stores for one analog reading. */
  function SampleOf(level: int): Byte {
    Clamp(level * 255)
  }

  /** The frames of `record_audio`, one sample per reading taken before the
      duration elapsed. */
  function Record(levels: seq<int>): (frames: seq<Byte>)
    ensures |frames| == |levels|
    ensures forall i :: 0 <= i < |levels| ==> frames[i] == SampleOf(levels[i])
  {
    seq(|levels|, i requires 0 <= i < |levels| => SampleOf(levels[i]))
  }

  /** Clamping is the identity on bytes, so clamping twice is clamping once,
      and it never inverts the order of two values. */
  lemma ClampFacts(v: int, w: int)
    ensures Clamp(Clamp(v)) == Clamp(v)
    ensures v <= w ==> Clamp(v) <= Clamp(w)
  {
  }

  /** The GPIO line reads 0 or 1, so every recorded sample is 0 or 255. */
  lemma {:induction false} RecordedFromGpio(levels: seq<int>)
    requires forall i :: 0 <= i < |levels| ==> levels[i] == 0 || levels[i] == 1
    ensures forall b :: b in Record(levels) ==> b == 0 || b == 255
  {
    var frames := Record(levels);
    forall b | b in frames
      ensures b == 0 || b == 255
    {
      var i :| 0 <= i < |frames| && frames[i] == b;
      assert frames[i] == SampleOf(levels[i]);
    }
  }

  // ---------------------------------------------------------------------
  // Intensity

  /** `audioop.rms` with width 1 reads each byte as a signed 8-bit value. */
  function Signed(b: Byte): (v: int)
    ensures -128 <= v < 128
    ensures (v - b) % 256 == 0
  {
    if b >= 128 then b - 256 else b
  }

  function SumSquares(frames: seq<Byte>): (s: nat) {
    if frames == [] then 0
    else SumSquares(frames[..|frames| - 1]) + Signed(frames[|frames| - 1]) * Signed(frames[|frames| - 1])
  }

  /** The integer square root. */
  function Isqrt(x: nat): (r: nat)
    ensures r * r <= x < (r + 1) * (r + 1)
  {
    if x == 0 then 0
    else
      var half := Isqrt(x / 4);
      var s := 2 * half;
      IsqrtStep(x, half);
      if (s + 1) * (s + 1) <= x then s + 1 else s
  }

  lemma IsqrtStep(x: nat, half: nat)
    requires half * half <= x / 4 < (half + 1) * (half + 1)
    ensures (2 * half) * (2 * half) <= x < (2 * half + 2) * (2 * half + 2)
  {
    var y := x / 4;
    assert 4 * y <= x < 4 * y + 4;
    assert (2 * half) * (2 * half) == 4 * (half * half);
    assert (2 * half + 2) * (2 * half + 2) == 4 * ((half + 1) * (half + 1));
    assert y + 1 <= (half + 1) * (half + 1);
  }

  /** `audioop.rms(b''.join(frames), 1)`: the square root of the mean of the
      squared signed samples, rounded down; 0 for no samples. */
  function Rms(frames: seq<Byte>): (r: nat)
    ensures frames == [] ==> r == 0
    ensures frames != [] ==>
      var mean := SumSquares(frames) / |frames|;
      r * r <= mean < (r + 1) * (r + 1)
  {
    if frames == [] then 0 else Isqrt(SumSquares(frames) / |frames|)
  }

  lemma MulMonotone(a: int, b: int, n: nat)
    requires a <= b
    ensures a * n <= b * n
  {
  }

  /** A sum of at most `k` per item has a mean of at most `k`. */
  lemma DivBound(s: nat, n: nat, k: nat)
    requires n > 0 && s <= k * n
    ensures s / n <= k
  {
    var q := s / n;
    assert q * n <= s;
    if q > k {
      MulMonotone(k + 1, q, n);
    }
  }

  /** Squares grow with the root: `r * r <= m * m` forces `r <= m`. */
  lemma RootBound(r: nat, m: nat)
    requires r * r <= m * m
    ensures r <= m
  {
    if r > m {
      MulMonotone(m + 1, r, r);
      MulMonotone(m + 1, r, m + 1);
    }
  }

  /** When every signed sample lies within `[-m, m]`, the RMS is at most `m`. */
  lemma {:induction false} RmsBound(frames: seq<Byte>, m: nat)
    requires forall b :: b in frames ==> -(m as int) <= Signed(b) <= m
    ensures Rms(frames) <= m
  {
    if frames != [] {
      SumSquaresBound(frames, m);
      DivBound(SumSquares(frames), |frames|, m * m);
      RootBound(Rms(frames), m);
    }
  }

  lemma {:induction false} SumSquaresBound(frames: seq<Byte>, m: nat)
    requires forall b :: b in frames ==> -(m as int) <= Signed(b) <= m
    ensures SumSquares(frames) <= m * m * |frames|
  {
    if frames != [] {
      var init := frames[..|frames| - 1];
      var v := Signed(frames[|frames| - 1]);
      assert forall b :: b in init ==> b in frames;
      SumSquaresBound(init, m);
      SquareBound(v, m);
      AddBound(SumSquares(init), v * v, m * m, |init|);
    }
  }

  lemma AddBound(a: int, b: int, q: int, k: int)
    requires a <= q * k && b <= q
    ensures a + b <= q * (k + 1)
  {
  }

  lemma SquareBound(v: int, m: nat)
    requires -(m as int) <= v <= m
    ensures v * v <= m * m
  {
    if v >= 0 {
      MulMonotone(v, m, v);
      MulMonotone(v, m, m);
    } else {
      MulMonotone(-v, m, -v);
      MulMonotone(-v, m, m);
    }
  }

  // ---------------------------------------------------------------------
  // Classification and prompt table

  const Quiet: string := "leise_aufnahme"
  const Loud: string := "laute_aufnahme"
  const Normal: string := "normale_aufnahme"

  /** `analyze_audio` on the RMS value: below 50 is quiet, above 200 is
      loud, and everything from 50 to 200 inclusive is normal. */
  function AnalyzeAudio(rms: nat): (kind: string)
    ensures kind == Quiet <==> rms < 50
    ensures kind == Loud <==> rms > 200
    ensures kind == Normal <==> 50 <= rms <= 200
    ensures kind in PromptTable
  {
    LabelsDistinct();
    if rms < 50 then Quiet else if rms > 200 then Loud else Normal
  }

  lemma LabelsDistinct()
    ensures Quiet != Loud && Quiet != Normal && Loud != Normal
  {
    assert Quiet[1] != Loud[1];
    assert |Quiet| != |Normal| && |Loud| != |Normal|;
  }

  /** Position of a label on the quiet-normal-loud scale. */
  function Rank(kind: string): nat {
    if kind == Quiet then 0 else if kind == Normal then 1 else 2
  }

  /** A louder recording is never classified as quieter. */
  lemma ClassifyMonotone(a: nat, b: nat)
    requires a <= b
    ensures Rank(AnalyzeAudio(a)) <= Rank(AnalyzeAudio(b))
  {
    LabelsDistinct();
  }

  /** A silent recording, or no recording at all, is classified as quiet. */
  lemma {:induction false} SilentIsQuiet(frames: seq<Byte>)
    requires forall b :: b in frames ==> b == 0
    ensures Rms(frames) == 0
    ensures AnalyzeAudio(Rms(frames)) == Quiet
  {
    RmsBound(frames, 0);
  }

  /** Every recording of the GPIO line is classified as quiet: its samples
      are 0 and 255, which the signed reading turns into 0 and -1, so the
      RMS is at most 1. */
  lemma {:induction false} RecordedAlwaysQuiet(levels: seq<int>)
    requires forall i :: 0 <= i < |levels| ==> levels[i] == 0 || levels[i] == 1
    ensures Rms(Record(levels)) <= 1
    ensures AnalyzeAudio(Rms(Record(levels))) == Quiet
  {
    RecordedFromGpio(levels);
    RmsBound(Record(levels), 1);
  }

  /** The three sarcastic prompts of `generate_response`, keyed by label.
      The quiet prompt keeps the trailing spaces of its first two lines;
      every continuation line keeps the source's indentation. */
  const PromptTable: map<string, string> := map[
    Quiet := "Du bist ein sarkastischer Assistent. \n" + Indent(32) + "Die Aufnahme war sehr leise. \n"
      + Indent(32) + "Generiere eine kurze, sarkastische Bemerkung dar\U{FC}ber.",
    Loud := "Du bist ein sarkastischer Assistent.\n" + Indent(32) + "Die Aufnahme war sehr laut.\n"
      + Indent(32) + "Generiere eine kurze, sarkastische Bemerkung dar\U{FC}ber.",
    Normal := "Du bist ein sarkastischer Assistent.\n" + Indent(34) + "Generiere eine kurze, sarkastische Bemerkung \U{FC}ber\n"
      + Indent(34) + "eine durchschnittliche Aufnahme."
  ]

  function Indent(n: nat): (s: string)
    ensures |s| == n && forall i :: 0 <= i < n ==> s[i] == ' '
  {
    if n == 0 then [] else [' '] + Indent(n - 1)
  }

  // ---------------------------------------------------------------------
  // Generation

  const Prefixes: seq<string> := ["Oh, wie wundervoll: ", "Nach tiefgr\U{FC}ndiger Analyse: ", "Lass mich dir sagen: "]

  /** The keyword arguments of the `llm(...)` call: one line of at most 100
      tokens, without the prompt echoed. */
  function AudioRequest(prompt: string): (r: Request)
    ensures r.prompt == prompt && r.maxTokens == 100 && r.stop == ["\n"] && r.echo == Some(false)
  {
    Request(
      prompt := prompt,
      maxTokens := 100,
      temperature := 0.7,
      topP := 0.9,
      topK := None,
      repeatPenalty := None,
      presencePenalty := None,
      frequencyPenalty := None,
      stop := ["\n"],
      echo := Some(false))
  }

  /** `generate_response(input_type)` with `prefixIndex` the index
      `random.choice` picked. Nothing in it catches an exception, so an
      unknown label (`KeyError`) or a failed model call gives no answer. */
  function AudioResponse(kind: string, model: Model, prefixIndex: nat): (r: Option<string>)
    requires prefixIndex < |Prefixes|
    ensures r.Some? <==> kind in PromptTable && model(AudioRequest(PromptTable[kind])).Completed?
    ensures r.Some? ==> r.value == Prefixes[prefixIndex] + Strip(model(AudioRequest(PromptTable[kind])).text)
  {
    if kind !in PromptTable then None
    else
      match model(AudioRequest(PromptTable[kind]))
      case Failed => None
      case Completed(text) => Some(Prefixes[prefixIndex] + Strip(text))
  }

  /** Reads an answer back into the prefix it starts with and the model's
      text after it. */
  function Unprefix(s: string): Option<(nat, string)> {
    if Prefixes[0] <= s then Some((0, s[|Prefixes[0]|..]))
    else if Prefixes[1] <= s then Some((1, s[|Prefixes[1]|..]))
    else if Prefixes[2] <= s then Some((2, s[|Prefixes[2]|..]))
    else None
  }

  /** The prefixes start with different letters, so an answer starts with
      exactly one of them, and both the prefix drawn and the stripped model
      text can be read back from it. */
  lemma {:induction false} PrefixRoundTrip(i: nat, text: string)
    requires i < |Prefixes|
    ensures Unprefix(Prefixes[i] + text) == Some((i, text))
    ensures forall j :: 0 <= j < |Prefixes| && j != i ==> !(Prefixes[j] <= Prefixes[i] + text)
  {
    var s := Prefixes[i] + text;
    assert s[..|Prefixes[i]|] == Prefixes[i];
    assert s[0] == Prefixes[i][0];
    assert Prefixes[0][0] == 'O' && Prefixes[1][0] == 'N' && Prefixes[2][0] == 'L';
  }

  /** One turn of the sensor loop after speech was detected: record the
      analog readings, classify, answer. Since the GPIO line only reads 0
      or 1, the turn always sends the quiet prompt. */
  lemma {:induction false} TurnAlwaysAsksQuietPrompt(levels: seq<int>, model: Model, prefixIndex: nat)
    requires prefixIndex < |Prefixes|
    requires forall i :: 0 <= i < |levels| ==> levels[i] == 0 || levels[i] == 1
    ensures var r := AudioResponse(AnalyzeAudio(Rms(Record(levels))), model, prefixIndex);
      && (r.Some? <==> model(AudioRequest(PromptTable[Quiet])).Completed?)
      && (r.Some? ==> Unprefix(r.value) == Some((prefixIndex, Strip(model(AudioRequest(PromptTable[Quiet])).text))))
  {
    RecordedAlwaysQuiet(levels);
    var r := AudioResponse(Quiet, model, prefixIndex);
    if r.Some? {
      PrefixRoundTrip(prefixIndex, Strip(model(AudioRequest(PromptTable[Quiet])).text));
    }
  }
}
