/**
 The console assistant (`LLM4RPI/src/llm4rpi.py`): prompt composition from
 the detected topic, the generation request, the choice between a finished
 answer and a canned fallback, and the input policy of the main loop.
 */
module Console {
  import opened Text
  import opened Engine
  import opened Topics
  import opened Finisher

  /** The structural scaffold of a prompt: the persona line opening the
      system turn, one introduction per topic, the numbered rules and
      few-shot examples closing the system turn, the marker opening the user
      turn, and the tail that closes the user turn and opens the assistant
      turn. */
  datatype Template = Template(
    systemOpen: string,
    intro: Topic -> string,
    rules: string,
    userOpen: string,
    tail: string)

  /** The topic introductions. Each is written as its distinguishing head
      followed by the rest of the sentence. */
  function TopicIntro(t: Topic): string {
    match t
    case Tech => "Als Tech-Guru" + " mit Hang zur Ironie verstehe ich nur zu gut die Komplexit\U{E4}t der digitalen Welt..."
    case Weather => "Als wettererfahrener" + " Sarkastiker mit jahrelanger Erfahrung im Wolken-Anstarren..."
    case Life => "Als philosophisch" + " angehauchter Zyniker mit einem PhD in Lebensweisheiten..."
    case Default => "Als professioneller" + " Sarkastiker mit einer Vorliebe f\U{FC}r trockenen Humor..."
  }

  const EndMarker: string := "<|im_end|>"
  const StartMarker: string := "<|im_start|>"

  /** The numbered rules and the three few-shot examples that close the
      system turn, line by line. Long literals are written as sums of short
      pieces, which keeps every proof that can see this constant cheap. */
  const RulesLines: seq<string> := [
    "\n\n",
    "Regeln f\U{FC}r deine Antworten:\n",
    "1. Sei witzig und sarkastisch, aber "
      + "nicht beleidigend\n",
    "2. Verwende moderne Referenzen und "
      + "Wortspiele\n",
    "3. Bleibe trotz Sarkasmus hilfreich und "
      + "informativ\n",
    "4. Nutze kreative Vergleiche und "
      + "Metaphern\n",
    "5. Halte die Antworten kurz und "
      + "pr\U{E4}gnant (max. 2-3 S\U{E4}tze)\n",
    "\n",
    "Beispiele:\n",
    "User: \"Wie ist das Wetter?\"\n",
    "Assistant: Oh, da drau\U{DF}en ist diese "
      + "merkw\U{FC}rdige Sache namens "
      + "'Realit\U{E4}t' - falls du das Fenster "
      + "kennst, diese transparente Wand-App.\n",
    "\n",
    "User: \"Was ist der Sinn des Lebens?\"\n",
    "Assistant: Nach intensiver Berechnung "
      + "mit meinen Quantenprozessoren: "
      + "Wahrscheinlich nicht Netflix bingen und "
      + "Chips essen - aber hey, wer bin ich "
      + "schon, das zu beurteilen?\n",
    "\n",
    "User: \"Erkl\U{E4}re mir "
      + "Programmierung\"\n",
    "Assistant: Stell dir vor, du "
      + "erkl\U{E4}rst einem Toaster sehr "
      + "pr\U{E4}zise, wie er Brot r\U{F6}sten "
      + "soll - nur dass der Toaster ein Diplom "
      + "in Missverst\U{E4}ndnissen hat.\n",
    "<|im_end|>\n"
  ]

  /** The template of `generate_response`. */
  const ConsoleTemplate: Template := Template(
    systemOpen := "<|im_start|>system\n"
      + "Du bist ein \U{E4}u\U{DF}erst sarkastischer KI-Assistent "
      + "mit trockenem Humor und cleveren Antworten.\n",
    intro := TopicIntro,
    rules := Flatten(RulesLines),
    userOpen := "<|im_start|>user\n",
    tail := "\n<|im_end|>\n<|im_start|>assistant\n")

  /** The seven canned answers used whenever generation gives nothing usable. */
  const FallbackResponses: seq<string> := [
    "Meine Sarkasmus-Schaltkreise sind gerade \U{FC}berlastet - zu viel Ironie im System.",
    "Error 418: Ich bin eine Teekanne. Nein, warte, falscher sarcastischer Fehlercode.",
    "Lass mich kurz meine KI-Gehirnzellen neu sortieren...",
    "Quantum-Sarkasmus-Generator tempor\U{E4}r au\U{DF}er Betrieb. Bitte versuchen Sie es erneut.",
    "Meine Witze-Datenbank macht gerade ein wichtiges Update. Komme gleich wieder.",
    "Tut mir leid, mein Sarkasmus-Modul ist gerade im Kaffeepause-Modus.",
    "404 - Witz nicht gefunden. Haben Sie schon versucht, den Humor aus- und wieder einzuschalten?"
  ]

  /** The introductions of different topics differ at index 6, so a prompt
      can only start with the head of one topic. */
  predicate IntrosDistinct(intro: Topic -> string) {
    forall t, u :: t != u ==> |intro(t)| > 6 && |intro(u)| > 6 && intro(t)[6] != intro(u)[6]
  }

  lemma ConsoleIntrosDistinct()
    ensures IntrosDistinct(TopicIntro)
  {
    assert TopicIntro(Tech)[6] == 'c';
    assert TopicIntro(Weather)[6] == 't';
    assert TopicIntro(Life)[6] == 'i';
    assert TopicIntro(Default)[6] == 'o';
  }

  /** Everything before the user text. */
  function PromptHead(tpl: Template, t: Topic): string {
    tpl.systemOpen + tpl.intro(t) + tpl.rules + tpl.userOpen
  }

  /** The f-string prompt: the head for topic `t`, the user text, the tail. */
  function ComposePrompt(tpl: Template, t: Topic, input: string): string {
    PromptHead(tpl, t) + input + tpl.tail
  }

  /** Where the parts of a composed prompt sit. */
  lemma ComposeParts(tpl: Template, t: Topic, input: string)
    ensures var p := ComposePrompt(tpl, t, input);
      && |p| == |PromptHead(tpl, t)| + |input| + |tpl.tail|
      && PromptHead(tpl, t) <= p
      && p[|PromptHead(tpl, t)|..|p| - |tpl.tail|] == input
      && p[|p| - |tpl.tail|..] == tpl.tail
  {
    var h := PromptHead(tpl, t);
    var p := h + input + tpl.tail;
    assert p[..|h|] == h;
    assert p[|h|..|p| - |tpl.tail|] == input;
  }

  predicate IsHeadOf(tpl: Template, t: Topic, p: string) {
    |PromptHead(tpl, t)| + |tpl.tail| <= |p| && PromptHead(tpl, t) <= p
  }

  /** Reads a prompt back into the topic whose head it starts with and the
      user text between that head and the tail. */
  function ParsePrompt(tpl: Template, p: string): Option<(Topic, string)> {
    if !(|p| >= |tpl.tail| && p[|p| - |tpl.tail|..] == tpl.tail) then None
    else if IsHeadOf(tpl, Tech, p) then Some((Tech, p[|PromptHead(tpl, Tech)|..|p| - |tpl.tail|]))
    else if IsHeadOf(tpl, Weather, p) then Some((Weather, p[|PromptHead(tpl, Weather)|..|p| - |tpl.tail|]))
    else if IsHeadOf(tpl, Life, p) then Some((Life, p[|PromptHead(tpl, Life)|..|p| - |tpl.tail|]))
    else if IsHeadOf(tpl, Default, p) then Some((Default, p[|PromptHead(tpl, Default)|..|p| - |tpl.tail|]))
    else None
  }

  lemma HeadsDiffer(tpl: Template, t: Topic, u: Topic, p: string)
    requires IntrosDistinct(tpl.intro) && t != u && PromptHead(tpl, u) <= p
    ensures !(PromptHead(tpl, t) <= p)
  {
    var k := |tpl.systemOpen| + 6;
    assert PromptHead(tpl, t)[k] == tpl.intro(t)[6];
    assert PromptHead(tpl, u)[k] == tpl.intro(u)[6];
  }

  /** A composed prompt determines both its topic and the exact user text:
      the user text sits between the user-turn marker and the tail, and
      nothing follows the assistant marker. */
  lemma {:induction false} PromptRoundTrip(tpl: Template, t: Topic, input: string)
    requires IntrosDistinct(tpl.intro)
    ensures ParsePrompt(tpl, ComposePrompt(tpl, t, input)) == Some((t, input))
  {
    var p := ComposePrompt(tpl, t, input);
    ComposeParts(tpl, t, input);
    forall u | u != t
      ensures !(PromptHead(tpl, u) <= p)
    {
      HeadsDiffer(tpl, u, t, p);
    }
  }

  /** The request `generate_response` sends for `input`: the prompt carries
      the introduction of the detected topic and the input verbatim, and the
      stop list holds the closing role marker. */
  function ConsoleRequest(input: string): (r: Request)
    ensures EndMarker in r.stop && StartMarker in r.stop
    ensures r.maxTokens == 100
  {
    Request(
      prompt := ComposePrompt(ConsoleTemplate, DetectTopic(input), input),
      maxTokens := 100,
      temperature := 0.8,
      topP := 0.9,
      topK := Some(40),
      repeatPenalty := Some(1.3),
      presencePenalty := Some(0.2),
      frequencyPenalty := Some(0.3),
      stop := [EndMarker, StartMarker, "\n\n"],
      echo := None)
  }

  lemma ConsoleRequestRoundTrip(input: string)
    ensures ParsePrompt(ConsoleTemplate, ConsoleRequest(input).prompt) == Some((DetectTopic(input), input))
  {
    ConsoleIntrosDistinct();
    PromptRoundTrip(ConsoleTemplate, DetectTopic(input), input);
  }

  /** The random draws of one `generate_response` call: the fallback index
      `random.choice` would pick, and the two draws of the finisher. */
  datatype Draw = Draw(fallbackIndex: nat, addEmoji: bool, emojiIndex: nat)

  predicate ValidDraw(d: Draw) {
    d.fallbackIndex < |FallbackResponses| && d.emojiIndex < |Emojis|
  }

  /** The model produced something worth finishing: more than three
      characters after stripping. */
  predicate Usable(reply: Reply) {
    reply.Completed? && |Strip(reply.text)| > 3
  }

  /** The decision of `generate_response` once the model has answered: a
      usable completion is finished; a short or empty completion, or a
      failed call, gives the drawn canned answer. */
  function Respond(reply: Reply, d: Draw): (r: string)
    requires ValidDraw(d)
    ensures r != []
    ensures Usable(reply) ==>
      && Undecorate(r) == (Finish(Strip(reply.text)), if d.addEmoji then Emoji(d.emojiIndex) else Plain)
      && EndsInTerminal(Finish(Strip(reply.text)))
    ensures !Usable(reply) ==> r == FallbackResponses[d.fallbackIndex]
  {
    if reply.Completed? && |Strip(reply.text)| > 3 then
      var text := Strip(reply.text);
      assert !Blank(text);
      var r := PostProcess(text, d.addEmoji, d.emojiIndex);
      assert r == [] ==> Undecorate(r) == (r, Plain);
      r
    else
      FallbacksNonEmpty(d.fallbackIndex);
      FallbackResponses[d.fallbackIndex]
  }

  /** `generate_response(input)`: the model is asked with the request for
      `input`, and its reply is finished or replaced by a canned answer. */
  function GenerateResponse(input: string, model: Model, d: Draw): (r: string)
    requires ValidDraw(d)
    ensures r != []
    ensures var reply := model(ConsoleRequest(input));
      && (Usable(reply) ==>
            && Undecorate(r) == (Finish(Strip(reply.text)), if d.addEmoji then Emoji(d.emojiIndex) else Plain)
            && EndsInTerminal(Finish(Strip(reply.text))))
      && (!Usable(reply) ==> r == FallbackResponses[d.fallbackIndex])
  {
    Respond(model(ConsoleRequest(input)), d)
  }

  lemma FallbacksNonEmpty(i: nat)
    requires i < |FallbackResponses|
    ensures FallbackResponses[i] != []
  {
  }

  /** Whatever the model does, the answer is either a finished completion or
      one of the seven fallbacks. */
  lemma AnswerIsFinishedOrFallback(input: string, model: Model, d: Draw)
    requires ValidDraw(d)
    ensures var r := GenerateResponse(input, model, d);
      EndsInTerminal(Undecorate(r).0) || r in FallbackResponses
  {
    RespondIsFinishedOrFallback(model(ConsoleRequest(input)), d);
  }

  lemma RespondIsFinishedOrFallback(reply: Reply, d: Draw)
    requires ValidDraw(d)
    ensures var r := Respond(reply, d);
      EndsInTerminal(Undecorate(r).0) || r in FallbackResponses
  {
  }

  // ---------------------------------------------------------------------
  // Main loop input policy

  /** `get_user_input`: the stripped line, or `None` when reading failed
      (end of input included). */
  function ReadLine(raw: Option<string>): Option<string> {
    match raw
    case None => None
    case Some(line) => Some(Strip(line))
  }

  /** What the loop does with one raw console line. */
  datatype Action = Quit | Reprompt | Ask(question: string)

  /** One iteration of `run`: what the loop does with the line it read. */
  function Dispatch(raw: Option<string>): Action {
    match ReadLine(raw)
    case None => Quit
    case Some(line) =>
      if Lower(line) == "exit" then Quit
      else if Strip(line) == [] then Reprompt
      else Ask(line)
  }

  /** The loop's input policy in terms of the raw line: a failed read or
      `exit` in any letter case (surrounding whitespace ignored) ends the
      loop, a blank line re-prompts, and anything else is asked, stripped;
      a question is never empty and never `exit`. */
  lemma DispatchCases(raw: Option<string>)
    ensures Dispatch(raw) == Quit <==> raw.None? || Lower(Strip(raw.value)) == "exit"
    ensures Dispatch(raw) == Reprompt <==> raw.Some? && Blank(raw.value)
    ensures Dispatch(raw).Ask? ==>
      var q := Dispatch(raw).question;
      q == Strip(raw.value) && q != [] && Lower(q) != "exit"
  {
  }

  /** The questions among the actions, in order. */
  function Questions(actions: seq<Action>): (qs: seq<string>)
    ensures |qs| <= |actions|
  {
    if actions == [] then []
    else
      var last := actions[|actions| - 1];
      Questions(actions[..|actions| - 1]) + (if last.Ask? then [last.question] else [])
  }

  lemma QuestionsSnoc(actions: seq<Action>, a: Action)
    ensures Questions(actions + [a]) == Questions(actions) + (if a.Ask? then [a.question] else [])
  {
    assert (actions + [a])[..|actions|] == actions;
  }

  /** Every question comes from an `Ask` among the actions. */
  lemma {:induction false} QuestionsAreAsked(actions: seq<Action>)
    ensures forall q :: q in Questions(actions) ==> Ask(q) in actions
  {
    if actions != [] {
      var init := actions[..|actions| - 1];
      QuestionsAreAsked(init);
      assert forall a :: a in init ==> a in actions;
    }
  }

  /** The questions of dispatched lines are never empty and never `exit`. */
  lemma QuestionsOfLines(lines: seq<Option<string>>)
    ensures forall q :: q in Questions(Actions(lines)) ==> q != [] && Lower(q) != "exit"
  {
    var actions := Actions(lines);
    QuestionsAreAsked(actions);
    forall q | q in Questions(actions)
      ensures q != [] && Lower(q) != "exit"
    {
      var i :| 0 <= i < |actions| && actions[i] == Ask(q);
      ActionsAt(lines, i);
      DispatchCases(lines[i]);
    }
  }

  /** The action for each line, in order. */
  function Actions(lines: seq<Option<string>>): (actions: seq<Action>)
    ensures |actions| == |lines|
  {
    if lines == [] then [] else Actions(lines[..|lines| - 1]) + [Dispatch(lines[|lines| - 1])]
  }

  lemma ActionsSnoc(lines: seq<Option<string>>, n: nat)
    requires n < |lines|
    ensures Actions(lines[..n + 1]) == Actions(lines[..n]) + [Dispatch(lines[n])]
  {
    assert lines[..n + 1][..n] == lines[..n];
  }

  /** Each line's action is its own dispatch. */
  lemma {:induction false} ActionsAt(lines: seq<Option<string>>, i: nat)
    requires i < |lines|
    ensures Actions(lines)[i] == Dispatch(lines[i])
  {
    if i < |lines| - 1 {
      ActionsAt(lines[..|lines| - 1], i);
    }
  }

  /** `run` over a finite sequence of console lines (`None` is a failed
      read; running out of lines reads as end of input). `stop` is the
      index of the line that ended the loop, or the number of lines; every
      line before it was dispatched without quitting, and the questions
      among them went to generation in order. */
  method Run(lines: seq<Option<string>>) returns (stop: nat, actions: seq<Action>, asked: seq<string>)
    ensures stop <= |lines|
    ensures stop < |lines| ==> Dispatch(lines[stop]) == Quit
    ensures actions == Actions(lines[..stop]) && Quit !in actions
    ensures asked == Questions(actions)
    ensures |asked| == Answerable(lines[..stop])
  {
    stop, actions, asked := 0, [], [];
    while stop < |lines| && Dispatch(lines[stop]) != Quit
      invariant stop <= |lines|
      invariant actions == Actions(lines[..stop]) && Quit !in actions
      invariant asked == Questions(actions)
      decreases |lines| - stop
    {
      var a := Dispatch(lines[stop]);
      ActionsSnoc(lines, stop);
      QuestionsSnoc(actions, a);
      actions := actions + [a];
      if a.Ask? {
        asked := asked + [a.question];
      }
      stop := stop + 1;
    }
    QuestionsCount(lines[..stop]);
  }

  /** A quit-free run of actions comes from lines none of which quits. */
  lemma NoQuitBefore(lines: seq<Option<string>>)
    requires Quit !in Actions(lines)
    ensures forall i :: 0 <= i < |lines| ==> Dispatch(lines[i]) != Quit
  {
    forall i | 0 <= i < |lines|
      ensures Dispatch(lines[i]) != Quit
    {
      ActionsAt(lines, i);
    }
  }

  /** The answers printed for the questions of a run: question `j` is put
      to the model as it answers call `j` (the sampling temperature makes
      each call's reply its own), with one random draw per call. */
  function Answers(questions: seq<string>, models: seq<Model>, draws: seq<Draw>): (answers: seq<string>)
    requires |models| >= |questions| && |draws| >= |questions|
    requires forall j :: 0 <= j < |draws| ==> ValidDraw(draws[j])
    ensures |answers| == |questions|
    ensures forall j :: 0 <= j < |answers| ==> answers[j] == GenerateResponse(questions[j], models[j], draws[j])
    ensures forall j :: 0 <= j < |answers| ==> answers[j] != []
  {
    seq(|questions|, j requires 0 <= j < |questions| => GenerateResponse(questions[j], models[j], draws[j]))
  }

  /** Every printed answer is a finished completion or a canned fallback. */
  lemma AnswersFinishedOrFallback(questions: seq<string>, models: seq<Model>, draws: seq<Draw>)
    requires |models| >= |questions| && |draws| >= |questions|
    requires forall j :: 0 <= j < |draws| ==> ValidDraw(draws[j])
    ensures var answers := Answers(questions, models, draws);
      forall j :: 0 <= j < |answers| ==>
        EndsInTerminal(Undecorate(answers[j]).0) || answers[j] in FallbackResponses
  {
    var answers := Answers(questions, models, draws);
    forall j | 0 <= j < |answers|
      ensures EndsInTerminal(Undecorate(answers[j]).0) || answers[j] in FallbackResponses
    {
      AnswerIsFinishedOrFallback(questions[j], models[j], draws[j]);
    }
  }

  /** Lines that were read and are not blank. */
  function Answerable(lines: seq<Option<string>>): nat {
    if lines == [] then 0
    else
      var last := lines[|lines| - 1];
      Answerable(lines[..|lines| - 1]) + (if last.Some? && !Blank(last.value) then 1 else 0)
  }

  /** Blank lines never reach generation: before the loop stops, the number
      of generation calls is the number of lines that are not blank. */
  lemma {:induction false} QuestionsCount(lines: seq<Option<string>>)
    requires Quit !in Actions(lines)
    ensures |Questions(Actions(lines))| == Answerable(lines)
  {
    if lines != [] {
      var init, last := lines[..|lines| - 1], lines[|lines| - 1];
      QuitFreeInit(lines);
      QuestionsCount(init);
      QuestionsSnoc(Actions(init), Dispatch(last));
      AskedUnlessBlank(last);
    }
  }

  lemma QuitFreeInit(lines: seq<Option<string>>)
    requires lines != [] && Quit !in Actions(lines)
    ensures Quit !in Actions(lines[..|lines| - 1]) && Dispatch(lines[|lines| - 1]) != Quit
  {
    var init := Actions(lines[..|lines| - 1]);
    var d := Dispatch(lines[|lines| - 1]);
    assert Actions(lines) == init + [d];
    assert d in Actions(lines);
    assert forall a :: a in init ==> a in Actions(lines);
  }

  /** A line that does not end the loop is asked exactly when it is not
      blank. */
  lemma AskedUnlessBlank(raw: Option<string>)
    requires Dispatch(raw) != Quit
    ensures Dispatch(raw).Ask? <==> raw.Some? && !Blank(raw.value)
  {
    DispatchCases(raw);
  }
}
