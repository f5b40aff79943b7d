# LLM4RPI in Dafny

A model of the deterministic core of LLM4RPI. LLM4RPI is a sarcastic assistant for a single-board computer, and it comes in two variants.

- **Console assistant** (`LLM4RPI/src/llm4rpi.py`):
  - reads a line;
  - detects the topic of the line from keyword lists;
  - builds a ChatML-style prompt with the topic's introduction;
  - asks a local language model;
  - either finishes the completion (collapse whitespace, ensure terminal punctuation, maybe add an emoji) or answers with one of seven canned fallbacks.
- **Sound-sensor assistant** (`app_LLM4RPI.py`):
  - polls a sound sensor's digital line;
  - records the analog line as 8-bit samples;
  - classifies the RMS intensity as quiet, normal or loud;
  - asks the model with the prompt for that class;
  - prepends one of three sarcastic prefixes.

The language model, the sensor readings and every random draw are parameters. The model is a total function from a request to either a completion text or a failure. Each random draw is the value the draw produced:
- the 30% emoji coin;
- the emoji index;
- the fallback index;
- the prefix index.

Modules:

- `Text` (`text.dfy`): Python string behaviour the core relies on: `strip()`, `split()`, `' '.join(...)`, `lower()` and substring search. Whitespace is Python's `str.isspace` set.
- `Engine` (`engine.dfy`): the request passed to the model (prompt plus decoding arguments) and the model's reply.
- `Topics` (`topics.dfy`): `detect_topic`.
- `Finisher` (`finisher.dfy`): `post_process_response`.
- `Console` (`console.dfy`):
  - the prompt template and its parser;
  - the generation request;
  - the fallback decision of `generate_response`;
  - the input policy of `run` over a finite sequence of console lines.
- `Audio` (`audio.dfy`):
  - `wait_for_speech` over a finite sequence of readings;
  - the sample clamp of `record_audio`;
  - `audioop.rms` on 8-bit samples;
  - `analyze_audio`;
  - the prompt table and prefixing of `generate_response`.

One consequence of the code as written is stated as a lemma. `audioop.rms` with width 1 reads each byte as a signed value. The GPIO line reads only 0 or 1, so the samples are 0 and 255, which read as 0 and -1. The RMS is therefore at most 1, and every recording is classified `leise_aufnahme` (`Audio.RecordedAlwaysQuiet`, `Audio.TurnAlwaysAsksQuietPrompt`).

## Model

| member | source | states |
|---|---|---|
| Text.Strip | LLM4RPI/src/llm4rpi.py:75 | The stripped line is a slice of the input with only whitespace before and after it, and it has no whitespace at either end. It is empty exactly when the input is blank. |
| Text.Split | LLM4RPI/src/llm4rpi.py:145 | Every token of `split()` is non-empty and free of whitespace. |
| Text.SplitKeepsText | LLM4RPI/src/llm4rpi.py:145 | `split()` drops exactly the whitespace: the tokens written one after the other are the non-whitespace characters of the input, in order. |
| Text.SplitBlank | LLM4RPI/src/llm4rpi.py:145 | `split()` gives no tokens exactly when the text is blank. |
| Text.SplitWord | LLM4RPI/src/llm4rpi.py:145 | Non-empty text without whitespace is its own single token. |
| Text.SplitAtSpace | LLM4RPI/src/llm4rpi.py:145 | `split()` breaks at every whitespace character: the tokens of text around one whitespace character are the tokens before it followed by the tokens after it. With the blank and single-token cases this fixes the tokens of every input. |
| Text.Collapse | LLM4RPI/src/llm4rpi.py:145 | `' '.join(s.split())` has no leading or trailing whitespace and no two adjacent whitespace characters. It has exactly the tokens of the input and is empty exactly for blank input. |
| Text.SplitJoin | LLM4RPI/src/llm4rpi.py:145 | Joining non-empty whitespace-free tokens with single spaces and splitting again gives back the same tokens. |
| Text.JoinSplitCollapsed | LLM4RPI/src/llm4rpi.py:145 | Text that is already collapsed is left unchanged by split-then-join. |
| Text.CollapseIdempotent | LLM4RPI/src/llm4rpi.py:145 | Collapsing twice is the same as collapsing once. |
| Text.Lower | LLM4RPI/src/llm4rpi.py:54 | Lower-casing keeps the length and leaves no capital letter. Each capital becomes its small letter, 32 code points further on, and every other character is kept. |
| Text.LowerIdempotent | LLM4RPI/src/llm4rpi.py:54 | Lower-casing twice is the same as lower-casing once. |
| Text.LowerConcat | LLM4RPI/src/llm4rpi.py:54 | Lower-casing works character by character, so it distributes over concatenation. |
| Text.Contains | LLM4RPI/src/llm4rpi.py:61 | `keyword in text` is true exactly when the keyword occurs at some position of the text. |
| Text.ContainsInContext | LLM4RPI/src/llm4rpi.py:61 | A substring of a text is still a substring once more text is put around it. |
| Topics.MatchesAny | LLM4RPI/src/llm4rpi.py:60-68 | One keyword scan is true exactly when some keyword of the list occurs in the text. |
| Topics.DetectTopic | LLM4RPI/src/llm4rpi.py:52-70 | The lower-cased input gives `tech` iff it mentions a tech keyword. It gives `weather` iff it mentions no tech keyword and some weather keyword. It gives `life` iff it mentions neither of those and some life keyword. Otherwise it gives `default`. |
| Topics.DetectTopicIgnoresCase | LLM4RPI/src/llm4rpi.py:52-62 | Lower-casing the input first does not change the topic. |
| Topics.TechDominates | LLM4RPI/src/llm4rpi.py:60-62 | If any part of the input is detected as tech, the whole input is tech, whatever surrounds that part. |
| Topics.WeatherBeatsLife | LLM4RPI/src/llm4rpi.py:60-65 | If part of the input is detected as weather and the whole input is not tech, the whole input is weather. |
| Finisher.Punctuate | LLM4RPI/src/llm4rpi.py:148-149 | Non-empty text ends in `.`, `!` or `?` afterwards. A `.` is appended only to non-empty text lacking terminal punctuation; all other text is unchanged. |
| Finisher.Finish | LLM4RPI/src/llm4rpi.py:144-149 | The text before the emoji step is collapsed. It is empty exactly for blank input, and otherwise ends in terminal punctuation. Its tokens are the input's tokens, except that the last token gains a `.` exactly when it lacked terminal punctuation. |
| Finisher.FinishIdempotent | LLM4RPI/src/llm4rpi.py:144-149 | Collapsing and punctuating a finished text changes nothing. |
| Finisher.EmojiIndex | LLM4RPI/src/llm4rpi.py:152 | The eight emojis are distinct, so the emoji identifies the index that was drawn. |
| Finisher.PostProcess | LLM4RPI/src/llm4rpi.py:142-156 | Removing a trailing space and emoji from the result gives back the finished text together with exactly the decoration drawn: none, or the drawn emoji. |
| Finisher.PostProcessShape | LLM4RPI/src/llm4rpi.py:148-156 | For non-blank input the result either ends in terminal punctuation, or it is text ending in terminal punctuation followed by a space and one of the eight emojis. Which one is decided by the coin. |
| Console.PromptRoundTrip | LLM4RPI/src/llm4rpi.py:89-114 | Given distinct topic introductions, a composed prompt parses back to exactly its topic and the user text. The user text sits between the user-turn marker and the tail. Nothing follows the assistant-turn marker. |
| Console.ConsoleRequestRoundTrip | LLM4RPI/src/llm4rpi.py:85-114 | The prompt sent for an input carries the introduction of the detected topic and the input verbatim. |
| Console.Respond | LLM4RPI/src/llm4rpi.py:130-140 | A completion longer than three characters after stripping is post-processed. Anything else, including a failed call, gives the drawn fallback. The answer is never empty. |
| Console.GenerateResponse | LLM4RPI/src/llm4rpi.py:81-140 | For the request built from the input, a usable reply gives its finished text plus the drawn decoration, and that text ends in terminal punctuation. An unusable or failed reply gives the drawn fallback. The answer is never empty. |
| Console.AnswerIsFinishedOrFallback | LLM4RPI/src/llm4rpi.py:130-140 | Whatever the model does, the answer is a finished text or a member of the fallback pool. |
| Console.FallbacksNonEmpty | LLM4RPI/src/llm4rpi.py:19-27 | Every canned answer is non-empty. |
| Console.DispatchCases | LLM4RPI/src/llm4rpi.py:168-178 | A line ends the loop iff the read failed or the line is `exit` in any letter case, surrounding whitespace ignored. A line re-prompts iff it is blank. Otherwise it is asked stripped, and it is then neither empty nor `exit`. |
| Console.Run | LLM4RPI/src/llm4rpi.py:158-183 | The loop stops at a line that ends it, or when the lines run out. No line before the stop ends the loop. The questions sent to generation are the asked lines in order, and their number is the number of non-blank lines before the stop. |
| Console.NoQuitBefore | LLM4RPI/src/llm4rpi.py:166-173 | When no action ends the loop, no line does. |
| Console.QuestionsOfLines | LLM4RPI/src/llm4rpi.py:170-182 | No question sent to generation is empty or `exit`. |
| Console.QuestionsCount | LLM4RPI/src/llm4rpi.py:175-182 | Before the loop stops, the number of generation calls equals the number of non-blank lines. |
| Console.Answers | LLM4RPI/src/llm4rpi.py:180-183 | One answer is printed per question. Answer `j` is what `generate_response` gives for question `j`, with the model's reply and the random draws of call `j`, and it is never empty. |
| Console.AnswersFinishedOrFallback | LLM4RPI/src/llm4rpi.py:180-183 | Every printed answer is a finished completion ending in `.`, `!` or `?` (before any emoji), or one of the seven fallbacks. |
| Audio.WaitForSpeech | app_LLM4RPI.py:80-90 | Speech is reported iff some reading is HIGH. Polling stops at the first HIGH reading. Without one, every reading is polled. |
| Audio.Clamp | app_LLM4RPI.py:61 | `min(255, max(0, v))` keeps a byte value unchanged and sends anything below 0 to 0 and anything above 255 to 255. |
| Audio.ClampFacts | app_LLM4RPI.py:61 | Clamping is idempotent and monotone. |
| Audio.Record | app_LLM4RPI.py:52-62 | The recording has one clamped sample per reading, in order. |
| Audio.RecordedFromGpio | app_LLM4RPI.py:58-61 | Readings of 0 or 1 give samples of 0 or 255 only. |
| Audio.Signed | app_LLM4RPI.py:95 | A byte read with width 1 is the signed value congruent to it modulo 256, in [-128, 127]. |
| Audio.Rms | app_LLM4RPI.py:95 | The RMS is the integer square root of the mean squared signed sample, and 0 for no samples. |
| Audio.RmsBound | app_LLM4RPI.py:95 | Signed samples bounded by `m` in absolute value give an RMS of at most `m`. |
| Audio.AnalyzeAudio | app_LLM4RPI.py:92-103 | The label is `leise_aufnahme` iff rms < 50, `laute_aufnahme` iff rms > 200, and `normale_aufnahme` iff 50 <= rms <= 200. The label is a key of the prompt table. |
| Audio.ClassifyMonotone | app_LLM4RPI.py:98-103 | A larger RMS never gets a quieter label. |
| Audio.SilentIsQuiet | app_LLM4RPI.py:95-99 | An all-zero or empty recording has RMS 0 and is quiet. |
| Audio.RecordedAlwaysQuiet | app_LLM4RPI.py:58-99 | Every recording of 0/1 readings has RMS at most 1 and is classified quiet. |
| Audio.AudioResponse | app_LLM4RPI.py:105-140 | There is an answer iff the label is in the prompt table and the model call succeeds. The answer is the drawn prefix followed by the stripped completion of that label's prompt. |
| Audio.PrefixRoundTrip | app_LLM4RPI.py:135-140 | An answer starts with exactly one of the three prefixes. The drawn prefix and the stripped model text can both be read back from it. |
| Audio.TurnAlwaysAsksQuietPrompt | app_LLM4RPI.py:154-162 | One turn after speech was detected always sends the quiet prompt. Its answer, if any, reads back as the drawn prefix and the stripped completion. |

## Left out

- Loading the model, `config.json` and `sys.exit`: startup I/O and process control.
- Printing, `input()`, GPIO setup and reads, eSpeak synthesis, `pygame.mixer` and writing the WAV file: console and hardware I/O. Input lines and sensor readings are sequences given to the model. A failed `input()` is a `None` line.
- Wall-clock timing (`time.time`, `time.sleep`) in `record_audio` and `wait_for_speech`: the readings taken before the deadline are the input sequences.
- The `random` module: each draw is a parameter. `random.random() < 0.3` is a boolean, so the 30% probability is not modelled.
- The language model itself, including how it truncates at stop sequences: the reply is an opaque text or a failure.
- `KeyboardInterrupt`, the `finally: GPIO.cleanup()` and the endless outer loop of the sound-sensor variant: signal and resource handling. One turn of that loop is `Audio.TurnAlwaysAsksQuietPrompt`.
- Text.Lower: Python's `lower()` covers all of Unicode. The model lower-cases only `A`-`Z` and the Latin-1 capitals U+00C0 to U+00DE, except U+00D7. Other characters are kept unchanged, so characters such as U+0130, which Python expands to two characters, are not modelled.
- Audio.Rms: `audioop.rms` takes a floating-point square root of the floating-point mean and truncates it. The model takes the exact integer square root of the integer mean, which is the same number apart from floating-point rounding.
- Audio.AudioResponse: the source catches no exception here, so an unknown label or a failed model call ends the loop. The model returns no answer instead.
- Console.ConsoleRequest: its contract states only the token budget and the stop markers. What the prompt carries is stated by `Console.ConsoleRequestRoundTrip`. The temperature, top-p, top-k and penalty values are carried in the request without any property.
- `post_process_response` of blank text returns an empty string, or a space and the drawn emoji when the coin fires: `Finisher.Finish` of blank text is empty. `generate_response` only finishes text longer than three characters, so its answers are never empty.
- `generate_response` puts the user text into the prompt verbatim, role markers included. Nothing is escaped.
