/**
 Topic detection of the console assistant: the input is lower-cased and the
 keyword lists are tried in the fixed order tech, weather, life; the first
 list with a keyword occurring as a substring decides, otherwise `default`.
 */
module Topics {
  import opened Text

  datatype Topic = Tech | Weather | Life | Default

  const TechKeywords: seq<string> :=
    ["computer", "programm", "software", "hardware", "code", "internet", "technologie", "ki", "ai"]
  const WeatherKeywords: seq<string> :=
    ["wetter", "regen", "sonne", "temperatur", "warm", "kalt", "klima"]
  const LifeKeywords: seq<string> :=
    ["leben", "sinn", "philosophie", "zweck", "existenz", "warum"]

  /** Some keyword of the list occurs somewhere in `text` (reference
      definition, by positions). */
  ghost predicate Mentions(keywords: seq<string>, text: string) {
    exists i, j :: 0 <= i < |keywords| && OccursAt(keywords[i], text, j)
  }

  /** The `for keyword in ...: if keyword in text` scan of one list. */
  function MatchesAny(keywords: seq<string>, text: string): (b: bool)
    ensures b <==> Mentions(keywords, text)
  {
    if keywords == [] then false
    else if Contains(text, keywords[0]) then true
    else
      var b := MatchesAny(keywords[1..], text);
      assert Mentions(keywords[1..], text) ==> Mentions(keywords, text) by {
        if Mentions(keywords[1..], text) {
          var i, j :| 0 <= i < |keywords[1..]| && OccursAt(keywords[1..][i], text, j);
          assert OccursAt(keywords[i + 1], text, j);
        }
      }
      assert Mentions(keywords, text) ==> Mentions(keywords[1..], text) by {
        if Mentions(keywords, text) {
          var i, j :| 0 <= i < |keywords| && OccursAt(keywords[i], text, j);
          assert i != 0;
          assert OccursAt(keywords[1..][i - 1], text, j);
        }
      }
      b
  }

  /** `detect_topic`: priority tech > weather > life > default, each list
      matched against the lower-cased input. */
  function DetectTopic(input: string): (t: Topic)
    ensures var low := Lower(input);
      && (t == Tech <==> Mentions(TechKeywords, low))
      && (t == Weather <==> !Mentions(TechKeywords, low) && Mentions(WeatherKeywords, low))
      && (t == Life <==>
            !Mentions(TechKeywords, low) && !Mentions(WeatherKeywords, low) && Mentions(LifeKeywords, low))
      && (t == Default <==>
            !Mentions(TechKeywords, low) && !Mentions(WeatherKeywords, low) && !Mentions(LifeKeywords, low))
  {
    var low := Lower(input);
    if MatchesAny(TechKeywords, low) then Tech
    else if MatchesAny(WeatherKeywords, low) then Weather
    else if MatchesAny(LifeKeywords, low) then Life
    else Default
  }

  /** Detection ignores case: lower-casing the input first changes nothing. */
  lemma DetectTopicIgnoresCase(input: string)
    ensures DetectTopic(Lower(input)) == DetectTopic(input)
  {
    LowerIdempotent(input);
  }

  /** A mention stays a mention when the text is embedded in more text. */
  lemma MentionsInContext(keywords: seq<string>, pre: string, s: string, post: string)
    requires Mentions(keywords, s)
    ensures Mentions(keywords, pre + s + post)
  {
    var i, j :| 0 <= i < |keywords| && OccursAt(keywords[i], s, j);
    assert Contains(s, keywords[i]);
    ContainsInContext(keywords[i], pre, s, post);
    assert Contains(pre + s + post, keywords[i]);
  }

  /** Tech wins whatever else is said: once some part of the input mentions
      a tech keyword, any surrounding text is classified as tech. */
  lemma {:induction false} TechDominates(pre: string, s: string, post: string)
    requires DetectTopic(s) == Tech
    ensures DetectTopic(pre + s + post) == Tech
  {
    LowerConcat(pre + s, post);
    LowerConcat(pre, s);
    MentionsInContext(TechKeywords, Lower(pre), Lower(s), Lower(post));
  }

  /** Once no tech keyword can appear, a weather mention in any part of
      the input makes the whole input weather. */
  lemma {:induction false} WeatherBeatsLife(pre: string, s: string, post: string)
    requires DetectTopic(s) == Weather
    requires DetectTopic(pre + s + post) != Tech
    ensures DetectTopic(pre + s + post) == Weather
  {
    LowerConcat(pre + s, post);
    LowerConcat(pre, s);
    MentionsInContext(WeatherKeywords, Lower(pre), Lower(s), Lower(post));
  }
}
