/**
 * The topic ruleset of server.js, the keyword classifier `inferTopics`, and the
 * `/api/verses` payload projected from the ruleset.
 */
module Topics {
  import opened Text
  import opened Seqs
  import opened JsObjects

  /** A scripture reference shown beside matching items. */
  datatype Verse = Verse(ref: string, text: string)

  /** One entry of the ruleset: its key, display label and keywords. */
  datatype Topic = Topic(key: string, labelText: string, keywords: seq<string>)

  /**
   * `TOPICS`, in declaration order (the order `Object.entries` yields): each
   * topic's key, label and keywords. Its verses are given by VersesAt.
   */
  function Ruleset(): seq<Topic>
  {
    [
      Topic("israel", "Israel & Jerusalem",
        ["israel", "jerusalem", "gaza", "west bank", "idf", "hezbollah", "hamas", "iran"]),
      Topic("wars", "Wars & Rumours of Wars",
        ["war", "invasion", "missile", "artillery", "offensive", "strike", "conflict", "troops", "border clash"]),
      Topic("disasters", "Earthquakes & Disasters",
        ["earthquake", "famine", "pestilence", "outbreak", "pandemic", "wildfire", "hurricane", "flooding", "volcano"]),
      Topic("persecution", "Persecution of Believers",
        ["church attack", "christian", "pastor arrested", "blasphemy law", "religious persecution"]),
      Topic("deception", "Deception & False Christs",
        ["disinformation", "deepfake", "false christ", "propaganda", "messiah claimant", "cult leader"]),
      Topic("tech_control", "Control Tech / Economy",
        ["digital id", "central bank digital currency", "cbdc", "biometric", "surveillance", "cashless", "implant", "microchip", "mark"]),
      Topic("globalism", "Global Governance",
        ["global treaty", "world health", "un resolution", "global tax", "international court", "one world"])
    ]
  }

  /** The `verses` of the `TOPICS` entry at index `i` of `Ruleset()`. */
  function VersesAt(i: nat): seq<Verse>
  {
    match i
    case 0 =>
      [Verse("Zechariah 12:2-3", "Behold, I will make Jerusalem a cup of trembling... all the people of the earth be gathered together against it."),
        Verse("Luke 21:20", "And when ye shall see Jerusalem compassed with armies, then know that the desolation thereof is nigh.")]
    case 1 =>
      [Verse("Matthew 24:6-7", "And ye shall hear of wars and rumours of wars... For nation shall rise against nation...")]
    case 2 =>
      [Verse("Matthew 24:7", "...and there shall be famines, and pestilences, and earthquakes, in divers places.")]
    case 3 =>
      [Verse("Matthew 24:9", "Then shall they deliver you up to be afflicted, and shall kill you..."),
        Verse("Revelation 6:9", "I saw under the altar the souls of them that were slain for the word of God...")]
    case 4 =>
      [Verse("Matthew 24:4-5", "Take heed that no man deceive you. For many shall come in my name...")]
    case 5 =>
      [Verse("Revelation 13:16-17", "And he causeth all... to receive a mark... that no man might buy or sell, save he that had the mark...")]
    case 6 =>
      [Verse("Daniel 7:23-25", "...the fourth beast shall be the fourth kingdom upon earth... and shall devour the whole earth..."),
        Verse("Revelation 13:7", "...power was given him over all kindreds, and tongues, and nations.")]
    case _ => []
  }

  /** The keys of a ruleset, in order. */
  function Keys(rules: seq<Topic>): (ks: seq<string>)
    ensures |ks| == |rules|
    ensures forall i :: 0 <= i < |rules| ==> ks[i] == rules[i].key
  {
    seq(|rules|, i requires 0 <= i < |rules| => rules[i].key)
  }

  /** The ruleset's keys are the seven slugs, in declaration order, each once. */
  lemma RulesetKeys()
    ensures Keys(Ruleset()) == ["israel", "wars", "disasters", "persecution", "deception", "tech_control", "globalism"]
    ensures Distinct(Keys(Ruleset()))
  {
    var ks := Keys(Ruleset());
    assert ks == ["israel", "wars", "disasters", "persecution", "deception", "tech_control", "globalism"];
    assert ks[2][2] != ks[4][2] && ks[2][0] != ks[6][0] && ks[4][0] != ks[6][0];
  }

  /** No two topics of the ruleset share a key, as the keys of a JavaScript object cannot. */
  lemma RulesetKeysDistinct()
    ensures Distinct(Keys(Ruleset()))
  {
    RulesetKeys();
  }

  /** A keyword that is non-empty and does not start with a space. */
  predicate NotBlank(w: string)
  {
    |w| > 0 && w[0] != ' '
  }

  /** Every keyword of the ruleset is non-empty and does not start with a space. */
  lemma RulesetKeywordsNotBlank()
    ensures forall i, j :: 0 <= i < |Ruleset()| && 0 <= j < |Ruleset()[i].keywords| ==> NotBlank(Ruleset()[i].keywords[j])
  {
    forall i | 0 <= i < |Ruleset()|
      ensures forall j :: 0 <= j < |Ruleset()[i].keywords| ==> NotBlank(Ruleset()[i].keywords[j])
    {
      var kws := Ruleset()[i].keywords;
      assert kws in [Ruleset()[0].keywords, Ruleset()[1].keywords, Ruleset()[2].keywords, Ruleset()[3].keywords,
                     Ruleset()[4].keywords, Ruleset()[5].keywords, Ruleset()[6].keywords];
    }
  }

  /** Every topic has a non-empty key and a non-empty label. */
  lemma RulesetNamed()
    ensures forall i :: 0 <= i < |Ruleset()| ==> Ruleset()[i].key != "" && Ruleset()[i].labelText != ""
  {
    forall i | 0 <= i < |Ruleset()|
      ensures Ruleset()[i].key != "" && Ruleset()[i].labelText != ""
    {
      var t := Ruleset()[i];
      assert t in [Ruleset()[0], Ruleset()[1], Ruleset()[2], Ruleset()[3], Ruleset()[4], Ruleset()[5], Ruleset()[6]];
    }
  }

  /** `cfg.keywords.some(k => lower.includes(k))`. */
  predicate AnyKeyword(keywords: seq<string>, lower: string)
  {
    exists w :: w in keywords && Contains(lower, w)
  }

  /**
   * The keys, in ruleset order, of the topics one of whose keywords occurs in
   * the (already lowercased) text.
   */
  function Classify(rules: seq<Topic>, lower: string): (found: seq<string>)
    ensures IsSubseq(found, Keys(rules))
    ensures forall k :: k in found <==>
      exists i :: 0 <= i < |rules| && rules[i].key == k && AnyKeyword(rules[i].keywords, lower)
  {
    if rules == [] then []
    else
      var rest := Classify(rules[1..], lower);
      assert Keys(rules[1..]) == Keys(rules)[1..];
      assert forall i :: 0 < i < |rules| ==> rules[i] == rules[1..][i - 1];
      assert forall i :: 0 <= i < |rules| - 1 ==> rules[1..][i] == rules[i + 1];
      if AnyKeyword(rules[0].keywords, lower) then [rules[0].key] + rest
      else rest
  }

  /** Without repeated keys in the ruleset, the classifier repeats no key. */
  lemma {:induction false} ClassifyDistinct(rules: seq<Topic>, lower: string)
    requires Distinct(Keys(rules))
    ensures Distinct(Classify(rules, lower))
  {
    SubseqDistinct(Classify(rules, lower), Keys(rules));
  }

  /** A blank text matches no rule whose keywords are all non-blank. */
  lemma {:induction false} ClassifyBlank(rules: seq<Topic>, lower: string)
    requires forall i :: 0 <= i < |lower| ==> lower[i] == ' '
    requires forall i, j :: 0 <= i < |rules| && 0 <= j < |rules[i].keywords| ==> NotBlank(rules[i].keywords[j])
    ensures Classify(rules, lower) == []
  {
    if rules != [] {
      forall w | w in rules[0].keywords
        ensures !Contains(lower, w)
      {
        ContainsInBlank(lower, w);
      }
      assert forall i, j :: 0 <= i < |rules[1..]| && 0 <= j < |rules[1..][i].keywords| ==>
        rules[1..][i].keywords[j] == rules[i + 1].keywords[j];
      ClassifyBlank(rules[1..], lower);
    }
  }

  /**
   * `inferTopics(text)`: exactly the keys of the ruleset for which some keyword
   * is a substring of the lowercased text, in declaration order, without repeats.
   */
  function InferTopics(text: string): (found: seq<string>)
    ensures Distinct(found)
  {
    RulesetKeysDistinct();
    ClassifyDistinct(Ruleset(), Lower(text));
    Classify(Ruleset(), Lower(text))
  }

  /** A key is inferred exactly when one of its topic's keywords occurs in the lowercased text. */
  lemma {:induction false} InferTopicsSpec(text: string, k: string)
    ensures k in InferTopics(text) <==>
      exists i :: 0 <= i < |Ruleset()| && Ruleset()[i].key == k && AnyKeyword(Ruleset()[i].keywords, Lower(text))
  {
  }

  /**
   * Topic keys come out in declaration order: israel, wars, disasters,
   * persecution, deception, tech_control, globalism.
   */
  lemma {:induction false} InferTopicsInOrder(text: string)
    ensures IsSubseq(InferTopics(text), Keys(Ruleset()))
  {
  }

  /** Absent, empty or blank text matches no topic: every keyword has a non-blank character. */
  lemma {:induction false} InferTopicsBlank(text: string)
    requires forall i :: 0 <= i < |text| ==> text[i] == ' '
    ensures InferTopics(text) == []
  {
    RulesetKeywordsNotBlank();
    ClassifyBlank(Ruleset(), Lower(text));
  }

  /** InferTopics holds the key of the `i`th topic once one of its keywords occurs in the lowercased text. */
  lemma {:induction false} InferTopicsHit(text: string, i: nat, w: string, at: int)
    requires i < |Ruleset()| && w in Ruleset()[i].keywords
    requires OccursAt(Lower(text), w, at)
    ensures Ruleset()[i].key in InferTopics(text)
  {
    ContainsAt(Lower(text), w, at);
    InferTopicsSpec(text, Ruleset()[i].key);
  }

  /** Looseness kept on purpose: "award" is classified under wars, via "war". */
  lemma AwardIsWar()
    ensures "wars" in InferTopics("award")
  {
    assert Lower("award") == "award";
    InferTopicsHit("award", 1, "war", 1);
  }

  /** Looseness kept on purpose: "market" is classified under tech_control, via "mark". */
  lemma MarketIsTechControl()
    ensures "tech_control" in InferTopics("Market")
  {
    assert Lower("Market") == "market";
    InferTopicsHit("Market", 5, "mark", 0);
  }

  /** One text can match several topics: "Gaza earthquake" is about Israel, via "gaza", ... */
  lemma GazaEarthquakeIsrael()
    ensures "israel" in InferTopics("Gaza earthquake")
  {
    assert Lower("Gaza earthquake")[0..4] == "gaza";
    InferTopicsHit("Gaza earthquake", 0, "gaza", 0);
  }

  /** ... and a disaster, via "earthquake". */
  lemma GazaEarthquakeDisaster()
    ensures "disasters" in InferTopics("Gaza earthquake")
  {
    assert Lower("Gaza earthquake")[5..15] == "earthquake";
    InferTopicsHit("Gaza earthquake", 2, "earthquake", 5);
  }

  // ---- the /api/verses payload ----

  /** What `/api/verses` sends per topic: its label and verses, keywords omitted. */
  datatype TopicVerses = TopicVerses(labelText: string, verses: seq<Verse>)

  /** What the `/api/verses` loop assigns, topic by topic: `verses[i]` are the verses of `rules[i]`. */
  function PayloadPairs(rules: seq<Topic>, verses: seq<seq<Verse>>): (pairs: seq<(string, TopicVerses)>)
    requires |verses| == |rules|
    ensures FirstsOf(pairs) == Keys(rules)
    ensures forall i :: 0 <= i < |rules| ==> pairs[i].1 == TopicVerses(rules[i].labelText, verses[i])
  {
    seq(|rules|, i requires 0 <= i < |rules| => (rules[i].key, TopicVerses(rules[i].labelText, verses[i])))
  }

  /**
   * The `/api/verses` payload of a ruleset whose topics have the verses
   * `verses`: exactly the ruleset's keys, in declaration order, each mapped to
   * that topic's label and verses, keywords omitted.
   */
  function Payload(rules: seq<Topic>, verses: seq<seq<Verse>>): (p: JsObject<TopicVerses>)
    requires |verses| == |rules| && Distinct(Keys(rules))
    ensures p.WellFormed()
    ensures p.order == Keys(rules)
    ensures forall i :: 0 <= i < |rules| ==> p.entries[rules[i].key] == TopicVerses(rules[i].labelText, verses[i])
  {
    var pairs := PayloadPairs(rules, verses);
    FromPairsSpec(pairs);
    FromPairs(pairs)
  }

  /** The verses of every topic, parallel to `Ruleset()`. */
  function VerseTable(): seq<seq<Verse>>
  {
    seq(|Ruleset()|, i requires 0 <= i < |Ruleset()| => VersesAt(i))
  }

  /** What `/api/verses` sends. */
  function VersesPayload(): JsObject<TopicVerses>
  {
    RulesetKeysDistinct();
    Payload(Ruleset(), VerseTable())
  }

  /** The payload's keys are the seven topic keys, in declaration order. */
  lemma VersesPayloadKeys()
    ensures VersesPayload().WellFormed()
    ensures VersesPayload().order == ["israel", "wars", "disasters", "persecution", "deception", "tech_control", "globalism"]
  {
    RulesetKeys();
  }
}
