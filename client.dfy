/**
 * The logic of public/app.js once the DOM is stripped away: which news items
 * `render` shows and what each card says, `escapeHTML`, and the options
 * `populateFilters` offers. `VERSES` is the `/api/verses` payload and `NEWS`
 * the list `/api/news` returned.
 */
module Client {
  import opened Wrappers
  import opened Text
  import opened Seqs
  import Topics
  import opened JsObjects
  import opened Aggregator

  // ---- escapeHTML ----

  /** The five characters `escapeHTML` replaces. */
  predicate Special(c: char)
  {
    c == '&' || c == '<' || c == '>' || c == '"' || c == '\''
  }

  /** The characters that could open or close a tag or an attribute value. */
  predicate Markup(c: char)
  {
    c == '<' || c == '>' || c == '"' || c == '\''
  }

  /** No character of `s` is `<`, `>`, `"` or `'`. */
  predicate MarkupFree(s: string)
  {
    forall i :: 0 <= i < |s| ==> !Markup(s[i])
  }

  /** The replacement of one character: an entity for the five special ones, the character itself otherwise. */
  function EscapeChar(c: char): (r: string)
    ensures !Special(c) ==> r == [c]
    ensures Special(c) ==> |r| >= 4 && r[0] == '&' && r[|r| - 1] == ';'
    ensures MarkupFree(r)
  {
    match c
    case '&' => "&amp;"
    case '<' => "&lt;"
    case '>' => "&gt;"
    case '"' => "&quot;"
    case '\'' => "&#39;"
    case _ => [c]
  }

  /** `escapeHTML(s)`: every character replaced by its `EscapeChar`, left to right. */
  function EscapeHtml(s: string): (r: string)
    ensures MarkupFree(r)
    ensures |r| >= |s|
    ensures (forall i :: 0 <= i < |s| ==> !Special(s[i])) ==> r == s
    decreases |s|
  {
    if s == [] then [] else EscapeChar(s[0]) + EscapeHtml(s[1..])
  }

  /** `escapeHTML` of a possibly absent string: absent reads as empty. */
  function EscapeHtmlOr(s: Option<string>): (r: string)
    ensures s.None? ==> r == []
    ensures MarkupFree(r)
  {
    EscapeHtml(s.GetOr(""))
  }

  /** Escaping distributes over concatenation. */
  lemma {:induction false} EscapeAppend(a: string, b: string)
    ensures EscapeHtml(a + b) == EscapeHtml(a) + EscapeHtml(b)
    decreases |a|
  {
    if a == [] {
      assert a + b == b;
    } else {
      assert (a + b)[0] == a[0] && (a + b)[1..] == a[1..] + b;
      EscapeAppend(a[1..], b);
    }
  }

  /** The five replacements, character by character. */
  lemma EscapeEntities()
    ensures EscapeHtml("&") == "&amp;"
    ensures EscapeHtml("<") == "&lt;"
    ensures EscapeHtml(">") == "&gt;"
    ensures EscapeHtml("\"") == "&quot;"
    ensures EscapeHtml("'") == "&#39;"
  {
  }

  /** Decoding of the five entities, left to right; every other character stands for itself. */
  function Unescape(r: string): string
    decreases |r|
  {
    if r == [] then []
    else if r[0] != '&' then [r[0]] + Unescape(r[1..])
    else if |r| >= 5 && r[1] == 'a' && r[2] == 'm' && r[3] == 'p' && r[4] == ';' then "&" + Unescape(r[5..])
    else if |r| >= 4 && r[1] == 'l' && r[2] == 't' && r[3] == ';' then "<" + Unescape(r[4..])
    else if |r| >= 4 && r[1] == 'g' && r[2] == 't' && r[3] == ';' then ">" + Unescape(r[4..])
    else if |r| >= 6 && r[1] == 'q' && r[2] == 'u' && r[3] == 'o' && r[4] == 't' && r[5] == ';' then "\"" + Unescape(r[6..])
    else if |r| >= 5 && r[1] == '#' && r[2] == '3' && r[3] == '9' && r[4] == ';' then "'" + Unescape(r[5..])
    else [r[0]] + Unescape(r[1..])
  }

  /** Decoding one escaped character in front of the rest. */
  lemma {:induction false} UnescapeStep(c: char, rest: string)
    ensures Unescape(EscapeChar(c) + rest) == [c] + Unescape(rest)
  {
    var e := EscapeChar(c);
    var r := e + rest;
    assert r[|e|..] == rest;
    assert forall k :: 0 <= k < |e| ==> r[k] == e[k];
  }

  /** Escaping loses nothing: decoding gives the original text back. */
  lemma {:induction false} UnescapeEscape(s: string)
    ensures Unescape(EscapeHtml(s)) == s
    decreases |s|
  {
    if s != [] {
      UnescapeEscape(s[1..]);
      UnescapeStep(s[0], EscapeHtml(s[1..]));
    }
  }

  /** Different texts never escape to the same markup. */
  lemma {:induction false} EscapeInjective(a: string, b: string)
    requires EscapeHtml(a) == EscapeHtml(b)
    ensures a == b
  {
    UnescapeEscape(a);
    UnescapeEscape(b);
  }

  // ---- the filter in render ----

  /** The text the query is looked for in: `${n.title} ${n.source}`. */
  function SearchText(n: NewsItem): string
  {
    n.title + " " + n.source
  }

  /** The query test, for a query `q` already lowercased: empty, or inside the lowercased `title source`. */
  predicate MatchesQuery(q: string, n: NewsItem)
  {
    q == [] || Contains(Lower(SearchText(n)), q)
  }

  /** The topic test: no topic chosen, or the item carries it. */
  predicate MatchesTopic(topic: string, n: NewsItem)
  {
    topic == [] || topic in n.topics
  }

  /** An item `render` keeps. */
  predicate Keep(q: string, topic: string, n: NewsItem)
  {
    MatchesQuery(q, n) && MatchesTopic(topic, n)
  }

  /**
   * `NEWS.filter(...)`: the items that pass both tests, in their order, each
   * as often as it occurs.
   */
  function FilterNews(news: seq<NewsItem>, q: string, topic: string): (r: seq<NewsItem>)
    ensures IsSubseq(r, news)
    ensures forall n :: n in r ==> Keep(q, topic, n)
    ensures forall n :: Keep(q, topic, n) ==> multiset(r)[n] == multiset(news)[n]
    decreases |news|
  {
    if news == [] then []
    else
      var rest := FilterNews(news[1..], q, topic);
      assert news == [news[0]] + news[1..];
      if Keep(q, topic, news[0]) then
        assert ([news[0]] + rest)[1..] == rest;
        [news[0]] + rest
      else
        rest
  }

  /** An empty query and no topic keep every item. */
  lemma {:induction false} FilterKeepsAll(news: seq<NewsItem>)
    ensures FilterNews(news, "", "") == news
    decreases |news|
  {
    if news != [] {
      FilterKeepsAll(news[1..]);
      assert news == [news[0]] + news[1..];
    }
  }

  /**
   * The query test ignores case on both sides: a typed query matches exactly
   * when it is empty or some stretch of `title source` equals it up to case.
   */
  lemma {:induction false} MatchesQueryAnyCase(q: string, n: NewsItem)
    ensures MatchesQuery(Lower(q), n) <==> q == [] || exists i :: OccursAtAnyCase(SearchText(n), q, i)
  {
    var s := SearchText(n);
    if q != [] {
      assert Lower(q) != [];
      ContainsIff(Lower(s), Lower(q));
      if MatchesQuery(Lower(q), n) {
        var i :| OccursAt(Lower(s), Lower(q), i);
        LowerSlice(s, i, i + |q|);
        assert OccursAtAnyCase(s, q, i);
      } else {
        forall i | OccursAtAnyCase(s, q, i)
          ensures OccursAt(Lower(s), Lower(q), i)
        {
          LowerSlice(s, i, i + |q|);
        }
      }
    } else {
      assert Lower(q) == [];
    }
  }

  // ---- the cards of render ----

  /** The scripture block of a card: a verse reference and the escaped verse text. */
  datatype Scripture = Scripture(ref: string, textHtml: string)

  /** What `render` puts on the page: the "No results" card, or one card per item. */
  datatype Card =
    | NoResults
    | Article(titleHtml: string, sourceHtml: string, badges: seq<string>, link: Option<string>, scripture: Option<Scripture>)

  /** `filtered.slice(0, 120)`: the most cards `render` shows. */
  const MaxCards: int := 120

  /** A badge's text: the topic's label when `VERSES` knows the topic and the label is not empty, else the key. */
  function Badge(verses: JsObject<Topics.TopicVerses>, t: string): string
  {
    if t in verses.entries && verses.entries[t].labelText != "" then verses.entries[t].labelText else t
  }

  /** The scripture block: the first verse of the item's first topic, when that topic is known and has verses. */
  function ScriptureOf(verses: JsObject<Topics.TopicVerses>, topics: seq<string>): (r: Option<Scripture>)
    ensures r.Some? <==>
      |topics| > 0 && topics[0] != "" && topics[0] in verses.entries && |verses.entries[topics[0]].verses| > 0
  {
    if |topics| > 0 && topics[0] != "" && topics[0] in verses.entries && |verses.entries[topics[0]].verses| > 0 then
      var v := verses.entries[topics[0]].verses[0];
      Some(Scripture(v.ref, EscapeHtml(v.text)))
    else
      None
  }

  /** The card of one item. */
  function CardFor(verses: JsObject<Topics.TopicVerses>, n: NewsItem): (c: Card)
    ensures c.Article? && MarkupFree(c.titleHtml) && MarkupFree(c.sourceHtml)
    ensures c.titleHtml == EscapeHtml(n.title) && c.sourceHtml == EscapeHtml(n.source)
    ensures |c.badges| == |n.topics|
    ensures forall i :: 0 <= i < |n.topics| ==> c.badges[i] == Badge(verses, n.topics[i])
    ensures c.link == n.link && c.scripture == ScriptureOf(verses, n.topics)
  {
    Article(EscapeHtml(n.title), EscapeHtml(n.source),
            seq(|n.topics|, i requires 0 <= i < |n.topics| => Badge(verses, n.topics[i])),
            n.link, ScriptureOf(verses, n.topics))
  }

  /**
   * `render()`: the "No results" card alone when nothing passes the filter,
   * else the cards of the first `MaxCards` items that pass, in order.
   */
  function Render(news: seq<NewsItem>, search: string, topic: string, verses: JsObject<Topics.TopicVerses>): (cards: seq<Card>)
    ensures 1 <= |cards| <= MaxCards
    ensures cards == [NoResults] <==> FilterNews(news, Lower(search), topic) == []
  {
    var filtered := FilterNews(news, Lower(search), topic);
    if filtered == [] then [NoResults]
    else
      var shown := if |filtered| < MaxCards then |filtered| else MaxCards;
      var cards := seq(shown, i requires 0 <= i < shown => CardFor(verses, filtered[i]));
      assert cards[0].Article?;
      cards
  }

  /** With at least `MaxCards` matches the page shows exactly the first `MaxCards` of them. */
  lemma {:induction false} RenderCap(news: seq<NewsItem>, search: string, topic: string, verses: JsObject<Topics.TopicVerses>)
    ensures |FilterNews(news, Lower(search), topic)| >= MaxCards ==>
      |Render(news, search, topic, verses)| == MaxCards &&
      forall i :: 0 <= i < MaxCards ==>
        Render(news, search, topic, verses)[i] == CardFor(verses, FilterNews(news, Lower(search), topic)[i])
  {
  }

  /** The typed query and its lowercase give the same page. */
  lemma {:induction false} RenderIgnoresQueryCase(news: seq<NewsItem>, search: string, topic: string, verses: JsObject<Topics.TopicVerses>)
    ensures Render(news, Lower(search), topic, verses) == Render(news, search, topic, verses)
  {
    LowerIdempotent(search);
  }

  /** Every card but "No results" is the card of an item of `news` that passes both tests. */
  lemma {:induction false} RenderShowsOnlyMatches(news: seq<NewsItem>, search: string, topic: string, verses: JsObject<Topics.TopicVerses>)
    ensures forall i :: 0 <= i < |Render(news, search, topic, verses)| && Render(news, search, topic, verses)[i].Article? ==>
      exists n :: n in news && Keep(Lower(search), topic, n) && Render(news, search, topic, verses)[i] == CardFor(verses, n)
  {
    var filtered := FilterNews(news, Lower(search), topic);
    SubseqMembers(filtered, news);
    forall i | 0 <= i < |Render(news, search, topic, verses)| && Render(news, search, topic, verses)[i].Article?
      ensures exists n :: n in news && Keep(Lower(search), topic, n) && Render(news, search, topic, verses)[i] == CardFor(verses, n)
    {
      assert filtered[i] in filtered;
    }
  }

  /** With fewer matches, one card per match, in order. */
  lemma {:induction false} RenderAll(news: seq<NewsItem>, search: string, topic: string, verses: JsObject<Topics.TopicVerses>)
    ensures 0 < |FilterNews(news, Lower(search), topic)| < MaxCards ==>
      |Render(news, search, topic, verses)| == |FilterNews(news, Lower(search), topic)| &&
      forall i :: 0 <= i < |Render(news, search, topic, verses)| ==>
        Render(news, search, topic, verses)[i] == CardFor(verses, FilterNews(news, Lower(search), topic)[i])
  {
  }

  /** Every topic of the payload with a non-empty label gets that label as its badge. */
  lemma {:induction false} BadgeShowsLabel(rules: seq<Topics.Topic>, verses: seq<seq<Topics.Verse>>, i: nat)
    requires |verses| == |rules| && Distinct(Topics.Keys(rules))
    requires i < |rules| && rules[i].labelText != ""
    ensures Badge(Topics.Payload(rules, verses), rules[i].key) == rules[i].labelText
  {
  }

  /** On the served page every topic's badge reads its label, never its key. */
  lemma {:induction false} ServedBadgesShowLabels(i: nat)
    requires i < |Topics.Ruleset()|
    ensures Badge(Topics.VersesPayload(), Topics.Ruleset()[i].key) == Topics.Ruleset()[i].labelText
  {
    Topics.RulesetNamed();
    Topics.RulesetKeysDistinct();
    BadgeShowsLabel(Topics.Ruleset(), Topics.VerseTable(), i);
  }

  /** A key the payload does not have is shown as itself. */
  lemma {:induction false} BadgeFallsBack(rules: seq<Topics.Topic>, verses: seq<seq<Topics.Verse>>, t: string)
    requires |verses| == |rules| && Distinct(Topics.Keys(rules))
    requires t !in Topics.Keys(rules)
    ensures Badge(Topics.Payload(rules, verses), t) == t
  {
    assert t !in (set k | k in Topics.Keys(rules));
  }

  /**
   * An item whose first topic is a key of the payload shows the first verse
   * of that topic when it has one, and no scripture when it has none.
   */
  lemma {:induction false} ScriptureShowsFirstVerse(rules: seq<Topics.Topic>, verses: seq<seq<Topics.Verse>>, topics: seq<string>, i: nat)
    requires |verses| == |rules| && Distinct(Topics.Keys(rules))
    requires i < |rules| && rules[i].key != "" && |topics| > 0 && topics[0] == rules[i].key
    ensures |verses[i]| > 0 ==>
      ScriptureOf(Topics.Payload(rules, verses), topics) == Some(Scripture(verses[i][0].ref, EscapeHtml(verses[i][0].text)))
    ensures verses[i] == [] ==> ScriptureOf(Topics.Payload(rules, verses), topics) == None
  {
    var p := Topics.Payload(rules, verses);
    assert topics[0] in p.order;
  }

  // ---- populateFilters ----

  /** One `<option>` of the topic filter: its value and its text. */
  datatype FilterOption = FilterOption(value: string, text: string)

  /** The options `populateFilters` appends: "All topics" with the empty value, then one per topic in key order. */
  function FilterOptions(verses: JsObject<Topics.TopicVerses>): (opts: seq<FilterOption>)
    requires verses.WellFormed()
    ensures |opts| == |verses.order| + 1
    ensures opts[0] == FilterOption("", "All topics")
    ensures forall i :: 0 <= i < |verses.order| ==> opts[i + 1].value == verses.order[i]
  {
    [FilterOption("", "All topics")] +
    seq(|verses.order|, i requires 0 <= i < |verses.order| => FilterOption(verses.order[i], verses.entries[verses.order[i]].labelText))
  }

  /** For a payload the options are "All topics", then each topic's key and label in declaration order. */
  lemma {:induction false} FilterOptionsOfPayload(rules: seq<Topics.Topic>, verses: seq<seq<Topics.Verse>>)
    requires |verses| == |rules| && Distinct(Topics.Keys(rules))
    ensures FilterOptions(Topics.Payload(rules, verses)) ==
      [FilterOption("", "All topics")] + seq(|rules|, i requires 0 <= i < |rules| => FilterOption(rules[i].key, rules[i].labelText))
  {
  }
}
