/**
 * The body of `fetchAllFeeds` in server.js, without the cache: per-item
 * normalisation, the walk over the feeds with per-feed failure isolation, and
 * the stable newest-first sort.
 *
 * A feed's fetch is an input: `None` when `parser.parseURL` throws (network
 * error, timeout, malformed document), `Some(items)` with the parsed items
 * otherwise. Date strings are given as the instant they denote, in
 * milliseconds since the epoch; `None` stands for an absent or empty string.
 */
module Aggregator {
  import opened Wrappers
  import opened Seqs
  import Topics

  /** One entry as the feed parser returns it. */
  datatype RawItem = RawItem(
    title: Option<string>,
    link: Option<string>,
    isoDate: Option<int>,
    pubDate: Option<int>,
    contentSnippet: Option<string>,
    content: Option<string>)

  /** The normalised record pushed into `results`. */
  datatype NewsItem = NewsItem(
    source: string,
    title: string,
    link: Option<string>,
    isoDate: Option<int>,
    topics: seq<string>)

  /** A configured feed: a display name and the URL it is fetched from. */
  datatype Feed = Feed(name: string, url: string)

  /** `FEEDS`, in the order they are walked. */
  const Feeds: seq<Feed> := [
    Feed("Reuters World", "https://www.reutersagency.com/feed/?best-topics=world&post_type=best"),
    Feed("AP Top Stories", "https://feeds.apnews.com/apf-topnews"),
    Feed("BBC World", "http://feeds.bbci.co.uk/news/world/rss.xml"),
    Feed("Al Jazeera", "https://www.aljazeera.com/xml/rss/all.xml"),
    Feed("NASA News", "https://www.nasa.gov/rss/dyn/breaking_news.rss")
  ]

  /** The title given to an item whose title is absent or empty. */
  const Placeholder: string := "Untitled"

  /** `s || ''`: an absent string reads as the empty one. */
  function OrEmpty(s: Option<string>): string
  {
    s.GetOr("")
  }

  /** The text classified for an item: title, snippet and content, joined by spaces. */
  function TextBlob(item: RawItem): string
  {
    OrEmpty(item.title) + " " + OrEmpty(item.contentSnippet) + " " + OrEmpty(item.content)
  }

  /**
   * How an item's text is mapped to topic keys. The server uses
   * `Topics.InferTopics`; nothing in this module depends on which
   * classifier it is, so it is a parameter here and the server module
   * supplies it.
   */
  type Classifier = string -> seq<string>

  /** The record built for one item of one feed. */
  function Normalise(classify: Classifier, feed: Feed, item: RawItem): (n: NewsItem)
    ensures n.source == feed.name
    ensures n.link == item.link
    ensures n.title != ""
    ensures n.title == OrEmpty(item.title) || (OrEmpty(item.title) == "" && n.title == Placeholder)
    ensures item.isoDate.Some? ==> n.isoDate == item.isoDate
    ensures item.isoDate.None? ==> n.isoDate == item.pubDate
    ensures n.isoDate.None? <==> item.isoDate.None? && item.pubDate.None?
    ensures n.topics == classify(TextBlob(item))
  {
    NewsItem(
      feed.name,
      if OrEmpty(item.title) != "" then OrEmpty(item.title) else Placeholder,
      item.link,
      if item.isoDate.Some? then item.isoDate else item.pubDate,
      classify(TextBlob(item)))
  }

  /** An item with no title, snippet or content gets the placeholder title and no topics. */
  lemma {:induction false} NormaliseEmpty(feed: Feed, item: RawItem)
    requires OrEmpty(item.title) == "" && OrEmpty(item.contentSnippet) == "" && OrEmpty(item.content) == ""
    ensures Normalise(Topics.InferTopics, feed, item).title == Placeholder
    ensures Normalise(Topics.InferTopics, feed, item).topics == []
  {
    assert TextBlob(item) == "  ";
    Topics.InferTopicsBlank(TextBlob(item));
  }

  /** What one feed contributes: nothing when its fetch failed, else one record per item, in order. */
  function FeedItems(classify: Classifier, feed: Feed, outcome: Option<seq<RawItem>>): seq<NewsItem>
  {
    match outcome
    case None => []
    case Some(items) => seq(|items|, j requires 0 <= j < |items| => Normalise(classify, feed, items[j]))
  }

  /** Each feed's contribution, in feed order; `outcomes[i]` is the fetch of `feeds[i]`. */
  function Contributions(classify: Classifier, feeds: seq<Feed>, outcomes: seq<Option<seq<RawItem>>>): seq<seq<NewsItem>>
    requires |outcomes| == |feeds|
  {
    seq(|feeds|, i requires 0 <= i < |feeds| => FeedItems(classify, feeds[i], outcomes[i]))
  }

  /** `results` before sorting: what every feed contributes, feed after feed, each feed's items in their order. */
  function Gathered(classify: Classifier, feeds: seq<Feed>, outcomes: seq<Option<seq<RawItem>>>): seq<NewsItem>
    requires |outcomes| == |feeds|
  {
    Flatten(Contributions(classify, feeds, outcomes))
  }

  /** What a run of feeds gathers is the flattening of that run of the contributions. */
  lemma {:induction false} GatheredSlice(classify: Classifier, feeds: seq<Feed>, outcomes: seq<Option<seq<RawItem>>>, lo: nat, hi: nat)
    requires |outcomes| == |feeds| && lo <= hi <= |feeds|
    ensures Gathered(classify, feeds[lo..hi], outcomes[lo..hi]) == Flatten(Contributions(classify, feeds, outcomes)[lo..hi])
  {
    assert Contributions(classify, feeds[lo..hi], outcomes[lo..hi]) == Contributions(classify, feeds, outcomes)[lo..hi];
  }

  /**
   * Failure isolation: the items of feed `i` stand between those of the
   * feeds before it and those of the feeds after it, and when its fetch
   * fails it contributes nothing while the other feeds' items stay as they are.
   */
  lemma {:induction false} FailureIsolation(classify: Classifier, feeds: seq<Feed>, outcomes: seq<Option<seq<RawItem>>>, i: nat)
    requires |outcomes| == |feeds| && i < |feeds|
    ensures Gathered(classify, feeds, outcomes) ==
      Gathered(classify, feeds[..i], outcomes[..i]) + FeedItems(classify, feeds[i], outcomes[i]) +
      Gathered(classify, feeds[i + 1..], outcomes[i + 1..])
    ensures Gathered(classify, feeds, outcomes[i := None]) ==
      Gathered(classify, feeds[..i], outcomes[..i]) + Gathered(classify, feeds[i + 1..], outcomes[i + 1..])
  {
    FeedInPlace(classify, feeds, outcomes, i);
    FailedFeed(classify, feeds, outcomes, i);
  }

  /** The items of feed `i` stand between those of the feeds before it and those of the feeds after it. */
  lemma {:induction false} FeedInPlace(classify: Classifier, feeds: seq<Feed>, outcomes: seq<Option<seq<RawItem>>>, i: nat)
    requires |outcomes| == |feeds| && i < |feeds|
    ensures Gathered(classify, feeds, outcomes) ==
      Gathered(classify, feeds[..i], outcomes[..i]) + FeedItems(classify, feeds[i], outcomes[i]) +
      Gathered(classify, feeds[i + 1..], outcomes[i + 1..])
  {
    var n := |feeds|;
    var parts := Contributions(classify, feeds, outcomes);
    GatheredSlice(classify, feeds, outcomes, 0, i);
    GatheredSlice(classify, feeds, outcomes, i + 1, n);
    assert feeds[0..i] == feeds[..i] && outcomes[0..i] == outcomes[..i] && parts[0..i] == parts[..i];
    assert feeds[i + 1..n] == feeds[i + 1..] && outcomes[i + 1..n] == outcomes[i + 1..] && parts[i + 1..n] == parts[i + 1..];
    FlattenAround(parts, i);
  }

  /** With feed `i`'s fetch failed, the other feeds' items close up around the gap. */
  lemma {:induction false} FailedFeed(classify: Classifier, feeds: seq<Feed>, outcomes: seq<Option<seq<RawItem>>>, i: nat)
    requires |outcomes| == |feeds| && i < |feeds|
    ensures Gathered(classify, feeds, outcomes[i := None]) ==
      Gathered(classify, feeds[..i], outcomes[..i]) + Gathered(classify, feeds[i + 1..], outcomes[i + 1..])
  {
    var failed := outcomes[i := None];
    FeedInPlace(classify, feeds, failed, i);
    assert failed[..i] == outcomes[..i] && failed[i + 1..] == outcomes[i + 1..];
    assert FeedItems(classify, feeds[i], failed[i]) == [];
  }

  /** When every fetch fails the result is empty, not an error. */
  lemma {:induction false} AllFailed(classify: Classifier, feeds: seq<Feed>, outcomes: seq<Option<seq<RawItem>>>)
    requires |outcomes| == |feeds|
    requires forall i :: 0 <= i < |outcomes| ==> outcomes[i].None?
    ensures Gathered(classify, feeds, outcomes) == []
  {
    FlattenEmpty(Contributions(classify, feeds, outcomes));
  }

  /** Feeds A (two items), B (failed) and C (one item) give exactly A's two items, then C's one. */
  lemma {:induction false} TwoOfThreeFeeds(classify: Classifier, a: Feed, b: Feed, c: Feed, a1: RawItem, a2: RawItem, c1: RawItem)
    ensures Gathered(classify, [a, b, c], [Some([a1, a2]), None, Some([c1])]) ==
      [Normalise(classify, a, a1), Normalise(classify, a, a2), Normalise(classify, c, c1)]
  {
    var parts := Contributions(classify, [a, b, c], [Some([a1, a2]), None, Some([c1])]);
    assert parts[0] == [Normalise(classify, a, a1), Normalise(classify, a, a2)];
    assert parts[1] == [] && parts[2] == [Normalise(classify, c, c1)];
    assert parts[..2][..1][..0] == [];
    assert Flatten(parts[..2][..1]) == parts[0];
    assert Flatten(parts[..2]) == parts[0];
    assert parts[..3] == parts;
  }

  /**
   * The two nested loops of `fetchAllFeeds`: walk the feeds in order and push
   * one record per item of each feed whose fetch succeeded.
   */
  method Collect(classify: Classifier, feeds: seq<Feed>, outcomes: seq<Option<seq<RawItem>>>) returns (results: seq<NewsItem>)
    requires |outcomes| == |feeds|
    ensures results == Gathered(classify, feeds, outcomes)
  {
    ghost var parts := Contributions(classify, feeds, outcomes);
    results := [];
    for f := 0 to |feeds|
      invariant results == Flatten(parts[..f])
    {
      ghost var before := results;
      match outcomes[f] {
        case None =>
          // the feed's error is logged and the walk goes on
        case Some(items) =>
          for k := 0 to |items|
            invariant |results| == |before| + k
            invariant results[..|before|] == before
            invariant forall m :: 0 <= m < k ==> results[|before| + m] == Normalise(classify, feeds[f], items[m])
          {
            results := results + [Normalise(classify, feeds[f], items[k])];
          }
      }
      assert results == before + parts[f];
      assert parts[..f + 1][..f] == parts[..f];
      assert Flatten(parts[..f + 1]) == Flatten(parts[..f]) + parts[f];
    }
    assert parts[..|feeds|] == parts;
  }

  // ---- the sort: `results.sort((a, b) => new Date(b.isoDate || 0) - new Date(a.isoDate || 0))` ----

  /** The sort key of an item: its instant, or the epoch when it has no date. */
  function Stamp(n: NewsItem): int
  {
    n.isoDate.GetOr(0)
  }

  /** Newest first: no item is older than one after it. */
  predicate IsNewestFirst(s: seq<NewsItem>)
  {
    forall i, j :: 0 <= i < j < |s| ==> Stamp(s[i]) >= Stamp(s[j])
  }

  /** The items of `s` whose sort key is `t`, in their order in `s`. */
  function WithStamp(s: seq<NewsItem>, t: int): seq<NewsItem>
  {
    if s == [] then []
    else WithStamp(s[..|s| - 1], t) + (if Stamp(s[|s| - 1]) == t then [s[|s| - 1]] else [])
  }

  lemma {:induction false} WithStampAppend(a: seq<NewsItem>, b: seq<NewsItem>, t: int)
    ensures WithStamp(a + b, t) == WithStamp(a, t) + WithStamp(b, t)
    decreases |b|
  {
    if b == [] {
      assert a + b == a;
    } else {
      var n := |b| - 1;
      assert (a + b)[..|a| + n] == a + b[..n];
      WithStampAppend(a, b[..n], t);
    }
  }

  /** A one-item sequence keeps its item when it has the key. */
  lemma {:induction false} WithStampSingle(x: NewsItem, t: int)
    ensures WithStamp([x], t) == if Stamp(x) == t then [x] else []
  {
    assert [x][..0] == [];
  }

  /**
   * Place `x` after every item of `s` that is at least as new as it, by
   * moving it leftwards past the strictly older ones at the end.
   */
  function InsertNewest(s: seq<NewsItem>, x: NewsItem): seq<NewsItem>
    decreases |s|
  {
    if s == [] || Stamp(s[|s| - 1]) >= Stamp(x) then s + [x]
    else InsertNewest(s[..|s| - 1], x) + [s[|s| - 1]]
  }

  /** Inserting adds exactly `x`. */
  lemma {:induction false} InsertNewestPermutes(s: seq<NewsItem>, x: NewsItem)
    ensures multiset(InsertNewest(s, x)) == multiset(s) + multiset{x}
    decreases |s|
  {
    if !(s == [] || Stamp(s[|s| - 1]) >= Stamp(x)) {
      var n := |s| - 1;
      InsertNewestPermutes(s[..n], x);
      assert s == s[..n] + [s[n]];
    }
  }

  /** An item no newer than any item of a newest-first sequence can follow it. */
  lemma {:induction false} AppendOlder(front: seq<NewsItem>, last: NewsItem)
    requires IsNewestFirst(front)
    requires forall i :: 0 <= i < |front| ==> Stamp(front[i]) >= Stamp(last)
    ensures IsNewestFirst(front + [last])
  {
  }

  /** Inserting into a newest-first sequence leaves it newest-first. */
  lemma {:induction false} InsertNewestSorted(s: seq<NewsItem>, x: NewsItem)
    requires IsNewestFirst(s)
    ensures IsNewestFirst(InsertNewest(s, x))
    decreases |s|
  {
    if !(s == [] || Stamp(s[|s| - 1]) >= Stamp(x)) {
      var n := |s| - 1;
      var init, last := s[..n], s[n];
      assert IsNewestFirst(init);
      InsertNewestSorted(init, x);
      InsertNewestPermutes(init, x);
      var front := InsertNewest(init, x);
      forall i | 0 <= i < |front|
        ensures Stamp(front[i]) >= Stamp(last)
      {
        assert front[i] in multiset(front);
        if front[i] != x {
          assert front[i] in init;
          var k :| 0 <= k < n && init[k] == front[i];
          assert s[k] == front[i];
        }
      }
      AppendOlder(front, last);
    }
  }

  /** Inserting `x` appends it to the items that share its key, and changes no other key's items. */
  lemma {:induction false} InsertNewestStable(s: seq<NewsItem>, x: NewsItem, t: int)
    ensures WithStamp(InsertNewest(s, x), t) == WithStamp(s, t) + WithStamp([x], t)
    decreases |s|
  {
    if s == [] || Stamp(s[|s| - 1]) >= Stamp(x) {
      WithStampAppend(s, [x], t);
    } else {
      var n := |s| - 1;
      var init, last := s[..n], s[n];
      var front := InsertNewest(init, x);
      assert s == init + [last];
      calc {
        WithStamp(InsertNewest(s, x), t);
        WithStamp(front + [last], t);
        { WithStampAppend(front, [last], t); }
        WithStamp(front, t) + WithStamp([last], t);
        { InsertNewestStable(init, x, t); }
        WithStamp(init, t) + WithStamp([x], t) + WithStamp([last], t);
        { WithStampSingle(x, t); WithStampSingle(last, t); }
        WithStamp(init, t) + WithStamp([last], t) + WithStamp([x], t);
        { WithStampAppend(init, [last], t); }
        WithStamp(s, t) + WithStamp([x], t);
      }
    }
  }

  /**
   * The order `results.sort` leaves: a stable sort by descending key,
   * specified as the insertion of each item, in input order, into the sorted
   * prefix.
   */
  function NewestFirst(s: seq<NewsItem>): seq<NewsItem>
  {
    if s == [] then [] else InsertNewest(NewestFirst(s[..|s| - 1]), s[|s| - 1])
  }

  /**
   * The sorted sequence is a permutation of its input, is newest-first, and
   * is stable: for every key, the items with that key keep their relative order.
   */
  lemma {:induction false} NewestFirstSpec(s: seq<NewsItem>)
    ensures multiset(NewestFirst(s)) == multiset(s)
    ensures IsNewestFirst(NewestFirst(s))
    ensures forall t :: WithStamp(NewestFirst(s), t) == WithStamp(s, t)
  {
    if s != [] {
      var n := |s| - 1;
      NewestFirstSpec(s[..n]);
      assert s == s[..n] + [s[n]];
      InsertNewestPermutes(NewestFirst(s[..n]), s[n]);
      InsertNewestSorted(NewestFirst(s[..n]), s[n]);
      forall t
        ensures WithStamp(NewestFirst(s), t) == WithStamp(s, t)
      {
        InsertNewestStable(NewestFirst(s[..n]), s[n], t);
        WithStampAppend(s[..n], [s[n]], t);
      }
    }
  }

  /** Items dated 2024-01-01 (a), then 2024-01-03 (b), then 2024-01-03 (c) sort to b, c, a. */
  lemma {:induction false} NewestFirstExample(a: NewsItem, b: NewsItem, c: NewsItem)
    requires Stamp(a) < Stamp(b) == Stamp(c)
    ensures NewestFirst([a, b, c]) == [b, c, a]
  {
    assert [a, b, c][..2] == [a, b] && [a, b][..1] == [a] && [a][..0] == [];
    assert NewestFirst([a]) == [a];
    assert [b][..0] == [];
    assert InsertNewest([a], b) == [b, a];
    assert [b, a][..1] == [b];
    assert InsertNewest([b, a], c) == [b, c, a];
  }

  /**
   * `InsertNewest` puts `x` right after the last item at least as new as it:
   * when the items from `j` on are all strictly older and the one before
   * `j` (if any) is not, `x` lands at index `j`.
   */
  lemma {:induction false} InsertNewestAt(done: seq<NewsItem>, x: NewsItem, j: nat)
    requires j <= |done|
    requires j == 0 || Stamp(done[j - 1]) >= Stamp(x)
    requires forall k :: j <= k < |done| ==> Stamp(done[k]) < Stamp(x)
    ensures InsertNewest(done, x) == done[..j] + [x] + done[j..]
    decreases |done|
  {
    if j == |done| {
      assert done[..j] == done && done[j..] == [];
    } else {
      var n := |done| - 1;
      InsertNewestAt(done[..n], x, j);
      assert done[..n][..j] == done[..j];
      assert done[..n][j..] + [done[n]] == done[j..];
    }
  }

  /** A sequence that holds `done` with `x` slotted in at index `j`. */
  lemma {:induction false} Placed(s: seq<NewsItem>, done: seq<NewsItem>, x: NewsItem, j: nat)
    requires |s| == |done| + 1 && j <= |done|
    requires forall k :: 0 <= k < j ==> s[k] == done[k]
    requires s[j] == x
    requires forall k :: j < k < |s| ==> s[k] == done[k - 1]
    ensures s == done[..j] + [x] + done[j..]
  {
  }

  /**
   * One step of the insertion sort: with `a[..i]` already sorted, move
   * `a[i]` left past the strictly older items before it.
   */
  method InsertAt(a: array<NewsItem>, i: nat)
    requires i < a.Length
    modifies a
    ensures a[..i + 1] == InsertNewest(old(a[..i]), old(a[i]))
    ensures a[i + 1..] == old(a[i + 1..])
  {
    ghost var done := a[..i];
    var x := a[i];
    var j := i;
    while j > 0 && Stamp(a[j - 1]) < Stamp(x)
      invariant 0 <= j <= i
      invariant forall k :: 0 <= k < j ==> a[k] == done[k]
      invariant forall k :: j < k <= i ==> a[k] == done[k - 1]
      invariant forall k :: i < k < a.Length ==> a[k] == old(a[k])
      invariant forall k :: j <= k < i ==> Stamp(done[k]) < Stamp(x)
    {
      a[j] := a[j - 1];
      j := j - 1;
    }
    a[j] := x;
    InsertNewestAt(done, x, j);
    Placed(a[..i + 1], done, x, j);
  }

  /** `results.sort(...)`, in place: an insertion sort that moves each item left past strictly older ones. */
  method SortNewestFirst(a: array<NewsItem>)
    modifies a
    ensures a[..] == NewestFirst(old(a[..]))
  {
    ghost var orig := a[..];
    for i := 0 to a.Length
      invariant a[..i] == NewestFirst(orig[..i])
      invariant a[i..] == orig[i..]
    {
      assert orig[..i + 1][..i] == orig[..i];
      assert a[i] == orig[i];
      InsertAt(a, i);
      assert a[i + 1..] == orig[i + 1..];
    }
    assert orig[..a.Length] == orig;
  }
}
