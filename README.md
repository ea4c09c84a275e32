# PacMac Prophecy Watch, modelled in Dafny

The application is a small news reader. Its Express server (`server.js`) pulls five RSS feeds. It tags every item with prophecy topics by keyword matching and sorts the items newest first. It keeps the list in a ten-minute cache and serves it as `/api/news`, alongside a topic → label/verses table at `/api/verses`. The browser script (`public/app.js`) filters the list by a search box and a topic selector, caps it at 120 cards, and escapes titles and sources before putting them into HTML.

This project models that core and proves what it promises:

- `Topics`:
  - the `TOPICS` ruleset;
  - `inferTopics`, which tags a text with every topic one of whose keywords is a substring of the lowercased text, in declaration order, without repeats;
  - the `/api/verses` projection.
- `JsObjects`: plain JavaScript objects with non-numeric string keys as insertion-ordered maps, the behaviour `Object.entries` and `obj[k] = v` rely on for the topic keys.
- `Aggregator`:
  - per-item normalisation;
  - the walk over the feeds, where one failed feed never disturbs the others;
  - the stable newest-first sort, both as an insertion-sort specification (permutation, ordering, stability) and as an in-place array method proved against it.
- `Server`:
  - the single-key `node-cache` entry as a class with an expiry instant;
  - `fetchAllFeeds` as a method over that cache;
  - the guarantee that a second request inside the time-to-live returns the same list.
- `Client`: the filter of `render`, the 120-card cap, the "No results" card, badge labels with their fallback, scripture selection, `escapeHTML` and the options of `populateFilters`.
- `Text`, `Seqs`, `Wrappers`: ASCII lowercasing and `includes`, subsequences and flattening, and `Option`.

Inputs the program gets from the outside world are parameters:
- a feed's fetch is `Option<seq<RawItem>>`, where `None` stands for `parser.parseURL` throwing;
- a date is an optional millisecond instant;
- the clock is an explicit `now`, plus `doneAt` for the moment the fresh list is stored.

The aggregation module takes the classifier as a parameter (`Aggregator.Classifier`); the server module supplies `Topics.InferTopics`.

## Model

| member | source | states |
|---|---|---|
| Text.Lower | server.js:83 | lowercasing keeps the length and maps each character on its own, ASCII capitals to small letters |
| Text.ContainsIff | server.js:85 | `includes` holds exactly when the keyword occurs at some position of the text: plain substring containment, no word boundaries |
| Text.LowerIdempotent | public/app.js:55 | lowercasing an already lowercased query changes nothing |
| Text.LowerSlice | public/app.js:59 | lowercasing a stretch of text is the same as taking that stretch of the lowercased text |
| JsObjects.Put | server.js:135 | assigning a key sets its value; a new key goes last in key order, an existing key keeps its place (the order JavaScript keeps for keys that are not array indices) |
| JsObjects.FromPairsSpec | server.js:133-136 | assigning distinct keys one after another yields exactly those keys in assignment order, each holding the value assigned to it |
| Topics.RulesetKeys | server.js:26-79 | the ruleset's keys are israel, wars, disasters, persecution, deception, tech_control, globalism, in that order, each once |
| Topics.RulesetKeywordsNotBlank | server.js:26-79 | every keyword is non-empty and does not start with a space |
| Topics.RulesetNamed | server.js:26-79 | every topic has a non-empty key and a non-empty label |
| Topics.Classify | server.js:84-87 | the keys found are a subsequence of the ruleset's keys, and a key is found exactly when one of its topic's keywords occurs in the text |
| Topics.ClassifyDistinct | server.js:82-87 | with distinct ruleset keys, no key is found twice (the role of the `Set`) |
| Topics.ClassifyBlank | server.js:83-85 | a text of spaces matches no ruleset whose keywords are all non-blank |
| Topics.InferTopics | server.js:81-88 | the inferred keys have no repeats |
| Topics.InferTopicsSpec | server.js:83-85 | key `k` is inferred if and only if some keyword of `k`'s topic is a substring of the lowercased text |
| Topics.InferTopicsInOrder | server.js:84-87 | inferred keys come in declaration order |
| Topics.InferTopicsBlank | server.js:83 | empty or all-space text is tagged with no topic |
| Topics.InferTopicsHit | server.js:85 | one occurrence of one keyword of a topic is enough for its key to be inferred |
| Topics.AwardIsWar | server.js:85 | "award" is tagged wars, through the keyword "war" |
| Topics.MarketIsTechControl | server.js:85 | "Market" is tagged tech_control, through "mark", after lowercasing |
| Topics.GazaEarthquakeIsrael | server.js:85 | "Gaza earthquake" is tagged israel |
| Topics.GazaEarthquakeDisaster | server.js:85 | "Gaza earthquake" is also tagged disasters: one text, several topics |
| Topics.PayloadPairs | server.js:134-135 | the assignments of the `/api/verses` loop follow the ruleset's keys, each pairing a key with its topic's label and verses |
| Topics.Payload | server.js:131-137 | the payload is well formed, its keys are exactly the ruleset's keys in declaration order, and each holds its topic's label and verses, keywords omitted |
| Topics.VersesPayloadKeys | server.js:133-136 | the served payload has the seven topic keys in declaration order |
| Aggregator.Normalise | server.js:100-108 | source is the feed's name, link is copied, title is the item's title or "Untitled" when absent or empty, date is `isoDate`, else `pubDate`, else none, and topics are the classifier's tags of title, snippet and content |
| Aggregator.NormaliseEmpty | server.js:100-104 | an item with no title, snippet or content gets "Untitled" and no topics |
| Aggregator.FailureIsolation | server.js:96-113 | a feed's items sit between those of the feeds before and after it, and a failed fetch removes exactly that feed's items and leaves the rest as they were |
| Aggregator.FeedInPlace | server.js:96-109 | the results are the earlier feeds' items, then this feed's, then the later feeds' |
| Aggregator.FailedFeed | server.js:97-112 | with one fetch failed, the other feeds' items close up around the gap |
| Aggregator.AllFailed | server.js:95-113 | when every fetch fails the results are empty, not an error |
| Aggregator.TwoOfThreeFeeds | server.js:95-113 | feeds with two items, a failure and one item give those three records, in feed then item order |
| Aggregator.Collect | server.js:95-109 | the nested loops push exactly the gathered records: every successful feed's items, feed after feed, item after item |
| Aggregator.InsertNewestPermutes | server.js:116 | inserting one item adds exactly that item |
| Aggregator.InsertNewestSorted | server.js:116 | inserting into a newest-first list keeps it newest first |
| Aggregator.InsertNewestStable | server.js:116 | inserting an item appends it after the items with its timestamp and leaves other timestamps' items alone |
| Aggregator.NewestFirstSpec | server.js:116 | the sorted list is a permutation of the input, has non-increasing timestamps with a missing date counting as 0, and keeps the input order of items with equal timestamps |
| Aggregator.NewestFirstExample | server.js:116 | an older item followed by two equally new ones sorts to the two new ones, in their order, then the old one |
| Aggregator.InsertNewestAt | server.js:116 | an item lands right after the last item at least as new as it |
| Aggregator.InsertAt | server.js:116 | one in-place pass moves `a[i]` to its place among `a[..i]` and touches nothing after `i` |
| Aggregator.SortNewestFirst | server.js:116 | sorting the array in place leaves exactly the stable newest-first order of its old contents |
| Server.NewsCache.constructor | server.js:11 | a new cache holds nothing |
| Server.NewsCache.Get | server.js:92-93 | a live entry is returned and kept; an expired or absent one reads as a miss and is deleted |
| Server.NewsCache.Set | server.js:11 | the value is stored and expires 600 seconds later: live at the time of storing, stale one millisecond past the time-to-live |
| Server.FetchAllFeeds | server.js:90-119 | on a live entry the cached list is returned and the cache is untouched; on a miss the result is the stable newest-first sort of the gathered records, and it is what the cache now holds for 600 seconds |
| Server.TwoRequests | server.js:91-93 | after a miss, a request whose lookup comes after the first one's store and within the time-to-live returns the very same list whatever the feeds would give, including the empty list when every feed failed |
| Client.EscapeChar | public/app.js:102 | the five special characters become entities that start with `&` and end with `;`; every other character stays as it is; no `<`, `>`, `"` or `'` is produced |
| Client.EscapeHtml | public/app.js:101-103 | the output has no `<`, `>`, `"` or `'`, is never shorter than the input, and equals the input when it has no special character |
| Client.EscapeHtmlOr | public/app.js:102 | absent input escapes to the empty string |
| Client.EscapeEntities | public/app.js:102 | `&`, `<`, `>`, `"` and `'` become `&amp;`, `&lt;`, `&gt;`, `&quot;` and `&#39;` |
| Client.EscapeAppend | public/app.js:102 | escaping distributes over concatenation |
| Client.UnescapeEscape | public/app.js:101-103 | decoding the five entities gives the original text back |
| Client.EscapeInjective | public/app.js:101-103 | different texts never escape to the same markup |
| Client.FilterNews | public/app.js:58-62 | the kept items are an order-preserving subsequence of the news, all pass both the query and the topic test, and every passing item is kept as often as it occurs |
| Client.FilterKeepsAll | public/app.js:59-60 | an empty query and no topic keep every item, in order |
| Client.MatchesQueryAnyCase | public/app.js:55-59 | a typed query matches exactly when it is empty or some stretch of `title source` equals it up to the case of letters |
| Client.RenderIgnoresQueryCase | public/app.js:55 | the typed query and its lowercase give the same page |
| Client.ScriptureOf | public/app.js:80-85 | a scripture block appears exactly when the first topic exists, is non-empty, is known and has verses |
| Client.CardFor | public/app.js:74-95 | a card's title and source are `escapeHTML` of the item's, with no markup character left; badge `i` is the badge text of topic `i`; the link is the item's; the scripture block is the one chosen for the item's topics |
| Client.Render | public/app.js:64-73 | between 1 and 120 cards, and the lone "No results" card exactly when nothing passes the filter |
| Client.RenderCap | public/app.js:73 | with 120 or more matches, exactly the cards of the first 120, in order |
| Client.RenderAll | public/app.js:73 | with fewer matches, one card per match, in order |
| Client.RenderShowsOnlyMatches | public/app.js:58-73 | every article card is the card of an item of the news that passes both tests |
| Client.BadgeShowsLabel | public/app.js:77 | a payload topic with a label is badged with that label |
| Client.ServedBadgesShowLabels | public/app.js:77 | on the served page, every topic's badge reads the topic's label, never its key |
| Client.BadgeFallsBack | public/app.js:77 | a key the payload does not have is badged with the key itself |
| Client.ScriptureShowsFirstVerse | public/app.js:80-85 | an item whose first topic is in the payload shows that topic's first verse, with the text escaped, or no scripture when the topic has no verses |
| Client.FilterOptions | public/app.js:41-51 | "All topics" with the empty value comes first, then one option per payload key, in key order |
| Client.FilterOptionsOfPayload | public/app.js:41-51 | for the served payload the options are "All topics", then each topic's key and label in declaration order |

## Left out

- Network fetching and RSS/XML parsing (`rss-parser`, its 15-second timeout): each feed's outcome is an input, and `None` stands for any thrown error. The error log line is not modelled.
- Date parsing: dates are given as optional millisecond instants. A date string that `new Date` cannot parse (NaN in the comparator) is not modelled, and neither is the `toLocaleString` date shown on a card.
- `node-cache` internals:
  - the `checkperiod` background sweep is left out, since an expired entry is also dropped on lookup and that lookup is modelled;
  - value cloning is left out, since values are immutable here.
- Unicode: `toLowerCase` is modelled on ASCII letters only.
- Express plumbing (routes, CORS, static files, `listen`) and the 500 response of `/api/news`. `/api/verses` is modelled as the value it sends.
- The DOM: element creation, `innerHTML`, event listeners and the `fetch` loaders of `public/app.js`. A card is modelled as its fields, not as HTML text.
- Unescaped card fields are carried as they are: the badge text, the verse reference and the link are interpolated without escaping.
- `drawStars` (floating point, randomness, animation) and `public/sw.js` (service-worker caching, network and notifications) are not part of this model.
- Overlapping requests are not modelled. Feeds are awaited one after another, and the list is stored only once every feed has been awaited. A request whose lookup comes before an earlier request's store misses the cache and fetches every feed again, since nothing guards a computation in flight. `Server.TwoRequests` covers only a second lookup after the first store.
- Topics.VersesPayloadKeys: pins only the served payload's keys, not its verse texts. The texts are written out in `Topics.VersesAt`, and the payload's properties are proved for any ruleset and any verse table (`Topics.Payload`).
- JavaScript objects are modelled as string-keyed maps. Inherited keys such as `constructor`, which `VERSES[t]` would find for such a `t`, are not modelled.
- Array-index keys ("0", "42"), which `Object.entries` lists first in ascending numeric order whatever the assignment order, are not modelled. No topic key is one.
- The engine's sort algorithm: `Array.prototype.sort` is stable, and any stable sort gives the same order, so the order is specified through insertion.
