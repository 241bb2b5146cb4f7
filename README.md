# Stockfeed data engine, modelled in Dafny

`src/components/Stockfeed.tsx` is a live stock-tick screen. Under its UI sits a
small sequential engine, and this project models it with the UI taken away:

- **Tick buffer** (`TickBuffer`, `buffer.dfy`). Each parsed feed message is
  stamped with its receive time `_updated`. It is prepended to the message
  list, the list is cut to `MAX_ENTRIES` = 200, and the new list is written to
  the single storage key `stockfeed_messages`. "Clear All" empties the list and
  removes the key. On mount the stored snapshot seeds the list, or `[]` when
  there is none. The state is the class `Feed`, with a `messages` field and a
  `store` field. Its invariant `Valid()` says that reloading would restore
  exactly the in-memory list.
- **Alert cue and row classifiers** (`Classify`, `classify.dfy`). The
  Ding/Dong/silent decision on arrival, the one-minute recency test, the
  recent-positive/recent-negative card highlight, and the sign-to-colour rule
  shared by both percentage columns.
- **Per-symbol grouping** (`Grouping`, `grouping.dfy`). The `messages.reduce`
  pass, written as a loop over a dictionary modelled as a `map` plus the
  insertion order of its keys. For each symbol it keeps the first five ticks
  in list order, which are the most recent five.
- **Ranking** (`Ranking`, `ranking.dfy`). The entries are sorted by descending
  `Math.max` of `pct_vs_day_open` over each group. The in-place sort is a
  stable insertion sort over an `array`. It is proved equal to a functional
  sort, and that sort is proved ranked, a permutation and stable.
- **View** (`Dashboard`, `dashboard.dfy`). The render pipeline: group, list
  the entries, sort. It comes with the end-to-end facts about the rows that
  are shown.

`basics.dfy` holds `Option`, `Result` and `Min`. `ticks.dfy` holds the
message and tick records.

Numbers are exact: percentages are `real`, clock readings are `int`
milliseconds. `Math.max` of an empty list is minus infinity in JavaScript,
so a score is a `Level`: `NegInfinity` or `Finite(v)`. The sort therefore
needs no precondition on empty groups, although the grouping never makes
one. The clock, the parser and the storage contents are inputs, as follows.
`Receive` takes the clock reading `now` and the flag `soundsEnabled`.
`Payload` is what `JSON.parse` produced: a `Quote` or a throw. `Stored` is
what JSON parsing sees under the storage key: a serialized list, the empty
string, or text that does not parse.

The model follows the code on these points:

- A corrupt snapshot is not treated as an empty one. The `JSON.parse(saved)` on
  mount (line 10) is not inside a `try`, so mounting fails: `Restore` returns
  `Err`, and `Mount` returns `Err`.
- A stored list is not capped when it is loaded. It seeds the buffer
  verbatim, even if it is longer than 200. The cap applies from the first
  accepted tick on, which is why `IngestKeepsNewest` states the retained count
  with `RetainedCount`.
- Groups are ranked by the maximum `pct_vs_day_open` of their window. There
  is no selectable sort key, no direction toggle and no symbol filter. The
  code also has no star rating or trend score, and the rows per group are
  fixed at 5.
- Groups with equal maxima keep the order of `Object.entries`, which is the
  order in which each symbol first appears in the list. The sort is stable.

## Model

| member | source | states |
|---|---|---|
| `Ticks.Stamp` | src/components/Stockfeed.tsx:61-62 | the stamped tick carries the receive time as `updated` and every quote field unchanged |
| `Classify.ToneOf` | src/components/Stockfeed.tsx:211-215 | the colour is success exactly when the percentage is > 0, destructive exactly when < 0, muted exactly when = 0 |
| `Classify.HighlightOf` | src/components/Stockfeed.tsx:200-209 | positive highlight iff recent and vs-last-close > 0; negative iff recent and < 0; none iff not recent or the percentage is 0 |
| `Classify.CueFor` | src/components/Stockfeed.tsx:64-72 | sounds off gives no cue; sounds on gives Ding iff vs-last-close > 0, Dong iff < 0, silence iff = 0; one cue value, so never both |
| `Classify.CueMatchesTone` | src/components/Stockfeed.tsx:64-72 | with sounds on, the cue is Ding, Dong or silent exactly when the vs-last-close column is green, red or grey |
| `Classify.HighlightMatchesTone` | src/components/Stockfeed.tsx:200-215 | the highlight is the vs-last-close colour shown only while the row is recent; a row that is not recent is never highlighted |
| `Classify.RecencyExpires` | src/components/Stockfeed.tsx:200 | a tick is recent at the instant it is stamped, and once no longer recent it stays unhighlighted at every later time |
| `TickBuffer.Append` | src/components/Stockfeed.tsx:75 | after a prepend-and-cut, the length is min(200, old + 1), the new tick is at index 0, and the rest is a prefix of the old list |
| `TickBuffer.Restore` | src/components/Stockfeed.tsx:8-11 | a missing or empty key loads `[]`; a serialized list loads verbatim; text that does not parse is an error |
| `TickBuffer.Feed.constructor` | src/components/Stockfeed.tsx:8-11 | a loadable snapshot seeds the messages, keeps the storage key, and establishes the reload invariant |
| `TickBuffer.Mount` | src/components/Stockfeed.tsx:8-11 | mounting fails exactly when the stored text does not parse; otherwise a fresh feed whose messages are the restored list |
| `TickBuffer.Feed.Receive` | src/components/Stockfeed.tsx:59-81 | an unparsable payload changes nothing and plays nothing; a parsed one yields `CueFor` its vs-last-close, makes the list `Append` of the stamped tick, and stores exactly the new list |
| `TickBuffer.Feed.Clear` | src/components/Stockfeed.tsx:110-113 | the list becomes `[]`, the storage key is removed, and the reload invariant holds; the new state does not depend on the old one, so a second clear changes nothing |
| `TickBuffer.Feed.ReceiveAll` | src/components/Stockfeed.tsx:59-81 | running the handler over a session of frames keeps the reload invariant, leaves the list equal to `Ingest` of the frames, and yields per frame the cue its payload calls for (silent for an unparsable one); the store is untouched when no frame parses and otherwise holds exactly the final list |
| `TickBuffer.IngestKeepsNewest` | src/components/Stockfeed.tsx:59-81 | after any sequence of frames, the list is the accepted ticks newest first, followed by the previous list, cut to 200 once a tick was accepted; unparsable frames add nothing |
| `TickBuffer.SessionFromEmpty` | src/components/Stockfeed.tsx:74-78 | from an empty list, N accepted ticks leave min(N, 200) entries, and the first is the most recently accepted tick |
| `Grouping.GroupBySymbol` | src/components/Stockfeed.tsx:104-108 | the reduce loop creates one key per symbol in first-seen order and leaves each symbol's list equal to its window |
| `Grouping.FirstSeenSpec` | src/components/Stockfeed.tsx:104-105 | the key order lists exactly the symbols occurring in the list, each once |
| `Grouping.FirstSeenOrder` | src/components/Stockfeed.tsx:104-105 | for keys i < j, key i occurs in the list before the first occurrence of key j |
| `Grouping.OfSymbolSpec` | src/components/Stockfeed.tsx:105-106 | a symbol's ticks carry that symbol and come from the list; there are some iff the symbol occurs |
| `Grouping.OfSymbolConcat` | src/components/Stockfeed.tsx:104-106 | taking one symbol's ticks distributes over concatenation, so list order is kept |
| `Grouping.WindowSpec` | src/components/Stockfeed.tsx:106 | a window holds only its symbol's ticks from the list, min(5, count) of them, as a prefix of that symbol's ticks; 1 to 5 iff the symbol occurs, empty otherwise |
| `Grouping.NewestWin` | src/components/Stockfeed.tsx:104-106 | older ticks behind a list only extend its windows; once five newer ticks of a symbol are there, older ones never enter its window |
| `Grouping.GroupedSpec` | src/components/Stockfeed.tsx:104-108 | every symbol of the list has an entry; entries have distinct symbols, all present in the list, in first-seen order; each holds its symbol's window of 1 to 5 ticks |
| `Ranking.MaxPctSpec` | src/components/Stockfeed.tsx:197 | the group score is at least every window percentage and equals one of them; only an empty window scores minus infinity |
| `Ranking.InsertPermutes` | src/components/Stockfeed.tsx:197 | one insertion step adds exactly the inserted entry |
| `Ranking.InsertRanked` | src/components/Stockfeed.tsx:197 | one insertion step keeps a ranked list ranked |
| `Ranking.InsertKeepsTies` | src/components/Stockfeed.tsx:197 | one insertion step places the entry behind all entries of its own score and moves no other tie |
| `Ranking.SortPermutes` | src/components/Stockfeed.tsx:197 | the sorted entries are a permutation of the input |
| `Ranking.SortRanked` | src/components/Stockfeed.tsx:197 | the sorted entries have non-increasing maximum vs-day-open |
| `Ranking.SortStable` | src/components/Stockfeed.tsx:197 | for every score, the entries with that score appear in the same relative order as in the input |
| `Ranking.InsertAt` | src/components/Stockfeed.tsx:197 | the inner pass leaves the first i+1 cells as the insertion of a[i] into the first i, and nothing after them changes |
| `Ranking.SortInPlace` | src/components/Stockfeed.tsx:197 | the array ends as the stable descending sort of its old contents |
| `Dashboard.RankedEntries` | src/components/Stockfeed.tsx:196-197 | the rendered entry order is the stable sort of the grouped entries of the current list |
| `Dashboard.RankedViewOrder` | src/components/Stockfeed.tsx:196-197 | the view is a permutation of the entries, by non-increasing top percentage, with equal tops in first-seen order |
| `Dashboard.RankedViewGroups` | src/components/Stockfeed.tsx:104-108 | the view has exactly one group per symbol of the list and none for an absent one; each group is its symbol's window of 1 to 5 ticks |

Some definitions model source expressions directly and are given their
meaning by the lemma rows above rather than by rows of their own:
`Classify.IsRecent` is `isRecent` (line 200), whose properties
`RecencyExpires` and `HighlightOf` state. `TickBuffer.Ingest` is the
`onmessage` body applied frame by frame (lines 59-81), tied to the class by
`Feed.ReceiveAll` and described by `IngestKeepsNewest` and `SessionFromEmpty`.
`Grouping.Grouped` and `Grouping.Entries` are `Object.entries(grouped)`
(line 196), described by `GroupedSpec` and linked to the reduce loop by
`RankedEntries`. `Ranking.MaxPct` is the `Math.max(...map(...))` of line
197, described by `MaxPctSpec`. `Ranking.Insert` and `Ranking.SortByScore`
are the `.sort` result of line 197, described by the `Insert*` and `Sort*`
lemmas and implemented in place by `SortInPlace`.

## Left out

- WebSocket connect, `onopen`/`onclose`/`onerror`, the 3 s reconnect and the `connectedRef` guard (lines 50-97): these are callbacks driven by browser timers and the network. Only the body of `onmessage` is modelled, as `Feed.Receive`.
- The one-second re-render and clock timers, `toLocaleTimeString`, `formatTime` and `today` (lines 25-47, 99-102): these are wall-clock and locale library calls. The clock reading is a parameter.
- `Audio` playback, `play().catch` and `handleEnableSounds` (lines 18-19, 115-129): these are foreign side effects. Only the cue decision is kept, as `CueFor`, and `Receive` returns the cue.
- Real `localStorage` and `JSON.stringify`/`JSON.parse`: the store is the `store` field. A serialized list is assumed to parse back to the same ticks. A storage write that throws (quota) is not modelled. Every parsed payload is assumed to be an object carrying the seven quote fields, with numbers for `price`, `day_open`, `pct_vs_day_open` and `pct_vs_last_close`, and a stored snapshot is assumed to be a list of such stamped records. Other well-formed JSON is not modelled: for example an array payload, or an object without `pct_vs_last_close`, which the code would stamp, prepend and store without a cue; or a stored non-list, which loads and then makes `messages.reduce` throw.
- Console logging (lines 57, 67, 70, 80, 85, 90): it has no effect on the state or the rendered data.
- The React update queue: `setMessages(prev => ...)` is modelled as applied at once, in arrival order.
- Floating-point detail: `toFixed` formatting, NaN and `-0` in the `b - a` comparator, and any `Math.max` behaviour beyond a plain maximum (with minus infinity for an empty list). Percentages are exact reals.
- `Object.entries` lists integer-like keys first. Symbols are assumed not to be array-index strings or names inherited from `Object.prototype` (such as `constructor`), so key order is first-seen order.
- All JSX, layout, CSS and the `direction === "🟢"` icon choice (lines 131-271). Of the styling, only the highlight (`HighlightOf`) and the column colour (`ToneOf`, used for both percentage columns) are modelled.
- A mount that fails builds no feed: `Feed`'s constructor requires a loadable snapshot, and `Mount` returns `Err` for the other case.
