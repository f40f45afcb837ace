# Crisis map cards: ranking, crowd reports and tile overlap

This project models in Dafny the logic behind the "card" view of a crisis
map (`card.py`), together with the tile and quadrilateral overlap tests of
the map client (`js/geometry.js`), and proves properties of the model.

- **Nearby features** (`Ranking`). Features are sorted by distance with
  Python's stable sort. The first `max_count` are kept, with Python slice
  semantics, and then only those strictly inside the radius. For a
  non-negative count, filtering after the cut gives the same list as
  cutting the radius-filtered ranking. So the cut never hides a nearer
  feature that lies inside the radius. Without a query centre no distance
  is set; the features then keep their order, and Python 2's `None < radius`
  keeps every feature of the cut. The distinct HTML attributions of a
  feature list are a set.
- **Crowd reports** (`CrowdReports`, `CrowdReportFacts`).
  `GetAnswersAndReports` folds the reports the store returns, in store
  order:
  - reports seven days old or older are ignored;
  - answers are scoped to `map.topic` by splitting each full question id at
    its last dot;
  - the comment is recorded under `_text`;
  - for each question, the latest non-empty answer wins, and the earlier
    report wins a tie;
  - the report snapshot is the five newest reports, newest first.
  A full question id without a dot raises, as the unpacking of `rsplit`
  does.
- **Answer text** (`AnswerText`). `FormatAnswers` builds the one-line
  summary, and `GetStatusColor` picks the colour of the first question's
  chosen choice.
- **Report cache** (`ReportCache`). The cache is keyed by map, topic and
  rounded location. `InvalidateReportCache` deletes the entry of every full
  topic id listed. An id with two or more dots raises, and the deletions
  made before it stay done.
- **KML address** (`KmlUrl`). `GetKmlUrl` yields the feed URL, or the
  kmlify query pairs for CSV, spreadsheet and GeoJSON layers.
  `RemoveParamsFromUrl` works at the level of the query pairs.
- **Text colour** (`TextColor`). `GetLegibleTextColor` chooses black or
  white text from the weighted luminance of a `#rgb` or `#rrggbb` colour.
- **Geometry** (`Geometry`). It covers the bounding-box test, the signed
  edge test, the quadrilateral/tile verdict, and tile bounds at a zoom
  level.

`PyText` models the Python string and sequence built-ins the code relies
on: slices, `rsplit`, `split`, `join` and `str`. `Sorting` models a stable
insertion sort and what it guarantees. `Common` holds `Option` and
`Result`.

Where comments and code disagree, the model follows the code:

- The `GetAnswersAndReports` docstring speaks of the latest 10 reports, but
  the code keeps `REPORTS_PER_FEATURE` = 5 (card.py:396 against card.py:55).
- The comment on `REPORT_CACHE` gives a key that includes the map version
  and the radius. The code reads and deletes under
  `[map_id, topic_id, RoundGeoPt(location)]` (card.py:46 against
  card.py:495 and card.py:519).

## Model

| member | source | states |
|---|---|---|
| Ranking.FilterFeatures | card.py:348-363 | the result is sorted by distance and is a sub-multiset of the input, with at most `max_count` entries for a non-negative count; with a query centre every kept feature lies strictly inside the radius, and without one (no distance set) the result is the first `max_count` features in input order |
| Ranking.DistanceKeyMatchesLt | card.py:92-93 | when both distances are set, or both are `None`, comparing the sort keys is the same as `Feature.__lt__` with Python 2's ordering of `None` |
| Ranking.Ranked | card.py:352 | the ranking is a permutation of the features, and when the distances are all set or all `None` no feature is `__lt__` one ranked before it |
| Ranking.RankedWithoutDistances | card.py:352 | with no distance set, the stable sort keeps the input order |
| Ranking.TruncateThenFilterIsFilterThenTruncate | card.py:351-353 | for a non-negative count, cutting the ranking and then filtering by radius equals the first `max_count` of the ranking of the in-radius features |
| Ranking.NearerFeatureShown | card.py:351-353 | every input feature strictly nearer than a shown feature is shown too |
| Ranking.NearbyFeatureDroppedOnlyByCount | card.py:351-353 | a feature inside the radius is left out only when the count cut the ranking short and every kept feature is at least as near as it |
| Ranking.FilterFeaturesExample | card.py:348-353 | for four features a, b, c, d with distances ordered b < d < a < c, count 3 and d inside the radius, the result is b, d, a when a is inside the radius and b, d otherwise; c is never shown |
| Ranking.RankedExample | card.py:351 | four features whose distances are ordered b < d < a < c rank as b, d, a, c |
| Ranking.FeatureAttributions | card.py:437-444 | an attribution is in the result exactly when some feature lists it |
| Sorting.StableSort | card.py:351 | the sort yields a permutation of its input in non-decreasing key order |
| Sorting.InsertFacts | card.py:351 | inserting into a sorted list keeps it sorted and adds exactly the new element |
| Sorting.InsertWithKey | card.py:351 | the inserted element comes before the elements with its key, as if prepended |
| Sorting.KeepBelow | card.py:353 | the filter keeps only elements whose key is below the bound |
| Sorting.KeepBelowKeepsAll | card.py:353 | every element below the bound is kept, and the result is drawn from the input |
| Sorting.StableSortIsStable | card.py:351 | elements with equal keys keep their input order |
| Sorting.StableSortUnique | card.py:351 | any sorted list with the same elements and the same order within each key is the sort's result |
| Sorting.SortedWithSameKeysEqual | card.py:351 | two sorted lists with the same elements in the same order within each key are equal |
| Sorting.Reverse | card.py:423 | `reverse()` puts element `i` at position `n - 1 - i` |
| Sorting.ReverseSortedIsNonIncreasing | card.py:423 | reversing an ascending list gives a descending one |
| Sorting.KeepBelowCommutesWithSort | card.py:353 | filtering by a key bound before or after the stable sort gives the same list |
| Sorting.KeepBelowOfSortedPrefix | card.py:353 | on a sorted list, filtering a prefix gives the corresponding prefix of the filtered list |
| PyText.Take | card.py:353 | a slice `s[:k]` is a prefix of `s`, of length `min(k, len(s))` for non-negative `k` and `max(0, len(s) + k)` for negative `k` |
| PyText.RSplitDot | card.py:413 | `rsplit('.', 1)` into two parts fails exactly when there is no dot, and otherwise rebuilds the id with a dot-free last part |
| PyText.RSplitDotOfJoin | card.py:413 | splitting `t + "." + q` with dot-free `q` gives back `t` and `q` |
| PyText.SplitPair | card.py:518 | `split('.')` unpacks into two names exactly when there is one dot, and the names rebuild the id |
| PyText.SplitPairOfJoin | card.py:518 | splitting two dot-free names joined by a dot gives back the names |
| PyText.SplitFirstTwo | card.py:524 | neither part contains `?`; without a `?` the url is the base; otherwise base, `?` and query are either the whole url or a prefix of it followed by a second `?`, so the query is exactly the text between the first and the second `?` |
| PyText.JoinAppend | card.py:474 | joining two non-empty lists equals joining each and gluing with the separator |
| PyText.DecimalRoundTrip | card.py:473 | reading back the decimal digits of `str(n)` gives `n` |
| PyText.IntToString | card.py:473 | `str(n)` is non-empty and starts with a minus sign exactly for negative `n` |
| CrowdReports.NonEmptyMeansPresent | card.py:416 | the test `answer or answer == 0` fails only for `None` and the empty string |
| CrowdReports.ScopedEntries | card.py:411-415 | the in-topic entries are missing exactly when some entry id has no dot |
| CrowdReports.ScopedEntriesMembers | card.py:413-415 | an entry is kept as `(q, a)` exactly when its id is the full topic id, a dot and a dot-free `q` |
| CrowdReports.BuildDict | card.py:415 | the report dictionary has exactly the scoped ids as keys, each value comes from an entry, and the last entry wins |
| CrowdReports.FirstNonEmpty | card.py:416-419 | a report's answer to `q` is a non-empty entry for `q` with no non-empty entry for `q` before it, and there is none exactly when every entry for `q` is empty |
| CrowdReports.Record | card.py:416-419 | one entry never moves an answer time back and leaves every other question alone, and it changes the tally only to set `q` to a non-empty answer at the report's time |
| CrowdReports.RecordAllAt | card.py:416-419 | one report sets `q` exactly when it answers `q` and is newer than the recorded time; otherwise `q` is unchanged |
| CrowdReports.RecordAll | card.py:414-419 | the inner loop keeps the answers and answer times on the same keys |
| CrowdReports.Collect | card.py:406-421 | the folded answers and answer times always have the same keys |
| CrowdReports.CollectStep | card.py:408-421 | one pass of the outer loop keeps answers and answer times on the same keys, and a stale report leaves the state as it was |
| CrowdReports.NewestFirst | card.py:422-423 | sorting by `_effective` then reversing gives a permutation in non-increasing time order |
| CrowdReports.Snapshot | card.py:422-424 | the snapshot has `min(5, n)` dictionaries, newest first, drawn from the input |
| CrowdReports.FreshReports | card.py:406-408 | every kept report is a fresh member of the input, and every fresh report of the input is kept |
| CrowdReports.FreshReportsAppend | card.py:406-408 | keeping the fresh reports distributes over concatenation, so the kept reports stay in store order |
| CrowdReports.FreshReportsSingle | card.py:408 | a single report is kept exactly when it is younger than seven days |
| CrowdReports.GetAnswersAndReports | card.py:383-424 | on success the answers and answer times have the same keys, and the snapshot holds at most five reports, newest first |
| CrowdReportFacts.EntriesScopedIffDotted | card.py:411-413 | a report's entries fail to split exactly when one of its answer ids has no dot |
| CrowdReportFacts.RaisesIffUndottedFreshKey | card.py:408-413 | the call raises exactly when some fresh report has an answer id without a dot |
| CrowdReportFacts.CollectLatestWins | card.py:406-421 | after any prefix of the reports, each question's tally is its winning answer |
| CrowdReportFacts.LatestAnswerWins | card.py:406-419 | `q` has an answer time exactly when some fresh report answers it; the answer and time come from the fresh report with the latest time, the first such report on a tie, and no fresh report answers it later |
| CrowdReportFacts.AnswerInIsInTopic | card.py:413-416 | a counted answer is non-empty and was filed under `map.topic.q` with a dot-free `q` |
| CrowdReportFacts.InTopicAnswerCounts | card.py:413-416 | every non-empty answer filed under `map.topic.q` is counted |
| CrowdReportFacts.ReportDictContents | card.py:411-421 | a snapshot dictionary carries the report's id and time, maps `_text` to its comment, and has exactly the in-topic ids as keys, empty answers included |
| CrowdReportFacts.CollectDicts | card.py:406-421 | the unsorted dictionaries are those of the fresh reports, one each, in store order |
| CrowdReportFacts.StaleReportIgnored | card.py:408 | removing a report seven days old or older leaves the whole result unchanged |
| CrowdReportFacts.NewestFirstTiesReversed | card.py:422-423 | reports with equal times appear in reverse store order |
| CrowdReportFacts.SnapshotIsNewestPrefix | card.py:424 | the snapshot is a prefix of the newest-first list |
| CrowdReportFacts.SnapshotKeepsNewest | card.py:422-424 | a dictionary left out of the snapshot is no newer than any kept one |
| CrowdReportFacts.SnapshotOfFreshReports | card.py:383-424 | the snapshot holds `min(5, number of fresh reports)` dictionaries of fresh reports, and every fresh report left out is no newer than the kept ones |
| AnswerText.QuestionById | card.py:453 | the question lookup finds a question exactly when one has that id, and then returns one with that id |
| AnswerText.ChoiceById | card.py:454-456 | the choice lookup is empty exactly when no question with that id has a choice with that answer id; a found choice has the answer as its id and belongs to such a question |
| AnswerText.ChoiceByIdIsLastMatch | card.py:454-456 | a found choice is the last match: the last choice with that id in some question with the question id, after which no question with that id has a matching choice |
| AnswerText.LastChoice | card.py:454-456 | the last choice with the given id in one question's choice list: none exactly when no choice has the id, and otherwise no later choice has it |
| AnswerText.LaterChoiceWins | card.py:454-456 | with two matching choices in one question, the later one is returned |
| AnswerText.Piece | card.py:461-473 | a summary piece always ends with a full stop |
| AnswerText.FormatAnswers | card.py:458-474 | the summary is empty exactly when no question id contributes a piece, and otherwise ends with a full stop |
| AnswerText.Pieces | card.py:460-473 | there is at most one piece per question id, in order, each ending with a full stop |
| AnswerText.PiecesAppend | card.py:461-473 | the pieces of two id lists are the pieces of each, concatenated |
| AnswerText.UnknownQuestionIgnored | card.py:462-466 | an id naming no question of the topic does not change the summary |
| AnswerText.FormatAnswersAppendNothing | card.py:474 | an id that contributes nothing leaves the summary unchanged |
| AnswerText.FormatAnswersAppendPiece | card.py:474 | a contributing id appends its piece after a single space, or forms the whole summary when it is the first |
| AnswerText.ChoiceQuestionPiece | card.py:467-471 | a CHOICE question contributes exactly when some question with its id has a choice the answer names; the piece then uses the choice `choices_by_id` keeps, the last such match, giving its label, or the prefixed title, plus a full stop |
| AnswerText.OtherQuestionPiece | card.py:472-473 | another question contributes exactly when the answer is neither missing nor empty, giving the prefix, `str(answer)` and a full stop, and `0` counts |
| AnswerText.GetStatusColor | card.py:476-482 | a colour is returned only when the question kept for the first id is a CHOICE question; the colour is that of the choice `ChoiceById` returns, the last choice matching the answer among all questions with that id, which need not be the CHOICE question itself |
| AnswerText.StatusColorOfLastQuestion | card.py:476-482 | the last question with the first id decides: a non-CHOICE question gives no colour, and a CHOICE question gives the colour of the choice its answer names, or none |
| AnswerText.StatusColorUnknownQuestion | card.py:476-482 | a first id that names no question gives no colour; with no ids the id looked up is `""` |
| AnswerText.StatusColorUsesFirstQuestionOnly | card.py:478-482 | the colour depends only on the first question id and the answer to it |
| ReportCache.CachedGet | card.py:494-496 | on a hit the stored value is returned and the cache is unchanged; on a miss the computed value is returned and stored under the key |
| ReportCache.ReadKeysSeparate | card.py:494-495 | two reads share a cache entry exactly when they are for the same map, topic and rounded location |
| ReportCache.GetLeavesOtherReads | card.py:494-496 | reading one feature's answers leaves the cached entry of a read with a different map, topic or rounded location unchanged |
| ReportCache.Targets | card.py:516-519 | every deleted key has the given location and dot-free map and topic ids |
| ReportCache.InvalidateReportCache | card.py:514-519 | it raises exactly when some id has two or more dots; when it does not raise, the cache loses exactly the targeted keys; no entry is ever added or altered |
| ReportCache.InterruptedKeepsEarlierDeletions | card.py:514-519 | an interrupted run stops at the first id with two or more dots, and the cache has lost exactly the keys of the ids before it |
| ReportCache.TargetsHasReadKey | card.py:494-519 | listing `map.topic` targets the very key the reader uses |
| ReportCache.TargetsFromIds | card.py:516-519 | every targeted key comes from a listed id |
| ReportCache.ReadAfterInvalidateRecomputes | card.py:494-519 | after a completed invalidation, reading a listed topic at that location recomputes the answers |
| ReportCache.OtherEntriesUnchanged | card.py:514-519 | entries for other locations or unlisted topics survive unchanged |
| KmlUrl.SpreadsheetCsvUrl | card.py:58-59 | the address is the published-CSV template with its one `$key` placeholder replaced by the key, so the key sits at the placeholder's position |
| KmlUrl.NonEmptyPairsMembers | card.py:197 | a query pair is kept exactly when its value is non-empty |
| KmlUrl.KmlifyParams | card.py:178-195 | the parameters are missing exactly for a CSV-like layer without both location fields, and start with the feed url |
| KmlUrl.GetKmlUrl | card.py:158-197 | it raises exactly for a spreadsheet without a url; unsupported types give nothing; a direct address is a non-empty KML or GeoRSS url; kmlify queries carry no empty value |
| KmlUrl.CsvQueryInOrder | card.py:178-197 | a CSV layer with every field set sends exactly the eleven pairs url, type, loc, icon, color, hotspot, name, desc and three conds, in that order |
| KmlUrl.CsvLayerUsesKmlify | card.py:173-197 | a CSV layer with a non-empty url, or a spreadsheet whose url yields a key, that names both location fields gets a kmlify query of type csv whose first pair is the layer url or the spreadsheet's CSV address |
| KmlUrl.FeedLayersAreDirect | card.py:169-171 | KML and GeoRSS layers give their url, or nothing when it is missing or empty |
| KmlUrl.MissingLocationFieldGivesNone | card.py:183-185 | a CSV or spreadsheet layer lacking a latitude or longitude field gives nothing, unless it raises |
| KmlUrl.KmlifyStartsWithFeedUrl | card.py:173-179 | a kmlify query starts with the feed url: the layer's url, or the CSV address of the spreadsheet key |
| KmlUrl.GeoJsonHasNoLoc | card.py:180-181 | a GeoJSON layer with a url asks for type `geojson` and passes no `loc` |
| KmlUrl.CsvLocParam | card.py:183-187 | a CSV-like query has both location fields, type `csv`, and `loc` equal to the latitude field alone when the fields match, or both fields joined by a comma |
| KmlUrl.EmptyParamsDropped | card.py:191-197 | the title template is passed exactly when it is non-empty, and no empty condition is passed |
| KmlUrl.RemoveParamsFromUrl | card.py:522-529 | the base has no `?`; it is the whole url when the url has no `?`, and otherwise the base followed by `?` is a prefix of the url, so the base is the text before the first `?`; no removed name remains |
| KmlUrl.RemoveParamsKeepsOthers | card.py:524-526 | the pairs kept are exactly the parsed pairs whose names were not removed |
| KmlUrl.WithoutNamesTwice | card.py:526 | removing one set of names and then another equals removing both |
| KmlUrl.RemoveParamsTwice | card.py:522-529 | stripping a stripped url again equals stripping both name sets at once, when the encoding of the kept pairs has no `?` and parses back to them |
| KmlUrl.KeptPairsHaveNoBlank | card.py:525-526 | when the parser drops blank values, as `parse_qsl` does by default, no kept pair has a blank value, so those pairs are read back after `urlencode` |
| TextColor.ParseHex | card.py:432 | `int(s, 16)` succeeds exactly for a non-empty string of hex digits |
| TextColor.Strip | card.py:429 | `strip('#')` leaves no `#` at either end, is empty only when the input is all `#`, and keeps a string that starts and ends with something else |
| TextColor.StripIsTrimmedSlice | card.py:429 | the stripped string is a slice of the input with only `#` before and after it, so exactly the leading and trailing runs of `#` are removed |
| TextColor.Expand | card.py:430-431 | a three-digit colour doubles each digit; any other length is kept |
| TextColor.GetLegibleTextColor | card.py:427-434 | the answer is `#000` or `#fff`, and it is given exactly when all three channel slices parse |
| TextColor.StripLeading | card.py:429 | any number of leading `#` before a clean colour strips away |
| TextColor.ColorOfSixDigits | card.py:429-434 | a colour that strips to six hex digits is judged by the weighted luminance of its three bytes |
| TextColor.SixDigitColorParses | card.py:429-434 | six hex digits after any number of `#` always parse and are judged by their bytes |
| TextColor.ShortFormMatchesLongForm | card.py:430-431 | `#abc` gets the same text colour as `#aabbcc` |
| TextColor.ColorOfThreeDigits | card.py:429-434 | a colour that strips to three hex digits gets the text colour of the bytes of its doubled form |
| TextColor.TextOver | card.py:433-434 | the answer is `#000` exactly when `0.299 r + 0.587 g + 0.114 b > 128` in exact arithmetic, and `#fff` otherwise |
| TextColor.BrighterKeepsDarkText | card.py:433-434 | raising any channel never turns dark text into light text |
| Geometry.BoundingBoxesOverlap | js/geometry.js:43-69 | the boxes overlap exactly when the quad's largest x and y reach the low corner and its smallest x and y reach the high corner |
| Geometry.BoundingBoxesOverlapRotation | js/geometry.js:43-69 | the bounding test does not depend on the vertex order |
| Geometry.EdgeValueIsCrossProduct | js/geometry.js:83-89 | each corner value is the cross product of the edge direction and the corner's offset from `a` |
| Geometry.OffsetAtEitherEnd | js/geometry.js:85 | the offset `d` is the same computed at `a` or at `b` |
| Geometry.EdgeValueSwap | js/geometry.js:83-89 | swapping the endpoints negates every corner value |
| Geometry.EdgeTileOverlap | js/geometry.js:82-103 | OUTSIDE exactly when all four corner values are negative, INSIDE exactly when all four are positive; a zero value gives INTERSECTING |
| Geometry.EdgeTileOverlapSwap | js/geometry.js:82-103 | swapping the endpoints exchanges OUTSIDE and INSIDE and keeps INTERSECTING |
| Geometry.DegenerateEdgeIntersects | js/geometry.js:82-103 | an edge of length zero gives INTERSECTING |
| Geometry.EdgeValueBetweenCorners | js/geometry.js:86-89 | the value of any point of the tile lies between the values at two of its corners |
| Geometry.LinearBetweenCorners | js/geometry.js:86-89 | any linear function `nx x + ny y - d` at a point of the tile is at least its value at some corner and at most its value at some corner |
| Geometry.EdgeVerdictCoversTile | js/geometry.js:82-103 | an INSIDE verdict puts every point of the tile strictly on the positive side, and OUTSIDE strictly on the negative side |
| Geometry.QuadTileOverlap | js/geometry.js:115-132 | OUTSIDE exactly when the boxes miss or some edge is OUTSIDE; INSIDE exactly when the boxes meet and all four edges are INSIDE |
| Geometry.QuadTileOverlapRotation | js/geometry.js:115-132 | starting the vertex list at the next vertex does not change the verdict |
| Geometry.InsideTileIsInsideEveryEdge | js/geometry.js:119-130 | an INSIDE verdict puts every point of the tile strictly inside all four edges |
| Geometry.OutsideEdgeSeparatesTile | js/geometry.js:119-126 | an edge with the tile outside makes the verdict OUTSIDE and separates every point of the tile |
| Geometry.ScreenOrientationExample | js/geometry.js:82-103 | with y growing downwards, the left edge of the unit square traversed downwards has the square's interior on its positive side |
| Geometry.Pow2Step | js/geometry.js:157 | `2^(z+1) = 2 * 2^z` at every whole zoom, negative ones included |
| Geometry.GetTileRange | js/geometry.js:156-170 | the first corner is strictly above and left of the second, the side is `256 / 2^zoom`, and the first corner is the tile index scaled by `256 / 2^zoom` |
| Geometry.AdjacentTilesShareEdges | js/geometry.js:156-170 | neighbouring tiles share their common edge |
| Geometry.ChildTilesSubdivide | js/geometry.js:156-170 | at the next zoom the children of a tile start at its corner, end at its opposite corner and meet at its centre |
| Geometry.WorldTile | js/geometry.js:156-170 | the zoom-0 tile covers world coordinates 0 to 256 |

## Left out

- `EarthDistance`, kilometre and mile distances, and `RoundDistance`: trigonometry and floating point. Distances are given reals.
- `RoundGeoPt`'s `%.4f` formatting: the rounded location is a string the caller supplies.
- Ranking.FilterFeatures: requires the distances to be all set or all `None`. `SetDistanceOnFeatures` (card.py:343-345) sets every distance when there is a query centre, and none otherwise (card.py:361-363); a mix of set and `None` distances cannot arise and is not modelled.
- The datastore query `CrowdReport.GetByLocation` (radius, the 100-report limit, hidden reports): its result is the input sequence. The clock `utcnow` is the parameter `now`.
- Answer values are strings, integers or `None`. Booleans and floats are left out.
- A question id of `_effective` or `_id` would clash with the special keys of a report dictionary. The model keeps those keys in separate fields.
- `utils.ShortAge`, the report summaries and the `answer_time` and `answer_source` fields of `SetAnswersAndReportsOnFeatures`: presentation and library code. `GetTopic`, which picks the topic from the map root, is not part of this model.
- The cache's time-to-live (15 seconds) and its storage: the cache is a map, and expiry is not modelled.
- `urllib.urlencode` and `cgi.parse_qsl`: library code. The model stops at the list of query pairs, and the parser is a parameter.
- The spreadsheet regular expression: a parameter that extracts the key.
- KmlUrl.GetKmlUrl: a non-string `url` value is not modelled. The order of a layer's `source` values is taken as given: the first value is used, which depends on Python 2 dictionary order.
- AnswerText.AnswerString: Python 2 `str(answer)` on a `unicode` answer with non-ASCII characters raises UnicodeEncodeError, so `FormatAnswers` would raise. The model has no separate unicode type: a text answer is its own string.
- TextColor.ParseHex: Python's `int(s, 16)` also accepts surrounding spaces and a sign, so `"-f"` would give -15. The model raises ValueError for those slices.
- TextColor.GetLegibleTextColor: the float luminance is replaced by the exact integer comparison `299r + 587g + 114b > 128000`. Rounding at the boundary is not modelled.
- Ranking.FeatureAttributions: returns a set. The order of `list(set)` is unspecified in Python.
- `getTileRange` with a fractional zoom: zoom levels are whole numbers. Coordinates are exact reals, not JavaScript doubles.
- `applyProjection` and `getBoundingBox`: Google Maps projection calls and DOM sizes.
- The numeric values 0, 1 and 2 of the `Overlap` enum: the model uses a datatype with three constructors.
- The XML, Places API and rendering code of `card.py`, and `js/presenter.js`: outside the modelled core.
