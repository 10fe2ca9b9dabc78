# Travel-planner post-processing and scoring, modelled in Dafny

The travel planner asks a language model for itineraries. It then post-processes the
model's output and scores each itinerary. This project models that deterministic layer
and proves properties of it:

- `evaluation.py`
  - the cumulative route distance (`calculer_distance_totale`)
  - the parsing of the quality judge's reply (`llm_judge_score`)
  - the per-strategy record of `calculer_metriques`: place count, RAG-fidelity
    percentage, efficiency and judge verdict, one record per run in order
- `crewai_tools/tools/geocoder_tool.py`
  - the rate-limit retry loop (`call_llm_with_retry`)
  - the place extraction (`extraire_points_gps`): greedy `[...]` span search,
    parenthesis stripping of names, country filter, and the capped, order-preserving
    geocoding loop

External services are parameters of the model:

- the geodesic distance is a function on coordinate pairs
- the language model's reply on attempt i (or for record k) is a `CallOutcome`
- `json.loads` is a partial function from text to a list of JSON values
- Nominatim is a function from (query, country filter) to `Found`, `NotFound` or `Failed`
- each `time.sleep(n)` appends `n` to a wait log returned beside the result

Modules:

- `Wrappers` and `Text` hold the shared helpers, including Python's `\s` and `\d`
  classes and `re.search` as the leftmost position where an anchored matcher succeeds.
- `LlmApi` holds the outcome of a language-model call (the reply's content, or the text of the
  exception it raised), shared by the judge in `evaluation.py` and the retry loop in `geocoder_tool.py`.
- `RouteDistance`, `QualityJudge` and `Metrics` model `evaluation.py`.
- `LlmRetry`, `Geocoding` and `PlaceExtraction` model `geocoder_tool.py`.

Behaviours of the code that the model keeps as written:

- Places are counted wherever a bullet glyph followed by whitespace, or a digit followed
  by a dot, occurs (evaluation.py:86 does not anchor its pattern), not only at the start
  of a line.
- The score is not clamped to 0..10. The prompt asks for "Note: [Moyenne des 4
  critères]/10" (evaluation.py:55), but evaluation.py:69 reads whatever number follows
  "Note:".
- The country table (crewai_tools/tools/geocoder_tool.py:44) is keyed by destination names
  exactly as written: "Japon", "Rome" and "New_York". Any other spelling gets no country
  filter.
- The comment at crewai_tools/tools/geocoder_tool.py:60 speaks of a limit of 5 places,
  but the code takes `noms_lieux[:10]`. The model follows the code: at most ten names are
  looked up (`MaxLookups`, `FirstNames`).

## Model

| member | source | states |
|---|---|---|
| RouteDistance.TotalDistance | evaluation.py:9-19 | Returns 0 for fewer than two points; otherwise returns the sum of the leg distances between consecutive points, first leg first (`PathLength`). |
| RouteDistance.PathLengthNonNegative | evaluation.py:14-18 | With a non-negative distance oracle, every route length is non-negative. |
| RouteDistance.AppendAddsLastLeg | evaluation.py:15-18 | Appending a point adds exactly the leg from the old last point to the new one. |
| RouteDistance.AppendNeverDecreases | evaluation.py:14-18 | With a non-negative oracle, appending a point never shortens the route. |
| RouteDistance.PrefixNeverLonger | evaluation.py:14-18 | With a non-negative oracle, no prefix of a route is longer than the route. |
| Text.SearchFound | evaluation.py:66-67 | When `re.search` finds a match, it is the match at some position i, and no earlier position matches. |
| Text.SearchNoneIff | evaluation.py:66-67 | `re.search` finds nothing exactly when the pattern matches at no position. |
| Text.SearchLeftmost | evaluation.py:66-67 | A match at position i with no match before i is the one `re.search` returns. |
| Text.DropSpacesAfter | evaluation.py:66-67 | A greedy `\s*` skips a whole run of whitespace, newlines included, and stops at the first other character. |
| Text.Lower | evaluation.py:91-92 | `lower()` keeps the length, maps each character on its own, leaves no ASCII capital, and keeps whitespace exactly where it was. |
| QualityJudge.DigitDotRun | evaluation.py:66 | `[\d.]+` is greedy: the run is a prefix made only of digits and dots, and the next character (if any) is neither. |
| QualityJudge.NoteAt | evaluation.py:66 | `Note:\s*([\d.]+)` anchored at a position captures a non-empty run of digits and dots. |
| QualityJudge.Line | evaluation.py:67 | `.*` without DOTALL captures the longest newline-free prefix, which stops at a newline or at the end. |
| QualityJudge.JustificationAt | evaluation.py:67 | `Justification:\s*(.*)` captures a newline-free text that does not start with whitespace. |
| QualityJudge.FloatOf | evaluation.py:69 | `float` accepts a digit/dot run exactly when it has at most one dot and at least one digit. Its value is then the digits read without the dot, divided by 10 once per digit after the dot, and so is never negative. |
| QualityJudge.ReadVerdict | evaluation.py:66-74 | The parsed score is never negative, and whenever it is not 0 the justification holds no newline. |
| QualityJudge.JudgeScore | evaluation.py:58-74 | A failed call gives exactly (0.0, "Erreur d'analyse : " + message); any reply gives a non-negative score. |
| QualityJudge.VerdictRoundTrip | evaluation.py:54-70 | A reply in the requested format `Note: X/10` / `Justification: J` reads back as (float(X), J). |
| QualityJudge.ReadsCapturedText | evaluation.py:66-72 | When both searches match and the note is a valid decimal, the verdict is (its value, the captured justification). |
| QualityJudge.ReadsExampleReply | evaluation.py:66-72 | The reply "Note: 7.5/10" plus "Justification: Good fit." reads as (7.5, "Good fit."). |
| QualityJudge.ScoreNotClamped | evaluation.py:69 | Any natural number n written as the note is read as n itself, so 42 gives 42.0: the score is not limited to 10. |
| QualityJudge.LeftmostNoteGivesScore | evaluation.py:66-69 | The score comes from the leftmost `Note:` match, even if later ones follow. |
| QualityJudge.NoteNeedsMarker | evaluation.py:66 | Text without "Note:" has no note match. |
| QualityJudge.JustificationNeedsMarker | evaluation.py:67 | Text without "Justification:" has no justification match. |
| QualityJudge.NoMarkersGiveDefaults | evaluation.py:69-70 | With neither marker, the verdict is (5.0, "Pas de justification fournie."). |
| QualityJudge.RejectedRunGivesErrorVerdict | evaluation.py:69-74 | A captured run that `float` rejects gives the error verdict with score 0.0. |
| QualityJudge.RejectedRunExamples | evaluation.py:69-74 | "Note: 1.2.3/10" and "Note: ./10" both give score 0.0. |
| QualityJudge.RejectedNoteGivesErrorVerdict | evaluation.py:66-74 | In any reply, a leftmost `Note:` match whose run `float` rejects gives the verdict (0.0, "Erreur d'analyse : " + the `float` error message). |
| QualityJudge.NoNoteGivesDefaultScore | evaluation.py:66-70 | In any reply with no `Note:` match, the score is 5.0 and the justification is the leftmost captured one, or the default text when there is none. |
| QualityJudge.NoNoteKeepsJustification | evaluation.py:66-70 | In any reply with no `Note:` match, the justification is the one captured at the leftmost `Justification:` match. |
| QualityJudge.NoJustificationGivesDefault | evaluation.py:67-70 | In any reply with no `Justification:` match, and with no note or a note `float` accepts, the justification is "Pas de justification fournie.". |
| QualityJudge.NoteAfterBlanks | evaluation.py:66 | After "Note:", any run of whitespace, newlines included, is skipped, and the capture is the whole digit/dot run that follows. |
| QualityJudge.JustificationAfterBlanks | evaluation.py:67 | After "Justification:", any run of whitespace, newlines included, is skipped, and the capture is the rest of that line. |
| QualityJudge.LineStopsAtNewline | evaluation.py:67 | `.*` stops at the first newline: a newline-free line followed by a newline, or by nothing, is captured whole. |
| Metrics.CountMarkers | evaluation.py:86 | Each counted match uses two characters, so twice the count never exceeds the text length. |
| Metrics.NoMarkersIff | evaluation.py:86 | The count is 0 exactly when neither pattern matches at any position. |
| Metrics.MoreTextNeverFewerMarkers | evaluation.py:86 | Appending text never lowers the count. |
| Metrics.MarkersCountedAnywhere | evaluation.py:86 | A dash in mid-line ("a - b") and a decimal ("2.5") are each counted once. |
| Metrics.NonSpaceRun | evaluation.py:91-92 | The length of the leading non-whitespace run, which ends at whitespace or at the end. |
| Metrics.Words | evaluation.py:91-92 | `split()` yields non-empty words free of whitespace. |
| Metrics.NoWordsIff | evaluation.py:91-93 | `split()` yields nothing exactly when the text is all whitespace. |
| Metrics.SplitJoinRoundTrip | evaluation.py:91-92 | Splitting words joined by single spaces gives those words back. |
| Metrics.WordSet | evaluation.py:91-92 | `set(s.lower().split())` holds only words, and it is empty exactly when the text is all whitespace. |
| Metrics.Percentage | evaluation.py:95 | part/whole·100 lies in [0, 100]; it is 100 exactly when part = whole and 0 exactly when part = 0. |
| Metrics.RagFidelity | evaluation.py:89-95 | Any percentage it gives lies in [0, 100]. |
| Metrics.FidelityCases | evaluation.py:89-109 | The result is "N/A" exactly for empty sources and None exactly for non-empty all-whitespace sources; it is 100 exactly when every source word is in the response and 0 exactly when none is. |
| Metrics.Efficiency | evaluation.py:99 | Efficiency times max(count, 1) is the distance (no division by zero); with a non-negative distance it lies between 0 and the distance. |
| Metrics.RecordInvariants | evaluation.py:83-115 | Every record keeps the run's label and time and counts its GPS points. Its distance is non-negative, its efficiency is at most the distance, its score is non-negative, and its fidelity is "N/A" exactly when the sources are empty. |
| Metrics.MeasureRun | evaluation.py:83-115 | The loop body builds exactly the record `RecordFor` specifies for one run. |
| Metrics.ComputeMetrics | evaluation.py:80-117 | One record per run, in input order, record k being the record of run k under the judge's k-th reply. |
| LlmRetry.Backoffs | crewai_tools/tools/geocoder_tool.py:23-26 | One pause per rate-limited attempt: the first is 5 seconds and each later one is twice the one before. |
| LlmRetry.Retry | crewai_tools/tools/geocoder_tool.py:13-28 | Either no attempt is made and nothing is returned, or the call pauses exactly once fewer than it attempts. |
| LlmRetry.CallWithRetry | crewai_tools/tools/geocoder_tool.py:13-28 | The loop's result, attempt count and pauses are exactly those of the `Retry` specification. |
| LlmRetry.RateLimitedPrefix | crewai_tools/tools/geocoder_tool.py:15-27 | After k rate-limited attempts that are not the last, the call continues as from attempt k, having paused k times. |
| LlmRetry.FirstResponseReturned | crewai_tools/tools/geocoder_tool.py:15-21 | The first response after k rate-limited attempts is returned at once, after k+1 attempts and k pauses. |
| LlmRetry.OtherErrorPropagates | crewai_tools/tools/geocoder_tool.py:23-28 | An error without "429" propagates from the attempt that raised it, with no pause after it. |
| LlmRetry.AllRateLimited | crewai_tools/tools/geocoder_tool.py:23-28 | If every attempt is rate limited, there are exactly `retries` attempts and `retries`-1 pauses, and the last error propagates. |
| LlmRetry.DefaultBudgetSchedule | crewai_tools/tools/geocoder_tool.py:13-28 | With the default budget of 3, three 429s mean pauses of 5 and 10 seconds, and the third error is raised. |
| LlmRetry.RetryShape | crewai_tools/tools/geocoder_tool.py:15-28 | From any attempt within the budget, the call makes between 1 and the remaining number of attempts. It pauses once fewer than it attempts, on the 5·2^i schedule, and always ends with a response or an error. |
| LlmRetry.NoBudgetNoAttempt | crewai_tools/tools/geocoder_tool.py:15 | No attempt is made, and nothing is returned, exactly when retries ≤ 0. |
| Geocoding.FindClose | crewai_tools/tools/geocoder_tool.py:65 | The lazy `.*?\)` finds the nearest ')' on the current line. |
| Geocoding.StripGroups | crewai_tools/tools/geocoder_tool.py:65 | The substitution never lengthens the name. |
| Geocoding.TrimEnd | crewai_tools/tools/geocoder_tool.py:65 | `rstrip()` yields a prefix that does not end in whitespace, and everything it removes is whitespace. |
| Geocoding.Strip | crewai_tools/tools/geocoder_tool.py:65 | `strip()` yields a contiguous part of the text with no whitespace at either end, and only whitespace stands before and after it. |
| Geocoding.StripGroupsLeavesNone | crewai_tools/tools/geocoder_tool.py:65 | After the substitution, no '(' is followed by a ')' on the same line. |
| Geocoding.GroupRemovedWhole | crewai_tools/tools/geocoder_tool.py:65 | A parenthesised remark on one line is removed together with both parentheses, wherever it follows text without '('; the text before it is kept and stripping goes on after it. |
| Geocoding.PlainPrefixKept | crewai_tools/tools/geocoder_tool.py:65 | Text without '(' passes through the substitution unchanged, and the rest is stripped as if on its own. |
| Geocoding.RemarkAfterNameDropped | crewai_tools/tools/geocoder_tool.py:65 | A name made of a place, a space and a one-line remark in parentheses, such as "Colosseum (Rome)", is cleaned to the place alone. |
| Geocoding.CleanedHasNoGroupOnALine | crewai_tools/tools/geocoder_tool.py:65 | In a cleaned query, a newline separates every '(' from any later ')'. |
| Geocoding.CleanNameIdempotent | crewai_tools/tools/geocoder_tool.py:65 | Cleaning a cleaned query changes nothing. |
| Geocoding.CleanName | crewai_tools/tools/geocoder_tool.py:65 | The query has no '(' closed by a ')' on the same line, and no whitespace at either end. |
| Geocoding.CountryTable | crewai_tools/tools/geocoder_tool.py:44-70 | "Japon"→"jp", "Rome"→"it" and "New_York"→"us"; any other destination gets no filter. |
| Geocoding.ResolveAppend | crewai_tools/tools/geocoder_tool.py:61-78 | The points of consecutive name lists are the points of each list, in order. |
| Geocoding.ResolveStep | crewai_tools/tools/geocoder_tool.py:61-84 | One iteration adds the element's point if it was found, and a one-second pause if the lookup returned. |
| Geocoding.ResolvedPoints | crewai_tools/tools/geocoder_tool.py:61-78 | There are at most as many points as names. Each point carries the uncleaned name of some element and the coordinates the service answered for it. |
| Geocoding.Resolve | crewai_tools/tools/geocoder_tool.py:61-78 | There are never more points than names. |
| Geocoding.Pauses | crewai_tools/tools/geocoder_tool.py:82 | Every pause lasts one second, and there are never more pauses than names. |
| Geocoding.SecondOfThreeMissing | crewai_tools/tools/geocoder_tool.py:73-84 | An unresolved name is skipped, and the others keep their order. |
| Geocoding.NestedListElements | crewai_tools/tools/geocoder_tool.py:63-84 | A nested list stands for its first item; an empty nested list gives no point and no pause. |
| Geocoding.FirstNames | crewai_tools/tools/geocoder_tool.py:61 | `noms_lieux[:10]`: the first min(10, n) names. |
| Geocoding.AtMostOnePointPerName | crewai_tools/tools/geocoder_tool.py:61-78 | At most min(10, n) points are produced. |
| Geocoding.GeocodeNames | crewai_tools/tools/geocoder_tool.py:57-85 | The loop's points and pauses are those the `Resolve`/`Pauses` specification gives for the first ten names. |
| PlaceExtraction.LastIndexOfSpec | crewai_tools/tools/geocoder_tool.py:50 | There is a last ']' exactly when one occurs, and none follows it. |
| PlaceExtraction.FirstIndexOf | crewai_tools/tools/geocoder_tool.py:50 | The first '[' when there is one, with none before it. |
| PlaceExtraction.BracketAtIff | crewai_tools/tools/geocoder_tool.py:50 | The pattern matches at a position exactly when a '[' is there and a ']' follows. |
| PlaceExtraction.BracketAt | crewai_tools/tools/geocoder_tool.py:50 | A match starts with '[', ends with ']' and is at least two characters long. |
| PlaceExtraction.BracketSpanIff | crewai_tools/tools/geocoder_tool.py:50-52 | The search finds a span exactly when some '[' precedes some ']'. |
| PlaceExtraction.BracketSpanFirstToLast | crewai_tools/tools/geocoder_tool.py:50-53 | A span is found exactly when the first '[' precedes the last ']', and it runs from the one to the other. |
| PlaceExtraction.BracketSpanWrap | crewai_tools/tools/geocoder_tool.py:50-53 | A bracketed list between a bracket-free prefix and suffix is cut out exactly. |
| PlaceExtraction.ExtractionBounded | crewai_tools/tools/geocoder_tool.py:61-86 | At most ten points. Each one has the coordinates the service found for its cleaned name under the country filter. |
| PlaceExtraction.PointsNamedFromList | crewai_tools/tools/geocoder_tool.py:53-78 | When the cut-out list parses, every point is named after one of the list's first ten elements. |
| PlaceExtraction.ParseFailureGivesNothing | crewai_tools/tools/geocoder_tool.py:53-89 | When `json.loads` rejects the cut-out list, there are no points, after the 3-second pause and the model call's pauses. |
| PlaceExtraction.ModelErrorGivesNothing | crewai_tools/tools/geocoder_tool.py:37-89 | An error without "429" from the model gives no points, after the 3-second pause and the back-off pauses. |
| PlaceExtraction.RateLimitedGivesNothing | crewai_tools/tools/geocoder_tool.py:37-89 | Three 429s give no points, after pauses of 3, 5 and 10 seconds. |
| PlaceExtraction.FirstReplyListGeocoded | crewai_tools/tools/geocoder_tool.py:37-86 | A first reply holding a parsable list between bracket-free text gives that list's first ten names, geocoded in order. |
| PlaceExtraction.ExtractionOfList | crewai_tools/tools/geocoder_tool.py:50-86 | Once a list is cut out and parsed, the points and pauses are those of its first ten names. |
| PlaceExtraction.NoListGivesNothing | crewai_tools/tools/geocoder_tool.py:50-52 | A reply with no '[' before a ']' gives no points. |
| PlaceExtraction.ExtractGpsPoints | crewai_tools/tools/geocoder_tool.py:31-89 | The function's points and pauses are exactly those of the `ExtractedPoints` specification. |
| PlaceExtraction.ExtractedPoints | crewai_tools/tools/geocoder_tool.py:37 | The extraction always starts with the 3-second pause. |

## Left out

- Floating point and `round(…, 2)`: distances, percentages and efficiencies are exact reals before rounding.
- The geodesic formula: it is an abstract function on coordinate pairs. Non-negativity is a hypothesis of the lemmas that need it.
- Prompt construction (the itinerary text, the client configuration, truncation to 2500 characters): it only determines the model's reply, which is a parameter.
- The language model, `json.loads` and Nominatim are oracles. A geocoding answer depends only on the query and the country filter. The judge's reply is indexed by the record's position.
- Timeouts, the model name and the temperature argument are not modelled; timeouts affect only which outcome an oracle gives.
- A reply whose message content is `None`: contents are always strings. In the source such a reply raises and yields the error verdict, or no points.
- `print`, `st.spinner` and `st.error` are output only.
- Python's `\d` is modelled as the ASCII digits, and `lower()` only for ASCII and Latin-1 letters. Other Unicode digits and case mappings are not modelled.
- Metrics.ComputeMetrics: the runs are a sequence in the dictionary's iteration order, and the dictionary keys are not used.
- The pandas DataFrame is modelled as the sequence of its rows.
- `afficher_dashboard_evaluation`, `agents_sequential.py`, `agents_hierarchical.py`, `app.py`, `utils.py` and `crewai_tools/tools/database.py` are not part of this model: they contain presentation, orchestration and I/O only.
