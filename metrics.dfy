/** The per-strategy comparison records (`calculer_metriques`, evaluation.py): the count
    of list markers, the RAG fidelity word overlap, the route distance, the km-per-place
    efficiency and the judge's verdict. Rounding to two decimals is not modelled. */
module Metrics {

  import opened Text
  import opened LlmApi
  import opened RouteDistance
  import opened QualityJudge

  /** The glyphs of `[*•-]`. */
  predicate IsBulletGlyph(c: char)
  {
    c == '*' || c == '\U{2022}' || c == '-'
  }

  /** `[*•-]\s|\d\.` matches at the start of `s` (either way it spans two characters). */
  predicate MarkerAt(s: string)
  {
    && |s| >= 2
    && ((IsBulletGlyph(s[0]) && IsSpace(s[1])) || (IsDigit(s[0]) && s[1] == '.'))
  }

  /** `len(re.findall(r"[*•-]\s|\d\.", text))`: non-overlapping matches, scanned left to
      right, anywhere in the text. Every match uses two characters. */
  function CountMarkers(s: string): (n: nat)
    ensures 2 * n <= |s|
    decreases |s|
  {
    if s == [] then 0
    else if MarkerAt(s) then 1 + CountMarkers(s[2..])
    else CountMarkers(s[1..])
  }

  /** The count is zero exactly when the pattern matches at no position. */
  lemma {:induction false} NoMarkersIff(s: string)
    ensures CountMarkers(s) == 0 <==> forall i :: 0 <= i <= |s| ==> !MarkerAt(s[i..])
    decreases |s|
  {
    assert s[0..] == s;
    if s != [] && !MarkerAt(s) {
      NoMarkersIff(s[1..]);
      forall i | 1 <= i <= |s| ensures s[i..] == s[1..][i - 1..] { }
    }
  }

  /** Appending text never lowers the count, even when a match straddles the junction. */
  lemma {:induction false} MoreTextNeverFewerMarkers(s: string, t: string)
    ensures CountMarkers(s) <= CountMarkers(s + t)
    decreases |s|
  {
    if s == [] {
    } else if MarkerAt(s) {
      assert (s + t)[..2] == s[..2];
      assert (s + t)[2..] == s[2..] + t;
      MoreTextNeverFewerMarkers(s[2..], t);
    } else if MarkerAt(s + t) {
      // Only possible when s is one character long; then s counts nothing.
      assert |s| == 1;
    } else {
      assert (s + t)[1..] == s[1..] + t;
      MoreTextNeverFewerMarkers(s[1..], t);
    }
  }

  /** Markers are counted anywhere, not only at line starts, and a decimal number counts. */
  lemma MarkersCountedAnywhere()
    ensures CountMarkers("a - b") == 1
    ensures CountMarkers("2.5") == 1
  {
    assert !MarkerAt("a - b") && "a - b"[1..] == " - b";
    assert !MarkerAt(" - b") && " - b"[1..] == "- b";
    assert MarkerAt("- b") && "- b"[2..] == "b";
    assert MarkerAt("2.5") && "2.5"[2..] == "5";
  }

  /** Length of the leading run of non-whitespace characters. */
  function NonSpaceRun(s: string): (n: nat)
    ensures n <= |s|
    ensures forall i :: 0 <= i < n ==> !IsSpace(s[i])
    ensures n == |s| || IsSpace(s[n])
    decreases |s|
  {
    if s == [] || IsSpace(s[0]) then 0 else 1 + NonSpaceRun(s[1..])
  }

  predicate IsWord(w: string)
  {
    w != [] && forall i :: 0 <= i < |w| ==> !IsSpace(w[i])
  }

  /** `s.split()`: the maximal runs of non-whitespace characters, in order. */
  function Words(s: string): (ws: seq<string>)
    ensures forall k :: 0 <= k < |ws| ==> IsWord(ws[k])
    decreases |s|
  {
    if s == [] then []
    else if IsSpace(s[0]) then Words(s[1..])
    else
      var n := NonSpaceRun(s);
      [s[..n]] + Words(s[n..])
  }

  /** A text has no words exactly when it is all whitespace. */
  lemma {:induction false} NoWordsIff(s: string)
    ensures Words(s) == [] <==> forall i :: 0 <= i < |s| ==> IsSpace(s[i])
    decreases |s|
  {
    if s != [] && IsSpace(s[0]) {
      NoWordsIff(s[1..]);
      assert forall i :: 1 <= i < |s| ==> s[i] == s[1..][i - 1];
    }
  }

  /** Words joined by single spaces. */
  function JoinWords(ws: seq<string>): string
  {
    if ws == [] then "" else if |ws| == 1 then ws[0] else ws[0] + " " + JoinWords(ws[1..])
  }

  lemma {:induction false} RunOfWord(w: string, rest: string)
    requires IsWord(w)
    requires rest == [] || IsSpace(rest[0])
    ensures NonSpaceRun(w + rest) == |w|
    decreases |w|
  {
    if |w| > 1 {
      assert (w + rest)[1..] == w[1..] + rest;
      RunOfWord(w[1..], rest);
    } else {
      assert (w + rest)[1..] == rest;
    }
  }

  /** Splitting undoes joining: `" ".join(ws).split() == ws` for whitespace-free words. */
  lemma {:induction false} SplitJoinRoundTrip(ws: seq<string>)
    requires forall k :: 0 <= k < |ws| ==> IsWord(ws[k])
    ensures Words(JoinWords(ws)) == ws
    decreases |ws|
  {
    if ws == [] {
    } else if |ws| == 1 {
      var w := ws[0];
      RunOfWord(w, "");
      assert w + "" == w && w[..|w|] == w && w[|w|..] == [];
      assert Words(w) == [w] + Words([]);
    } else {
      var w, rest := ws[0], JoinWords(ws[1..]);
      var s := w + " " + rest;
      assert s == w + (" " + rest);
      RunOfWord(w, " " + rest);
      assert s[..|w|] == w && s[|w|..] == " " + rest;
      assert Words(s[|w|..]) == Words(rest) by {
        assert (" " + rest)[1..] == rest;
      }
      SplitJoinRoundTrip(ws[1..]);
    }
  }

  /** `set(text.lower().split())`. */
  function WordSet(s: string): (ws: set<string>)
    ensures forall w :: w in ws ==> IsWord(w)
    ensures ws == {} <==> forall i :: 0 <= i < |s| ==> IsSpace(s[i])
  {
    var lowered := Lower(s);
    var words := Words(lowered);
    NoWordsIff(lowered);
    assert (forall i :: 0 <= i < |s| ==> IsSpace(s[i]))
           <==> (forall i :: 0 <= i < |lowered| ==> IsSpace(lowered[i]));
    var ws := set w | w in words;
    assert ws == {} <==> words == [] by {
      if words != [] {
        assert words[0] in ws;
      }
    }
    ws
  }

  /** The "Fidélité RAG (%)" cell: "N/A" without sources, `None` when the sources hold no
      word, otherwise the percentage of source words that the response also uses. */
  datatype Fidelity = NotApplicable | Undefined | Percent(value: real)

  lemma SubsetCardinality(a: set<string>, b: set<string>)
    requires a <= b
    ensures |a| <= |b|
    ensures |a| == |b| ==> a == b
  {
    assert b == a + (b - a);
    assert |b| == |a| + |b - a|;
    if |a| == |b| {
      assert |b - a| == 0;
      assert b - a == {};
    }
  }

  /** `part / whole * 100`: a share as a percentage, full exactly when the part is the
      whole and zero exactly when the part is empty. */
  function Percentage(part: nat, whole: nat): (p: real)
    requires 0 < whole
    requires part <= whole
    ensures 0.0 <= p <= 100.0
    ensures p == 100.0 <==> part == whole
    ensures p == 0.0 <==> part == 0
  {
    var w := whole as real;
    var ratio := part as real / w;
    assert ratio * w == part as real;
    ProductSign(ratio, w);
    assert (1.0 - ratio) * w == w - part as real;
    ProductSign(1.0 - ratio, w);
    ratio * 100.0
  }

  /** Multiplying by a positive number keeps the sign. */
  lemma ProductSign(a: real, b: real)
    requires b > 0.0
    ensures a * b > 0.0 <==> a > 0.0
    ensures a * b == 0.0 <==> a == 0.0
  {
  }

  /** The fidelity score as `calculer_metriques` computes it, before rounding. */
  function RagFidelity(sources: string, response: string): (f: Fidelity)
    ensures f.Percent? ==> 0.0 <= f.value <= 100.0
  {
    if sources == [] then NotApplicable
    else
      var s := WordSet(sources);
      if s == {} then Undefined
      else
        var shared := s * WordSet(response);
        SubsetCardinality(shared, s);
        Percent(Percentage(|shared|, |s|))
  }

  /** Which of the three outcomes a pair of texts gets, and what the extremes mean:
      100 exactly when every source word occurs in the response, 0 exactly when none does. */
  lemma FidelityCases(sources: string, response: string)
    ensures RagFidelity(sources, response).NotApplicable? <==> sources == []
    ensures RagFidelity(sources, response).Undefined?
            <==> sources != [] && forall i :: 0 <= i < |sources| ==> IsSpace(sources[i])
    ensures RagFidelity(sources, response).Percent? ==>
              && (RagFidelity(sources, response).value == 100.0 <==> WordSet(sources) <= WordSet(response))
              && (RagFidelity(sources, response).value == 0.0 <==> WordSet(sources) !! WordSet(response))
  {
    var lowered := Lower(sources);
    NoWordsIff(lowered);
    assert WordSet(sources) == {} <==> Words(lowered) == [] by {
      if Words(lowered) != [] {
        assert Words(lowered)[0] in WordSet(sources);
      }
    }
    var s := WordSet(sources);
    if sources != [] && s != {} {
      var shared := s * WordSet(response);
      SubsetCardinality(shared, s);
      assert shared == s <==> s <= WordSet(response);
      assert |shared| == 0 <==> shared == {};
      if !(s !! WordSet(response)) {
        var x :| x in s && x in WordSet(response);
        assert x in shared;
      }
    }
  }

  /** "Efficience (km/lieu)": distance per counted place, with at least one place as divisor. */
  function Efficiency(distance: real, places: nat): (e: real)
    ensures e * (if places == 0 then 1 else places) as real == distance
    ensures distance >= 0.0 ==> 0.0 <= e <= distance
  {
    var divisor := (if places == 0 then 1 else places) as real;
    var e := distance / divisor;
    assert distance >= 0.0 ==> e <= distance by {
      if distance >= 0.0 {
        assert e * divisor == distance;
        assert e >= 0.0;
        assert e * (divisor - 1.0) >= 0.0;
        assert e * divisor == e + e * (divisor - 1.0);
      }
    }
    e
  }

  /** One generated itinerary as the comparison loop stores it. */
  datatype StrategyRun = StrategyRun(
    modeLabel: string,
    text: string,
    points: seq<GeoPoint>,
    sources: string,
    seconds: real)

  /** One row of the comparison table. */
  datatype MetricsRecord = MetricsRecord(
    mode: string,
    seconds: real,
    places: nat,
    fidelity: Fidelity,
    distance: real,
    efficiency: real,
    score: real,
    justification: string,
    gpsPoints: nat)

  /** The record `calculer_metriques` builds for one run, given the judge's reply to it. */
  function RecordFor(run: StrategyRun, dist: (Coord, Coord) -> real, reply: CallOutcome): MetricsRecord
  {
    var places := CountMarkers(run.text);
    var distance := PathLength(run.points, dist);
    var verdict := JudgeScore(reply);
    MetricsRecord(run.modeLabel, run.seconds, places, RagFidelity(run.sources, run.text),
                  distance, Efficiency(distance, places), verdict.score, verdict.justification,
                  |run.points|)
  }

  /** What every record satisfies, whatever the texts and replies. */
  lemma RecordInvariants(run: StrategyRun, dist: (Coord, Coord) -> real, reply: CallOutcome)
    requires NonNegative(dist)
    ensures var r := RecordFor(run, dist, reply);
      && r.mode == run.modeLabel && r.seconds == run.seconds
      && r.gpsPoints == |run.points|
      && 2 * r.places <= |run.text|
      && r.distance >= 0.0
      && 0.0 <= r.efficiency <= r.distance
      && r.score >= 0.0
      && (r.fidelity.Percent? ==> 0.0 <= r.fidelity.value <= 100.0)
      && (r.fidelity.NotApplicable? <==> run.sources == [])
  {
    PathLengthNonNegative(run.points, dist);
    FidelityCases(run.sources, run.text);
  }

  /** The body of the loop of `calculer_metriques`: the record for one run. */
  method MeasureRun(run: StrategyRun, dist: (Coord, Coord) -> real, reply: CallOutcome)
    returns (record: MetricsRecord)
    ensures record == RecordFor(run, dist, reply)
  {
    var places := CountMarkers(run.text);
    var fidelity := RagFidelity(run.sources, run.text);
    var distance := TotalDistance(run.points, dist);
    var efficiency := Efficiency(distance, places);
    var verdict := JudgeScore(reply);
    record := MetricsRecord(run.modeLabel, run.seconds, places, fidelity, distance,
                            efficiency, verdict.score, verdict.justification, |run.points|);
  }

  /** The table `calculer_metriques` builds: one record per run, in the runs' order, the
      k-th run judged by the judge's k-th reply. */
  function MetricsTable(runs: seq<StrategyRun>, dist: (Coord, Coord) -> real,
                        judgeReply: nat -> CallOutcome): seq<MetricsRecord>
  {
    seq(|runs|, k requires 0 <= k < |runs| => RecordFor(runs[k], dist, judgeReply(k)))
  }

  /** The loop of `calculer_metriques`. */
  method ComputeMetrics(runs: seq<StrategyRun>, dist: (Coord, Coord) -> real, judgeReply: nat -> CallOutcome)
    returns (records: seq<MetricsRecord>)
    ensures records == MetricsTable(runs, dist, judgeReply)
  {
    ghost var table := MetricsTable(runs, dist, judgeReply);
    records := [];
    for k := 0 to |runs|
      invariant records == table[..k]
    {
      var record := MeasureRun(runs[k], dist, judgeReply(k));
      assert table[..k + 1] == table[..k] + [table[k]];
      records := records + [record];
    }
    assert table[..|runs|] == table;
  }
}
