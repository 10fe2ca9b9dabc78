/** `extraire_points_gps` (crewai_tools/tools/geocoder_tool.py): after a three-second
    pause, ask the model for a JSON list of place names (through `call_llm_with_retry`),
    cut the list out of the reply with `re.search(r'\[.*\]', ..., re.DOTALL)`, parse it,
    and geocode at most ten of its names, in order. Any exception outside the per-name
    loop yields no points. The model's reply per attempt, `json.loads` and the geocoding
    service are parameters; the prompt, built from the itinerary, only determines the
    reply and is not modelled. */
module PlaceExtraction {

  import opened Wrappers
  import opened LlmApi
  import opened LlmRetry
  import opened RouteDistance
  import opened Geocoding
  import Text

  /** The position of the last `c` in `s`, if there is one. */
  function LastIndexOf(s: string, c: char): (r: Option<nat>)
    ensures r.Some? ==> r.value < |s| && s[r.value] == c
  {
    if s == [] then None
    else if s[|s| - 1] == c then Some(|s| - 1)
    else LastIndexOf(s[..|s| - 1], c)
  }

  /** There is a last `c` exactly when `c` occurs, and no `c` follows it. */
  lemma {:induction false} LastIndexOfSpec(s: string, c: char)
    ensures LastIndexOf(s, c).None? <==> c !in s
    ensures LastIndexOf(s, c).Some? ==> c !in s[LastIndexOf(s, c).value + 1..]
    decreases |s|
  {
    if s != [] && s[|s| - 1] != c {
      var init := s[..|s| - 1];
      LastIndexOfSpec(init, c);
      assert s == init + [s[|s| - 1]];
      var r := LastIndexOf(init, c);
      if r.Some? {
        assert s[r.value + 1..] == init[r.value + 1..] + [s[|s| - 1]];
      }
    }
  }

  /** `\[.*\]` with DOTALL, anchored at the start of `t`: a '[' and then, `.*` being
      greedy and matching newlines, everything up to the last ']' after it. */
  function BracketAt(t: string): (r: Option<string>)
    ensures r.Some? ==> 2 <= |r.value| <= |t| && r.value[0] == '[' && r.value[|r.value| - 1] == ']'
  {
    if t == [] || t[0] != '[' then None
    else
      match LastIndexOf(t[1..], ']')
      case None => None
      case Some(k) => Some(t[..k + 2])
  }

  /** `re.search(r'\[.*\]', s, re.DOTALL)`: the matched text, if any. */
  function BracketSpan(s: string): Option<string>
  {
    Text.Search(s, BracketAt)
  }

  /** The pattern matches at position i exactly when s[i] is '[' and a ']' follows it. */
  lemma BracketAtIff(s: string, i: nat)
    requires i <= |s|
    ensures BracketAt(s[i..]).Some? <==> i < |s| && s[i] == '[' && exists j :: i < j < |s| && s[j] == ']'
  {
    if i < |s| && s[i] == '[' {
      var t := s[i..];
      LastIndexOfSpec(t[1..], ']');
      if exists j :: i < j < |s| && s[j] == ']' {
        var j :| i < j < |s| && s[j] == ']';
        assert t[1..][j - i - 1] == ']';
      }
    }
  }

  /** There is a match exactly when some '[' comes before some ']'. */
  lemma BracketSpanIff(s: string)
    ensures BracketSpan(s).Some? <==> exists i, j :: 0 <= i < j < |s| && s[i] == '[' && s[j] == ']'
  {
    Text.SearchNoneIff(s, BracketAt);
    if BracketSpan(s).Some? {
      var i := Text.SearchFound(s, BracketAt);
      BracketAtIff(s, i);
    } else if exists i, j :: 0 <= i < j < |s| && s[i] == '[' && s[j] == ']' {
      var i, j :| 0 <= i < j < |s| && s[i] == '[' && s[j] == ']';
      BracketAtIff(s, i);
      assert BracketAt(s[i..]).Some?;
    }
  }

  /** The position of the first `c` in `s`, if there is one. */
  function FirstIndexOf(s: string, c: char): (r: Option<nat>)
    ensures r.None? <==> c !in s
    ensures r.Some? ==> r.value < |s| && s[r.value] == c && c !in s[..r.value]
  {
    if s == [] then None
    else if s[0] == c then Some(0)
    else
      match FirstIndexOf(s[1..], c)
      case None => None
      case Some(k) =>
        assert s[..k + 1] == [s[0]] + s[1..][..k];
        Some(k + 1)
  }

  /** The last `c` is the one after which no `c` follows. */
  lemma LastIndexOfIs(s: string, c: char, k: nat)
    requires k < |s| && s[k] == c && c !in s[k + 1..]
    ensures LastIndexOf(s, c) == Some(k)
  {
    LastIndexOfSpec(s, c);
  }

  /** The pattern matches nowhere before the first '['. */
  lemma NoMatchBeforeOpen(s: string, j: nat)
    requires j <= |s| && (j == |s| || s[j] != '[')
    ensures BracketAt(s[j..]).None?
  {
  }

  /** Before the first '[' the pattern matches nowhere. */
  lemma NoMatchBeforeFirstOpen(s: string, f: nat)
    requires f <= |s| && '[' !in s[..f]
    ensures forall j :: 0 <= j < f ==> BracketAt(s[j..]).None?
  {
    forall j | 0 <= j < f ensures BracketAt(s[j..]).None? {
      assert s[j] == s[..f][j];
      NoMatchBeforeOpen(s, j);
    }
  }

  /** The search starts in earnest at the first '['. */
  lemma SkipToFirstOpen(s: string, f: nat)
    requires f <= |s| && '[' !in s[..f]
    ensures BracketSpan(s) == Text.Search(s[f..], BracketAt)
  {
    NoMatchBeforeFirstOpen(s, f);
    Text.SearchSkips(s, BracketAt, f);
  }

  /** A '[' with a last ']' at k after it: the match is the text up to that ']'. */
  lemma MatchAtOpen(t: string, k: nat)
    requires 0 < k < |t| && t[0] == '[' && t[k] == ']' && ']' !in t[k + 1..]
    ensures BracketAt(t) == Some(t[..k + 1])
  {
    assert t[1..][k - 1] == t[k];
    assert t[1..][k..] == t[k + 1..];
    LastIndexOfIs(t[1..], ']', k - 1);
  }

  /** With a ']' after the first '[', the match runs from there to the last ']'. */
  lemma MatchFromFirstOpen(s: string, f: nat, l: nat)
    requires FirstIndexOf(s, '[') == Some(f) && LastIndexOf(s, ']') == Some(l) && f < l
    ensures BracketSpan(s) == Some(s[f..l + 1])
  {
    var t := s[f..];
    assert BracketSpan(s) == Text.Search(t, BracketAt) by {
      SkipToFirstOpen(s, f);
    }
    assert BracketAt(t) == Some(s[f..l + 1]) by {
      LastIndexOfSpec(s, ']');
      assert t[l - f + 1..] == s[l + 1..];
      MatchAtOpen(t, l - f);
      assert t[..l - f + 1] == s[f..l + 1];
    }
    assert Text.Search(t, BracketAt) == BracketAt(t);
  }

  /** With no ']' after the first '[', nothing matches. */
  lemma NoCloseAfterFirstOpen(s: string, f: nat)
    requires FirstIndexOf(s, '[') == Some(f)
    requires forall i :: f < i < |s| ==> s[i] != ']'
    ensures BracketSpan(s).None?
  {
    NoMatchBeforeFirstOpen(s, f);
    forall j | f <= j <= |s| ensures BracketAt(s[j..]).None? {
      BracketAtIff(s, j);
    }
    Text.SearchNoneIff(s, BracketAt);
  }

  /** The match is the text from the first '[' of `s` to the last ']' of `s`, and there
      is one exactly when that ']' comes after that '['. */
  lemma BracketSpanFirstToLast(s: string)
    ensures var first, last := FirstIndexOf(s, '['), LastIndexOf(s, ']');
      && (BracketSpan(s).Some? <==> first.Some? && last.Some? && first.value < last.value)
      && (BracketSpan(s).Some? ==> BracketSpan(s) == Some(s[first.value..last.value + 1]))
  {
    var first, last := FirstIndexOf(s, '['), LastIndexOf(s, ']');
    LastIndexOfSpec(s, ']');
    if first.None? {
      forall j | 0 <= j <= |s| ensures BracketAt(s[j..]).None? {
        NoMatchBeforeOpen(s, j);
      }
      Text.SearchNoneIff(s, BracketAt);
    } else if last.Some? && first.value < last.value {
      MatchFromFirstOpen(s, first.value, last.value);
    } else {
      forall i | first.value < i < |s| ensures s[i] != ']' {
        if last.Some? {
          assert s[i] == s[last.value + 1..][i - last.value - 1];
        }
      }
      NoCloseAfterFirstOpen(s, first.value);
    }
  }

  /** Text around a JSON list, with no '[' before it and no ']' after it, gives back
      exactly that list. */
  lemma BracketSpanWrap(prefix: string, m: string, suffix: string)
    requires 2 <= |m| && m[0] == '[' && m[|m| - 1] == ']'
    requires '[' !in prefix && ']' !in suffix
    ensures BracketSpan(prefix + m + suffix) == Some(m)
  {
    var s := prefix + m + suffix;
    var t := s[|prefix|..];
    assert BracketSpan(s) == Text.Search(t, BracketAt) by {
      assert s[..|prefix|] == prefix;
      SkipToFirstOpen(s, |prefix|);
    }
    assert BracketAt(t) == Some(m) by {
      assert t == m + suffix;
      assert t[|m|..] == suffix;
      MatchAtOpen(t, |m| - 1);
      assert t[..|m|] == m;
    }
    assert Text.Search(t, BracketAt) == BracketAt(t);
  }

  /** What `extraire_points_gps` returns, with the pauses it takes in seconds. */
  datatype Extraction = Extraction(points: seq<GeoPoint>, waits: seq<nat>)

  /** The extraction for a destination, given the model's reply per attempt, the JSON
      parser (None when `json.loads` raises or the text is not a list) and the
      geocoding service. */
  function ExtractedPoints(destination: string, reply: nat -> CallOutcome,
                           parse: string -> Option<seq<Json>>,
                           lookup: (string, Option<string>) -> Lookup): (e: Extraction)
    ensures e.waits != [] && e.waits[0] == 3
  {
    var call := Retry(DefaultRetries, reply, 0);
    var waits := [3] + call.waits;
    match call.result
    case Returned(content) =>
      (match BracketSpan(content)
       case None => Extraction([], waits)
       case Some(list) =>
         match parse(list)
         case None => Extraction([], waits)
         case Some(names) =>
           var todo := FirstNames(names);
           var answer := Answer(lookup, CountryFilter(destination));
           Extraction(Resolve(todo, answer), waits + Pauses(todo, answer)))
    case _ => Extraction([], waits)
  }

  /** At most ten points, each named after a list element that the service found,
      with the coordinates it answered. */
  lemma ExtractionBounded(destination: string, reply: nat -> CallOutcome,
                          parse: string -> Option<seq<Json>>,
                          lookup: (string, Option<string>) -> Lookup)
    ensures var e := ExtractedPoints(destination, reply, parse, lookup);
      && |e.points| <= MaxLookups
      && forall p :: p in e.points ==>
           lookup(CleanName(p.name), CountryFilter(destination)) == Found(p.lat, p.lon)
  {
    var call := Retry(DefaultRetries, reply, 0);
    if call.result.Returned? {
      var content := call.result.content;
      if BracketSpan(content).Some? && parse(BracketSpan(content).value).Some? {
        var todo := FirstNames(parse(BracketSpan(content).value).value);
        var answer := Answer(lookup, CountryFilter(destination));
        ResolvedPoints(todo, answer);
        forall p | p in Resolve(todo, answer)
          ensures lookup(CleanName(p.name), CountryFilter(destination)) == Found(p.lat, p.lon)
        {
          assert answer(p.name) == Found(p.lat, p.lon);
        }
      }
    }
  }

  /** An error from the model without "429", after k rate-limited attempts, gives no
      points, after the three-second pause and the k back-off pauses. */
  lemma ModelErrorGivesNothing(destination: string, reply: nat -> CallOutcome,
                               parse: string -> Option<seq<Json>>,
                               lookup: (string, Option<string>) -> Lookup, k: nat)
    requires k < DefaultRetries
    requires forall j :: 0 <= j < k ==> IsRateLimited(reply(j))
    requires reply(k).Failure? && !IsRateLimited(reply(k))
    ensures ExtractedPoints(destination, reply, parse, lookup) == Extraction([], [3] + Backoffs(k))
  {
    OtherErrorPropagates(DefaultRetries, reply, k);
  }

  /** Three rate-limited attempts give no points, after pauses of 3, 5 and 10 seconds. */
  lemma RateLimitedGivesNothing(destination: string, reply: nat -> CallOutcome,
                                parse: string -> Option<seq<Json>>,
                                lookup: (string, Option<string>) -> Lookup)
    requires forall j :: 0 <= j < 3 ==> IsRateLimited(reply(j))
    ensures ExtractedPoints(destination, reply, parse, lookup) == Extraction([], [3, 5, 10])
  {
    DefaultBudgetSchedule(reply);
  }

  /** A first reply holding a JSON list between text without brackets is parsed and
      geocoded name by name, after the three-second pause. */
  lemma FirstReplyListGeocoded(destination: string, reply: nat -> CallOutcome,
                               parse: string -> Option<seq<Json>>,
                               lookup: (string, Option<string>) -> Lookup,
                               prefix: string, list: string, suffix: string)
    requires reply(0) == Response(prefix + list + suffix)
    requires 2 <= |list| && list[0] == '[' && list[|list| - 1] == ']'
    requires '[' !in prefix && ']' !in suffix
    requires parse(list).Some?
    ensures var todo := FirstNames(parse(list).value);
            var answer := Answer(lookup, CountryFilter(destination));
            ExtractedPoints(destination, reply, parse, lookup)
            == Extraction(Resolve(todo, answer), [3] + Pauses(todo, answer))
  {
    var content := prefix + list + suffix;
    assert Retry(DefaultRetries, reply, 0) == RetryRun(Returned(content), 1, []) by {
      FirstResponseReturned(DefaultRetries, reply, 0);
      assert Backoffs(0) == [];
    }
    assert BracketSpan(content) == Some(list) by {
      BracketSpanWrap(prefix, list, suffix);
    }
    var todo := FirstNames(parse(list).value);
    var answer := Answer(lookup, CountryFilter(destination));
    var waits: seq<nat> := [];
    assert ExtractedPoints(destination, reply, parse, lookup)
           == Extraction(Resolve(todo, answer), [3] + waits + Pauses(todo, answer)) by {
      ExtractionOfList(destination, reply, parse, lookup, content, list);
    }
    assert [3] + waits + Pauses(todo, answer) == [3] + Pauses(todo, answer);
  }

  /** Once the call returned a reply and the list was cut out and parsed, the points are
      those of its first ten names, and the pauses follow the call's. */
  lemma ExtractionOfList(destination: string, reply: nat -> CallOutcome,
                         parse: string -> Option<seq<Json>>,
                         lookup: (string, Option<string>) -> Lookup,
                         content: string, list: string)
    requires Retry(DefaultRetries, reply, 0).result == Returned(content)
    requires BracketSpan(content) == Some(list) && parse(list).Some?
    ensures var todo := FirstNames(parse(list).value);
            var answer := Answer(lookup, CountryFilter(destination));
            ExtractedPoints(destination, reply, parse, lookup)
            == Extraction(Resolve(todo, answer), [3] + Retry(DefaultRetries, reply, 0).waits + Pauses(todo, answer))
  {
  }


  /** Each point is named after one of the first ten elements of the parsed list: the
      element's string, or the first item of a nested list, uncleaned. */
  lemma PointsNamedFromList(destination: string, reply: nat -> CallOutcome,
                            parse: string -> Option<seq<Json>>,
                            lookup: (string, Option<string>) -> Lookup,
                            content: string, list: string)
    requires Retry(DefaultRetries, reply, 0).result == Returned(content)
    requires BracketSpan(content) == Some(list) && parse(list).Some?
    ensures var todo := FirstNames(parse(list).value);
            forall p :: p in ExtractedPoints(destination, reply, parse, lookup).points ==>
              exists k :: 0 <= k < |todo| && NameOf(todo[k]) == Some(p.name)
  {
    var todo := FirstNames(parse(list).value);
    var answer := Answer(lookup, CountryFilter(destination));
    ExtractionOfList(destination, reply, parse, lookup, content, list);
    ResolvedPoints(todo, answer);
  }

  /** When `json.loads` rejects the cut-out list, there are no points. */
  lemma ParseFailureGivesNothing(destination: string, reply: nat -> CallOutcome,
                                 parse: string -> Option<seq<Json>>,
                                 lookup: (string, Option<string>) -> Lookup,
                                 content: string, list: string)
    requires Retry(DefaultRetries, reply, 0).result == Returned(content)
    requires BracketSpan(content) == Some(list) && parse(list).None?
    ensures ExtractedPoints(destination, reply, parse, lookup)
            == Extraction([], [3] + Retry(DefaultRetries, reply, 0).waits)
  {
  }

  /** A reply in which no '[' precedes a ']' gives no points. */
  lemma NoListGivesNothing(destination: string, reply: nat -> CallOutcome,
                           parse: string -> Option<seq<Json>>,
                           lookup: (string, Option<string>) -> Lookup)
    requires Retry(DefaultRetries, reply, 0).result.Returned?
    requires var content := Retry(DefaultRetries, reply, 0).result.content;
             forall i, j :: 0 <= i < j < |content| && content[i] == '[' ==> content[j] != ']'
    ensures ExtractedPoints(destination, reply, parse, lookup).points == []
  {
    BracketSpanIff(Retry(DefaultRetries, reply, 0).result.content);
  }

  /** The body of `extraire_points_gps`. */
  method ExtractGpsPoints(destination: string, reply: nat -> CallOutcome,
                          parse: string -> Option<seq<Json>>,
                          lookup: (string, Option<string>) -> Lookup)
    returns (points: seq<GeoPoint>, waits: seq<nat>)
    ensures Extraction(points, waits) == ExtractedPoints(destination, reply, parse, lookup)
  {
    waits := [3];
    var code := CountryFilter(destination);
    var result, attempts, retryWaits := CallWithRetry(DefaultRetries, reply);
    waits := waits + retryWaits;
    if !result.Returned? {
      return [], waits;
    }
    var list := BracketSpan(result.content);
    if list.None? {
      return [], waits;
    }
    var names := parse(list.value);
    if names.None? {
      return [], waits;
    }
    var pauses;
    points, pauses := GeocodeNames(names.value, code, lookup);
    waits := waits + pauses;
  }
}
