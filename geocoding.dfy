/** The best-effort geocoding loop of `extraire_points_gps`
    (crewai_tools/tools/geocoder_tool.py): at most the first ten extracted names are
    cleaned of parenthesised remarks and looked up, in order; names that resolve become
    points, the rest are skipped. The geocoding service is the oracle `lookup`, a
    function of the query and the country filter; `time.sleep(1)` is a wait-log entry. */
module Geocoding {

  import opened Wrappers
  import opened Text
  import opened RouteDistance

  // ---------------------------------------------------------------------------------
  // `re.sub(r'\(.*?\)', '', name).strip()`

  /** Where the lazy `.*?\)` after an opening parenthesis ends: the first `)` of `t`
      that no newline precedes (`.` does not match a newline). */
  function FindClose(t: string): (r: Option<nat>)
    ensures r.Some? ==> r.value < |t| && t[r.value] == ')'
    ensures r.Some? ==> forall k :: 0 <= k < r.value ==> t[k] != '\n' && t[k] != ')'
    decreases |t|
  {
    if t == [] || t[0] == '\n' then None
    else if t[0] == ')' then Some(0)
    else
      match FindClose(t[1..])
      case None => None
      case Some(j) => Some(j + 1)
  }

  /** Removes, left to right, each `(` together with everything up to the nearest `)`
      on the same line; a `(` with no such `)` stays. */
  function StripGroups(s: string): (r: string)
    ensures |r| <= |s|
    decreases |s|
  {
    if s == [] then []
    else if s[0] == '(' then
      match FindClose(s[1..])
      case Some(j) => StripGroups(s[j + 2..])
      case None => "(" + StripGroups(s[1..])
    else [s[0]] + StripGroups(s[1..])
  }

  /** No `(` of `t` is closed by a `)` on its own line. */
  predicate NoGroup(t: string)
    decreases |t|
  {
    t == [] || ((t[0] == '(' ==> FindClose(t[1..]).None?) && NoGroup(t[1..]))
  }

  /** `s.rstrip()`. */
  function TrimEnd(s: string): (r: string)
    ensures |r| <= |s| && r == s[..|r|]
    ensures r == [] || !IsSpace(r[|r| - 1])
    ensures forall i :: |r| <= i < |s| ==> IsSpace(s[i])
    decreases |s|
  {
    if s != [] && IsSpace(s[|s| - 1]) then TrimEnd(s[..|s| - 1]) else s
  }

  /** `r` stands in `s` at position `a`, with only whitespace before and after it. */
  predicate Surrounds(s: string, a: nat, r: string)
  {
    && a + |r| <= |s| && r == s[a..a + |r|]
    && (forall i :: 0 <= i < a ==> IsSpace(s[i]))
    && (forall i :: a + |r| <= i < |s| ==> IsSpace(s[i]))
  }

  /** `s.strip()`. */
  function Strip(s: string): (r: string)
    ensures r == [] || (!IsSpace(r[0]) && !IsSpace(r[|r| - 1]))
    ensures exists a :: Surrounds(s, a, r)
  {
    SurroundedAfterTrims(s, DropSpaces(s), TrimEnd(DropSpaces(s)));
    TrimmedEnds(DropSpaces(s));
    TrimEnd(DropSpaces(s))
  }

  /** Leading whitespace dropped from `s` leaves `t`, trailing whitespace dropped from `t`
      leaves `r`: `r` stands in `s` surrounded by whitespace only. */
  lemma SurroundedAfterTrims(s: string, t: string, r: string)
    requires |t| <= |s| && t == s[|s| - |t|..]
    requires forall i :: 0 <= i < |s| - |t| ==> IsSpace(s[i])
    requires |r| <= |t| && r == t[..|r|]
    requires forall i :: |r| <= i < |t| ==> IsSpace(t[i])
    ensures Surrounds(s, |s| - |t|, r)
  {
    var a := |s| - |t|;
    assert r == s[a..a + |r|];
    forall i | a + |r| <= i < |s|
      ensures IsSpace(s[i])
    {
      assert s[i] == t[i - a];
    }
  }

  lemma TrimmedEnds(t: string)
    requires t == [] || !IsSpace(t[0])
    ensures var r := TrimEnd(t); r == [] || (!IsSpace(r[0]) && !IsSpace(r[|r| - 1]))
  {
    var r := TrimEnd(t);
    assert r != [] ==> r[0] == t[0];
  }

  /** The query sent for a name. */
  function CleanName(name: string): (q: string)
    ensures NoGroup(q)
    ensures q == [] || (!IsSpace(q[0]) && !IsSpace(q[|q| - 1]))
  {
    StripGroupsLeavesNone(name);
    StripKeepsNoGroup(StripGroups(name));
    Strip(StripGroups(name))
  }

  /** A line with no close after it keeps having none once groups are stripped from it. */
  lemma {:induction false} StrippingKeepsLineOpen(t: string)
    requires FindClose(t).None?
    ensures FindClose(StripGroups(t)).None?
    decreases |t|
  {
    if t != [] && t[0] != '\n' {
      assert t[0] != ')';
      assert FindClose(t[1..]).None?;
      StrippingKeepsLineOpen(t[1..]);
      if t[0] == '(' {
        assert StripGroups(t) == "(" + StripGroups(t[1..]);
        assert ("(" + StripGroups(t[1..]))[1..] == StripGroups(t[1..]);
      } else {
        assert ([t[0]] + StripGroups(t[1..]))[1..] == StripGroups(t[1..]);
      }
    }
  }

  /** Stripping leaves no group behind. */
  lemma {:induction false} StripGroupsLeavesNone(s: string)
    ensures NoGroup(StripGroups(s))
    decreases |s|
  {
    if s == [] {
    } else if s[0] == '(' {
      match FindClose(s[1..])
      case Some(j) =>
        StripGroupsLeavesNone(s[j + 2..]);
      case None =>
        StripGroupsLeavesNone(s[1..]);
        StrippingKeepsLineOpen(s[1..]);
        assert ("(" + StripGroups(s[1..]))[1..] == StripGroups(s[1..]);
    } else {
      StripGroupsLeavesNone(s[1..]);
      assert ([s[0]] + StripGroups(s[1..]))[1..] == StripGroups(s[1..]);
    }
  }

  /** A string without groups is left as it is. */
  lemma {:induction false} NoGroupUnchanged(t: string)
    requires NoGroup(t)
    ensures StripGroups(t) == t
    decreases |t|
  {
    if t != [] {
      NoGroupUnchanged(t[1..]);
      if t[0] == '(' {
        assert "(" + t[1..] == t;
      } else {
        assert [t[0]] + t[1..] == t;
      }
    }
  }

  lemma {:induction false} FindClosePrefix(t: string, k: nat)
    requires k <= |t| && FindClose(t).None?
    ensures FindClose(t[..k]).None?
    decreases k
  {
    if k > 0 && t[0] != '\n' {
      assert t[..k][1..] == t[1..][..k - 1];
      FindClosePrefix(t[1..], k - 1);
    }
  }

  lemma {:induction false} NoGroupPrefix(t: string, k: nat)
    requires k <= |t| && NoGroup(t)
    ensures NoGroup(t[..k])
    decreases k
  {
    if k > 0 {
      assert t[..k][1..] == t[1..][..k - 1];
      NoGroupPrefix(t[1..], k - 1);
      if t[0] == '(' {
        FindClosePrefix(t[1..], k - 1);
      }
    }
  }

  lemma {:induction false} NoGroupSuffix(t: string, k: nat)
    requires k <= |t| && NoGroup(t)
    ensures NoGroup(t[k..])
    decreases k
  {
    if k > 0 {
      assert t[k..] == t[1..][k - 1..];
      NoGroupSuffix(t[1..], k - 1);
    }
  }

  lemma StripKeepsNoGroup(t: string)
    requires NoGroup(t)
    ensures NoGroup(Strip(t))
  {
    var u := DropSpaces(t);
    NoGroupSuffix(t, |t| - |u|);
    NoGroupPrefix(u, |TrimEnd(u)|);
  }

  lemma StripStripped(t: string)
    requires t == [] || (!IsSpace(t[0]) && !IsSpace(t[|t| - 1]))
    ensures Strip(t) == t
  {
  }

  /** Cleaning a name twice gives the same query as cleaning it once. */
  lemma CleanNameIdempotent(name: string)
    ensures CleanName(CleanName(name)) == CleanName(name)
  {
    var once := CleanName(name);
    StripGroupsLeavesNone(name);
    StripKeepsNoGroup(StripGroups(name));
    NoGroupUnchanged(once);
    StripStripped(once);
  }

  lemma {:induction false} NoCloseBeforeNewline(t: string, j: nat)
    requires FindClose(t).None? && j < |t| && t[j] == ')'
    ensures exists k :: 0 <= k < j && t[k] == '\n'
    decreases j
  {
    if t[0] != '\n' {
      assert t[0] != ')';
      NoCloseBeforeNewline(t[1..], j - 1);
      var k :| 0 <= k < j - 1 && t[1..][k] == '\n';
      assert t[k + 1] == '\n';
    }
  }

  /** After cleaning, every `(` that a `)` follows has a newline between them. */
  lemma CleanedHasNoGroupOnALine(name: string, i: nat, j: nat)
    requires var q := CleanName(name); i < j < |q| && q[i] == '(' && q[j] == ')'
    ensures var q := CleanName(name); exists k :: i < k < j && q[k] == '\n'
  {
    NewlineInEveryOpenGroup(CleanName(name), i, j);
  }

  lemma NewlineInEveryOpenGroup(q: string, i: nat, j: nat)
    requires NoGroup(q) && i < j < |q| && q[i] == '(' && q[j] == ')'
    ensures exists k :: i < k < j && q[k] == '\n'
  {
    var u := q[i..];
    assert NoGroup(u) by {
      NoGroupSuffix(q, i);
    }
    assert u[0] == '(';
    assert FindClose(u[1..]).None?;
    assert u[1..][j - i - 1] == ')';
    NoCloseBeforeNewline(u[1..], j - i - 1);
    var k :| 0 <= k < j - i - 1 && u[1..][k] == '\n';
    assert q[i + 1 + k] == '\n';
  }

  /** A parenthesised remark on one line is removed whole, closing parenthesis included,
      wherever it stands after text without `(`. */
  lemma GroupRemovedWhole(p: string, remark: string, rest: string)
    requires '(' !in p && ')' !in remark && '\n' !in remark
    ensures StripGroups(p + "(" + remark + ")" + rest) == p + StripGroups(rest)
  {
    var g := "(" + remark + ")" + rest;
    assert p + "(" + remark + ")" + rest == p + g;
    PlainPrefixKept(p, g);
    LeadingGroupRemoved(remark, rest);
  }

  /** Text without `(` is kept as it is, and stripping goes on after it. */
  lemma {:induction false} PlainPrefixKept(p: string, s: string)
    requires '(' !in p
    ensures StripGroups(p + s) == p + StripGroups(s)
    decreases |p|
  {
    if p == [] {
      assert p + s == s;
    } else {
      assert (p + s)[0] == p[0] && (p + s)[1..] == p[1..] + s;
      PlainPrefixKept(p[1..], s);
      assert [p[0]] + (p[1..] + StripGroups(s)) == p + StripGroups(s);
    }
  }

  /** The usual shape of a name, such as "Colosseum (Rome)": a remark after the place is
      dropped together with the space before it. */
  lemma RemarkAfterNameDropped(place: string, remark: string)
    requires place != [] && !IsSpace(place[0]) && !IsSpace(place[|place| - 1])
    requires '(' !in place && ')' !in remark && '\n' !in remark
    ensures CleanName(place + " (" + remark + ")") == place
  {
    var spaced := place + " ";
    assert StripGroups(place + " (" + remark + ")") == spaced by {
      GroupRemovedWhole(spaced, remark, "");
      assert spaced + "(" + remark + ")" + "" == place + " (" + remark + ")";
      assert spaced + [] == spaced;
    }
    assert Strip(spaced) == place by {
      assert DropSpaces(spaced) == spaced;
      assert spaced[..|spaced| - 1] == place;
      assert TrimEnd(place) == place;
    }
  }

  lemma LeadingGroupRemoved(remark: string, rest: string)
    requires ')' !in remark && '\n' !in remark
    ensures StripGroups("(" + remark + ")" + rest) == StripGroups(rest)
  {
    var s := "(" + remark + ")" + rest;
    var t := s[1..];
    assert t == remark + (")" + rest);
    FindCloseAfterFragment(remark, ")" + rest);
    assert s[|remark| + 2..] == rest;
  }

  /** The first `)` after a line fragment without `)` or newline. */
  lemma {:induction false} FindCloseAfterFragment(remark: string, rest: string)
    requires ')' !in remark && '\n' !in remark
    requires rest != [] && rest[0] == ')'
    ensures FindClose(remark + rest) == Some(|remark|)
    decreases |remark|
  {
    if remark == [] {
      assert remark + rest == rest;
    } else {
      assert (remark + rest)[1..] == remark[1..] + rest;
      FindCloseAfterFragment(remark[1..], rest);
    }
  }

  // ---------------------------------------------------------------------------------
  // The country filter and the lookup loop

  /** `codes_pays`. */
  const CountryCodes: map<string, string> := map["Japon" := "jp", "Rome" := "it", "New_York" := "us"]

  /** `codes_pays.get(ville_destination)`: the country filter, if the destination is known. */
  function CountryFilter(destination: string): (code: Option<string>)
    ensures code.Some? <==> destination in CountryCodes
    ensures code.Some? ==> code.value == CountryCodes[destination]
  {
    if destination in CountryCodes then Some(CountryCodes[destination]) else None
  }

  lemma CountryTable()
    ensures CountryFilter("Japon") == Some("jp")
    ensures CountryFilter("Rome") == Some("it")
    ensures CountryFilter("New_York") == Some("us")
    ensures forall d :: d !in {"Japon", "Rome", "New_York"} ==> CountryFilter(d) == None
  {
  }

  /** The JSON values an element of the extracted list can be. */
  datatype Json = JString(text: string) | JList(items: seq<Json>) | JOther

  /** The name an element stands for: a string, or the first item of a list when that is
      a string. Anything else makes the loop body raise, and the element is skipped. */
  function NameOf(v: Json): Option<string>
  {
    match v
    case JString(s) => Some(s)
    case JList(items) => if items != [] && items[0].JString? then Some(items[0].text) else None
    case JOther => None
  }

  /** What the geocoding service does with one query. */
  datatype Lookup = Found(lat: real, lon: real) | NotFound | Failed

  /** How many names are looked up at most. */
  const MaxLookups: nat := 10

  /** The service's answer for an (uncleaned) name: the lookup of its cleaned query
      under the country filter. */
  function Answer(lookup: (string, Option<string>) -> Lookup, code: Option<string>): string -> Lookup
  {
    name => lookup(CleanName(name), code)
  }

  /** The points one element contributes, under its uncleaned name. */
  function PointsFor(v: Json, answer: string -> Lookup): seq<GeoPoint>
  {
    match NameOf(v)
    case None => []
    case Some(name) =>
      match answer(name)
      case Found(lat, lon) => [GeoPoint(name, lat, lon)]
      case _ => []
  }

  /** Whether the lookup for the element returned, found or not; each such lookup is
      followed by a one-second pause. */
  predicate LookupReturned(v: Json, answer: string -> Lookup)
  {
    NameOf(v).Some? && !answer(NameOf(v).value).Failed?
  }

  /** The points resolved from `names`, in their order. */
  function Resolve(names: seq<Json>, answer: string -> Lookup): (points: seq<GeoPoint>)
    ensures |points| <= |names|
    decreases |names|
  {
    if names == [] then []
    else Resolve(names[..|names| - 1], answer) + PointsFor(names[|names| - 1], answer)
  }

  /** The pauses taken while resolving `names`. */
  function Pauses(names: seq<Json>, answer: string -> Lookup): (waits: seq<nat>)
    ensures |waits| <= |names|
    ensures forall j :: 0 <= j < |waits| ==> waits[j] == 1
    decreases |names|
  {
    if names == [] then []
    else Pauses(names[..|names| - 1], answer) + (if LookupReturned(names[|names| - 1], answer) then [1] else [])
  }

  /** Resolving a concatenation resolves each part in turn: the points keep the names' order. */
  lemma {:induction false} ResolveAppend(a: seq<Json>, b: seq<Json>, answer: string -> Lookup)
    ensures Resolve(a + b, answer) == Resolve(a, answer) + Resolve(b, answer)
    decreases |b|
  {
    if b == [] {
      assert a + b == a;
    } else {
      var n := |b|;
      assert (a + b)[..|a + b| - 1] == a + b[..n - 1];
      assert (a + b)[|a + b| - 1] == b[n - 1];
      ResolveAppend(a, b[..n - 1], answer);
    }
  }

  /** At most one point per name, and only names that resolved give one, under their own name. */
  lemma {:induction false} ResolvedPoints(names: seq<Json>, answer: string -> Lookup)
    ensures |Resolve(names, answer)| <= |names|
    ensures forall p :: p in Resolve(names, answer) ==>
              exists k :: 0 <= k < |names| && NameOf(names[k]) == Some(p.name)
                          && answer(p.name) == Found(p.lat, p.lon)
    decreases |names|
  {
    if names != [] {
      var n := |names|;
      var init := names[..n - 1];
      ResolvedPoints(init, answer);
      forall p | p in Resolve(names, answer)
        ensures exists k :: 0 <= k < n && NameOf(names[k]) == Some(p.name)
                            && answer(p.name) == Found(p.lat, p.lon)
      {
        if p in Resolve(init, answer) {
          var k :| 0 <= k < n - 1 && NameOf(init[k]) == Some(p.name)
                   && answer(p.name) == Found(p.lat, p.lon);
          assert names[k] == init[k];
        } else {
          assert p in PointsFor(names[n - 1], answer);
        }
      }
    }
  }

  /** Three names whose second does not resolve give the first and third points, in order. */
  lemma SecondOfThreeMissing(a: string, b: string, c: string, answer: string -> Lookup)
    requires answer(a).Found? && answer(c).Found? && !answer(b).Found?
    ensures Resolve([JString(a), JString(b), JString(c)], answer)
            == [GeoPoint(a, answer(a).lat, answer(a).lon), GeoPoint(c, answer(c).lat, answer(c).lon)]
  {
    var names := [JString(a), JString(b), JString(c)];
    assert names[..2] == [JString(a), JString(b)];
    assert names[..2][..1] == [JString(a)];
    assert names[..2][..1][..0] == [];
    assert PointsFor(JString(a), answer) == [GeoPoint(a, answer(a).lat, answer(a).lon)];
    assert PointsFor(JString(b), answer) == [];
    assert PointsFor(JString(c), answer) == [GeoPoint(c, answer(c).lat, answer(c).lon)];
    assert Resolve(names[..2][..1], answer) == [GeoPoint(a, answer(a).lat, answer(a).lon)];
    assert Resolve(names[..2], answer) == [GeoPoint(a, answer(a).lat, answer(a).lon)];
  }

  /** A list element stands for its first item; an empty list is skipped, with neither
      a point nor a pause. */
  lemma NestedListElements(first: string, rest: seq<Json>, answer: string -> Lookup)
    ensures Resolve([JList([JString(first)] + rest)], answer) == Resolve([JString(first)], answer)
    ensures Pauses([JList([JString(first)] + rest)], answer) == Pauses([JString(first)], answer)
    ensures Resolve([JList([])], answer) == [] && Pauses([JList([])], answer) == []
  {
    assert [JList([JString(first)] + rest)][..0] == [];
    assert [JString(first)][..0] == [];
    assert [JList([])][..0] == [];
  }

  /** At most one point per name looked up: never more than ten, nor more than the names. */
  lemma AtMostOnePointPerName(names: seq<Json>, answer: string -> Lookup)
    ensures |Resolve(FirstNames(names), answer)| <= MaxLookups
    ensures |Resolve(FirstNames(names), answer)| <= |names|
  {
    ResolvedPoints(FirstNames(names), answer);
  }

  /** One more name adds its own points and pause to those of the names before it. */
  lemma ResolveStep(names: seq<Json>, i: nat, answer: string -> Lookup)
    requires i < |names|
    ensures Resolve(names[..i + 1], answer) == Resolve(names[..i], answer) + PointsFor(names[i], answer)
    ensures Pauses(names[..i + 1], answer) == Pauses(names[..i], answer)
                                              + (if LookupReturned(names[i], answer) then [1] else [])
  {
    assert names[..i + 1][..i] == names[..i];
  }

  /** The first `MaxLookups` names, `noms_lieux[:10]`. */
  function FirstNames(names: seq<Json>): (r: seq<Json>)
    ensures |r| <= |names| && |r| <= MaxLookups && r == names[..|r|]
    ensures |names| <= MaxLookups ==> r == names
    ensures |names| > MaxLookups ==> |r| == MaxLookups
  {
    if |names| <= MaxLookups then names else names[..MaxLookups]
  }

  /** The loop over `noms_lieux[:10]`. */
  method GeocodeNames(names: seq<Json>, code: Option<string>, lookup: (string, Option<string>) -> Lookup)
    returns (points: seq<GeoPoint>, waits: seq<nat>)
    ensures points == Resolve(FirstNames(names), Answer(lookup, code))
    ensures waits == Pauses(FirstNames(names), Answer(lookup, code))
  {
    var todo := FirstNames(names);
    ghost var answer := Answer(lookup, code);
    points, waits := [], [];
    for i := 0 to |todo|
      invariant points == Resolve(todo[..i], answer)
      invariant waits == Pauses(todo[..i], answer)
    {
      ResolveStep(todo, i, answer);
      var v := todo[i];
      var name := NameOf(v);
      if name.Some? {
        var location := lookup(CleanName(name.value), code);
        assert location == answer(name.value);
        if location.Found? {
          points := points + [GeoPoint(name.value, location.lat, location.lon)];
        }
        if !location.Failed? {
          waits := waits + [1];
        }
      }
    }
    assert todo[..|todo|] == todo;
  }
}
