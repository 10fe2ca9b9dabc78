/** Reading the quality judge's reply (`llm_judge_score`, evaluation.py). The judge is
    asked to answer `Note: X/10` then `Justification: ...`; the score is the digit-and-dot
    run after the leftmost `Note:`, the justification the rest of the line after the
    leftmost `Justification:`, each with a fallback. Prompt construction is not modelled. */
module QualityJudge {

  import opened Wrappers
  import opened Text
  import opened LlmApi

  const DefaultScore: real := 5.0
  const DefaultJustification: string := "Pas de justification fournie."
  const ErrorPrefix: string := "Erreur d'analyse : "

  /** The `(score, justification)` pair the judge returns. */
  datatype Verdict = Verdict(score: real, justification: string)

  predicate IsDigitOrDot(c: char)
  {
    IsDigit(c) || c == '.'
  }

  predicate AllDigitOrDot(s: string)
  {
    forall i :: 0 <= i < |s| ==> IsDigitOrDot(s[i])
  }

  /** The longest prefix of `s` made of digits and dots (`[\d.]+`, greedy). */
  function DigitDotRun(s: string): (r: string)
    ensures |r| <= |s| && r == s[..|r|]
    ensures AllDigitOrDot(r)
    ensures |r| == |s| || !IsDigitOrDot(s[|r|])
    decreases |s|
  {
    if s != [] && IsDigitOrDot(s[0]) then [s[0]] + DigitDotRun(s[1..]) else []
  }

  /** The text of `s` up to, not including, its first newline (`.*` without DOTALL). */
  function Line(s: string): (r: string)
    ensures |r| <= |s| && r == s[..|r|]
    ensures '\n' !in r
    ensures |r| == |s| || s[|r|] == '\n'
    decreases |s|
  {
    if s != [] && s[0] != '\n' then [s[0]] + Line(s[1..]) else []
  }

  /** `Note:\s*([\d.]+)` tried at the start of `s`: the captured run, if it matches. */
  function NoteAt(s: string): (r: Option<string>)
    ensures r.Some? ==> |r.value| > 0 && AllDigitOrDot(r.value)
  {
    if |s| >= 5 && s[..5] == "Note:" then
      var run := DigitDotRun(DropSpaces(s[5..]));
      if run == [] then None else Some(run)
    else None
  }

  /** `Justification:\s*(.*)` tried at the start of `s`: the captured line, if it matches. */
  function JustificationAt(s: string): (r: Option<string>)
    ensures r.Some? ==> '\n' !in r.value && (r.value == [] || !IsSpace(r.value[0]))
  {
    if |s| >= 14 && s[..14] == "Justification:" then Some(Line(DropSpaces(s[14..]))) else None
  }

  /** The number a string of decimal digits denotes (the empty string denotes 0); only ever
      applied to digit strings, so a non-digit simply counts as 0. */
  function DigitsValue(s: string): nat
    decreases |s|
  {
    if s == [] then 0
    else 10 * DigitsValue(s[..|s| - 1]) + (if IsDigit(s[|s| - 1]) then DigitValue(s[|s| - 1]) else 0)
  }

  function CountDots(s: string): nat
    decreases |s|
  {
    if s == [] then 0 else (if s[0] == '.' then 1 else 0) + CountDots(s[1..])
  }

  predicate HasDigit(s: string)
  {
    exists i :: 0 <= i < |s| && IsDigit(s[i])
  }

  /** Position of the first dot of `s`, or |s| when there is none. */
  function DotIndex(s: string): (k: nat)
    ensures k <= |s|
    ensures forall i :: 0 <= i < k ==> s[i] != '.'
    ensures k < |s| ==> s[k] == '.'
    decreases |s|
  {
    if s == [] then 0 else if s[0] == '.' then 0 else 1 + DotIndex(s[1..])
  }

  /** A digit-and-dot run that Python's `float` accepts: one dot at most and one digit at least. */
  predicate IsDecimal(run: string)
  {
    AllDigitOrDot(run) && CountDots(run) <= 1 && HasDigit(run)
  }

  /** The run with its dot removed: the digits `float` reads, as one whole number. */
  function Undotted(run: string): (r: string)
    ensures AllDigitOrDot(run) ==> forall i :: 0 <= i < |r| ==> IsDigit(r[i])
    decreases |run|
  {
    if run == [] then [] else (if run[0] == '.' then [] else [run[0]]) + Undotted(run[1..])
  }

  /** n / 10^f: a whole number of digits, f of them after the decimal point. */
  function Scaled(n: nat, f: nat): (r: real)
    ensures r >= 0.0
  {
    if f == 0 then n as real else Scaled(n, f - 1) / 10.0
  }

  /** How many digits follow the dot (none without a dot). */
  function FractionDigits(run: string): nat
  {
    var k := DotIndex(run);
    if k < |run| then |run| - k - 1 else 0
  }

  /** `float(run)` for a run of digits and dots, read exactly (binary rounding is not modelled):
      the digits without the dot, scaled down by one power of ten per fraction digit. */
  function FloatOf(run: string): (r: Option<real>)
    requires AllDigitOrDot(run)
    ensures r.Some? <==> IsDecimal(run)
    ensures r.Some? ==> r.value >= 0.0
    ensures r.Some? ==> r.value == Scaled(DigitsValue(Undotted(run)), FractionDigits(run))
  {
    if CountDots(run) > 1 || !HasDigit(run) then None
    else
      var k := DotIndex(run);
      if k == |run| then
        WholeValue(run);
        Some(DigitsValue(run) as real)
      else
        FractionValue(run, k);
        Some(DigitsValue(run[..k]) as real + Scaled(DigitsValue(run[k + 1..]), |run| - k - 1))
  }

  /** Whole part plus fraction over 10^f, times 10^f, is the digits read without the dot. */
  lemma FractionValue(run: string, k: nat)
    requires CountDots(run) <= 1
    requires k == DotIndex(run) && k < |run|
    ensures DigitsValue(run[..k]) as real + Scaled(DigitsValue(run[k + 1..]), |run| - k - 1)
            == Scaled(DigitsValue(Undotted(run)), FractionDigits(run))
  {
    var whole, fraction, n := DigitsValue(run[..k]), DigitsValue(run[k + 1..]), |run| - k - 1;
    UndottedValue(run, k);
    ScaledBack(whole, fraction, n);
  }

  /** Read without its dot, the run is its whole part shifted past the fraction digits. */
  lemma UndottedValue(run: string, k: nat)
    requires CountDots(run) <= 1
    requires k == DotIndex(run) && k < |run|
    ensures FractionDigits(run) == |run| - k - 1
    ensures DigitsValue(Undotted(run)) == Shift(DigitsValue(run[..k]), |run| - k - 1) + DigitsValue(run[k + 1..])
  {
    UndottedAtDot(run, k);
    DigitsValueAppend(run[..k], run[k + 1..]);
  }

  /** Without a dot the run is read whole: nothing is removed and no digit is a fraction digit. */
  lemma WholeValue(run: string)
    requires DotIndex(run) == |run|
    ensures Undotted(run) == run && FractionDigits(run) == 0
  {
    UndottedNoDot(run);
  }

  lemma {:induction false} UndottedNoDot(s: string)
    requires forall i :: 0 <= i < |s| ==> s[i] != '.'
    ensures Undotted(s) == s
    decreases |s|
  {
    if s != [] {
      UndottedNoDot(s[1..]);
      assert [s[0]] + s[1..] == s;
    }
  }

  lemma {:induction false} UndottedAtDot(s: string, k: nat)
    requires CountDots(s) <= 1 && k == DotIndex(s) && k < |s|
    ensures Undotted(s) == s[..k] + s[k + 1..]
    decreases |s|
  {
    if s[0] == '.' {
      UndottedLeadingDot(s);
    } else {
      var t := s[1..];
      assert DotIndex(t) == k - 1 && CountDots(t) <= 1;
      UndottedAtDot(t, k - 1);
      assert Undotted(s) == [s[0]] + Undotted(t);
      SplitAround(s, k);
    }
  }

  lemma UndottedLeadingDot(s: string)
    requires s != [] && s[0] == '.' && CountDots(s) <= 1
    ensures Undotted(s) == s[1..]
  {
    assert CountDots(s[1..]) == 0;
    CountDotsZero(s[1..]);
    UndottedNoDot(s[1..]);
  }

  lemma SplitAround(s: string, k: nat)
    requires 0 < k < |s|
    ensures s[..k] + s[k + 1..] == [s[0]] + (s[1..][..k - 1] + s[1..][k..])
  {
    assert s[..k] == [s[0]] + s[1..][..k - 1];
    assert s[k + 1..] == s[1..][k..];
  }

  /** Digits written after others shift them up by one power of ten each. */
  lemma {:induction false} DigitsValueAppend(a: string, b: string)
    ensures DigitsValue(a + b) == Shift(DigitsValue(a), |b|) + DigitsValue(b)
    decreases |b|
  {
    if b == [] {
      assert a + b == a;
    } else {
      var init := b[..|b| - 1];
      DigitsValueAppend(a, init);
      assert (a + b)[..|a + b| - 1] == a + init;
    }
  }

  /** `x` followed by `n` zero digits. */
  function Shift(x: nat, n: nat): nat
  {
    if n == 0 then x else 10 * Shift(x, n - 1)
  }

  /** A whole part plus a fraction over 10^n is the digits of both, read as one number,
      over 10^n. */
  lemma ScaledBack(whole: nat, fraction: nat, n: nat)
    ensures whole as real + Scaled(fraction, n) == Scaled(Shift(whole, n) + fraction, n)
  {
    ScaledShift(whole, n);
    ScaledAdd(Shift(whole, n), fraction, n);
  }

  lemma {:induction false} ScaledAdd(x: nat, y: nat, n: nat)
    ensures Scaled(x + y, n) == Scaled(x, n) + Scaled(y, n)
  {
    if n > 0 {
      ScaledAdd(x, y, n - 1);
    }
  }

  lemma {:induction false} ScaledShift(x: nat, n: nat)
    ensures Scaled(Shift(x, n), n) == x as real
  {
    if n > 0 {
      ScaledShift(x, n - 1);
      ScaledTen(Shift(x, n - 1), n - 1);
    }
  }

  lemma {:induction false} ScaledTen(x: nat, n: nat)
    ensures Scaled(10 * x, n) == 10.0 * Scaled(x, n)
  {
    if n > 0 {
      ScaledTen(x, n - 1);
    }
  }

  lemma {:induction false} CountDotsZero(s: string)
    requires CountDots(s) == 0
    ensures forall i :: 0 <= i < |s| ==> s[i] != '.'
    decreases |s|
  {
    if s != [] {
      CountDotsZero(s[1..]);
      assert forall i :: 1 <= i < |s| ==> s[1..][i - 1] == s[i];
    }
  }

  /** The text of the `ValueError` that `float(run)` raises. */
  function FloatErrorMessage(run: string): string
  {
    "could not convert string to float: '" + run + "'"
  }

  /** The part of `llm_judge_score` after a reply arrived: search both patterns, apply the
      fallbacks, and map a rejected `float` to the error verdict. */
  function ReadVerdict(content: string): (v: Verdict)
    ensures v.score >= 0.0
    ensures v.score == 0.0 || '\n' !in v.justification
  {
    var note := Search(content, NoteAt);
    var justification := Search(content, JustificationAt).GetOr(DefaultJustification);
    SearchedRunIsDigits(content);
    SearchedLineHasNoNewline(content);
    match note
    case None => Verdict(DefaultScore, justification)
    case Some(run) =>
      match FloatOf(run)
      case None => Verdict(0.0, ErrorPrefix + FloatErrorMessage(run))
      case Some(x) => Verdict(x, justification)
  }

  /** Whatever the score search captures is a non-empty run of digits and dots. */
  lemma SearchedRunIsDigits(content: string)
    ensures Search(content, NoteAt).Some? ==> AllDigitOrDot(Search(content, NoteAt).value)
  {
    if Search(content, NoteAt).Some? {
      var i := SearchFound(content, NoteAt);
    }
  }

  /** The justification, captured or the fallback, lies on one line. */
  lemma SearchedLineHasNoNewline(content: string)
    ensures '\n' !in Search(content, JustificationAt).GetOr(DefaultJustification)
  {
    var r := Search(content, JustificationAt);
    if r.Some? {
      var i := SearchFound(content, JustificationAt);
    } else {
      assert '\n' !in DefaultJustification;
    }
  }

  /** `llm_judge_score`: a failed API call becomes the zero verdict carrying the error text. */
  function JudgeScore(reply: CallOutcome): (v: Verdict)
    ensures v.score >= 0.0
    ensures reply.Failure? ==> v == Verdict(0.0, ErrorPrefix + reply.message)
  {
    match reply
    case Failure(message) => Verdict(0.0, ErrorPrefix + message)
    case Response(content) => ReadVerdict(content)
  }

  /** The reply format the judge is asked to produce. */
  function FormatVerdict(scoreText: string, justification: string): string
  {
    "Note: " + scoreText + ("/10\n" + ("Justification:" + (" " + justification)))
  }

  function DigitChar(d: nat): (c: char)
    requires d < 10
    ensures IsDigit(c) && DigitValue(c) == d
  {
    ((('0' as int) + d) as char)
  }

  /** The decimal numeral of `n`, as `str(n)` writes it. */
  function ShowNat(n: nat): (s: string)
    ensures |s| >= 1 && forall i :: 0 <= i < |s| ==> IsDigit(s[i])
    ensures DigitsValue(s) == n
  {
    if n < 10 then [DigitChar(n)]
    else
      var s := ShowNat(n / 10) + [DigitChar(n % 10)];
      assert s[..|s| - 1] == ShowNat(n / 10);
      s
  }

  /** A run of digits and dots stops at the first other character. */
  lemma {:induction false} RunStopsAt(run: string, rest: string)
    requires AllDigitOrDot(run)
    requires rest == [] || !IsDigitOrDot(rest[0])
    ensures DigitDotRun(run + rest) == run
    decreases |run|
  {
    if run != [] {
      assert (run + rest)[1..] == run[1..] + rest;
      RunStopsAt(run[1..], rest);
    } else {
      assert run + rest == rest;
    }
  }

  lemma SplitAfter(a: string, b: string)
    ensures (a + b)[..|a|] == a && (a + b)[|a|..] == b
  {
  }

  lemma NoMatchWithoutJ(s: string)
    requires s != [] && s[0] != 'J'
    ensures JustificationAt(s).None?
  {
    if |s| >= 14 {
      assert s[..14][0] == s[0];
    }
  }

  lemma SingleSpaceDropped(s: string)
    requires s == [] || !IsSpace(s[0])
    ensures DropSpaces(" " + s) == s
  {
    assert (" " + s)[1..] == s;
  }

  lemma SingleLine(s: string)
    requires '\n' !in s
    ensures Line(s) == s
  {
  }

  /** In a reply in the requested format, the score search captures the score text. */
  lemma NoteRoundTrip(scoreText: string, rest: string)
    requires scoreText != [] && AllDigitOrDot(scoreText)
    requires rest != [] && rest[0] == '/'
    ensures Search("Note: " + scoreText + rest, NoteAt) == Some(scoreText)
  {
    var c := "Note: " + scoreText + rest;
    assert c[..5] == "Note:";
    assert c[5..] == " " + (scoreText + rest);
    assert !IsSpace(scoreText[0]);
    SingleSpaceDropped(scoreText + rest);
    RunStopsAt(scoreText, rest);
  }

  /** A prefix without the letter `J` is skipped by the justification search. */
  lemma {:induction false} SkipsPrefixWithoutJ(head: string, tail: string)
    requires 'J' !in head
    ensures Search(head + tail, JustificationAt) == Search(tail, JustificationAt)
    decreases |head|
  {
    if head == [] {
      assert head + tail == tail;
    } else {
      NoMatchWithoutJ(head + tail);
      assert (head + tail)[1..] == head[1..] + tail;
      SkipsPrefixWithoutJ(head[1..], tail);
    }
  }

  /** After a prefix without `J`, the justification search captures the stated line. */
  lemma JustificationRoundTrip(head: string, justification: string)
    requires 'J' !in head
    requires '\n' !in justification
    requires justification == [] || !IsSpace(justification[0])
    ensures Search(head + ("Justification:" + (" " + justification)), JustificationAt) == Some(justification)
  {
    var tail := "Justification:" + (" " + justification);
    SkipsPrefixWithoutJ(head, tail);
    SplitAfter("Justification:", " " + justification);
    SingleSpaceDropped(justification);
    SingleLine(justification);
    assert JustificationAt(tail) == Some(justification);
  }

  /** In a reply in the requested format, the score search captures the stated score. */
  lemma FormattedNoteFound(scoreText: string, justification: string)
    requires scoreText != [] && AllDigitOrDot(scoreText)
    ensures Search(FormatVerdict(scoreText, justification), NoteAt) == Some(scoreText)
  {
    var tail := "Justification:" + (" " + justification);
    assert FormatVerdict(scoreText, justification) == "Note: " + scoreText + ("/10\n" + tail);
    NoteRoundTrip(scoreText, "/10\n" + tail);
  }

  /** In a reply in the requested format, the justification search captures the stated line. */
  lemma FormattedJustificationFound(scoreText: string, justification: string)
    requires AllDigitOrDot(scoreText)
    requires '\n' !in justification
    requires justification == [] || !IsSpace(justification[0])
    ensures Search(FormatVerdict(scoreText, justification), JustificationAt) == Some(justification)
  {
    var head := "Note: " + scoreText + "/10\n";
    assert FormatVerdict(scoreText, justification) == head + ("Justification:" + (" " + justification));
    assert 'J' !in head by {
      assert 'J' !in scoreText;
      assert 'J' !in "Note: " && 'J' !in "/10\n";
    }
    JustificationRoundTrip(head, justification);
  }

  /** A reply in the requested format reads back as the score it states, unclamped,
      and the justification it states. */
  lemma VerdictRoundTrip(scoreText: string, justification: string)
    requires IsDecimal(scoreText)
    requires '\n' !in justification
    requires justification == [] || !IsSpace(justification[0])
    ensures ReadVerdict(FormatVerdict(scoreText, justification))
            == Verdict(FloatOf(scoreText).value, justification)
  {
    assert scoreText != [] by { assert HasDigit(scoreText); }
    FormattedNoteFound(scoreText, justification);
    FormattedJustificationFound(scoreText, justification);
    ReadsCapturedText(FormatVerdict(scoreText, justification), scoreText, justification);
  }

  /** When the score search captures a decimal and the justification search a line, the
      verdict is that number and that line. */
  lemma ReadsCapturedText(content: string, run: string, justification: string)
    requires Search(content, NoteAt) == Some(run) && IsDecimal(run)
    requires Search(content, JustificationAt) == Some(justification)
    ensures ReadVerdict(content) == Verdict(FloatOf(run).value, justification)
  {
  }

  /** The worked example of the judge's format. */
  lemma ReadsExampleReply()
    ensures ReadVerdict(FormatVerdict("7.5", "Good fit.")) == Verdict(7.5, "Good fit.")
  {
    var t := "7.5";
    assert IsDigit(t[0]);
    assert AllDigitOrDot(t) && HasDigit(t) && CountDots(t) == 1;
    assert DotIndex(t) == 1;
    assert t[..1] == "7" && t[2..] == "5";
    assert DigitsValue("7") == 7 && DigitsValue("5") == 5;
    assert FloatOf(t) == Some(7.5);
    VerdictRoundTrip(t, "Good fit.");
  }

  lemma {:induction false} NoDotsInDigits(s: string)
    requires forall i :: 0 <= i < |s| ==> IsDigit(s[i])
    ensures CountDots(s) == 0
    decreases |s|
  {
    if s != [] {
      NoDotsInDigits(s[1..]);
    }
  }

  /** The score is not clamped to 0 .. 10: any whole number the judge writes is the score. */
  lemma ScoreNotClamped(n: nat, justification: string)
    requires '\n' !in justification
    requires justification == [] || !IsSpace(justification[0])
    ensures ReadVerdict(FormatVerdict(ShowNat(n), justification)).score == n as real
  {
    var t := ShowNat(n);
    NoDotsInDigits(t);
    assert IsDigit(t[0]);
    assert FloatOf(t) == Some(n as real);
    VerdictRoundTrip(t, justification);
  }

  /** The score read is the one after the leftmost `Note:` that a digit or dot follows. */
  lemma LeftmostNoteGivesScore(content: string, i: nat, run: string)
    requires i <= |content| && NoteAt(content[i..]) == Some(run)
    requires forall j :: 0 <= j < i ==> NoteAt(content[j..]).None?
    requires IsDecimal(run)
    ensures ReadVerdict(content).score == FloatOf(run).value
  {
    SearchLeftmost(content, NoteAt, i);
  }

  /** `Note:\s*([\d.]+)` can only match where `Note:` occurs. */
  lemma NoteNeedsMarker(content: string)
    requires !Contains(content, "Note:")
    ensures Search(content, NoteAt).None?
  {
    if Search(content, NoteAt).Some? {
      var i := SearchFound(content, NoteAt);
      OccursAtSuffix(content, "Note:", i);
    }
  }

  /** `Justification:\s*(.*)` can only match where `Justification:` occurs. */
  lemma JustificationNeedsMarker(content: string)
    requires !Contains(content, "Justification:")
    ensures Search(content, JustificationAt).None?
  {
    if Search(content, JustificationAt).Some? {
      var i := SearchFound(content, JustificationAt);
      OccursAtSuffix(content, "Justification:", i);
    }
  }

  /** A reply with neither marker gets both fallbacks. */
  lemma NoMarkersGiveDefaults(content: string)
    requires !Contains(content, "Note:") && !Contains(content, "Justification:")
    ensures ReadVerdict(content) == Verdict(DefaultScore, DefaultJustification)
  {
    NoteNeedsMarker(content);
    JustificationNeedsMarker(content);
  }

  /** When the run after the leftmost `Note:` is one `float` rejects, the whole verdict is
      the error verdict, whatever justification the reply carries. */
  lemma {:induction false} RejectedRunGivesErrorVerdict(run: string, rest: string)
    requires run != [] && AllDigitOrDot(run) && !IsDecimal(run)
    requires rest == [] || !IsDigitOrDot(rest[0])
    ensures ReadVerdict("Note: " + run + rest) == Verdict(0.0, ErrorPrefix + FloatErrorMessage(run))
  {
    var c := "Note: " + run + rest;
    assert c[..5] == "Note:";
    assert c[5..] == " " + (run + rest);
    assert !IsSpace(run[0]);
    SingleSpaceDropped(run + rest);
    RunStopsAt(run, rest);
    assert NoteAt(c) == Some(run);
  }

  /** `float` rejects a run with two dots and a run with no digit. */
  lemma RejectedRunExamples()
    ensures ReadVerdict("Note: " + "1.2.3" + "/10") == Verdict(0.0, ErrorPrefix + FloatErrorMessage("1.2.3"))
    ensures ReadVerdict("Note: " + "." + "/10").score == 0.0
  {
    assert AllDigitOrDot("1.2.3") && CountDots("1.2.3") == 2;
    RejectedRunGivesErrorVerdict("1.2.3", "/10");
    assert AllDigitOrDot(".") && !HasDigit(".");
    RejectedRunGivesErrorVerdict(".", "/10");
  }

  /** The run after the leftmost `Note:` that a digit or dot follows decides the error
      verdict, wherever it stands: a run `float` rejects gives the zero verdict. */
  lemma RejectedNoteGivesErrorVerdict(content: string, i: nat, run: string)
    requires i <= |content| && NoteAt(content[i..]) == Some(run)
    requires forall j :: 0 <= j < i ==> NoteAt(content[j..]).None?
    requires !IsDecimal(run)
    ensures ReadVerdict(content) == Verdict(0.0, ErrorPrefix + FloatErrorMessage(run))
  {
    SearchLeftmost(content, NoteAt, i);
  }

  /** Without any score match the score falls back to 5.0, and the justification is read
      as usual: the leftmost capture, or the fallback text when there is none. */
  lemma NoNoteGivesDefaultScore(content: string)
    requires forall i :: 0 <= i <= |content| ==> NoteAt(content[i..]).None?
    ensures ReadVerdict(content)
            == Verdict(DefaultScore, Search(content, JustificationAt).GetOr(DefaultJustification))
  {
    SearchNoneIff(content, NoteAt);
  }

  /** The same, with the justification captured at its leftmost position i. */
  lemma NoNoteKeepsJustification(content: string, i: nat, justification: string)
    requires forall j :: 0 <= j <= |content| ==> NoteAt(content[j..]).None?
    requires i <= |content| && JustificationAt(content[i..]) == Some(justification)
    requires forall j :: 0 <= j < i ==> JustificationAt(content[j..]).None?
    ensures ReadVerdict(content) == Verdict(DefaultScore, justification)
  {
    NoNoteGivesDefaultScore(content);
    SearchLeftmost(content, JustificationAt, i);
  }

  /** Without any justification match the fallback text is used, unless the score run is
      one `float` rejects. */
  lemma NoJustificationGivesDefault(content: string)
    requires forall i :: 0 <= i <= |content| ==> JustificationAt(content[i..]).None?
    requires Search(content, NoteAt).None? || IsDecimal(Search(content, NoteAt).value)
    ensures ReadVerdict(content).justification == DefaultJustification
  {
    SearchNoneIff(content, JustificationAt);
  }

  /** `.*` stops at the first newline. */
  lemma LineStopsAtNewline(line: string, rest: string)
    requires '\n' !in line
    requires rest == [] || rest[0] == '\n'
    ensures Line(line + rest) == line
  {
    assert (line + rest)[..|line|] == line;
  }

  /** `\s*` after `Justification:` skips blank lines too: the justification may start on
      a later line, and runs to the end of that line. */
  lemma JustificationAfterBlanks(blanks: string, justification: string, rest: string)
    requires forall i :: 0 <= i < |blanks| ==> IsSpace(blanks[i])
    requires justification != [] && !IsSpace(justification[0]) && '\n' !in justification
    requires rest == [] || rest[0] == '\n'
    ensures JustificationAt("Justification:" + blanks + justification + rest) == Some(justification)
  {
    var tail := blanks + (justification + rest);
    assert "Justification:" + blanks + justification + rest == "Justification:" + tail;
    MarkerThenLine(tail);
    DropSpacesAfter(blanks, justification + rest);
    LineStopsAtNewline(justification, rest);
  }

  /** `\s*` after `Note:` skips blank lines too: the run may stand on a later line. */
  lemma NoteAfterBlanks(blanks: string, run: string, rest: string)
    requires forall i :: 0 <= i < |blanks| ==> IsSpace(blanks[i])
    requires run != [] && AllDigitOrDot(run)
    requires rest == [] || !IsDigitOrDot(rest[0])
    ensures NoteAt("Note:" + blanks + run + rest) == Some(run)
  {
    var c := "Note:" + blanks + run + rest;
    assert c[..5] == "Note:";
    assert c[5..] == blanks + (run + rest);
    assert !IsSpace(run[0]);
    DropSpacesAfter(blanks, run + rest);
    RunStopsAt(run, rest);
  }

  /** Right after `Justification:` the pattern captures the rest of the line that
      follows the skipped whitespace. */
  lemma MarkerThenLine(tail: string)
    ensures JustificationAt("Justification:" + tail) == Some(Line(DropSpaces(tail)))
  {
    SplitAfter("Justification:", tail);
  }
}
