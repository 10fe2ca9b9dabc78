/** Character classes and string helpers with the meaning Python 3 gives them on `str`. */
module Text {

  import opened Wrappers

  /** `str.isspace()`, which is also what `\s` in a `str` regex and `str.split()` /
      `str.strip()` without arguments treat as whitespace. */
  predicate IsSpace(c: char)
  {
    || ('\t' <= c <= '\r')                  // tab, line feed, vertical tab, form feed, carriage return
    || ('\U{1C}' <= c <= '\U{1F}')          // file, group, record and unit separators
    || c == ' ' || c == '\U{85}' || c == '\U{A0}' || c == '\U{1680}'
    || ('\U{2000}' <= c <= '\U{200A}')
    || c == '\U{2028}' || c == '\U{2029}' || c == '\U{202F}' || c == '\U{205F}' || c == '\U{3000}'
  }

  /** `\d`, restricted to the ASCII digits. */
  predicate IsDigit(c: char)
  {
    '0' <= c <= '9'
  }

  function DigitValue(c: char): (d: nat)
    requires IsDigit(c)
    ensures d < 10
  {
    (c as int) - ('0' as int)
  }

  /** `str.lower()` on one character: ASCII and Latin-1 capitals. */
  function LowerChar(c: char): (r: char)
    ensures IsSpace(r) <==> IsSpace(c)
    ensures !('A' <= r <= 'Z')
  {
    if 'A' <= c <= 'Z' || ('\U{C0}' <= c <= '\U{DE}' && c != '\U{D7}')
    then (c as int + 32) as char
    else c
  }

  /** `s.lower()`. */
  function Lower(s: string): (r: string)
    ensures |r| == |s|
    ensures forall i :: 0 <= i < |s| ==> r[i] == LowerChar(s[i])
    ensures forall i :: 0 <= i < |r| ==> !('A' <= r[i] <= 'Z')
    ensures forall i :: 0 <= i < |r| ==> (IsSpace(r[i]) <==> IsSpace(s[i]))
  {
    seq(|s|, i requires 0 <= i < |s| => LowerChar(s[i]))
  }

  /** `needle` occurs in `haystack` at position `i`. */
  predicate OccursAt(haystack: string, needle: string, i: nat)
  {
    i + |needle| <= |haystack| && haystack[i..i + |needle|] == needle
  }

  /** An occurrence read off the suffix starting at `i`. */
  lemma OccursAtSuffix(haystack: string, needle: string, i: nat)
    requires i <= |haystack| && |needle| <= |haystack| - i
    requires haystack[i..][..|needle|] == needle
    ensures OccursAt(haystack, needle, i)
  {
    assert haystack[i..][..|needle|] == haystack[i..i + |needle|];
  }

  /** Python's `needle in haystack` for strings. */
  predicate Contains(haystack: string, needle: string)
  {
    exists i: nat | i <= |haystack| :: OccursAt(haystack, needle, i)
  }

  /** `s` without its leading whitespace (what a greedy `\s*` skips, and `str.lstrip()`). */
  function DropSpaces(s: string): (r: string)
    ensures |r| <= |s| && r == s[|s| - |r|..]
    ensures r == [] || !IsSpace(r[0])
    ensures forall i :: 0 <= i < |s| - |r| ==> IsSpace(s[i])
    decreases |s|
  {
    if s != [] && IsSpace(s[0]) then DropSpaces(s[1..]) else s
  }

  /** A greedy `\s*` skips a whole run of whitespace, newlines included. */
  lemma {:induction false} DropSpacesAfter(blanks: string, t: string)
    requires forall i :: 0 <= i < |blanks| ==> IsSpace(blanks[i])
    requires t == [] || !IsSpace(t[0])
    ensures DropSpaces(blanks + t) == t
    decreases |blanks|
  {
    if blanks == [] {
      assert blanks + t == t;
    } else {
      assert (blanks + t)[1..] == blanks[1..] + t;
      DropSpacesAfter(blanks[1..], t);
    }
  }

  /** `re.search(pattern, s)` for a pattern whose match at the start of a string is
      decided by `at`: the result at the leftmost position 0 .. |s| where `at` matches. */
  function Search<T>(s: string, at: string -> Option<T>): Option<T>
    decreases |s|
  {
    match at(s)
    case Some(g) => Some(g)
    case None => if s == [] then None else Search(s[1..], at)
  }

  /** A successful search reports the match at the first position of `s` where the
      pattern matches. */
  lemma {:induction false} SearchFound<T>(s: string, at: string -> Option<T>) returns (i: nat)
    requires Search(s, at).Some?
    ensures i <= |s| && at(s[i..]) == Search(s, at)
    ensures forall j :: 0 <= j < i ==> at(s[j..]).None?
    decreases |s|
  {
    if at(s).Some? {
      assert s[0..] == s;
      i := 0;
    } else {
      var k := SearchFound(s[1..], at);
      assert s[1..][k..] == s[k + 1..];
      i := k + 1;
      forall j | 0 <= j < i ensures at(s[j..]).None? {
        if j == 0 {
          assert s[0..] == s;
        } else {
          assert s[j..] == s[1..][j - 1..];
        }
      }
    }
  }

  /** A search fails exactly when the pattern matches at no position. */
  lemma {:induction false} SearchNoneIff<T>(s: string, at: string -> Option<T>)
    ensures Search(s, at).None? <==> forall i :: 0 <= i <= |s| ==> at(s[i..]).None?
    decreases |s|
  {
    assert s[0..] == s;
    if at(s).None? && s != [] {
      SearchNoneIff(s[1..], at);
      forall i | 1 <= i <= |s| ensures s[i..] == s[1..][i - 1..] { }
    }
  }

  /** A successful search reports the match at the leftmost matching position. */
  lemma {:induction false} SearchLeftmost<T>(s: string, at: string -> Option<T>, i: nat)
    requires i <= |s| && at(s[i..]).Some?
    requires forall j :: 0 <= j < i ==> at(s[j..]).None?
    ensures Search(s, at) == at(s[i..])
    decreases i
  {
    if i > 0 {
      assert at(s[0..]).None? && s[0..] == s;
      assert s[1..][i - 1..] == s[i..];
      forall j | 0 <= j < i - 1 ensures at(s[1..][j..]).None? {
        assert s[1..][j..] == s[j + 1..];
      }
      SearchLeftmost(s[1..], at, i - 1);
    }
  }

  /** Positions where the pattern does not match are skipped. */
  lemma {:induction false} SearchSkips<T>(s: string, at: string -> Option<T>, i: nat)
    requires i <= |s|
    requires forall j :: 0 <= j < i ==> at(s[j..]).None?
    ensures Search(s, at) == Search(s[i..], at)
    decreases i
  {
    if i > 0 {
      assert at(s[0..]).None? && s[0..] == s;
      assert s[1..][i - 1..] == s[i..];
      forall j | 0 <= j < i - 1 ensures at(s[1..][j..]).None? {
        assert s[1..][j..] == s[j + 1..];
      }
      SearchSkips(s[1..], at, i - 1);
    }
  }
}
