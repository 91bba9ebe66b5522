/**
 * The string operations of Python that git_tool.py relies on, written out:
 * `str.strip()` and `str.strip('"')` (the `chomp_quotes` helper), `str.split("\n")`,
 * `"\n".join(...)`, `str.lower()` and the substring test `a in b`.
 */
module Text {

  /** Python's `str.isspace()`: the characters that `str.strip()` without an argument removes. */
  predicate IsSpace(c: char) {
    ('\t' <= c <= '\r') || ('\U{1C}' <= c <= ' ') || c == '\U{85}' || c == '\U{A0}'
    || c == '\U{1680}' || ('\U{2000}' <= c <= '\U{200A}') || c == '\U{2028}' || c == '\U{2029}'
    || c == '\U{202F}' || c == '\U{205F}' || c == '\U{3000}'
  }

  predicate IsQuote(c: char) {
    c == '"'
  }

  /** The number of leading characters of `s` that `drop` accepts. */
  function Leading(s: string, drop: char -> bool): (n: nat)
    ensures n <= |s|
    ensures forall i :: 0 <= i < n ==> drop(s[i])
    ensures n == |s| || !drop(s[n])
  {
    if s == [] || !drop(s[0]) then 0 else 1 + Leading(s[1..], drop)
  }

  /** The number of trailing characters of `s` that `drop` accepts. */
  function Trailing(s: string, drop: char -> bool): (n: nat)
    ensures n <= |s|
    ensures forall i :: |s| - n <= i < |s| ==> drop(s[i])
    ensures n == |s| || !drop(s[|s| - n - 1])
  {
    if s == [] || !drop(s[|s| - 1]) then 0 else 1 + Trailing(s[..|s| - 1], drop)
  }

  /**
   * Python's `s.strip(chars)`: the result is the slice of `s` left after removing every
   * leading and every trailing character that `drop` accepts, and nothing else.
   */
  function Strip(s: string, drop: char -> bool): (r: string)
    ensures var k := Leading(s, drop);
      && k + |r| <= |s|
      && r == s[k..k + |r|]
      && (forall i :: 0 <= i < k ==> drop(s[i]))
      && (forall i :: k + |r| <= i < |s| ==> drop(s[i]))
    ensures r == [] || (!drop(r[0]) && !drop(r[|r| - 1]))
  {
    var a := Leading(s, drop);
    var b := Trailing(s[a..], drop);
    s[a..|s| - b]
  }

  /** Python's `s.strip()`. */
  function PyStrip(s: string): string {
    Strip(s, IsSpace)
  }

  /** `chomp_quotes`: `line.strip('"')`. */
  function ChompQuotes(line: string): string {
    Strip(line, IsQuote)
  }

  /** A string that neither starts nor ends with a character `drop` accepts is left as it is. */
  lemma StripKeeps(s: string, drop: char -> bool)
    requires s == [] || (!drop(s[0]) && !drop(s[|s| - 1]))
    ensures Strip(s, drop) == s
  {
    assert Leading(s, drop) == 0;
    assert s[0..] == s;
    assert Trailing(s, drop) == 0;
  }

  lemma StripIdempotent(s: string, drop: char -> bool)
    ensures Strip(Strip(s, drop), drop) == Strip(s, drop)
  {
    StripKeeps(Strip(s, drop), drop);
  }

  /** `chomp_quotes` leaves no quote at either end and applying it twice changes nothing. */
  lemma ChompQuotesSpec(line: string)
    ensures ChompQuotes(line) == [] || (ChompQuotes(line)[0] != '"' && ChompQuotes(line)[|ChompQuotes(line)| - 1] != '"')
    ensures ChompQuotes(ChompQuotes(line)) == ChompQuotes(line)
  {
    var r := Strip(line, IsQuote);
    assert r == [] || (!IsQuote(r[0]) && !IsQuote(r[|r| - 1]));
    StripKeeps(r, IsQuote);
  }

  /** `"\n".join(parts)`. */
  function JoinLines(parts: seq<string>): string {
    if |parts| == 0 then ""
    else if |parts| == 1 then parts[0]
    else parts[0] + "\n" + JoinLines(parts[1..])
  }

  /**
   * Python's `s.split("\n")`: never empty (`"".split("\n") == [""]`), no piece holds a
   * newline, and joining the pieces with newlines gives `s` back.
   */
  function SplitLines(s: string): (r: seq<string>)
    ensures |r| >= 1
    ensures forall i :: 0 <= i < |r| ==> '\n' !in r[i]
    ensures JoinLines(r) == s
  {
    if s == [] then [""]
    else
      var rest := SplitLines(s[1..]);
      if s[0] == '\n' then
        assert ([""] + rest)[1..] == rest;
        [""] + rest
      else
        var r := [[s[0]] + rest[0]] + rest[1..];
        assert r[1..] == rest[1..];
        assert s == [s[0]] + s[1..];
        r
  }

  lemma {:induction false} SplitLinesPrefix(p: string, t: string)
    requires '\n' !in p
    ensures SplitLines(p + t) == [p + SplitLines(t)[0]] + SplitLines(t)[1..]
    decreases |p|
  {
    if p != [] {
      var r := SplitLines(t);
      assert (p + t)[1..] == p[1..] + t;
      assert (p + t)[0] == p[0] && p[0] != '\n';
      SplitLinesPrefix(p[1..], t);
      var rest := SplitLines(p[1..] + t);
      assert rest[0] == p[1..] + r[0] && rest[1..] == r[1..];
      assert SplitLines(p + t) == [[p[0]] + rest[0]] + rest[1..];
      assert [p[0]] + (p[1..] + r[0]) == p + r[0];
    } else {
      var r := SplitLines(t);
      assert p + t == t;
      assert p + r[0] == r[0];
      assert r == [r[0]] + r[1..];
    }
  }

  /** Splitting a newline-join of newline-free pieces gives the pieces back. */
  lemma {:induction false} SplitJoin(parts: seq<string>)
    requires |parts| >= 1
    requires forall i :: 0 <= i < |parts| ==> '\n' !in parts[i]
    ensures SplitLines(JoinLines(parts)) == parts
  {
    if |parts| == 1 {
      SplitLinesPrefix(parts[0], "");
      assert parts[0] + "" == parts[0];
    } else {
      var rest := JoinLines(parts[1..]);
      SplitJoin(parts[1..]);
      assert parts[0] + "\n" + rest == parts[0] + ("\n" + rest);
      SplitLinesPrefix(parts[0], "\n" + rest);
      assert ("\n" + rest)[0] == '\n' && ("\n" + rest)[1..] == rest;
      assert SplitLines("\n" + rest) == [""] + parts[1..];
      assert JoinLines(parts) == parts[0] + ("\n" + rest);
      assert parts[0] + "" == parts[0];
      assert parts == [parts[0]] + parts[1..];
    }
  }

  /** Python's `str.lower()` on one character (ASCII letters; see README). */
  function LowerChar(c: char): char {
    if 'A' <= c <= 'Z' then (c as int - 'A' as int + 'a' as int) as char else c
  }

  function Lower(s: string): (r: string)
    ensures |r| == |s|
  {
    seq(|s|, i requires 0 <= i < |s| => LowerChar(s[i]))
  }

  lemma LowerIdempotent(s: string)
    ensures Lower(Lower(s)) == Lower(s)
  {
    assert forall i :: 0 <= i < |s| ==> Lower(Lower(s))[i] == Lower(s)[i];
  }

  predicate OccursAt(needle: string, hay: string, i: int) {
    0 <= i && i + |needle| <= |hay| && hay[i..i + |needle|] == needle
  }

  /** Python's `needle in hay` on strings. */
  predicate Contains(hay: string, needle: string) {
    exists i :: 0 <= i <= |hay| && OccursAt(needle, hay, i)
  }

  /** The empty string occurs in every string. */
  lemma ContainsEmpty(hay: string)
    ensures Contains(hay, "")
  {
    assert OccursAt("", hay, 0);
  }
}
