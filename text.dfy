/**
  The parts of Python's `str` that the extractor relies on, restricted to
  ASCII: `strip`, `strip(chars)`, `lower`, `upper`, `isdigit`, `in` on
  strings, `" ".join` and `re.split` on a character class followed by `+`.
*/
module Text {

  /** Python's `str.isspace` and the regex class `\s`, on ASCII. */
  predicate IsSpace(c: char) {
    c == ' ' || '\t' <= c <= '\r' || '\U{1C}' <= c <= '\U{1F}'
  }

  predicate IsDigit(c: char) {
    '0' <= c <= '9'
  }

  predicate NotDigit(c: char) {
    !IsDigit(c)
  }

  predicate HasDigit(s: string) {
    exists i | 0 <= i < |s| :: IsDigit(s[i])
  }

  /** Python's `str.isdigit`: non-empty and digits only. */
  predicate IsAllDigits(s: string) {
    |s| > 0 && forall i | 0 <= i < |s| :: IsDigit(s[i])
  }

  function LowerChar(c: char): char {
    if 'A' <= c <= 'Z' then (c as int + 32) as char else c
  }

  function UpperChar(c: char): char {
    if 'a' <= c <= 'z' then (c as int - 32) as char else c
  }

  function Lower(s: string): (r: string)
    ensures |r| == |s|
  {
    seq(|s|, i requires 0 <= i < |s| => LowerChar(s[i]))
  }

  function Upper(s: string): (r: string)
    ensures |r| == |s|
  {
    seq(|s|, i requires 0 <= i < |s| => UpperChar(s[i]))
  }

  /** Number of consecutive characters satisfying `keep` from position `p`. */
  function Span(s: string, p: nat, keep: char -> bool): (n: nat)
    requires p <= |s|
    ensures p + n <= |s|
    ensures forall k | p <= k < p + n :: keep(s[k])
    ensures p + n == |s| || !keep(s[p + n])
    decreases |s| - p
  {
    if p < |s| && keep(s[p]) then 1 + Span(s, p + 1, keep) else 0
  }

  /** Number of consecutive characters failing `stop` from position `p`. */
  function SpanUntil(s: string, p: nat, stop: char -> bool): (n: nat)
    requires p <= |s|
    ensures p + n <= |s|
    ensures forall k | p <= k < p + n :: !stop(s[k])
    ensures p + n == |s| || stop(s[p + n])
    decreases |s| - p
  {
    if p < |s| && !stop(s[p]) then 1 + SpanUntil(s, p + 1, stop) else 0
  }

  /** Removes the longest prefix whose characters satisfy `drop`. */
  function TrimStart(s: string, drop: char -> bool): (r: string)
    ensures |r| <= |s| && r == s[|s| - |r|..]
    ensures forall k | 0 <= k < |s| - |r| :: drop(s[k])
    ensures r == [] || !drop(r[0])
  {
    if s != [] && drop(s[0]) then TrimStart(s[1..], drop) else s
  }

  /** Removes the longest suffix whose characters satisfy `drop`. */
  function TrimEnd(s: string, drop: char -> bool): (r: string)
    ensures |r| <= |s| && r == s[..|r|]
    ensures forall k | |r| <= k < |s| :: drop(s[k])
    ensures r == [] || !drop(r[|r| - 1])
  {
    if s != [] && drop(s[|s| - 1]) then TrimEnd(s[..|s| - 1], drop) else s
  }

  function Trim(s: string, drop: char -> bool): string {
    TrimEnd(TrimStart(s, drop), drop)
  }

  /** Python's `str.strip()`. */
  function Strip(s: string): string {
    Trim(s, IsSpace)
  }

  /** `strip` neither adds nor removes digits. */
  lemma StripKeepsDigits(s: string)
    ensures HasDigit(Strip(s)) <==> HasDigit(s)
  {
    StripFindsDigits(s);
    StripAddsNoDigits(s);
  }

  lemma StripFindsDigits(s: string)
    ensures HasDigit(s) ==> HasDigit(Strip(s))
  {
    if i :| 0 <= i < |s| && IsDigit(s[i]) {
      var j := StripKeeps(s, i);
      assert IsDigit(Strip(s)[j]);
    }
  }

  /** A character that is not white space survives `strip`, at position `j`. */
  lemma StripKeeps(s: string, i: nat) returns (j: nat)
    requires i < |s| && !IsSpace(s[i])
    ensures j < |Strip(s)| && Strip(s)[j] == s[i]
  {
    var l := TrimStart(s, IsSpace);
    TrimStartKeeps(s, IsSpace, i);
    j := i - (|s| - |l|);
    TrimEndKeeps(l, IsSpace, j);
  }

  /** A character `TrimStart` would not drop survives, shifted left. */
  lemma TrimStartKeeps(s: string, drop: char -> bool, i: nat)
    requires i < |s| && !drop(s[i])
    ensures |s| - |TrimStart(s, drop)| <= i
    ensures TrimStart(s, drop)[i - (|s| - |TrimStart(s, drop)|)] == s[i]
  {
  }

  /** A character `TrimEnd` would not drop survives, in place. */
  lemma TrimEndKeeps(s: string, drop: char -> bool, i: nat)
    requires i < |s| && !drop(s[i])
    ensures i < |TrimEnd(s, drop)| && TrimEnd(s, drop)[i] == s[i]
  {
  }

  lemma StripAddsNoDigits(s: string)
    ensures HasDigit(Strip(s)) ==> HasDigit(s)
  {
    var l := TrimStart(s, IsSpace);
    var r := TrimEnd(l, IsSpace);
    assert r == Strip(s);
    var a := |s| - |l|;
    if i :| 0 <= i < |r| && IsDigit(r[i]) {
      assert r[i] == l[i] == s[a + i];
    }
  }

  /** A text with no white space at either end is its own `strip`. */
  lemma StripUnpadded(s: string)
    requires s != [] && !IsSpace(s[0]) && !IsSpace(s[|s| - 1])
    ensures Strip(s) == s
  {
    assert TrimStart(s, IsSpace) == s;
  }

  /** Stripping twice is stripping once. */
  lemma StripIdempotent(s: string)
    ensures Strip(Strip(s)) == Strip(s)
  {
    var r := Strip(s);
    assert TrimStart(r, IsSpace) == r;
    assert TrimEnd(r, IsSpace) == r;
  }

  /** A character absent from a text is absent from every slice of it. */
  lemma SliceKeepsAbsent(s: string, c: char, a: nat, b: nat)
    requires a <= b <= |s| && c !in s
    ensures c !in s[a..b]
  {
    forall i | 0 <= i < b - a ensures s[a..b][i] != c {
      assert s[a..b][i] == s[a + i];
    }
  }

  /** Python's `k in s` for strings. */
  predicate Contains(s: string, k: string)
    decreases |s|
  {
    k <= s || (s != [] && Contains(s[1..], k))
  }

  /** A text lacking one of the characters of `k` does not contain `k`. */
  lemma {:induction false} MissingCharNotContained(s: string, k: string, j: nat)
    requires j < |k| && k[j] !in s
    ensures !Contains(s, k)
    decreases |s|
  {
    if j < |s| {
      assert s[j] in s;
    }
    if s != [] {
      assert forall c | c in s[1..] :: c in s;
      MissingCharNotContained(s[1..], k, j);
    }
  }

  /** Python's `sep.join(parts)`. */
  function Join(sep: string, parts: seq<string>): string
    decreases |parts|
  {
    if |parts| == 0 then []
    else if |parts| == 1 then parts[0]
    else parts[0] + sep + Join(sep, parts[1..])
  }

  /** A joined text consists of characters of the separator and of the parts. */
  lemma {:induction false} JoinChars(sep: string, parts: seq<string>, c: char)
    requires c in Join(sep, parts)
    ensures c in sep || exists i | 0 <= i < |parts| :: c in parts[i]
    decreases |parts|
  {
    if |parts| > 1 {
      var rest := Join(sep, parts[1..]);
      assert Join(sep, parts) == parts[0] + sep + rest;
      if c !in parts[0] && c !in sep {
        JoinChars(sep, parts[1..], c);
        var i :| 0 <= i < |parts[1..]| && c in parts[1..][i];
        assert parts[1..][i] == parts[i + 1];
      }
    }
  }

  /**
    Python's `re.split("[" + class + "]+", s)`: the pieces between maximal
    runs of separator characters, with an empty piece before a leading run
    and after a trailing one.
  */
  function Split(s: string, sep: char -> bool): (r: seq<string>)
    ensures |r| >= 1
    ensures forall w | w in r :: forall c | c in w :: !sep(c)
    decreases |s|
  {
    var n := SpanUntil(s, 0, sep);
    if n == |s| then [s]
    else
      var m := n + Span(s, n, sep);
      [s[..n]] + Split(s[m..], sep)
  }
}
