/** String primitives of Rust's `str` that the tooling and the macro rely on:
    whitespace trimming, substring search, suffix trimming and character mapping.
    Strings are sequences of Unicode scalar values. */
module Text {
  import opened Wrappers

  predicate StartsWith(s: string, prefix: string) {
    |prefix| <= |s| && s[..|prefix|] == prefix
  }

  predicate EndsWith(s: string, suffix: string) {
    |suffix| <= |s| && s[|s| - |suffix|..] == suffix
  }

  /** Rust's `char::is_whitespace`: the Unicode White_Space property. */
  predicate IsWhitespace(c: char) {
    var n := c as int;
    || (0x09 <= n <= 0x0D) || n == 0x20 || n == 0x85 || n == 0xA0 || n == 0x1680
    || (0x2000 <= n <= 0x200A) || n == 0x2028 || n == 0x2029 || n == 0x202F
    || n == 0x205F || n == 0x3000
  }

  predicate AllWhitespace(s: string) {
    forall i :: 0 <= i < |s| ==> IsWhitespace(s[i])
  }

  /** Neither end of `s` is whitespace (vacuously true of the empty string). */
  predicate Unpadded(s: string) {
    s == [] || (!IsWhitespace(s[0]) && !IsWhitespace(s[|s| - 1]))
  }

  /** Rust's `str::trim_start`. */
  function TrimStart(s: string): (r: string)
    ensures |r| <= |s| && r == s[|s| - |r|..]
    ensures AllWhitespace(s[..|s| - |r|])
    ensures r == [] || !IsWhitespace(r[0])
  {
    if s != [] && IsWhitespace(s[0]) then
      var r := TrimStart(s[1..]);
      assert s[1..][|s| - 1 - |r|..] == s[|s| - |r|..];
      assert forall i :: 1 <= i < |s| - |r| ==> s[i] == s[1..][..|s| - 1 - |r|][i - 1];
      r
    else s
  }

  /** Rust's `str::trim_end`. */
  function TrimEnd(s: string): (r: string)
    ensures |r| <= |s| && r == s[..|r|]
    ensures AllWhitespace(s[|r|..])
    ensures r == [] || !IsWhitespace(r[|r| - 1])
  {
    if s != [] && IsWhitespace(s[|s| - 1]) then TrimEnd(s[..|s| - 1]) else s
  }

  /** Rust's `str::trim`: drops leading and trailing whitespace only. */
  function Trim(s: string): (r: string)
    ensures Unpadded(r)
    ensures |r| <= |s|
  {
    TrimEnd(TrimStart(s))
  }

  lemma {:induction false} TrimStartOfPadded(a: string, x: string)
    requires AllWhitespace(a)
    requires x == [] || !IsWhitespace(x[0])
    ensures TrimStart(a + x) == x
    decreases |a|
  {
    if a != [] {
      assert (a + x)[0] == a[0];
      assert (a + x)[1..] == a[1..] + x;
      TrimStartOfPadded(a[1..], x);
    } else {
      assert a + x == x;
    }
  }

  lemma {:induction false} TrimEndOfPadded(x: string, b: string)
    requires AllWhitespace(b)
    requires x == [] || !IsWhitespace(x[|x| - 1])
    ensures TrimEnd(x + b) == x
    decreases |b|
  {
    var s := x + b;
    if b != [] {
      assert s[|s| - 1] == b[|b| - 1];
      assert s[..|s| - 1] == x + b[..|b| - 1];
      TrimEndOfPadded(x, b[..|b| - 1]);
    } else {
      assert s == x;
    }
  }

  /** `Trim` removes exactly the whitespace padding around an unpadded text. */
  lemma {:induction false} TrimOfPadded(a: string, x: string, b: string)
    requires AllWhitespace(a) && AllWhitespace(b) && Unpadded(x)
    ensures Trim(a + x + b) == x
  {
    if x == [] {
      assert a + x + b == a + b;
      assert AllWhitespace(a + b);
      TrimStartOfPadded(a + b, []);
      assert a + b + [] == a + b;
    } else {
      assert a + x + b == a + (x + b);
      TrimStartOfPadded(a, x + b);
      TrimEndOfPadded(x, b);
    }
  }

  /** `pat` occurs in `s` starting at position `i`. */
  predicate OccursAt(s: string, pat: string, i: int) {
    0 <= i && i + |pat| <= |s| && s[i..i + |pat|] == pat
  }

  function IndexFrom(s: string, pat: string, from: nat): (r: Option<nat>)
    requires from <= |s|
    ensures r.Some? ==> from <= r.value && OccursAt(s, pat, r.value)
    ensures r.Some? ==> forall j :: from <= j < r.value ==> !OccursAt(s, pat, j)
    ensures r.None? ==> forall j :: from <= j ==> !OccursAt(s, pat, j)
    decreases |s| - from
  {
    if from + |pat| > |s| then None
    else if s[from..from + |pat|] == pat then Some(from)
    else IndexFrom(s, pat, from + 1)
  }

  /** Position of the first occurrence of `pat` in `s` (Rust's `str::find`). */
  function IndexOf(s: string, pat: string): (r: Option<nat>)
    ensures r.Some? ==> OccursAt(s, pat, r.value)
    ensures r.Some? ==> forall j :: 0 <= j < r.value ==> !OccursAt(s, pat, j)
    ensures r.None? ==> forall j :: !OccursAt(s, pat, j)
  {
    IndexFrom(s, pat, 0)
  }

  predicate Contains(s: string, pat: string) {
    IndexOf(s, pat).Some?
  }

  /** Position of the last occurrence of `c` in `s` (Rust's `str::rfind` on a char). */
  function LastIndexOf(s: string, c: char): (r: Option<nat>)
    ensures r.None? <==> c !in s
    ensures r.Some? ==> r.value < |s| && s[r.value] == c
    ensures r.Some? ==> forall j :: r.value < j < |s| ==> s[j] != c
  {
    if s == [] then None
    else if s[|s| - 1] == c then Some(|s| - 1)
    else
      var r := LastIndexOf(s[..|s| - 1], c);
      assert s == s[..|s| - 1] + [s[|s| - 1]];
      r
  }

  /** The last `c` of `head + [c] + tail` is the one after `head` when `tail`
      has none. */
  lemma LastIndexOfJoin(head: string, c: char, tail: string)
    requires c !in tail
    ensures LastIndexOf(head + [c] + tail, c) == Some(|head|)
  {
    OnlyCharAt(head, c, tail);
    var i := LastIndexOf(head + [c] + tail, c).value;
    assert i >= |head|;
    assert i <= |head|;
  }

  lemma OnlyCharAt(head: string, c: char, tail: string)
    requires c !in tail
    ensures (head + [c] + tail)[|head|] == c
    ensures forall k :: |head| < k < |head + [c] + tail| ==> (head + [c] + tail)[k] != c
  {
    var s := head + [c] + tail;
    forall k | |head| < k < |s| ensures s[k] != c {
      assert s[k] == tail[k - |head| - 1];
    }
  }

  /** `n` copies of `pat`, one after the other. */
  function Repeat(pat: string, n: nat): string {
    if n == 0 then [] else Repeat(pat, n - 1) + pat
  }

  /** Rust's `str::trim_end_matches` with a string pattern: strips trailing
      copies of `pat` for as long as the text ends with one. */
  function TrimEndMatches(s: string, pat: string): (r: string)
    requires pat != []
    ensures |r| <= |s| && r == s[..|r|]
    ensures !EndsWith(r, pat)
    decreases |s|
  {
    if EndsWith(s, pat) then TrimEndMatches(s[..|s| - |pat|], pat) else s
  }

  /** One appended copy of `pat` is always trimmed away. */
  lemma TrimEndMatchesStep(t: string, pat: string)
    requires pat != []
    ensures TrimEndMatches(t + pat, pat) == TrimEndMatches(t, pat)
  {
    var s := t + pat;
    assert s[|s| - |pat|..] == pat;
    assert s[..|s| - |pat|] == t;
  }

  /** Only trailing copies of `pat` are removed: a text that does not end with
      `pat` comes back from any number of appended copies. */
  lemma {:induction false} TrimEndMatchesOfRepeat(r: string, pat: string, n: nat)
    requires pat != [] && !EndsWith(r, pat)
    ensures TrimEndMatches(r + Repeat(pat, n), pat) == r
  {
    if n == 0 {
      assert r + [] == r;
    } else {
      var t := r + Repeat(pat, n - 1);
      calc {
        TrimEndMatches(r + Repeat(pat, n), pat);
        { assert r + Repeat(pat, n) == t + pat; }
        TrimEndMatches(t + pat, pat);
        { TrimEndMatchesStep(t, pat); }
        TrimEndMatches(t, pat);
        { TrimEndMatchesOfRepeat(r, pat, n - 1); }
        r;
      }
    }
  }

  /** Rust's `str::replace` with a single-character pattern and replacement. */
  function ReplaceChar(s: string, from: char, to: char): (r: string)
    ensures |r| == |s|
    ensures forall i :: 0 <= i < |s| ==> r[i] == (if s[i] == from then to else s[i])
  {
    seq(|s|, i requires 0 <= i < |s| => if s[i] == from then to else s[i])
  }

  function AsciiUpperChar(c: char): char {
    if 'a' <= c <= 'z' then (c as int - 32) as char else c
  }

  /** Upper-casing restricted to ASCII letters; every other character is kept. */
  function AsciiUpper(s: string): (r: string)
    ensures |r| == |s|
    ensures forall i :: 0 <= i < |s| ==> r[i] == AsciiUpperChar(s[i])
  {
    seq(|s|, i requires 0 <= i < |s| => AsciiUpperChar(s[i]))
  }

  /** Number of bytes of `s` in UTF-8 (Rust's `str::len`). */
  function Utf8Length(s: string): (n: nat)
    ensures |s| <= n <= 4 * |s|
  {
    if s == [] then 0
    else
      var c := s[0] as int;
      (if c < 0x80 then 1 else if c < 0x800 then 2 else if c < 0x10000 then 3 else 4)
      + Utf8Length(s[1..])
  }
}
