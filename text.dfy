/** The few Python `str` operations the core relies on: `str.isspace`,
    `str.split()` with no separator, `str.replace("\x00", "")`, `str.strip()`
    and `str.startswith`. */
module Text {

  /** Python's `str.isspace` for a single character. */
  predicate IsSpace(c: char) {
    || c == ' '
    || ('\t' <= c <= '\r')
    || ('\U{1c}' <= c <= '\U{1f}')
    || c == '\U{85}' || c == '\U{a0}' || c == '\U{1680}'
    || ('\U{2000}' <= c <= '\U{200a}')
    || c == '\U{2028}' || c == '\U{2029}' || c == '\U{202f}' || c == '\U{205f}' || c == '\U{3000}'
  }

  /** A token of `str.split()`: non-empty and free of whitespace. */
  predicate IsToken(t: string) {
    t != [] && forall i | 0 <= i < |t| :: !IsSpace(t[i])
  }

  predicate NoSpace(s: string) {
    forall i | 0 <= i < |s| :: !IsSpace(s[i])
  }

  /** The characters of `s` that are not whitespace, in order. */
  function NonSpace(s: string): string {
    if s == [] then [] else (if IsSpace(s[0]) then [] else [s[0]]) + NonSpace(s[1..])
  }

  function Concat(ts: seq<string>): string {
    if ts == [] then [] else ts[0] + Concat(ts[1..])
  }

  /** `" ".join(ts)`. */
  function JoinSpaced(ts: seq<string>): string {
    if ts == [] then [] else if |ts| == 1 then ts[0] else ts[0] + " " + JoinSpaced(ts[1..])
  }

  /** `str.split()` continued from a partly read token `cur`. */
  function SplitFrom(s: string, cur: string): (r: seq<string>)
    requires NoSpace(cur)
    ensures forall i | 0 <= i < |r| :: IsToken(r[i])
    decreases |s|
  {
    if s == [] then (if cur == [] then [] else [cur])
    else if IsSpace(s[0]) then (if cur == [] then [] else [cur]) + SplitFrom(s[1..], [])
    else SplitFrom(s[1..], cur + [s[0]])
  }

  /** `s.split()`: the maximal runs of non-whitespace characters of `s`. */
  function Split(s: string): (r: seq<string>)
    ensures forall i | 0 <= i < |r| :: IsToken(r[i])
  {
    SplitFrom(s, [])
  }

  lemma {:induction false} SplitFromKeepsText(s: string, cur: string)
    requires NoSpace(cur)
    ensures Concat(SplitFrom(s, cur)) == cur + NonSpace(s)
    decreases |s|
  {
    if s == [] {
    } else if IsSpace(s[0]) {
      SplitFromKeepsText(s[1..], []);
      ConcatAppend(if cur == [] then [] else [cur], SplitFrom(s[1..], []));
    } else {
      SplitFromKeepsText(s[1..], cur + [s[0]]);
    }
  }

  /** Splitting loses nothing but whitespace: the tokens, concatenated, are
      the non-whitespace characters of the input. */
  lemma SplitKeepsText(s: string)
    ensures Concat(Split(s)) == NonSpace(s)
  {
    SplitFromKeepsText(s, []);
  }

  lemma {:induction false} ConcatAppend(a: seq<string>, b: seq<string>)
    ensures Concat(a + b) == Concat(a) + Concat(b)
    decreases |a|
  {
    if a == [] {
      assert a + b == b;
    } else {
      assert (a + b)[1..] == a[1..] + b;
      ConcatAppend(a[1..], b);
    }
  }

  lemma {:induction false} SplitFromToken(t: string, s: string, cur: string)
    requires NoSpace(cur) && NoSpace(t)
    ensures SplitFrom(t + s, cur) == SplitFrom(s, cur + t)
    decreases |t|
  {
    if t == [] {
      assert t + s == s;
      assert cur + t == cur;
    } else {
      assert (t + s)[0] == t[0];
      assert (t + s)[1..] == t[1..] + s;
      assert cur + t == (cur + [t[0]]) + t[1..];
      SplitFromToken(t[1..], s, cur + [t[0]]);
    }
  }

  /** `" ".join(ts).split() == ts` for whitespace-free, non-empty tokens. */
  lemma {:induction false} SplitJoinRoundTrip(ts: seq<string>)
    requires forall i | 0 <= i < |ts| :: IsToken(ts[i])
    ensures Split(JoinSpaced(ts)) == ts
    decreases |ts|
  {
    if ts == [] {
    } else if |ts| == 1 {
      SplitFromToken(ts[0], [], []);
      assert ts[0] + [] == ts[0] && [] + ts[0] == ts[0];
      assert SplitFrom([], ts[0]) == [ts[0]];
      assert ts == [ts[0]];
    } else {
      var rest := JoinSpaced(ts[1..]);
      assert JoinSpaced(ts) == ts[0] + (" " + rest);
      SplitFromToken(ts[0], " " + rest, []);
      assert [] + ts[0] == ts[0];
      assert (" " + rest)[1..] == rest;
      SplitJoinRoundTrip(ts[1..]);
      assert ts == [ts[0]] + ts[1..];
    }
  }

  /** `s.replace("\x00", "")`. */
  function RemoveNul(s: string): (r: string)
    ensures forall i | 0 <= i < |r| :: r[i] != '\0'
    ensures |r| <= |s|
  {
    if s == [] then [] else (if s[0] == '\0' then [] else [s[0]]) + RemoveNul(s[1..])
  }

  /** Removing NULs leaves a string untouched exactly when it has none. */
  lemma {:induction false} RemoveNulIdentity(s: string)
    ensures RemoveNul(s) == s <==> '\0' !in s
    decreases |s|
  {
    if s != [] {
      RemoveNulIdentity(s[1..]);
      if s[0] == '\0' {
        assert |RemoveNul(s)| < |s| by { assert RemoveNul(s) == RemoveNul(s[1..]); }
      } else {
        assert s == [s[0]] + s[1..];
      }
    }
  }

  /** Removal works piecewise, so NULs between two fragments vanish alike. */
  lemma {:induction false} RemoveNulAppend(a: string, b: string)
    ensures RemoveNul(a + b) == RemoveNul(a) + RemoveNul(b)
    decreases |a|
  {
    if a == [] {
      assert a + b == b;
    } else {
      assert (a + b)[0] == a[0];
      assert (a + b)[1..] == a[1..] + b;
      RemoveNulAppend(a[1..], b);
    }
  }

  /** `s.strip()`: without leading and trailing whitespace. */
  function Strip(s: string): (r: string)
    ensures |r| <= |s|
    ensures r != [] ==> !IsSpace(r[0]) && !IsSpace(r[|r| - 1])
    decreases |s|
  {
    if s == [] then []
    else if IsSpace(s[0]) then Strip(s[1..])
    else if IsSpace(s[|s| - 1]) then Strip(s[..|s| - 1])
    else s
  }

  /** `s[:n]`, which Python clamps to the string's length. */
  function Take<T>(s: seq<T>, n: nat): (r: seq<T>)
    ensures |r| == if n <= |s| then n else |s|
  {
    if n <= |s| then s[..n] else s
  }
}
