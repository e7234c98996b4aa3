/** The few operations on Rust string slices (`&str`) that the server relies on,
    stated over `string` (a sequence of Unicode scalar values). */
module Text {
  import opened Wrappers

  /** Rust's `char::is_whitespace`: the Unicode `White_Space` property. */
  predicate IsWhitespace(c: char) {
    c == ' ' || ('\t' <= c <= '\r') || c == '\U{0085}' || c == '\U{00A0}' || c == '\U{1680}'
    || ('\U{2000}' <= c <= '\U{200A}') || c == '\U{2028}' || c == '\U{2029}'
    || c == '\U{202F}' || c == '\U{205F}' || c == '\U{3000}'
  }

  predicate AllWhitespace(s: string) {
    forall k :: 0 <= k < |s| ==> IsWhitespace(s[k])
  }

  /** `s.starts_with(p)`. */
  predicate StartsWith(s: string, p: string) {
    |p| <= |s| && s[..|p|] == p
  }

  /** `t` occurs in `s` at position `i`. */
  predicate IsAt(s: string, t: string, i: int) {
    0 <= i && i + |t| <= |s| && s[i..i + |t|] == t
  }

  /** `s.find(t)`: the position of the first occurrence of `t` in `s`. */
  function Find(s: string, t: string): (r: Option<nat>)
    ensures r.Some? ==> IsAt(s, t, r.value) && forall j :: 0 <= j < r.value ==> !IsAt(s, t, j)
    ensures r.None? ==> forall j :: 0 <= j ==> !IsAt(s, t, j)
  {
    FindFrom(s, t, 0)
  }

  function FindFrom(s: string, t: string, i: nat): (r: Option<nat>)
    requires i <= |s|
    ensures r.Some? ==> i <= r.value && IsAt(s, t, r.value)
    ensures r.Some? ==> forall j :: i <= j < r.value ==> !IsAt(s, t, j)
    ensures r.None? ==> forall j :: i <= j ==> !IsAt(s, t, j)
    decreases |s| - i
  {
    if IsAt(s, t, i) then Some(i)
    else if i + |t| >= |s| then None
    else FindFrom(s, t, i + 1)
  }

  /** `s.contains(t)`, written in the source as `s.find(t).is_some()`. */
  predicate Contains(s: string, t: string) {
    Find(s, t).Some?
  }

  /** An occurrence that no earlier occurrence precedes is what `Find` returns. */
  lemma FindIs(s: string, t: string, i: nat)
    requires IsAt(s, t, i)
    requires forall j :: 0 <= j < i ==> !IsAt(s, t, j)
    ensures Find(s, t) == Some(i)
  {
  }

  /** Text whose first part lacks the pattern's first character holds the
      pattern only if its second part does. */
  lemma NotContainedAfter(head: string, tail: string, t: string)
    requires |t| > 0 && t[0] !in head && !Contains(tail, t)
    ensures !Contains(head + tail, t)
  {
    var s := head + tail;
    forall j | 0 <= j ensures !IsAt(s, t, j) {
      if j + |t| <= |s| {
        if j < |head| {
          assert s[j..j + |t|][0] == head[j];
        } else {
          assert s[j..j + |t|] == tail[j - |head|..j - |head| + |t|];
          assert !IsAt(tail, t, j - |head|);
        }
      }
    }
  }

  /** Whitespace holds no character that is not whitespace. */
  lemma WhitespaceLacks(s: string, c: char)
    requires AllWhitespace(s) && !IsWhitespace(c)
    ensures c !in s
  {
  }

  /** For a one-character pattern, an occurrence is that character. */
  lemma IsAtChar(s: string, c: char, i: int)
    ensures IsAt(s, [c], i) <==> 0 <= i < |s| && s[i] == c
  {
    if 0 <= i < |s| {
      assert s[i..i + 1] == [s[i]];
    }
  }

  /** The first occurrence of a character: it is there, and not before. */
  lemma FindChar(s: string, c: char, i: nat)
    requires Find(s, [c]) == Some(i)
    ensures i < |s| && s[i] == c && c !in s[..i]
  {
    IsAtChar(s, c, i);
    forall k | 0 <= k < i ensures s[k] != c { IsAtChar(s, c, k); }
  }

  /** `s.split_once(sep)`: the text before and after the first `sep`. */
  function SplitOnce(s: string, sep: string): (r: Option<(string, string)>)
    ensures r.Some? ==> s == r.value.0 + sep + r.value.1 && Find(s, sep) == Some(|r.value.0|)
    ensures r.None? ==> Find(s, sep) == None
  {
    match Find(s, sep)
    case None => None
    case Some(i) =>
      assert s == s[..i] + s[i..i + |sep|] + s[i + |sep|..];
      Some((s[..i], s[i + |sep|..]))
  }

  /** `s.split(c)` collected into a vector: the pieces between the occurrences of `c`. */
  function Split(s: string, c: char): (r: seq<string>)
    ensures |r| >= 1
    ensures forall k :: 0 <= k < |r| ==> c !in r[k]
    decreases |s|
  {
    match SplitOnce(s, [c])
    case None =>
      assert forall k :: 0 <= k < |s| ==> s[k] != c by {
        forall k | 0 <= k < |s| ensures s[k] != c { IsAtChar(s, c, k); }
      }
      [s]
    case Some((left, rest)) =>
      assert forall k :: 0 <= k < |left| ==> left[k] != c by {
        forall k | 0 <= k < |left| ensures left[k] != c {
          IsAtChar(s, c, k);
          assert s[k] == left[k];
        }
      }
      [left] + Split(rest, c)
  }

  /** The pieces joined back with `c` between consecutive ones. */
  function Join(parts: seq<string>, c: char): string {
    if |parts| == 0 then ""
    else if |parts| == 1 then parts[0]
    else parts[0] + [c] + Join(parts[1..], c)
  }

  /** Joining the pieces of a split gives back the text. */
  lemma {:induction false} JoinSplit(s: string, c: char)
    ensures Join(Split(s, c), c) == s
    decreases |s|
  {
    match SplitOnce(s, [c])
    case None =>
    case Some((left, rest)) =>
      JoinSplit(rest, c);
      assert Split(s, c) == [left] + Split(rest, c);
      assert (([left] + Split(rest, c))[1..]) == Split(rest, c);
  }

  /** Splitting undoes joining when no piece contains the separator. */
  lemma {:induction false} SplitJoin(parts: seq<string>, c: char)
    requires |parts| >= 1
    requires forall k :: 0 <= k < |parts| ==> c !in parts[k]
    ensures Split(Join(parts, c), c) == parts
    decreases |parts|
  {
    var s := Join(parts, c);
    if |parts| == 1 {
      forall j | 0 <= j ensures !IsAt(s, [c], j) { IsAtChar(s, c, j); }
    } else {
      var rest := Join(parts[1..], c);
      assert s == parts[0] + [c] + rest;
      IsAtChar(s, c, |parts[0]|);
      forall j | 0 <= j < |parts[0]| ensures !IsAt(s, [c], j) {
        IsAtChar(s, c, j);
        assert s[j] == parts[0][j];
      }
      FindIs(s, [c], |parts[0]|);
      assert s[|parts[0]| + 1..] == rest;
      SplitJoin(parts[1..], c);
    }
  }

  /** `s.trim_start()`. */
  function TrimStart(s: string): (r: string)
    ensures |r| <= |s| && r == s[|s| - |r|..]
    ensures AllWhitespace(s[..|s| - |r|])
    ensures r == [] || !IsWhitespace(r[0])
  {
    if |s| > 0 && IsWhitespace(s[0]) then
      var r := TrimStart(s[1..]);
      assert s[..|s| - |r|] == [s[0]] + s[1..][..|s| - 1 - |r|];
      r
    else s
  }

  /** `s.trim_end()`. */
  function TrimEnd(s: string): (r: string)
    ensures |r| <= |s| && r == s[..|r|]
    ensures AllWhitespace(s[|r|..])
    ensures r == [] || !IsWhitespace(r[|r| - 1])
  {
    if |s| > 0 && IsWhitespace(s[|s| - 1]) then
      var r := TrimEnd(s[..|s| - 1]);
      assert s[|r|..] == s[..|s| - 1][|r|..] + [s[|s| - 1]];
      r
    else s
  }

  /** `s` is `r` starting at offset `a`, with only whitespace around it. */
  predicate PaddedAt(s: string, a: int, r: string) {
    && 0 <= a && a + |r| <= |s| && r == s[a..a + |r|]
    && AllWhitespace(s[..a]) && AllWhitespace(s[a + |r|..])
  }

  /** `s.trim()`: `s` without its leading and trailing whitespace. */
  function Trim(s: string): (r: string)
    ensures |r| <= |s|
    ensures r == [] || (!IsWhitespace(r[0]) && !IsWhitespace(r[|r| - 1]))
    ensures r == [] <==> AllWhitespace(s)
    ensures exists a :: PaddedAt(s, a, r)
  {
    var t := TrimStart(s);
    var r := TrimEnd(t);
    TrimParts(s, t, r);
    r
  }

  /** What trimming both ends keeps, from what each end's trimming keeps. */
  lemma TrimParts(s: string, t: string, r: string)
    requires |t| <= |s| && t == s[|s| - |t|..] && AllWhitespace(s[..|s| - |t|])
    requires t == [] || !IsWhitespace(t[0])
    requires |r| <= |t| && r == t[..|r|] && AllWhitespace(t[|r|..])
    requires r == [] || !IsWhitespace(r[|r| - 1])
    ensures |r| <= |s|
    ensures r == [] || (!IsWhitespace(r[0]) && !IsWhitespace(r[|r| - 1]))
    ensures r == [] <==> AllWhitespace(s)
    ensures exists a :: PaddedAt(s, a, r)
  {
    var a := |s| - |t|;
    SuffixSlices(s, a, |r|);
    if r == [] {
      assert t[|r|..] == t;
      assert s == s[..a];
    } else {
      assert r[0] == t[0];
      assert !AllWhitespace(s) by { assert s[a] == t[0]; }
    }
    assert PaddedAt(s, a, r);
  }

  /** Text is its three slices at two cut points. */
  lemma ThreeSlices(s: string, i: nat, j: nat)
    requires i <= j <= |s|
    ensures s == s[..i] + s[i..j] + s[j..]
  {
  }

  /** Slices of a suffix are slices of the whole. */
  lemma SuffixSlices(s: string, i: nat, n: nat)
    requires i + n <= |s|
    ensures s[i..][..n] == s[i..i + n] && s[i..][n..] == s[i + n..]
  {
  }

  /** Whitespace around text that has none at its ends is what trimming
      removes. */
  lemma TrimUnique(pad: string, s: string, trail: string)
    requires AllWhitespace(pad) && AllWhitespace(trail)
    requires s != [] && !IsWhitespace(s[0]) && !IsWhitespace(s[|s| - 1])
    ensures Trim(pad + s + trail) == s
  {
    TrimStartPad(pad, s + trail);
    assert pad + s + trail == pad + (s + trail);
    assert TrimStart(s + trail) == s + trail;
    TrimEndPad(s, trail);
    assert TrimEnd(s) == s;
  }

  lemma {:induction false} TrimStartPad(pad: string, s: string)
    requires AllWhitespace(pad)
    ensures TrimStart(pad + s) == TrimStart(s)
    decreases |pad|
  {
    if pad == [] {
      assert pad + s == s;
    } else {
      assert (pad + s)[1..] == pad[1..] + s;
      TrimStartPad(pad[1..], s);
    }
  }

  lemma {:induction false} TrimEndPad(s: string, trail: string)
    requires AllWhitespace(trail)
    ensures TrimEnd(s + trail) == TrimEnd(s)
    decreases |trail|
  {
    if trail == [] {
      assert s + trail == s;
    } else {
      var last := |trail| - 1;
      assert (s + trail)[..|s + trail| - 1] == s + trail[..last];
      TrimEndPad(s, trail[..last]);
    }
  }

  /** Trimming text that starts with a non-whitespace character keeps a
      non-empty prefix of it, and only whitespace follows that prefix. */
  lemma TrimLeading(s: string)
    requires |s| > 0 && !IsWhitespace(s[0])
    ensures |Trim(s)| > 0 && Trim(s) == s[..|Trim(s)|] && AllWhitespace(s[|Trim(s)|..])
  {
    assert TrimStart(s) == s;
  }

  /** Splitting at a character that first occurs after `a`. */
  lemma SplitOnceFirst(a: string, c: char, b: string)
    requires c !in a
    ensures SplitOnce(a + [c] + b, [c]) == Some((a, b))
  {
    var s := a + [c] + b;
    forall j | 0 <= j < |a| ensures !IsAt(s, [c], j) {
      IsAtChar(s, c, j);
      assert s[j] == a[j];
    }
    IsAtChar(s, c, |a|);
    FindIs(s, [c], |a|);
    assert s[|a| + 1..] == b;
  }

  /** The text before the first occurrence of a character does not hold it. */
  lemma SplitOnceLeft(s: string, c: char)
    requires SplitOnce(s, [c]).Some?
    ensures c !in SplitOnce(s, [c]).value.0
  {
    var left := SplitOnce(s, [c]).value.0;
    forall k | 0 <= k < |left| ensures left[k] != c {
      IsAtChar(s, c, k);
      assert s[k] == left[k];
    }
  }

  /** Splitting `a`, separator, `b` gives the pieces of `a` followed by those
      of `b`. */
  lemma {:induction false} SplitConcat(a: string, b: string, c: char)
    ensures Split(a + [c] + b, c) == Split(a, c) + Split(b, c)
    decreases |a|
  {
    match SplitOnce(a, [c])
    case None =>
      forall k | 0 <= k < |a| ensures a[k] != c { IsAtChar(a, c, k); }
      SplitOnceFirst(a, c, b);
    case Some((a1, a2)) =>
      SplitOnceLeft(a, c);
      assert a + [c] + b == a1 + [c] + (a2 + [c] + b);
      SplitOnceFirst(a1, c, a2 + [c] + b);
      SplitConcat(a2, b, c);
  }

  /** A character other than the separator extends the last piece. */
  lemma {:induction false} SplitAppendOther(a: string, x: char, c: char)
    requires x != c
    ensures var p := Split(a, c);
      Split(a + [x], c) == p[..|p| - 1] + [p[|p| - 1] + [x]]
    decreases |a|
  {
    match SplitOnce(a, [c])
    case None =>
      forall k | 0 <= k < |a| ensures a[k] != c { IsAtChar(a, c, k); }
      SplitOnceAbsent(a + [x], c);
    case Some((a1, a2)) =>
      SplitOnceLeft(a, c);
      assert a + [x] == a1 + [c] + (a2 + [x]);
      SplitOnceFirst(a1, c, a2 + [x]);
      SplitAppendOther(a2, x, c);
  }

  /** Splitting at a character that does not occur. */
  lemma SplitOnceAbsent(s: string, c: char)
    requires c !in s
    ensures SplitOnce(s, [c]) == None
  {
    forall j | 0 <= j ensures !IsAt(s, [c], j) { IsAtChar(s, c, j); }
  }

  /** A character in none of the pieces and other than the separator is not
      in their join. */
  lemma JoinHasNo(parts: seq<string>, c: char, d: char)
    requires c != d && forall k :: 0 <= k < |parts| ==> c !in parts[k]
    ensures c !in Join(parts, d)
  {
    if |parts| > 1 {
      JoinHasNo(parts[1..], c, d);
    }
  }
}
