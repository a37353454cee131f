/** String helpers with the meaning of the JavaScript built-ins the pipeline relies on:
    `String.prototype.split` with a string separator, `Array.prototype.join`, `trim`,
    and `toLowerCase` (on ASCII letters only). A string is a sequence of characters and
    its length is the number of characters. */
module Text {
  import opened Wrappers

  /** The blank line that separates paragraphs. */
  const ParaSep: string := "\n\n"

  /** `sep` occurs in `s` starting at index `j`. */
  predicate SepAt(s: string, sep: string, j: nat) {
    j + |sep| <= |s| && s[j..j + |sep|] == sep
  }

  /** `s.indexOf(sep, from)`: the leftmost occurrence of `sep` at or after `from`. */
  function IndexOf(s: string, sep: string, from: nat): (r: Option<nat>)
    requires |sep| > 0 && from <= |s|
    ensures r.Some? ==> from <= r.value && SepAt(s, sep, r.value)
    ensures r.Some? ==> forall j: nat :: from <= j < r.value ==> !SepAt(s, sep, j)
    ensures r.None? ==> forall j: nat :: from <= j ==> !SepAt(s, sep, j)
    decreases |s| - from
  {
    if from + |sep| > |s| then None
    else if s[from..from + |sep|] == sep then Some(from)
    else IndexOf(s, sep, from + 1)
  }

  /** `s.split(sep)`: the pieces between the leftmost, non-overlapping occurrences of `sep`.
      Like JavaScript, the empty string splits into one empty piece. */
  function SplitOn(s: string, sep: string): (parts: seq<string>)
    requires |sep| > 0
    ensures |parts| >= 1
    decreases |s|
  {
    match IndexOf(s, sep, 0)
    case None => [s]
    case Some(k) => [s[..k]] + SplitOn(s[k + |sep|..], sep)
  }

  /** `parts.join(sep)`: the parts in order with one separator between neighbours, so the
      result starts with the first part and ends with the last. */
  function Join(parts: seq<string>, sep: string): (r: string)
    ensures |parts| == 0 ==> r == ""
    ensures |parts| > 0 ==> parts[0] <= r
  {
    if |parts| == 0 then ""
    else if |parts| == 1 then parts[0]
    else parts[0] + sep + Join(parts[1..], sep)
  }

  /** All `parts` glued together in order (`parts.join('')`). */
  function Concat(parts: seq<string>): string
  {
    if parts == [] then "" else parts[0] + Concat(parts[1..])
  }

  /** Joining the pieces of a split with the same separator gives the string back. */
  lemma {:induction false} JoinSplit(s: string, sep: string)
    requires |sep| > 0
    ensures Join(SplitOn(s, sep), sep) == s
    decreases |s|
  {
    match IndexOf(s, sep, 0)
    case None =>
    case Some(k) =>
      var rest := s[k + |sep|..];
      var tail := SplitOn(rest, sep);
      JoinSplit(rest, sep);
      assert SplitOn(s, sep) == [s[..k]] + tail;
      assert ([s[..k]] + tail)[1..] == tail;
      assert s == s[..k] + sep + rest;
  }

  /** Appending one part to a non-empty list of parts adds one separator. */
  lemma {:induction false} JoinSnoc(parts: seq<string>, p: string, sep: string)
    requires |parts| > 0
    ensures Join(parts + [p], sep) == Join(parts, sep) + sep + p
    decreases |parts|
  {
    var q := parts + [p];
    if |parts| == 1 {
      assert q[1..] == [p];
    } else {
      assert q[1..] == parts[1..] + [p];
      JoinSnoc(parts[1..], p, sep);
      JoinCons(q, sep, "");
      JoinCons(parts, sep, sep + p);
    }
  }

  /** A join of two or more parts, followed by `t`, is the first part, a separator, and
      the join of the others followed by `t`. */
  lemma JoinCons(parts: seq<string>, sep: string, t: string)
    requires |parts| >= 2
    ensures Join(parts, sep) + t == parts[0] + (sep + (Join(parts[1..], sep) + t))
  {
  }

  /** No occurrence of `sep` starts inside `a`. */
  predicate Free(a: string, sep: string) {
    forall j: nat :: j < |a| ==> !SepAt(a, sep, j)
  }

  /** No occurrence of `sep` starts inside `a`, not even one that runs on into a `sep`
      written right after `a`. */
  predicate EndsCleanly(a: string, sep: string) {
    forall j: nat :: j < |a| ==> !SepAt(a + sep, sep, j)
  }

  /** What a list of parts needs for splitting its join to give it back: no part contains the
      separator, and no part but the last ends with the start of one. */
  predicate Separable(parts: seq<string>, sep: string) {
    && (forall i :: 0 <= i < |parts| ==> Free(parts[i], sep))
    && (forall i :: 0 <= i < |parts| - 1 ==> EndsCleanly(parts[i], sep))
  }

  /** An occurrence that lies wholly inside a prefix is an occurrence in the whole string. */
  lemma SepAtPrefix(s: string, pre: string, sep: string, j: nat)
    requires |pre| <= |s| && pre == s[..|pre|] && j + |sep| <= |pre|
    ensures SepAt(s, sep, j) == SepAt(pre, sep, j)
  {
    assert s[j..j + |sep|] == pre[j..j + |sep|];
  }

  /** The pieces of any split are separable. */
  lemma {:induction false} SplitSeparable(s: string, sep: string)
    requires |sep| > 0
    ensures Separable(SplitOn(s, sep), sep)
    decreases |s|
  {
    match IndexOf(s, sep, 0)
    case None =>
      assert SplitOn(s, sep) == [s];
    case Some(k) =>
      var rest := s[k + |sep|..];
      SplitSeparable(rest, sep);
      FirstPieceClean(s, sep, k);
      SeparableCons(s[..k], SplitOn(rest, sep), sep);
      assert SplitOn(s, sep) == [s[..k]] + SplitOn(rest, sep);
  }

  /** The piece before the leftmost occurrence of `sep` holds no occurrence, not even one
      that runs on into the separator after it. */
  lemma FirstPieceClean(s: string, sep: string, k: nat)
    requires |sep| > 0 && IndexOf(s, sep, 0) == Some(k)
    ensures Free(s[..k], sep) && EndsCleanly(s[..k], sep)
  {
    var a := s[..k];
    assert a + sep == s[..k + |sep|];
    forall j: nat | j < |a| ensures !SepAt(a, sep, j) && !SepAt(a + sep, sep, j) {
      if j + |sep| <= |a| {
        SepAtPrefix(s, a, sep, j);
      }
      SepAtPrefix(s, a + sep, sep, j);
    }
  }

  /** A clean first part in front of separable parts keeps them separable. */
  lemma SeparableCons(a: string, tail: seq<string>, sep: string)
    requires Free(a, sep) && EndsCleanly(a, sep) && Separable(tail, sep)
    ensures Separable([a] + tail, sep)
  {
    var parts := [a] + tail;
    forall i | 0 <= i < |parts| ensures Free(parts[i], sep) {
      if i > 0 {
        assert parts[i] == tail[i - 1];
      }
    }
    forall i | 0 <= i < |parts| - 1 ensures EndsCleanly(parts[i], sep) {
      if i > 0 {
        assert parts[i] == tail[i - 1];
      }
    }
  }

  /** Splitting the join of separable parts gives the parts back. */
  lemma {:induction false} SplitJoin(parts: seq<string>, sep: string)
    requires |sep| > 0 && |parts| >= 1 && Separable(parts, sep)
    ensures SplitOn(Join(parts, sep), sep) == parts
    decreases |parts|
  {
    var a := parts[0];
    if |parts| == 1 {
      assert Free(a, sep);
      assert IndexOf(a, sep, 0).None?;
    } else {
      var tail := parts[1..];
      var t := Join(tail, sep);
      var s := a + sep + t;
      assert Join(parts, sep) == s;
      assert s[|a|..|a| + |sep|] == sep;
      assert SepAt(s, sep, |a|);
      assert EndsCleanly(a, sep);
      assert (a + sep) == s[..|a| + |sep|];
      forall j: nat | j < |a| ensures !SepAt(s, sep, j) {
        SepAtPrefix(s, a + sep, sep, j);
      }
      assert IndexOf(s, sep, 0) == Some(|a|);
      assert s[..|a|] == a;
      assert s[|a| + |sep|..] == t;
      assert Separable(tail, sep) by {
        forall i | 0 <= i < |tail| ensures Free(tail[i], sep) {
          assert tail[i] == parts[i + 1];
        }
        forall i | 0 <= i < |tail| - 1 ensures EndsCleanly(tail[i], sep) {
          assert tail[i] == parts[i + 1];
        }
      }
      SplitJoin(tail, sep);
    }
  }

  /** Any contiguous run of a separable list is separable. */
  lemma SeparableSlice(parts: seq<string>, sep: string, lo: nat, hi: nat)
    requires lo <= hi <= |parts| && Separable(parts, sep)
    ensures Separable(parts[lo..hi], sep)
  {
    var sub := parts[lo..hi];
    forall i | 0 <= i < |sub| ensures Free(sub[i], sep) {
      assert sub[i] == parts[lo + i];
    }
    forall i | 0 <= i < |sub| - 1 ensures EndsCleanly(sub[i], sep) {
      assert sub[i] == parts[lo + i];
    }
  }

  /** Every character of a part of a join is a character of the join. */
  lemma {:induction false} JoinHasPartChars(parts: seq<string>, sep: string, i: nat, c: char)
    requires i < |parts| && c in parts[i]
    ensures c in Join(parts, sep)
    decreases |parts|
  {
    if |parts| > 1 {
      if i > 0 {
        JoinHasPartChars(parts[1..], sep, i - 1, c);
      }
      assert Join(parts, sep) == parts[0] + sep + Join(parts[1..], sep);
    }
  }

  /** A join is as long as its parts together plus one separator for each gap. */
  lemma {:induction false} JoinLength(parts: seq<string>, sep: string)
    requires |parts| > 0
    ensures |Join(parts, sep)| == |Concat(parts)| + (|parts| - 1) * |sep|
    decreases |parts|
  {
    if |parts| > 1 {
      JoinLength(parts[1..], sep);
      assert (|parts| - 1) * |sep| == |sep| + (|parts| - 2) * |sep|;
    }
  }

  /** Every character of a join comes from the separator or from one of the parts. */
  lemma {:induction false} JoinCharsFromParts(parts: seq<string>, sep: string, c: char)
    requires c in Join(parts, sep)
    ensures c in sep || exists i :: 0 <= i < |parts| && c in parts[i]
    decreases |parts|
  {
    if |parts| > 1 && c !in parts[0] && c !in sep {
      assert Join(parts, sep) == parts[0] + sep + Join(parts[1..], sep);
      JoinCharsFromParts(parts[1..], sep, c);
      var i :| 0 <= i < |parts| - 1 && c in parts[1..][i];
      assert parts[1..][i] == parts[i + 1];
    }
  }

  /** The characters `trim` removes: the WhiteSpace and LineTerminator code points of
      ECMA-262, the space separators of Unicode category Zs included. */
  predicate IsJsWhitespace(c: char) {
    || c == '\t' || c == '\n' || c == '\U{B}' || c == '\U{C}' || c == '\r' || c == ' '
    || c == '\U{A0}' || c == '\U{1680}' || ('\U{2000}' <= c <= '\U{200A}')
    || c == '\U{2028}' || c == '\U{2029}' || c == '\U{202F}' || c == '\U{205F}'
    || c == '\U{3000}' || c == '\U{FEFF}'
  }

  /** `s.trimStart()`: drops the leading whitespace and nothing else. */
  function TrimStart(s: string): (r: string)
    ensures |r| <= |s| && r == s[|s| - |r|..]
    ensures |r| > 0 ==> !IsJsWhitespace(r[0])
    ensures forall i :: 0 <= i < |s| - |r| ==> IsJsWhitespace(s[i])
  {
    if |s| > 0 && IsJsWhitespace(s[0]) then TrimStart(s[1..]) else s
  }

  /** `s.trimEnd()`: drops the trailing whitespace and nothing else. */
  function TrimEnd(s: string): (r: string)
    ensures |r| <= |s| && r == s[..|r|]
    ensures |r| > 0 ==> !IsJsWhitespace(r[|r| - 1])
    ensures forall i :: |r| <= i < |s| ==> IsJsWhitespace(s[i])
  {
    if |s| > 0 && IsJsWhitespace(s[|s| - 1]) then TrimEnd(s[..|s| - 1]) else s
  }

  /** The number of whitespace characters `s` starts with. */
  function Leading(s: string): (n: nat)
    ensures n <= |s|
    ensures forall i :: 0 <= i < n ==> IsJsWhitespace(s[i])
    ensures n < |s| ==> !IsJsWhitespace(s[n])
  {
    |s| - |TrimStart(s)|
  }

  /** `s.trim()`: `s` with its leading and trailing whitespace removed. It is empty exactly
      when `s` is all whitespace; otherwise it starts and ends with a character that is not
      whitespace. */
  function Trim(s: string): (r: string)
    ensures Leading(s) + |r| <= |s| && r == s[Leading(s)..][..|r|]
    ensures forall i :: Leading(s) + |r| <= i < |s| ==> IsJsWhitespace(s[i])
    ensures |r| == 0 <==> forall i :: 0 <= i < |s| ==> IsJsWhitespace(s[i])
    ensures |r| > 0 ==> !IsJsWhitespace(r[0]) && !IsJsWhitespace(r[|r| - 1])
  {
    var t := TrimStart(s);
    var r := TrimEnd(t);
    assert |r| > 0 ==> r[0] == t[0];
    TrimTail(s, t, r);
    r
  }

  /** What `trimStart` leaves and `trimEnd` then drops is whitespace. */
  lemma TrimTail(s: string, t: string, r: string)
    requires |t| <= |s| && t == s[|s| - |t|..]
    requires |r| <= |t| && forall j :: |r| <= j < |t| ==> IsJsWhitespace(t[j])
    ensures forall i :: |s| - |t| + |r| <= i < |s| ==> IsJsWhitespace(s[i])
  {
    var a := |s| - |t|;
    forall i | a + |r| <= i < |s| ensures IsJsWhitespace(s[i]) {
      assert s[i] == t[i - a];
    }
  }

  /** `c.toLowerCase()` for an ASCII upper-case letter; every other character is kept. */
  function LowerChar(c: char): char {
    if 'A' <= c <= 'Z' then (c as int + 32) as char else c
  }

  /** `s.toLowerCase()`, ASCII letters only. */
  function Lower(s: string): (r: string)
    ensures |r| == |s|
    ensures forall i :: 0 <= i < |s| ==> r[i] == LowerChar(s[i])
  {
    seq(|s|, i requires 0 <= i < |s| => LowerChar(s[i]))
  }
}
