/**
 * The Python string operations the pipeline relies on: `str.strip()`, `str.lower()`,
 * `str.split(sep)`, `str.replace(a, b)` for single characters and the `in` test on substrings.
 * Each function is a plain definition; what it computes is stated by the lemma that follows it.
 */
module Text {
  import opened Wrappers

  /** Python's `str.isspace()`: the characters `str.strip()` removes. */
  predicate IsSpace(c: char) {
    c == ' ' || ('\t' <= c <= '\r') || ('\U{1C}' <= c <= '\U{1F}') || c == '\U{85}' || c == '\U{A0}'
    || c == '\U{1680}' || ('\U{2000}' <= c <= '\U{200A}') || c == '\U{2028}' || c == '\U{2029}'
    || c == '\U{202F}' || c == '\U{205F}' || c == '\U{3000}'
  }

  predicate AllSpace(s: string) {
    forall i :: 0 <= i < |s| ==> IsSpace(s[i])
  }

  /** Python's `str.lstrip()`. */
  function TrimStart(s: string): string {
    if |s| > 0 && IsSpace(s[0]) then TrimStart(s[1..]) else s
  }

  /** Python's `str.rstrip()`. */
  function TrimEnd(s: string): string {
    if |s| > 0 && IsSpace(s[|s| - 1]) then TrimEnd(s[..|s| - 1]) else s
  }

  /** Python's `str.strip()`. */
  function Strip(s: string): string {
    TrimEnd(TrimStart(s))
  }

  /** `TrimStart` removes the leading whitespace run and nothing else. */
  lemma {:induction false} TrimStartSpec(s: string)
    ensures var r := TrimStart(s);
      |r| <= |s| && r == s[|s| - |r|..] && AllSpace(s[..|s| - |r|]) && (r == [] || !IsSpace(r[0]))
  {
    if |s| > 0 && IsSpace(s[0]) {
      TrimStartSpec(s[1..]);
      var r := TrimStart(s[1..]);
      assert s[1..][|s| - 1 - |r|..] == s[|s| - |r|..];
      assert s[..|s| - |r|] == [s[0]] + s[1..][..|s| - 1 - |r|];
      AllSpaceConcat([s[0]], s[1..][..|s| - 1 - |r|]);
    }
  }

  /** `TrimEnd` removes the trailing whitespace run and nothing else. */
  lemma {:induction false} TrimEndSpec(s: string)
    ensures var r := TrimEnd(s);
      |r| <= |s| && r == s[..|r|] && AllSpace(s[|r|..]) && (r == [] || !IsSpace(r[|r| - 1]))
  {
    if |s| > 0 && IsSpace(s[|s| - 1]) {
      var init := s[..|s| - 1];
      TrimEndSpec(init);
      var r := TrimEnd(init);
      assert init[..|r|] == s[..|r|];
      assert s[|r|..] == init[|r|..] + [s[|s| - 1]];
      AllSpaceConcat(init[|r|..], [s[|s| - 1]]);
    }
  }

  /** `r` is `s` without the whitespace run `s[..i]` and the whitespace run after `r`. */
  predicate StrippedAt(s: string, r: string, i: int) {
    0 <= i && i + |r| <= |s| && r == s[i..i + |r|] && AllSpace(s[..i]) && AllSpace(s[i + |r|..])
  }

  /** A whitespace-free end `t` of `s`, cut at its own trailing whitespace, is such a slice. */
  lemma SliceBetween(s: string, t: string, r: string)
    requires |t| <= |s| && t == s[|s| - |t|..] && AllSpace(s[..|s| - |t|])
    requires |r| <= |t| && r == t[..|r|] && AllSpace(t[|r|..])
    ensures StrippedAt(s, r, |s| - |t|)
  {
    var i := |s| - |t|;
    assert s[i..i + |r|] == t[..|r|];
    assert s[i + |r|..] == t[|r|..];
  }

  /** `Strip(s)` is the slice of `s` between its leading and its trailing whitespace. */
  lemma StripSpec(s: string)
    ensures StrippedAt(s, Strip(s), |s| - |TrimStart(s)|)
    ensures var r := Strip(s); r == [] || (!IsSpace(r[0]) && !IsSpace(r[|r| - 1]))
  {
    TrimStartSpec(s);
    var t := TrimStart(s);
    TrimEndSpec(t);
    var r := TrimEnd(t);
    SliceBetween(s, t, r);
    assert r != [] ==> r[0] == t[0];
  }

  /** A string is blank (`not s.strip()`) exactly when it is all whitespace. */
  lemma BlankIffAllSpace(s: string)
    ensures Strip(s) == [] <==> AllSpace(s)
  {
    StripSpec(s);
    var i := |s| - |TrimStart(s)|;
    if Strip(s) == [] {
      assert forall k :: 0 <= k < |s| ==> (k < i ==> s[k] == s[..i][k]) && (k >= i ==> s[k] == s[i..][k - i]);
    } else {
      assert !IsSpace(s[i]);
    }
  }

  /** A string without leading or trailing whitespace is left alone by `Strip`. */
  lemma StripNoEdges(s: string)
    requires s == [] || (!IsSpace(s[0]) && !IsSpace(s[|s| - 1]))
    ensures Strip(s) == s
  {
  }

  /** `str.strip()` is idempotent. */
  lemma StripIdempotent(s: string)
    ensures Strip(Strip(s)) == Strip(s)
  {
    StripSpec(s);
    StripNoEdges(Strip(s));
  }

  /** Surrounding whitespace does not change the stripped text. */
  lemma StripPadding(pre: string, s: string, post: string)
    requires AllSpace(pre) && AllSpace(post)
    ensures Strip(pre + s + post) == Strip(s)
  {
    TrimStartPadding(pre, s + post);
    assert pre + s + post == pre + (s + post);
    TrimStartAppend(s, post);
    TrimEndPadding(TrimStart(s), post);
    if AllSpace(s) {
      BlankIffAllSpace(s);
      AllSpaceConcat(s, post);
      BlankIffAllSpace(s + post);
      assert Strip(s + post) == [];
    }
  }

  lemma AllSpaceConcat(a: string, b: string)
    requires AllSpace(a) && AllSpace(b)
    ensures AllSpace(a + b)
  {
    assert forall i :: 0 <= i < |a + b| ==> (a + b)[i] == if i < |a| then a[i] else b[i - |a|];
  }

  lemma {:induction false} TrimStartPadding(pre: string, s: string)
    requires AllSpace(pre)
    ensures TrimStart(pre + s) == TrimStart(s)
  {
    if pre != [] {
      assert (pre + s)[0] == pre[0];
      assert (pre + s)[1..] == pre[1..] + s;
      TrimStartPadding(pre[1..], s);
    } else {
      assert pre + s == s;
    }
  }

  lemma {:induction false} TrimEndPadding(s: string, post: string)
    requires AllSpace(post)
    ensures TrimEnd(s + post) == TrimEnd(s)
  {
    if post != [] {
      assert (s + post)[|s + post| - 1] == post[|post| - 1];
      assert (s + post)[..|s + post| - 1] == s + post[..|post| - 1];
      TrimEndPadding(s, post[..|post| - 1]);
    } else {
      assert s + post == s;
    }
  }

  /** Leading whitespace of `s + post` is that of `s`, unless `s` is all whitespace. */
  lemma {:induction false} TrimStartAppend(s: string, post: string)
    requires AllSpace(post)
    ensures TrimStart(s + post) == TrimStart(s) + post || AllSpace(s)
  {
    if s != [] {
      assert (s + post)[0] == s[0];
      if IsSpace(s[0]) {
        assert (s + post)[1..] == s[1..] + post;
        TrimStartAppend(s[1..], post);
        if AllSpace(s[1..]) {
          assert forall i :: 1 <= i < |s| ==> s[i] == s[1..][i - 1];
        }
      }
    }
  }

  /** Python's `str.lower()` restricted to ASCII letters. */
  function LowerChar(c: char): char {
    if 'A' <= c <= 'Z' then (c as int - 'A' as int + 'a' as int) as char else c
  }

  function Lower(s: string): (r: string)
    ensures |r| == |s|
  {
    if s == [] then [] else [LowerChar(s[0])] + Lower(s[1..])
  }

  /** `Lower` maps every character through `LowerChar`. */
  lemma {:induction false} LowerSpec(s: string)
    ensures forall i :: 0 <= i < |s| ==> Lower(s)[i] == LowerChar(s[i])
  {
    if s != [] {
      LowerSpec(s[1..]);
    }
  }

  lemma LowerCharIdempotent(c: char)
    ensures LowerChar(LowerChar(c)) == LowerChar(c)
  {
  }

  lemma LowerIdempotent(s: string)
    ensures Lower(Lower(s)) == Lower(s)
  {
    LowerSpec(s);
    LowerSpec(Lower(s));
    forall i | 0 <= i < |s| ensures Lower(Lower(s))[i] == Lower(s)[i] {
      LowerCharIdempotent(s[i]);
    }
  }

  lemma {:induction false} LowerConcat(a: string, b: string)
    ensures Lower(a + b) == Lower(a) + Lower(b)
  {
    LowerSpec(a);
    LowerSpec(b);
    LowerSpec(a + b);
  }

  /** No ASCII letter is whitespace, so lower-casing keeps every character's whitespace status. */
  lemma LowerCharSpace(c: char)
    ensures IsSpace(LowerChar(c)) == IsSpace(c)
  {
  }

  /** Lower-casing and stripping commute, since no ASCII letter is whitespace. */
  lemma {:induction false} StripLowerCommute(s: string)
    ensures Strip(Lower(s)) == Lower(Strip(s))
  {
    TrimStartLower(s);
    TrimEndLower(TrimStart(s));
  }

  lemma {:induction false} TrimStartLower(s: string)
    ensures TrimStart(Lower(s)) == Lower(TrimStart(s))
  {
    if s != [] {
      LowerCharSpace(s[0]);
      assert Lower(s)[0] == LowerChar(s[0]);
      assert Lower(s)[1..] == Lower(s[1..]);
      if IsSpace(s[0]) {
        TrimStartLower(s[1..]);
      }
    }
  }

  lemma {:induction false} TrimEndLower(s: string)
    ensures TrimEnd(Lower(s)) == Lower(TrimEnd(s))
  {
    if s != [] {
      var n := |s| - 1;
      LowerSpec(s);
      LowerCharSpace(s[n]);
      LowerConcat(s[..n], [s[n]]);
      assert s == s[..n] + [s[n]];
      assert Lower([s[n]]) == [LowerChar(s[n])];
      assert Lower(s)[..n] == Lower(s[..n]);
      if IsSpace(s[n]) {
        TrimEndLower(s[..n]);
      }
    }
  }

  /** Python's `str.replace(a, b)` for one-character `a` and `b`. */
  function ReplaceChar(s: string, a: char, b: char): (r: string)
    ensures |r| == |s|
  {
    if s == [] then [] else [if s[0] == a then b else s[0]] + ReplaceChar(s[1..], a, b)
  }

  /** Every `a` becomes `b`; every other character stays. */
  lemma {:induction false} ReplaceCharSpec(s: string, a: char, b: char)
    ensures forall i :: 0 <= i < |s| ==> ReplaceChar(s, a, b)[i] == (if s[i] == a then b else s[i])
  {
    if s != [] {
      ReplaceCharSpec(s[1..], a, b);
    }
  }

  /** `sub` occurs in `s` starting at index `i`. */
  predicate OccursAt(s: string, sub: string, i: nat) {
    i + |sub| <= |s| && s[i..i + |sub|] == sub
  }

  /** Python's `sub in s`. */
  predicate Contains(s: string, sub: string) {
    exists i: nat :: i <= |s| && OccursAt(s, sub, i)
  }

  /** A substring of `s` that contains `sub` means `s` contains it too. */
  lemma ContainsSlice(s: string, i: int, j: int, sub: string)
    requires 0 <= i <= j <= |s|
    requires Contains(s[i..j], sub)
    ensures Contains(s, sub)
  {
    var k: nat :| k <= |s[i..j]| && OccursAt(s[i..j], sub, k);
    forall m | 0 <= m < |sub|
      ensures s[i + k..i + k + |sub|][m] == sub[m]
    {
      assert s[i..j][k..k + |sub|][m] == sub[m];
    }
    assert s[i + k..i + k + |sub|] == sub;
    assert OccursAt(s, sub, i + k);
  }

  /** Lower-casing commutes with taking a slice. */
  lemma LowerSlice(s: string, i: int, j: int)
    requires 0 <= i <= j <= |s|
    ensures Lower(s)[i..j] == Lower(s[i..j])
  {
    LowerSpec(s);
    LowerSpec(s[i..j]);
    var l, r := Lower(s)[i..j], Lower(s[i..j]);
    forall m | 0 <= m < j - i
      ensures l[m] == r[m]
    {
      assert l[m] == Lower(s)[i + m] == LowerChar(s[i + m]);
      assert r[m] == LowerChar(s[i..j][m]);
    }
  }

  /** An occurrence survives lower-casing both sides. */
  lemma LowerContains(s: string, sub: string)
    requires Contains(s, sub)
    ensures Contains(Lower(s), Lower(sub))
  {
    var k: nat :| k <= |s| && OccursAt(s, sub, k);
    LowerSlice(s, k, k + |sub|);
    assert OccursAt(Lower(s), Lower(sub), k);
  }

  /** Python's `s.find(sub)`: the first occurrence of `sub` in `s`, if any. */
  function IndexOf(s: string, sub: string): Option<nat>
    decreases |s|
  {
    if |s| < |sub| then None
    else if s[..|sub|] == sub then Some(0)
    else match IndexOf(s[1..], sub)
      case None => None
      case Some(i) => Some(i + 1)
  }

  /** An occurrence past the first position is an occurrence in the tail. */
  lemma OccursInTail(s: string, sub: string, j: nat)
    requires 0 < j && OccursAt(s, sub, j)
    ensures OccursAt(s[1..], sub, j - 1)
  {
    assert s[1..][j - 1..j - 1 + |sub|] == s[j..j + |sub|];
  }

  /** An occurrence in the tail is an occurrence one position further on. */
  lemma OccursFromTail(s: string, sub: string, i: nat)
    requires |s| > 0 && OccursAt(s[1..], sub, i)
    ensures OccursAt(s, sub, i + 1)
  {
    assert s[1..][i..i + |sub|] == s[i + 1..i + 1 + |sub|];
  }

  /** `IndexOf` finds the leftmost occurrence, and `None` means there is none. */
  lemma {:induction false} IndexOfSpec(s: string, sub: string)
    ensures var r := IndexOf(s, sub);
      (r.Some? ==> OccursAt(s, sub, r.value) && forall j: nat :: j < r.value ==> !OccursAt(s, sub, j))
      && (r.None? ==> !Contains(s, sub))
    decreases |s|
  {
    if |s| < |sub| {
    } else if s[..|sub|] == sub {
      assert OccursAt(s, sub, 0);
    } else {
      IndexOfSpec(s[1..], sub);
      assert !OccursAt(s, sub, 0);
      match IndexOf(s[1..], sub)
      case None =>
        forall j: nat | j <= |s| ensures !OccursAt(s, sub, j) {
          if 0 < j && OccursAt(s, sub, j) {
            OccursInTail(s, sub, j);
          }
        }
      case Some(i) =>
        OccursFromTail(s, sub, i);
        forall j: nat | j < i + 1 ensures !OccursAt(s, sub, j) {
          if 0 < j && OccursAt(s, sub, j) {
            OccursInTail(s, sub, j);
          }
        }
    }
  }

  /** Python's `sep.join(parts)`: the inverse of `Split`. */
  function Join(parts: seq<string>, sep: string): string
    requires |parts| >= 1
  {
    if |parts| == 1 then parts[0] else parts[0] + sep + Join(parts[1..], sep)
  }

  /**
   * Python's `s.split(sep)` for a non-empty separator: the pieces between the occurrences of
   * `sep` found left to right, never fewer than one.
   */
  function Split(s: string, sep: string): (parts: seq<string>)
    requires sep != []
    ensures |parts| >= 1
    decreases |s|
  {
    match IndexOf(s, sep)
    case None => [s]
    case Some(i) =>
      IndexOfSpec(s, sep);
      [s[..i]] + Split(s[i + |sep|..], sep)
  }

  /** The text before the first occurrence of `sep` does not contain `sep`. */
  lemma PrefixBeforeFirst(s: string, sep: string, i: nat)
    requires sep != [] && i <= |s|
    requires forall j: nat :: j < i ==> !OccursAt(s, sep, j)
    ensures !Contains(s[..i], sep)
  {
    forall j: nat | OccursAt(s[..i], sep, j) ensures false {
      assert s[..i][j..j + |sep|] == s[j..j + |sep|];
      assert OccursAt(s, sep, j);
    }
  }

  /**
   * `Split` and `Join` are inverse, no piece contains the separator, there is one piece only
   * when the separator does not occur, the first piece runs up to the leftmost occurrence, and
   * the other pieces are the split of what follows that occurrence.
   */
  lemma {:induction false} SplitSpec(s: string, sep: string)
    requires sep != []
    ensures var parts := Split(s, sep);
      Join(parts, sep) == s
      && (forall k :: 0 <= k < |parts| ==> !Contains(parts[k], sep))
      && (|parts| == 1 <==> !Contains(s, sep))
      && |parts[0]| <= |s| && parts[0] == s[..|parts[0]|]
      && (forall j: nat :: j < |parts[0]| ==> !OccursAt(s, sep, j))
      && (|parts| > 1 ==> OccursAt(s, sep, |parts[0]|) && parts[1..] == Split(s[|parts[0]| + |sep|..], sep))
    decreases |s|
  {
    IndexOfSpec(s, sep);
    match IndexOf(s, sep)
    case None =>
    case Some(i) =>
      var rest := s[i + |sep|..];
      SplitSpec(rest, sep);
      PrefixBeforeFirst(s, sep, i);
      assert s == s[..i] + sep + rest;
      var parts := Split(s, sep);
      assert parts[1..] == Split(rest, sep);
  }

  /** Python's `s.split(sep)[0]`. */
  function FirstSegment(s: string, sep: string): string
    requires sep != []
  {
    Split(s, sep)[0]
  }

  /**
   * The first segment is the prefix of `s` before the leftmost occurrence of `sep`, or all of
   * `s` when `sep` does not occur.
   */
  lemma FirstSegmentSpec(s: string, sep: string)
    requires sep != []
    ensures var r := FirstSegment(s, sep);
      |r| <= |s| && r == s[..|r|] && !Contains(r, sep)
      && (forall j: nat :: j < |r| ==> !OccursAt(s, sep, j))
      && (r == s <==> !Contains(s, sep))
      && (r != s ==> OccursAt(s, sep, |r|))
  {
    SplitSpec(s, sep);
    var parts := Split(s, sep);
    if |parts| > 1 {
      assert OccursAt(s, sep, |parts[0]|);
      assert |parts[0]| < |s|;
    }
  }
}
