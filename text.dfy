/** Failure-compatible wrappers shared by the whole model. */
module Results {

  datatype Option<T> = None | Some(value: T)

  datatype Result<T, E> = Ok(value: T) | Err(error: E) {
    predicate IsFailure() { Err? }

    function PropagateFailure<U>(): Result<U, E>
      requires Err?
    {
      Err(error)
    }

    function Extract(): T
      requires Ok?
    {
      value
    }
  }

  /** A success without a value, or a failure carrying an error. */
  datatype Outcome<E> = Pass | Fail(error: E) {
    predicate IsFailure() { Fail? }

    function PropagateFailure(): Outcome<E>
      requires Fail?
    {
      this
    }
  }
}

/** The JavaScript string built-ins the engine relies on: `\s`/`trim`
    white space, `\w` word characters, `indexOf`, `replace` with a string
    pattern (first occurrence) and `replace` with a global pattern. */
module Text {
  import opened Results

  /** ECMAScript WhiteSpace and LineTerminator code points (what `trim` and `\s` remove). */
  predicate IsSpace(c: char) {
    var n := c as int;
    n == 0x09 || n == 0x0A || n == 0x0B || n == 0x0C || n == 0x0D || n == 0x20 ||
    n == 0xA0 || n == 0x1680 || (0x2000 <= n <= 0x200A) || n == 0x2028 || n == 0x2029 ||
    n == 0x202F || n == 0x205F || n == 0x3000 || n == 0xFEFF
  }

  /** The `\w` class of a non-unicode regular expression. */
  predicate IsWordChar(c: char) {
    ('a' <= c <= 'z') || ('A' <= c <= 'Z') || ('0' <= c <= '9') || c == '_'
  }

  /** A non-empty run of word characters, i.e. what `\w+` matches. */
  predicate IsWord(s: string) {
    |s| > 0 && forall i :: 0 <= i < |s| ==> IsWordChar(s[i])
  }

  /** No white space at either end. */
  predicate IsTrimmed(s: string) {
    s == [] || (!IsSpace(s[0]) && !IsSpace(s[|s| - 1]))
  }

  /** The end of the white space that starts at `i`. */
  function SpaceFrom(s: string, i: nat): (e: nat)
    requires i <= |s|
    decreases |s| - i
    ensures i <= e <= |s|
    ensures forall x :: i <= x < e ==> IsSpace(s[x])
    ensures e < |s| ==> !IsSpace(s[e])
  {
    if i < |s| && IsSpace(s[i]) then SpaceFrom(s, i + 1) else i
  }

  /** The start of the white space that ends at `j`. */
  function SpaceUntil(s: string, j: nat): (e: nat)
    requires j <= |s|
    ensures e <= j
    ensures forall x :: e <= x < j ==> IsSpace(s[x])
    ensures e > 0 ==> !IsSpace(s[e - 1])
  {
    if j > 0 && IsSpace(s[j - 1]) then SpaceUntil(s, j - 1) else j
  }

  /** `String.prototype.trimStart`: everything from the first non-space character on. */
  function TrimStart(s: string): (r: string)
    ensures |r| <= |s| && r == s[|s| - |r|..]
    ensures r == [] || !IsSpace(r[0])
  {
    s[SpaceFrom(s, 0)..]
  }

  /** `String.prototype.trimEnd`: everything up to the last non-space character. */
  function TrimEnd(s: string): (r: string)
    ensures |r| <= |s| && r == s[..|r|]
    ensures r == [] || !IsSpace(r[|r| - 1])
  {
    s[..SpaceUntil(s, |s|)]
  }

  /** `String.prototype.trim`: the result has no white space at either end,
      and a string that has none is returned unchanged. */
  function Trim(s: string): (r: string)
    ensures IsTrimmed(r) && |r| <= |s|
    ensures IsTrimmed(s) ==> r == s
  {
    var u := TrimStart(s);
    var r := TrimEnd(u);
    assert r != [] ==> r[0] == u[0];
    assert IsTrimmed(s) ==> u == s && r == s;
    r
  }

  /** `trim` removes white space, and only at the two ends: the input is the
      result with some white space before and some after. */
  lemma TrimRemovesOnlyEnds(s: string)
    ensures |Trim(s)| <= |TrimStart(s)|
    ensures var a, b := s[..|s| - |TrimStart(s)|], TrimStart(s)[|Trim(s)|..];
      s == a + Trim(s) + b && AllSpace(a) && AllSpace(b)
  {
    var u := TrimStart(s);
    TrimGlue(s);
    assert |s| - |u| == SpaceFrom(s, 0);
    SpaceSlice(s, 0, |s| - |u|);
    assert |Trim(s)| == SpaceUntil(u, |u|);
    SpaceSlice(u, |Trim(s)|, |u|);
  }

  /** The input is what `TrimStart` drops, then the result, then what `TrimEnd` drops. */
  lemma TrimGlue(s: string)
    ensures |Trim(s)| <= |TrimStart(s)| && Trim(s) == TrimEnd(TrimStart(s))
    ensures s == s[..|s| - |TrimStart(s)|] + Trim(s) + TrimStart(s)[|Trim(s)|..]
  {
    var u, r := TrimStart(s), Trim(s);
    assert r == TrimEnd(u);
    Glue(s, u, r);
  }

  /** A stretch of white space, taken out as a slice. */
  lemma SpaceSlice(s: string, lo: nat, hi: nat)
    requires lo <= hi <= |s| && forall x :: lo <= x < hi ==> IsSpace(s[x])
    ensures AllSpace(s[lo..hi])
  {
    forall x | 0 <= x < hi - lo ensures IsSpace(s[lo..hi][x]) {
      assert s[lo..hi][x] == s[lo + x];
    }
  }

  /** A suffix `u` of `s` with a prefix `r`: `s` is what precedes `u`, then `r`, then the rest of `u`. */
  lemma Glue<T>(s: seq<T>, u: seq<T>, r: seq<T>)
    requires |u| <= |s| && u == s[|s| - |u|..] && |r| <= |u| && r == u[..|r|]
    ensures s == s[..|s| - |u|] + r + u[|r|..]
  {
    assert u == r + u[|r|..];
    assert s == s[..|s| - |u|] + u;
  }

  /** Every character is white space. */
  predicate AllSpace(s: string) {
    forall x :: 0 <= x < |s| ==> IsSpace(s[x])
  }

  /** `p` occurs in `s` at index `i`. */
  predicate StartsAt(s: string, i: nat, p: string) {
    i + |p| <= |s| && s[i..i + |p|] == p
  }

  /** The first occurrence of `p` in `s` at or after `from`. */
  function IndexFrom(s: string, p: string, from: nat): (r: Option<nat>)
    requires from <= |s|
    decreases |s| - from
    ensures r.Some? ==> from <= r.value && StartsAt(s, r.value, p)
    ensures forall j :: from <= j && (r.None? || j < r.value) ==> !StartsAt(s, j, p)
  {
    if StartsAt(s, from, p) then Some(from)
    else if from == |s| then None
    else IndexFrom(s, p, from + 1)
  }

  /** `String.prototype.indexOf`. */
  function IndexOf(s: string, p: string): Option<nat> {
    IndexFrom(s, p, 0)
  }

  predicate Contains(s: string, p: string) {
    IndexOf(s, p).Some?
  }

  /** `s.replace(p, r)` with a string pattern: only the first occurrence is
      replaced, and `r` is taken literally. */
  function ReplaceFirst(s: string, p: string, r: string): string {
    match IndexOf(s, p)
    case Some(i) => s[..i] + r + s[i + |p|..]
    case None => s
  }

  /** `s.replace(/p/g, r)` for a pattern that matches the literal text `p`:
      every occurrence, scanning left to right without overlap. */
  function ReplaceAll(s: string, p: string, r: string): string
    requires |p| > 0
    decreases |s|
  {
    if StartsAt(s, 0, p) then r + ReplaceAll(s[|p|..], p, r)
    else if s == [] then []
    else [s[0]] + ReplaceAll(s[1..], p, r)
  }

  /** Replacing the first occurrence, when it is known to be at `i`. */
  lemma ReplaceFirstAt(s: string, p: string, r: string, i: nat)
    requires IndexOf(s, p) == Some(i)
    ensures i + |p| <= |s| && ReplaceFirst(s, p, r) == s[..i] + r + s[i + |p|..]
  {
  }

  lemma ContainsAt(s: string, p: string, i: nat)
    requires StartsAt(s, i, p)
    ensures Contains(s, p)
  {
  }

  /** An occurrence of `p` starting at `i` in `s` is one in every extension of `s`. */
  lemma StartsAtPrefix(s: string, t: string, i: nat, p: string)
    requires StartsAt(s, i, p)
    ensures StartsAt(s + t, i, p)
  {
    assert (s + t)[i..i + |p|] == s[i..i + |p|];
  }

  /** An occurrence of `a + b` is an occurrence of `a`. */
  lemma StartsAtSplit(s: string, i: nat, a: string, b: string)
    requires StartsAt(s, i, a + b)
    ensures StartsAt(s, i, a)
  {
    assert s[i..i + |a|] == s[i..i + |a| + |b|][..|a|];
    assert (a + b)[..|a|] == a;
  }

  /** An occurrence of `a + b` is an occurrence of `b` right after `a`. */
  lemma StartsAtRest(s: string, i: nat, a: string, b: string)
    requires StartsAt(s, i, a + b)
    ensures StartsAt(s, i + |a|, b)
  {
    assert s[i + |a|..i + |a| + |b|] == s[i..i + |a| + |b|][|a|..];
    assert (a + b)[|a|..] == b;
  }

  /** A text occurs where it is spliced in. */
  lemma StartsAtMiddle(pre: string, c: string, post: string)
    ensures StartsAt(pre + c + post, |pre|, c)
  {
    assert (pre + c + post)[|pre|..|pre| + |c|] == c;
  }

  /** The characters of an occurrence are the text's. */
  lemma StartsAtIndex(s: string, i: nat, p: string, k: nat)
    requires StartsAt(s, i, p) && k < |p|
    ensures i + k < |s| && s[i + k] == p[k]
  {
    assert s[i..i + |p|][k] == s[i + k];
  }

  /** Occurrences of `a` at `i` and of `b` right after it make one of `a + b`. */
  lemma StartsAtConcat(s: string, i: nat, a: string, b: string)
    requires StartsAt(s, i, a) && StartsAt(s, i + |a|, b)
    ensures StartsAt(s, i, a + b)
  {
    assert s[i..i + |a| + |b|] == s[i..i + |a|] + s[i + |a|..i + |a| + |b|];
  }

  /** A single character as an occurrence. */
  lemma StartsAtChar(s: string, i: nat, c: char)
    requires i < |s| && s[i] == c
    ensures StartsAt(s, i, [c])
  {
    assert s[i..i + 1] == [c];
  }

  /** A prefix of the text from `i` on occurs at `i`. */
  lemma StartsAtPrefixOfRest(s: string, i: nat, p: string)
    requires i <= |s| && |p| <= |s| - i && p == s[i..][..|p|]
    ensures StartsAt(s, i, p)
  {
    assert s[i..i + |p|] == s[i..][..|p|];
  }

  /** A non-empty sequence is its front followed by its last element. */
  lemma SplitLast<T>(s: seq<T>)
    requires s != []
    ensures s[..|s| - 1] + [s[|s| - 1]] == s
  {
    assert (s[..|s| - 1] + [s[|s| - 1]])[|s| - 1] == s[|s| - 1];
  }

  /** Appending `x` and then `b` is appending `[x] + b`. */
  lemma SnocConcat<T>(a: seq<T>, x: T, b: seq<T>)
    ensures (a + [x]) + b == a + ([x] + b)
  {
  }

  /** The suffix from `i` starts with `s[i]` and goes on with the suffix from `i + 1`. */
  lemma SuffixStep<T>(s: seq<T>, i: nat)
    requires i < |s|
    ensures s[i..] != [] && s[i..][0] == s[i] && s[i..][1..] == s[i + 1..]
  {
  }

  /** An occurrence with none before it is the first occurrence. */
  lemma FirstOccurrence(s: string, p: string, i: nat)
    requires StartsAt(s, i, p)
    requires forall j :: 0 <= j < i ==> !StartsAt(s, j, p)
    ensures IndexOf(s, p) == Some(i)
  {
  }

  /** Replacing a text that does not occur changes nothing. */
  lemma {:induction false} ReplaceAllAbsent(s: string, p: string, r: string)
    requires |p| > 0 && !Contains(s, p)
    ensures ReplaceAll(s, p, r) == s
  {
    if s != [] {
      assert !StartsAt(s, 0, p);
      forall j: nat ensures StartsAt(s[1..], j, p) == StartsAt(s, j + 1, p) {
        if j + 1 + |p| <= |s| {
          assert s[1..][j..j + |p|] == s[j + 1..j + 1 + |p|];
        }
      }
      assert IndexFrom(s[1..], p, 0).None?;
      ReplaceAllAbsent(s[1..], p, r);
    }
  }
}
