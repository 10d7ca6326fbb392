/** The argument tokenizer and the token escaper of lib/re.js. */
module Tokenizer {
  import opened Text

  // ---------------------------------------------------------------------
  // escape
  // ---------------------------------------------------------------------

  /** The characters listed in RE_CHARS. */
  predicate IsSpecial(c: char) {
    c in "[]-{}*+#$^.?()"
  }

  /** What `escape` emits for one character. */
  function EscapeChar(c: char): string {
    if IsSpecial(c) then ['\\', c] else [c]
  }

  /** The escaped form of `s`, built character by character from the left. */
  function Escaped(s: string): string
    decreases |s|
  {
    if s == [] then [] else Escaped(s[..|s| - 1]) + EscapeChar(s[|s| - 1])
  }

  /** How many characters of `s` are in RE_CHARS. */
  function CountSpecial(s: string): nat
    decreases |s|
  {
    if s == [] then 0 else CountSpecial(s[..|s| - 1]) + (if IsSpecial(s[|s| - 1]) then 1 else 0)
  }

  /** Drops the backslash in front of every RE_CHARS character. */
  function Unescape(t: string): string
    decreases |t|
  {
    if t == [] then []
    else if |t| >= 2 && IsSpecial(t[|t| - 1]) && t[|t| - 2] == '\\' then Unescape(t[..|t| - 2]) + [t[|t| - 1]]
    else Unescape(t[..|t| - 1]) + [t[|t| - 1]]
  }

  /** `escape`: one backslash in front of each RE_CHARS character, every other character copied. */
  method Escape(s: string) returns (formatted: string)
    ensures formatted == Escaped(s)
  {
    formatted := "";
    var i := 0;
    while i < |s|
      invariant 0 <= i <= |s|
      invariant formatted == Escaped(s[..i])
    {
      var c := s[i];
      if IsSpecial(c) {
        formatted := formatted + ['\\', c];
      } else {
        formatted := formatted + [c];
      }
      assert s[..i + 1][..i] == s[..i];
      i := i + 1;
    }
    assert s[..i] == s;
  }

  /** Escaping adds exactly one character per RE_CHARS character. */
  lemma {:induction false} EscapedLength(s: string)
    ensures |Escaped(s)| == |s| + CountSpecial(s)
  {
    if s != [] {
      EscapedLength(s[..|s| - 1]);
    }
  }

  /** Removing the added backslashes gives back the input. */
  lemma {:induction false} UnescapeEscaped(s: string)
    ensures Unescape(Escaped(s)) == s
  {
    if s != [] {
      var init, c := s[..|s| - 1], s[|s| - 1];
      UnescapeEscaped(init);
      UnescapeStep(Escaped(init), c);
      SplitLast(s);
    }
  }

  /** Unescaping the escaped form of one more character yields that character. */
  lemma UnescapeStep(e: string, c: char)
    ensures Unescape(e + EscapeChar(c)) == Unescape(e) + [c]
  {
    var t := e + EscapeChar(c);
    if IsSpecial(c) {
      assert t[..|t| - 2] == e && t[|t| - 2] == '\\' && t[|t| - 1] == c;
    } else {
      assert t[..|t| - 1] == e && t[|t| - 1] == c;
    }
  }

  // ---------------------------------------------------------------------
  // parseArgs / csvToArray
  // ---------------------------------------------------------------------

  /** What `parseArgs` returns: an argument array, or the raw argument text. */
  datatype Parsed = ArgArray(args: seq<string>) | ArgText(text: string)

  /** How one character moves the nesting counter `b`. */
  function Delta(c: char): int {
    if c == '(' then 1 else if c == ')' then -1 else 0
  }

  /** The value of the counter after reading the prefix `p` (it starts at 1:
      the opening parenthesis has already been consumed). */
  function Depth(p: string): int
    decreases |p|
  {
    if p == [] then 1 else Depth(p[..|p| - 1]) + Delta(p[|p| - 1])
  }

  /** The index at which the counter, standing at `b` before index `i`, first reaches 0;
      the length of `s` when it never does. */
  function SpanFrom(s: string, i: nat, b: int): (k: nat)
    requires i <= |s|
    decreases |s| - i
    ensures i <= k <= |s|
  {
    if i == |s| then |s|
    else if b + Delta(s[i]) == 0 then i
    else SpanFrom(s, i + 1, b + Delta(s[i]))
  }

  /** The end of the argument span: the index of the `)` that closes it, or the end of the text. */
  function SpanEnd(s: string): nat {
    SpanFrom(s, 0, 1)
  }

  /** The whole argument span, untrimmed. */
  function SpanText(s: string): string {
    s[..SpanFrom(s, 0, 1)]
  }

  /** Splits `t` at the commas read while the counter is 1; `cur` is the piece
      being accumulated and `b` the counter before `t`. */
  function Pieces(t: string, b: int, cur: string): (r: seq<string>)
    decreases |t|
    ensures |r| > 0
  {
    if t == [] then [cur]
    else if t[0] == ',' && b == 1 then [cur] + Pieces(t[1..], b, [])
    else Pieces(t[1..], b + Delta(t[0]), cur + [t[0]])
  }

  /** The pieces trimmed, with the empty ones dropped (what `pushArg` keeps). */
  function Clean(ps: seq<string>): (r: seq<string>)
    decreases |ps|
    ensures forall i :: 0 <= i < |r| ==> r[i] != [] && IsTrimmed(r[i])
    ensures |r| <= |ps|
  {
    if ps == [] then []
    else
      var t := Trim(ps[|ps| - 1]);
      Clean(ps[..|ps| - 1]) + (if t != [] then [t] else [])
  }

  /** The argument array `csvToArray` computes. */
  function ArgList(s: string): seq<string> {
    Clean(Pieces(SpanText(s), 1, []))
  }

  /** Joins pieces with commas. */
  function Join(ps: seq<string>): string
    requires |ps| > 0
    decreases |ps|
  {
    if |ps| == 1 then ps[0] else ps[0] + [','] + Join(ps[1..])
  }

  lemma PiecesStep(s: string, i: nat, k: nat, b: int, cur: string)
    requires i < k <= |s|
    ensures Pieces(s[i..k], b, cur) ==
      if s[i] == ',' && b == 1 then [cur] + Pieces(s[i + 1..k], b, [])
      else Pieces(s[i + 1..k], b + Delta(s[i]), cur + [s[i]])
  {
    assert s[i..k][0] == s[i];
    assert s[i..k][1..] == s[i + 1..k];
  }

  lemma PiecesCons(c: char, t: string, b: int, cur: string)
    ensures Pieces([c] + t, b, cur) ==
      if c == ',' && b == 1 then [cur] + Pieces(t, b, []) else Pieces(t, b + Delta(c), cur + [c])
  {
    assert ([c] + t)[1..] == t;
  }

  lemma CleanPush(done: seq<string>, x: string)
    ensures Clean(done + [x]) == Clean(done) + (if Trim(x) != [] then [Trim(x)] else [])
  {
    assert (done + [x])[..|done|] == done;
  }

  /** The state of `parseArgs` after `i` characters: the counter `b` is still
      positive, the span still ends at `k`, and either the text read so far
      is `argStr` or the pieces pushed so far (`done`, kept as `args` once
      cleaned) followed by the pieces of the rest are all the pieces. */
  ghost predicate ArgsSoFar(s: string, asArgArray: bool, k: nat, i: nat, b: int,
                            args: seq<string>, argStr: string, done: seq<string>)
  {
    && k == SpanEnd(s) && i <= k <= |s| && b >= 1 && SpanFrom(s, i, b) == k
    && (!asArgArray ==> argStr == s[..i])
    && (asArgArray ==> args == Clean(done) && done + Pieces(s[i..k], b, argStr) == Pieces(s[..k], 1, []))
  }

  /** `pushArg`: the trimmed piece is kept when it is not empty. */
  function Pushed(args: seq<string>, argStr: string): seq<string> {
    if Trim(argStr) != [] then args + [Trim(argStr)] else args
  }

  lemma ArgsStart(s: string, asArgArray: bool)
    ensures ArgsSoFar(s, asArgArray, SpanEnd(s), 0, 1, [], [], [])
  {
    assert s[0..SpanEnd(s)] == s[..SpanEnd(s)];
  }

  /** A comma at depth 1 ends a piece. */
  lemma ArgsComma(s: string, k: nat, i: nat, b: int, args: seq<string>, argStr: string, done: seq<string>)
    requires ArgsSoFar(s, true, k, i, b, args, argStr, done) && i < |s| && s[i] == ',' && b == 1
    ensures ArgsSoFar(s, true, k, i + 1, b, Pushed(args, argStr), [], done + [argStr])
  {
    SpanSkipsComma(s, i);
    PiecesComma(s, i, k, done, argStr, Pieces(s[..k], 1, []));
    CleanPush(done, argStr);
  }

  lemma SpanSkipsComma(s: string, i: nat)
    requires i < |s| && s[i] == ','
    ensures SpanFrom(s, i, 1) == SpanFrom(s, i + 1, 1)
  {
  }

  lemma PiecesComma(s: string, i: nat, k: nat, done: seq<string>, argStr: string, whole: seq<string>)
    requires i < k <= |s| && s[i] == ','
    requires done + Pieces(s[i..k], 1, argStr) == whole
    ensures done + [argStr] + Pieces(s[i + 1..k], 1, []) == whole
  {
    var rest := Pieces(s[i + 1..k], 1, []);
    PiecesStep(s, i, k, 1, argStr);
    assert done + [argStr] + rest == done + ([argStr] + rest);
  }

  /** Any other character that does not close the span joins the current piece. */
  lemma ArgsChar(s: string, asArgArray: bool, k: nat, i: nat, b: int, args: seq<string>, argStr: string, done: seq<string>)
    requires ArgsSoFar(s, asArgArray, k, i, b, args, argStr, done) && i < |s|
    requires b + Delta(s[i]) != 0 && !(asArgArray && s[i] == ',' && b == 1)
    ensures ArgsSoFar(s, asArgArray, k, i + 1, b + Delta(s[i]), args, argStr + [s[i]], done)
  {
    if asArgArray {
      PiecesStep(s, i, k, b, argStr);
    } else {
      assert s[..i + 1] == s[..i] + [s[i]];
    }
  }

  /** The span ends, at its closing `)` or at the end of the text: the last
      piece is pushed, or the text read is the span. */
  lemma ArgsEnd(s: string, asArgArray: bool, k: nat, i: nat, b: int, args: seq<string>, argStr: string, done: seq<string>)
    requires ArgsSoFar(s, asArgArray, k, i, b, args, argStr, done)
    requires i == |s| || b + Delta(s[i]) == 0
    ensures asArgArray ==> Pushed(args, argStr) == ArgList(s)
    ensures !asArgArray ==> argStr == SpanText(s)
  {
    assert i == k;
    if asArgArray {
      CleanPush(done, argStr);
      assert s[i..k] == [];
      assert Pieces(s[i..k], b, argStr) == [argStr];
    }
  }

  /** `parseArgs(str, asArgArray)`. */
  method ParseArgs(s: string, asArgArray: bool) returns (r: Parsed)
    ensures asArgArray ==> r == ArgArray(ArgList(s))
    ensures !asArgArray ==> r == ArgText(SpanText(s))
  {
    var len, b, args, argStr := |s|, 1, [], "";
    ghost var k := SpanEnd(s);
    ghost var done: seq<string> := [];
    ArgsStart(s, asArgArray);
    var i := 0;
    while i < len
      invariant ArgsSoFar(s, asArgArray, k, i, b, args, argStr, done)
    {
      var c := s[i];
      if c == '(' {
        b := b + 1;
      } else if c == ')' {
        b := b - 1;
      } else if asArgArray && c == ',' && b == 1 {
        // pushArg
        ArgsComma(s, k, i, b, args, argStr, done);
        done := done + [argStr];
        var t := Trim(argStr);
        if t != "" {
          args := args + [t];
        }
        argStr := "";
        i := i + 1;
        continue;
      }
      if b == 0 {
        ArgsEnd(s, asArgArray, k, i, 1, args, argStr, done);
        if asArgArray {
          var t := Trim(argStr);
          if t != "" {
            args := args + [t];
          }
          return ArgArray(args);
        }
        return ArgText(argStr);
      }
      ArgsChar(s, asArgArray, k, i, b - Delta(c), args, argStr, done);
      argStr := argStr + [c];
      i := i + 1;
    }
    ArgsEnd(s, asArgArray, k, i, b, args, argStr, done);
    if asArgArray {
      var t := Trim(argStr);
      if t != "" {
        args := args + [t];
      }
      return ArgArray(args);
    }
    return ArgText(argStr);
  }

  /** `csvToArray`. */
  method CsvToArray(s: string) returns (args: seq<string>)
    ensures args == ArgList(s)
  {
    var r := ParseArgs(s, true);
    args := r.args;
  }

  /** The counter after reading the first `j` characters of `s`. */
  function Level(s: string, j: nat): int
    requires j <= |s|
  {
    Depth(s[..j])
  }

  /** Within the span the counter never drops to 0; when the span ends before
      the text does, it ends at a `)` that brings the counter to 0. So the
      span is the longest prefix before the first position where the counter
      reaches 0. */
  lemma SpanEndIsFirstClose(s: string)
    ensures forall j :: 0 <= j <= SpanEnd(s) ==> Level(s, j) >= 1
    ensures SpanEnd(s) < |s| ==> s[SpanEnd(s)] == ')' && Level(s, SpanEnd(s) + 1) == 0
  {
    assert s[..0] == [];
    SpanFromIsFirstClose(s, 0, 1);
  }

  /** A span that ends before the text does ends at a `)`. */
  lemma SpanEndCloses(s: string)
    requires SpanEnd(s) < |s|
    ensures s[SpanEnd(s)] == ')' && SpanText(s) == s[..SpanEnd(s)]
  {
    SpanEndIsFirstClose(s);
  }

  lemma {:induction false} SpanFromIsFirstClose(s: string, i: nat, b: int)
    requires i <= |s| && b >= 1 && b == Level(s, i)
    ensures forall j :: i <= j <= SpanFrom(s, i, b) ==> Level(s, j) >= 1
    ensures SpanFrom(s, i, b) < |s| ==> s[SpanFrom(s, i, b)] == ')' && Level(s, SpanFrom(s, i, b) + 1) == 0
    decreases |s| - i
  {
    if i < |s| {
      LevelStep(s, i);
      if b + Delta(s[i]) != 0 {
        SpanFromIsFirstClose(s, i + 1, b + Delta(s[i]));
      }
    }
  }

  lemma LevelStep(s: string, i: nat)
    requires i < |s|
    ensures Level(s, i + 1) == Level(s, i) + Delta(s[i])
  {
    var p := s[..i + 1];
    assert p[..|p| - 1] == s[..i];
    assert p[|p| - 1] == s[i];
  }

  /** Whatever follows the closing parenthesis is ignored. */
  lemma ArgsIgnoreTrailingText(s: string, t: string)
    requires SpanEnd(s) < |s|
    ensures SpanText(s[..SpanEnd(s) + 1] + t) == SpanText(s)
    ensures ArgList(s[..SpanEnd(s) + 1] + t) == ArgList(s)
  {
    var u := s[..SpanEnd(s) + 1] + t;
    SpanFromPrefix(s, u, 0, 1);
    assert u[..SpanEnd(s)] == s[..SpanEnd(s)];
  }

  lemma {:induction false} SpanFromPrefix(s: string, u: string, i: nat, b: int)
    requires i <= |s| && SpanFrom(s, i, b) < |s|
    requires SpanFrom(s, i, b) < |u| && u[..SpanFrom(s, i, b) + 1] == s[..SpanFrom(s, i, b) + 1]
    ensures i <= |u| && SpanFrom(u, i, b) == SpanFrom(s, i, b)
    decreases |s| - i
  {
    var k := SpanFrom(s, i, b);
    assert u[i] == u[..k + 1][i] == s[..k + 1][i] == s[i];
    if b + Delta(s[i]) != 0 {
      SpanFromPrefix(s, u, i + 1, b + Delta(s[i]));
    }
  }

  /** Joining the raw pieces with commas gives back the text: the split loses
      exactly the top-level commas. */
  lemma {:induction false} JoinPieces(t: string, b: int, cur: string)
    ensures Join(Pieces(t, b, cur)) == cur + t
    decreases |t|
  {
    if t != [] {
      if t[0] == ',' && b == 1 {
        JoinPieces(t[1..], b, []);
        assert t == [','] + t[1..];
      } else {
        JoinPieces(t[1..], b + Delta(t[0]), cur + [t[0]]);
        assert cur + [t[0]] + t[1..] == cur + t;
      }
    }
  }

  /** Every argument of the array is the trimmed text of a depth-1 piece,
      and is neither empty nor padded; when no piece is blank, the arguments
      are the trimmed pieces one for one, in order. */
  lemma ArgsTrimmedNonEmpty(s: string, ps: seq<string>)
    requires ps == Pieces(SpanText(s), 1, [])
    ensures forall i :: 0 <= i < |ArgList(s)| ==> ArgList(s)[i] != [] && IsTrimmed(ArgList(s)[i])
    ensures forall i :: 0 <= i < |ArgList(s)| ==> exists j :: 0 <= j < |ps| && ArgList(s)[i] == Trim(ps[j])
    ensures (forall j :: 0 <= j < |ps| ==> Trim(ps[j]) != []) ==>
      |ArgList(s)| == |ps| && forall j :: 0 <= j < |ps| ==> ArgList(s)[j] == Trim(ps[j])
  {
    var args := ArgList(s);
    assert args == Clean(ps);
    CleanFromPieces(ps);
    CleanNoBlankWhen(ps);
    forall i | 0 <= i < |args| ensures exists j :: 0 <= j < |ps| && args[i] == Trim(ps[j]) {
      var j :| 0 <= j < |ps| && Clean(ps)[i] == Trim(ps[j]);
    }
  }

  lemma CleanNoBlankWhen(ps: seq<string>)
    ensures (forall j :: 0 <= j < |ps| ==> Trim(ps[j]) != []) ==>
      |Clean(ps)| == |ps| && forall j :: 0 <= j < |ps| ==> Clean(ps)[j] == Trim(ps[j])
  {
    if forall j :: 0 <= j < |ps| ==> Trim(ps[j]) != [] {
      CleanNoBlank(ps);
    }
  }

  /** Every cleaned argument is the trimmed text of some piece. */
  lemma {:induction false} CleanFromPieces(ps: seq<string>)
    ensures forall i :: 0 <= i < |Clean(ps)| ==> exists j :: 0 <= j < |ps| && Clean(ps)[i] == Trim(ps[j])
    decreases |ps|
  {
    if ps != [] {
      var n := |ps| - 1;
      var init := ps[..n];
      CleanFromPieces(init);
      var c := Clean(init);
      var t := Trim(ps[n]);
      var r := Clean(ps);
      assert r == c + (if t != [] then [t] else []);
      forall i | 0 <= i < |r| ensures exists j :: 0 <= j < |ps| && r[i] == Trim(ps[j]) {
        if i < |c| {
          var j :| 0 <= j < |init| && c[i] == Trim(init[j]);
          assert ps[j] == init[j] && r[i] == c[i];
          assert 0 <= j < |ps| && r[i] == Trim(ps[j]);
        } else {
          assert t != [] && i == |c| && r[i] == t;
          assert 0 <= n < |ps| && r[i] == Trim(ps[n]);
        }
      }
    } else {
      assert Clean(ps) == [];
    }
  }

  /** When no piece is blank, the cleaned arguments are the trimmed pieces
      one for one, in order. */
  lemma {:induction false} CleanNoBlank(ps: seq<string>)
    requires forall j :: 0 <= j < |ps| ==> Trim(ps[j]) != []
    ensures |Clean(ps)| == |ps| && forall j :: 0 <= j < |ps| ==> Clean(ps)[j] == Trim(ps[j])
    decreases |ps|
  {
    if ps != [] {
      var n := |ps| - 1;
      var init := ps[..n];
      forall j | 0 <= j < |init| ensures Trim(init[j]) != [] {
        assert init[j] == ps[j];
      }
      CleanNoBlank(init);
      var c := Clean(init);
      var r := Clean(ps);
      assert r == c + [Trim(ps[n])];
      forall j | 0 <= j < |ps| ensures r[j] == Trim(ps[j]) {
        if j < n {
          assert r[j] == c[j] && init[j] == ps[j];
        }
      }
    }
  }

  /** The counter is additive over concatenation. */
  lemma {:induction false} DepthConcat(p: string, q: string)
    ensures Depth(p + q) == Depth(p) + Depth(q) - 1
    decreases |q|
  {
    if q == [] {
      assert p + q == p;
    } else {
      DepthConcat(p, q[..|q| - 1]);
      assert (p + q)[..|p + q| - 1] == p + q[..|q| - 1];
    }
  }

  /** Only commas read while the counter is 1 split: a stretch `a` in which
      every comma is read at another depth (inside a nested call such as
      `g(1,2)`) goes whole into the current argument, and the counter moves
      by the stretch's own balance. */
  lemma {:induction false} PiecesKeepNested(a: string, t: string, b: int, cur: string)
    requires forall j :: 0 <= j < |a| && a[j] == ',' ==> b + Depth(a[..j]) - 1 != 1
    ensures Pieces(a + t, b, cur) == Pieces(t, b + Depth(a) - 1, cur + a)
    decreases |a|
  {
    if a == [] {
      assert a + t == t;
      assert cur + a == cur;
    } else {
      var a0, rest := a[0], a[1..];
      assert a + t == [a0] + (rest + t);
      assert a[..0] == [];
      PiecesCons(a0, rest + t, b, cur);
      forall j | 0 <= j < |rest| && rest[j] == ','
        ensures b + Delta(a0) + Depth(rest[..j]) - 1 != 1
      {
        assert a[..j + 1] == [a0] + rest[..j];
        DepthCons(a0, rest[..j]);
        assert a[j + 1] == ',';
      }
      var b', cur' := b + Delta(a0), cur + [a0];
      PiecesKeepNested(rest, t, b', cur');
      assert a == [a0] + rest;
      DepthCons(a0, rest);
      assert b' + Depth(rest) - 1 == b + Depth(a) - 1;
      assert cur' + rest == cur + a;
      assert a0 == ',' ==> b != 1 by {
        if a0 == ',' {
          assert a[0] == ',' && b + Depth(a[..0]) - 1 != 1;
        }
      }
      assert Pieces(a + t, b, cur) == Pieces(rest + t, b', cur');
    }
  }

  /** Reading one character first moves the counter by that character. */
  lemma DepthCons(c: char, r: string)
    ensures Depth([c] + r) == Depth(r) + Delta(c)
  {
    DepthConcat([c], r);
    assert [c][..0] == [];
  }

  // ---------------------------------------------------------------------
  // The nested-call example: `g(1,2),3)` gives ["g(1,2)", "3"]
  // ---------------------------------------------------------------------

  /** Reading one more character moves the counter by that character. */
  lemma DepthSnoc(p: string, c: char)
    ensures Depth(p + [c]) == Depth(p) + Delta(c)
  {
    assert (p + [c])[..|p|] == p;
  }

  /** The span of `g(1,2),3)` stops before its unmatched `)`. */
  lemma NestedSpanExample()
    ensures SpanText("g(1,2),3)") == "g(1,2),3"
  {
    assert SpanFrom("g(1,2),3)", 8, 1) == 8;
  }

  /** The comma inside `g(1,2)` is read at depth 2 and does not split. */
  lemma NestedPiecesExample(s: string, a: string)
    requires s == "g(1,2),3" && a == "g(1,2)"
    ensures Pieces(s, 1, []) == [a, "3"]
  {
    var d1 := [] + ['g']; DepthSnoc([], 'g');
    var d2 := d1 + ['(']; DepthSnoc(d1, '(');
    var d3 := d2 + ['1']; DepthSnoc(d2, '1');
    var d4 := d3 + [',']; DepthSnoc(d3, ',');
    var d5 := d4 + ['2']; DepthSnoc(d4, '2');
    var d6 := d5 + [')']; DepthSnoc(d5, ')');
    assert a == d6;
    assert a[..0] == [] && a[..1] == d1 && a[..2] == d2 && a[..3] == d3;
    assert a[..4] == d4 && a[..5] == d5;
    PiecesKeepNested(a, ",3", 1, []);
    assert a + ",3" == s;
    assert [] + a == a;
    NestedPiecesTail(a);
  }

  lemma NestedPiecesTail(a: string)
    ensures Pieces(",3", 1, a) == [a, "3"]
  {
    DepthSnoc([], '3');
    PiecesKeepNested("3", [], 1, []);
    assert "3" + [] == "3" && [] + "3" == "3";
    assert Pieces("3", 1, []) == ["3"];
    assert Pieces(",3", 1, a) == [a] + Pieces("3", 1, []);
  }

  lemma NestedCleanExample(a: string, b: string)
    requires a == "g(1,2)" && b == "3"
    ensures Clean([a, b]) == [a, b]
  {
    assert IsTrimmed(a) && IsTrimmed(b);
    assert Trim(a) == a && Trim(b) == b;
    var ps := [a, b];
    assert ps[..1] == [a] && [a][..0] == [];
    assert Clean([a]) == Clean([]) + [a];
    assert Clean(ps) == Clean([a]) + [b];
  }

  /** `csvToArray("g(1,2),3)")` is `["g(1,2)", "3"]`. */
  lemma NestedCommaExample(s: string)
    requires s == "g(1,2),3)"
    ensures ArgList(s) == ["g(1,2)", "3"]
  {
    NestedSpanExample();
    var a := "g(1,2)";
    NestedPiecesExample(SpanText(s), a);
    NestedCleanExample(a, "3");
  }
}
