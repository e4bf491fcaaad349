/** Step D of the tiler: soft-wrapping one line. Fenced-code and heading lines
    pass through; any other line is cut into `$…$` spans and the plain runs
    between them, and only the plain runs are reflowed. The reflow itself
    (`textwrap.fill` at `WRAP_WIDTH`, 90 columns) is the parameter `fill`. */
module Wrapper {
  import opened PyText

  /** `(\$[^$]*\$)` matches exactly: a dollar, no dollars, a dollar. */
  predicate IsMathSpan(p: string) {
    |p| >= 2 && p[0] == '$' && p[|p| - 1] == '$' && forall k :: 0 < k < |p| - 1 ==> p[k] != '$'
  }

  /** `_INLINE_MATH_RE.split(line)`: the plain run before the leftmost span,
      the span, and so on; the last element is the plain rest. A `$` with no
      later `$` stays in the plain rest. */
  function SplitMath(s: string): (parts: seq<string>)
    decreases |s|
  {
    var m := FindChar(s, 0, '$');
    if m < |s| && FindChar(s, m + 1, '$') < |s| then
      var e := FindChar(s, m + 1, '$');
      [s[..m], s[m..e + 1]] + SplitMath(s[e + 1..])
    else [s]
  }

  /** Whether `line.lstrip()` starts with a fence or a hash. */
  predicate PassesThrough(line: string) {
    OccursAt(LStrip(line), "```", 0) || OccursAt(LStrip(line), "#", 0)
  }

  /** What the loop appends for one part. */
  function Piece(part: string, fill: string -> string): string {
    if part == [] then [] else if IsMathSpan(part) then part else fill(part)
  }

  function Pieces(parts: seq<string>, fill: string -> string): string {
    if parts == [] then [] else Piece(parts[0], fill) + Pieces(parts[1..], fill)
  }

  /** The reference definition of `_wrap_line`. */
  function WrapSpec(line: string, fill: string -> string): string {
    if PassesThrough(line) then line else Pieces(SplitMath(line), fill)
  }

  /** `_wrap_line`: the loop accumulating into `wrapped`, skipping empty parts. */
  method WrapLine(line: string, fill: string -> string) returns (wrapped: string)
    ensures wrapped == WrapSpec(line, fill)
  {
    if PassesThrough(line) {
      return line;
    }
    var parts := SplitMath(line);
    wrapped := [];
    for i := 0 to |parts|
      invariant wrapped == Pieces(parts[..i], fill)
    {
      var part := parts[i];
      PiecesSnoc(parts[..i], part, fill);
      assert parts[..i + 1] == parts[..i] + [part];
      if part == [] {
        continue;
      }
      if IsMathSpan(part) {
        wrapped := wrapped + part;
      } else {
        wrapped := wrapped + fill(part);
      }
    }
    assert parts[..|parts|] == parts;
  }

  lemma {:induction false} PiecesSnoc(a: seq<string>, part: string, fill: string -> string)
    ensures Pieces(a + [part], fill) == Pieces(a, fill) + Piece(part, fill)
  {
    PiecesAppend(a, [part], fill);
    assert [part][1..] == [];
  }

  lemma {:induction false} PiecesStep(part: string, rest: seq<string>, fill: string -> string)
    ensures Pieces([part] + rest, fill) == Piece(part, fill) + Pieces(rest, fill)
  {
    assert ([part] + rest)[1..] == rest;
  }

  // ----- properties -----

  /** Lines whose left-stripped form starts with a fence or `#` are returned
      unchanged. */
  lemma {:induction false} FenceAndHeadingKept(line: string, fill: string -> string)
    requires PassesThrough(line)
    ensures WrapSpec(line, fill) == line
  {
  }

  lemma {:induction false} ConcatTwo(a: string, b: string, rest: seq<string>)
    ensures Concat([a, b] + rest) == a + (b + Concat(rest))
  {
    var parts := [a, b] + rest;
    assert parts[1..] == [b] + rest;
    assert parts[1..][1..] == rest;
  }

  /** The split loses nothing. */
  lemma {:induction false} SplitMathPartition(s: string)
    ensures Concat(SplitMath(s)) == s
    decreases |s|
  {
    if HasSpan(s) {
      var m := FindChar(s, 0, '$');
      var e := FindChar(s, m + 1, '$');
      SplitMathSpan(s, m, e);
      SplitMathPartition(s[e + 1..]);
      ConcatSpan(s, m, e, SplitMath(s), SplitMath(s[e + 1..]));
    } else {
      SplitMathNoSpan(s);
    }
  }

  lemma {:induction false} ConcatSpan(s: string, m: nat, e: nat, parts: seq<string>, rest: seq<string>)
    requires m <= e < |s| && Concat(rest) == s[e + 1..]
    requires parts == [s[..m], s[m..e + 1]] + rest
    ensures Concat(parts) == s
  {
    ConcatTwo(s[..m], s[m..e + 1], rest);
    assert s[m..e + 1] + s[e + 1..] == s[m..];
    assert s[..m] + s[m..] == s;
  }

  /** What part `k` of a split may hold: a `$…$` span at odd positions; no
      dollar in a plain run before the last; at most one in the last. */
  predicate PartShape(parts: seq<string>, k: nat)
    requires k < |parts|
  {
    if k % 2 == 1 then IsMathSpan(parts[k])
    else if k < |parts| - 1 then '$' !in parts[k]
    else LoneDollar(parts[k])
  }

  /** At most one dollar. */
  predicate LoneDollar(p: string) {
    forall i, j :: 0 <= i < j < |p| && p[i] == '$' ==> p[j] != '$'
  }

  /** Where the leftmost span of `s` starts and ends, if it has one. */
  predicate HasSpan(s: string) {
    FindChar(s, 0, '$') < |s| && FindChar(s, FindChar(s, 0, '$') + 1, '$') < |s|
  }

  lemma {:induction false} SplitMathSpan(s: string, m: nat, e: nat)
    requires m == FindChar(s, 0, '$') && m < |s|
    requires e == FindChar(s, m + 1, '$') && e < |s|
    ensures SplitMath(s) == [s[..m], s[m..e + 1]] + SplitMath(s[e + 1..])
  {
  }

  /** The run before the leftmost span holds no dollar. */
  lemma {:induction false} SpanPrefixPlain(s: string)
    requires HasSpan(s)
    ensures '$' !in s[..FindChar(s, 0, '$')]
  {
    FindCharSkips(s, 0, '$');
  }

  /** The leftmost span is a `$…$` span. */
  lemma {:induction false} SpanIsMath(s: string)
    requires HasSpan(s)
    ensures var m := FindChar(s, 0, '$');
      IsMathSpan(s[m..FindChar(s, m + 1, '$') + 1])
  {
    var m := FindChar(s, 0, '$');
    FindCharSkips(s, m + 1, '$');
  }

  /** A line without a complete span is one part, the line itself. */
  lemma {:induction false} SplitMathNoSpan(s: string)
    requires !HasSpan(s)
    ensures SplitMath(s) == [s] && LoneDollar(s) && Concat(SplitMath(s)) == s
  {
    assert [s][1..] == [];
    var m := FindChar(s, 0, '$');
    FindCharSkips(s, 0, '$');
    if m < |s| {
      FindCharSkips(s, m + 1, '$');
      forall i, j | 0 <= i < j < |s| && s[i] == '$' ensures s[j] != '$' {
        assert i >= m;
      }
    }
  }

  lemma {:induction false} ShapeCons(p0: string, p1: string, parts: seq<string>, rest: seq<string>)
    requires '$' !in p0 && IsMathSpan(p1)
    requires |rest| % 2 == 1 && forall k :: 0 <= k < |rest| ==> PartShape(rest, k)
    requires parts == [p0, p1] + rest
    ensures |parts| % 2 == 1 && forall k :: 0 <= k < |parts| ==> PartShape(parts, k)
  {
    forall k | 0 <= k < |parts| ensures PartShape(parts, k) {
      if k >= 2 {
        assert parts[k] == rest[k - 2];
        assert PartShape(rest, k - 2);
      }
    }
  }

  /** The split alternates plain runs and `$…$` spans, starting and ending with
      a plain run, and the plain runs hold no complete span. */
  lemma {:induction false} SplitMathKinds(s: string)
    ensures |SplitMath(s)| % 2 == 1
    ensures forall k :: 0 <= k < |SplitMath(s)| ==> PartShape(SplitMath(s), k)
    decreases |s|
  {
    if HasSpan(s) {
      var m := FindChar(s, 0, '$');
      var e := FindChar(s, m + 1, '$');
      SplitMathSpan(s, m, e);
      SpanPrefixPlain(s);
      SpanIsMath(s);
      SplitMathKinds(s[e + 1..]);
      ShapeCons(s[..m], s[m..e + 1], SplitMath(s), SplitMath(s[e + 1..]));
    } else {
      SplitMathNoSpan(s);
      assert PartShape([s], 0);
    }
  }

  lemma {:induction false} PiecesAppend(a: seq<string>, b: seq<string>, fill: string -> string)
    ensures Pieces(a + b, fill) == Pieces(a, fill) + Pieces(b, fill)
  {
    if a == [] {
      assert a + b == b;
    } else {
      assert (a + b)[1..] == a[1..] + b;
      PiecesAppend(a[1..], b, fill);
    }
  }

  /** Every `$…$` span of a wrapped line appears in the output verbatim and
      unbroken: the output is what precedes it, the span, and what follows. */
  lemma {:induction false} MathSpanKept(line: string, fill: string -> string, k: nat)
    requires !PassesThrough(line) && k < |SplitMath(line)| && k % 2 == 1
    ensures var parts := SplitMath(line);
      WrapSpec(line, fill) == Pieces(parts[..k], fill) + parts[k] + Pieces(parts[k + 1..], fill)
  {
    var parts := SplitMath(line);
    SplitMathKinds(line);
    assert PartShape(parts, k);
    PiecesAround(parts, k, fill);
  }

  /** The output for a list of parts around a math part at index `k`. */
  lemma {:induction false} PiecesAround(parts: seq<string>, k: nat, fill: string -> string)
    requires k < |parts| && IsMathSpan(parts[k])
    ensures Pieces(parts, fill) == Pieces(parts[..k], fill) + parts[k] + Pieces(parts[k + 1..], fill)
  {
    var a, p, rest := parts[..k], parts[k], parts[k + 1..];
    assert parts == a + ([p] + rest);
    calc {
      Pieces(parts, fill);
      Pieces(a + ([p] + rest), fill);
      { PiecesAppend(a, [p] + rest, fill); }
      Pieces(a, fill) + Pieces([p] + rest, fill);
      { PiecesStep(p, rest, fill); }
      Pieces(a, fill) + (Piece(p, fill) + Pieces(rest, fill));
      { assert Piece(p, fill) == p; }
      Pieces(a, fill) + (p + Pieces(rest, fill));
      Pieces(a, fill) + p + Pieces(rest, fill);
    }
  }

  /** A plain line without math or pass-through is handed to `fill` whole. */
  lemma {:induction false} MathFreeLine(line: string, fill: string -> string)
    requires line != [] && !PassesThrough(line) && '$' !in line
    ensures WrapSpec(line, fill) == fill(line)
  {
    FindCharSkips(line, 0, '$');
    assert FindChar(line, 0, '$') == |line|;
    assert SplitMath(line) == [line];
    assert !IsMathSpan(line) by { assert line[0] != '$'; }
    PiecesStep(line, [], fill);
    assert [line] + [] == [line];
    assert fill(line) + [] == fill(line);
  }
}
