/** Step A of the tiler: rewriting LaTeX delimiters into dollar form and, when
    no full LaTeX toolchain is present, adapting what the lightweight math
    renderer cannot typeset. The toolchain probe is the parameter `fullLatex`. */
module Delimiters {
  import opened PyText

  const InlineOpen: string := "\\("
  const InlineClose: string := "\\)"
  const DisplayOpen: string := "\\["
  const DisplayClose: string := "\\]"
  const BoxedMacro: string := "\\boxed"

  /** The table of macros the lightweight renderer rejects, with their
      replacements, in the order `_patch_macros` applies them. */
  const MacroTable: seq<(string, string)> := [
    ("\\implies", "\\Rightarrow"),
    ("\\qquad", "\\;"),
    ("\\enspace", "\\,")
  ]

  /** The marker a display pair becomes: `$$` for full LaTeX, `$` for the
      lightweight renderer. */
  function DisplayMarker(fullLatex: bool): string {
    if fullLatex then "$$" else "$"
  }

  /** The lines of a display body joined by single spaces
      (`" ".join(body.splitlines())`). */
  function CollapseLines(body: string): string {
    Join(SplitLines(body), " ")
  }

  /** What a matched pair with body `body` becomes. */
  function Rewrap(marker: string, collapse: bool, body: string): string {
    marker + (if collapse then CollapseLines(body) else body) + marker
  }

  /** `re.sub` of a lazy pair pattern `open(.*?)close` (dot matching newlines):
      scanning left to right, an `open` that has a later `close` is rewritten
      up to the FIRST such `close`, and scanning resumes after it. */
  function SubPairs(s: string, open: string, close: string, marker: string, collapse: bool): string
    requires |open| > 0
    decreases |s|
  {
    if PairClose(s, open, close).Some? then
      var j := PairClose(s, open, close).value;
      Rewrap(marker, collapse, s[|open|..j]) + SubPairs(s[j + |close|..], open, close, marker, collapse)
    else if s == [] then []
    else [s[0]] + SubPairs(s[1..], open, close, marker, collapse)
  }

  /** Where the `close` of a pair opened at the start of `s` begins. */
  function PairClose(s: string, open: string, close: string): (r: Option<nat>)
    ensures r.Some? ==> |open| <= r.value && r.value + |close| <= |s|
  {
    if OccursAt(s, open, 0) then FindFrom(s, close, |open|) else None
  }

  /** Where `\boxed\s*\{([^{}]*?)\}` matches at the start of `s`: the body's
      start and end indices. */
  function BoxedAt(s: string): (r: Option<(nat, nat)>)
    ensures r.Some? ==> |BoxedMacro| < r.value.0 <= r.value.1 < |s| && s[r.value.1] == '}'
  {
    if OccursAt(s, BoxedMacro, 0) then
      var k := SkipSpace(s, |BoxedMacro|);
      if k < |s| && s[k] == '{' then
        match FindBrace(s, k + 1)
        case Some(j) => if s[j] == '}' then Some((k + 1, j)) else None
        case None => None
      else None
    else None
  }

  /** The first brace at or after `from`. */
  function FindBrace(s: string, from: nat): (r: Option<nat>)
    ensures r.Some? ==> from <= r.value < |s| && (s[r.value] == '{' || s[r.value] == '}')
    decreases |s| - from
  {
    if from >= |s| then None
    else if s[from] == '{' || s[from] == '}' then Some(from)
    else FindBrace(s, from + 1)
  }

  /** `FindBrace` stops at the first brace. */
  lemma {:induction false} FindBraceIs(s: string, from: nat, n: nat)
    requires from <= n < |s| && (s[n] == '{' || s[n] == '}')
    requires forall k :: from <= k < n ==> s[k] != '{' && s[k] != '}'
    ensures FindBrace(s, from) == Some(n)
    decreases n - from
  {
    if from < n {
      FindBraceIs(s, from + 1, n);
    }
  }

  /** `FindBrace` passes over no brace. */
  lemma {:induction false} FindBraceSkips(s: string, from: nat)
    ensures var r := FindBrace(s, from);
      forall k :: from <= k < (if r.Some? then r.value else |s|) ==> s[k] != '{' && s[k] != '}'
    decreases |s| - from
  {
    if from < |s| && s[from] != '{' && s[from] != '}' {
      FindBraceSkips(s, from + 1);
    }
  }

  /** `re.sub(r"\\boxed\s*\{([^{}]*?)\}", r"\1", s)` */
  function SubBoxed(s: string): string
    decreases |s|
  {
    var r := BoxedAt(s);
    if r.Some? then s[r.value.0..r.value.1] + SubBoxed(s[r.value.1 + 1..])
    else if s == [] then []
    else [s[0]] + SubBoxed(s[1..])
  }

  /** The macro table applied in order, each entry by `str.replace`. */
  function ApplyTable(tex: string, table: seq<(string, string)>): string
    requires forall i :: 0 <= i < |table| ==> |table[i].0| > 0
    decreases |table|
  {
    if table == [] then tex else ApplyTable(ReplaceAll(tex, table[0].0, table[0].1), table[1..])
  }

  function MacrosPatched(tex: string): string {
    ApplyTable(tex, MacroTable)
  }

  /** `_patch_macros`: the loop reassigning `tex` once per table entry. */
  method PatchMacros(tex: string) returns (r: string)
    ensures r == MacrosPatched(tex)
  {
    r := tex;
    for i := 0 to |MacroTable|
      invariant ApplyTable(r, MacroTable[i..]) == MacrosPatched(tex)
    {
      assert MacroTable[i..][1..] == MacroTable[i + 1..];
      r := ReplaceAll(r, MacroTable[i].0, MacroTable[i].1);
    }
  }

  /** `_normalise_delimiters` */
  function Normalise(text: string, fullLatex: bool): string {
    var t1 := SubPairs(text, InlineOpen, InlineClose, "$", false);
    var t2 := SubPairs(t1, DisplayOpen, DisplayClose, DisplayMarker(fullLatex), true);
    if fullLatex then t2 else MacrosPatched(SubBoxed(t2))
  }

  // ----- properties -----

  lemma {:induction false} JoinNoBoundary(lines: seq<string>)
    requires forall k, i :: 0 <= k < |lines| && 0 <= i < |lines[k]| ==> !IsLineBoundary(lines[k][i])
    ensures forall i :: 0 <= i < |Join(lines, " ")| ==> !IsLineBoundary(Join(lines, " ")[i])
  {
    if |lines| > 1 {
      JoinNoBoundary(lines[..|lines| - 1]);
    }
  }

  /** A collapsed display body holds no line break. */
  lemma {:induction false} CollapseLinesOneLine(body: string)
    ensures forall i :: 0 <= i < |CollapseLines(body)| ==> !IsLineBoundary(CollapseLines(body)[i])
  {
    SplitLinesNoBoundary(body);
    JoinNoBoundary(SplitLines(body));
  }

  /** A display body without line breaks is kept unchanged. */
  lemma {:induction false} CollapseSingleLine(body: string)
    requires forall i :: 0 <= i < |body| ==> !IsLineBoundary(body[i])
    ensures CollapseLines(body) == body
  {
    if body != [] {
      assert FirstBoundary(body, 0) == |body|;
    }
  }

  /** With no `open` in the text, the pair substitution is the identity. */
  lemma {:induction false} SubPairsNoOpen(s: string, open: string, close: string, marker: string, collapse: bool)
    requires |open| > 0 && NoOcc(s, open)
    ensures SubPairs(s, open, close, marker, collapse) == s
  {
    if s != [] {
      assert !OccursAt(s, open, 0);
      NoOccTail(s, open);
      SubPairsNoOpen(s[1..], open, close, marker, collapse);
      assert [s[0]] + s[1..] == s;
    }
  }

  lemma {:induction false} SubPairsSkip(s: string, open: string, close: string, marker: string, collapse: bool)
    requires |open| > 0 && s != [] && !OccursAt(s, open, 0)
    ensures SubPairs(s, open, close, marker, collapse) == [s[0]] + SubPairs(s[1..], open, close, marker, collapse)
  {
  }

  /** In `open + x + close + b`, with no `close` inside `x`, the first `close`
      after `open` is the one right after `x`. */
  lemma {:induction false} FirstCloseAfter(open: string, x: string, close: string, b: string)
    requires UniqueHead(close) && NoOcc(x, close)
    ensures FindFrom(open + x + close + b, close, |open|) == Some(|open| + |x|)
  {
    var t := x + close + b;
    var s := open + t;
    assert s == open + x + close + b;
    NoStraddle(x, close, b);
    forall k | |open| <= k < |open| + |x| ensures !OccursAt(s, close, k) {
      OccursShift(open, t, close, k - |open|);
    }
    OccursShift(open, t, close, |x|);
    FindFromIs(s, close, |open|, |open| + |x|);
  }

  lemma {:induction false} SubPairsMatch(s: string, open: string, close: string, marker: string, collapse: bool)
    requires |open| > 0 && PairClose(s, open, close).Some?
    ensures SubPairs(s, open, close, marker, collapse)
         == Rewrap(marker, collapse, s[|open|..PairClose(s, open, close).value])
            + SubPairs(s[PairClose(s, open, close).value + |close|..], open, close, marker, collapse)
  {
  }

  lemma {:induction false} SubPairsAtOpen(x: string, b: string, open: string, close: string, marker: string, collapse: bool)
    requires UniqueHead(open) && UniqueHead(close) && NoOcc(x, close)
    ensures SubPairs(open + x + close + b, open, close, marker, collapse) == Rewrap(marker, collapse, x) + SubPairs(b, open, close, marker, collapse)
  {
    var s := open + x + close + b;
    FirstCloseAfter(open, x, close, b);
    assert s[..|open|] == open;
    var j := |open| + |x|;
    assert PairClose(s, open, close) == Some(j);
    assert s[|open|..j] == x;
    assert s[j + |close|..] == b;
    calc {
      SubPairs(s, open, close, marker, collapse);
      { SubPairsMatch(s, open, close, marker, collapse); }
      Rewrap(marker, collapse, s[|open|..PairClose(s, open, close).value])
        + SubPairs(s[PairClose(s, open, close).value + |close|..], open, close, marker, collapse);
      Rewrap(marker, collapse, x) + SubPairs(b, open, close, marker, collapse);
    }
  }

  /** A prefix in which no `open` starts is copied through unchanged. */
  lemma {:induction false} SubPairsPrefix(a: string, t: string, open: string, close: string, marker: string, collapse: bool)
    requires |open| > 0
    requires forall k :: 0 <= k < |a| ==> !OccursAt(a + t, open, k)
    ensures SubPairs(a + t, open, close, marker, collapse) == a + SubPairs(t, open, close, marker, collapse)
    decreases |a|
  {
    if a == [] {
      assert a + t == t;
    } else {
      var s := a + t;
      assert !OccursAt(s, open, 0);
      assert s[1..] == a[1..] + t;
      forall k | 0 <= k < |a[1..]| ensures !OccursAt(a[1..] + t, open, k) {
        OccursShift([a[0]], a[1..] + t, open, k);
        assert [a[0]] + (a[1..] + t) == s;
        assert !OccursAt(s, open, k + 1);
      }
      calc {
        SubPairs(s, open, close, marker, collapse);
        { SubPairsSkip(s, open, close, marker, collapse); }
        [s[0]] + SubPairs(s[1..], open, close, marker, collapse);
        { SubPairsPrefix(a[1..], t, open, close, marker, collapse); }
        [a[0]] + (a[1..] + SubPairs(t, open, close, marker, collapse));
        { assert [a[0]] + a[1..] == a; }
        a + SubPairs(t, open, close, marker, collapse);
      }
    }
  }

  /** The leftmost `open` with no `close` inside its body is rewritten with its
      body `x` intact, and the substitution continues after the first `close`.
      This is the leftmost-shortest pairing; `x` may span lines. */
  lemma {:induction false} SubPairsFirst(a: string, x: string, b: string, open: string, close: string, marker: string, collapse: bool)
    requires UniqueHead(open) && UniqueHead(close)
    requires NoOcc(a, open) && NoOcc(x, close)
    ensures SubPairs(a + open + x + close + b, open, close, marker, collapse) == a + Rewrap(marker, collapse, x) + SubPairs(b, open, close, marker, collapse)
  {
    var rest := open + x + close + b;
    assert a + open + x + close + b == a + rest;
    NoStraddle(a, open, x + close + b);
    assert a + open + (x + close + b) == a + rest;
    SubPairsPrefix(a, rest, open, close, marker, collapse);
    SubPairsAtOpen(x, b, open, close, marker, collapse);
  }

  /** `\( X \)` becomes `$X$`. */
  lemma {:induction false} InlineFirst(a: string, x: string, b: string)
    requires NoOcc(a, InlineOpen) && NoOcc(x, InlineClose)
    ensures SubPairs(a + InlineOpen + x + InlineClose + b, InlineOpen, InlineClose, "$", false)
         == a + "$" + x + "$" + SubPairs(b, InlineOpen, InlineClose, "$", false)
  {
    SubPairsFirst(a, x, b, InlineOpen, InlineClose, "$", false);
  }

  /** `\[ X \]` becomes `$$X'$$` with a full toolchain and `$X'$` without one,
      where `X'` is `X` with its lines joined by single spaces. */
  lemma {:induction false} DisplayFirst(a: string, x: string, b: string, fullLatex: bool)
    requires NoOcc(a, DisplayOpen) && NoOcc(x, DisplayClose)
    ensures SubPairs(a + DisplayOpen + x + DisplayClose + b, DisplayOpen, DisplayClose, DisplayMarker(fullLatex), true)
         == a + (if fullLatex then "$$" + CollapseLines(x) + "$$" else "$" + CollapseLines(x) + "$")
              + SubPairs(b, DisplayOpen, DisplayClose, DisplayMarker(fullLatex), true)
  {
    SubPairsFirst(a, x, b, DisplayOpen, DisplayClose, DisplayMarker(fullLatex), true);
  }

  /** With no `\boxed` in the text, stripping it is the identity. */
  lemma {:induction false} SubBoxedNoMacro(s: string)
    requires NoOcc(s, BoxedMacro)
    ensures SubBoxed(s) == s
  {
    if s != [] {
      assert !OccursAt(s, BoxedMacro, 0);
      NoOccTail(s, BoxedMacro);
      SubBoxedNoMacro(s[1..]);
      assert [s[0]] + s[1..] == s;
    }
  }

  lemma {:induction false} SubBoxedSkip(s: string)
    requires s != [] && !OccursAt(s, BoxedMacro, 0)
    ensures SubBoxed(s) == [s[0]] + SubBoxed(s[1..])
  {
  }

  lemma {:induction false} BoxedAtMacro(ws: string, x: string, b: string)
    requires AllSpace(ws)
    requires forall i :: 0 <= i < |x| ==> x[i] != '{' && x[i] != '}'
    ensures var k := |BoxedMacro| + |ws| + 1;
            BoxedAt(BoxedMacro + ws + "{" + x + "}" + b) == Some((k, k + |x|))
  {
    var s := BoxedMacro + ws + "{" + x + "}" + b;
    var m := |BoxedMacro|;
    var k := m + |ws|;
    assert s[..m] == BoxedMacro;
    assert forall i :: m <= i < k ==> s[i] == ws[i - m];
    assert s[k] == '{';
    assert SkipSpace(s, m) == k;
    assert forall i :: k + 1 <= i < k + 1 + |x| ==> s[i] == x[i - k - 1];
    assert s[k + 1 + |x|] == '}';
    FindBraceIs(s, k + 1, k + 1 + |x|);
  }

  lemma {:induction false} SubBoxedMatch(s: string)
    requires BoxedAt(s).Some?
    ensures SubBoxed(s) == s[BoxedAt(s).value.0..BoxedAt(s).value.1] + SubBoxed(s[BoxedAt(s).value.1 + 1..])
  {
  }

  lemma {:induction false} SubBoxedAtMacro(ws: string, x: string, b: string)
    requires AllSpace(ws)
    requires forall i :: 0 <= i < |x| ==> x[i] != '{' && x[i] != '}'
    ensures SubBoxed(BoxedMacro + ws + "{" + x + "}" + b) == x + SubBoxed(b)
  {
    var k := |BoxedMacro| + |ws| + 1;
    BoxedAtMacro(ws, x, b);
    BoxedSlices(ws, x, b);
    SubBoxedMatch(BoxedMacro + ws + "{" + x + "}" + b);
  }

  lemma {:induction false} BoxedSlices(ws: string, x: string, b: string)
    ensures var s, k := BoxedMacro + ws + "{" + x + "}" + b, |BoxedMacro| + |ws| + 1;
            s[k..k + |x|] == x && s[k + |x| + 1..] == b
  {
    var pre := BoxedMacro + ws + "{";
    var t := x + ("}" + b);
    assert BoxedMacro + ws + "{" + x + "}" + b == pre + t;
    assert t[..|x|] == x;
    assert t[|x| + 1..] == b;
  }

  /** A prefix in which no `\boxed` starts is copied through unchanged. */
  lemma {:induction false} SubBoxedPrefix(a: string, t: string)
    requires forall k :: 0 <= k < |a| ==> !OccursAt(a + t, BoxedMacro, k)
    ensures SubBoxed(a + t) == a + SubBoxed(t)
    decreases |a|
  {
    if a == [] {
      assert a + t == t;
    } else {
      var s := a + t;
      assert !OccursAt(s, BoxedMacro, 0);
      assert s[1..] == a[1..] + t;
      forall k | 0 <= k < |a[1..]| ensures !OccursAt(a[1..] + t, BoxedMacro, k) {
        OccursShift([a[0]], a[1..] + t, BoxedMacro, k);
        assert [a[0]] + (a[1..] + t) == s;
        assert !OccursAt(s, BoxedMacro, k + 1);
      }
      calc {
        SubBoxed(s);
        { SubBoxedSkip(s); }
        [s[0]] + SubBoxed(s[1..]);
        { SubBoxedPrefix(a[1..], t); }
        [a[0]] + (a[1..] + SubBoxed(t));
        { assert [a[0]] + a[1..] == a; }
        a + SubBoxed(t);
      }
    }
  }

  /** The leftmost `\boxed {X}` with a brace-free `X` is reduced to `X`. */
  lemma {:induction false} SubBoxedFirst(a: string, ws: string, x: string, b: string)
    requires NoOcc(a, BoxedMacro) && AllSpace(ws)
    requires forall i :: 0 <= i < |x| ==> x[i] != '{' && x[i] != '}'
    ensures SubBoxed(a + BoxedMacro + ws + "{" + x + "}" + b) == a + x + SubBoxed(b)
  {
    var rest := BoxedMacro + ws + "{" + x + "}" + b;
    assert a + BoxedMacro + ws + "{" + x + "}" + b == a + rest;
    assert UniqueHead(BoxedMacro);
    NoStraddle(a, BoxedMacro, ws + "{" + x + "}" + b);
    assert a + BoxedMacro + (ws + "{" + x + "}" + b) == a + rest;
    SubBoxedPrefix(a, rest);
    SubBoxedAtMacro(ws, x, b);
  }

  /** Text holding none of the table's macros is left alone by `_patch_macros`. */
  lemma {:induction false} MacrosPatchedNoMacro(tex: string)
    requires forall i :: 0 <= i < |MacroTable| ==> NoOcc(tex, MacroTable[i].0)
    ensures MacrosPatched(tex) == tex
  {
    ApplyTableNoOcc(tex, MacroTable);
  }

  lemma {:induction false} ApplyTableNoOcc(tex: string, table: seq<(string, string)>)
    requires forall i :: 0 <= i < |table| ==> |table[i].0| > 0 && NoOcc(tex, table[i].0)
    ensures ApplyTable(tex, table) == tex
    decreases |table|
  {
    if table != [] {
      ReplaceAllNoOcc(tex, table[0].0, table[0].1);
      assert forall i :: 0 <= i < |table[1..]| ==> table[1..][i] == table[i + 1];
      ApplyTableNoOcc(tex, table[1..]);
    }
  }

  /** Each table macro is replaced at its leftmost occurrence. */
  lemma {:induction false} MacroReplacedFirst(i: nat, a: string, b: string)
    requires i < |MacroTable| && NoOcc(a, MacroTable[i].0)
    ensures ReplaceAll(a + MacroTable[i].0 + b, MacroTable[i].0, MacroTable[i].1)
         == a + MacroTable[i].1 + ReplaceAll(b, MacroTable[i].0, MacroTable[i].1)
  {
    assert UniqueHead(MacroTable[i].0);
    ReplaceAllFirst(a, MacroTable[i].0, MacroTable[i].1, b);
  }

  /** A text in which no opener has a closer after it is left alone by the
      pair substitution, even when it holds an unterminated opener. */
  lemma {:induction false} SubPairsNoPair(s: string, open: string, close: string, marker: string, collapse: bool)
    requires |open| > 0
    requires forall i :: 0 <= i <= |s| ==> PairClose(s[i..], open, close).None?
    ensures SubPairs(s, open, close, marker, collapse) == s
    decreases |s|
  {
    if s != [] {
      assert s[0..] == s;
      forall i | 0 <= i <= |s[1..]| ensures PairClose(s[1..][i..], open, close).None? {
        assert s[1..][i..] == s[i + 1..];
      }
      SubPairsNoPair(s[1..], open, close, marker, collapse);
      assert [s[0]] + s[1..] == s;
    }
  }

  /** A text in which `\boxed\s*\{[^{}]*\}` matches nowhere is left alone by
      the `\boxed` pass, even when it holds `\boxed` without a brace-free
      group. */
  lemma {:induction false} SubBoxedNoMatch(s: string)
    requires forall i :: 0 <= i <= |s| ==> BoxedAt(s[i..]).None?
    ensures SubBoxed(s) == s
    decreases |s|
  {
    if s != [] {
      assert s[0..] == s;
      forall i | 0 <= i <= |s[1..]| ensures BoxedAt(s[1..][i..]).None? {
        assert s[1..][i..] == s[i + 1..];
      }
      SubBoxedNoMatch(s[1..]);
      assert [s[0]] + s[1..] == s;
    }
  }

  /** Already canonical text is a fixpoint of normalisation: no complete
      `\(…\)` and no complete `\[…\]` and, without a full toolchain, no
      `\boxed{…}` match and no table macro. */
  lemma {:induction false} NormaliseCanonical(text: string, fullLatex: bool)
    requires forall i :: 0 <= i <= |text| ==> PairClose(text[i..], InlineOpen, InlineClose).None?
    requires forall i :: 0 <= i <= |text| ==> PairClose(text[i..], DisplayOpen, DisplayClose).None?
    requires !fullLatex ==> forall i :: 0 <= i <= |text| ==> BoxedAt(text[i..]).None?
    requires !fullLatex ==> forall i :: 0 <= i < |MacroTable| ==> NoOcc(text, MacroTable[i].0)
    ensures Normalise(text, fullLatex) == text
  {
    SubPairsNoPair(text, InlineOpen, InlineClose, "$", false);
    SubPairsNoPair(text, DisplayOpen, DisplayClose, DisplayMarker(fullLatex), true);
    if !fullLatex {
      SubBoxedNoMatch(text);
      MacrosPatchedNoMacro(text);
    }
  }

  /** Every pattern of this step starts with a backslash, so text without one
      is never changed. */
  lemma {:induction false} NormaliseNoBackslash(text: string, fullLatex: bool)
    requires '\\' !in text
    ensures Normalise(text, fullLatex) == text
  {
    NormaliseNoBackslashSteps(text, fullLatex);
  }

  /** A text whose only backslash starts `m` holds no occurrence of a
      backslash pattern whose second character differs from `m`'s. */
  lemma {:induction false} OneBackslashNoOcc(a: string, m: string, b: string, p: string)
    requires '\\' !in a && '\\' !in b
    requires |m| >= 2 && m[0] == '\\' && '\\' !in m[1..]
    requires |p| >= 2 && p[0] == '\\' && p[1] != m[1]
    ensures NoOcc(a + m + b, p)
  {
    NoOccSecondDiffers(m, b, p);
    NoOccPrepend(a, m + b, p);
    assert a + (m + b) == a + m + b;
  }

  /** The two pair passes leave a text alone whose only backslash starts `m`,
      unless `m` opens a pair. */
  lemma {:induction false} PairsSkipOneBackslash(a: string, m: string, b: string, fullLatex: bool)
    requires '\\' !in a && '\\' !in b
    requires |m| >= 2 && m[0] == '\\' && '\\' !in m[1..] && m[1] != '(' && m[1] != '['
    ensures var s := a + m + b;
      var t1 := SubPairs(s, InlineOpen, InlineClose, "$", false);
      t1 == s && SubPairs(t1, DisplayOpen, DisplayClose, DisplayMarker(fullLatex), true) == s
  {
    var s := a + m + b;
    OneBackslashNoOcc(a, m, b, InlineOpen);
    OneBackslashNoOcc(a, m, b, DisplayOpen);
    SubPairsNoOpen(s, InlineOpen, InlineClose, "$", false);
    SubPairsNoOpen(s, DisplayOpen, DisplayClose, DisplayMarker(fullLatex), true);
  }

  /** With a full toolchain `\boxed{X}` survives normalisation; without one it
      is reduced to `X`, here inside any text free of backslashes. */
  lemma {:induction false} BoxedOnlyWithoutLatex(a: string, x: string, b: string)
    requires '\\' !in a && '\\' !in x && '\\' !in b && '{' !in x && '}' !in x
    ensures Normalise(a + BoxedMacro + "{" + x + "}" + b, true) == a + BoxedMacro + "{" + x + "}" + b
    ensures Normalise(a + BoxedMacro + "{" + x + "}" + b, false) == a + x + b
  {
    var m := BoxedMacro + "{" + x + "}";
    var s := a + m + b;
    assert s == a + BoxedMacro + "{" + x + "}" + b;
    assert m[1..] == "boxed{" + x + "}";
    PairsSkipOneBackslash(a, m, b, true);
    PairsSkipOneBackslash(a, m, b, false);
    calc {
      Normalise(s, false);
      MacrosPatched(SubBoxed(SubPairs(SubPairs(s, InlineOpen, InlineClose, "$", false), DisplayOpen, DisplayClose, DisplayMarker(false), true)));
      MacrosPatched(SubBoxed(s));
      { BoxedDropped(a, x, b); }
      MacrosPatched(a + x + b);
      { MacrosPatchedNoBackslash(a + x + b); }
      a + x + b;
    }
  }

  /** `\boxed{X}` with a brace-free `X` in backslash-free text is replaced by `X`. */
  lemma {:induction false} BoxedDropped(a: string, x: string, b: string)
    requires '\\' !in a && '\\' !in b && '{' !in x && '}' !in x
    ensures SubBoxed(a + BoxedMacro + "{" + x + "}" + b) == a + x + b
  {
    NoOccWithoutHead(a, BoxedMacro);
    NoOccWithoutHead(b, BoxedMacro);
    forall i | 0 <= i < |x| ensures x[i] != '{' && x[i] != '}' {
      assert x[i] in x;
    }
    assert a + BoxedMacro + "{" + x + "}" + b == a + BoxedMacro + [] + "{" + x + "}" + b;
    SubBoxedFirst(a, [], x, b);
    SubBoxedNoMacro(b);
  }

  /** Text without a backslash holds none of the table's macros. */
  lemma {:induction false} MacrosPatchedNoBackslash(t: string)
    requires '\\' !in t
    ensures MacrosPatched(t) == t
  {
    forall i | 0 <= i < |MacroTable| ensures NoOcc(t, MacroTable[i].0) {
      NoOccWithoutHead(t, MacroTable[i].0);
    }
    MacrosPatchedNoMacro(t);
  }

  /** The three replacements of `_patch_macros`, one after another. */
  lemma {:induction false} MacrosPatchedSteps(tex: string)
    ensures MacrosPatched(tex)
         == ReplaceAll(ReplaceAll(ReplaceAll(tex, "\\implies", "\\Rightarrow"), "\\qquad", "\\;"), "\\enspace", "\\,")
  {
    var t := MacroTable;
    assert t[1..] == [t[1], t[2]];
    assert t[1..][1..] == [t[2]];
    assert t[1..][1..][1..] == [];
  }

  /** `replace` of a pattern that does not occur in `a + m + b`, whose only
      backslash starts `m`, changes nothing. */
  lemma {:induction false} ReplaceMiss(a: string, m: string, b: string, p: string, r: string)
    requires '\\' !in a && '\\' !in b
    requires |m| >= 2 && m[0] == '\\' && '\\' !in m[1..]
    requires |p| >= 2 && p[0] == '\\' && p[1] != m[1]
    ensures ReplaceAll(a + m + b, p, r) == a + m + b
  {
    OneBackslashNoOcc(a, m, b, p);
    ReplaceAllNoOcc(a + m + b, p, r);
  }

  /** `replace` of a backslash pattern occurring once in otherwise
      backslash-free text. */
  lemma {:induction false} ReplaceHit(a: string, p: string, b: string, r: string)
    requires '\\' !in a && '\\' !in b && UniqueHead(p) && p[0] == '\\'
    ensures ReplaceAll(a + p + b, p, r) == a + r + b
  {
    NoOccWithoutHead(a, p);
    NoOccWithoutHead(b, p);
    ReplaceAllFirst(a, p, r, b);
    ReplaceAllNoOcc(b, p, r);
  }

  /** `_patch_macros` on text whose only backslash starts `m`, given what
      each of the three replacements makes of it. */
  lemma {:induction false} PatchChain(a: string, b: string, m0: string, m1: string, m2: string, m3: string)
    requires ReplaceAll(a + m0 + b, "\\implies", "\\Rightarrow") == a + m1 + b
    requires ReplaceAll(a + m1 + b, "\\qquad", "\\;") == a + m2 + b
    requires ReplaceAll(a + m2 + b, "\\enspace", "\\,") == a + m3 + b
    ensures MacrosPatched(a + m0 + b) == a + m3 + b
  {
    MacrosPatchedSteps(a + m0 + b);
  }

  /** `_patch_macros` rewrites one table macro in otherwise backslash-free
      text to its replacement, whichever entry it is: no replacement creates
      a macro handled later. */
  lemma {:induction false} MacroPatchedOne(i: nat, a: string, b: string)
    requires i < |MacroTable| && '\\' !in a && '\\' !in b
    ensures MacrosPatched(a + MacroTable[i].0 + b) == a + MacroTable[i].1 + b
  {
    var k0, k1, k2 := "\\implies", "\\qquad", "\\enspace";
    var v0, v1, v2 := "\\Rightarrow", "\\;", "\\,";
    if i == 0 {
      assert v0[1..] == "Rightarrow";
      ReplaceHit(a, k0, b, v0);
      ReplaceMiss(a, v0, b, k1, v1);
      ReplaceMiss(a, v0, b, k2, v2);
      PatchChain(a, b, k0, v0, v0, v0);
    } else if i == 1 {
      assert k1[1..] == "qquad" && v1[1..] == ";";
      ReplaceMiss(a, k1, b, k0, v0);
      ReplaceHit(a, k1, b, v1);
      ReplaceMiss(a, v1, b, k2, v2);
      PatchChain(a, b, k1, k1, v1, v1);
    } else {
      assert k2[1..] == "enspace";
      ReplaceMiss(a, k2, b, k0, v0);
      ReplaceMiss(a, k2, b, k1, v1);
      ReplaceHit(a, k2, b, v2);
      PatchChain(a, b, k2, k2, k2, v2);
    }
  }

  /** A table macro in otherwise backslash-free text is kept with a full
      toolchain and replaced without one. */
  lemma {:induction false} NormaliseMacro(i: nat, a: string, b: string)
    requires i < |MacroTable| && '\\' !in a && '\\' !in b
    ensures Normalise(a + MacroTable[i].0 + b, true) == a + MacroTable[i].0 + b
    ensures Normalise(a + MacroTable[i].0 + b, false) == a + MacroTable[i].1 + b
  {
    var m := MacroTable[i].0;
    var s := a + m + b;
    assert m[1..] == (if i == 0 then "implies" else if i == 1 then "qquad" else "enspace");
    PairsSkipOneBackslash(a, m, b, true);
    PairsSkipOneBackslash(a, m, b, false);
    OneBackslashNoOcc(a, m, b, BoxedMacro);
    SubBoxedNoMacro(s);
    MacroPatchedOne(i, a, b);
  }

  /** One inline pair in otherwise backslash-free text, as in
      `The answer is \(x^2\).`, becomes `$x^2$` in both modes and nothing
      else changes. */
  lemma {:induction false} NormaliseInline(a: string, x: string, b: string, fullLatex: bool)
    requires '\\' !in a && '\\' !in x && '\\' !in b
    ensures Normalise(a + InlineOpen + x + InlineClose + b, fullLatex) == a + "$" + x + "$" + b
  {
    var s := a + InlineOpen + x + InlineClose + b;
    var t := a + "$" + x + "$" + b;
    NoOccWithoutHead(a, InlineOpen);
    NoOccWithoutHead(x, InlineClose);
    NoOccWithoutHead(b, InlineOpen);
    calc {
      SubPairs(s, InlineOpen, InlineClose, "$", false);
      { InlineFirst(a, x, b); }
      a + "$" + x + "$" + SubPairs(b, InlineOpen, InlineClose, "$", false);
      { SubPairsNoOpen(b, InlineOpen, InlineClose, "$", false); }
      t;
    }
    NormaliseNoBackslashSteps(t, fullLatex);
  }

  /** Each step of the normaliser leaves text without backslashes alone. */
  lemma {:induction false} NormaliseNoBackslashSteps(t: string, fullLatex: bool)
    requires '\\' !in t
    ensures SubPairs(t, InlineOpen, InlineClose, "$", false) == t
    ensures var t2 := SubPairs(t, DisplayOpen, DisplayClose, DisplayMarker(fullLatex), true);
            t2 == t && (fullLatex || MacrosPatched(SubBoxed(t2)) == t)
  {
    NoOccWithoutHead(t, InlineOpen);
    SubPairsNoOpen(t, InlineOpen, InlineClose, "$", false);
    NoOccWithoutHead(t, DisplayOpen);
    SubPairsNoOpen(t, DisplayOpen, DisplayClose, DisplayMarker(fullLatex), true);
    NoOccWithoutHead(t, BoxedMacro);
    SubBoxedNoMacro(t);
    forall i | 0 <= i < |MacroTable| ensures NoOcc(t, MacroTable[i].0) {
      NoOccWithoutHead(t, MacroTable[i].0);
    }
    MacrosPatchedNoMacro(t);
  }
  /** No table macro occurs in a text whose only backslash starts `m`, when
      `m`'s second character starts none of them. */
  lemma {:induction false} MacrosSkipOneBackslash(a: string, m: string, b: string)
    requires '\\' !in a && '\\' !in b
    requires |m| >= 2 && m[0] == '\\' && '\\' !in m[1..] && m[1] !in "iqe"
    ensures MacrosPatched(a + m + b) == a + m + b
  {
    OneBackslashNoOcc(a, m, b, MacroTable[0].0);
    OneBackslashNoOcc(a, m, b, MacroTable[1].0);
    OneBackslashNoOcc(a, m, b, MacroTable[2].0);
    MacrosPatchedNoMacro(a + m + b);
  }

  /** An unterminated `\(` has no pair, so the inline pass keeps it. */
  lemma {:induction false} UnterminatedInlinePass(a: string, b: string)
    requires '\\' !in a && '\\' !in b
    ensures SubPairs(a + InlineOpen + b, InlineOpen, InlineClose, "$", false) == a + InlineOpen + b
  {
    var u := InlineOpen + b;
    NoOccWithoutHead(a, InlineOpen);
    NoStraddle(a, InlineOpen, b);
    assert a + u == a + InlineOpen + b;
    SubPairsPrefix(a, u, InlineOpen, InlineClose, "$", false);
    NoOccWithoutHead(b, InlineClose);
    forall k | 2 <= k ensures !OccursAt(u, InlineClose, k) {
      OccursShift(InlineOpen, b, InlineClose, k - 2);
    }
    FindFromNoneIs(u, InlineClose, 2);
    assert u[1..] == "(" + b;
    NoOccWithoutHead(u[1..], InlineOpen);
    SubPairsNoOpen(u[1..], InlineOpen, InlineClose, "$", false);
    assert [u[0]] + u[1..] == u;
  }

  /** Malformed markup is kept: an unterminated `\(` in otherwise
      backslash-free text comes back unchanged in both modes. */
  lemma {:induction false} UnterminatedInlineKept(a: string, b: string, fullLatex: bool)
    requires '\\' !in a && '\\' !in b
    ensures Normalise(a + InlineOpen + b, fullLatex) == a + InlineOpen + b
  {
    var s := a + InlineOpen + b;
    UnterminatedInlinePass(a, b);
    assert InlineOpen[1..] == "(";
    OneBackslashNoOcc(a, InlineOpen, b, DisplayOpen);
    SubPairsNoOpen(s, DisplayOpen, DisplayClose, DisplayMarker(fullLatex), true);
    if !fullLatex {
      OneBackslashNoOcc(a, InlineOpen, b, BoxedMacro);
      SubBoxedNoMacro(s);
      MacrosSkipOneBackslash(a, InlineOpen, b);
    }
  }

  /** `\boxed{X{…` with a brace-free `X` does not match: the group's first
      brace opens instead of closing it. */
  lemma {:induction false} NestedBoxedNoMatch(x: string, b: string)
    requires '{' !in x && '}' !in x
    ensures BoxedAt(BoxedMacro + "{" + x + "{" + b) == None
  {
    var t := BoxedMacro + "{" + x + "{" + b;
    var n := |BoxedMacro|;
    assert t[..n] == BoxedMacro;
    assert t[n] == '{';
    assert SkipSpace(t, n) == n;
    assert forall i :: n + 1 <= i < n + 1 + |x| ==> t[i] == x[i - n - 1];
    forall i | n + 1 <= i < n + 1 + |x| ensures t[i] != '{' && t[i] != '}' {
      assert x[i - n - 1] in x;
    }
    assert t[n + 1 + |x|] == '{';
    FindBraceIs(t, n + 1, n + 1 + |x|);
  }

  /** The `\boxed` pass keeps a leading `\boxed{X{…` with no other backslash. */
  lemma {:induction false} NestedBoxedAtStart(x: string, b: string)
    requires '\\' !in x && '\\' !in b && '{' !in x && '}' !in x
    ensures SubBoxed(BoxedMacro + "{" + x + "{" + b) == BoxedMacro + "{" + x + "{" + b
  {
    var t := BoxedMacro + "{" + x + "{" + b;
    NestedBoxedNoMatch(x, b);
    assert t[1..] == "boxed{" + x + "{" + b;
    NoOccWithoutHead(t[1..], BoxedMacro);
    SubBoxedNoMacro(t[1..]);
    assert [t[0]] + t[1..] == t;
  }

  /** The `\boxed` pass keeps a `\boxed{X{…` in backslash-free text. */
  lemma {:induction false} NestedBoxedPass(a: string, x: string, b: string)
    requires '\\' !in a && '\\' !in x && '\\' !in b && '{' !in x && '}' !in x
    ensures SubBoxed(a + BoxedMacro + "{" + x + "{" + b) == a + BoxedMacro + "{" + x + "{" + b
  {
    var rest := "{" + x + "{" + b;
    var t := BoxedMacro + "{" + x + "{" + b;
    assert a + BoxedMacro + rest == a + t;
    assert a + t == a + BoxedMacro + "{" + x + "{" + b;
    NoOccWithoutHead(a, BoxedMacro);
    assert UniqueHead(BoxedMacro);
    NoStraddle(a, BoxedMacro, rest);
    calc {
      SubBoxed(a + t);
      { SubBoxedPrefix(a, t); }
      a + SubBoxed(t);
      { NestedBoxedAtStart(x, b); }
      a + t;
    }
  }

  /** Malformed markup is kept: `\boxed{X{…}…}`, such as `\boxed{a{b}}`, is
      not a match of the brace-free group, so it comes back unchanged in
      both modes. */
  lemma {:induction false} NestedBoxedKept(a: string, x: string, b: string, fullLatex: bool)
    requires '\\' !in a && '\\' !in x && '\\' !in b && '{' !in x && '}' !in x
    ensures Normalise(a + BoxedMacro + "{" + x + "{" + b, fullLatex) == a + BoxedMacro + "{" + x + "{" + b
  {
    var m := BoxedMacro + "{" + x + "{";
    var s := a + m + b;
    assert s == a + BoxedMacro + "{" + x + "{" + b;
    assert m[1..] == "boxed{" + x + "{";
    PairsSkipOneBackslash(a, m, b, fullLatex);
    if !fullLatex {
      NestedBoxedPass(a, x, b);
      MacrosSkipOneBackslash(a, m, b);
    }
  }
}
