/** Step B of the tiler: cutting normalised text into blocks with an ordered
    alternation of six patterns, tried in priority order at each position
    (fenced code, `$$…$$`, `$…$`, heading, horizontal rule, one line). The
    matches tile the text; blank ones are dropped and the rest lose their
    trailing newlines. */
module Blocks {
  import opened PyText

  datatype Kind = Fence | DisplayMath | InlineMath | Heading | Rule | Line

  /** One match of the block pattern: which alternative took it, and the text
      it covers. */
  datatype Token = Token(kind: Kind, text: string)

  const FenceMark: string := "```"
  const RuleMark: string := "---"

  /** `d.*?d` (dot matching newlines) at `i`: the end of the span up to and
      including the first `d` after the opening one. */
  function DelimitedEnd(s: string, i: nat, d: string): (r: Option<nat>)
    ensures r.Some? ==> i + 2 * |d| <= r.value <= |s|
  {
    if OccursAt(s, d, i) && FindFrom(s, d, i + |d|).Some? then
      Some(FindFrom(s, d, i + |d|).value + |d|)
    else None
  }

  /** Whether `^` holds at `i` under multi-line matching. */
  predicate LineStart(s: string, i: nat)
    requires i <= |s|
  {
    i == 0 || s[i - 1] == '\n'
  }

  /** `^\s*#{1,6} .*?$`: at a line start, whitespace (possibly spanning
      lines), one to six `#` and a space, then everything up to the next line
      feed, which is left for the next match. */
  function HeadingEnd(s: string, i: nat): (r: Option<nat>)
    requires i <= |s|
    ensures r.Some? ==> i < r.value <= |s|
  {
    if LineStart(s, i) then
      var w := SkipSpace(s, i);
      var h := SkipChar(s, w, '#');
      if 1 <= h - w <= 6 && h < |s| && s[h] == ' ' then Some(FindChar(s, h + 1, '\n'))
      else None
    else None
  }

  /** The last line feed in `s[lo..hi]`, if any. */
  function LastNewline(s: string, lo: nat, hi: nat): (r: Option<nat>)
    requires hi <= |s|
    ensures r.Some? ==> lo <= r.value < hi && s[r.value] == '\n'
    ensures r.Some? ==> forall k :: r.value < k < hi ==> s[k] != '\n'
    ensures r.None? ==> forall k :: lo <= k < hi ==> s[k] != '\n'
    decreases hi
  {
    if hi <= lo then None
    else if s[hi - 1] == '\n' then Some(hi - 1)
    else LastNewline(s, lo, hi - 1)
  }

  /** `\s*---\s*$`: whitespace, three dashes, then as much whitespace as
      still lets `$` hold: all of it when it reaches the end of the text,
      otherwise up to the last line feed inside it. */
  function RuleEnd(s: string, i: nat): (r: Option<nat>)
    requires i <= |s|
    ensures r.Some? ==> i + 3 <= r.value <= |s|
  {
    var w := SkipSpace(s, i);
    if OccursAt(s, RuleMark, w) then
      var u := SkipSpace(s, w + 3);
      if u == |s| then Some(|s|) else LastNewline(s, w + 3, u)
    else None
  }

  /** `[^\n]*?(?:\n|$)`: the rest of the line, with its line feed. */
  function LineEnd(s: string, i: nat): (r: nat)
    requires i < |s|
    ensures i < r <= |s|
  {
    var n := FindChar(s, i, '\n');
    if n < |s| then n + 1 else |s|
  }

  /** The match at `i`: the first alternative that matches, and where the
      match ends. The last alternative always matches, so no character is
      ever skipped. */
  function NextToken(s: string, i: nat): (r: (Kind, nat))
    requires i < |s|
    ensures i < r.1 <= |s|
  {
    if DelimitedEnd(s, i, FenceMark).Some? then (Fence, DelimitedEnd(s, i, FenceMark).value)
    else if DelimitedEnd(s, i, "$$").Some? then (DisplayMath, DelimitedEnd(s, i, "$$").value)
    else if DelimitedEnd(s, i, "$").Some? then (InlineMath, DelimitedEnd(s, i, "$").value)
    else if HeadingEnd(s, i).Some? then (Heading, HeadingEnd(s, i).value)
    else if RuleEnd(s, i).Some? then (Rule, RuleEnd(s, i).value)
    else (Line, LineEnd(s, i))
  }

  /** `finditer` from `i`: consecutive matches up to the end of the text. */
  function Tokenize(s: string, i: nat): seq<Token>
    requires i <= |s|
    decreases |s| - i
  {
    if i == |s| then []
    else
      var (k, e) := NextToken(s, i);
      [Token(k, s[i..e])] + Tokenize(s, e)
  }

  function Texts(toks: seq<Token>): seq<string> {
    if toks == [] then [] else [toks[0].text] + Texts(toks[1..])
  }

  /** The comprehension's filter and map: keep non-blank matches, without
      trailing line feeds. */
  function Keep(toks: seq<Token>): seq<string> {
    if toks == [] then []
    else KeepOne(toks[0].text) + Keep(toks[1..])
  }

  /** `_split_blocks` */
  function SplitBlocks(s: string): seq<string> {
    Keep(Tokenize(s, 0))
  }

  // ----- properties -----

  /** The matches tile the text: concatenated, they give back the text from
      `i` on, and none is empty. */
  lemma {:induction false} TokenizePartition(s: string, i: nat)
    requires i <= |s|
    ensures Concat(Texts(Tokenize(s, i))) == s[i..]
    ensures forall t :: t in Tokenize(s, i) ==> t.text != []
    decreases |s| - i
  {
    if i < |s| {
      var e := NextToken(s, i).1;
      TokenizePartition(s, e);
      assert s[i..] == s[i..e] + s[e..];
    }
  }

  /** The head of `Keep`: the first match, if it is kept. */
  function KeepOne(t: string): seq<string> {
    if Strip(t) != [] then [RStripNewlines(t)] else []
  }

  lemma {:induction false} KeepUnfold(toks: seq<Token>)
    requires toks != []
    ensures Keep(toks) == KeepOne(toks[0].text) + Keep(toks[1..])
  {
  }

  lemma {:induction false} KeepOneWellFormed(t: string)
    ensures forall b :: b in KeepOne(t) ==> !AllSpace(b) && b[|b| - 1] != '\n'
  {
    if Strip(t) != [] {
      var r := RStripNewlines(t);
      StripEmptyIff(t);
      RStripNewlinesKeepsNonBlank(t);
      assert r != [];
      assert KeepOne(t) == [r];
    } else {
      assert KeepOne(t) == [];
    }
  }

  lemma {:induction false} KeepWellFormed(toks: seq<Token>)
    ensures forall b :: b in Keep(toks) ==> !AllSpace(b) && b[|b| - 1] != '\n'
  {
    if toks != [] {
      KeepWellFormed(toks[1..]);
      KeepOneWellFormed(toks[0].text);
      KeepUnfold(toks);
    }
  }

  /** Every block holds a non-whitespace character and does not end in a line
      feed. */
  lemma {:induction false} SplitBlocksWellFormed(s: string)
    ensures forall b :: b in SplitBlocks(s) ==> b != [] && !AllSpace(b) && b[|b| - 1] != '\n'
  {
    KeepWellFormed(Tokenize(s, 0));
  }

  lemma {:induction false} KeepOneNonSpace(t: string)
    ensures NonSpace(Concat(KeepOne(t))) == NonSpace(t)
  {
    if Strip(t) != [] {
      var r := RStripNewlines(t);
      NonSpaceRStripNewlines(t);
      assert KeepOne(t) == [r];
      assert Concat([r]) == r + Concat([]);
      assert r + [] == r;
    } else {
      StripEmptyIff(t);
      NonSpaceOfAllSpace(t);
      assert KeepOne(t) == [];
    }
  }

  lemma {:induction false} KeepNonSpace(toks: seq<Token>)
    ensures NonSpace(Concat(Keep(toks))) == NonSpace(Concat(Texts(toks)))
  {
    if toks != [] {
      var t := toks[0].text;
      KeepNonSpace(toks[1..]);
      KeepUnfold(toks);
      KeepOneNonSpace(t);
      ConcatAppend(KeepOne(t), Keep(toks[1..]));
      NonSpaceAppend(Concat(KeepOne(t)), Concat(Keep(toks[1..])));
      NonSpaceAppend(t, Concat(Texts(toks[1..])));
    }
  }

  /** No non-whitespace character of the input is skipped or duplicated: the
      blocks, concatenated, hold exactly the input's non-whitespace characters
      in their original order. */
  lemma {:induction false} SplitBlocksKeepsText(s: string)
    ensures NonSpace(Concat(SplitBlocks(s))) == NonSpace(s)
  {
    KeepNonSpace(Tokenize(s, 0));
    TokenizePartition(s, 0);
    assert s[0..] == s;
  }

  lemma {:induction false} TokenizeUnfold(s: string, i: nat)
    requires i < |s|
    ensures Tokenize(s, i) == [Token(NextToken(s, i).0, s[i..NextToken(s, i).1])] + Tokenize(s, NextToken(s, i).1)
  {
  }

  lemma {:induction false} DelimitedAt(s: string, i: nat, d: string, j: nat)
    requires OccursAt(s, d, i) && i + |d| <= j && OccursAt(s, d, j)
    requires forall k :: i + |d| <= k < j ==> !OccursAt(s, d, k)
    ensures DelimitedEnd(s, i, d) == Some(j + |d|)
  {
    FindFromIs(s, d, i + |d|, j);
  }

  /** A fenced span from one ```` ``` ```` to the next is a single match,
      whatever it holds (`$`, `#`, line feeds). */
  lemma {:induction false} FenceToken(s: string, i: nat, j: nat)
    requires i < |s| && OccursAt(s, FenceMark, i) && i + 3 <= j && OccursAt(s, FenceMark, j)
    requires forall k :: i + 3 <= k < j ==> !OccursAt(s, FenceMark, k)
    ensures NextToken(s, i) == (Fence, j + 3)
  {
    DelimitedAt(s, i, FenceMark, j);
  }

  /** `$$…$$` is taken before the single-dollar rule can split it. */
  lemma {:induction false} DisplayToken(s: string, i: nat, j: nat)
    requires i < |s| && OccursAt(s, "$$", i) && i + 2 <= j && OccursAt(s, "$$", j)
    requires forall k :: i + 2 <= k < j ==> !OccursAt(s, "$$", k)
    ensures NextToken(s, i) == (DisplayMath, j + 2)
  {
    assert !OccursAt(s, FenceMark, i) by { assert s[i] == '$'; }
    DelimitedAt(s, i, "$$", j);
  }

  /** A `$` with no later `$` is no math: the line rule takes it. */
  lemma {:induction false} LoneDollarIsLine(s: string, i: nat)
    requires i < |s| && s[i] == '$'
    requires forall k :: i < k < |s| ==> s[k] != '$'
    ensures NextToken(s, i) == (Line, LineEnd(s, i))
  {
    assert !OccursAt(s, FenceMark, i) by { assert s[i] != FenceMark[0]; }
    assert !OccursAt(s, "$$", i) by { if i + 1 < |s| { assert s[i + 1] != '$'; } }
    forall k | i + 1 <= k ensures !OccursAt(s, "$", k) {
      if k < |s| { assert s[k] != '$'; }
    }
    FindFromNoneIs(s, "$", i + 1);
    assert SkipSpace(s, i) == i;
    assert SkipChar(s, i, '#') == i;
  }

  /** A position holding ordinary text (no backtick, dollar, hash, dash or
      whitespace) starts a one-line match, whatever follows on the line, so
      `$x$` later in the line does not split it. */
  lemma {:induction false} PlainTextIsLine(s: string, i: nat)
    requires i < |s| && !IsSpace(s[i]) && s[i] !in "`$#-"
    ensures NextToken(s, i) == (Line, LineEnd(s, i))
  {
    assert !OccursAt(s, FenceMark, i) by { assert s[i] != FenceMark[0]; }
    assert !OccursAt(s, "$$", i) by { assert s[i] != '$'; }
    assert !OccursAt(s, "$", i) by { assert s[i] != '$'; }
    assert SkipSpace(s, i) == i;
    assert SkipChar(s, i, '#') == i;
    assert !OccursAt(s, RuleMark, i) by { assert s[i] != RuleMark[0]; }
  }

  /** The heading alternative at `i`, from the characters around `i`. */
  lemma {:induction false} HeadingEndAt(s: string, i: nat, n: nat, e: nat)
    requires i < |s| && LineStart(s, i) && 1 <= n <= 6 && i + n < e <= |s|
    requires forall k :: i <= k < i + n ==> s[k] == '#'
    requires s[i + n] == ' '
    requires forall k :: i + n + 1 <= k < e ==> s[k] != '\n'
    requires e == |s| || s[e] == '\n'
    ensures HeadingEnd(s, i) == Some(e)
  {
    assert SkipSpace(s, i) == i;
    assert SkipChar(s, i, '#') == i + n;
    FindCharFirst(s, i + n + 1, '\n', e);
  }

  /** A `#` is not where any delimited alternative starts. */
  lemma {:induction false} HashNotDelimited(s: string, i: nat)
    requires i < |s| && s[i] == '#'
    ensures DelimitedEnd(s, i, FenceMark).None? && DelimitedEnd(s, i, "$$").None? && DelimitedEnd(s, i, "$").None?
  {
    assert !OccursAt(s, FenceMark, i) by {
      if i + 3 <= |s| { assert s[i..i + 3][0] == s[i]; }
    }
    assert !OccursAt(s, "$$", i) by {
      if i + 2 <= |s| { assert s[i..i + 2][0] == s[i]; }
    }
    assert !OccursAt(s, "$", i) by { assert s[i..i + 1][0] == s[i]; }
  }

  /** A heading line `#…# title` (one to six hashes) at any line start is one
      match that stops before its line feed, or at the end of the text. */
  lemma {:induction false} HeadingToken(p: string, h: string, t: string, r: string)
    requires p == [] || p[|p| - 1] == '\n'
    requires 1 <= |h| <= 6 && forall k :: 0 <= k < |h| ==> h[k] == '#'
    requires forall k :: 0 <= k < |t| ==> t[k] != '\n'
    requires r == [] || r[0] == '\n'
    ensures NextToken(p + h + " " + t + r, |p|) == (Heading, |p| + |h| + 1 + |t|)
  {
    var s := p + h + " " + t + r;
    var i := |p|;
    var e := i + |h| + 1 + |t|;
    assert LineStart(s, i) by {
      if p != [] { assert s[i - 1] == p[|p| - 1]; }
    }
    assert forall k :: i <= k < i + |h| ==> s[k] == h[k - i];
    assert s[i + |h|] == ' ';
    assert forall k :: i + |h| + 1 <= k < e ==> s[k] == t[k - i - |h| - 1];
    assert e == |s| || s[e] == '\n' by {
      if r != [] { assert s[e] == r[0]; }
    }
    HeadingEndAt(s, i, |h|, e);
    HashNotDelimited(s, i);
  }

  /** Seven or more `#` are no heading: the line alternative takes them. */
  lemma {:induction false} TooManyHashesIsLine(h: string, r: string)
    requires |h| >= 7 && forall k :: 0 <= k < |h| ==> h[k] == '#'
    requires r == [] || r[0] != '#'
    ensures NextToken(h + r, 0) == (Line, LineEnd(h + r, 0))
  {
    var s := h + r;
    assert s[0] == '#';
    assert !OccursAt(s, FenceMark, 0) by { assert s[0] != FenceMark[0]; }
    assert !OccursAt(s, "$$", 0) by { assert s[0] != '$'; }
    assert !OccursAt(s, "$", 0) by { assert s[0] != '$'; }
    assert SkipSpace(s, 0) == 0;
    assert forall k :: 0 <= k < |h| ==> s[k] == '#';
    assert |h| == |s| || s[|h|] != '#' by {
      if r != [] { assert s[|h|] == r[0]; }
    }
    assert SkipChar(s, 0, '#') == |h|;
    assert !OccursAt(s, RuleMark, 0) by { assert s[0] != RuleMark[0]; }
  }

  /** `---` followed by a line feed and more text is a rule match that stops
      before the line feed; at the very end of the text it takes the line
      feed too. */
  lemma {:induction false} RuleToken(r: string)
    requires r == [] || !IsSpace(r[0])
    ensures NextToken("---\n" + r, 0) == (Rule, if r == [] then 4 else 3)
  {
    var s := "---\n" + r;
    assert s[0] == '-' && s[3] == '\n';
    assert !OccursAt(s, FenceMark, 0) by { assert s[0] != FenceMark[0]; }
    assert !OccursAt(s, "$$", 0) by { assert s[0] != '$'; }
    assert !OccursAt(s, "$", 0) by { assert s[0] != '$'; }
    assert SkipSpace(s, 0) == 0;
    assert SkipChar(s, 0, '#') == 0;
    assert s[..3] == RuleMark;
    assert SkipSpace(s, 3) == 4;
  }

  lemma {:induction false} RStripNewlinesNone(s: string)
    requires s == [] || s[|s| - 1] != '\n'
    ensures RStripNewlines(s) == s
  {
  }

  /** A line without line feeds that starts with ordinary text is exactly one
      block, even when it holds `$x$` (as in `The answer is $x^2$.`). */
  lemma {:induction false} PlainLineIsOneBlock(l: string)
    requires l != [] && !IsSpace(l[0]) && l[0] !in "`$#-"
    requires forall k :: 0 <= k < |l| ==> l[k] != '\n'
    ensures SplitBlocks(l) == [l]
  {
    PlainTextIsLine(l, 0);
    FindCharSkips(l, 0, '\n');
    assert FindChar(l, 0, '\n') == |l|;
    TokenizeUnfold(l, 0);
    assert l[0..|l|] == l;
    assert Tokenize(l, 0) == [Token(Line, l)];
    assert !AllSpace(l);
    StripEmptyIff(l);
    RStripNewlinesNone(l);
    assert KeepOne(l) == [l];
    KeepUnfold(Tokenize(l, 0));
  }

  /** At the start of the text, a fenced span becomes the first block,
      verbatim. */
  lemma {:induction false} FenceFirstBlock(s: string, j: nat)
    requires OccursAt(s, FenceMark, 0) && 3 <= j && OccursAt(s, FenceMark, j)
    requires forall k :: 3 <= k < j ==> !OccursAt(s, FenceMark, k)
    ensures SplitBlocks(s) == [s[..j + 3]] + Keep(Tokenize(s, j + 3))
  {
    FenceToken(s, 0, j);
    TokenizeUnfold(s, 0);
    var f := s[..j + 3];
    assert s[0..j + 3] == f;
    assert f[|f| - 1] == '`' by { assert s[j..j + 3] == FenceMark; }
    assert !AllSpace(f) by { assert !IsSpace(f[|f| - 1]); }
    StripEmptyIff(f);
    RStripNewlinesNone(f);
    assert KeepOne(f) == [f];
    KeepUnfold(Tokenize(s, 0));
  }
}
