/** Python string primitives used by the renderer and the helpers, written out
    on `seq<char>`: whitespace (`str.isspace`, which is also what `\s` matches
    in a `str` regular expression), `strip`/`lstrip`/`rstrip("\n")`,
    `splitlines`, `join`, `replace`, `find` and ASCII `lower`. */
module PyText {

  datatype Option<T> = None | Some(value: T)

  /** `c.isspace()` in Python 3. */
  predicate IsSpace(c: char) {
    var n := c as int;
    (0x09 <= n <= 0x0d) || (0x1c <= n <= 0x20) || n == 0x85 || n == 0xa0 ||
    n == 0x1680 || (0x2000 <= n <= 0x200a) || n == 0x2028 || n == 0x2029 ||
    n == 0x202f || n == 0x205f || n == 0x3000
  }

  /** The characters at which `str.splitlines()` ends a line. */
  predicate IsLineBoundary(c: char) {
    var n := c as int;
    (0x0a <= n <= 0x0d) || (0x1c <= n <= 0x1e) || n == 0x85 || n == 0x2028 || n == 0x2029
  }

  predicate AllSpace(s: string) {
    forall i :: 0 <= i < |s| ==> IsSpace(s[i])
  }

  /** `p` occurs in `s` starting at index `k`. */
  predicate OccursAt(s: string, p: string, k: int) {
    0 <= k && k + |p| <= |s| && s[k..k + |p|] == p
  }

  ghost predicate NoOcc(s: string, p: string) {
    forall k :: !OccursAt(s, p, k)
  }

  /** The first character of `p` occurs nowhere else in `p`: no two
      occurrences of such a pattern can overlap. */
  predicate UniqueHead(p: string) {
    |p| > 0 && forall k :: 1 <= k < |p| ==> p[k] != p[0]
  }

  /** The first occurrence of `p` in `s` at or after `from` (`s.find(p, from)`);
      FindFromFound, FindFromAbsent and FindFromIs characterise it. */
  function FindFrom(s: string, p: string, from: nat): (r: Option<nat>)
    ensures r.Some? ==> from <= r.value && r.value + |p| <= |s|
    decreases |s| - from
  {
    if from + |p| > |s| then None
    else if OccursAt(s, p, from) then Some(from)
    else FindFrom(s, p, from + 1)
  }

  /** A found index is an occurrence, and no earlier one exists. */
  lemma {:induction false} FindFromFound(s: string, p: string, from: nat)
    requires FindFrom(s, p, from).Some?
    ensures OccursAt(s, p, FindFrom(s, p, from).value)
    ensures forall k :: from <= k < FindFrom(s, p, from).value ==> !OccursAt(s, p, k)
    decreases |s| - from
  {
    if from + |p| <= |s| && !OccursAt(s, p, from) {
      FindFromFound(s, p, from + 1);
    }
  }

  /** Nothing found means no occurrence at or after `from`. */
  lemma {:induction false} FindFromAbsent(s: string, p: string, from: nat)
    requires FindFrom(s, p, from).None?
    ensures forall k :: from <= k ==> !OccursAt(s, p, k)
    decreases |s| - from
  {
    if from + |p| <= |s| {
      FindFromAbsent(s, p, from + 1);
    }
  }

  /** The first occurrence at or after `from` is what is found. */
  lemma {:induction false} FindFromIs(s: string, p: string, from: nat, j: nat)
    requires from <= j && OccursAt(s, p, j)
    requires forall k :: from <= k < j ==> !OccursAt(s, p, k)
    ensures FindFrom(s, p, from) == Some(j)
    decreases j - from
  {
    if from < j {
      FindFromIs(s, p, from + 1, j);
    }
  }

  /** With no occurrence at or after `from`, nothing is found. */
  lemma {:induction false} FindFromNoneIs(s: string, p: string, from: nat)
    requires forall k :: from <= k ==> !OccursAt(s, p, k)
    ensures FindFrom(s, p, from) == None
    decreases |s| - from
  {
    if from + |p| <= |s| {
      FindFromNoneIs(s, p, from + 1);
    }
  }

  /** The first index at or after `i` that holds no whitespace (or `|s|`). */
  function SkipSpace(s: string, i: nat): (r: nat)
    requires i <= |s|
    ensures i <= r <= |s|
    ensures forall k :: i <= k < r ==> IsSpace(s[k])
    ensures r == |s| || !IsSpace(s[r])
    decreases |s| - i
  {
    if i == |s| || !IsSpace(s[i]) then i else SkipSpace(s, i + 1)
  }

  /** The first index at or after `i` that does not hold `c` (or `|s|`). */
  function SkipChar(s: string, i: nat, c: char): (r: nat)
    requires i <= |s|
    ensures i <= r <= |s|
    ensures forall k :: i <= k < r ==> s[k] == c
    ensures r == |s| || s[r] != c
    decreases |s| - i
  {
    if i == |s| || s[i] != c then i else SkipChar(s, i + 1, c)
  }

  /** The first index at or after `i` that holds `c` (or `|s|`). */
  function FindChar(s: string, i: nat, c: char): (r: nat)
    requires i <= |s|
    ensures i <= r <= |s|
    ensures r == |s| || s[r] == c
    decreases |s| - i
  {
    if i == |s| || s[i] == c then i else FindChar(s, i + 1, c)
  }

  /** `FindChar` passes over no `c`. */
  lemma {:induction false} FindCharSkips(s: string, i: nat, c: char)
    requires i <= |s|
    ensures forall k :: i <= k < FindChar(s, i, c) ==> s[k] != c
    decreases |s| - i
  {
    if i < |s| && s[i] != c {
      FindCharSkips(s, i + 1, c);
    }
  }

  /** `FindChar` stops at the first `c` at or after `i`. */
  lemma {:induction false} FindCharFirst(s: string, i: nat, c: char, n: nat)
    requires i <= n <= |s| && (n == |s| || s[n] == c)
    requires forall k :: i <= k < n ==> s[k] != c
    ensures FindChar(s, i, c) == n
    decreases n - i
  {
    if i < n {
      FindCharFirst(s, i + 1, c, n);
    }
  }

  /** `s.lstrip()` */
  function LStrip(s: string): string {
    if s != [] && IsSpace(s[0]) then LStrip(s[1..]) else s
  }

  /** `s.lstrip()` removes a leading all-whitespace part and stops at the
      first non-whitespace character. */
  lemma {:induction false} LStripFacts(s: string)
    ensures |LStrip(s)| <= |s| && LStrip(s) == s[|s| - |LStrip(s)|..]
    ensures LStrip(s) == [] || !IsSpace(LStrip(s)[0])
    ensures AllSpace(s[..|s| - |LStrip(s)|])
  {
    if s != [] && IsSpace(s[0]) {
      LStripFacts(s[1..]);
      var r := LStrip(s[1..]);
      assert s[|s| - |r|..] == s[1..][|s| - 1 - |r|..];
      assert forall k :: 0 <= k < |s| - |r| ==> s[..|s| - |r|][k] == s[k];
      assert forall k :: 1 <= k < |s| - |r| ==> s[k] == s[1..][..|s| - 1 - |r|][k - 1];
    }
  }

  /** `s.rstrip()` */
  function RStrip(s: string): string {
    if s != [] && IsSpace(s[|s| - 1]) then RStrip(s[..|s| - 1]) else s
  }

  /** `s.rstrip()` removes a trailing all-whitespace part and stops at the
      last non-whitespace character. */
  lemma {:induction false} RStripFacts(s: string)
    ensures |RStrip(s)| <= |s| && RStrip(s) == s[..|RStrip(s)|]
    ensures RStrip(s) == [] || !IsSpace(RStrip(s)[|RStrip(s)| - 1])
    ensures AllSpace(s[|RStrip(s)|..])
  {
    if s != [] && IsSpace(s[|s| - 1]) {
      var t := s[..|s| - 1];
      RStripFacts(t);
      var r := RStrip(t);
      assert RStrip(s) == r;
      assert s[..|r|] == t[..|r|];
      assert s[|r|..] == t[|r|..] + [s[|s| - 1]];
      AllSpaceSnoc(t[|r|..], s[|s| - 1]);
    }
  }

  lemma {:induction false} AllSpaceSnoc(a: string, c: char)
    requires AllSpace(a) && IsSpace(c)
    ensures AllSpace(a + [c])
  {
    assert forall k :: 0 <= k < |a| ==> (a + [c])[k] == a[k];
  }

  /** `s.strip()` */
  function Strip(s: string): string {
    LStrip(RStrip(s))
  }

  /** `s.rstrip("\n")` */
  function RStripNewlines(s: string): (r: string)
    ensures |r| <= |s| && r == s[..|r|]
    ensures r == [] || r[|r| - 1] != '\n'
    ensures forall k :: |r| <= k < |s| ==> s[k] == '\n'
  {
    if s != [] && s[|s| - 1] == '\n' then RStripNewlines(s[..|s| - 1]) else s
  }

  lemma {:induction false} RStripAllSpace(s: string)
    requires AllSpace(s)
    ensures RStrip(s) == []
  {
    if s != [] {
      assert IsSpace(s[|s| - 1]);
      RStripAllSpace(s[..|s| - 1]);
    }
  }

  /** `s.strip()` is the empty string exactly when `s` is all whitespace. */
  lemma {:induction false} StripEmptyIff(s: string)
    ensures Strip(s) == [] <==> AllSpace(s)
  {
    var r := RStrip(s);
    RStripFacts(s);
    LStripFacts(r);
    if AllSpace(s) {
      RStripAllSpace(s);
    } else {
      var i :| 0 <= i < |s| && !IsSpace(s[i]);
      assert i < |r|;
      assert !IsSpace(r[|r| - 1]);
    }
  }

  /** `s.strip()` never lengthens `s`. */
  lemma {:induction false} StripShorter(s: string)
    ensures |Strip(s)| <= |s|
  {
    RStripFacts(s);
    LStripFacts(RStrip(s));
  }

  /** Deleting trailing newlines keeps a non-blank string non-blank. */
  lemma {:induction false} RStripNewlinesKeepsNonBlank(s: string)
    requires !AllSpace(s)
    ensures !AllSpace(RStripNewlines(s))
  {
    var r := RStripNewlines(s);
    var i :| 0 <= i < |s| && !IsSpace(s[i]);
    assert i < |r|;
    assert r[i] == s[i];
  }

  /** The non-whitespace characters of `s`, in order. */
  function NonSpace(s: string): (r: string)
    ensures |r| <= |s|
  {
    if s == [] then []
    else (if IsSpace(s[0]) then [] else [s[0]]) + NonSpace(s[1..])
  }

  lemma {:induction false} NonSpaceAppend(a: string, b: string)
    ensures NonSpace(a + b) == NonSpace(a) + NonSpace(b)
  {
    if a != [] {
      assert (a + b)[0] == a[0];
      assert (a + b)[1..] == a[1..] + b;
      NonSpaceAppend(a[1..], b);
    } else {
      assert a + b == b;
    }
  }

  lemma {:induction false} NonSpaceOfAllSpace(s: string)
    requires AllSpace(s)
    ensures NonSpace(s) == []
  {
    if s != [] {
      NonSpaceOfAllSpace(s[1..]);
    }
  }

  /** `s.rstrip("\n")` deletes whitespace only. */
  lemma {:induction false} NonSpaceRStripNewlines(s: string)
    ensures NonSpace(RStripNewlines(s)) == NonSpace(s)
  {
    var r := RStripNewlines(s);
    assert s == r + s[|r|..];
    NonSpaceAppend(r, s[|r|..]);
    NonSpaceOfAllSpace(s[|r|..]);
  }

  /** The concatenation of a list of strings (`"".join(parts)`). */
  function Concat(parts: seq<string>): string {
    if parts == [] then [] else parts[0] + Concat(parts[1..])
  }

  lemma {:induction false} ConcatAppend(a: seq<string>, b: seq<string>)
    ensures Concat(a + b) == Concat(a) + Concat(b)
  {
    if a != [] {
      assert (a + b)[0] == a[0];
      assert (a + b)[1..] == a[1..] + b;
      ConcatAppend(a[1..], b);
    } else {
      assert a + b == b;
    }
  }

  /** `sep.join(parts)` */
  function Join(parts: seq<string>, sep: string): string {
    if parts == [] then []
    else if |parts| == 1 then parts[0]
    else Join(parts[..|parts| - 1], sep) + sep + parts[|parts| - 1]
  }

  /** `s.splitlines()`: `\r\n` ends a line as one boundary, and a boundary at
      the very end does not start an empty last line. */
  function SplitLines(s: string): seq<string>
    decreases |s|
  {
    if s == [] then []
    else
      var j := FirstBoundary(s, 0);
      if j == |s| then [s]
      else
        var next := if s[j] == '\r' && j + 1 < |s| && s[j + 1] == '\n' then j + 2 else j + 1;
        [s[..j]] + SplitLines(s[next..])
  }

  /** No line that `splitlines` yields holds a line boundary. */
  lemma {:induction false} SplitLinesNoBoundary(s: string)
    ensures forall k, i :: 0 <= k < |SplitLines(s)| && 0 <= i < |SplitLines(s)[k]| ==> !IsLineBoundary(SplitLines(s)[k][i])
    decreases |s|
  {
    if s != [] {
      var j := FirstBoundary(s, 0);
      if j < |s| {
        var next := if s[j] == '\r' && j + 1 < |s| && s[j + 1] == '\n' then j + 2 else j + 1;
        SplitLinesNoBoundary(s[next..]);
      }
    }
  }

  /** The first index at or after `i` holding a line boundary (or `|s|`). */
  function FirstBoundary(s: string, i: nat): (r: nat)
    requires i <= |s|
    ensures i <= r <= |s|
    ensures forall k :: i <= k < r ==> !IsLineBoundary(s[k])
    ensures r == |s| || IsLineBoundary(s[r])
    decreases |s| - i
  {
    if i == |s| || IsLineBoundary(s[i]) then i else FirstBoundary(s, i + 1)
  }

  /** `s.replace(pat, rep)`: every occurrence, found left to right without
      overlap, is replaced. */
  function ReplaceAll(s: string, pat: string, rep: string): string
    requires |pat| > 0
    decreases |s|
  {
    if OccursAt(s, pat, 0) then rep + ReplaceAll(s[|pat|..], pat, rep)
    else if s == [] then []
    else [s[0]] + ReplaceAll(s[1..], pat, rep)
  }

  /** Dropping a prefix shifts occurrences. */
  lemma {:induction false} OccursShift(a: string, s: string, p: string, k: int)
    requires 0 <= k
    ensures OccursAt(a + s, p, |a| + k) <==> OccursAt(s, p, k)
  {
    if 0 <= k && k + |p| <= |s| {
      assert (a + s)[|a| + k..|a| + k + |p|] == s[k..k + |p|];
    }
  }

  lemma {:induction false} NoOccTail(s: string, p: string)
    requires s != [] && NoOcc(s, p)
    ensures NoOcc(s[1..], p)
  {
    forall k ensures !OccursAt(s[1..], p, k) {
      assert s == [s[0]] + s[1..];
      if k >= 0 {
        OccursShift([s[0]], s[1..], p, k);
      }
    }
  }

  /** The converse of `NoOccTail`. */
  lemma {:induction false} NoOccCons(s: string, p: string)
    requires s != [] && !OccursAt(s, p, 0) && NoOcc(s[1..], p)
    ensures NoOcc(s, p)
  {
    forall k ensures !OccursAt(s, p, k) {
      if k >= 1 {
        assert s == [s[0]] + s[1..];
        OccursShift([s[0]], s[1..], p, k - 1);
      }
    }
  }

  /** A pattern whose head character does not occur in `s` does not occur in `s`. */
  lemma {:induction false} NoOccWithoutHead(s: string, p: string)
    requires |p| > 0 && p[0] !in s
    ensures NoOcc(s, p)
  {
    forall k ensures !OccursAt(s, p, k) {
      if 0 <= k && k + |p| <= |s| {
        assert s[k..k + |p|][0] == s[k];
        assert s[k] in s;
      }
    }
  }

  /** A prefix without the pattern's head character adds no occurrence. */
  lemma {:induction false} NoOccPrepend(a: string, t: string, p: string)
    requires |p| > 0 && p[0] !in a && NoOcc(t, p)
    ensures NoOcc(a + t, p)
    decreases |a|
  {
    if a == [] {
      assert a + t == t;
    } else {
      var s := a + t;
      assert s[1..] == a[1..] + t;
      assert p[0] !in a[1..] by {
        forall k | 0 <= k < |a[1..]| ensures a[1..][k] != p[0] {
          assert a[1..][k] == a[k + 1] && a[k + 1] in a;
        }
      }
      NoOccPrepend(a[1..], t, p);
      if |p| <= |s| {
        assert s[..|p|][0] == a[0] && a[0] in a;
      }
      NoOccCons(s, p);
    }
  }

  /** In `m + b`, where the head character of `p` can only be `m[0]`, a second
      character different from `m[1]` rules out every occurrence of `p`. */
  lemma {:induction false} NoOccSecondDiffers(m: string, b: string, p: string)
    requires |m| >= 2 && |p| >= 2 && p[1] != m[1]
    requires p[0] !in m[1..] && p[0] !in b
    ensures NoOcc(m + b, p)
  {
    var t := m + b;
    assert t[1..] == m[1..] + b;
    NoOccWithoutHead(t[1..], p);
    if |p| <= |t| {
      assert t[..|p|][1] == m[1];
    }
    NoOccCons(t, p);
  }

  /** If `a` holds no occurrence of `p` and `p` has a unique head, then in
      `a + p + rest` the first occurrence of `p` is the one at `|a|`. */
  lemma {:induction false} NoStraddle(a: string, p: string, rest: string)
    requires UniqueHead(p) && NoOcc(a, p)
    ensures forall k :: k < |a| ==> !OccursAt(a + p + rest, p, k)
    ensures OccursAt(a + p + rest, p, |a|)
  {
    var s := a + p + rest;
    assert s[|a|..|a| + |p|] == p;
    forall k | k < |a| ensures !OccursAt(s, p, k) {
      if 0 <= k && k + |p| <= |s| {
        if k + |p| <= |a| {
          assert s[k..k + |p|] == a[k..k + |p|];
          assert !OccursAt(a, p, k);
        } else {
          var d := |a| - k;
          assert 1 <= d < |p|;
          assert s[k..k + |p|][d] == s[|a|] == p[0];
          assert p[d] != p[0];
        }
      }
    }
  }

  /** With no occurrence of the pattern, `replace` is the identity. */
  lemma {:induction false} ReplaceAllNoOcc(s: string, pat: string, rep: string)
    requires |pat| > 0 && NoOcc(s, pat)
    ensures ReplaceAll(s, pat, rep) == s
  {
    if s != [] {
      assert !OccursAt(s, pat, 0);
      NoOccTail(s, pat);
      ReplaceAllNoOcc(s[1..], pat, rep);
      assert [s[0]] + s[1..] == s;
    }
  }

  /** `replace` rewrites the leftmost occurrence and continues after it. */
  lemma {:induction false} ReplaceAllFirst(a: string, pat: string, rep: string, b: string)
    requires UniqueHead(pat) && NoOcc(a, pat)
    ensures ReplaceAll(a + pat + b, pat, rep) == a + rep + ReplaceAll(b, pat, rep)
  {
    var s := a + pat + b;
    NoStraddle(a, pat, b);
    if a == [] {
      assert s == pat + b;
      assert s[|pat|..] == b;
    } else {
      assert !OccursAt(s, pat, 0);
      assert s[1..] == a[1..] + pat + b;
      NoOccTail(a, pat);
      ReplaceAllFirst(a[1..], pat, rep, b);
      assert s[0] == a[0];
      assert [a[0]] + a[1..] == a;
    }
  }

  /** ASCII `str.lower()` of one character. */
  function LowerChar(c: char): (r: char)
    ensures 'A' <= c <= 'Z' ==> 'a' <= r <= 'z'
    ensures !('A' <= c <= 'Z') ==> r == c
  {
    if 'A' <= c <= 'Z' then (c as int + 32) as char else c
  }

  /** `s.lower()` on ASCII letters. */
  function Lower(s: string): (r: string)
    ensures |r| == |s|
    ensures forall i :: 0 <= i < |s| ==> r[i] == LowerChar(s[i])
  {
    if s == [] then [] else [LowerChar(s[0])] + Lower(s[1..])
  }
}
