/** The tiler's pipeline (`render`) and the part of step E that is integer
    arithmetic: soft-wrapping a chunk line by line and centring the rendered
    image on the square canvas. The rasteriser is the parameter `measure`,
    which gives the width and height of the image a wrapped text renders to. */
module Tiler {
  import opened PyText
  import Delimiters
  import Blocks
  import Packer
  import Wrapper

  /** `TILE_PX` */
  const TilePx: nat := 800

  /** One tile: the canvas size, the text drawn on it and where the rendered
      image is pasted. */
  datatype Tile = Tile(width: nat, height: nat, text: string, xoff: nat, yoff: nat)

  /** `max((TILE_PX - size) // 2, 0)`; Python's floor division equals
      Dafny's `/` for the positive divisor 2. */
  function Offset(size: nat): (r: nat)
    ensures size <= TilePx ==> r + size <= TilePx
    ensures size <= TilePx ==> TilePx - size - r == r || TilePx - size - r == r + 1
    ensures size >= TilePx ==> r == 0
  {
    var d := (TilePx as int - size as int) / 2;
    if d > 0 then d else 0
  }

  /** `_draw_tile`'s text: the chunk's lines, each wrapped, joined by line feeds. */
  function WrapChunk(chunk: string, fill: string -> string): string {
    var lines := SplitLines(chunk);
    Join(seq(|lines|, k requires 0 <= k < |lines| => Wrapper.WrapSpec(lines[k], fill)), "\n")
  }

  /** `_draw_tile`, reduced to what it computes without the graphics
      libraries: the wrapped text and the paste offsets on an 800×800 canvas. */
  function DrawTile(chunk: string, fill: string -> string, measure: string -> (nat, nat)): (t: Tile)
    ensures t.width == TilePx && t.height == TilePx
    ensures t.text == WrapChunk(chunk, fill)
    ensures var (w, h) := measure(t.text);
      (w <= TilePx ==> t.xoff + w <= TilePx) && (h <= TilePx ==> t.yoff + h <= TilePx)
  {
    var wrapped := WrapChunk(chunk, fill);
    var (w, h) := measure(wrapped);
    Tile(TilePx, TilePx, wrapped, Offset(w), Offset(h))
  }

  /** The chunks `render` draws: normalise, split, pack. */
  function Chunks(markdown: string, fullLatex: bool): seq<string> {
    Packer.Pack(Blocks.SplitBlocks(Delimiters.Normalise(markdown, fullLatex)))
  }

  /** `render` */
  function Render(markdown: string, fullLatex: bool, fill: string -> string, measure: string -> (nat, nat)): seq<Tile> {
    var chunks := Chunks(markdown, fullLatex);
    seq(|chunks|, k requires 0 <= k < |chunks| => DrawTile(chunks[k], fill, measure))
  }

  // ----- properties -----

  /** One tile per chunk, in chunk order, each on an 800×800 canvas. */
  lemma {:induction false} RenderShape(markdown: string, fullLatex: bool, fill: string -> string, measure: string -> (nat, nat))
    ensures var chunks := Chunks(markdown, fullLatex);
      var tiles := Render(markdown, fullLatex, fill, measure);
      && |tiles| == |chunks|
      && forall k :: 0 <= k < |tiles| ==>
           tiles[k].width == TilePx && tiles[k].height == TilePx
           && tiles[k].text == WrapChunk(chunks[k], fill)
  {
  }

  /** The empty answer gives no tiles. */
  lemma {:induction false} RenderEmpty(fullLatex: bool, fill: string -> string, measure: string -> (nat, nat))
    ensures Render("", fullLatex, fill, measure) == []
  {
    Delimiters.NormaliseNoBackslash("", fullLatex);
    assert Blocks.Tokenize("", 0) == [];
  }
  /** A single line that starts with ordinary text is one block and hence
      one chunk, however long. */
  lemma {:induction false} PlainLineOneChunk(l: string)
    requires l != [] && !IsSpace(l[0]) && l[0] !in "`$#-"
    requires forall k :: 0 <= k < |l| ==> l[k] != '\n'
    ensures Packer.Pack(Blocks.SplitBlocks(l)) == [Strip(l)]
  {
    Blocks.PlainLineIsOneBlock(l);
    assert [l][1..] == [];
    assert Packer.PackFrom([l], []) == [Strip(l)];
  }

  /** A one-line answer that starts with ordinary text and has no backslash
      is drawn as one tile. */
  lemma {:induction false} PlainLineOneTile(l: string, fullLatex: bool, fill: string -> string, measure: string -> (nat, nat))
    requires l != [] && !IsSpace(l[0]) && l[0] !in "`$#-" && '\\' !in l
    requires forall k :: 0 <= k < |l| ==> l[k] != '\n'
    ensures Chunks(l, fullLatex) == [Strip(l)]
    ensures Render(l, fullLatex, fill, measure) == [DrawTile(Strip(l), fill, measure)]
  {
    Delimiters.NormaliseNoBackslash(l, fullLatex);
    PlainLineOneChunk(l);
  }

  /** A sentence with inline math, such as `The answer is \(x^2\).`, becomes
      `The answer is $x^2$.` and stays one text line, hence one tile: inline
      math inside a sentence does not split it. */
  lemma {:induction false} InlineSentenceOneTile(a: string, x: string, b: string, fullLatex: bool, fill: string -> string, measure: string -> (nat, nat))
    requires a != [] && !IsSpace(a[0]) && a[0] !in "`$#-"
    requires '\\' !in a && '\\' !in x && '\\' !in b
    requires '\n' !in a && '\n' !in x && '\n' !in b
    ensures var l := a + "$" + x + "$" + b;
      && Chunks(a + Delimiters.InlineOpen + x + Delimiters.InlineClose + b, fullLatex) == [Strip(l)]
      && |Render(a + Delimiters.InlineOpen + x + Delimiters.InlineClose + b, fullLatex, fill, measure)| == 1
  {
    var l := a + "$" + x + "$" + b;
    Delimiters.NormaliseInline(a, x, b, fullLatex);
    assert l[0] == a[0];
    assert forall k :: 0 <= k < |l| ==> l[k] != '\n' by {
      forall k | 0 <= k < |l| ensures l[k] != '\n' {
        if k < |a| { assert l[k] == a[k]; }
        else if k == |a| { }
        else if k < |a| + 1 + |x| { assert l[k] == x[k - |a| - 1]; }
        else if k == |a| + 1 + |x| { }
        else { assert l[k] == b[k - |a| - 2 - |x|]; }
      }
    }
    PlainLineOneChunk(l);
  }
}
