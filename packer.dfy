/** Step C of the tiler: greedy packing of blocks into tile-sized chunks. The
    only criterion is length: a block joins the current chunk when the joined
    text stays within `CharLimit` characters. */
module Packer {
  import opened PyText

  /** `CHAR_LIMIT` */
  const CharLimit: nat := 550
  const Sep: string := "\n\n"

  /** What the loop produces from `blocks` when it starts with chunk
      `current`: the reference definition of `_pack_blocks`. */
  function PackFrom(blocks: seq<string>, current: string): seq<string>
    decreases |blocks|
  {
    if blocks == [] then (if current != [] then [Strip(current)] else [])
    else
      var cand := if current != [] then current + Sep + blocks[0] else blocks[0];
      if |cand| > CharLimit then
        (if current != [] then [Strip(current)] else []) + PackFrom(blocks[1..], blocks[0])
      else PackFrom(blocks[1..], cand)
  }

  function Pack(blocks: seq<string>): seq<string> {
    PackFrom(blocks, [])
  }

  /** `_pack_blocks`: the loop appending to `tiles` and reassigning `current`. */
  method PackBlocks(blocks: seq<string>) returns (tiles: seq<string>)
    ensures tiles == Pack(blocks)
  {
    tiles := [];
    var current: string := [];
    for i := 0 to |blocks|
      invariant tiles + PackFrom(blocks[i..], current) == Pack(blocks)
    {
      var blk := blocks[i];
      PackStep(tiles, blocks, i, current);
      var candidate := if current != [] then current + Sep + blk else blk;
      if |candidate| > CharLimit {
        if current != [] {
          tiles := tiles + [Strip(current)];
        }
        current := blk;
      } else {
        current := candidate;
      }
    }
    assert blocks[|blocks|..] == [];
    if current != [] {
      tiles := tiles + [Strip(current)];
    }
  }

  /** One turn of the loop, with the chunks emitted so far in front. */
  lemma {:induction false} PackStep(tiles: seq<string>, blocks: seq<string>, i: nat, current: string)
    requires i < |blocks|
    ensures var cand := if current != [] then current + Sep + blocks[i] else blocks[i];
      && (|cand| > CharLimit && current != [] ==> tiles + PackFrom(blocks[i..], current) == (tiles + [Strip(current)]) + PackFrom(blocks[i + 1..], blocks[i]))
      && (|cand| > CharLimit && current == [] ==> tiles + PackFrom(blocks[i..], current) == tiles + PackFrom(blocks[i + 1..], blocks[i]))
      && (|cand| <= CharLimit ==> tiles + PackFrom(blocks[i..], current) == tiles + PackFrom(blocks[i + 1..], cand))
  {
    var rest := blocks[i..];
    assert rest[0] == blocks[i] && rest[1..] == blocks[i + 1..];
    var cand := if current != [] then current + Sep + blocks[i] else blocks[i];
    if |cand| > CharLimit && current != [] {
      assert PackFrom(rest, current) == [Strip(current)] + PackFrom(blocks[i + 1..], blocks[i]);
      assert tiles + ([Strip(current)] + PackFrom(blocks[i + 1..], blocks[i])) == (tiles + [Strip(current)]) + PackFrom(blocks[i + 1..], blocks[i]);
    }
  }

  // ----- the chunks as runs of blocks -----

  /** The same greedy pass, keeping the run of blocks each chunk consists of
      instead of its text. */
  function RunsFrom(blocks: seq<string>, cur: seq<string>): seq<seq<string>>
    decreases |blocks|
  {
    if blocks == [] then (if cur != [] then [cur] else [])
    else if |Join(cur + [blocks[0]], Sep)| > CharLimit then
      (if cur != [] then [cur] else []) + RunsFrom(blocks[1..], [blocks[0]])
    else RunsFrom(blocks[1..], cur + [blocks[0]])
  }

  function Runs(blocks: seq<string>): seq<seq<string>> {
    RunsFrom(blocks, [])
  }

  function Flatten(runs: seq<seq<string>>): seq<string> {
    if runs == [] then [] else runs[0] + Flatten(runs[1..])
  }

  /** The chunk text of each run. */
  function Tiles(runs: seq<seq<string>>): seq<string> {
    if runs == [] then [] else [Strip(Join(runs[0], Sep))] + Tiles(runs[1..])
  }

  /** A run fits: its joined text is within the limit, or it is a lone block. */
  predicate Fits(run: seq<string>) {
    |Join(run, Sep)| <= CharLimit || |run| == 1
  }

  predicate NonEmptyBlocks(blocks: seq<string>) {
    forall k :: 0 <= k < |blocks| ==> blocks[k] != []
  }

  /** Greedy: the first block of each run would have pushed the run before it
      over the limit. */
  predicate Greedy(runs: seq<seq<string>>) {
    forall k :: 0 <= k < |runs| - 1 ==> Breaks(runs, k)
  }

  /** Run `k + 1` starts with a block that would not fit after run `k`. */
  predicate Breaks(runs: seq<seq<string>>, k: nat)
    requires k + 1 < |runs|
  {
    runs[k + 1] != [] && |Join(runs[k] + [runs[k + 1][0]], Sep)| > CharLimit
  }

  // ----- properties -----

  lemma {:induction false} FlattenCons(r: seq<string>, runs: seq<seq<string>>)
    ensures Flatten([r] + runs) == r + Flatten(runs)
  {
    assert ([r] + runs)[1..] == runs;
  }

  /** No block is dropped, duplicated or reordered. */
  lemma {:induction false} RunsFlatten(blocks: seq<string>, cur: seq<string>)
    ensures Flatten(RunsFrom(blocks, cur)) == cur + blocks
    decreases |blocks|
  {
    if blocks == [] {
      if cur != [] {
        FlattenCons(cur, []);
      }
      assert cur + blocks == cur;
    } else {
      var b := blocks[0];
      assert [b] + blocks[1..] == blocks;
      if |Join(cur + [b], Sep)| > CharLimit {
        var rest := RunsFrom(blocks[1..], [b]);
        RunsFlatten(blocks[1..], [b]);
        if cur != [] {
          FlattenCons(cur, rest);
          assert RunsFrom(blocks, cur) == [cur] + rest;
          assert cur + ([b] + blocks[1..]) == cur + blocks;
        } else {
          assert RunsFrom(blocks, cur) == rest;
          assert cur + blocks == blocks;
        }
      } else {
        RunsFlatten(blocks[1..], cur + [b]);
        assert cur + [b] + blocks[1..] == cur + blocks;
      }
    }
  }

  /** Every run holds at least one block and fits. */
  lemma {:induction false} RunsShape(blocks: seq<string>, cur: seq<string>)
    requires Fits(cur)
    ensures forall r :: r in RunsFrom(blocks, cur) ==> r != [] && Fits(r)
    decreases |blocks|
  {
    if blocks != [] {
      var b := blocks[0];
      if |Join(cur + [b], Sep)| > CharLimit {
        assert Fits([b]);
        RunsShape(blocks[1..], [b]);
      } else {
        RunsShape(blocks[1..], cur + [b]);
      }
    }
  }

  /** The first run starts with the first pending block. */
  lemma {:induction false} RunsHead(blocks: seq<string>, cur: seq<string>)
    requires cur + blocks != []
    ensures RunsFrom(blocks, cur) != [] && RunsFrom(blocks, cur)[0] != []
    ensures RunsFrom(blocks, cur)[0][0] == (cur + blocks)[0]
    decreases |blocks|
  {
    if blocks != [] {
      var b := blocks[0];
      if |Join(cur + [b], Sep)| > CharLimit {
        RunsHead(blocks[1..], [b]);
      } else {
        RunsHead(blocks[1..], cur + [b]);
        assert (cur + [b] + blocks[1..])[0] == (cur + blocks)[0];
      }
    }
  }

  lemma {:induction false} GreedyCons(r: seq<string>, runs: seq<seq<string>>)
    requires Greedy(runs)
    requires runs != [] ==> runs[0] != [] && |Join(r + [runs[0][0]], Sep)| > CharLimit
    ensures Greedy([r] + runs)
  {
    var all := [r] + runs;
    forall k | 0 <= k < |all| - 1
      ensures Breaks(all, k)
    {
      if k > 0 {
        assert all[k] == runs[k - 1] && all[k + 1] == runs[k];
        assert Breaks(runs, k - 1);
      } else {
        assert all[0] == r && all[1] == runs[0];
      }
    }
  }

  /** A run ends only where the next block would not fit. */
  lemma {:induction false} RunsGreedy(blocks: seq<string>, cur: seq<string>)
    ensures Greedy(RunsFrom(blocks, cur))
    decreases |blocks|
  {
    if blocks != [] {
      var b := blocks[0];
      if |Join(cur + [b], Sep)| > CharLimit {
        var rest := RunsFrom(blocks[1..], [b]);
        RunsGreedy(blocks[1..], [b]);
        if cur != [] {
          RunsHead(blocks[1..], [b]);
          assert ([b] + blocks[1..])[0] == b;
          GreedyCons(cur, rest);
          assert RunsFrom(blocks, cur) == [cur] + rest;
        } else {
          assert RunsFrom(blocks, cur) == rest;
        }
      } else {
        RunsGreedy(blocks[1..], cur + [b]);
      }
    } else if cur != [] {
      GreedyCons(cur, []);
    }
  }

  lemma {:induction false} JoinSnoc(cur: seq<string>, b: string)
    requires cur != []
    ensures Join(cur + [b], Sep) == Join(cur, Sep) + Sep + b
  {
    assert (cur + [b])[..|cur|] == cur;
  }

  lemma {:induction false} JoinNonEmpty(cur: seq<string>)
    requires cur != [] && NonEmptyBlocks(cur)
    ensures Join(cur, Sep) != []
  {
  }

  lemma {:induction false} TilesCons(r: seq<string>, runs: seq<seq<string>>)
    ensures Tiles([r] + runs) == [Strip(Join(r, Sep))] + Tiles(runs)
  {
    assert ([r] + runs)[1..] == runs;
  }

  /** The string `_pack_blocks` keeps as `current` is the pending run joined by
      blank lines, so its chunks are exactly the runs' texts. */
  lemma {:induction false} PackIsTiles(blocks: seq<string>, cur: seq<string>)
    requires NonEmptyBlocks(blocks) && NonEmptyBlocks(cur)
    ensures PackFrom(blocks, Join(cur, Sep)) == Tiles(RunsFrom(blocks, cur))
    decreases |blocks|
  {
    if cur != [] {
      JoinNonEmpty(cur);
    }
    if blocks == [] {
      if cur != [] {
        TilesCons(cur, []);
      }
    } else {
      var b := blocks[0];
      var cand := if cur != [] then Join(cur, Sep) + Sep + b else b;
      if cur != [] {
        JoinSnoc(cur, b);
      } else {
        assert cur + [b] == [b];
      }
      assert Join(cur + [b], Sep) == cand;
      assert NonEmptyBlocks(blocks[1..]);
      var rest := RunsFrom(blocks[1..], [b]);
      if |cand| > CharLimit {
        assert Join([b], Sep) == b;
        PackIsTiles(blocks[1..], [b]);
        if cur != [] {
          TilesCons(cur, rest);
          assert RunsFrom(blocks, cur) == [cur] + rest;
          assert PackFrom(blocks, Join(cur, Sep)) == [Strip(Join(cur, Sep))] + PackFrom(blocks[1..], b);
        } else {
          assert RunsFrom(blocks, cur) == rest;
          assert PackFrom(blocks, Join(cur, Sep)) == PackFrom(blocks[1..], b);
        }
      } else {
        PackIsTiles(blocks[1..], cur + [b]);
        assert RunsFrom(blocks, cur) == RunsFrom(blocks[1..], cur + [b]);
        assert PackFrom(blocks, Join(cur, Sep)) == PackFrom(blocks[1..], cand);
      }
    }
  }

  /** `_pack_blocks` splits the blocks into consecutive runs, in order and
      without loss; each chunk is its run joined by blank lines and stripped;
      each run fits within the limit or is a single block; runs are as long as
      the limit allows; and no blocks give no chunks. */
  lemma {:induction false} PackPartition(blocks: seq<string>)
    requires NonEmptyBlocks(blocks)
    ensures var runs := Runs(blocks);
      && Pack(blocks) == Tiles(runs)
      && Flatten(runs) == blocks
      && (forall r :: r in runs ==> r != [] && Fits(r))
      && Greedy(runs)
      && (blocks == [] <==> Pack(blocks) == [])
  {
    PackIsTiles(blocks, []);
    RunsFlatten(blocks, []);
    RunsShape(blocks, []);
    RunsGreedy(blocks, []);
    assert [] + blocks == blocks;
    if blocks != [] {
      RunsHead(blocks, []);
      TilesCons(Runs(blocks)[0], Runs(blocks)[1..]);
      assert [Runs(blocks)[0]] + Runs(blocks)[1..] == Runs(blocks);
    }
  }

  /** Every chunk of a run holding more than one block is within the limit. */
  lemma {:induction false} TileWithinLimit(run: seq<string>)
    requires Fits(run) && |run| != 1
    ensures |Strip(Join(run, Sep))| <= CharLimit
  {
    StripShorter(Join(run, Sep));
  }

  /** Two blocks whose joined text fits share one chunk, whatever they hold:
      a math block and a prose block are merged like any two. */
  lemma {:induction false} TwoBlocksMerge(a: string, b: string)
    requires a != [] && |a + Sep + b| <= CharLimit
    ensures Pack([a, b]) == [Strip(a + Sep + b)]
  {
    assert [a, b][1..] == [b];
    assert [b][1..] == [];
    calc {
      Pack([a, b]);
      PackFrom([a, b], []);
      PackFrom([b], a);
      PackFrom([], a + Sep + b);
      [Strip(a + Sep + b)];
    }
  }

  /** Two blocks whose joined text does not fit get a chunk each, even when
      the first is over the limit on its own. */
  lemma {:induction false} TwoBlocksSplit(a: string, b: string)
    requires a != [] && b != [] && |a + Sep + b| > CharLimit
    ensures Pack([a, b]) == [Strip(a), Strip(b)]
  {
    assert [a, b][1..] == [b];
    assert [b][1..] == [];
    calc {
      Pack([a, b]);
      PackFrom([a, b], []);
      PackFrom([b], a);
      [Strip(a)] + PackFrom([], b);
      [Strip(a)] + [Strip(b)];
    }
  }

  /** A block too long to share a chunk closes the current one and then
      starts its own, so an oversized block is emitted whole; the blocks after
      it are packed afresh. */
  lemma {:induction false} OversizedThenTwo(big: string, a: string, b: string)
    requires big != [] && a != [] && |big + Sep + a| > CharLimit && |a + Sep + b| <= CharLimit
    ensures Pack([big, a, b]) == [Strip(big), Strip(a + Sep + b)]
  {
    assert [big, a, b][1..] == [a, b];
    assert [a, b][1..] == [b];
    assert [b][1..] == [];
    calc {
      Pack([big, a, b]);
      PackFrom([big, a, b], []);
      PackFrom([a, b], big);
      [Strip(big)] + PackFrom([b], a);
      [Strip(big)] + PackFrom([], a + Sep + b);
      [Strip(big)] + [Strip(a + Sep + b)];
    }
  }
}
