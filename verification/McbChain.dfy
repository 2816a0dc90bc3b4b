// The DOS memory-control-block chain as a sequence of blocks, and what the four allocator calls make of it.
// Block k's header occupies one paragraph; its usable memory is the size paragraphs after it.

module McbChain {
  import opened MachineTypes

  datatype Block = Block(owner: u16, size: u16)

  const TYPE_MORE: byte := 0x4D
  const TYPE_LAST: byte := 0x5A

  // Paragraphs taken by the blocks, headers included.
  ghost function Span(bs: seq<Block>): nat {
    if bs == [] then 0 else 1 + bs[0].size + Span(bs[1..])
  }

  // The block whose header is at paragraph pos, in a chain that starts at paragraph at.
  ghost function BlockAt(bs: seq<Block>, at: int, pos: int): Option<Block> {
    if bs == [] then None
    else if at == pos then Some(bs[0])
    else BlockAt(bs[1..], at + 1 + bs[0].size, pos)
  }

  lemma {:induction false} SpanConcat(xs: seq<Block>, ys: seq<Block>)
    ensures Span(xs + ys) == Span(xs) + Span(ys)
  {
    if xs == [] {
      assert xs + ys == ys;
    } else {
      assert (xs + ys)[1..] == xs[1..] + ys;
      SpanConcat(xs[1..], ys);
    }
  }

  lemma SpanOne(b: Block)
    ensures Span([b]) == 1 + b.size && Span([]) == 0
  {
    assert [b][1..] == [];
  }

  lemma {:induction false} SpanSplit(bs: seq<Block>, k: nat)
    requires k < |bs|
    ensures Span(bs) == Span(bs[..k]) + 1 + bs[k].size + Span(bs[k + 1..])
    ensures Span(bs[..k + 1]) == Span(bs[..k]) + 1 + bs[k].size
    ensures Span(bs[k..]) == 1 + bs[k].size + Span(bs[k + 1..])
  {
    assert bs == bs[..k] + bs[k..] && bs[k..][1..] == bs[k + 1..];
    SpanConcat(bs[..k], bs[k..]);
    assert bs[..k + 1] == bs[..k] + [bs[k]] && [bs[k]][1..] == [];
    SpanConcat(bs[..k], [bs[k]]);
  }

  lemma {:induction false} BlockAtConcat(xs: seq<Block>, ys: seq<Block>, at: int, pos: int)
    ensures BlockAt(xs + ys, at, pos) == if BlockAt(xs, at, pos).Some? then BlockAt(xs, at, pos)
                                         else BlockAt(ys, at + Span(xs), pos)
  {
    if xs == [] {
      assert xs + ys == ys;
    } else {
      assert (xs + ys)[1..] == xs[1..] + ys;
      if at != pos {
        BlockAtConcat(xs[1..], ys, at + 1 + xs[0].size, pos);
      }
    }
  }

  lemma {:induction false} BlockAtBounds(bs: seq<Block>, at: int, pos: int)
    ensures BlockAt(bs, at, pos).Some? ==>
              at <= pos && pos + 1 + BlockAt(bs, at, pos).value.size <= at + Span(bs)
  {
    if bs != [] && at != pos {
      BlockAtBounds(bs[1..], at + 1 + bs[0].size, pos);
    }
  }

  // Swapping the stretch ms of a chain for another of the same span leaves every other block where it was.
  lemma {:induction false} SwapKeepsBlocks(xs: seq<Block>, ms: seq<Block>, ps: seq<Block>, ys: seq<Block>, at: int,
                                           pos: int)
    requires Span(ms) == Span(ps)
    ensures Span(xs + ms + ys) == Span(xs + ps + ys)
    ensures !(at + Span(xs) <= pos < at + Span(xs) + Span(ms)) ==>
              BlockAt(xs + ps + ys, at, pos) == BlockAt(xs + ms + ys, at, pos)
  {
    SpanConcat(xs + ms, ys); SpanConcat(xs, ms); SpanConcat(xs + ps, ys); SpanConcat(xs, ps);
    BlockAtConcat(xs + ms, ys, at, pos); BlockAtConcat(xs, ms, at, pos);
    BlockAtConcat(xs + ps, ys, at, pos); BlockAtConcat(xs, ps, at, pos);
    BlockAtBounds(ms, at + Span(xs), pos);
    BlockAtBounds(ps, at + Span(xs), pos);
  }

  // ---- specifications of the calls ----

  // The first free block that can hold n paragraphs.
  function FirstFit(bs: seq<Block>, n: u16): Option<nat> {
    if bs == [] then None
    else if bs[0].owner == 0 && bs[0].size >= n then Some(0)
    else match FirstFit(bs[1..], n)
      case None => None
      case Some(k) => Some(k + 1)
  }

  function LargestFree(bs: seq<Block>): u16 {
    if bs == [] then 0
    else Max(if bs[0].owner == 0 then bs[0].size else 0, LargestFree(bs[1..]))
  }

  // A block of n paragraphs out of one of the given size, with a free block for a remainder of two or more.
  function Carve(owner: u16, size: u16, n: u16): seq<Block>
    requires n <= size
  {
    if size > n + 1 then [Block(owner, n), Block(0, size - n - 1)] else [Block(owner, size)]
  }

  function AllocAt(bs: seq<Block>, k: nat, n: u16, psp: u16): seq<Block>
    requires k < |bs| && n <= bs[k].size
  {
    bs[..k] + Carve(psp, bs[k].size, n) + bs[k + 1..]
  }

  // How many blocks at the front of the list are free.
  function FreeRun(bs: seq<Block>): (n: nat)
    ensures n <= |bs|
    ensures forall i :: 0 <= i < n ==> bs[i].owner == 0
    ensures n < |bs| ==> bs[n].owner != 0
  {
    if bs == [] || bs[0].owner != 0 then 0 else 1 + FreeRun(bs[1..])
  }

  // The paragraphs block k can reach by absorbing the free blocks right after it.
  ghost function Reach(bs: seq<Block>, k: nat): nat
    requires k < |bs|
  {
    bs[k].size + Span(bs[k + 1..k + 1 + FreeRun(bs[k + 1..])])
  }

  ghost function Absorbed(bs: seq<Block>, k: nat, middle: seq<Block>): seq<Block>
    requires k < |bs|
  {
    bs[..k] + middle + bs[k + 1 + FreeRun(bs[k + 1..])..]
  }

  ghost function FreeAt(bs: seq<Block>, k: nat): seq<Block>
    requires k < |bs| && Reach(bs, k) < 0x1_0000
  {
    if bs[k].owner == 0 then bs else Absorbed(bs, k, [Block(0, Reach(bs, k))])
  }

  ghost function ResizeAt(bs: seq<Block>, k: nat, n: u16): seq<Block>
    requires k < |bs| && Reach(bs, k) < 0x1_0000
  {
    var owner, reach := bs[k].owner, Reach(bs, k);
    Absorbed(bs, k, if n > reach then [Block(owner, reach)] else Carve(owner, reach, n))
  }

  // Block k, whose memory starts at paragraph start, split so that seg starts a block of its own.
  function ClaimAt(bs: seq<Block>, k: nat, start: u16, seg: u16, owner: u16): seq<Block>
    requires k < |bs| && start <= seg < start + bs[k].size
  {
    if seg == start then bs[k := Block(owner, bs[k].size)]
    else bs[..k] + [Block(bs[k].owner, seg - start - 1), Block(owner, start + bs[k].size - seg)] + bs[k + 1..]
  }

  // ---- what the specifications mean ----

  lemma {:induction false} FirstFitIs(bs: seq<Block>, n: u16)
    ensures match FirstFit(bs, n)
            case None => forall i :: 0 <= i < |bs| && bs[i].owner == 0 ==> bs[i].size < n
            case Some(k) => && k < |bs| && bs[k].owner == 0 && bs[k].size >= n
                            && forall i :: 0 <= i < k && bs[i].owner == 0 ==> bs[i].size < n
  {
    if bs != [] {
      FirstFitIs(bs[1..], n);
      assert forall i :: 1 <= i < |bs| ==> bs[i] == bs[1..][i - 1];
    }
  }

  // The size reported on failure is that of a largest free block (0 when none is free).
  lemma {:induction false} LargestFreeIs(bs: seq<Block>) returns (i: nat)
    ensures forall j :: 0 <= j < |bs| && bs[j].owner == 0 ==> bs[j].size <= LargestFree(bs)
    ensures LargestFree(bs) > 0 ==> i < |bs| && bs[i].owner == 0 && bs[i].size == LargestFree(bs)
  {
    i := 0;
    if bs != [] {
      var k := LargestFreeIs(bs[1..]);
      forall j | 0 <= j < |bs| && bs[j].owner == 0 ensures bs[j].size <= LargestFree(bs) {
        if j > 0 { assert bs[j] == bs[1..][j - 1]; }
      }
      if LargestFree(bs[1..]) > (if bs[0].owner == 0 then bs[0].size else 0) {
        i := k + 1;
      }
    }
  }

  // A failed request for at least one paragraph is larger than what it reports. A request for nothing fails exactly
  // when no block is free, and then reports 0: no less than was asked for.
  lemma {:induction false} FailureReport(bs: seq<Block>, n: u16)
    ensures FirstFit(bs, n).None? ==> (LargestFree(bs) < n <==> n > 0)
    ensures FirstFit(bs, 0).None? <==> forall i :: 0 <= i < |bs| ==> bs[i].owner != 0
    ensures FirstFit(bs, 0).None? ==> LargestFree(bs) == 0
  {
    FirstFitIs(bs, n);
    FirstFitIs(bs, 0);
    var i := LargestFreeIs(bs);
  }

  // The chain of a program that is loaded high and owns everything up to 0x9FFF: a request for nothing fails in it,
  // and the failure reports that 0 paragraphs could have been had.
  lemma NothingToHand()
    ensures var bs := [Block(0x0814, 0x49), Block(0x0814, 0x9FFF - 0x0814)];
            FirstFit(bs, 0) == None && LargestFree(bs) == 0
  {
    FailureReport([Block(0x0814, 0x49), Block(0x0814, 0x9FFF - 0x0814)], 0);
  }

  // The blocks from i up to j are free, and the chain ends at j or goes on with an owned block.
  predicate FreeStretch(bs: seq<Block>, i: int, j: int) {
    && 0 <= i <= j <= |bs| && (forall x :: i <= x < j ==> bs[x].owner == 0)
    && (j < |bs| ==> bs[j].owner != 0)
  }

  // Block k has become free and has swallowed every free block right after it, headers included; no other block
  // differs.
  ghost predicate FreesBlock(bs: seq<Block>, cs: seq<Block>, k: nat) {
    k < |bs| && k < |cs| && cs[..k] == bs[..k] && cs[k].owner == 0 &&
    exists j ::
      && FreeStretch(bs, k + 1, j)
      && cs[k].size == bs[k].size + Span(bs[k + 1..j])
      && cs[k + 1..] == bs[j..]
  }

  lemma FreeAtMeans(bs: seq<Block>, k: nat)
    requires k < |bs| && Reach(bs, k) < 0x1_0000
    ensures bs[k].owner == 0 ==> FreeAt(bs, k) == bs
    ensures bs[k].owner != 0 ==> FreesBlock(bs, FreeAt(bs, k), k)
  {
    assert FreeStretch(bs, k + 1, k + 1 + FreeRun(bs[k + 1..])) by {
      assert forall x :: k + 1 <= x < |bs| ==> bs[x] == bs[k + 1..][x - k - 1];
    }
  }

  // The block after a freed one is owned, or there is none.
  lemma FreedIsMaximal(bs: seq<Block>, cs: seq<Block>, k: nat)
    requires FreesBlock(bs, cs, k)
    ensures k + 1 < |cs| ==> cs[k + 1].owner != 0
  {
    var j :| FreeStretch(bs, k + 1, j) && cs[k + 1..] == bs[j..];
    assert k + 1 < |cs| ==> cs[k + 1] == cs[k + 1..][0] == bs[j..][0];
  }

  // What was freed can be had again: a request for as much as the freed block has grown to, or less, succeeds.
  lemma FreedCanBeTaken(bs: seq<Block>, cs: seq<Block>, k: nat, n: u16)
    requires FreesBlock(bs, cs, k) && n <= cs[k].size
    ensures FirstFit(cs, n).Some?
  {
    FreeBlockFits(cs, k, n);
  }

  lemma FreeBlockFits(bs: seq<Block>, k: nat, n: u16)
    requires k < |bs| && bs[k].owner == 0 && n <= bs[k].size
    ensures FirstFit(bs, n).Some?
  {
    FirstFitIs(bs, n);
  }

  // The rest of a carved block is free and takes what the request leaves; a rest of one paragraph stays with the block.
  lemma CarveIs(owner: u16, size: u16, n: u16)
    requires n <= size
    ensures var c := Carve(owner, size, n);
            && c[0].owner == owner && c[0].size == (if size == n + 1 then size else n)
            && (|c| == 2 <==> n + 2 <= size) && (|c| == 1 <==> size <= n + 1)
            && (|c| == 2 ==> c[1].owner == 0 && c[0].size + 1 + c[1].size == size)
  {
  }

  // A resized block keeps its owner. It gets what it asks for out of all it can reach, or all of that when it asks for
  // more; what it gives up becomes one free block.
  lemma ResizeIs(bs: seq<Block>, k: nat, n: u16)
    requires k < |bs| && Reach(bs, k) < 0x1_0000
    ensures var cs := ResizeAt(bs, k, n);
            k < |cs| && cs[..k] == bs[..k] && cs[k].owner == bs[k].owner &&
            exists j ::
              && FreeStretch(bs, k + 1, j)
              && var all := bs[k].size + Span(bs[k + 1..j]);
                 if n + 2 <= all then
                   cs[k].size == n && k + 1 < |cs| && cs[k + 1].owner == 0 && cs[k + 1].size == all - n - 1 &&
                   cs[k + 2..] == bs[j..]
                 else cs[k].size == all && cs[k + 1..] == bs[j..]
  {
    var cs, j := ResizeAt(bs, k, n), k + 1 + FreeRun(bs[k + 1..]);
    assert FreeStretch(bs, k + 1, j) by {
      assert forall x :: k + 1 <= x < |bs| ==> bs[x] == bs[k + 1..][x - k - 1];
    }
    var all := bs[k].size + Span(bs[k + 1..j]);
    if n + 2 <= all {
      assert cs == bs[..k] + [Block(bs[k].owner, n), Block(0, all - n - 1)] + bs[j..];
      assert cs[k + 2..] == bs[j..];
    } else {
      assert cs == bs[..k] + [Block(bs[k].owner, all)] + bs[j..];
      assert cs[k + 1..] == bs[j..];
    }
  }

  // The claimed block starts at the segment, runs to the end of the block it was part of, and has the new owner; what
  // lies before it keeps the old one. No other block differs.
  lemma ClaimIs(bs: seq<Block>, k: nat, start: u16, seg: u16, owner: u16)
    requires k < |bs| && start <= seg < start + bs[k].size
    ensures var cs, j := ClaimAt(bs, k, start, seg, owner), if seg == start then k else k + 1;
            && j < |cs| && cs[j].owner == owner && start + Span(cs[k..j]) == seg
            && seg + cs[j].size == start + bs[k].size
            && (seg > start ==> cs[k].owner == bs[k].owner)
            && cs[..k] == bs[..k] && cs[j + 1..] == bs[k + 1..]
  {
    var cs := ClaimAt(bs, k, start, seg, owner);
    if seg == start {
      assert cs[k..k] == [];
    } else {
      assert cs[k..k + 1] == [cs[k]];
      SpanOne(cs[k]);
    }
  }

  lemma CarveSpan(owner: u16, size: u16, n: u16)
    requires n <= size
    ensures Span(Carve(owner, size, n)) == 1 + size
    ensures Carve(owner, size, n)[0].owner == owner
    ensures Carve(owner, size, n)[0].size == n || Carve(owner, size, n)[0].size == n + 1
    ensures Carve(owner, size, n)[0].size <= size
  {
    var c := Carve(owner, size, n);
    if size > n + 1 {
      assert c == [c[0]] + [c[1]];
      SpanConcat([c[0]], [c[1]]);
    } else {
      assert c[1..] == [];
    }
  }

  // The stretch of the chain that a free or resize of block k replaces.
  lemma AbsorbedStretch(bs: seq<Block>, k: nat)
    requires k < |bs|
    ensures var r := FreeRun(bs[k + 1..]);
            && k + 1 + r <= |bs|
            && bs == bs[..k] + bs[k..k + 1 + r] + bs[k + 1 + r..]
            && Span(bs[k..k + 1 + r]) == 1 + Reach(bs, k)
  {
    var r := FreeRun(bs[k + 1..]);
    assert bs[k..k + 1 + r] == [bs[k]] + bs[k + 1..k + 1 + r];
    SpanConcat([bs[k]], bs[k + 1..k + 1 + r]);
    assert [bs[k]][1..] == [];
  }

  // Every call keeps the total: the chain still ends exactly where it ended.
  lemma {:induction false} AllocKeepsSpan(bs: seq<Block>, k: nat, n: u16, psp: u16)
    requires k < |bs| && n <= bs[k].size
    ensures Span(AllocAt(bs, k, n, psp)) == Span(bs)
  {
    CarveSpan(psp, bs[k].size, n);
    assert bs == bs[..k] + [bs[k]] + bs[k + 1..] && [bs[k]][1..] == [];
    SwapKeepsBlocks(bs[..k], [bs[k]], Carve(psp, bs[k].size, n), bs[k + 1..], 0, 0);
  }

  lemma {:induction false} AbsorbedKeepsSpan(bs: seq<Block>, k: nat, middle: seq<Block>)
    requires k < |bs| && Span(middle) == 1 + Reach(bs, k)
    ensures Span(Absorbed(bs, k, middle)) == Span(bs)
  {
    AbsorbedStretch(bs, k);
    var r := FreeRun(bs[k + 1..]);
    SwapKeepsBlocks(bs[..k], bs[k..k + 1 + r], middle, bs[k + 1 + r..], 0, 0);
  }

  lemma {:induction false} ResizeSpan(bs: seq<Block>, k: nat, n: u16)
    requires k < |bs| && Reach(bs, k) < 0x1_0000
    ensures Span(ResizeAt(bs, k, n)) == Span(bs)
  {
    var owner, reach: u16 := bs[k].owner, Reach(bs, k);
    if n > reach {
      assert [Block(owner, reach)][1..] == [];
      AbsorbedKeepsSpan(bs, k, [Block(owner, reach)]);
    } else {
      CarveSpan(owner, reach, n);
      AbsorbedKeepsSpan(bs, k, Carve(owner, reach, n));
    }
  }

  // No other owned block moves or changes size: allocation only touches the free block it carves.
  lemma {:induction false} AllocKeepsOthers(bs: seq<Block>, at: int, k: nat, n: u16, psp: u16, pos: int)
    requires k < |bs| && bs[k].owner == 0 && n <= bs[k].size
    requires BlockAt(bs, at, pos).Some? && BlockAt(bs, at, pos).value.owner != 0
    ensures BlockAt(AllocAt(bs, k, n, psp), at, pos) == BlockAt(bs, at, pos)
  {
    CarveSpan(psp, bs[k].size, n);
    assert bs == bs[..k] + [bs[k]] + bs[k + 1..] && [bs[k]][1..] == [];
    StretchOf(bs[..k], [bs[k]], bs[k + 1..], at, pos);
    SwapKeepsBlocks(bs[..k], [bs[k]], Carve(psp, bs[k].size, n), bs[k + 1..], at, pos);
  }

  // A block whose header lies within a stretch is one of the stretch's blocks.
  lemma {:induction false} StretchOf(xs: seq<Block>, ms: seq<Block>, ys: seq<Block>, at: int, pos: int)
    requires BlockAt(xs + ms + ys, at, pos).Some?
    ensures at + Span(xs) <= pos < at + Span(xs) + Span(ms) ==>
              BlockAt(xs + ms + ys, at, pos) == BlockAt(ms, at + Span(xs), pos)
  {
    BlockAtConcat(xs + ms, ys, at, pos);
    BlockAtConcat(xs, ms, at, pos);
    SpanConcat(xs, ms);
    BlockAtBounds(xs, at, pos);
    BlockAtBounds(ys, at + Span(xs + ms), pos);
  }

  // Free and resize of the block at another position leave an owned block alone.
  lemma {:induction false} AbsorbKeepsOthers(bs: seq<Block>, at: int, k: nat, middle: seq<Block>, pos: int)
    requires k < |bs| && Span(middle) == 1 + Reach(bs, k) && pos != at + Span(bs[..k])
    requires BlockAt(bs, at, pos).Some? && BlockAt(bs, at, pos).value.owner != 0
    ensures BlockAt(Absorbed(bs, k, middle), at, pos) == BlockAt(bs, at, pos)
  {
    AbsorbedStretch(bs, k);
    var r := FreeRun(bs[k + 1..]);
    var ms := bs[k..k + 1 + r];
    StretchOf(bs[..k], ms, bs[k + 1 + r..], at, pos);
    assert ms[1..] == bs[k + 1..][..r];
    FreeBlocksOnly(ms[1..], at + Span(bs[..k]) + 1 + bs[k].size, pos);
    SwapKeepsBlocks(bs[..k], ms, middle, bs[k + 1 + r..], at, pos);
  }

  lemma {:induction false} FreeBlocksOnly(bs: seq<Block>, at: int, pos: int)
    requires forall i :: 0 <= i < |bs| ==> bs[i].owner == 0
    ensures BlockAt(bs, at, pos).Some? ==> BlockAt(bs, at, pos).value.owner == 0
  {
    if bs != [] && at != pos {
      FreeBlocksOnly(bs[1..], at + 1 + bs[0].size, pos);
    }
  }

  lemma {:induction false} ClaimSpan(bs: seq<Block>, k: nat, start: u16, seg: u16, owner: u16)
    requires k < |bs| && start <= seg < start + bs[k].size
    ensures Span(ClaimAt(bs, k, start, seg, owner)) == Span(bs)
  {
    var ms := if seg == start then [Block(owner, bs[k].size)]
              else [Block(bs[k].owner, seg - start - 1), Block(owner, start + bs[k].size - seg)];
    assert ClaimAt(bs, k, start, seg, owner) == bs[..k] + ms + bs[k + 1..];
    assert bs == bs[..k] + [bs[k]] + bs[k + 1..] && [bs[k]][1..] == [];
    if seg == start {
      assert ms[1..] == [];
    } else {
      assert ms[1..] == [ms[1]] && ms[1..][1..] == [];
    }
    SwapKeepsBlocks(bs[..k], [bs[k]], ms, bs[k + 1..], 0, 0);
  }

  // ---- absorbing one free neighbour at a time ----

  ghost function MergeNext(bs: seq<Block>, k: nat): seq<Block>
    requires k + 1 < |bs| && bs[k].size + 1 + bs[k + 1].size < 0x1_0000
  {
    bs[..k] + [Block(bs[k].owner, bs[k].size + 1 + bs[k + 1].size)] + bs[k + 2..]
  }

  lemma {:induction false} MergeNextSpan(bs: seq<Block>, k: nat)
    requires k + 1 < |bs| && bs[k].size + 1 + bs[k + 1].size < 0x1_0000
    ensures var ts := MergeNext(bs, k);
            Span(ts) == Span(bs) && ts[..k] == bs[..k] && ts[k].owner == bs[k].owner && ts[k + 1..] == bs[k + 2..]
  {
    hide Span, BlockAt;
    var ts := MergeNext(bs, k);
    var ms, ps := [bs[k], bs[k + 1]], [ts[k]];
    assert bs == bs[..k] + ms + bs[k + 2..] && ts == bs[..k] + ps + bs[k + 2..];
    SpanTwo(bs[k], bs[k + 1]);
    SpanOne(ts[k]);
    SwapKeepsBlocks(bs[..k], ms, ps, bs[k + 2..], 0, 0);
  }

  lemma {:induction false} FreeRunStep(xs: seq<Block>)
    requires xs != [] && xs[0].owner == 0
    ensures FreeRun(xs) == 1 + FreeRun(xs[1..])
    ensures Span(xs[..FreeRun(xs)]) == 1 + xs[0].size + Span(xs[1..][..FreeRun(xs[1..])])
  {
    hide Span;
    var r := FreeRun(xs[1..]);
    assert xs[..1 + r] == [xs[0]] + xs[1..][..r];
    SpanConcat([xs[0]], xs[1..][..r]);
    SpanOne(xs[0]);
  }

  // Absorbing the next free block changes neither what can be reached nor what is left when all is absorbed.
  lemma {:induction false} MergeStep(bs: seq<Block>, k: nat, middle: seq<Block>)
    requires k + 1 < |bs| && bs[k + 1].owner == 0 && bs[k].size + 1 + bs[k + 1].size < 0x1_0000
    ensures var ts := MergeNext(bs, k);
            && Span(ts) == Span(bs) && ts[..k] == bs[..k] && ts[k].owner == bs[k].owner
            && Reach(ts, k) == Reach(bs, k)
            && Absorbed(ts, k, middle) == Absorbed(bs, k, middle)
  {
    hide Span, FreeRun;
    var ts := MergeNext(bs, k);
    MergeNextSpan(bs, k);
    var xs := bs[k + 1..];
    assert xs[1..] == bs[k + 2..];
    var r := FreeRun(xs[1..]);
    FreeRunStep(xs);
    assert bs[k + 1..k + 2 + r] == xs[..1 + r] && ts[k + 1..k + 1 + r] == xs[1..][..r];
    assert bs[k + 2 + r..] == ts[k + 1 + r..];
  }

  lemma SpanTwo(b: Block, c: Block)
    ensures Span([b, c]) == 2 + b.size + c.size
  {
    assert [b, c] == [b] + [c];
    SpanConcat([b], [c]);
    SpanOne(b);
    SpanOne(c);
  }

  lemma NothingToAbsorb(bs: seq<Block>, k: nat)
    requires k < |bs| && FreeRun(bs[k + 1..]) == 0
    ensures Reach(bs, k) == bs[k].size && Absorbed(bs, k, [bs[k]]) == bs
  {
    assert bs[k + 1..k + 1] == [];
    assert bs == bs[..k] + [bs[k]] + bs[k + 1..];
  }

  // The block whose memory contains a segment.
  function Containing(bs: seq<Block>, at: int, seg: int): Option<nat> {
    if bs == [] then None
    else if at + 1 <= seg < at + 1 + bs[0].size then Some(0)
    else match Containing(bs[1..], at + 1 + bs[0].size, seg)
      case None => None
      case Some(k) => Some(k + 1)
  }

  lemma {:induction false} ContainingIs(bs: seq<Block>, at: int, seg: int)
    ensures match Containing(bs, at, seg)
            case None =>
              forall k :: 0 <= k < |bs| ==> !(at + Span(bs[..k]) + 1 <= seg < at + Span(bs[..k]) + 1 + bs[k].size)
            case Some(k) => k < |bs| && at + Span(bs[..k]) + 1 <= seg < at + Span(bs[..k]) + 1 + bs[k].size
  {
    if bs != [] {
      ContainingIs(bs[1..], at + 1 + bs[0].size, seg);
      forall k | 0 < k < |bs| ensures bs[..k][1..] == bs[1..][..k - 1] && bs[k] == bs[1..][k - 1] {
      }
    }
  }

  lemma {:induction false} ContainingStep(bs: seq<Block>, at: int, seg: int, k: nat)
    requires k < |bs| && Containing(bs[..k], at, seg).None?
    ensures var start := at + Span(bs[..k]) + 1;
            if start <= seg < start + bs[k].size then Containing(bs, at, seg) == Some(k)
            else Containing(bs[..k + 1], at, seg).None?
  {
    if k == 0 {
      assert bs[..1][1..] == [];
    } else {
      assert bs[..k][1..] == bs[1..][..k - 1] && bs[..k + 1][1..] == bs[1..][..k];
      ContainingStep(bs[1..], at + 1 + bs[0].size, seg, k - 1);
    }
  }
}
