/** A page written with auto-format on and read back with auto-format on
    returns what was written, sector data and FDM bytes alike: the FDM
    register packing, the bad-block-mark swaps and the bounce-buffer moves
    of the two paths undo each other. The flash itself is taken to keep
    what the controller wrote: the sector data of the written bounce buffer
    and the FDM registers. */
module SnfiRoundTrip {
  import opened SnfiTypes
  import opened SnfiPagefmt
  import opened SnfiFdm
  import opened SnfiPageCache

  /** A buffer that can be swapped holds the sector data and the FDM
      bytes. */
  lemma FdmEndFits(c: Caps, cfg: Conf, b: seq<bv8>)
    requires SwapReady(c, cfg, b)
    ensures cfg.pageSize <= FdmEnd(c, cfg) <= |b|
  {
    SwapPositions(c, cfg, b);
  }

  /** Every byte of `out` read from a column below `n` is the byte of
      `data` at that column; `out` holds what a read from column `col`
      returned. */
  predicate RecoversBelow(out: seq<bv8>, data: seq<bv8>, col: nat, n: nat)
  {
    forall k :: 0 <= k < |out| && col + k < n ==> col + k < |data| && out[k] == data[col + k]
  }

  /** A read that stays below `n` returns exactly the bytes of `data` at
      its columns. */
  lemma RecoversAll(out: seq<bv8>, data: seq<bv8>, col: nat, n: nat)
    requires RecoversBelow(out, data, col, n) && col + |out| <= n <= |data|
    ensures out == data[col..col + |out|]
  {
  }

  /** Two buffers hold the same first `n` bytes. */
  predicate AgreeBelow(x: seq<bv8>, y: seq<bv8>, n: nat)
  {
    n <= |x| && n <= |y| && forall k :: 0 <= k < n ==> x[k] == y[k]
  }

  /** The swaps only touch bytes below the end of the FDM bytes, so they
      keep two buffers that agree there in agreement. */
  lemma SwapsKeepAgreement(c: Caps, cfg: Conf, x: seq<bv8>, y: seq<bv8>)
    requires SwapReady(c, cfg, x) && SwapReady(c, cfg, y) && AgreeBelow(x, y, FdmEnd(c, cfg))
    ensures AgreeBelow(FdmBmSwap(c, cfg, x), FdmBmSwap(c, cfg, y), FdmEnd(c, cfg))
    ensures AgreeBelow(BmSwap(c, cfg, x), BmSwap(c, cfg, y), FdmEnd(c, cfg))
  {
    SwapPositions(c, cfg, x);
    if SwapsBbm(c, cfg) {
      var n := FdmEnd(c, cfg);
      forall k | 0 <= k < n
        ensures FdmBmSwap(c, cfg, x)[k] == FdmBmSwap(c, cfg, y)[k]
        ensures BmSwap(c, cfg, x)[k] == BmSwap(c, cfg, y)[k]
      {
        FdmBmSwapEffect(c, cfg, x, k);
        FdmBmSwapEffect(c, cfg, y, k);
        BmSwapEffect(c, cfg, x, k);
        BmSwapEffect(c, cfg, y, k);
      }
    }
  }

  /** The sector data of `d` followed by the FDM part of `b`. */
  function Comb(cfg: Conf, d: seq<bv8>, b: seq<bv8>): (r: seq<bv8>)
    requires cfg.pageSize <= |d| && cfg.pageSize <= |b|
    ensures |r| == |b|
  {
    d[..cfg.pageSize] + b[cfg.pageSize..]
  }

  /** The bm_swap between the caller's buffer and the bounce buffer is the
      in-place bm_swap on the combined buffer, and fdm_bm_swap, which only
      touches FDM bytes, commutes with combining. */
  lemma SplitSwapIsCombinedSwap(c: Caps, cfg: Conf, b: seq<bv8>, d: seq<bv8>)
    requires SwapReady(c, cfg, b) && |d| >= cfg.pageSize
    ensures SwapReady(c, cfg, Comb(cfg, d, b))
    ensures var t := BmSwapSplit(c, cfg, b, d);
            Comb(cfg, t.1, t.0) == BmSwap(c, cfg, Comb(cfg, d, b))
    ensures FdmBmSwap(c, cfg, Comb(cfg, d, b)) == Comb(cfg, d, FdmBmSwap(c, cfg, b))
  {
    SwapPositions(c, cfg, b);
    var m := Comb(cfg, d, b);
    if SwapsBbm(c, cfg) {
      var t := BmSwapSplit(c, cfg, b, d);
      var q := BufBbmPos(c, cfg);
      var p2 := FdmBbmPos2(c, cfg);
      forall k | 0 <= k < |m|
        ensures Comb(cfg, t.1, t.0)[k] == BmSwap(c, cfg, m)[k]
      {
        BmSwapEffect(c, cfg, m, k);
      }
      forall k | 0 <= k < |m|
        ensures FdmBmSwap(c, cfg, m)[k] == Comb(cfg, d, FdmBmSwap(c, cfg, b))[k]
      {
        FdmBmSwapEffect(c, cfg, m, k);
        FdmBmSwapEffect(c, cfg, b, k);
      }
    }
  }

  /** The bounce buffer the write path hands to the DMA, before the swaps,
      holds the data in its first FdmEnd bytes. */
  lemma FilledBounce(c: Caps, cfg: Conf, bounce: seq<bv8>, data: seq<bv8>)
    requires SwapReady(c, cfg, bounce) && |data| >= FdmEnd(c, cfg)
    ensures AgreeBelow(WriteBounce(bounce, 0, data), data, FdmEnd(c, cfg))
  {
    SwapPositions(c, cfg, bounce);
  }

  lemma ReadSwappedKeepsAgreement(c: Caps, cfg: Conf, x: seq<bv8>, y: seq<bv8>)
    requires SwapReady(c, cfg, x) && SwapReady(c, cfg, y) && AgreeBelow(x, y, FdmEnd(c, cfg))
    ensures AgreeBelow(ReadSwapped(c, cfg, x), ReadSwapped(c, cfg, y), FdmEnd(c, cfg))
  {
    if c.bbmSwap {
      SwapsKeepAgreement(c, cfg, x, y);
      SwapsKeepAgreement(c, cfg, BmSwap(c, cfg, x), BmSwap(c, cfg, y));
    }
  }

  /** What the read path rebuilds, before its swaps, from the sector data
      and the FDM bytes read back from the registers agrees with the
      written bounce buffer up to the end of the FDM bytes. */
  lemma RebuiltAgrees(c: Caps, cfg: Conf, w2: seq<bv8>, fdm: seq<bv8>, base: seq<bv8>)
    requires SwapReady(c, cfg, w2) && SwapReady(c, cfg, base)
    requires cfg.pageSize <= FdmEnd(c, cfg) <= |w2| && FdmEnd(c, cfg) <= |base|
    requires |fdm| == cfg.nsectors * c.fdmSize && fdm == w2[cfg.pageSize..FdmEnd(c, cfg)]
    ensures cfg.pageSize + |fdm| <= |base|
    ensures AgreeBelow(PutAt(w2[..cfg.pageSize] + base[cfg.pageSize..], cfg.pageSize, fdm), w2, FdmEnd(c, cfg))
  {
  }

  /** What a page write from column 0 leaves: the swapped bounce buffer
      that goes to the flash, FDM registers that read back as its FDM
      bytes, and a bounce buffer that held the data before the swaps. */
  lemma WritePageFromStart(c: Caps, cfg: Conf, bounceW: seq<bv8>, regs0: Regs, addrW: u64, data: seq<bv8>)
    requires AutofmtReady(c, cfg, bounceW)
    requires PlaneSplit(cfg, addrW).column == 0 && |data| >= FdmEnd(c, cfg)
    ensures var w := WritePage(c, cfg, true, bounceW, regs0, addrW, data);
            var b1 := WriteBounce(bounceW, 0, data);
            && SwapReady(c, cfg, b1) && SwapReady(c, cfg, w.bounce)
            && w.bounce == WriteSwapped(c, cfg, b1)
            && AgreeBelow(b1, data, FdmEnd(c, cfg))
            && cfg.pageSize <= FdmEnd(c, cfg) <= |w.bounce|
            && |ReadFdm(c, cfg, w.regs)| == cfg.nsectors * c.fdmSize
            && ReadFdm(c, cfg, w.regs) == w.bounce[cfg.pageSize..FdmEnd(c, cfg)]
  {
    FilledBounce(c, cfg, bounceW, data);
    var b1 := WriteBounce(bounceW, 0, data);
    var t := SwapAndLoadFdm(c, cfg, b1, regs0);
    var w := WritePage(c, cfg, true, bounceW, regs0, addrW, data);
    assert w.bounce == t.0 && w.regs == t.1;
  }

  /** The bounce buffer the read path rebuilds, once the swaps are undone,
      holds the data written up to the end of the FDM bytes. */
  lemma BounceAgrees(c: Caps, cfg: Conf, w2: seq<bv8>, b1: seq<bv8>, data: seq<bv8>,
                     bounceR: seq<bv8>, fdm: seq<bv8>)
    requires SwapReady(c, cfg, w2) && SwapReady(c, cfg, b1) && SwapReady(c, cfg, bounceR)
    requires w2 == WriteSwapped(c, cfg, b1) && AgreeBelow(b1, data, FdmEnd(c, cfg))
    requires cfg.pageSize <= FdmEnd(c, cfg) <= |w2| && FdmEnd(c, cfg) <= |bounceR|
    requires |fdm| == cfg.nsectors * c.fdmSize && fdm == w2[cfg.pageSize..FdmEnd(c, cfg)]
    ensures cfg.pageSize + |fdm| <= |bounceR|
    ensures var rebuilt := PutAt(w2[..cfg.pageSize] + bounceR[cfg.pageSize..], cfg.pageSize, fdm);
            SwapReady(c, cfg, rebuilt) && AgreeBelow(ReadSwapped(c, cfg, rebuilt), data, FdmEnd(c, cfg))
  {
    RebuiltAgrees(c, cfg, w2, fdm, bounceR);
    var rebuilt := PutAt(w2[..cfg.pageSize] + bounceR[cfg.pageSize..], cfg.pageSize, fdm);
    ReadSwappedKeepsAgreement(c, cfg, rebuilt, w2);
    ReadSwappedUndoes(c, cfg, b1);
  }

  /** Copying out of a buffer that agrees with `data` below `n` returns
      the bytes of `data` at every column below `n`. */
  lemma CopyBackAgreeing(c: Caps, cfg: Conf, b2: seq<bv8>, dest: seq<bv8>, data: seq<bv8>, col: nat, n: nat)
    requires AgreeBelow(b2, data, n)
    ensures RecoversBelow(CopyBack(c, cfg, false, false, b2, dest, col), data, col, n)
  {
  }

  /** The read path through the bounce buffer returns the written bytes
      at every column before the end of the FDM bytes, whatever its
      length. */
  lemma BounceReadRecovers(c: Caps, cfg: Conf, w2: seq<bv8>, b1: seq<bv8>, data: seq<bv8>,
                           bounceR: seq<bv8>, fdm: seq<bv8>, dest: seq<bv8>, col: nat)
    requires SwapReady(c, cfg, w2) && SwapReady(c, cfg, b1) && SwapReady(c, cfg, bounceR)
    requires w2 == WriteSwapped(c, cfg, b1) && AgreeBelow(b1, data, FdmEnd(c, cfg))
    requires cfg.pageSize <= FdmEnd(c, cfg) <= |w2| && FdmEnd(c, cfg) <= |bounceR|
    requires |fdm| == cfg.nsectors * c.fdmSize && fdm == w2[cfg.pageSize..FdmEnd(c, cfg)]
    ensures RecoversBelow(ReadThroughBounce(c, cfg, bounceR, fdm, dest, w2[..cfg.pageSize], col, false).dest,
                          data, col, FdmEnd(c, cfg))
  {
    BounceAgrees(c, cfg, w2, b1, data, bounceR, fdm);
    var rebuilt := PutAt(w2[..cfg.pageSize] + bounceR[cfg.pageSize..], cfg.pageSize, fdm);
    CopyBackAgreeing(c, cfg, ReadSwapped(c, cfg, rebuilt), dest, data, col, FdmEnd(c, cfg));
  }

  /** With auto-format on, the read takes the direct path from column 0
      when at least a page is asked for, and the bounce path otherwise. */
  lemma ReadPagePaths(c: Caps, cfg: Conf, bounce: seq<bv8>, regs: Regs, addr: u64, dest: seq<bv8>, dma: seq<bv8>)
    requires AutofmtReady(c, cfg, bounce) && |dma| == cfg.pageSize
    ensures var col := PlaneSplit(cfg, addr).column;
            var fdm := ReadFdm(c, cfg, regs);
            && (col == 0 && |dest| >= cfg.pageSize ==>
                  ReadPage(c, cfg, true, bounce, regs, addr, dest, dma, false) == ReadDirect(c, cfg, bounce, fdm, dest, dma, false))
            && (!(col == 0 && |dest| >= cfg.pageSize) ==>
                  ReadPage(c, cfg, true, bounce, regs, addr, dest, dma, false) == ReadThroughBounce(c, cfg, bounce, fdm, dest, dma, col, false))
  {
  }

  /** Writing `data` from column 0 and reading `|dest|` bytes back from
      column `col` returns the written byte at every column within the
      sector data and the FDM bytes, for reads of any length and place;
      the ECC parity past them is the controller's, not the data's. A read
      that stays within them returns exactly the written bytes. */
  lemma WriteThenRead(c: Caps, cfg: Conf, bounceW: seq<bv8>, regs0: Regs, addrW: u64, data: seq<bv8>,
                      bounceR: seq<bv8>, addrR: u64, dest: seq<bv8>)
    requires AutofmtReady(c, cfg, bounceW) && AutofmtReady(c, cfg, bounceR)
    requires PlaneSplit(cfg, addrW).column == 0 && |data| >= FdmEnd(c, cfg)
    ensures var w := WritePage(c, cfg, true, bounceW, regs0, addrW, data);
            var col := PlaneSplit(cfg, addrR).column;
            && |w.bounce| >= cfg.pageSize
            && var out := ReadPage(c, cfg, true, bounceR, w.regs, addrR, dest, w.bounce[..cfg.pageSize], false).dest;
               && RecoversBelow(out, data, col, FdmEnd(c, cfg))
               && (col + |dest| <= FdmEnd(c, cfg) ==> out == data[col..col + |dest|])
  {
    WritePageFromStart(c, cfg, bounceW, regs0, addrW, data);
    var w := WritePage(c, cfg, true, bounceW, regs0, addrW, data);
    ReadBackWritten(c, cfg, w.bounce, w.regs, WriteBounce(bounceW, 0, data), data, bounceR, addrR, dest);
  }

  /** The read half of WriteThenRead, for any bounce buffer and registers
      that a write from column 0 can leave behind. */
  lemma ReadBackWritten(c: Caps, cfg: Conf, w2: seq<bv8>, regs: Regs, b1: seq<bv8>, data: seq<bv8>,
                        bounceR: seq<bv8>, addrR: u64, dest: seq<bv8>)
    requires AutofmtReady(c, cfg, bounceR)
    requires SwapReady(c, cfg, b1) && SwapReady(c, cfg, w2)
    requires w2 == WriteSwapped(c, cfg, b1) && AgreeBelow(b1, data, FdmEnd(c, cfg))
    requires cfg.pageSize <= FdmEnd(c, cfg) <= |w2|
    requires |ReadFdm(c, cfg, regs)| == cfg.nsectors * c.fdmSize
    requires ReadFdm(c, cfg, regs) == w2[cfg.pageSize..FdmEnd(c, cfg)]
    ensures var col := PlaneSplit(cfg, addrR).column;
            var out := ReadPage(c, cfg, true, bounceR, regs, addrR, dest, w2[..cfg.pageSize], false).dest;
            && RecoversBelow(out, data, col, FdmEnd(c, cfg))
            && (col + |dest| <= FdmEnd(c, cfg) ==> out == data[col..col + |dest|])
  {
    FdmEndFits(c, cfg, bounceR);
    var col := PlaneSplit(cfg, addrR).column;
    var fdm := ReadFdm(c, cfg, regs);
    ReadPagePaths(c, cfg, bounceR, regs, addrR, dest, w2[..cfg.pageSize]);
    if col == 0 && |dest| >= cfg.pageSize {
      DirectReadRecovers(c, cfg, w2, b1, data, bounceR, fdm, dest);
    } else {
      BounceReadRecovers(c, cfg, w2, b1, data, bounceR, fdm, dest, col);
    }
    var out := ReadPage(c, cfg, true, bounceR, regs, addrR, dest, w2[..cfg.pageSize], false).dest;
    if col + |dest| <= FdmEnd(c, cfg) {
      RecoversAll(out, data, col, FdmEnd(c, cfg));
    }
  }

  /** The read path's direct copy-back, before its swaps, sees the written
      bounce buffer up to the end of the FDM bytes. */
  lemma DirectRebuiltAgrees(c: Caps, cfg: Conf, w2: seq<bv8>, bounceR: seq<bv8>, fdm: seq<bv8>, dest: seq<bv8>)
    requires SwapReady(c, cfg, w2) && SwapReady(c, cfg, bounceR)
    requires cfg.pageSize <= FdmEnd(c, cfg) <= |w2| && FdmEnd(c, cfg) <= |bounceR|
    requires |fdm| == cfg.nsectors * c.fdmSize && fdm == w2[cfg.pageSize..FdmEnd(c, cfg)]
    requires cfg.pageSize <= |dest|
    ensures cfg.pageSize + |fdm| <= |bounceR|
    ensures var m := Comb(cfg, w2[..cfg.pageSize] + dest[cfg.pageSize..], PutAt(bounceR, cfg.pageSize, fdm));
            SwapReady(c, cfg, m) && AgreeBelow(m, w2, FdmEnd(c, cfg))
  {
  }

  /** A direct copy-back whose combined view agrees with `data` below `n`
      returns the bytes of `data` there. */
  lemma DirectCopyBack(c: Caps, cfg: Conf, bb: seq<bv8>, dd: seq<bv8>, data: seq<bv8>, n: nat)
    requires cfg.pageSize <= |dd| && cfg.pageSize <= |bb| && n <= |bb|
    requires AgreeBelow(Comb(cfg, dd, bb), data, n)
    ensures RecoversBelow(CopyBack(c, cfg, false, true, bb, dd, 0), data, 0, n)
  {
    var m := Comb(cfg, dd, bb);
    var r := CopyBack(c, cfg, false, true, bb, dd, 0);
    forall k | 0 <= k < |r| && k < n
      ensures r[k] == data[k]
    {
      assert m[k] == data[k];
    }
  }

  /** The direct read path, with the swaps, returns the written bytes at
      every column before the end of the FDM bytes, whatever its length. */
  lemma DirectReadRecovers(c: Caps, cfg: Conf, w2: seq<bv8>, b1: seq<bv8>, data: seq<bv8>,
                           bounceR: seq<bv8>, fdm: seq<bv8>, dest: seq<bv8>)
    requires SwapReady(c, cfg, w2) && SwapReady(c, cfg, b1) && SwapReady(c, cfg, bounceR)
    requires w2 == WriteSwapped(c, cfg, b1) && AgreeBelow(b1, data, FdmEnd(c, cfg))
    requires cfg.pageSize <= FdmEnd(c, cfg) <= |w2| && FdmEnd(c, cfg) <= |bounceR|
    requires |fdm| == cfg.nsectors * c.fdmSize && fdm == w2[cfg.pageSize..FdmEnd(c, cfg)]
    requires cfg.pageSize <= |dest|
    ensures RecoversBelow(ReadDirect(c, cfg, bounceR, fdm, dest, w2[..cfg.pageSize], false).dest, data, 0, FdmEnd(c, cfg))
  {
    DirectRebuiltAgrees(c, cfg, w2, bounceR, fdm, dest);
    var n := FdmEnd(c, cfg);
    var d0 := w2[..cfg.pageSize] + dest[cfg.pageSize..];
    var bf := PutAt(bounceR, cfg.pageSize, fdm);
    var m := Comb(cfg, d0, bf);
    ReadSwappedKeepsAgreement(c, cfg, m, w2);
    ReadSwappedUndoes(c, cfg, b1);
    assert AgreeBelow(ReadSwapped(c, cfg, m), data, n);
    if c.bbmSwap {
      var t := BmSwapSplit(c, cfg, bf, d0);
      SplitSwapIsCombinedSwap(c, cfg, bf, d0);
      SplitSwapIsCombinedSwap(c, cfg, t.0, t.1);
      assert Comb(cfg, t.1, FdmBmSwap(c, cfg, t.0)) == ReadSwapped(c, cfg, m);
      DirectCopyBack(c, cfg, FdmBmSwap(c, cfg, t.0), t.1, data, n);
    } else {
      DirectCopyBack(c, cfg, bf, d0, data, n);
    }
  }
}
