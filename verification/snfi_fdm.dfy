/** Flash data module (FDM) bytes and bad-block-mark (BBM) handling of the
    SNFI driver: the FDM registers filled from and drained into the OOB part
    of the bounce buffer (mtk_snand_write_fdm, mtk_snand_read_fdm), and the
    two byte swaps that put the BBM where the BootROM expects it
    (mtk_snand_bm_swap, mtk_snand_fdm_bm_swap). */
module SnfiFdm {
  import opened SnfiTypes
  import opened Arith

  const NFI_FDM0L: nat := 0x0a0
  const NFI_FDM0M: nat := 0x0a4

  function FDML(i: nat): nat { NFI_FDM0L + i * 8 }
  function FDMM(i: nat): nat { NFI_FDM0M + i * 8 }

  /** The register holding FDM byte `j` of sector `i`. */
  function FdmReg(i: nat, j: nat): nat
  {
    if j < 4 then FDML(i) else FDMM(i)
  }

  /** Whether an offset is one of the FDM registers of the first `n`
      sectors. */
  predicate IsFdmReg(off: nat, n: nat)
  {
    NFI_FDM0L <= off < NFI_FDM0L + 8 * n && off % 4 == 0
  }

  /** Byte `j` (of eight) that write_fdm puts into the registers of sector
      `i`: the FDM byte when `j` is below the FDM size, 0xff padding
      otherwise. */
  function FdmByte(c: Caps, cfg: Conf, oob: seq<bv8>, i: nat, j: nat): bv8
    requires i < cfg.nsectors && |oob| >= cfg.nsectors * c.fdmSize
  {
    if j < c.fdmSize then
      RecordIndex(c.fdmSize, cfg.nsectors, i, j);
      oob[i * c.fdmSize + j]
    else 0xff
  }

  /** The two register words of sector `i`. */
  function FdmLow(c: Caps, cfg: Conf, oob: seq<bv8>, i: nat): bv32
    requires i < cfg.nsectors && |oob| >= cfg.nsectors * c.fdmSize
  {
    PackLE(FdmByte(c, cfg, oob, i, 0), FdmByte(c, cfg, oob, i, 1), FdmByte(c, cfg, oob, i, 2), FdmByte(c, cfg, oob, i, 3))
  }

  function FdmHigh(c: Caps, cfg: Conf, oob: seq<bv8>, i: nat): bv32
    requires i < cfg.nsectors && |oob| >= cfg.nsectors * c.fdmSize
  {
    PackLE(FdmByte(c, cfg, oob, i, 4), FdmByte(c, cfg, oob, i, 5), FdmByte(c, cfg, oob, i, 6), FdmByte(c, cfg, oob, i, 7))
  }

  /** Both registers of sector `i` are FDM registers of any `k > i`
      sectors, and those of sectors other than `i` are different ones. */
  lemma FdmRegsOf(i: nat, k: nat)
    requires i < k
    ensures IsFdmReg(FDML(i), k) && IsFdmReg(FDMM(i), k)
  {
    DivModUnique(FDML(i), 4, 0x28 + 2 * i, 0);
    DivModUnique(FDMM(i), 4, 0x29 + 2 * i, 0);
  }

  /** mtk_snand_write_fdm for the first `k` sectors. */
  function WriteFdmSectors(c: Caps, cfg: Conf, oob: seq<bv8>, regs: Regs, k: nat): (r: Regs)
    requires k <= cfg.nsectors && |oob| >= cfg.nsectors * c.fdmSize
    ensures forall i :: 0 <= i < k ==> Read32(r, FDML(i)) == FdmLow(c, cfg, oob, i)
    ensures forall i :: 0 <= i < k ==> Read32(r, FDMM(i)) == FdmHigh(c, cfg, oob, i)
    ensures forall off :: !IsFdmReg(off, k) ==> Read32(r, off) == Read32(regs, off)
  {
    if k == 0 then regs
    else
      var prev := WriteFdmSectors(c, cfg, oob, regs, k - 1);
      WriteFdmStep(c, cfg, oob, regs, k, prev);
      prev[FDML(k - 1) := FdmLow(c, cfg, oob, k - 1)][FDMM(k - 1) := FdmHigh(c, cfg, oob, k - 1)]
  }

  lemma WriteFdmStep(c: Caps, cfg: Conf, oob: seq<bv8>, regs: Regs, k: nat, prev: Regs)
    requires 1 <= k <= cfg.nsectors && |oob| >= cfg.nsectors * c.fdmSize
    requires forall i :: 0 <= i < k - 1 ==> Read32(prev, FDML(i)) == FdmLow(c, cfg, oob, i)
    requires forall i :: 0 <= i < k - 1 ==> Read32(prev, FDMM(i)) == FdmHigh(c, cfg, oob, i)
    requires forall off :: !IsFdmReg(off, k - 1) ==> Read32(prev, off) == Read32(regs, off)
    ensures var r := prev[FDML(k - 1) := FdmLow(c, cfg, oob, k - 1)][FDMM(k - 1) := FdmHigh(c, cfg, oob, k - 1)];
            && (forall i :: 0 <= i < k ==> Read32(r, FDML(i)) == FdmLow(c, cfg, oob, i))
            && (forall i :: 0 <= i < k ==> Read32(r, FDMM(i)) == FdmHigh(c, cfg, oob, i))
            && (forall off :: !IsFdmReg(off, k) ==> Read32(r, off) == Read32(regs, off))
  {
    var lo := FdmLow(c, cfg, oob, k - 1);
    var hi := FdmHigh(c, cfg, oob, k - 1);
    var r := prev[FDML(k - 1) := lo][FDMM(k - 1) := hi];
    forall i | 0 <= i < k
      ensures Read32(r, FDML(i)) == FdmLow(c, cfg, oob, i)
    {
      if i < k - 1 {
        assert Read32(r, FDML(i)) == Read32(prev, FDML(i));
      }
    }
    forall i | 0 <= i < k
      ensures Read32(r, FDMM(i)) == FdmHigh(c, cfg, oob, i)
    {
      if i < k - 1 {
        assert Read32(r, FDMM(i)) == Read32(prev, FDMM(i));
      }
    }
    FdmRegsOf(k - 1, k);
    forall off | !IsFdmReg(off, k)
      ensures Read32(r, off) == Read32(regs, off)
    {
      assert !IsFdmReg(off, k - 1);
      assert Read32(r, off) == Read32(prev, off);
    }
  }

  /** mtk_snand_write_fdm: the FDM registers of every sector of the page
      format, from the OOB bytes. */
  function WriteFdm(c: Caps, cfg: Conf, oob: seq<bv8>, regs: Regs): (r: Regs)
    requires |oob| >= cfg.nsectors * c.fdmSize
    ensures forall off :: !IsFdmReg(off, cfg.nsectors) ==> Read32(r, off) == Read32(regs, off)
  {
    WriteFdmSectors(c, cfg, oob, regs, cfg.nsectors)
  }

  /** Byte `j` of sector `i` sits in byte `j % 4` of FDML(i) for `j < 4`
      and of FDMM(i) otherwise, with 0xff beyond the FDM size. */
  lemma WriteFdmPlacesBytes(c: Caps, cfg: Conf, oob: seq<bv8>, regs: Regs, i: nat, j: nat)
    requires |oob| >= cfg.nsectors * c.fdmSize && i < cfg.nsectors && j < 8
    ensures ByteOf(Read32(WriteFdm(c, cfg, oob, regs), FdmReg(i, j)), j % 4) == FdmByte(c, cfg, oob, i, j)
  {
    var r := WriteFdm(c, cfg, oob, regs);
    if j < 4 {
      assert j % 4 == j;
      assert Read32(r, FDML(i)) == FdmLow(c, cfg, oob, i);
      LowByteAt(c, cfg, oob, i, j);
    } else {
      assert j % 4 == j - 4 by { DivModUnique(j, 4, 1, j - 4); }
      assert Read32(r, FDMM(i)) == FdmHigh(c, cfg, oob, i);
      HighByteAt(c, cfg, oob, i, j - 4);
    }
  }

  lemma LowByteAt(c: Caps, cfg: Conf, oob: seq<bv8>, i: nat, k: nat)
    requires i < cfg.nsectors && |oob| >= cfg.nsectors * c.fdmSize && k < 4
    ensures ByteOf(FdmLow(c, cfg, oob, i), k) == FdmByte(c, cfg, oob, i, k)
  {
    if k == 0 {} else if k == 1 {} else if k == 2 {} else {}
  }

  lemma HighByteAt(c: Caps, cfg: Conf, oob: seq<bv8>, i: nat, k: nat)
    requires i < cfg.nsectors && |oob| >= cfg.nsectors * c.fdmSize && k < 4
    ensures ByteOf(FdmHigh(c, cfg, oob, i), k) == FdmByte(c, cfg, oob, i, k + 4)
  {
    if k == 0 {} else if k == 1 {} else if k == 2 {} else {}
  }

  /** FDM byte `j` of sector `i` as read_fdm takes it from the registers. */
  function FdmRegByte(regs: Regs, i: nat, j: nat): bv8
    requires j < 8
  {
    ByteOf(Read32(regs, FdmReg(i, j)), j % 4)
  }

  /** The FDM bytes of one sector. */
  function SectorFdm(c: Caps, regs: Regs, i: nat): (s: seq<bv8>)
    requires c.fdmSize <= 8
    ensures |s| == c.fdmSize
    ensures forall j :: 0 <= j < |s| ==> s[j] == FdmRegByte(regs, i, j)
  {
    seq(c.fdmSize, j requires 0 <= j < c.fdmSize => FdmRegByte(regs, i, j))
  }

  /** Byte `p` of a packed FDM string is byte `p % fdm` of sector
      `p / fdm`. */
  predicate FdmAt(r: seq<bv8>, regs: Regs, f: nat, p: nat)
    requires 1 <= f <= 8 && p < |r|
  {
    r[p] == FdmRegByte(regs, p / f, p % f)
  }

  /** mtk_snand_read_fdm for the first `k` sectors: byte `p` of the result
      is byte `p % fdm` of sector `p / fdm`. */
  function ReadFdmSectors(c: Caps, regs: Regs, k: nat): (r: seq<bv8>)
    requires 1 <= c.fdmSize <= 8
    ensures |r| == k * c.fdmSize
    ensures forall p: nat :: p < |r| ==> FdmAt(r, regs, c.fdmSize, p)
  {
    if k == 0 then []
    else
      var prev := ReadFdmSectors(c, regs, k - 1);
      ReadFdmStep(c, regs, k, prev);
      prev + SectorFdm(c, regs, k - 1)
  }

  lemma ReadFdmStep(c: Caps, regs: Regs, k: nat, prev: seq<bv8>)
    requires 1 <= c.fdmSize <= 8 && k >= 1
    requires |prev| == (k - 1) * c.fdmSize
    requires forall p: nat :: p < |prev| ==> FdmAt(prev, regs, c.fdmSize, p)
    ensures var r := prev + SectorFdm(c, regs, k - 1);
            |r| == k * c.fdmSize
            && forall p: nat :: p < |r| ==> FdmAt(r, regs, c.fdmSize, p)
  {
    var f := c.fdmSize;
    var r := prev + SectorFdm(c, regs, k - 1);
    assert |r| == k * f by {
      assert (k - 1) * f + f == k * f;
    }
    forall p: nat | p < |r|
      ensures FdmAt(r, regs, f, p)
    {
      if p < |prev| {
        assert FdmAt(prev, regs, f, p);
      } else {
        DivModUnique(p, f, k - 1, p - (k - 1) * f);
      }
    }
  }

  /** mtk_snand_read_fdm: the FDM bytes of every sector, packed. */
  function ReadFdm(c: Caps, cfg: Conf, regs: Regs): (r: seq<bv8>)
    requires 1 <= c.fdmSize <= 8
    ensures |r| == cfg.nsectors * c.fdmSize
  {
    ReadFdmSectors(c, regs, cfg.nsectors)
  }

  /** Reading the FDM registers back gives the FDM bytes they were written
      from. */
  lemma ReadWriteFdm(c: Caps, cfg: Conf, oob: seq<bv8>, regs: Regs)
    requires 1 <= c.fdmSize <= 8 && |oob| >= cfg.nsectors * c.fdmSize
    ensures ReadFdm(c, cfg, WriteFdm(c, cfg, oob, regs)) == oob[..cfg.nsectors * c.fdmSize]
  {
    var r := ReadFdm(c, cfg, WriteFdm(c, cfg, oob, regs));
    var want := oob[..cfg.nsectors * c.fdmSize];
    forall p | 0 <= p < |r|
      ensures r[p] == want[p]
    {
      ReadWriteFdmAt(c, cfg, oob, regs, p);
    }
  }

  lemma ReadWriteFdmAt(c: Caps, cfg: Conf, oob: seq<bv8>, regs: Regs, p: nat)
    requires 1 <= c.fdmSize <= 8 && |oob| >= cfg.nsectors * c.fdmSize
    requires p < cfg.nsectors * c.fdmSize
    ensures ReadFdm(c, cfg, WriteFdm(c, cfg, oob, regs))[p] == oob[p]
  {
    var f := c.fdmSize;
    var w := WriteFdm(c, cfg, oob, regs);
    DivNat(p, f);
    DivBelow(p, f, cfg.nsectors);
    DivModSplit(p, f);
    var i: nat := p / f;
    var j: nat := p % f;
    assert FdmAt(ReadFdm(c, cfg, w), w, f, p);
    WriteFdmPlacesBytes(c, cfg, oob, regs, i, j);
    assert FdmByte(c, cfg, oob, i, j) == oob[i * f + j];
  }

  // ---------------------------------------------------------------------
  // Bad-block-mark swaps

  /** Whether the chip moves the BBM at all for this page format. */
  predicate SwapsBbm(c: Caps, cfg: Conf)
  {
    c.bbmSwap && cfg.nsectors != 1
  }

  /** Where the NAND's [pagesize] byte lands in the de-interleaved sector
      data. */
  function BufBbmPos(c: Caps, cfg: Conf): int
  {
    cfg.pageSize - (cfg.nsectors - 1) * cfg.spareSize
  }

  /** The first FDM byte of the first and of the last sector, after the
      sector data in the bounce buffer. */
  function FdmBbmPos1(cfg: Conf): nat
  {
    cfg.pageSize
  }

  function FdmBbmPos2(c: Caps, cfg: Conf): int
  {
    cfg.pageSize + (cfg.nsectors - 1) * c.fdmSize
  }

  /** What the swaps rely on: a page format a successful setup leaves and a
      bounce buffer holding at least page and OOB. */
  predicate SwapReady(c: Caps, cfg: Conf, buf: seq<bv8>)
  {
    ValidCaps(c) && ValidConf(c, cfg) && |buf| >= cfg.pageSize + cfg.oobSize
  }

  /** The swap positions are in the buffer, the FDM ones past the sector
      data, and all three distinct when the BBM moves. */
  lemma SwapPositions(c: Caps, cfg: Conf, buf: seq<bv8>)
    requires SwapReady(c, cfg, buf)
    ensures 0 <= BufBbmPos(c, cfg) <= FdmBbmPos1(cfg) <= FdmBbmPos2(c, cfg)
    ensures FdmBbmPos2(c, cfg) < cfg.pageSize + cfg.nsectors * c.fdmSize <= |buf|
    ensures cfg.nsectors != 1 ==> BufBbmPos(c, cfg) < FdmBbmPos1(cfg) < FdmBbmPos2(c, cfg)
  {
    var n: nat := cfg.nsectors;
    var m: nat := n - 1;
    var f := c.fdmSize;
    var sp: nat := cfg.spareSize;
    MulMono(m, sp, c.sectorSize);
    MulMono(c.sectorSize, m, n);
    assert m * c.sectorSize <= n * c.sectorSize;
    assert m * f + f == n * f;
    MulMono(n, f, sp);
    if n != 1 {
      MulMono(f, 1, m);
      MulMono(sp, 1, m);
    }
  }

  /** The buffer with the bytes at `i` and `j` exchanged. */
  function Swap(b: seq<bv8>, i: nat, j: nat): (r: seq<bv8>)
    requires i < |b| && j < |b|
    ensures |r| == |b| && r[i] == b[j] && r[j] == b[i]
    ensures forall k :: 0 <= k < |b| && k != i && k != j ==> r[k] == b[k]
  {
    b[i := b[j]][j := b[i]]
  }

  /** mtk_snand_fdm_bm_swap: the first FDM bytes of the first and the last
      sector trade places. */
  function FdmBmSwap(c: Caps, cfg: Conf, buf: seq<bv8>): (r: seq<bv8>)
    requires SwapReady(c, cfg, buf)
    ensures |r| == |buf|
    ensures !SwapsBbm(c, cfg) ==> r == buf
  {
    if !SwapsBbm(c, cfg) then buf
    else
      SwapPositions(c, cfg, buf);
      Swap(buf, FdmBbmPos1(cfg), FdmBbmPos2(c, cfg))
  }

  /** mtk_snand_bm_swap with the sector data in the bounce buffer itself:
      the last sector's first FDM byte trades places with the NAND's
      [pagesize] byte. */
  function BmSwap(c: Caps, cfg: Conf, buf: seq<bv8>): (r: seq<bv8>)
    requires SwapReady(c, cfg, buf)
    ensures |r| == |buf|
    ensures !SwapsBbm(c, cfg) ==> r == buf
  {
    if !SwapsBbm(c, cfg) then buf
    else
      SwapPositions(c, cfg, buf);
      Swap(buf, FdmBbmPos2(c, cfg), BufBbmPos(c, cfg))
  }

  /** mtk_snand_bm_swap with the sector data DMA'd straight into the
      caller's buffer `data` while the FDM bytes stay in the bounce buffer. */
  function BmSwapSplit(c: Caps, cfg: Conf, bounce: seq<bv8>, data: seq<bv8>): (r: (seq<bv8>, seq<bv8>))
    requires SwapReady(c, cfg, bounce) && |data| >= cfg.pageSize
    ensures |r.0| == |bounce| && |r.1| == |data|
    ensures !SwapsBbm(c, cfg) ==> r == (bounce, data)
  {
    if !SwapsBbm(c, cfg) then (bounce, data)
    else
      SwapPositions(c, cfg, bounce);
      var p := FdmBbmPos2(c, cfg);
      var q := BufBbmPos(c, cfg);
      (bounce[p := data[q]], data[q := bounce[p]])
  }

  /** When the BBM moves, fdm_bm_swap exchanges exactly the first FDM
      bytes of the first and the last sector. */
  lemma FdmBmSwapEffect(c: Caps, cfg: Conf, buf: seq<bv8>, k: nat)
    requires SwapReady(c, cfg, buf) && SwapsBbm(c, cfg) && k < |buf|
    ensures var r := FdmBmSwap(c, cfg, buf);
            var p1 := FdmBbmPos1(cfg);
            var p2 := FdmBbmPos2(c, cfg);
            && 0 <= p1 < p2 < |buf| && r[p1] == buf[p2] && r[p2] == buf[p1]
            && (k != p1 && k != p2 ==> r[k] == buf[k])
  {
    SwapPositions(c, cfg, buf);
  }

  /** When the BBM moves, bm_swap exchanges exactly the last sector's
      first FDM byte and the NAND's [pagesize] byte. */
  lemma BmSwapEffect(c: Caps, cfg: Conf, buf: seq<bv8>, k: nat)
    requires SwapReady(c, cfg, buf) && SwapsBbm(c, cfg) && k < |buf|
    ensures var r := BmSwap(c, cfg, buf);
            var q := BufBbmPos(c, cfg);
            var p2 := FdmBbmPos2(c, cfg);
            && 0 <= q < p2 < |buf| && r[q] == buf[p2] && r[p2] == buf[q]
            && (k != q && k != p2 ==> r[k] == buf[k])
  {
    SwapPositions(c, cfg, buf);
  }

  /** Both swaps are involutions. */
  lemma SwapsAreInvolutions(c: Caps, cfg: Conf, buf: seq<bv8>)
    requires SwapReady(c, cfg, buf)
    ensures FdmBmSwap(c, cfg, FdmBmSwap(c, cfg, buf)) == buf
    ensures BmSwap(c, cfg, BmSwap(c, cfg, buf)) == buf
  {
    if SwapsBbm(c, cfg) {
      SwapPositions(c, cfg, buf);
      var a := FdmBmSwap(c, cfg, buf);
      assert FdmBmSwap(c, cfg, a) == buf;
      var b := BmSwap(c, cfg, buf);
      assert BmSwap(c, cfg, b) == buf;
    }
  }

  /** The split swap is its own inverse too. */
  lemma SplitSwapIsInvolution(c: Caps, cfg: Conf, bounce: seq<bv8>, data: seq<bv8>)
    requires SwapReady(c, cfg, bounce) && |data| >= cfg.pageSize
    ensures var r := BmSwapSplit(c, cfg, bounce, data);
            BmSwapSplit(c, cfg, r.0, r.1) == (bounce, data)
  {
    if SwapsBbm(c, cfg) {
      SwapPositions(c, cfg, bounce);
      var r := BmSwapSplit(c, cfg, bounce, data);
      assert r.0 == bounce[FdmBbmPos2(c, cfg) := data[BufBbmPos(c, cfg)]];
      assert BmSwapSplit(c, cfg, r.0, r.1).0 == bounce;
      assert BmSwapSplit(c, cfg, r.0, r.1).1 == data;
    }
  }

  /** The write path swaps FDM bytes first and then the BBM; the read path
      does the two in the opposite order and so restores the buffer. */
  lemma ReadOrderUndoesWriteOrder(c: Caps, cfg: Conf, buf: seq<bv8>)
    requires SwapReady(c, cfg, buf)
    ensures FdmBmSwap(c, cfg, BmSwap(c, cfg, BmSwap(c, cfg, FdmBmSwap(c, cfg, buf)))) == buf
  {
    var a := FdmBmSwap(c, cfg, buf);
    SwapsAreInvolutions(c, cfg, a);
    SwapsAreInvolutions(c, cfg, buf);
  }

  /** After the write-path swaps the kernel's bad-block mark (the first OOB
      byte) sits at the NAND's [pagesize] byte, where the BootROM reads it,
      and the byte that was there is kept in the last sector's FDM. */
  lemma WriteSwapsPlaceKernelBbm(c: Caps, cfg: Conf, buf: seq<bv8>)
    requires SwapReady(c, cfg, buf) && SwapsBbm(c, cfg)
    ensures var w := BmSwap(c, cfg, FdmBmSwap(c, cfg, buf));
            && 0 <= BufBbmPos(c, cfg) < FdmBbmPos1(cfg) < FdmBbmPos2(c, cfg) < |buf|
            && w[BufBbmPos(c, cfg)] == buf[FdmBbmPos1(cfg)]
            && w[FdmBbmPos1(cfg)] == buf[FdmBbmPos2(c, cfg)]
            && w[FdmBbmPos2(c, cfg)] == buf[BufBbmPos(c, cfg)]
  {
    SwapPositions(c, cfg, buf);
    var q: nat := BufBbmPos(c, cfg);
    var p1: nat := FdmBbmPos1(cfg);
    var a := FdmBmSwap(c, cfg, buf);
    FdmBmSwapEffect(c, cfg, buf, q);
    BmSwapEffect(c, cfg, a, p1);
  }

  /** Both swaps as the write path applies them: BBM swap after FDM swap. */
  function WriteSwapped(c: Caps, cfg: Conf, b1: seq<bv8>): (r: seq<bv8>)
    requires SwapReady(c, cfg, b1)
    ensures |r| == |b1|
  {
    if c.bbmSwap then BmSwap(c, cfg, FdmBmSwap(c, cfg, b1)) else b1
  }

  /** Both swaps as the read path applies them, in the opposite order. */
  function ReadSwapped(c: Caps, cfg: Conf, b: seq<bv8>): (r: seq<bv8>)
    requires SwapReady(c, cfg, b)
    ensures |r| == |b|
  {
    if c.bbmSwap then FdmBmSwap(c, cfg, BmSwap(c, cfg, b)) else b
  }

  /** The read-path swaps undo the write-path swaps. */
  lemma ReadSwappedUndoes(c: Caps, cfg: Conf, b1: seq<bv8>)
    requires SwapReady(c, cfg, b1)
    ensures ReadSwapped(c, cfg, WriteSwapped(c, cfg, b1)) == b1
  {
    if c.bbmSwap {
      ReadOrderUndoesWriteOrder(c, cfg, b1);
    }
  }

  /** The end of the FDM bytes in the bounce buffer. */
  function FdmEnd(c: Caps, cfg: Conf): nat
  {
    cfg.pageSize + cfg.nsectors * c.fdmSize
  }

  /** The three bytes the swaps move when the BBM moves: the NAND's
      [pagesize] byte and the first FDM bytes of the first and the last
      sector. */
  predicate SwapPos(c: Caps, cfg: Conf, k: int)
  {
    SwapsBbm(c, cfg) && (k == BufBbmPos(c, cfg) || k == FdmBbmPos1(cfg) || k == FdmBbmPos2(c, cfg))
  }

  /** The read-path swaps leave every other byte alone. */
  lemma ReadSwappedFrame(c: Caps, cfg: Conf, b: seq<bv8>)
    requires SwapReady(c, cfg, b)
    ensures forall k :: 0 <= k < |b| && !SwapPos(c, cfg, k) ==> ReadSwapped(c, cfg, b)[k] == b[k]
  {
    if SwapsBbm(c, cfg) && c.bbmSwap {
      forall k | 0 <= k < |b| && !SwapPos(c, cfg, k)
        ensures ReadSwapped(c, cfg, b)[k] == b[k]
      {
        BmSwapEffect(c, cfg, b, k);
        FdmBmSwapEffect(c, cfg, BmSwap(c, cfg, b), k);
      }
    }
  }

  /** On the direct read path the swaps leave the bounce buffer alone
      outside the two FDM swap bytes, and the caller's buffer alone outside
      the NAND's [pagesize] byte. */
  lemma SplitSwapFrame(c: Caps, cfg: Conf, b: seq<bv8>, d: seq<bv8>)
    requires SwapReady(c, cfg, b) && |d| >= cfg.pageSize
    ensures var t := BmSwapSplit(c, cfg, b, d);
            && SwapReady(c, cfg, t.0)
            && (forall k :: 0 <= k < |b| && !SwapPos(c, cfg, k) ==> FdmBmSwap(c, cfg, t.0)[k] == b[k])
            && (forall k :: 0 <= k < cfg.pageSize ==> FdmBmSwap(c, cfg, t.0)[k] == b[k])
            && (forall k :: 0 <= k < |d| && !SwapPos(c, cfg, k) ==> t.1[k] == d[k])
  {
    SwapPositions(c, cfg, b);
    var t := BmSwapSplit(c, cfg, b, d);
    if SwapsBbm(c, cfg) {
      forall k | 0 <= k < |b| && (!SwapPos(c, cfg, k) || k < cfg.pageSize)
        ensures FdmBmSwap(c, cfg, t.0)[k] == b[k]
      {
        FdmBmSwapEffect(c, cfg, t.0, k);
      }
    }
  }
}
