/** The page-cache engine of the SNFI driver as far as it is not hardware
    sequencing: the auto-format state kept between the ECC engine's
    prepare_io_req and finish_io_req, the split of a page-op address into
    the row sent over SPI and the column used in the bounce buffer, the
    bounce-buffer fill of mtk_snand_write_page_cache and the copy-back of
    mtk_snand_read_page_cache. */
module SnfiPageCache {
  import opened Wrappers
  import opened Arith
  import opened SnfiTypes
  import opened SnfiPagefmt
  import opened SnfiOps
  import opened SnfiFdm

  // ---------------------------------------------------------------------
  // Address split

  function Pow2(k: nat): (r: nat)
    ensures r >= 1
  {
    if k == 0 then 1 else 2 * Pow2(k - 1)
  }

  /** The kernel's fls: the 1-based position of the highest set bit, 0 for
      0; 2^fls(x) is the least power of two above `x`. */
  function Fls(x: nat): (r: nat)
    ensures x < Pow2(r)
    ensures x > 0 ==> r >= 1 && Pow2(r - 1) <= x
  {
    if x == 0 then 0 else 1 + Fls(x / 2)
  }

  /** The column (rd_offset / wr_offset) and the row part (op_addr) of a
      page-op address under auto-format. */
  datatype Split = Split(column: nat, row: nat)

  /** `column = addr & mask`, `row = addr & ~mask` for `mask = m - 1` with
      `m` a power of two. */
  function SplitBy(a: nat, m: nat): (r: Split)
    requires m >= 1
    ensures r.column + r.row == a && r.column < m && r.row % m == 0
  {
    RoundDown(a, m);
    Split(a % m, a - a % m)
  }

  /** The split of a column below the mask plus whole multiples of it. */
  lemma SplitByMultiple(m: nat, col: nat, plane: nat)
    requires col < m
    ensures SplitBy(plane * m + col, m) == Split(col, plane * m)
  {
    DivModUnique(plane * m + col, m, plane, col);
  }

  /** The mask of the page format: `(1 << fls(page + oob)) - 1`, plus one. */
  function MaskLimit(cfg: Conf): nat
  {
    Pow2(Fls(cfg.pageSize + cfg.oobSize))
  }

  /** The split of a page-op address, truncated to the 32-bit op_addr. */
  function PlaneSplit(cfg: Conf, addr: u64): (r: Split)
    requires cfg.pageSize + cfg.oobSize < 0x8000_0000
    ensures r.column + r.row == addr % 0x1_0000_0000
    ensures r.column < MaskLimit(cfg) && r.row % MaskLimit(cfg) == 0
  {
    SplitBy(addr % 0x1_0000_0000, MaskLimit(cfg))
  }

  /** The mask covers every column of the page and its OOB, and at most
      twice as many: 2^fls(page+oob) is the least power of two strictly
      above page+oob. */
  lemma SplitMaskTight(cfg: Conf)
    requires 0 < cfg.pageSize + cfg.oobSize
    ensures cfg.pageSize + cfg.oobSize < MaskLimit(cfg) <= 2 * (cfg.pageSize + cfg.oobSize)
  {
  }

  /** A column inside page and OOB, with any plane or row bits above the
      mask, splits back into that column and those bits. */
  lemma SplitColumnAndPlane(cfg: Conf, col: nat, plane: nat)
    requires cfg.pageSize + cfg.oobSize < 0x8000_0000
    requires col < cfg.pageSize + cfg.oobSize
    requires plane * MaskLimit(cfg) + col < 0x1_0000_0000
    ensures PlaneSplit(cfg, plane * MaskLimit(cfg) + col) == Split(col, plane * MaskLimit(cfg))
  {
    var m := MaskLimit(cfg);
    var a := plane * m + col;
    ModSmall(a, 0x1_0000_0000);
    SplitByMultiple(m, col, plane);
  }

  // ---------------------------------------------------------------------
  // prepare_io_req / finish_io_req

  /** The parts of struct mtk_snand the page-cache engine reads: the page
      format, the auto-format flag, the last NFI_PAGEFMT word written and
      the bounce-buffer length. */
  datatype Engine = Engine(cfg: Conf, autofmt: bool, pagefmt: Option<bv32>, bufLen: nat)

  /** What holds of the engine from probe on: either no format has been
      set up yet, or the format is one the controller runs and the bounce
      buffer holds a page with its OOB. */
  predicate EngineOk(c: Caps, e: Engine)
  {
    e.cfg == INITIAL_CONF || (ValidConf(c, e.cfg) && e.bufLen >= e.cfg.pageSize + e.cfg.oobSize)
  }

  datatype Prepared = Prepared(ret: int, engine: Engine)

  /** mtk_snand_ecc_prepare_io_req: set up the page format for the chip's
      geometry and, on success, turn auto-format on; a successful setup
      grows the bounce buffer to page plus OOB. */
  function PrepareIoReq(c: Caps, e: Engine, page: u32, oob: u32): (r: Prepared)
    requires ValidCaps(c)
    ensures r.ret == 0 ==> r.engine.autofmt && Configured(r.engine.cfg, page, oob)
    ensures r.ret != 0 ==> r.ret == -EOPNOTSUPP && r.engine == e
    ensures EngineOk(c, e) ==> EngineOk(c, r.engine)
  {
    var s := SetupPagefmt(c, e.cfg, page, oob);
    if s.ret != 0 then Prepared(s.ret, e)
    else if Configured(e.cfg, page, oob) then Prepared(0, e.(autofmt := true))
    else
      var len := if e.bufLen >= page + oob then e.bufLen else page + oob;
      Prepared(0, Engine(s.cfg, true, s.pagefmt, len))
  }

  /** struct mtk_ecc_stats and the mtd's ECC counters. */
  datatype EccStats = EccStats(corrected: nat, bitflips: nat, failed: nat)

  datatype Finished = Finished(ret: int, engine: Engine, mtdStats: EccStats)

  /** mtk_snand_ecc_finish_io_req: auto-format off; for a non-raw page read
      the controller's counts are added to the mtd's, and the result is
      -EBADMSG on an uncorrectable sector, the bit-flip count otherwise. */
  function FinishIoReq(e: Engine, raw: bool, isRead: bool, snf: EccStats, mtd: EccStats): (r: Finished)
    ensures r.engine == e.(autofmt := false)
    ensures raw || !isRead ==> r.ret == 0 && r.mtdStats == mtd
    ensures !raw && isRead ==> (r.ret == -EBADMSG <==> snf.failed != 0)
    ensures !raw && isRead && snf.failed == 0 ==> r.ret == snf.bitflips
    ensures !raw && isRead ==>
              r.mtdStats.failed == mtd.failed + snf.failed
              && r.mtdStats.corrected == mtd.corrected + snf.corrected
              && r.mtdStats.bitflips == mtd.bitflips
  {
    var e' := e.(autofmt := false);
    if raw || !isRead then Finished(0, e', mtd)
    else
      var m1 := if snf.failed != 0 then mtd.(failed := mtd.failed + snf.failed) else mtd;
      var m2 := m1.(corrected := m1.corrected + snf.corrected);
      Finished(if snf.failed != 0 then -EBADMSG else snf.bitflips, e', m2)
  }

  /** Between a successful prepare_io_req and finish_io_req page ops pass
      adjust_op_size untouched; after finish_io_req they are clamped to a
      raw page again. */
  lemma PageOpsBetweenPrepareAndFinish(c: Caps, e: Engine, page: u32, oob: u32, op: Op,
                                       raw: bool, isRead: bool, snf: EccStats, mtd: EccStats)
    requires ValidCaps(c) && IsPageOps(op) && PrepareIoReq(c, e, page, oob).ret == 0
    ensures var p := PrepareIoReq(c, e, page, oob).engine;
            && AdjustOpSize(c, p.cfg, p.autofmt, op) == Adjusted(0, op)
            && var f := FinishIoReq(p, raw, isRead, snf, mtd).engine;
               && f.cfg == p.cfg && !f.autofmt
               && ClampedTo(AdjustOpSize(c, f.cfg, f.autofmt, op).op.data.nbytes, op.data.nbytes, RawPageLen(c, p.cfg))
  {
  }

  // ---------------------------------------------------------------------
  // Bounce buffer

  /** How many bytes a copy from `offset` moves: what is left of a buffer
      of `bufLen` bytes, at most `want`. */
  function CapLen(bufLen: nat, offset: nat, want: nat): (n: nat)
    requires offset <= bufLen
    ensures ClampedTo(n, want, bufLen - offset)
  {
    if want < bufLen - offset then want else bufLen - offset
  }

  /** The bounce fill of mtk_snand_write_page_cache: 0xff up to the column,
      then the data as far as it fits, then the buffer as it was. */
  function WriteBounce(buf: seq<bv8>, wrOffset: nat, data: seq<bv8>): (r: seq<bv8>)
    requires wrOffset <= |buf|
    ensures |r| == |buf|
    ensures forall k :: 0 <= k < wrOffset ==> r[k] == 0xff
    ensures forall k :: wrOffset <= k < |buf| ==>
              r[k] == (if k - wrOffset < |data| then data[k - wrOffset] else buf[k])
  {
    var cap := CapLen(|buf|, wrOffset, |data|);
    Repeat(0xff as bv8, wrOffset) + data[..cap] + buf[wrOffset + cap..]
  }

  datatype Written = Written(bounce: seq<bv8>, regs: Regs, opAddr: nat)

  /** What a page write can rely on: with auto-format on, a page format
      that was set up, a bounce buffer holding page and OOB, and a mask
      that fits the 32-bit shift. */
  predicate AutofmtReady(c: Caps, cfg: Conf, bounce: seq<bv8>)
  {
    SwapReady(c, cfg, bounce) && cfg.pageSize + cfg.oobSize < 0x8000_0000
  }

  /** The auto-format tail of mtk_snand_write_page_cache: the swaps on the
      filled bounce buffer (when the chip moves the BBM), then its FDM bytes
      into the FDM registers, which read back as those bytes. */
  function SwapAndLoadFdm(c: Caps, cfg: Conf, b1: seq<bv8>, regs: Regs): (r: (seq<bv8>, Regs))
    requires SwapReady(c, cfg, b1)
    ensures |r.0| == |b1| && cfg.pageSize + cfg.nsectors * c.fdmSize <= |b1|
    ensures ReadFdm(c, cfg, r.1) == r.0[cfg.pageSize..cfg.pageSize + cfg.nsectors * c.fdmSize]
    ensures forall off: nat :: !IsFdmReg(off, cfg.nsectors) ==> Read32(r.1, off) == Read32(regs, off)
  {
    var b2 := WriteSwapped(c, cfg, b1);
    SwapPositions(c, cfg, b2);
    ReadWriteFdm(c, cfg, b2[cfg.pageSize..], regs);
    DropTake(b2, cfg.pageSize, cfg.nsectors * c.fdmSize);
    (b2, WriteFdm(c, cfg, b2[cfg.pageSize..], regs))
  }

  lemma DropTake(s: seq<bv8>, a: nat, n: nat)
    requires a + n <= |s|
    ensures s[a..][..n] == s[a..a + n]
  {
  }

  /** The buffer side of mtk_snand_write_page_cache: the bounce buffer as
      DMA'd to the controller, the FDM registers, and the address sent.
      The source has no guard that the column lies inside the bounce
      buffer, so a caller must keep it there. */
  function WritePage(c: Caps, cfg: Conf, autofmt: bool, bounce: seq<bv8>, regs: Regs, addr: u64, data: seq<bv8>): (r: Written)
    requires autofmt ==> AutofmtReady(c, cfg, bounce) && PlaneSplit(cfg, addr).column <= |bounce|
    ensures |r.bounce| == |bounce|
    ensures !autofmt ==> r.regs == regs && r.opAddr == addr % 0x1_0000_0000
    ensures autofmt ==> r.opAddr == PlaneSplit(cfg, addr).row
    ensures autofmt ==> forall off: nat :: !IsFdmReg(off, cfg.nsectors) ==> Read32(r.regs, off) == Read32(regs, off)
  {
    var sp := if autofmt then PlaneSplit(cfg, addr) else Split(0, addr % 0x1_0000_0000);
    var b1 := WriteBounce(bounce, sp.column, data);
    if !autofmt then Written(b1, regs, sp.row)
    else
      var t := SwapAndLoadFdm(c, cfg, b1, regs);
      Written(t.0, t.1, sp.row)
  }

  /** `fdm` written into `buf` from position `at` on. */
  function PutAt(buf: seq<bv8>, at: nat, fdm: seq<bv8>): (r: seq<bv8>)
    requires at + |fdm| <= |buf|
    ensures |r| == |buf|
    ensures forall k :: 0 <= k < |buf| ==> r[k] == (if at <= k < at + |fdm| then fdm[k - at] else buf[k])
  {
    buf[..at] + fdm + buf[at + |fdm|..]
  }

  /** The copy-back of mtk_snand_read_page_cache into the caller's buffer
      `dest`: all 0xff for an empty page; after a DMA straight into
      `dest`, only the FDM bytes from the bounce buffer; otherwise the
      bytes from the column on, as far as the bounce buffer reaches. */
  function CopyBack(c: Caps, cfg: Conf, empty: bool, direct: bool, bounce: seq<bv8>, dest: seq<bv8>, rdOffset: nat): (r: seq<bv8>)
    requires direct ==> cfg.pageSize <= |dest| && cfg.pageSize <= |bounce|
    ensures |r| == |dest|
    ensures empty ==> forall k :: 0 <= k < |r| ==> r[k] == 0xff
    ensures !empty && !direct && rdOffset < |bounce| ==>
              forall k :: 0 <= k < |r| ==> r[k] == (if rdOffset + k < |bounce| then bounce[rdOffset + k] else dest[k])
    ensures !empty && direct ==>
              forall k :: 0 <= k < |r| ==> r[k] == (if cfg.pageSize <= k < |bounce| then bounce[k] else dest[k])
    ensures !empty && !direct && rdOffset >= |bounce| ==> r == dest
  {
    if empty then Repeat(0xff as bv8, |dest|)
    else if direct then
      var reqLeft := |dest| - cfg.pageSize;
      if reqLeft != 0 then
        var cap := CapLen(|bounce|, cfg.pageSize, reqLeft);
        dest[..cfg.pageSize] + bounce[cfg.pageSize..cfg.pageSize + cap] + dest[cfg.pageSize + cap..]
      else dest
    else if rdOffset < |bounce| then
      var cap := CapLen(|bounce|, rdOffset, |dest|);
      bounce[rdOffset..rdOffset + cap] + dest[cap..]
    else dest
  }

  /** What mtk_snand_read_page_cache leaves: the caller's buffer and the
      driver's bounce buffer, which keeps what the read put there (the
      sector data on the bounce path, the FDM bytes, the swapped marks)
      for the next page write to build on. */
  datatype CacheRead = CacheRead(dest: seq<bv8>, bounce: seq<bv8>)

  /** Every byte is 0xff, as the memset for an empty page leaves it. */
  predicate AllFf(s: seq<bv8>)
  {
    forall k :: 0 <= k < |s| ==> s[k] == 0xff
  }

  /** `after` and `before` hold the same bytes at positions `lo` to `hi`. */
  predicate Unchanged(after: seq<bv8>, before: seq<bv8>, lo: nat, hi: nat)
  {
    forall k :: lo <= k < hi && k < |after| && k < |before| ==> after[k] == before[k]
  }

  /** From position `start` on, `out` holds the bytes of `buf` from `from`
      on as far as `buf` reaches, and the caller's old bytes `dest` past
      that: what a capped memcpy out of `buf` leaves. */
  predicate CopiedFrom(out: seq<bv8>, dest: seq<bv8>, buf: seq<bv8>, from: nat, start: nat)
  {
    forall k :: start <= k < |out| && k < |dest| ==> out[k] == (if from + k < |buf| then buf[from + k] else dest[k])
  }

  /** The FDM bytes `fdm` sit after the sector data of `buf`, except where
      the swaps moved a mark. */
  predicate FdmLoaded(c: Caps, cfg: Conf, buf: seq<bv8>, fdm: seq<bv8>)
  {
    forall j :: 0 <= j < |fdm| && cfg.pageSize + j < |buf| && !SwapPos(c, cfg, cfg.pageSize + j) ==>
      buf[cfg.pageSize + j] == fdm[j]
  }

  /** The sector data `dma` is in `buf`, except where the swaps moved a
      mark. */
  predicate SectorsFrom(c: Caps, cfg: Conf, buf: seq<bv8>, dma: seq<bv8>)
  {
    forall k :: 0 <= k < cfg.pageSize && k < |buf| && k < |dma| && !SwapPos(c, cfg, k) ==> buf[k] == dma[k]
  }

  /** The buffer side of mtk_snand_read_page_cache. `dma` is what the
      controller's DMA delivers (with auto-format on, the de-interleaved
      sector data; otherwise the raw page), `regs` the register file with
      the FDM registers it filled, `empty` the READ_EMPTY status. With
      auto-format on a read from column 0 of at least a page goes straight
      into the caller's buffer; otherwise it goes through the bounce
      buffer and is copied out from the column. */
  function ReadPage(c: Caps, cfg: Conf, autofmt: bool, bounce: seq<bv8>, regs: Regs, addr: u64,
                    dest: seq<bv8>, dma: seq<bv8>, empty: bool): (r: CacheRead)
    requires autofmt ==> AutofmtReady(c, cfg, bounce) && |dma| == cfg.pageSize
    requires !autofmt ==> |dma| == |bounce|
    ensures |r.dest| == |dest| && |r.bounce| == |bounce|
    ensures empty ==> AllFf(r.dest)
    // raw: the page lands in the bounce buffer and is copied out from 0
    ensures !autofmt ==> r.bounce == dma && (!empty ==> CopiedFrom(r.dest, dest, dma, 0, 0))
    // auto-format: the FDM registers read back, nothing past them touched
    ensures autofmt ==> Unchanged(r.bounce, bounce, FdmEnd(c, cfg), |bounce|)
                        && FdmLoaded(c, cfg, r.bounce, ReadFdm(c, cfg, regs))
    // direct: sector data to the caller, FDM bytes copied after it
    ensures autofmt && PlaneSplit(cfg, addr).column == 0 && |dest| >= cfg.pageSize ==>
              && Unchanged(r.bounce, bounce, 0, cfg.pageSize)
              && (!empty ==> SectorsFrom(c, cfg, r.dest, dma) && CopiedFrom(r.dest, dest, r.bounce, 0, cfg.pageSize))
    // through the bounce buffer: sector data there, copied out from the column
    ensures autofmt && !(PlaneSplit(cfg, addr).column == 0 && |dest| >= cfg.pageSize) ==>
              && SectorsFrom(c, cfg, r.bounce, dma)
              && (!empty ==> CopiedFrom(r.dest, dest, r.bounce, PlaneSplit(cfg, addr).column, 0))
  {
    if !autofmt then CacheRead(CopyBack(c, cfg, empty, false, dma, dest, 0), dma)
    else
      var col := PlaneSplit(cfg, addr).column;
      var fdm := ReadFdm(c, cfg, regs);
      if col == 0 && |dest| >= cfg.pageSize then ReadDirect(c, cfg, bounce, fdm, dest, dma, empty)
      else ReadThroughBounce(c, cfg, bounce, fdm, dest, dma, col, empty)
  }

  /** The direct read: the DMA'd sector data lands in the caller's buffer,
      the FDM bytes in the bounce buffer, the BBM is swapped between the
      two, and the FDM bytes are copied after the sector data. */
  function ReadDirect(c: Caps, cfg: Conf, bounce: seq<bv8>, fdm: seq<bv8>, dest: seq<bv8>, dma: seq<bv8>, empty: bool): (r: CacheRead)
    requires SwapReady(c, cfg, bounce) && |fdm| == cfg.nsectors * c.fdmSize
    requires |dma| == cfg.pageSize <= |dest|
    ensures |r.dest| == |dest| && |r.bounce| == |bounce|
    ensures empty ==> AllFf(r.dest)
    ensures Unchanged(r.bounce, bounce, 0, cfg.pageSize) && Unchanged(r.bounce, bounce, FdmEnd(c, cfg), |bounce|)
    ensures FdmLoaded(c, cfg, r.bounce, fdm)
    ensures !empty ==> SectorsFrom(c, cfg, r.dest, dma) && CopiedFrom(r.dest, dest, r.bounce, 0, cfg.pageSize)
  {
    SwapPositions(c, cfg, bounce);
    var d0 := dma + dest[cfg.pageSize..];
    var b1 := PutAt(bounce, cfg.pageSize, fdm);
    SplitSwapFrame(c, cfg, b1, d0);
    var t := BmSwapSplit(c, cfg, b1, d0);
    var b2 := if c.bbmSwap then FdmBmSwap(c, cfg, t.0) else b1;
    var d2 := if c.bbmSwap then t.1 else d0;
    CacheRead(CopyBack(c, cfg, empty, true, b2, d2, 0), b2)
  }

  /** The read through the bounce buffer: sector data and FDM bytes are
      put together there, the swaps undone, and the bytes from the column
      on copied out. */
  function ReadThroughBounce(c: Caps, cfg: Conf, bounce: seq<bv8>, fdm: seq<bv8>, dest: seq<bv8>, dma: seq<bv8>,
                             col: nat, empty: bool): (r: CacheRead)
    requires SwapReady(c, cfg, bounce) && |fdm| == cfg.nsectors * c.fdmSize
    requires |dma| == cfg.pageSize
    ensures |r.dest| == |dest| && |r.bounce| == |bounce|
    ensures empty ==> AllFf(r.dest)
    ensures Unchanged(r.bounce, bounce, FdmEnd(c, cfg), |bounce|)
    ensures FdmLoaded(c, cfg, r.bounce, fdm) && SectorsFrom(c, cfg, r.bounce, dma)
    ensures !empty ==> CopiedFrom(r.dest, dest, r.bounce, col, 0)
  {
    SwapPositions(c, cfg, bounce);
    var b1 := PutAt(dma + bounce[cfg.pageSize..], cfg.pageSize, fdm);
    ReadSwappedFrame(c, cfg, b1);
    var b2 := ReadSwapped(c, cfg, b1);
    CacheRead(CopyBack(c, cfg, empty, false, b2, dest, col), b2)
  }
}
