/** The spi-mem side of the SNFI driver: which operations run through the
    page-cache engine (mtk_snand_is_page_ops), which the controller takes
    at all (mtk_snand_supports_op), how transfer sizes are clamped
    (mtk_snand_adjust_op_size) and where an operation is executed
    (mtk_snand_exec_op). */
module SnfiOps {
  import opened Wrappers
  import opened SnfiTypes

  const BITS_PER_BYTE: nat := 8
  const DATA_READ_MAX_DUMMY: nat := 0xf
  const SNF_GPRAM_SIZE: nat := 0xa0

  datatype Dir = NoData | DataIn | DataOut

  /** struct spi_mem_op without the DTR and ECC flags; `buf` stands for the
      bytes behind data.buf.out and is looked at only for data-out ops. */
  datatype Cmd = Cmd(nbytes: u8, buswidth: u8, opcode: u16)
  datatype Addr = Addr(nbytes: u8, buswidth: u8, val: u64)
  datatype Dummy = Dummy(nbytes: u8, buswidth: u8)
  datatype Data = Data(buswidth: u8, dir: Dir, nbytes: u32, buf: seq<bv8>)
  datatype Op = Op(cmd: Cmd, addr: Addr, dummy: Dummy, data: Data)

  /** The op with only its data length replaced. */
  function WithLength(op: Op, n: u32): Op
  {
    op.(data := op.data.(nbytes := n))
  }

  // ---------------------------------------------------------------------
  // Page-op classification

  /** mtk_snand_is_page_ops as written; None stands for the division by a
      zero dummy bus width, which the spi-mem core allows when an op has no
      dummy phase. */
  function IsPageOpsAsWritten(op: Op): Option<bool>
  {
    var aw := op.addr.buswidth;
    var dw := op.data.buswidth;
    if op.addr.nbytes != 2 then Some(false)
    else if aw != 1 && aw != 2 && aw != 4 then Some(false)
    else if op.data.dir == DataIn then
      if op.dummy.buswidth == 0 then None
      else if op.dummy.nbytes * BITS_PER_BYTE / op.dummy.buswidth > DATA_READ_MAX_DUMMY then Some(false)
      else if (aw == 4 || aw == 1) && dw == 4 then Some(true)
      else if (aw == 2 || aw == 1) && dw == 2 then Some(true)
      else if aw == 1 && dw == 1 then Some(true)
      else Some(false)
    else if op.data.dir == DataOut then
      if op.dummy.nbytes != 0 then Some(false)
      else if aw == 1 && dw == 4 then Some(true)
      else if aw == 1 && dw == 1 then Some(true)
      else Some(false)
    else Some(false)
  }

  /** Dummy clock cycles of an op; an op without a dummy phase has none. */
  function DummyClocks(op: Op): nat
  {
    if op.dummy.buswidth == 0 then 0 else op.dummy.nbytes * BITS_PER_BYTE / op.dummy.buswidth
  }

  /** The Read From Cache template: 2-byte address, at most 15 dummy clocks,
      and one of the x1, x2, x4, dual-I/O or quad-I/O lane layouts. */
  predicate PageReadTemplate(op: Op)
  {
    && op.addr.nbytes == 2
    && op.data.dir == DataIn
    && DummyClocks(op) <= DATA_READ_MAX_DUMMY
    && (op.addr.buswidth, op.data.buswidth) in {(1, 1), (1, 2), (2, 2), (1, 4), (4, 4)}
  }

  /** The Program Load template: 2-byte single-lane address, no dummy
      bytes, data on one or four lanes. */
  predicate PageWriteTemplate(op: Op)
  {
    && op.addr.nbytes == 2
    && op.data.dir == DataOut
    && op.dummy.nbytes == 0
    && (op.addr.buswidth, op.data.buswidth) in {(1, 1), (1, 4)}
  }

  /** mtk_snand_is_page_ops with a missing dummy phase counted as zero
      dummy clocks: true exactly for the two instruction templates. */
  function IsPageOps(op: Op): (r: bool)
    ensures r <==> PageReadTemplate(op) || PageWriteTemplate(op)
  {
    var aw := op.addr.buswidth;
    var dw := op.data.buswidth;
    if op.addr.nbytes != 2 then false
    else if aw != 1 && aw != 2 && aw != 4 then false
    else if op.data.dir == DataIn then
      if DummyClocks(op) > DATA_READ_MAX_DUMMY then false
      else if (aw == 4 || aw == 1) && dw == 4 then true
      else if (aw == 2 || aw == 1) && dw == 2 then true
      else aw == 1 && dw == 1
    else if op.data.dir == DataOut then
      if op.dummy.nbytes != 0 then false
      else if aw == 1 && dw == 4 then true
      else aw == 1 && dw == 1
    else false
  }

  /** As written, the classification divides by zero exactly for a
      read op with a 2-byte address on 1, 2 or 4 lanes and no dummy bus
      width; everywhere else it agrees with IsPageOps. */
  lemma IsPageOpsAsWrittenTraps(op: Op)
    ensures IsPageOpsAsWritten(op).None? <==>
              && op.addr.nbytes == 2 && op.addr.buswidth in {1, 2, 4}
              && op.data.dir == DataIn && op.dummy.buswidth == 0
    ensures IsPageOpsAsWritten(op).Some? ==> IsPageOpsAsWritten(op).value == IsPageOps(op)
  {
  }

  /** A single-lane Read From Cache without dummy cycles: the classification
      as written divides by zero on it, the corrected one accepts it. */
  lemma NoDummyReadTraps()
    ensures var op := Op(Cmd(1, 1, 0x03), Addr(2, 1, 0), Dummy(0, 0), Data(1, DataIn, 16, []));
            IsPageOpsAsWritten(op).None? && IsPageOps(op)
  {
  }

  /** Page ops always move data; the data length plays no part in the
      classification. */
  lemma PageOpsMoveData(op: Op, n: u32)
    ensures IsPageOps(op) ==> op.data.dir != NoData
    ensures IsPageOps(WithLength(op, n)) == IsPageOps(op)
  {
  }

  // ---------------------------------------------------------------------
  // supports_op

  /** Every phase the op has runs on a single line. */
  predicate SingleLane(op: Op)
  {
    && (op.addr.nbytes == 0 || op.addr.buswidth == 1)
    && (op.dummy.nbytes == 0 || op.dummy.buswidth == 1)
    && (op.data.nbytes == 0 || op.data.buswidth == 1)
  }

  /** mtk_snand_supports_op; `defaultOk` is the verdict of
      spi_mem_default_supports_op. */
  function SupportsOp(defaultOk: bool, op: Op): (r: bool)
    ensures r <==> && defaultOk && op.cmd.nbytes == 1 && op.cmd.buswidth == 1
                   && (PageReadTemplate(op) || PageWriteTemplate(op) || SingleLane(op))
  {
    if !defaultOk then false
    else if op.cmd.nbytes != 1 || op.cmd.buswidth != 1 then false
    else if IsPageOps(op) then true
    else SingleLane(op)
  }

  /** An op that uses more than one lane in some phase is taken only as a
      page op. */
  lemma MultiLaneNeedsPageOp(defaultOk: bool, op: Op)
    requires SupportsOp(defaultOk, op) && !SingleLane(op)
    ensures PageReadTemplate(op) || PageWriteTemplate(op)
  {
  }

  // ---------------------------------------------------------------------
  // adjust_op_size

  /** Bytes the controller sends before the data phase of a MAC op. */
  function HeaderLen(op: Op): nat
  {
    op.cmd.nbytes + op.addr.nbytes + op.dummy.nbytes
  }

  /** Bytes one page-cache transfer moves with auto-format off. */
  function RawPageLen(c: Caps, cfg: Conf): nat
  {
    (c.sectorSize + cfg.spareSize) * cfg.nsectors
  }

  datatype Adjusted = Adjusted(ret: int, op: Op)

  /** `n` is what clamping a request of `want` bytes to `limit` yields: the
      request when it fits, the limit otherwise. */
  predicate ClampedTo(n: nat, want: nat, limit: nat)
  {
    n <= want && n <= limit && (n == want || n == limit)
  }

  /** mtk_snand_adjust_op_size. */
  function AdjustOpSize(c: Caps, cfg: Conf, autofmt: bool, op: Op): (r: Adjusted)
    ensures r.op == WithLength(op, r.op.data.nbytes)
    ensures r.op.data.nbytes <= op.data.nbytes
    ensures r.ret == 0 || r.ret == -EOPNOTSUPP
    ensures r.ret != 0 ==> r.op == op
    ensures IsPageOps(r.op) == IsPageOps(op)
    ensures IsPageOps(op) && autofmt ==> r == Adjusted(0, op)
    ensures IsPageOps(op) && !autofmt ==>
              r.ret == 0 && ClampedTo(r.op.data.nbytes, op.data.nbytes, RawPageLen(c, cfg))
    ensures !IsPageOps(op) ==> (r.ret == 0 <==> HeaderLen(op) < SNF_GPRAM_SIZE)
    ensures !IsPageOps(op) && r.ret == 0 ==>
              ClampedTo(r.op.data.nbytes, op.data.nbytes, SNF_GPRAM_SIZE - HeaderLen(op))
  {
    PageOpsMoveData(op, 0);
    if IsPageOps(op) then
      if autofmt then Adjusted(0, op)
      else
        var l := RawPageLen(c, cfg);
        if op.data.nbytes > l then
          PageOpsMoveData(op, l);
          Adjusted(0, WithLength(op, l))
        else Adjusted(0, op)
    else
      var hl := HeaderLen(op);
      if hl >= SNF_GPRAM_SIZE then Adjusted(-EOPNOTSUPP, op)
      else if op.data.nbytes > SNF_GPRAM_SIZE - hl then
        PageOpsMoveData(op, SNF_GPRAM_SIZE - hl);
        Adjusted(0, WithLength(op, SNF_GPRAM_SIZE - hl))
      else Adjusted(0, op)
  }

  /** Adjusting an adjusted op changes nothing. */
  lemma AdjustOpSizeIdempotent(c: Caps, cfg: Conf, autofmt: bool, op: Op)
    requires AdjustOpSize(c, cfg, autofmt, op).ret == 0
    ensures AdjustOpSize(c, cfg, autofmt, AdjustOpSize(c, cfg, autofmt, op).op) == AdjustOpSize(c, cfg, autofmt, op)
  {
  }

  /** A MAC op that passed adjustment fits the 160-byte GPRAM, header and
      data together. */
  lemma AdjustedMacOpFitsGpram(c: Caps, cfg: Conf, autofmt: bool, op: Op)
    requires !IsPageOps(op) && AdjustOpSize(c, cfg, autofmt, op).ret == 0
    ensures HeaderLen(AdjustOpSize(c, cfg, autofmt, op).op) + AdjustOpSize(c, cfg, autofmt, op).op.data.nbytes <= SNF_GPRAM_SIZE
  {
  }

  // ---------------------------------------------------------------------
  // exec_op

  datatype Route = PageRead | PageWrite | MacIo

  /** mtk_snand_exec_op's dispatch: page reads and page writes go to the
      page-cache engine, everything else through the GPRAM. */
  function ExecRoute(op: Op): (r: Route)
    ensures r == MacIo <==> !IsPageOps(op)
    ensures r == PageRead <==> PageReadTemplate(op)
    ensures r == PageWrite <==> PageWriteTemplate(op)
  {
    if IsPageOps(op) then
      if op.data.dir == DataIn then PageRead else PageWrite
    else MacIo
  }
}
