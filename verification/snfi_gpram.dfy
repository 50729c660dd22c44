/** The SNFI MAC path (mtk_snand_mac_io): every byte of an op that is not
    a page op is packed little-endian into the 32-bit words of the GPRAM,
    and received bytes are read back from there (nfi_read_data). */
module SnfiGpram {
  import opened SnfiTypes
  import opened SnfiOps
  import opened BigEndian

  const SNF_GPRAM: nat := 0x800

  /** A data-out op carries as many bytes as it announces. */
  predicate TxReady(op: Op)
  {
    op.data.dir == DataOut ==> |op.data.buf| >= op.data.nbytes
  }

  function Zeros(n: nat): (s: seq<bv8>)
    ensures |s| == n && forall i :: 0 <= i < n ==> s[i] == 0
  {
    seq(n, i => 0)
  }

  /** The bytes a MAC op sends, in order: the opcode and the address
      big-endian, a zero byte per dummy byte, then the data of a data-out
      op. */
  function TxData(op: Op): seq<bv8>
    requires TxReady(op)
  {
    if op.data.dir == DataOut then op.data.buf[..op.data.nbytes] else []
  }

  function Stream(op: Op): (s: seq<bv8>)
    requires TxReady(op)
    ensures |s| == HeaderLen(op) + |TxData(op)|
  {
    BeBytes(op.cmd.opcode, op.cmd.nbytes) + BeBytes(op.addr.val, op.addr.nbytes) + Zeros(op.dummy.nbytes) + TxData(op)
  }

  /** Byte `p` of the stream, by the part it falls in. */
  function StreamByte(op: Op, p: nat): bv8
    requires TxReady(op) && p < HeaderLen(op) + |TxData(op)|
  {
    var c := op.cmd.nbytes;
    var a := op.addr.nbytes;
    if p < c then BeByte(op.cmd.opcode, c, p)
    else if p < c + a then BeByte(op.addr.val, a, p - c)
    else if p < HeaderLen(op) then 0
    else op.data.buf[p - HeaderLen(op)]
  }

  /** The stream is the concatenation of its parts, position by position. */
  lemma StreamAt(op: Op, p: nat)
    requires TxReady(op) && p < |Stream(op)|
    ensures Stream(op)[p] == StreamByte(op, p)
  {
  }

  // ---------------------------------------------------------------------
  // Packing state of the four loops

  /** `regs` the register file, `val` the word being filled, `offs` the
      byte position reached (reg_offs). */
  datatype PackState = PackState(regs: Regs, val: bv32, offs: nat)

  /** One iteration: OR the byte into the word at its lane and write the
      word out once its last lane is filled. */
  function Push(st: PackState, b: bv8): PackState
  {
    var v := OrAt(st.val, b, st.offs % 4);
    if st.offs % 4 == 3 then PackState(st.regs[SNF_GPRAM + st.offs - 3 := v], 0, st.offs + 1)
    else PackState(st.regs, v, st.offs + 1)
  }

  /** One iteration of the dummy loop, which ORs nothing in. */
  function Skip(st: PackState): PackState
  {
    if st.offs % 4 == 3 then PackState(st.regs[SNF_GPRAM + st.offs - 3 := st.val], 0, st.offs + 1)
    else PackState(st.regs, st.val, st.offs + 1)
  }

  /** The dummy loop is the data loop fed zero bytes. */
  lemma SkipIsPushZero(st: PackState)
    ensures Skip(st) == Push(st, 0)
  {
    var k := st.offs % 4;
    assert OrAt(st.val, 0, k) == st.val;
  }

  /** The start of the word holding byte position `p`. */
  function WordBase(p: nat): nat
  {
    p - p % 4
  }

  /** GPRAM byte `p` of a register file. */
  function GpramByte(regs: Regs, p: nat): bv8
  {
    ByteOf(Read32(regs, SNF_GPRAM + WordBase(p)), p % 4)
  }

  /** What the loops keep true of a state against the whole byte stream
      `s`: complete words hold their bytes in the GPRAM, the pending word
      holds the bytes of the current word and zeros above them, and no
      other register has been written. */
  ghost predicate Packed(st: PackState, s: seq<bv8>, regs0: Regs)
  {
    && st.offs <= |s|
    && (forall p :: 0 <= p < WordBase(st.offs) ==> GpramByte(st.regs, p) == s[p])
    && (forall p :: WordBase(st.offs) <= p < st.offs ==> ByteOf(st.val, p % 4) == s[p])
    && (forall k :: st.offs % 4 <= k < 4 ==> ByteOf(st.val, k) == 0)
    && (forall off: nat :: off < SNF_GPRAM || off >= SNF_GPRAM + WordBase(st.offs) || off % 4 != 0 ==>
          Read32(st.regs, off) == Read32(regs0, off))
  }

  lemma PackedStart(regs: Regs, s: seq<bv8>)
    ensures Packed(PackState(regs, 0, 0), s, regs)
  {
  }

  /** Pushing the next byte of the stream keeps the packing invariant. */
  lemma PushKeepsPacked(st: PackState, s: seq<bv8>, regs0: Regs)
    requires Packed(st, s, regs0) && st.offs < |s|
    ensures Packed(Push(st, s[st.offs]), s, regs0)
  {
    var k := st.offs % 4;
    var b := s[st.offs];
    OrByteBytes(st.val, b, k);
    if k == 3 {
      PushFlushes(st, s, regs0);
    } else {
      PushFills(st, s, regs0);
    }
  }

  lemma PushFills(st: PackState, s: seq<bv8>, regs0: Regs)
    requires Packed(st, s, regs0) && st.offs < |s| && st.offs % 4 != 3
    ensures Packed(Push(st, s[st.offs]), s, regs0)
  {
    var k := st.offs % 4;
    var b := s[st.offs];
    OrByteBytes(st.val, b, k);
    var r := Push(st, b);
    assert WordBase(r.offs) == WordBase(st.offs);
    assert r.val == OrAt(st.val, b, k);
    forall p | WordBase(r.offs) <= p < r.offs
      ensures ByteOf(r.val, p % 4) == s[p]
    {
      if p < st.offs {
        assert p % 4 < k;
      }
    }
  }

  lemma PushFlushes(st: PackState, s: seq<bv8>, regs0: Regs)
    requires Packed(st, s, regs0) && st.offs < |s| && st.offs % 4 == 3
    ensures Packed(Push(st, s[st.offs]), s, regs0)
  {
    var b := s[st.offs];
    OrByteBytes(st.val, b, 3);
    var v := OrAt(st.val, b, 3);
    var base := WordBase(st.offs);
    var r := Push(st, b);
    assert r.regs == st.regs[SNF_GPRAM + base := v];
    assert WordBase(r.offs) == base + 4;
    forall p | 0 <= p < base + 4
      ensures GpramByte(r.regs, p) == s[p]
    {
      if p < base {
        assert WordBase(p) < base;
      } else {
        assert WordBase(p) == base;
      }
    }
    forall k | 0 <= k < 4
      ensures ByteOf(r.val, k) == 0
    {
    }
  }

  /** The final flush of a partial word. */
  function Flush(st: PackState): Regs
  {
    if st.offs % 4 != 0 then st.regs[SNF_GPRAM + WordBase(st.offs) := st.val] else st.regs
  }

  /** After the flush every byte of the stream is in the GPRAM, the rest of
      the last word is zero, and no other register has changed. */
  lemma FlushComplete(st: PackState, s: seq<bv8>, regs0: Regs)
    requires Packed(st, s, regs0) && st.offs == |s|
    ensures forall p :: 0 <= p < |s| ==> GpramByte(Flush(st), p) == s[p]
    ensures forall p :: |s| <= p < WordBase(|s| + 3) ==> GpramByte(Flush(st), p) == 0
    ensures forall off: nat :: off < SNF_GPRAM || off >= SNF_GPRAM + |s| || off % 4 != 0 ==>
              Read32(Flush(st), off) == Read32(regs0, off)
  {
    var r := Flush(st);
    var base := WordBase(st.offs);
    forall p | 0 <= p < |s|
      ensures GpramByte(r, p) == s[p]
    {
      if p >= base {
        assert WordBase(p) == base;
      } else {
        assert WordBase(p) < base;
      }
    }
    forall p | |s| <= p < WordBase(|s| + 3)
      ensures GpramByte(r, p) == 0
    {
      assert WordBase(p) == base;
    }
  }

  /** The opcode loop of mtk_snand_mac_io. */
  method PackCmd(op: Op, st0: PackState, regs0: Regs) returns (st: PackState)
    requires TxReady(op) && Packed(st0, Stream(op), regs0) && st0.offs == 0
    ensures Packed(st, Stream(op), regs0) && st.offs == op.cmd.nbytes
  {
    st := st0;
    var i := 0;
    while i < op.cmd.nbytes
      invariant 0 <= i <= op.cmd.nbytes && st.offs == i
      invariant Packed(st, Stream(op), regs0)
    {
      StreamAt(op, st.offs);
      PushKeepsPacked(st, Stream(op), regs0);
      st := Push(st, BeByte(op.cmd.opcode, op.cmd.nbytes, i));
      i := i + 1;
    }
  }

  /** The address loop. */
  method PackAddr(op: Op, st0: PackState, regs0: Regs) returns (st: PackState)
    requires TxReady(op) && Packed(st0, Stream(op), regs0) && st0.offs == op.cmd.nbytes
    ensures Packed(st, Stream(op), regs0) && st.offs == op.cmd.nbytes + op.addr.nbytes
  {
    st := st0;
    var i := 0;
    while i < op.addr.nbytes
      invariant 0 <= i <= op.addr.nbytes && st.offs == op.cmd.nbytes + i
      invariant Packed(st, Stream(op), regs0)
    {
      StreamAt(op, st.offs);
      PushKeepsPacked(st, Stream(op), regs0);
      st := Push(st, BeByte(op.addr.val, op.addr.nbytes, i));
      i := i + 1;
    }
  }

  /** The dummy loop. */
  method PackDummy(op: Op, st0: PackState, regs0: Regs) returns (st: PackState)
    requires TxReady(op) && Packed(st0, Stream(op), regs0) && st0.offs == op.cmd.nbytes + op.addr.nbytes
    ensures Packed(st, Stream(op), regs0) && st.offs == HeaderLen(op)
  {
    st := st0;
    var i := 0;
    while i < op.dummy.nbytes
      invariant 0 <= i <= op.dummy.nbytes && st.offs == op.cmd.nbytes + op.addr.nbytes + i
      invariant Packed(st, Stream(op), regs0)
    {
      StreamAt(op, st.offs);
      PushKeepsPacked(st, Stream(op), regs0);
      SkipIsPushZero(st);
      st := Skip(st);
      i := i + 1;
    }
  }

  /** The data loop of a data-out op. */
  method PackData(op: Op, st0: PackState, regs0: Regs) returns (st: PackState)
    requires TxReady(op) && op.data.dir == DataOut
    requires Packed(st0, Stream(op), regs0) && st0.offs == HeaderLen(op)
    ensures Packed(st, Stream(op), regs0) && st.offs == |Stream(op)|
  {
    ghost var s := Stream(op);
    assert |s| == HeaderLen(op) + op.data.nbytes;
    st := st0;
    var i := 0;
    while i < op.data.nbytes
      invariant 0 <= i <= op.data.nbytes && st.offs == HeaderLen(op) + i
      invariant Packed(st, s, regs0)
    {
      StreamAt(op, st.offs);
      assert s[st.offs] == op.data.buf[i];
      PushKeepsPacked(st, s, regs0);
      st := Push(st, op.data.buf[i]);
      i := i + 1;
    }
  }

  /** The packing loops of mtk_snand_mac_io and the flush of the last
      partial word; `regOffs` is reg_offs, the number of bytes sent. */
  method MacIoPack(op: Op, regs: Regs) returns (r: Regs, regOffs: nat)
    requires TxReady(op)
    ensures regOffs == |Stream(op)|
    ensures forall p :: 0 <= p < regOffs ==> GpramByte(r, p) == Stream(op)[p]
    ensures forall p :: regOffs <= p < WordBase(regOffs + 3) ==> GpramByte(r, p) == 0
    ensures forall off: nat :: off < SNF_GPRAM || off >= SNF_GPRAM + regOffs || off % 4 != 0 ==>
              Read32(r, off) == Read32(regs, off)
  {
    var st := PackState(regs, 0, 0);
    PackedStart(regs, Stream(op));
    st := PackCmd(op, st, regs);
    st := PackAddr(op, st, regs);
    st := PackDummy(op, st, regs);
    if op.data.dir == DataOut {
      st := PackData(op, st, regs);
    }
    FlushComplete(st, Stream(op), regs);
    r := Flush(st);
    regOffs := st.offs;
  }

  // ---------------------------------------------------------------------
  // Reading the GPRAM

  /** nfi_read_data: `len` bytes from byte offset `reg`, each taken from
      its lane of the aligned word, the word fetched at the first byte and
      at every word boundary. */
  method ReadData(regs: Regs, reg: nat, len: nat) returns (data: seq<bv8>)
    requires reg + len < 0x1_0000_0000
    ensures |data| == len
    ensures forall k :: 0 <= k < len ==> data[k] == ByteOf(Read32(regs, WordBase(reg + k)), (reg + k) % 4)
  {
    data := [];
    var val: bv32 := 0;
    var i := reg;
    while i < reg + len
      invariant reg <= i <= reg + len && |data| == i - reg
      invariant i > reg && i % 4 != 0 ==> val == Read32(regs, WordBase(i))
      invariant forall k :: 0 <= k < |data| ==> data[k] == ByteOf(Read32(regs, WordBase(reg + k)), (reg + k) % 4)
    {
      if i == reg || i % 4 == 0 {
        val := Read32(regs, WordBase(i));
      }
      data := data + [ByteOf(val, i % 4)];
      i := i + 1;
    }
  }

  /** Reading the GPRAM back from its start right after packing returns the
      bytes of the op. */
  method PackThenRead(op: Op, regs: Regs) returns (back: seq<bv8>)
    requires TxReady(op) && SNF_GPRAM + |Stream(op)| < 0x1_0000_0000
    ensures back == Stream(op)
  {
    var r, n := MacIoPack(op, regs);
    back := ReadData(r, SNF_GPRAM, n);
    forall k | 0 <= k < n
      ensures back[k] == Stream(op)[k]
    {
      GpramWordBase(k);
    }
  }

  /** mtk_snand_mac_io without the controller reset and trigger: the GPRAM
      is packed from `regs`, the lengths handed to the trigger are
      returned, and the received bytes are read from `done`, the register
      file once the controller has run the transfer. */
  method MacIo(op: Op, regs: Regs, done: Regs) returns (packed: Regs, outLen: nat, inLen: nat, rx: seq<bv8>)
    requires TxReady(op) && HeaderLen(op) + (if op.data.dir == NoData then 0 else op.data.nbytes) <= SNF_GPRAM_SIZE
    ensures outLen == |Stream(op)| && inLen == (if op.data.dir == DataIn then op.data.nbytes else 0)
    ensures outLen + inLen <= SNF_GPRAM_SIZE
    ensures forall p :: 0 <= p < outLen ==> GpramByte(packed, p) == Stream(op)[p]
    ensures |rx| == inLen
    ensures forall k :: 0 <= k < inLen ==> rx[k] == GpramByte(done, outLen + k)
  {
    inLen := if op.data.dir == DataIn then op.data.nbytes else 0;
    packed, outLen := MacIoPack(op, regs);
    assert outLen + inLen <= SNF_GPRAM_SIZE by {
      assert |TxData(op)| == (if op.data.dir == DataOut then op.data.nbytes else 0);
    }
    rx := [];
    if inLen != 0 {
      rx := ReadData(done, SNF_GPRAM + outLen, inLen);
      forall k | 0 <= k < inLen
        ensures rx[k] == GpramByte(done, outLen + k)
      {
        GpramWordBase(outLen + k);
      }
    }
  }

  /** The GPRAM starts on a word boundary, so word bases inside it are the
      GPRAM base plus the word base of the offset. */
  lemma GpramWordBase(p: nat)
    ensures WordBase(SNF_GPRAM + p) == SNF_GPRAM + WordBase(p)
  {
  }

  /** Every op that passed mtk_snand_adjust_op_size as a MAC op meets the
      precondition of MacIo. */
  lemma AdjustedOpsFitMacIo(c: Caps, cfg: Conf, autofmt: bool, op: Op)
    requires !IsPageOps(op) && AdjustOpSize(c, cfg, autofmt, op).ret == 0
    ensures var a := AdjustOpSize(c, cfg, autofmt, op).op;
            HeaderLen(a) + (if a.data.dir == NoData then 0 else a.data.nbytes) <= SNF_GPRAM_SIZE
  {
    AdjustedMacOpFitsGpram(c, cfg, autofmt, op);
  }
}
