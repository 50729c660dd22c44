/** Shared vocabulary of the MediaTek SPI-NAND flash interface (SNFI)
    driver: machine integer ranges, controller capabilities, the current
    page format, the register file and byte/word packing. */
module SnfiTypes {

  type u8 = x: int | 0 <= x < 0x100
  type u16 = x: int | 0 <= x < 0x1_0000
  type u32 = x: int | 0 <= x < 0x1_0000_0000
  type u64 = x: int | 0 <= x < 0x1_0000_0000_0000_0000

  /** Kernel error numbers the driver returns (negated). */
  const EOPNOTSUPP: int := 95
  const ERANGE: int := 34
  const EBADMSG: int := 74

  const SZ_512: nat := 0x200
  const SZ_2K: nat := 0x800
  const SZ_4K: nat := 0x1000
  const SZ_8K: nat := 0x2000
  const SZ_16K: nat := 0x4000
  const SZ_64: nat := 0x40

  /** struct mtk_snand_caps, without the polling masks and FIFO size, which
      only the hardware wait loops use. */
  datatype Caps = Caps(
    sectorSize: nat,
    maxSectors: nat,
    fdmSize: nat,
    fdmEccSize: nat,
    bbmSwap: bool,
    spareSizes: seq<nat>)

  const MT7622_SPARE_SIZES: seq<nat> := [16, 26, 27, 28]
  const MT7986_SPARE_SIZES: seq<nat> :=
    [16, 26, 27, 28, 32, 36, 40, 44, 48, 49, 50, 51, 52, 62, 61, 63, 64, 67, 74]

  const MT7622: Caps := Caps(512, 8, 8, 1, false, MT7622_SPARE_SIZES)
  const MT7629: Caps := Caps(512, 8, 8, 1, true, MT7622_SPARE_SIZES)
  const MT7986: Caps := Caps(1024, 8, 8, 1, true, MT7986_SPARE_SIZES)

  /** What the driver relies on of a capability table: a 512- or 1024-byte
      sector, an FDM of one to eight bytes that every spare size can hold,
      a spare-size table whose indices fit the NFI_PAGEFMT field, and
      spare sizes that stay below 128 so that doubling them fits a u8. */
  predicate ValidCaps(c: Caps)
  {
    && (c.sectorSize == 512 || c.sectorSize == 1024)
    && 1 <= c.maxSectors <= 255
    && 1 <= c.fdmSize <= 8
    && c.fdmEccSize <= 15
    && 1 <= |c.spareSizes| <= 32
    && (c.sectorSize == 512 ==> |c.spareSizes| <= 16)
    && forall i :: 0 <= i < |c.spareSizes| ==> c.fdmSize <= c.spareSizes[i] < 128
  }

  lemma ChipsAreValid()
    ensures ValidCaps(MT7622) && ValidCaps(MT7629) && ValidCaps(MT7986)
  {
  }

  /** struct mtk_snand_conf. */
  datatype Conf = Conf(pageSize: nat, oobSize: nat, nsectors: u8, spareSize: u8)

  /** The state probe starts from (the structure is zero-allocated). */
  const INITIAL_CONF: Conf := Conf(0, 0, 0, 0)

  /** A page format the controller can run: what a successful page-format
      setup leaves behind. The last conjunct follows from the two before it
      and is kept so that the FDM area's bound is at hand. */
  predicate ValidConf(c: Caps, cfg: Conf)
  {
    && 1 <= cfg.nsectors <= c.maxSectors
    && cfg.pageSize == cfg.nsectors * c.sectorSize
    && c.fdmSize <= cfg.spareSize
    && cfg.nsectors * cfg.spareSize <= cfg.oobSize
    && cfg.nsectors * c.fdmSize <= cfg.oobSize
  }

  // ---------------------------------------------------------------------
  // Registers and bytes

  /** The NFI register file, by byte offset from the controller base.
      Offsets never written read as zero. */
  type Regs = map<nat, bv32>

  function Read32(regs: Regs, off: nat): bv32
  {
    if off in regs then regs[off] else 0
  }

  /** Byte `k` (little-endian) of a 32-bit word: `(u8)(w >> (8 * k))`. */
  function ByteOf(w: bv32, k: nat): bv8
    requires k < 4
  {
    var shifted := if k == 0 then w else if k == 1 then w >> 8 else if k == 2 then w >> 16 else w >> 24;
    (shifted & 0xff) as bv8
  }

  /** The little-endian word holding four bytes. */
  function PackLE(b0: bv8, b1: bv8, b2: bv8, b3: bv8): (w: bv32)
    ensures ByteOf(w, 0) == b0 && ByteOf(w, 1) == b1
    ensures ByteOf(w, 2) == b2 && ByteOf(w, 3) == b3
  {
    (b0 as bv32) | ((b1 as bv32) << 8) | ((b2 as bv32) << 16) | ((b3 as bv32) << 24)
  }

  /** A word is determined by its four bytes. */
  lemma WordFromBytes(w: bv32)
    ensures PackLE(ByteOf(w, 0), ByteOf(w, 1), ByteOf(w, 2), ByteOf(w, 3)) == w
  {
  }

  /** `val | (b << (8 * k))` into a word whose byte `k` is still zero sets
      byte `k` to `b` and keeps the others. */
  function OrByte(w: bv32, b: bv8, k: nat): (r: bv32)
    requires k < 4
    requires ByteOf(w, k) == 0
    ensures ByteOf(r, k) == b
    ensures k != 0 ==> ByteOf(r, 0) == ByteOf(w, 0)
    ensures k != 1 ==> ByteOf(r, 1) == ByteOf(w, 1)
    ensures k != 2 ==> ByteOf(r, 2) == ByteOf(w, 2)
    ensures k != 3 ==> ByteOf(r, 3) == ByteOf(w, 3)
  {
    OrByteBytes(w, b, k);
    OrAt(w, b, k)
  }

  function OrAt(w: bv32, b: bv8, k: nat): bv32
    requires k < 4
  {
    var wide := b as bv32;
    if k == 0 then w | wide
    else if k == 1 then w | (wide << 8)
    else if k == 2 then w | (wide << 16)
    else w | (wide << 24)
  }

  lemma OrByteBytes(w: bv32, b: bv8, k: nat)
    requires k < 4
    requires ByteOf(w, k) == 0
    ensures ByteOf(OrAt(w, b, k), k) == b
    ensures k != 0 ==> ByteOf(OrAt(w, b, k), 0) == ByteOf(w, 0)
    ensures k != 1 ==> ByteOf(OrAt(w, b, k), 1) == ByteOf(w, 1)
    ensures k != 2 ==> ByteOf(OrAt(w, b, k), 2) == ByteOf(w, 2)
    ensures k != 3 ==> ByteOf(OrAt(w, b, k), 3) == ByteOf(w, 3)
  {
    if k == 0 {
      OrByte0(w, b);
    } else if k == 1 {
      OrByte1(w, b);
    } else if k == 2 {
      OrByte2(w, b);
    } else {
      OrByte3(w, b);
    }
  }

  lemma OrByte0(w: bv32, b: bv8)
    requires ByteOf(w, 0) == 0
    ensures ByteOf(OrAt(w, b, 0), 0) == b && ByteOf(OrAt(w, b, 0), 1) == ByteOf(w, 1)
    ensures ByteOf(OrAt(w, b, 0), 2) == ByteOf(w, 2) && ByteOf(OrAt(w, b, 0), 3) == ByteOf(w, 3)
  {
  }

  lemma OrByte1(w: bv32, b: bv8)
    requires ByteOf(w, 1) == 0
    ensures ByteOf(OrAt(w, b, 1), 1) == b && ByteOf(OrAt(w, b, 1), 0) == ByteOf(w, 0)
    ensures ByteOf(OrAt(w, b, 1), 2) == ByteOf(w, 2) && ByteOf(OrAt(w, b, 1), 3) == ByteOf(w, 3)
  {
  }

  lemma OrByte2(w: bv32, b: bv8)
    requires ByteOf(w, 2) == 0
    ensures ByteOf(OrAt(w, b, 2), 2) == b && ByteOf(OrAt(w, b, 2), 0) == ByteOf(w, 0)
    ensures ByteOf(OrAt(w, b, 2), 1) == ByteOf(w, 1) && ByteOf(OrAt(w, b, 2), 3) == ByteOf(w, 3)
  {
  }

  lemma OrByte3(w: bv32, b: bv8)
    requires ByteOf(w, 3) == 0
    ensures ByteOf(OrAt(w, b, 3), 3) == b && ByteOf(OrAt(w, b, 3), 0) == ByteOf(w, 0)
    ensures ByteOf(OrAt(w, b, 3), 1) == ByteOf(w, 1) && ByteOf(OrAt(w, b, 3), 2) == ByteOf(w, 2)
  {
  }
}
