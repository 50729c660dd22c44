/** Page-format selection of the SNFI driver (mtk_snand_setup_pagefmt) and
    the OOB free-region layout it implies (mtk_snand_ooblayout_free). */
module SnfiPagefmt {
  import opened Wrappers
  import opened SnfiTypes
  import opened Arith

  // NFI_PAGEFMT fields
  const NFI_SPARE_SIZE_LS_S: bv32 := 16
  const NFI_FDM_ECC_NUM_S: bv32 := 12
  const NFI_FDM_NUM_S: bv32 := 8
  const NFI_SPARE_SIZE_S: bv32 := 4
  const NFI_SEC_SEL_512: bv32 := 0x4
  const NFI_PAGE_SIZE_512_2K: nat := 0
  const NFI_PAGE_SIZE_2K_4K: nat := 1
  const NFI_PAGE_SIZE_4K_8K: nat := 2
  const NFI_PAGE_SIZE_8K_16K: nat := 3
  const NFI_PAGE_SIZE_S: bv32 := 0

  /** `u8 nsectors = page_size / sector_size`, truncated to eight bits. */
  function SectorCount(c: Caps, page: u32): u8
    requires ValidCaps(c)
  {
    (page / c.sectorSize) % 0x100
  }

  /** The switch on the page size: the NFI_PAGE_SIZE_* index, or None for
      an unsupported size. */
  function PageSizeIndex(c: Caps, page: u32): Option<nat>
    requires ValidCaps(c)
  {
    if page == SZ_512 then Some(NFI_PAGE_SIZE_512_2K)
    else if page == SZ_2K then Some(if c.sectorSize == 512 then NFI_PAGE_SIZE_2K_4K else NFI_PAGE_SIZE_512_2K)
    else if page == SZ_4K then Some(if c.sectorSize == 512 then NFI_PAGE_SIZE_4K_8K else NFI_PAGE_SIZE_2K_4K)
    else if page == SZ_8K then Some(if c.sectorSize == 512 then NFI_PAGE_SIZE_8K_16K else NFI_PAGE_SIZE_4K_8K)
    else if page == SZ_16K then Some(NFI_PAGE_SIZE_8K_16K)
    else None
  }

  /** The page sizes an NFI_PAGE_SIZE_<X>_<Y> index stands for: X with
      512-byte sectors, Y with 1024-byte sectors. */
  function PageOfIndex(c: Caps, idx: nat): nat
    requires idx < 4
  {
    if c.sectorSize == 512 then [SZ_512, SZ_2K, SZ_4K, SZ_8K][idx]
    else [SZ_2K, SZ_4K, SZ_8K, SZ_16K][idx]
  }

  /** The index is defined exactly for the five sizes the switch lists, and
      for every page size that also yields between 1 and 8 sectors it is the
      field named after that page size. */
  lemma PageSizeIndexNamesPage(c: Caps, page: u32)
    requires ValidCaps(c)
    ensures PageSizeIndex(c, page).Some? <==> page in {SZ_512, SZ_2K, SZ_4K, SZ_8K, SZ_16K}
    ensures PageSizeIndex(c, page).Some? ==> PageSizeIndex(c, page).value < 4
    ensures PageSizeIndex(c, page).Some? && 1 <= page / c.sectorSize <= 8 ==>
              PageOfIndex(c, PageSizeIndex(c, page).value) == page
  {
  }

  /** How the hardware scales the spare size: 1024-byte sectors count it
      double. */
  function SpareScale(c: Caps): nat
  {
    if c.sectorSize == 1024 then 2 else 1
  }

  /** The per-sector spare budget the table is searched with. */
  function SpareTarget(c: Caps, oob: u32, nsectors: u8): nat
    requires nsectors > 0
  {
    DivNat(oob, nsectors);
    DivNat(oob / nsectors, SpareScale(c));
    (oob / nsectors) / SpareScale(c)
  }

  /** Scan of indices below `i`, from the top down, for the first entry that
      does not exceed `target`. */
  function ScanDown(table: seq<nat>, target: nat, i: nat): (r: Option<nat>)
    requires i <= |table|
    ensures r.Some? ==> r.value < i && table[r.value] <= target
    ensures r.Some? ==> forall j :: r.value < j < i ==> table[j] > target
    ensures r.None? ==> forall j :: 0 <= j < i ==> table[j] > target
  {
    if i == 0 then None
    else if table[i - 1] <= target then Some(i - 1)
    else ScanDown(table, target, i - 1)
  }

  /** The spare-size loop: the highest index whose entry fits. */
  function SelectSpare(table: seq<nat>, target: nat): (r: Option<nat>)
    ensures r.Some? <==> exists j :: 0 <= j < |table| && table[j] <= target
    ensures r.Some? ==> r.value < |table| && table[r.value] <= target
    ensures r.Some? ==> forall j :: r.value < j < |table| ==> table[j] > target
  {
    ScanDown(table, target, |table|)
  }

  /** The mt7986 table is not sorted: 62 sits before 61, so a budget of 62
      selects 61, and index 13 (62) is never selected. */
  lemma Mt7986SpareSelection(target: nat)
    ensures SelectSpare(MT7986_SPARE_SIZES, 62) == Some(14)
    ensures MT7986_SPARE_SIZES[14] == 61 < MT7986_SPARE_SIZES[13] == 62
    ensures SelectSpare(MT7986_SPARE_SIZES, target) != Some(13)
  {
    var t := MT7986_SPARE_SIZES;
    assert t[13] == 62 && t[14] == 61;
    assert t[15] == 63 && t[16] == 64 && t[17] == 67 && t[18] == 74;
  }

  /** The word written to NFI_PAGEFMT. */
  function PagefmtWord(c: Caps, spareIdx: nat, pageIdx: nat): bv32
    requires ValidCaps(c) && spareIdx < |c.spareSizes| && pageIdx < 4
  {
    PagefmtBits(c.fdmEccSize as bv32, c.fdmSize as bv32, spareIdx as bv32, pageIdx as bv32, c.sectorSize == 512)
  }

  function PagefmtBits(e: bv32, f: bv32, s: bv32, p: bv32, sel512: bool): bv32
  {
    var common := (e << NFI_FDM_ECC_NUM_S) | (f << NFI_FDM_NUM_S) | (p << NFI_PAGE_SIZE_S);
    if sel512 then common | (s << NFI_SPARE_SIZE_S) | NFI_SEC_SEL_512
    else common | (s << NFI_SPARE_SIZE_LS_S)
  }

  /** The fields of the NFI_PAGEFMT word do not overlap: each one reads
      back. */
  lemma PagefmtWordFields(c: Caps, spareIdx: nat, pageIdx: nat)
    requires ValidCaps(c) && spareIdx < |c.spareSizes| && pageIdx < 4
    ensures var w := PagefmtWord(c, spareIdx, pageIdx);
            && (w & 0x3) == pageIdx as bv32
            && ((w & NFI_SEC_SEL_512) != 0 <==> c.sectorSize == 512)
            && ((w >> 8) & 0xf) == c.fdmSize as bv32
            && ((w >> 12) & 0xf) == c.fdmEccSize as bv32
            && (c.sectorSize == 512 ==> ((w >> 4) & 0xf) == spareIdx as bv32)
            && (c.sectorSize == 1024 ==> (w >> 16) == spareIdx as bv32)
  {
    SmallBv16(c.fdmEccSize);
    SmallBv16(c.fdmSize);
    SmallBv4(pageIdx);
    if c.sectorSize == 512 {
      SmallBv16(spareIdx);
      PackFields512(c.fdmEccSize as bv32, c.fdmSize as bv32, spareIdx as bv32, pageIdx as bv32);
    } else {
      SmallBv32(spareIdx);
      PackFields1024(c.fdmEccSize as bv32, c.fdmSize as bv32, spareIdx as bv32, pageIdx as bv32);
    }
  }

  lemma SmallBv4(x: nat)
    requires x < 4
    ensures (x as bv32) < 4
  {
  }

  lemma SmallBv16(x: nat)
    requires x < 16
    ensures (x as bv32) < 16
  {
  }

  lemma SmallBv32(x: nat)
    requires x < 32
    ensures (x as bv32) < 32
  {
  }

  lemma PackFields512(e: bv32, f: bv32, s: bv32, p: bv32)
    requires e < 16 && f < 16 && s < 16 && p < 4
    ensures var w := PagefmtBits(e, f, s, p, true);
            (w & 0x3) == p && (w & NFI_SEC_SEL_512) != 0 && ((w >> 8) & 0xf) == f
            && ((w >> 12) & 0xf) == e && ((w >> 4) & 0xf) == s
  {
  }

  lemma PackFields1024(e: bv32, f: bv32, s: bv32, p: bv32)
    requires e < 16 && f < 16 && s < 32 && p < 4
    ensures var w := PagefmtBits(e, f, s, p, false);
            (w & 0x3) == p && (w & NFI_SEC_SEL_512) == 0 && ((w >> 8) & 0xf) == f
            && ((w >> 12) & 0xf) == e && (w >> 16) == s
  {
  }

  /** Outcome of a page-format setup: the return code, the configuration
      afterwards, and the NFI_PAGEFMT word written, if any. */
  datatype Setup = Setup(ret: int, cfg: Conf, pagefmt: Option<bv32>)

  function Reject(cfg: Conf): Setup
  {
    Setup(-EOPNOTSUPP, cfg, None)
  }

  function Configured(cfg: Conf, page: nat, oob: nat): bool
  {
    cfg.pageSize == page && cfg.oobSize == oob
  }

  /** The spare size stored for a table entry, truncated to the u8 field. */
  function StoredSpare(c: Caps, idx: nat): u8
    requires idx < |c.spareSizes|
  {
    (c.spareSizes[idx] * SpareScale(c)) % 0x100
  }

  /** mtk_snand_setup_pagefmt as written; None stands for the division by
      zero reached when the page holds no whole sector. */
  function SetupPagefmtAsWritten(c: Caps, cfg: Conf, page: u32, oob: u32): Option<Setup>
    requires ValidCaps(c)
  {
    if Configured(cfg, page, oob) then Some(Setup(0, cfg, None))
    else
      var n := SectorCount(c, page);
      if n > c.maxSectors then Some(Reject(cfg))
      else match PageSizeIndex(c, page)
        case None => Some(Reject(cfg))
        case Some(pageIdx) =>
          if n == 0 then None
          else match SelectSpare(c.spareSizes, SpareTarget(c, oob, n))
            case None => Some(Reject(cfg))
            case Some(i) =>
              Some(Setup(0, Conf(page, oob, n, StoredSpare(c, i)), Some(PagefmtWord(c, i, pageIdx))))
  }

  /** The sector counts a supported page format can have. */
  predicate SupportedFormat(c: Caps, page: nat, oob: nat)
    requires ValidCaps(c)
  {
    var n := page / c.sectorSize;
    && 1 <= n <= c.maxSectors
    && page in {SZ_512, SZ_2K, SZ_4K, SZ_8K, SZ_16K}
    && exists j :: 0 <= j < |c.spareSizes| && c.spareSizes[j] <= (oob / n) / SpareScale(c)
  }

  /** mtk_snand_setup_pagefmt with a page too small for one sector rejected
      like any other unsupported format. */
  function SetupPagefmt(c: Caps, cfg: Conf, page: u32, oob: u32): (r: Setup)
    requires ValidCaps(c)
    ensures Configured(cfg, page, oob) ==> r == Setup(0, cfg, None)
    ensures r.ret == 0 || r.ret == -EOPNOTSUPP
    ensures r.ret != 0 ==> r.cfg == cfg && r.pagefmt.None?
    ensures !Configured(cfg, page, oob) ==> (r.ret == 0 <==> SupportedFormat(c, page, oob))
    ensures !Configured(cfg, page, oob) && r.ret == 0 ==>
              && r.cfg.pageSize == page && r.cfg.oobSize == oob
              && r.cfg.nsectors == page / c.sectorSize
              && ValidConf(c, r.cfg)
              && exists i :: 0 <= i < |c.spareSizes|
                   && c.spareSizes[i] <= (oob / r.cfg.nsectors) / SpareScale(c)
                   && (forall j :: i < j < |c.spareSizes| ==> c.spareSizes[j] > (oob / r.cfg.nsectors) / SpareScale(c))
                   && r.cfg.spareSize == c.spareSizes[i] * SpareScale(c)
                   && r.pagefmt == Some(PagefmtWord(c, i, PageSizeIndex(c, page).value))
  {
    SetupSteps(c, cfg, page, oob);
    match SetupPagefmtAsWritten(c, cfg, page, oob)
    case Some(r) => r
    case None => Reject(cfg)
  }

  /** The arithmetic facts behind the contract of SetupPagefmt. */
  lemma SetupSteps(c: Caps, cfg: Conf, page: u32, oob: u32)
    requires ValidCaps(c)
    ensures PageSizeIndex(c, page).Some? ==> SectorCount(c, page) == page / c.sectorSize
    ensures PageSizeIndex(c, page).Some? && SectorCount(c, page) > 0 ==> page == SectorCount(c, page) * c.sectorSize
    ensures PageSizeIndex(c, page).Some? && SectorCount(c, page) > 0 ==>
              var sel := SelectSpare(c.spareSizes, SpareTarget(c, oob, SectorCount(c, page)));
              sel.Some? ==> && StoredSpare(c, sel.value) == c.spareSizes[sel.value] * SpareScale(c)
                            && SectorCount(c, page) * StoredSpare(c, sel.value) <= oob
                            && c.fdmSize <= StoredSpare(c, sel.value)
                            && SectorCount(c, page) * c.fdmSize <= oob
  {
    if PageSizeIndex(c, page).Some? {
      SectorCountExact(c, page);
      var n := SectorCount(c, page);
      if n > 0 {
        var sel := SelectSpare(c.spareSizes, SpareTarget(c, oob, n));
        if sel.Some? {
          SpareFits(c, oob, n, sel.value);
        }
      }
    }
  }

  /** For the listed page sizes the u8 truncation of the sector count has no
      effect. */
  lemma SectorCountExact(c: Caps, page: u32)
    requires ValidCaps(c) && PageSizeIndex(c, page).Some?
    ensures SectorCount(c, page) == page / c.sectorSize <= 32
    ensures SectorCount(c, page) > 0 ==> page == SectorCount(c, page) * c.sectorSize
  {
    var ss := c.sectorSize;
    if page == SZ_512 && ss == 1024 {
      DivModUnique(page, ss, 0, 512);
    } else {
      var q := if ss == 512 then page / 512 else page / 1024;
      assert page == q * ss;
      DivModUnique(page, ss, q, 0);
      ModSmall(q, 0x100);
    }
  }

  /** The chosen spare size, times the sector count, stays within the OOB
      size, and it holds an FDM. */
  lemma SpareFits(c: Caps, oob: u32, n: u8, i: nat)
    requires ValidCaps(c) && n > 0 && i < |c.spareSizes|
    requires c.spareSizes[i] <= SpareTarget(c, oob, n)
    ensures StoredSpare(c, i) == c.spareSizes[i] * SpareScale(c)
    ensures n * StoredSpare(c, i) <= oob
    ensures c.fdmSize <= StoredSpare(c, i)
    ensures n * c.fdmSize <= oob
  {
    var v := c.spareSizes[i];
    var s := SpareScale(c);
    DivNat(oob, n);
    var per: nat := oob / n;
    DivModSplit(oob, n);
    assert n * per <= oob;
    DivModSplit(per, s);
    MulMono(s, v, per / s);
    assert v * s <= per;
    MulMono(v, s, 2);
    ModSmall(v * s, 0x100);
    MulMono(n, v * s, per);
    MulMono(c.fdmSize, 1, s);
    MulMono(n, c.fdmSize, v * s);
  }

  /** As written, a configuration change to a 512-byte page on a controller
      with 1024-byte sectors divides by zero, and nothing else does. */
  lemma SetupPagefmtAsWrittenTraps(c: Caps, cfg: Conf, page: u32, oob: u32)
    requires ValidCaps(c)
    ensures SetupPagefmtAsWritten(c, cfg, page, oob).None?
            <==> !Configured(cfg, page, oob) && c.sectorSize == 1024 && page == SZ_512
    ensures SetupPagefmtAsWritten(c, cfg, page, oob).Some? ==>
              SetupPagefmt(c, cfg, page, oob) == SetupPagefmtAsWritten(c, cfg, page, oob).value
  {
  }

  /** The concrete trap on mt7986, and the corrected rejection. */
  lemma Mt7986HalfKPage(oob: u32)
    ensures SetupPagefmtAsWritten(MT7986, INITIAL_CONF, SZ_512, oob).None?
    ensures SetupPagefmt(MT7986, INITIAL_CONF, SZ_512, oob) == Reject(INITIAL_CONF)
  {
    ChipsAreValid();
    SetupPagefmtAsWrittenTraps(MT7986, INITIAL_CONF, SZ_512, oob);
  }

  /** The format probe sets up before any chip is known, 2 KiB pages with
      64 bytes of OOB: four 512-byte sectors with 16 spare bytes on mt7622,
      two 1024-byte sectors with 32 (twice 16) on mt7986. */
  lemma ProbeFormatMt7622()
    ensures SetupPagefmt(MT7622, INITIAL_CONF, SZ_2K, SZ_64).cfg == Conf(SZ_2K, SZ_64, 4, 16)
  {
    ChipsAreValid();
    var c := MT7622;
    assert SectorCount(c, SZ_2K) == 4;
    assert SpareTarget(c, SZ_64, 4) == 16;
    assert forall j :: 1 <= j < |c.spareSizes| ==> c.spareSizes[j] > 16;
    assert SelectSpare(c.spareSizes, 16) == Some(0);
    assert StoredSpare(c, 0) == 16;
    assert SetupPagefmtAsWritten(c, INITIAL_CONF, SZ_2K, SZ_64).Some?;
  }

  lemma ProbeFormatMt7986()
    ensures SetupPagefmt(MT7986, INITIAL_CONF, SZ_2K, SZ_64).cfg == Conf(SZ_2K, SZ_64, 2, 32)
  {
    ChipsAreValid();
    var c := MT7986;
    assert SectorCount(c, SZ_2K) == 2;
    assert SpareTarget(c, SZ_64, 2) == 16;
    assert forall j :: 1 <= j < |c.spareSizes| ==> c.spareSizes[j] > 16;
    assert c.spareSizes[0] <= 16;
    var sel := SelectSpare(c.spareSizes, 16);
    assert sel.Some? && sel.value == 0;
    assert StoredSpare(c, 0) == 32;
    assert SetupPagefmtAsWritten(c, INITIAL_CONF, SZ_2K, SZ_64) == Some(Setup(0, Conf(SZ_2K, SZ_64, 2, 32), Some(PagefmtWord(c, 0, 0))));
  }

  // ---------------------------------------------------------------------
  // OOB layout

  /** struct mtd_oob_region. */
  datatype OobRegion = OobRegion(offset: u32, length: u32)

  /** mtk_snand_ooblayout_free; None stands for -ERANGE. */
  function OoblayoutFree(c: Caps, cfg: Conf, section: nat): (r: Option<OobRegion>)
    requires ValidCaps(c) && ValidConf(c, cfg)
    ensures r.None? <==> section >= cfg.nsectors
    ensures r.Some? ==> r.value.length == c.fdmSize - 1
                        && r.value.offset == section * c.fdmSize + 1
  {
    if section >= cfg.nsectors then None
    else
      assert section * c.fdmSize <= 255 * 8 by {
        MulMono(section, c.fdmSize, 8);
        MulMono(8, section, 255);
      }
      Some(OobRegion(section * c.fdmSize + 1, c.fdmSize - 1))
  }

  predicate InRegion(r: OobRegion, p: nat)
  {
    r.offset <= p < r.offset + r.length
  }

  /** A byte of the FDM area is free exactly when it is not the first FDM
      byte of its sector (that byte holds the bad-block mark); the free
      regions cover nothing beyond the nsectors FDMs. */
  lemma FreeBytes(c: Caps, cfg: Conf, p: nat)
    requires ValidCaps(c) && ValidConf(c, cfg)
    ensures (exists s :: 0 <= s < cfg.nsectors && InRegion(OoblayoutFree(c, cfg, s).value, p))
            <==> p < cfg.nsectors * c.fdmSize && p % c.fdmSize != 0
  {
    var f := c.fdmSize;
    var n: nat := cfg.nsectors;
    forall s | 0 <= s < n
      ensures InRegion(OoblayoutFree(c, cfg, s).value, p) <==> FreeInSector(f, s, p)
    {
    }
    FreeIff(f, n, p);
  }

  /** Byte `p` lies in the free part of the FDM of sector `s`. */
  predicate FreeInSector(f: nat, s: nat, p: nat)
  {
    s * f + 1 <= p < s * f + f
  }

  lemma FreeIff(f: nat, n: nat, p: nat)
    requires f >= 1
    ensures (exists s :: 0 <= s < n && FreeInSector(f, s, p)) <==> p < n * f && p % f != 0
  {
    if p < n * f && p % f != 0 {
      FreeForward(f, n, p);
      assert FreeInSector(f, p / f, p);
    }
    if s :| 0 <= s < n && FreeInSector(f, s, p) {
      FreeBackward(f, n, s, p);
    }
  }

  lemma FreeForward(f: nat, n: nat, p: nat)
    requires f >= 1 && p < n * f && p % f != 0
    ensures p / f < n && (p / f) * f + 1 <= p < (p / f) * f + f
  {
    DivBelow(p, f, n);
  }

  lemma FreeBackward(f: nat, n: nat, s: nat, p: nat)
    requires f >= 1 && s < n && s * f + 1 <= p < s * f + f
    ensures p < n * f && p % f != 0
  {
    FreeByteOfSector(f, s, p);
    MulMonoInt(f, s + 1, n);
    assert (s + 1) * f == s * f + f;
  }

  /** Free regions of different sections do not overlap. */
  lemma FreeRegionsDisjoint(c: Caps, cfg: Conf, s1: nat, s2: nat, p: nat)
    requires ValidCaps(c) && ValidConf(c, cfg)
    requires s1 < cfg.nsectors && s2 < cfg.nsectors
    requires InRegion(OoblayoutFree(c, cfg, s1).value, p) && InRegion(OoblayoutFree(c, cfg, s2).value, p)
    ensures s1 == s2
  {
    FreeByteOfSector(c.fdmSize, s1, p);
    FreeByteOfSector(c.fdmSize, s2, p);
  }

  lemma FreeByteOfSector(f: nat, s: nat, p: nat)
    requires f >= 1 && s * f + 1 <= p < s * f + f
    ensures p / f == s && p % f != 0
  {
    DivModUnique(p, f, s, p - s * f);
  }
}
