# objtool diagnostics and the MediaTek SPI-NAND flash interface, in Dafny

This project models two independent pieces of the Linux source tree and
proves properties of the models.

**objtool's diagnostic helpers** (`tools/objtool/include/objtool/warn.h`):
- `offstr` turns a (section, offset) pair into a location string.
  - In an executable section it first asks for the function containing the offset, then for any containing symbol.
  - It writes `sym+0x<diff>` or `sec+0x<offset>` in `%lx` hex, with an optional ` (sec+0x<offset>)` suffix under `--sec-address`.
  - It sizes its `malloc` buffer from the name lengths.
- `WARN` formats `objname: error|warning: objtool: msg` lines. `WARN_FUNC` and `WARN_ELF` are built on top of it.
- `WARN_INSN` limits each symbol to `WARN_LIMIT` (2) warnings followed by a single "skipping duplicate warning(s)" notice.
- `BT_INSN` prints an indented trace line only in verbose or backtrace mode.

The symbol lookups are function-valued fields of a symbol table. The per-symbol counters are a map from symbol identity to count. Standard error is a sequence of lines.

**The SNFI driver's logic** (`drivers/spi/spi-mtk-snfi.c`), everything in it that is not hardware sequencing:
- which spi-mem ops run as page-cache ops (`mtk_snand_is_page_ops`);
- what the controller supports (`mtk_snand_supports_op`);
- how op sizes are clamped (`mtk_snand_adjust_op_size`);
- the dispatch of `mtk_snand_exec_op`;
- the page-format computation (`mtk_snand_setup_pagefmt`), including the NFI_PAGEFMT word;
- the free OOB regions (`mtk_snand_ooblayout_free`);
- the bad-block-mark swaps (`mtk_snand_bm_swap`, `mtk_snand_fdm_bm_swap`);
- the FDM register packing (`mtk_snand_write_fdm`, `mtk_snand_read_fdm`);
- the GPRAM byte packing of `mtk_snand_mac_io` and its reader `nfi_read_data`;
- the plane/column split of a page-op address;
- the auto-format flag set and cleared by the ECC engine's `prepare_io_req`/`finish_io_req`;
- the bounce-buffer logic of `mtk_snand_read_page_cache` and `mtk_snand_write_page_cache`.

The register file is a map from byte offset to 32-bit word, and buffers are byte sequences. The main theorem, `SnfiRoundTrip.WriteThenRead`, covers a page written with auto-format on and read back with auto-format on. Every byte the read returns from a column inside the sector data or the FDM bytes is the byte written there. This holds for a read of any length from any column, on both the direct-DMA path and the bounce-buffer path. A read that stays inside them returns exactly the written bytes. It takes the flash to return what the controller wrote.

Modules:
- `Wrappers`: Option, Min, Repeat.
- `Arith`: division and multiplication facts.
- `BigEndian`: the MAC path's opcode and address bytes.
- `Hex`: `%lx`.
- `ObjtoolWarn`.
- `SnfiTypes`: capabilities, page format, registers, byte lanes.
- `SnfiPagefmt`.
- `SnfiOps`.
- `SnfiFdm`.
- `SnfiGpram`.
- `SnfiPageCache`.
- `SnfiRoundTrip`.

Integer widths are explicit:
- `u8`, `u32` and `u64` are subset types.
- The `u8` sector count and spare size are truncated with `% 256`.
- `offset - sym->offset` wraps modulo 2^64.
- The 32-bit `op_addr` is taken modulo 2^32.
- Masks of the form `(1 << k) - 1` are modelled as `% 2^k`, and `i & ~3` as `i - i % 4`.

## Model

| member | source | states |
|---|---|---|
| ObjtoolWarn.Sub64 | tools/objtool/include/objtool/warn.h:33 | The `%lx` operand `offset - sym->offset` is the plain difference when the symbol starts at or before the offset, and the difference plus 2^64 when it starts after it. |
| ObjtoolWarn.LookupSymbol | tools/objtool/include/objtool/warn.h:21-29 | A symbol is found only as the function lookup's hit in an executable section, or else as the any-symbol lookup's hit. No symbol means the any-symbol lookup missed. |
| ObjtoolWarn.OffstrWithSymbol | tools/objtool/include/objtool/warn.h:31-35 | With a symbol, the string starts with `name+0x`, and its digits read back as the 64-bit distance from the symbol's start. With `sec_address`, ` (sec+0x<offset>)` follows the distance's digits directly and ends the string. Without it, nothing follows the distance. |
| ObjtoolWarn.OffstrAtSymbolStart | tools/objtool/include/objtool/warn.h:33 | An offset at the symbol's own start reads `name+0x0`. |
| ObjtoolWarn.OffstrWithoutSymbol | tools/objtool/include/objtool/warn.h:36-38 | With no symbol the string is exactly `sec+0x<offset>`, and `sec_address` makes no difference. |
| ObjtoolWarn.OffstrNonTextIgnoresFuncLookup | tools/objtool/include/objtool/warn.h:21-29 | Outside executable sections the function lookup is never consulted. Two symbol tables that agree on the any-symbol lookup give the same string. |
| ObjtoolWarn.OffstrTextPrefersFunc | tools/objtool/include/objtool/warn.h:26-29 | In an executable section a function hit is the symbol used, whatever the any-symbol lookup would say. |
| ObjtoolWarn.FallbackBufferFits | tools/objtool/include/objtool/warn.h:37-38 | The section-only string plus its NUL always fits `strlen(sec) + 20`, for every 64-bit offset. |
| ObjtoolWarn.SymbolBufferAsWrittenFits | tools/objtool/include/objtool/warn.h:32-35 | The `+40` margin suffices without `sec_address`. With it, the margin suffices when the symbol starts at or before the offset and the offset is below 2^60. |
| ObjtoolWarn.SymbolBufferAsWrittenOverflows | tools/objtool/include/objtool/warn.h:32-35 | With `sec_address`, a symbol at 0 and the offset 2^64-1 need two bytes more than the `+40` buffer. |
| ObjtoolWarn.SymbolBufferFits | tools/objtool/include/objtool/warn.h:32-35 | A `+42` buffer fits every string with a symbol, with or without `sec_address`. |
| ObjtoolWarn.WarnLineRoundTrip | tools/objtool/include/objtool/warn.h:44-49 | A WARN line parses back, under its object name, as its severity (error exactly under `--werror`) and its message. |
| ObjtoolWarn.SeverityIsOnlyDifference | tools/objtool/include/objtool/warn.h:48 | The same message under `--werror` and without it reads back as an error and as a warning, with the same text. |
| ObjtoolWarn.Emit | tools/objtool/include/objtool/warn.h:45-49 | Writing to stderr appends one line and leaves every counter alone. |
| ObjtoolWarn.WarnFuncReadsBack | tools/objtool/include/objtool/warn.h:51-56 | WARN_FUNC appends exactly one line, keeps the earlier lines and the counters, and the line reads back as `offstr(sec, offset): msg`. |
| ObjtoolWarn.WarnElfReadsBack | tools/objtool/include/objtool/warn.h:86-87 | WARN_ELF appends exactly one line, which reads back as the message, `: ` and the ELF library's error text. |
| ObjtoolWarn.Bump | tools/objtool/include/objtool/warn.h:68 | `warnings++` raises this symbol's counter by one and no other counter. |
| ObjtoolWarn.WarnInsn | tools/objtool/include/objtool/warn.h:60-74 | No symbol: the warning is emitted and no counter moves. Below the limit: the warning is emitted and the counter rises. At the limit: only the skip notice, and the counter rises. Above it: nothing changes. Other symbols' counters never move. |
| ObjtoolWarn.WarnInsnRepeated | tools/objtool/include/objtool/warn.h:58-74 | From a zero counter, n calls write min(n, 2) warnings, then one notice exactly when n > 2. The counter ends at min(n, 3) and no other counter moves. |
| ObjtoolWarn.WarnLimitBuild | tools/objtool/include/objtool/warn.h:58-63 | The configured WARN_LIMIT passes the compile-time check that it is at most 2. |
| ObjtoolWarn.WarnInsnCounterBounded | tools/objtool/include/objtool/warn.h:58-74 | From zero, the counter never exceeds WARN_LIMIT + 1. By the compile-time check at line 63 that is at most 3. Once past the limit, a further call changes nothing. |
| ObjtoolWarn.WarnInsnMonotone | tools/objtool/include/objtool/warn.h:60-74 | One call never lowers a counter, keeps the earlier output, and adds at most one line. |
| ObjtoolWarn.WarnInsnWithoutSymbol | tools/objtool/include/objtool/warn.h:64-68 | For an instruction without a symbol, n calls write n identical warnings and change no counter. |
| ObjtoolWarn.WarnInsnFiveTimes | tools/objtool/include/objtool/warn.h:58-74 | Five calls for one fresh symbol write two warnings and one notice. |
| ObjtoolWarn.BtInsn | tools/objtool/include/objtool/warn.h:76-84 | BT_INSN never touches the counters, and outside verbose and backtrace mode it writes nothing. |
| ObjtoolWarn.BtInsnEnabled | tools/objtool/include/objtool/warn.h:78-82 | In verbose or backtrace mode it appends exactly one line, which reads back as two spaces, the location, `: ` and the message. |
| ObjtoolWarn.BtInsnDisabledIgnoresSymbols | tools/objtool/include/objtool/warn.h:76-84 | When disabled, the result does not depend on the symbol table at all: `offstr` is not called. |
| Hex.Render | tools/objtool/include/objtool/warn.h:33 | `%lx` writes at least one lower-case hex digit and no leading zero. |
| Hex.ValueOfRender | tools/objtool/include/objtool/warn.h:33 | The digits `%lx` writes read back as the number. |
| Hex.RenderInjective | tools/objtool/include/objtool/warn.h:33 | Different numbers render differently. |
| Hex.RenderLength64 | tools/objtool/include/objtool/warn.h:32-38 | A 64-bit value takes at most 16 digits, and exactly 16 from 2^60 on. |
| Hex.RenderLength60 | tools/objtool/include/objtool/warn.h:32-35 | A value below 2^60 takes at most 15 digits. |
| BigEndian.BeBytesValue | drivers/spi/spi-mtk-snfi.c:479-495 | The n opcode or address bytes sent, most significant first, read back as the value modulo 256^n. |
| SnfiTypes.ChipsAreValid | drivers/spi/spi-mtk-snfi.c:229-292 | The mt7622, mt7629 and mt7986 capability tables meet what the driver relies on. This includes FDM bytes that every spare size holds, and spare indices that fit the NFI_PAGEFMT field. |
| SnfiTypes.OrByte | drivers/spi/spi-mtk-snfi.c:481 | ORing a byte into its lane of a word whose lane is still zero puts that byte there and keeps the other three lanes. |
| SnfiOps.IsPageOps | drivers/spi/spi-mtk-snfi.c:1200-1240 | An op is a page op exactly when it is one of two templates. Read From Cache: 2-byte address, at most 15 dummy clocks, and (address, data) lanes among (1,1), (1,2), (2,2), (1,4), (4,4). Program Load: single-lane 2-byte address, no dummy bytes, and one or four data lanes. |
| SnfiOps.IsPageOpsAsWrittenTraps | drivers/spi/spi-mtk-snfi.c:1210-1214 | As written, the classification divides by zero exactly for a data-in op with a 2-byte address on 1, 2 or 4 lanes and a dummy bus width of zero. Everywhere else it agrees with `IsPageOps`. |
| SnfiOps.NoDummyReadTraps | drivers/spi/spi-mtk-snfi.c:1212-1214 | A single-lane Read From Cache with no dummy phase traps as written and is a page op once corrected. |
| SnfiOps.PageOpsMoveData | drivers/spi/spi-mtk-snfi.c:1200-1240 | Page ops always have a data phase, and the data length plays no part in the classification. |
| SnfiOps.SupportsOp | drivers/spi/spi-mtk-snfi.c:1242-1254 | An op is supported exactly when the core accepts it, its opcode is one byte on one lane, and it is a page op or uses one lane in every phase it has. |
| SnfiOps.MultiLaneNeedsPageOp | drivers/spi/spi-mtk-snfi.c:1249-1253 | A supported op that uses more than one lane somewhere matches a page-op template. |
| SnfiOps.AdjustOpSize | drivers/spi/spi-mtk-snfi.c:1256-1281 | Only the data length changes, and it never grows. A page op under auto-format is untouched; without it, the length is clamped to (sector + spare) times the sector count. A MAC op is refused with -EOPNOTSUPP exactly when its header reaches 160 bytes, and otherwise its length is clamped to what the GPRAM has left. |
| SnfiOps.AdjustOpSizeIdempotent | drivers/spi/spi-mtk-snfi.c:1256-1281 | Adjusting an adjusted op changes nothing. |
| SnfiOps.AdjustedMacOpFitsGpram | drivers/spi/spi-mtk-snfi.c:1272-1279 | An adjusted MAC op's header and data together fit the 160-byte GPRAM. |
| SnfiOps.ExecRoute | drivers/spi/spi-mtk-snfi.c:1283-1295 | Read From Cache ops go to the page-read engine, Program Load ops to the page-write engine, and every other op through the GPRAM. Each is an if-and-only-if. |
| SnfiPagefmt.PageSizeIndexNamesPage | drivers/spi/spi-mtk-snfi.c:562-590 | The switch accepts exactly 512, 2K, 4K, 8K and 16K pages. For a page of one to eight sectors, the index chosen is the NFI_PAGE_SIZE field named after that page size for the controller's sector size. |
| SnfiPagefmt.SelectSpare | drivers/spi/spi-mtk-snfi.c:598-606 | A spare size is found exactly when some table entry fits the budget. The one found is the highest-index entry that fits. |
| SnfiPagefmt.Mt7986SpareSelection | drivers/spi/spi-mtk-snfi.c:598-606 | Because the mt7986 table (line 232) holds 62 before 61, a budget of 62 selects 61, and the entry 62 is never selected. |
| SnfiPagefmt.PagefmtWordFields | drivers/spi/spi-mtk-snfi.c:613-618 | The NFI_PAGEFMT fields do not overlap: each of FDM ECC count, FDM count, spare index, page-size index and the 512-byte-sector bit reads back from the word. |
| SnfiPagefmt.SetupPagefmt | drivers/spi/spi-mtk-snfi.c:534-632 | See the list after the table. |
| SnfiPagefmt.SectorCountExact | drivers/spi/spi-mtk-snfi.c:548 | For the listed page sizes the u8 sector count loses nothing: it is the page divided by the sector size, at most 32, and whole sectors fill the page. |
| SnfiPagefmt.SpareFits | drivers/spi/spi-mtk-snfi.c:592-606 | The stored spare size is the entry scaled back (doubled for 1024-byte sectors). The sectors' spare areas, and so their FDM bytes, fit in the OOB. |
| SnfiPagefmt.SetupPagefmtAsWrittenTraps | drivers/spi/spi-mtk-snfi.c:548-592 | As written, setup divides by zero exactly when a new format with a 512-byte page is asked of a controller with 1024-byte sectors. Everywhere else it agrees with `SetupPagefmt`. |
| SnfiPagefmt.Mt7986HalfKPage | drivers/spi/spi-mtk-snfi.c:548-592 | On mt7986 a 512-byte page traps as written and is rejected, state untouched, once corrected. |
| SnfiPagefmt.ProbeFormatMt7622 | drivers/spi/spi-mtk-snfi.c:1429 | The probe's 2 KiB + 64 format on mt7622 is four sectors with 16 spare bytes. |
| SnfiPagefmt.ProbeFormatMt7986 | drivers/spi/spi-mtk-snfi.c:1429 | The same format on mt7986 is two sectors with 32 spare bytes (twice the table's 16). |
| SnfiPagefmt.OoblayoutFree | drivers/spi/spi-mtk-snfi.c:641-653 | A section past the sector count gives -ERANGE. Any other section gives `fdm_size - 1` bytes starting one byte into its FDM. |
| SnfiPagefmt.FreeBytes | drivers/spi/spi-mtk-snfi.c:641-653 | A byte lies in some free region exactly when it is inside the sectors' FDM bytes and is not the first FDM byte of its sector, which holds the bad-block mark. |
| SnfiPagefmt.FreeRegionsDisjoint | drivers/spi/spi-mtk-snfi.c:641-653 | Free regions of different sections do not overlap. |
| SnfiFdm.WriteFdm | drivers/spi/spi-mtk-snfi.c:803-828 | write_fdm changes no register but the FDML/FDMM pair of each sector of the page. |
| SnfiFdm.WriteFdmPlacesBytes | drivers/spi/spi-mtk-snfi.c:810-824 | FDM byte j of sector i lands in lane j mod 4 of FDML(i) for j < 4, or of FDMM(i) otherwise. Bytes past `fdm_size` are 0xff. |
| SnfiFdm.WriteFdmSectors | drivers/spi/spi-mtk-snfi.c:810-827 | After k iterations the registers of the first k sectors hold their two words, and no other register has changed. |
| SnfiFdm.ReadFdmSectors | drivers/spi/spi-mtk-snfi.c:792-800 | read_fdm's output has `fdm_size` bytes per sector. Byte p is lane (p mod fdm) mod 4 of the FDML or FDMM register of sector p div fdm. |
| SnfiFdm.ReadWriteFdm | drivers/spi/spi-mtk-snfi.c:786-828 | read_fdm after write_fdm returns the `nsectors * fdm_size` FDM bytes that were written. |
| SnfiFdm.ReadWriteFdmAt | drivers/spi/spi-mtk-snfi.c:786-828 | The same, byte by byte. |
| SnfiFdm.SwapPositions | drivers/spi/spi-mtk-snfi.c:839-842 | The positions both swaps use lie in the bounce buffer, and the FDM ones lie past the sector data. When more than one sector is in use, all three are distinct. |
| SnfiFdm.FdmBmSwap | drivers/spi/spi-mtk-snfi.c:847-859 | fdm_bm_swap does nothing without `bbm_swap` or with a single sector. |
| SnfiFdm.BmSwap | drivers/spi/spi-mtk-snfi.c:830-845 | bm_swap does nothing without `bbm_swap` or with a single sector. |
| SnfiFdm.BmSwapSplit | drivers/spi/spi-mtk-snfi.c:830-845 | bm_swap on the caller's buffer and the bounce buffer keeps both lengths, and does nothing when the BBM does not move. |
| SnfiFdm.FdmBmSwapEffect | drivers/spi/spi-mtk-snfi.c:847-859 | When the BBM moves, fdm_bm_swap exchanges the first FDM bytes of the first and the last sector, and nothing else. |
| SnfiFdm.BmSwapEffect | drivers/spi/spi-mtk-snfi.c:830-845 | When the BBM moves, bm_swap exchanges the last sector's first FDM byte with the NAND's [pagesize] byte, and nothing else. |
| SnfiFdm.SwapsAreInvolutions | drivers/spi/spi-mtk-snfi.c:830-859 | Each swap applied twice restores the buffer. |
| SnfiFdm.SplitSwapIsInvolution | drivers/spi/spi-mtk-snfi.c:830-845 | The two-buffer bm_swap applied twice restores both buffers. |
| SnfiFdm.ReadOrderUndoesWriteOrder | drivers/spi/spi-mtk-snfi.c:1000-1003 | The read path's bm_swap then fdm_bm_swap undoes the write path's fdm_bm_swap then bm_swap (lines 1094-1097). |
| SnfiFdm.WriteSwapsPlaceKernelBbm | drivers/spi/spi-mtk-snfi.c:837-844 | After the write-path swaps, the kernel's bad-block mark (the first OOB byte) sits at the NAND's [pagesize] byte. The byte that was there is kept in the last sector's first FDM byte. |
| SnfiFdm.ReadSwappedUndoes | drivers/spi/spi-mtk-snfi.c:1093-1097 | The read-side swap sequence restores any buffer the write side swapped. |
| SnfiFdm.ReadSwappedFrame | drivers/spi/spi-mtk-snfi.c:830-859 | The read-path swaps on the bounce buffer change no byte except the NAND's [pagesize] byte and the first FDM bytes of the first and last sectors. |
| SnfiFdm.SplitSwapFrame | drivers/spi/spi-mtk-snfi.c:830-859 | On the direct path, the swaps change the bounce buffer only at the two FDM mark bytes, never in its sector area. They change the caller's buffer only at the NAND's [pagesize] byte. |
| SnfiGpram.SkipIsPushZero | drivers/spi/spi-mtk-snfi.c:497-502 | A dummy-loop iteration is a data-loop iteration with a zero byte. |
| SnfiGpram.PushKeepsPacked | drivers/spi/spi-mtk-snfi.c:479-512 | One iteration of any packing loop keeps the invariant that complete words hold their bytes in the GPRAM, the pending word holds the current word's bytes with zeros above, and nothing else is written. |
| SnfiGpram.FlushComplete | drivers/spi/spi-mtk-snfi.c:514-515 | After the flush of a partial last word, every stream byte is at its GPRAM position. The rest of the last word is zero, and no register outside the written words has changed. |
| SnfiGpram.PackCmd | drivers/spi/spi-mtk-snfi.c:479-486 | The opcode loop keeps the packing invariant and advances `reg_offs` by the opcode length. |
| SnfiGpram.PackAddr | drivers/spi/spi-mtk-snfi.c:488-495 | The address loop keeps the packing invariant and advances `reg_offs` by the address length. |
| SnfiGpram.PackDummy | drivers/spi/spi-mtk-snfi.c:497-502 | The dummy loop keeps the packing invariant and advances `reg_offs` to the header length. |
| SnfiGpram.PackData | drivers/spi/spi-mtk-snfi.c:504-512 | The data-out loop keeps the packing invariant and advances `reg_offs` to the whole stream length. |
| SnfiGpram.MacIoPack | drivers/spi/spi-mtk-snfi.c:479-515 | After packing, `reg_offs` is the stream length. GPRAM byte p is byte p of opcode (big-endian), address (big-endian), zero dummy bytes and tx data. The tail of the last word is zero, and no other register changes. |
| SnfiGpram.ReadData | drivers/spi/spi-mtk-snfi.c:366-376 | nfi_read_data returns `len` bytes; byte k is lane (reg+k) mod 4 of the word at the word boundary below reg+k. |
| SnfiGpram.PackThenRead | drivers/spi/spi-mtk-snfi.c:366-376 | Reading the GPRAM from its start right after packing returns exactly the op's byte stream. |
| SnfiGpram.MacIo | drivers/spi/spi-mtk-snfi.c:460-532 | For an op whose header and data fit the 0xa0-byte GPRAM, mac_io hands the trigger the stream length and, for data-in ops, the data length. The GPRAM then holds the stream, and the received bytes are the GPRAM bytes right after it. mac_io itself does not check the fit; its callers pass ops that adjust_op_size accepted. |
| SnfiGpram.AdjustedOpsFitMacIo | drivers/spi/spi-mtk-snfi.c:1272-1279 | Every MAC op that passed adjust_op_size meets what mac_io needs. |
| SnfiPageCache.Fls | drivers/spi/spi-mtk-snfi.c:890 | `fls(x)` is the bit length of x: 2^fls(x) is the least power of two above x. |
| SnfiPageCache.SplitBy | drivers/spi/spi-mtk-snfi.c:892-893 | The column and row parts add up to the address. The column is below the mask, and the row is a multiple of the mask plus one. |
| SnfiPageCache.PlaneSplit | drivers/spi/spi-mtk-snfi.c:890-893 | The same for the 32-bit `op_addr` with the mask `(1 << fls(page + oob)) - 1`. |
| SnfiPageCache.SplitMaskTight | drivers/spi/spi-mtk-snfi.c:890-891 | The mask covers every column of page and OOB, and at most twice as many columns. So 2^fls(page+oob) is the least power of two strictly above page+oob. |
| SnfiPageCache.SplitColumnAndPlane | drivers/spi/spi-mtk-snfi.c:885-893 | A column inside page and OOB, with plane bits above the mask, splits back into exactly that column and those bits. |
| SnfiPageCache.PrepareIoReq | drivers/spi/spi-mtk-snfi.c:746-760 | On success prepare_io_req leaves auto-format on and a page format that matches the chip's geometry. On failure it returns -EOPNOTSUPP with the state untouched. It keeps the engine invariant that a set-up format is valid and the bounce buffer holds page and OOB. |
| SnfiPageCache.FinishIoReq | drivers/spi/spi-mtk-snfi.c:762-777 | finish_io_req always turns auto-format off. For raw requests and writes it returns 0 with the statistics untouched. For ECC page reads it adds the failure and correction counts, and returns -EBADMSG exactly when a sector failed, otherwise the bit-flip count. |
| SnfiPageCache.PageOpsBetweenPrepareAndFinish | drivers/spi/spi-mtk-snfi.c:746-777 | Between a successful prepare and the finish, page ops pass adjust_op_size untouched. Afterwards they are clamped to a raw page again. |
| SnfiPageCache.CapLen | drivers/spi/spi-mtk-snfi.c:1089-1091 | A copy moves the request when it fits in what the buffer has left from the offset, and what is left otherwise. |
| SnfiPageCache.WriteBounce | drivers/spi/spi-mtk-snfi.c:1086-1092 | The bounce buffer after the fill: 0xff below the column, then the caller's bytes as far as the buffer reaches, then what was there before. |
| SnfiPageCache.SwapAndLoadFdm | drivers/spi/spi-mtk-snfi.c:1093-1099 | After the swaps and write_fdm, the FDM registers read back as the swapped buffer's FDM bytes, and no other register changes. |
| SnfiPageCache.WritePage | drivers/spi/spi-mtk-snfi.c:1054-1099 | The address sent is the row part under auto-format and the 32-bit address otherwise. Without auto-format no register is touched; with it, only the FDM registers. |
| SnfiPageCache.CopyBack | drivers/spi/spi-mtk-snfi.c:1006-1028 | An empty page reads as all 0xff. After a direct DMA only the bytes past the sector data come from the bounce buffer, as far as it reaches. Otherwise the bytes from the column on are copied as far as the bounce buffer reaches, and nothing when the column is past its end. |
| SnfiPageCache.ReadPage | drivers/spi/spi-mtk-snfi.c:861-1028 | It states the effect on the caller's buffer and on the driver's bounce buffer, which the next page write builds on. An empty page reads as all 0xff. A raw read puts the page in the bounce buffer and copies it out from 0. Under auto-format, the FDM registers' bytes land after the sector data, except where a mark was swapped, and nothing past them changes. The direct path leaves the bounce buffer's sector area alone. Its caller gets the DMA'd sector data and then the bounce buffer's bytes. The bounce path puts the sector data into the bounce buffer and copies out from the column, as far as the buffer reaches. |
| SnfiPageCache.ReadDirect | drivers/spi/spi-mtk-snfi.c:895-1020 | The direct path's effect on both buffers, as stated for ReadPage. |
| SnfiPageCache.ReadThroughBounce | drivers/spi/spi-mtk-snfi.c:998-1028 | The bounce path's effect on both buffers, as stated for ReadPage. |
| SnfiRoundTrip.ReadPagePaths | drivers/spi/spi-mtk-snfi.c:895-897 | Under auto-format the read DMAs straight into the caller's buffer exactly when it starts at column 0 and asks for at least a page. |
| SnfiRoundTrip.SplitSwapIsCombinedSwap | drivers/spi/spi-mtk-snfi.c:1000-1003 | bm_swap across the caller's buffer and the bounce buffer is the single-buffer swap on their combination (sector data from one, FDM bytes from the other). |
| SnfiRoundTrip.WritePageFromStart | drivers/spi/spi-mtk-snfi.c:1086-1099 | A write from column 0 leaves the write-swapped fill of the caller's bytes. Its FDM registers hold that buffer's FDM bytes. |
| SnfiRoundTrip.BounceReadRecovers | drivers/spi/spi-mtk-snfi.c:998-1026 | A read through the bounce buffer of a page so written returns the written byte at every column read inside the sector data and FDM bytes. This holds for any column and length, including an OOB-only read. |
| SnfiRoundTrip.DirectReadRecovers | drivers/spi/spi-mtk-snfi.c:895-1020 | A direct read of a page so written, of any length from a page up, returns the written byte at every column inside the sector data and FDM bytes. |
| SnfiRoundTrip.ReadBackWritten | drivers/spi/spi-mtk-snfi.c:998-1028 | Either read path, from any column and of any length, returns what a write from column 0 left behind at every column inside the sector data and FDM bytes. A read that stays inside them returns exactly those bytes. |
| SnfiRoundTrip.WriteThenRead | drivers/spi/spi-mtk-snfi.c:861-1099 | A page is written from column 0 with auto-format on and read back with auto-format on. At every column read inside the sector data and FDM bytes, the read returns the written byte, sector data and FDM bytes alike, for reads of any length and column. A read that stays inside them returns exactly the written bytes. |

The `SnfiPagefmt.SetupPagefmt` row states the following:
- An already configured format returns 0 and changes nothing.
- Every failure is -EOPNOTSUPP with the format untouched.
- Setup succeeds exactly when the page is one of the five sizes, holds one to `max_sectors` whole sectors, and some spare entry fits the per-sector OOB budget. The budget is halved for 1024-byte sectors.
- Success records the page, the OOB and the sector count. It records the spare size of the highest-index fitting entry, scaled back. It writes the PAGEFMT word for that entry and page index.
- Success leaves a valid format.

## Left out

- MMIO reads and writes, the `read*_poll_timeout` waits, `mtk_nfi_reset`, `mtk_snand_mac_reset` and `mtk_snand_mac_trigger`: hardware sequencing with no functional content here. `SnfiGpram.MacIo` takes the register file after the transfer as a parameter and does not model trigger errors.
- The programming of SNF_RD_CTL2/3, SNF_MISC_CTL, SNF_PG_CTL1/2, NFI_CNFG, NFI_CON and the interrupt registers in the page-cache paths. This includes the `dummy_clk` computed at drivers/spi/spi-mtk-snfi.c:870.
- DMA mapping, `wait_for_completion_timeout`, and the interrupt handler: hardware and concurrency. The DMA result is a parameter of `SnfiPageCache.ReadPage`, and so is the READ_EMPTY status.
- Probe and remove, clocks, device-tree properties and the sample-delay setup: platform plumbing. Only the probe's fixed 2 KiB + 64 page format is modelled.
- ECC engine initialisation (`mtk_snand_ecc_init_ctx`), enabling and waiting: they depend on the external ECC driver. The statistics the ECC driver reports are a parameter of `SnfiPageCache.FinishIoReq`.
- The ECC statistics reset on an empty page (drivers/spi/spi-mtk-snfi.c:1009-1011): it only feeds the statistics, which are a parameter.
- `spi_mem_default_supports_op`: a call into the spi-mem core, passed to `SnfiOps.SupportsOp` as a boolean.
- The -ENOMEM from the bounce-buffer allocation in `snand_prepare_bouncebuf`: allocation is not modelled, and a grown buffer is taken to succeed.
- `fprintf`, `malloc` and `free` in warn.h: the output is a sequence of lines, and the buffer sizes are compared with the string lengths instead.
- `elf_errmsg(-1)`: a library call, passed to `ObjtoolWarn.WarnElf` as a string.
- The bodies of `find_func_containing` and `find_symbol_containing`: they live in another file and are fields of the symbol table.
- printf formatting beyond `%s` and `%lx`: the message of a WARN is taken as already formatted.
- SnfiPageCache.FinishIoReq: takes whether the request is raw and whether it is a read as two flags instead of the `nand_page_io_req` fields.
- SnfiGpram.ReadData: requires `reg + len` below 2^32. The u32 loop bound of nfi_read_data would wrap beyond that, and mac_io never comes near it.
- SnfiGpram.MacIoPack: opcode and address bytes are taken mathematically, as `(v / 256^k) % 256`. A shift wider than the C operand type is not modelled.
- SnfiPageCache.PlaneSplit: requires page plus OOB below 2^31, so that `1 << fls(...)` fits the 32-bit shift. Every supported format is far below that.
- SnfiPageCache.WritePage: requires the column to lie inside the bounce buffer. The source has no such guard: a larger `wr_offset` would overrun the `memset` and make `buf_len - wr_offset` wrap.
- SnfiRoundTrip.WriteThenRead: the flash is taken to return, on the read, the sector data of the written bounce buffer and the FDM registers as written. ECC correction of the data is not modelled. The theorem says nothing about bytes a read returns from past the FDM bytes. Under auto-format those are the read's own bounce-buffer bytes, where the ECC parity would be, and the ECC engine is not modelled.
- SnfiPageCache.ReadPage: its own contract leaves out where the three swapped mark bytes end up. The swap lemmas of `SnfiFdm` state that, and `SnfiRoundTrip` shows the read-path swaps undo the write-path ones.
- SnfiGpram.MacIo: requires the op's header and data to fit the 0xa0-byte GPRAM. mac_io has no such check and would pack an oversized op past the GPRAM. Its callers only pass ops that adjust_op_size accepted, and `SnfiGpram.AdjustedOpsFitMacIo` shows those fit.

## Findings

| source | as written | input that shows it | evidently intended | confidence | as-written member | corrected member |
|---|---|---|---|---|---|---|
| drivers/spi/spi-mtk-snfi.c:548-592 | `nsectors = page_size / sector_size` may be 0. It passes the `> max_sectors` check, and the 512-byte page is accepted by the switch. Then `oob_size / nsectors` divides by zero. | mt7986 caps (1024-byte sectors), a new format with `page_size = 512` and any `oob_size` | A page too small for one sector is rejected with -EOPNOTSUPP like any other unsupported format | medium, not executed | SnfiPagefmt.SetupPagefmtAsWrittenTraps | SnfiPagefmt.SetupPagefmt |
| tools/objtool/include/objtool/warn.h:32-35 | With `sec_address`, the string needs `strlen(name) + strlen(sec) + 42` bytes with its NUL when both hex numbers take 16 digits, but only `+40` are allocated | a symbol at offset 0 containing offset 0xffffffffffffffff, with `--sec-address` | The buffer holds the whole string | low, not executed | ObjtoolWarn.SymbolBufferAsWrittenOverflows | ObjtoolWarn.SymbolBufferFits |
| drivers/spi/spi-mtk-snfi.c:1210-1214 | For a data-in op the dummy cycle count divides by `dummy.buswidth`, which is 0 for an op without a dummy phase. The same division recurs at line 870. | `Op(cmd 0x03 on one lane, 2-byte address on one lane, no dummy phase (0 bytes, bus width 0), 16 bytes in on one lane)` | An op without a dummy phase has zero dummy clocks | low, not executed | SnfiOps.IsPageOpsAsWrittenTraps | SnfiOps.IsPageOps |
