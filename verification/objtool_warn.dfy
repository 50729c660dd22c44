/** objtool's diagnostic helpers: turning a (section, offset) coordinate
    into a location string, formatting warning/error lines, and limiting
    repeated warnings per symbol.

    The symbol table's containment lookups are left abstract (they are
    fields of `SymbolTable`), the diagnostic stream is the list of lines
    written so far, and the per-symbol `warnings` counters are a map from
    symbol identity to count. */
module ObjtoolWarn {
  import opened Wrappers
  import Hex

  const U64_LIMIT: int := 0x1_0000_0000_0000_0000
  type u64 = x: int | 0 <= x < 0x1_0000_0000_0000_0000

  /** ELF section flag marking executable code. */
  const SHF_EXECINSTR: bv64 := 0x4

  datatype Section = Section(name: string, flags: bv64)

  /** A symbol; `id` stands for the symbol's identity (its address in the
      C program), which keys the warning counter. */
  datatype Symbol = Symbol(id: nat, name: string, offset: u64)

  datatype Instruction = Instruction(sec: Section, offset: u64, sym: Option<Symbol>)

  /** find_func_containing and find_symbol_containing. */
  datatype SymbolTable = SymbolTable(
    funcContaining: (Section, u64) -> Option<Symbol>,
    symbolContaining: (Section, u64) -> Option<Symbol>)

  datatype Options = Options(werror: bool, secAddress: bool, verbose: bool, backtrace: bool)

  /** Everything a diagnostic reads but never changes. */
  datatype Env = Env(objname: string, opts: Options, symtab: SymbolTable)

  /** Everything a diagnostic changes: the per-symbol counters and the
      lines written to standard error. */
  datatype Diag = Diag(warnings: map<nat, nat>, out: seq<string>)

  predicate IsText(sec: Section)
  {
    sec.flags & SHF_EXECINSTR != 0
  }

  /** Unsigned 64-bit subtraction, wrapping modulo 2^64. */
  function Sub64(a: u64, b: u64): (r: u64)
    ensures b <= a ==> r == a - b
    ensures a < b ==> r == a - b + U64_LIMIT
  {
    (a - b) % U64_LIMIT
  }

  // ---------------------------------------------------------------------
  // Location resolver (offstr)

  /** The symbol offstr names: in an executable section the function
      lookup is tried first; on a miss, and always outside executable
      sections, the any-symbol lookup decides. */
  function LookupSymbol(symtab: SymbolTable, sec: Section, offset: u64): (r: Option<Symbol>)
    ensures r.Some? ==>
              (IsText(sec) && r == symtab.funcContaining(sec, offset))
              || r == symtab.symbolContaining(sec, offset)
    ensures r.None? ==> symtab.symbolContaining(sec, offset).None?
  {
    var f := if IsText(sec) then symtab.funcContaining(sec, offset) else None;
    if f.Some? then f else symtab.symbolContaining(sec, offset)
  }

  function SecOffset(sec: Section, offset: u64): string
  {
    sec.name + "+0x" + Hex.Render(offset)
  }

  /** offstr(sec, offset). */
  function Offstr(symtab: SymbolTable, secAddress: bool, sec: Section, offset: u64): (s: string)
  {
    match LookupSymbol(symtab, sec, offset)
    case Some(sym) =>
      var base := sym.name + "+0x" + Hex.Render(Sub64(offset, sym.offset));
      if secAddress then base + " (" + SecOffset(sec, offset) + ")" else base
    case None =>
      SecOffset(sec, offset)
  }

  /** Reads a location string back: the symbol-relative offset that
      follows `name + "+0x"`, if the string starts that way. */
  function ParseLocation(s: string, name: string): (r: Option<nat>)
    ensures r.Some? ==> name + "+0x" <= s
  {
    var head := name + "+0x";
    if head <= s then
      var digits := Hex.DigitPrefix(s[|head|..]);
      if digits == [] then None else Some(Hex.Value(digits))
    else None
  }

  lemma ParseAfterHead(head: string, n: nat, rest: string)
    requires rest == [] || !Hex.IsDigit(rest[0])
    ensures Hex.DigitPrefix((head + Hex.Render(n) + rest)[|head|..]) == Hex.Render(n)
  {
    assert (head + Hex.Render(n) + rest)[|head|..] == Hex.Render(n) + rest;
    Hex.DigitPrefixOfRender(Hex.Render(n), rest);
  }

  /** When a symbol is found, the string is the symbol's name and the
      distance from its start, which reads back; with `sec_address` the
      section-relative form follows right after the digits. */
  lemma OffstrWithSymbol(symtab: SymbolTable, secAddress: bool, sec: Section, offset: u64)
    requires LookupSymbol(symtab, sec, offset).Some?
    ensures var sym := LookupSymbol(symtab, sec, offset).value;
            var s := Offstr(symtab, secAddress, sec, offset);
            && sym.name + "+0x" <= s
            && ParseLocation(s, sym.name) == Some(Sub64(offset, sym.offset))
            && (secAddress ==> s[|s| - |SecOffset(sec, offset)| - 3..] == " (" + SecOffset(sec, offset) + ")")
            && (secAddress ==> s == sym.name + "+0x" + Hex.Render(Sub64(offset, sym.offset)) + " (" + SecOffset(sec, offset) + ")")
            && (!secAddress ==> s == sym.name + "+0x" + Hex.Render(Sub64(offset, sym.offset)))
  {
    var sym := LookupSymbol(symtab, sec, offset).value;
    var head := sym.name + "+0x";
    var diff := Hex.Render(Sub64(offset, sym.offset));
    var s := Offstr(symtab, secAddress, sec, offset);
    Hex.ValueOfRender(Sub64(offset, sym.offset));
    if secAddress {
      var tail := " (" + SecOffset(sec, offset) + ")";
      assert s == head + diff + tail;
      ParseAfterHead(head, Sub64(offset, sym.offset), tail);
    } else {
      assert s == head + diff + [];
      ParseAfterHead(head, Sub64(offset, sym.offset), []);
    }
  }

  /** An offset equal to the symbol's own offset reads as `+0x0`. */
  lemma OffstrAtSymbolStart(symtab: SymbolTable, sec: Section, offset: u64)
    requires LookupSymbol(symtab, sec, offset).Some?
    requires LookupSymbol(symtab, sec, offset).value.offset == offset
    ensures Offstr(symtab, false, sec, offset) == LookupSymbol(symtab, sec, offset).value.name + "+0x0"
  {
  }

  /** With no containing symbol the result is the section-relative form,
      whatever `sec_address` says. */
  lemma OffstrWithoutSymbol(symtab: SymbolTable, secAddress: bool, sec: Section, offset: u64)
    requires LookupSymbol(symtab, sec, offset).None?
    ensures Offstr(symtab, secAddress, sec, offset) == sec.name + "+0x" + Hex.Render(offset)
    ensures Offstr(symtab, secAddress, sec, offset) == Offstr(symtab, !secAddress, sec, offset)
  {
  }

  /** Outside executable sections the function lookup is never consulted:
      two symbol tables that agree on the any-symbol lookup give the same
      string. */
  lemma OffstrNonTextIgnoresFuncLookup(t1: SymbolTable, t2: SymbolTable, secAddress: bool, sec: Section, offset: u64)
    requires !IsText(sec)
    requires t1.symbolContaining(sec, offset) == t2.symbolContaining(sec, offset)
    ensures Offstr(t1, secAddress, sec, offset) == Offstr(t2, secAddress, sec, offset)
  {
  }

  /** In an executable section a function hit wins: the any-symbol lookup
      is then not consulted. */
  lemma OffstrTextPrefersFunc(t1: SymbolTable, t2: SymbolTable, secAddress: bool, sec: Section, offset: u64)
    requires IsText(sec)
    requires t1.funcContaining(sec, offset).Some?
    requires t1.funcContaining(sec, offset) == t2.funcContaining(sec, offset)
    ensures LookupSymbol(t1, sec, offset) == t1.funcContaining(sec, offset)
    ensures Offstr(t1, secAddress, sec, offset) == Offstr(t2, secAddress, sec, offset)
  {
  }

  // ---------------------------------------------------------------------
  // Buffer sizes of offstr's two malloc calls. A string of length n needs
  // n + 1 bytes including the terminating NUL.

  /** malloc(strlen(sec->name) + 20), the no-symbol case. */
  function FallbackBufferSize(sec: Section): nat
  {
    |sec.name| + 20
  }

  /** malloc(strlen(sym->name) + strlen(sec->name) + 40), as written. */
  function SymbolBufferSizeAsWritten(sym: Symbol, sec: Section): nat
  {
    |sym.name| + |sec.name| + 40
  }

  /** The size that covers every 64-bit offset (two sixteen-digit numbers). */
  function SymbolBufferSize(sym: Symbol, sec: Section): nat
  {
    |sym.name| + |sec.name| + 42
  }

  /** The fallback buffer always fits: 3 bytes of "+0x", at most sixteen
      digits and the NUL. */
  lemma FallbackBufferFits(symtab: SymbolTable, secAddress: bool, sec: Section, offset: u64)
    requires LookupSymbol(symtab, sec, offset).None?
    ensures |Offstr(symtab, secAddress, sec, offset)| + 1 <= FallbackBufferSize(sec)
  {
    Hex.RenderLength64(offset);
  }

  /** The corrected symbol buffer fits every rendered string. */
  lemma SymbolBufferFits(symtab: SymbolTable, secAddress: bool, sec: Section, offset: u64)
    requires LookupSymbol(symtab, sec, offset).Some?
    ensures |Offstr(symtab, secAddress, sec, offset)| + 1
            <= SymbolBufferSize(LookupSymbol(symtab, sec, offset).value, sec)
  {
    var sym := LookupSymbol(symtab, sec, offset).value;
    Hex.RenderLength64(offset);
    Hex.RenderLength64(Sub64(offset, sym.offset));
  }

  /** The +40 margin as written suffices without `sec_address`, and with it
      whenever the symbol precedes the offset and the offset is below 2^60. */
  lemma SymbolBufferAsWrittenFits(symtab: SymbolTable, secAddress: bool, sec: Section, offset: u64)
    requires LookupSymbol(symtab, sec, offset).Some?
    requires secAddress ==>
               LookupSymbol(symtab, sec, offset).value.offset <= offset < 0x1000_0000_0000_0000
    ensures |Offstr(symtab, secAddress, sec, offset)| + 1
            <= SymbolBufferSizeAsWritten(LookupSymbol(symtab, sec, offset).value, sec)
  {
    var sym := LookupSymbol(symtab, sec, offset).value;
    Hex.RenderLength64(Sub64(offset, sym.offset));
    if secAddress {
      Hex.RenderLength60(offset);
      Hex.RenderLength60(Sub64(offset, sym.offset));
    }
  }

  /** The +40 margin is two bytes short for a symbol at offset 0 and the
      largest 64-bit offset when `sec_address` is on. */
  lemma SymbolBufferAsWrittenOverflows(symtab: SymbolTable, sec: Section, sym: Symbol)
    requires sym.offset == 0
    requires LookupSymbol(symtab, sec, U64_LIMIT - 1) == Some(sym)
    ensures |Offstr(symtab, true, sec, U64_LIMIT - 1)| + 1
            == SymbolBufferSizeAsWritten(sym, sec) + 2
  {
    Hex.RenderLength64(U64_LIMIT - 1);
  }

  // ---------------------------------------------------------------------
  // Message emitter (WARN, WARN_FUNC, WARN_ELF)

  function Severity(opts: Options): string
  {
    if opts.werror then "error" else "warning"
  }

  /** The line WARN writes for an already formatted message. */
  function WarnLine(env: Env, msg: string): string
  {
    env.objname + ": " + Severity(env.opts) + ": objtool: " + msg + "\n"
  }

  /** Reads a WARN line back: whether it is an error, and the message. */
  function ParseWarnLine(line: string, objname: string): (r: Option<(bool, string)>)
    ensures r.Some? ==> objname + ": " <= line && |line| > 0 && line[|line| - 1] == '\n'
  {
    var head := objname + ": ";
    var err := "error: objtool: ";
    var warn := "warning: objtool: ";
    if !(head <= line) || |line| == 0 || line[|line| - 1] != '\n' then None
    else
      var body := line[|head|..|line| - 1];
      if err <= body then Some((true, body[|err|..]))
      else if warn <= body then Some((false, body[|warn|..]))
      else None
  }

  /** WARN lines read back as their severity and message. */
  lemma WarnLineRoundTrip(env: Env, msg: string)
    ensures ParseWarnLine(WarnLine(env, msg), env.objname) == Some((env.opts.werror, msg))
  {
    var tag := Severity(env.opts) + ": objtool: ";
    WarnLineShape(env.objname, tag, msg);
    BodyRoundTrip(env.opts.werror, tag, msg);
  }

  /** A WARN line is the object name and ": ", the body, and a newline. */
  lemma WarnLineShape(objname: string, tag: string, msg: string)
    ensures var line := objname + ": " + tag + msg + "\n";
            && objname + ": " <= line && |line| > 0 && line[|line| - 1] == '\n'
            && line[|objname + ": "|..|line| - 1] == tag + msg
  {
    var head := objname + ": ";
    var line := head + tag + msg + "\n";
    assert line == head + (tag + msg) + "\n";
  }

  /** The part between the object name and the newline reads back as the
      severity and the message. */
  lemma BodyRoundTrip(werror: bool, tag: string, msg: string)
    requires tag == (if werror then "error" else "warning") + ": objtool: "
    ensures var body := tag + msg;
            && (werror ==> "error: objtool: " <= body && body[|"error: objtool: "|..] == msg)
            && (!werror ==> !("error: objtool: " <= body)
                            && "warning: objtool: " <= body && body[|"warning: objtool: "|..] == msg)
  {
    var body := tag + msg;
    assert body[|tag|..] == msg;
    if !werror {
      assert body[0] == 'w';
    }
  }

  /** The same message differs only in its severity word. */
  lemma SeverityIsOnlyDifference(env: Env, msg: string)
    ensures ParseWarnLine(WarnLine(env.(opts := env.opts.(werror := true)), msg), env.objname) == Some((true, msg))
    ensures ParseWarnLine(WarnLine(env.(opts := env.opts.(werror := false)), msg), env.objname) == Some((false, msg))
  {
    WarnLineRoundTrip(env.(opts := env.opts.(werror := true)), msg);
    WarnLineRoundTrip(env.(opts := env.opts.(werror := false)), msg);
  }

  function Emit(d: Diag, line: string): (r: Diag)
    ensures r.warnings == d.warnings && r.out == d.out + [line]
  {
    d.(out := d.out + [line])
  }

  /** WARN(msg). */
  function Warn(env: Env, d: Diag, msg: string): Diag
  {
    Emit(d, WarnLine(env, msg))
  }

  /** The line WARN_FUNC writes: the location string and ": " prefix the
      message. */
  function LocatedLine(env: Env, sec: Section, offset: u64, msg: string): string
  {
    WarnLine(env, Offstr(env.symtab, env.opts.secAddress, sec, offset) + ": " + msg)
  }

  /** WARN_FUNC(msg, sec, offset). */
  function WarnFunc(env: Env, d: Diag, sec: Section, offset: u64, msg: string): Diag
  {
    Emit(d, LocatedLine(env, sec, offset, msg))
  }

  /** WARN_ELF(msg): the ELF library's last error text, passed in as
      `elfError`, follows the message. */
  function WarnElf(env: Env, d: Diag, msg: string, elfError: string): Diag
  {
    Warn(env, d, msg + ": " + elfError)
  }

  /** A located warning reads back as the location, ": " and the message. */
  lemma WarnFuncReadsBack(env: Env, d: Diag, sec: Section, offset: u64, msg: string)
    ensures var r := WarnFunc(env, d, sec, offset, msg);
            && r.warnings == d.warnings
            && |r.out| == |d.out| + 1 && r.out[..|d.out|] == d.out
            && ParseWarnLine(r.out[|d.out|], env.objname)
               == Some((env.opts.werror, Offstr(env.symtab, env.opts.secAddress, sec, offset) + ": " + msg))
  {
    var r := WarnFunc(env, d, sec, offset, msg);
    assert r.out[..|d.out|] == d.out;
    WarnLineRoundTrip(env, Offstr(env.symtab, env.opts.secAddress, sec, offset) + ": " + msg);
  }

  /** WARN_ELF adds one line, reading back as the message, ": " and the
      ELF library's error text. */
  lemma WarnElfReadsBack(env: Env, d: Diag, msg: string, elfError: string)
    ensures var r := WarnElf(env, d, msg, elfError);
            && r.warnings == d.warnings
            && |r.out| == |d.out| + 1 && r.out[..|d.out|] == d.out
            && ParseWarnLine(r.out[|d.out|], env.objname) == Some((env.opts.werror, msg + ": " + elfError))
  {
    var r := WarnElf(env, d, msg, elfError);
    assert r.out[..|d.out|] == d.out;
    WarnLineRoundTrip(env, msg + ": " + elfError);
  }

  // ---------------------------------------------------------------------
  // Warning limiter (WARN_INSN)

  const WARN_LIMIT: nat := 2
  /** The largest limit BUILD_BUG_ON(WARN_LIMIT > 2) lets through. */
  const WARN_LIMIT_BOUND: nat := 2
  const SKIP_MSG: string := "skipping duplicate warning(s)"

  /** The configured limit passes the BUILD_BUG_ON. */
  lemma WarnLimitBuild()
    ensures WARN_LIMIT <= WARN_LIMIT_BOUND
  {
  }

  function Count(d: Diag, id: nat): nat
  {
    if id in d.warnings then d.warnings[id] else 0
  }

  function Bump(d: Diag, id: nat): (r: Diag)
    ensures r.out == d.out
    ensures Count(r, id) == Count(d, id) + 1
    ensures forall other :: other != id ==> Count(r, other) == Count(d, other)
  {
    d.(warnings := d.warnings[id := Count(d, id) + 1])
  }

  function InsnLine(env: Env, insn: Instruction, msg: string): string
  {
    LocatedLine(env, insn.sec, insn.offset, msg)
  }

  /** WARN_INSN(insn, msg). */
  function WarnInsn(env: Env, d: Diag, insn: Instruction, msg: string): (r: Diag)
    // no symbol: always emit, no counter changes
    ensures insn.sym.None? ==> r == Emit(d, InsnLine(env, insn, msg))
    // below the limit: the warning itself, and one more counted
    ensures insn.sym.Some? && Count(d, insn.sym.value.id) < WARN_LIMIT ==>
              r.out == d.out + [InsnLine(env, insn, msg)]
              && Count(r, insn.sym.value.id) == Count(d, insn.sym.value.id) + 1
    // at the limit: the one-time notice, and one more counted
    ensures insn.sym.Some? && Count(d, insn.sym.value.id) == WARN_LIMIT ==>
              r.out == d.out + [InsnLine(env, insn, SKIP_MSG)]
              && Count(r, insn.sym.value.id) == WARN_LIMIT + 1
    // past the limit: silence, nothing changes
    ensures insn.sym.Some? && Count(d, insn.sym.value.id) > WARN_LIMIT ==> r == d
    // no other symbol's counter moves
    ensures forall other :: (insn.sym.None? || other != insn.sym.value.id) ==> Count(r, other) == Count(d, other)
  {
    if insn.sym.None? || Count(d, insn.sym.value.id) < WARN_LIMIT then
      var e := Emit(d, InsnLine(env, insn, msg));
      if insn.sym.Some? then Bump(e, insn.sym.value.id) else e
    else if Count(d, insn.sym.value.id) == WARN_LIMIT then
      Bump(Emit(d, InsnLine(env, insn, SKIP_MSG)), insn.sym.value.id)
    else d
  }

  /** `n` successive WARN_INSN calls for the same instruction and message. */
  function WarnInsnTimes(env: Env, d: Diag, insn: Instruction, msg: string, n: nat): Diag
  {
    if n == 0 then d else WarnInsn(env, WarnInsnTimes(env, d, insn, msg, n - 1), insn, msg)
  }

  /** Output of `n` WARN_INSN calls for a symbol that starts uncounted:
      min(n, WARN_LIMIT) warnings, then one notice once n exceeds the
      limit, then nothing; the counter ends at min(n, WARN_LIMIT + 1) and no
      other counter moves. */
  lemma {:induction false} WarnInsnRepeated(env: Env, d: Diag, insn: Instruction, msg: string, n: nat)
    requires insn.sym.Some? && Count(d, insn.sym.value.id) == 0
    ensures var r := WarnInsnTimes(env, d, insn, msg, n);
            && Count(r, insn.sym.value.id) == Min(n, WARN_LIMIT + 1)
            && r.out == d.out + Repeat(InsnLine(env, insn, msg), Min(n, WARN_LIMIT))
                        + (if n > WARN_LIMIT then [InsnLine(env, insn, SKIP_MSG)] else [])
            && forall other :: other != insn.sym.value.id ==> Count(r, other) == Count(d, other)
  {
    var id := insn.sym.value.id;
    var line := InsnLine(env, insn, msg);
    if n > 0 {
      WarnInsnRepeated(env, d, insn, msg, n - 1);
      var p := WarnInsnTimes(env, d, insn, msg, n - 1);
      var r := WarnInsn(env, p, insn, msg);
      if n <= WARN_LIMIT {
        assert Repeat(line, n - 1) + [line] == Repeat(line, n);
        assert r.out == d.out + Repeat(line, n - 1) + [line];
      } else if n == WARN_LIMIT + 1 {
        assert r.out == p.out + [InsnLine(env, insn, SKIP_MSG)];
      }
    }
  }

  /** Every call for the same symbol after the notice is silent: from zero
      the counter never exceeds WARN_LIMIT + 1, at most 3 given the
      compile-time bound. */
  lemma WarnInsnCounterBounded(env: Env, d: Diag, insn: Instruction, msg: string, n: nat)
    requires insn.sym.Some? && Count(d, insn.sym.value.id) == 0
    ensures Count(WarnInsnTimes(env, d, insn, msg, n), insn.sym.value.id) <= WARN_LIMIT + 1 <= WARN_LIMIT_BOUND + 1
    ensures n > WARN_LIMIT ==>
              WarnInsn(env, WarnInsnTimes(env, d, insn, msg, n), insn, msg) == WarnInsnTimes(env, d, insn, msg, n)
  {
    WarnLimitBuild();
    WarnInsnRepeated(env, d, insn, msg, n);
  }

  /** One WARN_INSN never lowers any counter and adds at most one line. */
  lemma WarnInsnMonotone(env: Env, d: Diag, insn: Instruction, msg: string)
    ensures var r := WarnInsn(env, d, insn, msg);
            && (forall id :: Count(d, id) <= Count(r, id))
            && d.out <= r.out && |r.out| <= |d.out| + 1
  {
  }

  /** Without a symbol nothing is suppressed: `n` calls write `n` lines and
      no counter changes. */
  lemma {:induction false} WarnInsnWithoutSymbol(env: Env, d: Diag, insn: Instruction, msg: string, n: nat)
    requires insn.sym.None?
    ensures var r := WarnInsnTimes(env, d, insn, msg, n);
            r.warnings == d.warnings && r.out == d.out + Repeat(InsnLine(env, insn, msg), n)
  {
    if n > 0 {
      WarnInsnWithoutSymbol(env, d, insn, msg, n - 1);
      assert Repeat(InsnLine(env, insn, msg), n - 1) + [InsnLine(env, insn, msg)]
          == Repeat(InsnLine(env, insn, msg), n);
    }
  }

  /** Five warnings for one symbol: two warnings, one notice, then silence. */
  lemma WarnInsnFiveTimes(env: Env, d: Diag, insn: Instruction, msg: string)
    requires insn.sym.Some? && Count(d, insn.sym.value.id) == 0
    ensures WarnInsnTimes(env, d, insn, msg, 5).out
            == d.out + [InsnLine(env, insn, msg), InsnLine(env, insn, msg), InsnLine(env, insn, SKIP_MSG)]
  {
    WarnInsnRepeated(env, d, insn, msg, 5);
    var line := InsnLine(env, insn, msg);
    assert Repeat(line, 2) == [line, line];
  }

  // ---------------------------------------------------------------------
  // Trace emitter (BT_INSN)

  /** BT_INSN(insn, msg): an indented located line, only in verbose or
      backtrace mode. */
  function BtInsn(env: Env, d: Diag, insn: Instruction, msg: string): (r: Diag)
    ensures r.warnings == d.warnings
    ensures !(env.opts.verbose || env.opts.backtrace) ==> r == d
  {
    if env.opts.verbose || env.opts.backtrace then
      Warn(env, d, "  " + Offstr(env.symtab, env.opts.secAddress, insn.sec, insn.offset) + ": " + msg)
    else d
  }

  /** When enabled, BT_INSN adds exactly one line, reading back as the
      indented location and message. */
  lemma BtInsnEnabled(env: Env, d: Diag, insn: Instruction, msg: string)
    requires env.opts.verbose || env.opts.backtrace
    ensures var r := BtInsn(env, d, insn, msg);
            && |r.out| == |d.out| + 1 && r.out[..|d.out|] == d.out
            && ParseWarnLine(r.out[|d.out|], env.objname)
               == Some((env.opts.werror, "  " + Offstr(env.symtab, env.opts.secAddress, insn.sec, insn.offset) + ": " + msg))
  {
    var r := BtInsn(env, d, insn, msg);
    assert r.out[..|d.out|] == d.out;
    WarnLineRoundTrip(env, "  " + Offstr(env.symtab, env.opts.secAddress, insn.sec, insn.offset) + ": " + msg);
  }

  /** When disabled, BT_INSN does not look at the symbol table at all: any
      two tables give the same (unchanged) state. */
  lemma BtInsnDisabledIgnoresSymbols(env: Env, t: SymbolTable, d: Diag, insn: Instruction, msg: string)
    requires !(env.opts.verbose || env.opts.backtrace)
    ensures BtInsn(env, d, insn, msg) == BtInsn(env.(symtab := t), d, insn, msg) == d
  {
  }
}
