/** setup_command_line() of init/main.c: the saved and the static command line, put together in place
    from the boot command line and what the boot configuration adds. */
module CommandLine {
  import opened Errno
  import opened CStrings
  import XbcCmdline

  /** NULL counts as the empty string where only the contents matter. */
  function OrEmpty(s: Option<CString>): CString { if s.Some? then s.value else "" }

  /** What saved_command_line is meant to hold. `offs` is where the init arguments start in the boot line
      (0: it has none). */
  function Saved(extra: Option<CString>, boot: CString, initArgs: Option<CString>, offs: nat): seq<char>
    requires offs <= |boot|
  {
    if initArgs.None? then OrEmpty(extra) + boot
    else if offs > 0 then OrEmpty(extra) + boot[..offs] + initArgs.value + boot[offs - 1..]
    else OrEmpty(extra) + boot + " -- " + initArgs.value
  }

  /** Extra line first, then the given line, into a fresh allocation with `spare` bytes to spare. */
  method Assemble(extra: Option<CString>, line: CString, spare: nat) returns (mem: array<char>)
    ensures fresh(mem) && mem.Length == |OrEmpty(extra)| + |line| + 1 + spare
    ensures HoldsAt(mem[..], 0, OrEmpty(extra) + line)
  {
    var xlen := 0;
    if extra.Some? { xlen := |extra.value|; }
    mem := new char[xlen + |line| + 1 + spare](i => '\0');
    if xlen > 0 { StrCpy(mem, 0, extra.value); }
    assert OrEmpty(extra)[..xlen] == OrEmpty(extra);
    StrCpyOver(mem, OrEmpty(extra), xlen, line);
  }

  /** The boot line has init arguments of its own: insert the added ones before them. */
  method InsertInitArgs(saved: array<char>, ghost x: CString, xlen: nat, boot: CString, initArgs: CString, offs: nat)
    requires xlen == |x| && 0 < offs <= |boot| && saved.Length == xlen + |boot| + 1 + (|initArgs| + 4)
    requires HoldsAt(saved[..], 0, x + boot)
    modifies saved
    ensures HoldsAt(saved[..], 0, x + boot[..offs] + initArgs + boot[offs - 1..])
  {
    var len := xlen + offs;
    assert (x + boot)[..len] == x + boot[..offs];
    StrCpyOver(saved, x + boot, len, initArgs);
    ghost var line: CString := x + boot[..offs] + initArgs;
    len := len + |initArgs|;
    assert line[..len] == line;
    StrCpyOver(saved, line, len, boot[offs - 1..]);
  }

  /** It has none: add a separator and the added ones. */
  method AppendInitArgs(saved: array<char>, ghost line: CString, initArgs: CString)
    requires saved.Length == |line| + 1 + (|initArgs| + 4) && HoldsAt(saved[..], 0, line)
    modifies saved
    ensures HoldsAt(saved[..], 0, line + " -- " + initArgs)
  {
    var len := StrLen(saved, 0, line);
    assert line[..len] == line;
    StrCpyOver(saved, line, len, " -- ");
    ghost var longer: CString := line + " -- ";
    len := len + 4;
    assert longer[..len] == longer;
    StrCpyOver(saved, longer, len, initArgs);
  }

  method SetupCommandLine(extra: Option<CString>, boot: CString, initArgs: Option<CString>, offs: nat, command: CString)
    returns (saved: array<char>, static_: array<char>, savedLen: nat)
    requires offs <= |boot|
    ensures fresh(saved) && fresh(static_)
    ensures HoldsAt(saved[..], 0, Saved(extra, boot, initArgs, offs))
    ensures savedLen == |Saved(extra, boot, initArgs, offs)|
    ensures HoldsAt(static_[..], 0, OrEmpty(extra) + command)
    ensures var x := if extra.Some? then extra.value else "";
            && HoldsAt(static_[..], 0, x + command)
            && (initArgs.None? ==> HoldsAt(saved[..], 0, x + boot))
            && (initArgs.Some? && offs == 0 ==> HoldsAt(saved[..], 0, x + boot + " -- " + initArgs.value))
            && (initArgs.Some? && offs > 0 ==>
                  HoldsAt(saved[..], 0, x + boot[..offs] + initArgs.value + boot[offs - 1..]))
  {
    var ilen := 0;
    if initArgs.Some? { ilen := |initArgs.value| + 4; }
    saved := Assemble(extra, boot, ilen);
    static_ := Assemble(extra, command, 0);
    if ilen > 0 {
      if offs > 0 {
        InsertInitArgs(saved, OrEmpty(extra), |OrEmpty(extra)|, boot, initArgs.value, offs);
      } else {
        AppendInitArgs(saved, OrEmpty(extra) + boot, initArgs.value);
      }
    }
    savedLen := StrLen(saved, 0, Saved(extra, boot, initArgs, offs));
  }

  // ---------------------------------------------------------------- what the result means

  /** isspace() of the kernel, which separates one parameter from the next. */
  predicate White(c: char) { c == ' ' || '\t' <= c <= '\r' || c == '\U{A0}' }

  /** The order the comment in the source promises: the line up to and with the "--", a blank, the added init
      arguments, a blank, the boot line's own init arguments. */
  ghost predicate KeepsPromisedOrder(saved: seq<char>, extra: Option<CString>, boot: CString, initArgs: CString,
                                     offs: nat)
    requires 0 < offs <= |boot|
  {
    exists a, b :: White(a) && White(b)
                   && saved == OrEmpty(extra) + boot[..offs - 1] + [a] + initArgs + [b] + boot[offs..]
  }

  /** It is kept iff the character just before the boot line's init arguments is white space: that one
      character serves as both separators. */
  lemma PromisedOrderIff(extra: Option<CString>, boot: CString, initArgs: CString, offs: nat)
    requires 0 < offs <= |boot|
    ensures KeepsPromisedOrder(Saved(extra, boot, Some(initArgs), offs), extra, boot, initArgs, offs)
            <==> White(boot[offs - 1])
  {
    var c, head := boot[offs - 1], OrEmpty(extra) + boot[..offs - 1];
    var saved := Saved(extra, boot, Some(initArgs), offs);
    assert boot[..offs] == boot[..offs - 1] + [c] && boot[offs - 1..] == [c] + boot[offs..];
    assert saved == head + [c] + initArgs + [c] + boot[offs..];
    if KeepsPromisedOrder(saved, extra, boot, initArgs, offs) {
      var a, b :| White(a) && White(b) && saved == head + [a] + initArgs + [b] + boot[offs..];
      assert saved[|head|] == a && saved[|head|] == c;
    }
  }

  /** A boot line that ends in the bare separator: the added init arguments are glued to it. */
  lemma BareSeparatorIsGlued()
    ensures var saved := Saved(None, "bootconfig --", Some("init.a "), 13);
            && saved == "bootconfig --init.a -"
            && !KeepsPromisedOrder(saved, None, "bootconfig --", "init.a ", 13)
  {
    var boot: CString := "bootconfig --";
    assert boot[..13] == boot && boot[12..] == "-";
    PromisedOrderIff(None, boot, "init.a ", 13);
  }

  lemma ExtraLineComesFirst(extra: CString, boot: CString, initArgs: Option<CString>, offs: nat)
    requires offs <= |boot|
    ensures extra <= Saved(Some(extra), boot, initArgs, offs)
  {
  }

  /** The extra line rendered from the boot configuration ends in a blank, so its last parameter is never
      glued to the first one of the boot line. */
  lemma ExtraLineStaysApart(keys: seq<XbcCmdline.Key>, boot: CString, initArgs: Option<CString>, offs: nat)
    requires XbcCmdline.ValidKeys(keys) && keys != [] && XbcCmdline.FirstError(keys) == 0
    requires XbcCmdline.Plain(keys) && offs <= |boot|
    ensures var extra := XbcCmdline.Render(keys);
            && '\0' !in extra
            && |extra| > 0 && extra <= Saved(Some(extra), boot, initArgs, offs)
            && Saved(Some(extra), boot, initArgs, offs)[|extra| - 1] == ' '
  {
    XbcCmdline.RenderIsPlain(keys);
    XbcCmdline.RenderEndsInBlank(keys);
    var extra: CString := XbcCmdline.Render(keys);
    ExtraLineComesFirst(extra, boot, initArgs, offs);
  }

  /** Whatever was in the boot line before its init arguments survives, as do the init arguments. */
  lemma NothingIsLost(extra: Option<CString>, boot: CString, initArgs: CString, offs: nat)
    requires 0 < offs <= |boot|
    ensures var s := Saved(extra, boot, Some(initArgs), offs);
            && OrEmpty(extra) + boot[..offs] + initArgs <= s
            && |s| == |OrEmpty(extra)| + |boot| + |initArgs| + 1
            && s[|s| - |boot[offs..]|..] == boot[offs..]
  {
    var head := OrEmpty(extra) + boot[..offs] + initArgs;
    var s := Saved(extra, boot, Some(initArgs), offs);
    assert s == head + boot[offs - 1..];
    assert boot[offs - 1..] == [boot[offs - 1]] + boot[offs..];
  }
}
