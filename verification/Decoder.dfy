/** One event to one line: argument descriptors, the call, its result and its duration. */
module Decoder {
  import opened Words
  import opened OutBuffer
  import opened Remote
  import Bits
  import Eabi
  import Flags
  import Format
  import Text
  import Times
  import Vectors

  const TABLE_SIZE := 473
  const AT_FDCWD := -100
  const O_CREAT := 64

  datatype ArgKind =
    | Hex | Int | Long | UInt | Fd | DirFd | Pid | Ptr | Str | Path | Strv
    | Size | Mode | Open | Prot | Map | Sig | BufIn | BufOut
    | SockAddr | TimeSpec | Time64 | TimeSpecOut | Time64Out
    | IovIn | IovOut

  // aux names the argument holding a length or a count, -1 for none.
  datatype ArgDesc = ArgDesc(kind: ArgKind, aux: int)

  datatype CallDesc = CallDesc(name: string, nargs: u8, args: seq<ArgDesc>)

  datatype Entry = Entry(name: Option<string>, nargs: u8, abiBits: u8)

  // The decoder's tables, the C library's names, and the printers of fixed layouts;
  // the latter yield the pieces they print.
  datatype Names = Names(
    calls: seq<CallDesc>,
    openFlags: Flags.Table, protFlags: Flags.Table, mapFlags: Flags.Table,
    signalName: u32 -> Option<string>,
    errnoName: u32 -> Option<string>,
    strerror: u32 -> string,
    sockAddr: (Parser, Call, u64, u64) -> seq<string>,
    special: (Parser, Call, string) -> seq<string>)

  predicate UsesAux(kind: ArgKind) {
    kind.SockAddr? || kind.IovIn? || kind.IovOut?
  }

  predicate ValidDesc(desc: ArgDesc) {
    -1 <= desc.aux < 6 && (UsesAux(desc.kind) ==> desc.aux >= 0)
  }

  predicate ValidNames(n: Names) {
    forall c :: c in n.calls ==> |c.args| == 6 && forall a :: a in c.args ==> ValidDesc(a)
  }

  // ----- arguments -----

  function DirFdText(v: u64, symbolic: bool): string {
    if symbolic && AsInt32(v) == AT_FDCWD then "AT_FDCWD" else Format.Signed(AsInt32(v))
  }

  function SignalText(n: Names, v: u64, symbolic: bool): string {
    if symbolic && n.signalName(Low32(v)).Some? then n.signalName(Low32(v)).value else Format.Decimal(v)
  }

  function Concat(pieces: seq<string>): string {
    if pieces == [] then "" else Concat(pieces[..|pieces| - 1]) + pieces[|pieces| - 1]
  }

  function IovBudget(ev: Call): u64 {
    if ev.retval > 0 then ev.retval else 0
  }

  function ArgText(n: Names, d: Parser, ev: Call, desc: ArgDesc, v: u64): string
    requires SixArgs(ev) && ValidDesc(desc)
  {
    match desc.kind
    case Int | Fd | Pid => Format.Signed(AsInt32(v))
    case Long => Format.Signed(if ev.abi.ArmEabi? then AsInt32(v) else AsInt64(v))
    case UInt | Size => Format.Decimal(NormalizeArg(ev.abi, v))
    case DirFd => DirFdText(v, d.opt.symbolic)
    case Ptr => PtrText(ev.abi, v)
    case Str | Path => ViewText(ev.abi, StringView(d, ev, v))
    case Strv => Vectors.StrvText(d, ev, v)
    case Mode => "0" + Format.Digits(8, v % 4096)
    case Open => Flags.OpenFlagsText(Bits.FromNat(v), n.openFlags, d.opt.symbolic)
    case Prot => Flags.FlagsText(Bits.FromNat(v), n.protFlags, d.opt.symbolic, Some("PROT_NONE"))
    case Map => Flags.FlagsText(Bits.FromNat(v), n.mapFlags, d.opt.symbolic, None)
    case Sig => SignalText(n, v, d.opt.symbolic)
    case BufIn => ViewText(ev.abi, BufferView(d, ev, v, BufferCount(ev, desc.aux, false)))
    case BufOut => ViewText(ev.abi, OutputView(d, ev, desc.aux, v))
    case SockAddr => Concat(n.sockAddr(d, ev, v, ev.args[desc.aux]))
    case TimeSpec => Times.TimeText(d, ev, v, false)
    case Time64 => Times.TimeText(d, ev, v, true)
    case TimeSpecOut => if IsError(ev.retval) then PtrText(ev.abi, v) else Times.TimeText(d, ev, v, false)
    case Time64Out => if IsError(ev.retval) then PtrText(ev.abi, v) else Times.TimeText(d, ev, v, true)
    case IovIn => Vectors.IovText(d, ev, v, ev.args[desc.aux], true, d.opt.maxBuffer)
    case IovOut => Vectors.IovText(d, ev, v, ev.args[desc.aux], !IsError(ev.retval), IovBudget(ev))
    case Hex => Format.Hex(NormalizeArg(ev.abi, v))
  }

  lemma ConcatSnoc(pieces: seq<string>, i: nat)
    requires i < |pieces|
    ensures Concat(pieces[..i + 1]) == Concat(pieces[..i]) + pieces[i]
  {
    assert pieces[..i + 1][..i] == pieces[..i];
  }

  method PrintPieces(o: Out, pieces: seq<string>)
    requires o.Valid()
    modifies o, o.buf
    ensures o.Valid() && o.text == old(o.text) + Concat(pieces)
  {
    hide Image;
    for i := 0 to |pieces|
      invariant o.Valid() && o.text == old(o.text) + Concat(pieces[..i])
    {
      ConcatSnoc(pieces, i);
      o.Printf(pieces[i]);
    }
    assert pieces[..|pieces|] == pieces;
  }

  method PrintArg(n: Names, d: Parser, ev: Call, o: Out, desc: ArgDesc, v: u64)
    requires o.Valid() && SixArgs(ev) && ValidDesc(desc)
    modifies o, o.buf
    ensures o.Valid() && o.text == old(o.text) + ArgText(n, d, ev, desc, v)
  {
    hide Image, PtrText, ViewText, StringView, BufferView, OutputView, BufferCount, Concat,
         Flags.FlagsText, Flags.OpenFlagsText, Vectors.StrvText, Vectors.IovText, Times.TimeText,
         Format.Signed, Format.Decimal, Format.Hex, Format.Digits, DirFdText, SignalText, Bits.FromNat;
    match desc.kind
    case Int | Fd | Pid => o.Printf(Format.Signed(AsInt32(v)));
    case Long => o.Printf(Format.Signed(if ev.abi.ArmEabi? then AsInt32(v) else AsInt64(v)));
    case UInt | Size => o.Printf(Format.Decimal(NormalizeArg(ev.abi, v)));
    case DirFd => o.Printf(DirFdText(v, d.opt.symbolic));
    case Ptr => PrintPtr(o, ev.abi, v);
    case Str | Path => PrintCString(d, ev, o, v);
    case Strv => Vectors.PrintStrv(d, ev, o, v);
    case Mode => o.Printf("0" + Format.Digits(8, v % 4096));
    case Open => Flags.PrintOpenFlags(o, Bits.FromNat(v), n.openFlags, d.opt.symbolic);
    case Prot => Flags.PrintFlags(o, Bits.FromNat(v), n.protFlags, d.opt.symbolic, Some("PROT_NONE"));
    case Map => Flags.PrintFlags(o, Bits.FromNat(v), n.mapFlags, d.opt.symbolic, None);
    case Sig => o.Printf(SignalText(n, v, d.opt.symbolic));
    case BufIn => PrintBuffer(d, ev, o, v, BufferCount(ev, desc.aux, false));
    case BufOut => PrintOutputBuffer(d, ev, o, desc.aux, v);
    case SockAddr => PrintPieces(o, n.sockAddr(d, ev, v, ev.args[desc.aux]));
    case TimeSpec => Times.PrintTimeSpec(d, ev, o, v, false);
    case Time64 => Times.PrintTimeSpec(d, ev, o, v, true);
    case TimeSpecOut =>
      if !IsError(ev.retval) {
        Times.PrintTimeSpec(d, ev, o, v, false);
      } else {
        PrintPtr(o, ev.abi, v);
      }
    case Time64Out =>
      if !IsError(ev.retval) {
        Times.PrintTimeSpec(d, ev, o, v, true);
      } else {
        PrintPtr(o, ev.abi, v);
      }
    case IovIn => Vectors.PrintIov(d, ev, o, v, ev.args[desc.aux], true, d.opt.maxBuffer);
    case IovOut => Vectors.PrintIov(d, ev, o, v, ev.args[desc.aux], !IsError(ev.retval), IovBudget(ev));
    case Hex => o.Printf(Format.Hex(NormalizeArg(ev.abi, v)));
  }

  // ----- the call -----

  // Entry i is the first with this name.
  predicate IsFirst(calls: seq<CallDesc>, i: nat, name: string) {
    i < |calls| && calls[i].name == name && forall j :: 0 <= j < i ==> calls[j].name != name
  }

  function FindCall(calls: seq<CallDesc>, name: string): (r: Option<CallDesc>)
    ensures r.None? <==> forall c :: c in calls ==> c.name != name
    ensures r.Some? ==> exists i: nat :: IsFirst(calls, i, name) && calls[i] == r.value
  {
    if calls == [] then None
    else if calls[0].name == name then
      assert IsFirst(calls, 0, name);
      Some(calls[0])
    else
      var r := FindCall(calls[1..], name);
      assert forall i: nat :: IsFirst(calls[1..], i, name) ==>
        IsFirst(calls, i + 1, name) && calls[i + 1] == calls[1..][i];
      assert forall c :: c in calls <==> c == calls[0] || c in calls[1..];
      r
  }

  predicate IsSpecial(abi: Abi, name: string) {
    || name == "ioctl" || name == "bpf" || name == "openat2" || name == "clone3"
    || name == "fcntl" || name == "fcntl64" || (name == "socketcall" && abi.ArmEabi?)
  }

  predicate HasCreat(flags: u64) {
    flags / O_CREAT % 2 == 1
  }

  function ArgCount(n: Names, ev: Call, ent: Option<Entry>, name: string): nat
    requires SixArgs(ev)
    ensures ArgCount(n, ev, ent, name) <= 6
  {
    var call := FindCall(n.calls, name);
    var count := if call.Some? then call.value.nargs else if ent.Some? then ent.value.nargs else 6;
    if call.Some? && name == "open" && !HasCreat(ev.args[1]) then 2
    else if call.Some? && name == "openat" && !HasCreat(ev.args[2]) then 3
    else Min(count, 6)
  }

  function OneArg(n: Names, d: Parser, ev: Call, name: string, i: nat): string
    requires SixArgs(ev) && ValidNames(n) && i < 6
  {
    match FindCall(n.calls, name)
    case Some(call) =>
      assert call.args[i] in call.args;
      ArgText(n, d, ev, call.args[i], ev.args[i])
    case None => Format.Hex(NormalizeArg(ev.abi, ev.args[i]))
  }

  function ArgTexts(n: Names, d: Parser, ev: Call, name: string, count: nat): (texts: seq<string>)
    requires SixArgs(ev) && ValidNames(n) && count <= 6
    ensures |texts| == count
  {
    seq(count, i requires 0 <= i < count => OneArg(n, d, ev, name, i))
  }

  function ArgsText(n: Names, d: Parser, ev: Call, ent: Option<Entry>, name: string): string
    requires SixArgs(ev) && ValidNames(n)
  {
    if ev.abi.ArmEabi? && Eabi.IsAligned64(name) then Eabi.AlignedText(d, ev, name)
    else if IsSpecial(ev.abi, name) then Concat(n.special(d, ev, name))
    else Text.Join(ArgTexts(n, d, ev, name, ArgCount(n, ev, ent, name)), ", ")
  }

  function ResultText(n: Names, ev: Call, name: string): string {
    if IsError(ev.retval) then
      var e := -ev.retval;
      var en := n.errnoName(e);
      " = -1 " + (if en.Some? then en.value else "ERRNO") + " (" + n.strerror(e) + ")"
    else if name == "mmap" || name == "mmap2" || name == "brk" then
      " = " + Format.Hex(AsUnsigned(ev.retval))
    else
      " = " + Format.Signed(ev.retval)
  }

  function DurationText(ns: u64): string {
    " <" + Format.Decimal(ns / 1_000_000_000) + "." + Format.Padded(ns % 1_000_000_000 / 1000, 6) + ">"
  }

  function LookupEntry(table: seq<Entry>, nr: u32): Option<Entry>
    requires |table| == TABLE_SIZE
  {
    var id := AsInt32(nr);
    if id < 0 || id >= TABLE_SIZE then None
    else if table[id].name.Some? then Some(table[id]) else None
  }

  function CallName(table: seq<Entry>, nr: u32): string
    requires |table| == TABLE_SIZE
  {
    match LookupEntry(table, nr)
    case Some(e) => if e.name.Some? then e.name.value else ""
    case None => "syscall_" + Format.Decimal(nr)
  }

  function ShownId(ev: Call): u32 {
    if ev.tid != 0 then ev.tid else ev.pid
  }

  // The whole line, without any limit on its length.
  function LineText(n: Names, d: Parser, ev: Call, table: seq<Entry>): string
    requires SixArgs(ev) && ValidNames(n) && |table| == TABLE_SIZE
  {
    var name := CallName(table, ev.nr);
    "[pid " + Format.Decimal(ShownId(ev)) + "] " + (name + "(")
    + ArgsText(n, d, ev, LookupEntry(table, ev.nr), name) + ")"
    + ResultText(n, ev, name) + DurationText(ev.durationNs)
  }

  method PrintArgs(n: Names, d: Parser, ev: Call, o: Out, ent: Option<Entry>, name: string)
    requires o.Valid() && SixArgs(ev) && ValidNames(n)
    modifies o, o.buf
    ensures o.Valid()
    ensures o.text == old(o.text) + Text.Join(ArgTexts(n, d, ev, name, ArgCount(n, ev, ent, name)), ", ")
  {
    hide Image, ArgText, Text.Join, Format.Hex;
    var call := FindCall(n.calls, name);
    var nargs := if call.Some? then call.value.nargs else if ent.Some? then ent.value.nargs else 6;
    if call.Some? && name == "open" && !HasCreat(ev.args[1]) {
      nargs := 2;
    }
    if call.Some? && name == "openat" && !HasCreat(ev.args[2]) {
      nargs := 3;
    }
    if nargs > 6 {
      nargs := 6;
    }
    assert nargs == ArgCount(n, ev, ent, name);
    PrintArgList(n, d, ev, o, name, nargs);
  }

  method PrintArgList(n: Names, d: Parser, ev: Call, o: Out, name: string, nargs: nat)
    requires o.Valid() && SixArgs(ev) && ValidNames(n) && nargs <= 6
    modifies o, o.buf
    ensures o.Valid() && o.text == old(o.text) + Text.Join(ArgTexts(n, d, ev, name, nargs), ", ")
  {
    hide Image, ArgText, Text.Join, Format.Hex, ArgTexts, ValidDesc;
    ArgTextsStart(n, d, ev, name);
    for i := 0 to nargs
      invariant o.Valid() && o.text == old(o.text) + Text.Join(ArgTexts(n, d, ev, name, i), ", ")
    {
      if i > 0 {
        o.Printf(", ");
      }
      PrintOneArg(n, d, ev, o, name, i);
      ArgTextsSnoc(n, d, ev, name, i);
    }
  }

  method PrintOneArg(n: Names, d: Parser, ev: Call, o: Out, name: string, i: nat)
    requires o.Valid() && SixArgs(ev) && ValidNames(n) && i < 6
    modifies o, o.buf
    ensures o.Valid() && o.text == old(o.text) + OneArg(n, d, ev, name, i)
  {
    hide Image, ArgText, Format.Hex;
    var call := FindCall(n.calls, name);
    if call.Some? {
      assert call.value.args[i] in call.value.args;
      PrintArg(n, d, ev, o, call.value.args[i], ev.args[i]);
    } else {
      o.Printf(Format.Hex(NormalizeArg(ev.abi, ev.args[i])));
    }
  }

  lemma ArgTextsStart(n: Names, d: Parser, ev: Call, name: string)
    requires SixArgs(ev) && ValidNames(n)
    ensures Text.Join(ArgTexts(n, d, ev, name, 0), ", ") == ""
  {
  }

  lemma ArgTextsSnoc(n: Names, d: Parser, ev: Call, name: string, i: nat)
    requires SixArgs(ev) && ValidNames(n) && i < 6
    ensures
      var before := Text.Join(ArgTexts(n, d, ev, name, i), ", ");
      Text.Join(ArgTexts(n, d, ev, name, i + 1), ", ")
        == before + (if i > 0 then ", " else "") + OneArg(n, d, ev, name, i)
  {
    hide OneArg;
    var texts := ArgTexts(n, d, ev, name, i);
    assert ArgTexts(n, d, ev, name, i + 1) == texts + [OneArg(n, d, ev, name, i)];
    Text.JoinSnoc(texts, OneArg(n, d, ev, name, i), ", ");
  }

  method PrintResult(n: Names, ev: Call, o: Out, name: string)
    requires o.Valid()
    modifies o, o.buf
    ensures o.Valid() && o.text == old(o.text) + ResultText(n, ev, name)
  {
    hide Image, Format.Hex, Format.Signed;
    if IsError(ev.retval) {
      var e := -ev.retval;
      var en := n.errnoName(e);
      o.Printf(" = -1 " + (if en.Some? then en.value else "ERRNO") + " (" + n.strerror(e) + ")");
    } else if name == "mmap" || name == "mmap2" || name == "brk" {
      o.Printf(" = " + Format.Hex(AsUnsigned(ev.retval)));
    } else {
      o.Printf(" = " + Format.Signed(ev.retval));
    }
  }

  method PrintCall(n: Names, d: Parser, ev: Call, o: Out, ent: Option<Entry>, name: string)
    requires o.Valid() && SixArgs(ev) && ValidNames(n)
    modifies o, o.buf
    ensures o.Valid() && o.text == old(o.text) + ArgsText(n, d, ev, ent, name)
  {
    hide Image, Eabi.AlignedText, Eabi.IsAligned64, ArgTexts, ArgCount, Concat, Text.Join, IsSpecial;
    var handled := false;
    if ev.abi.ArmEabi? {
      handled := Eabi.PrintAligned64(d, ev, o, name);
    }
    if !handled {
      if IsSpecial(ev.abi, name) {
        PrintPieces(o, n.special(d, ev, name));
      } else {
        PrintArgs(n, d, ev, o, ent, name);
      }
    }
  }

  method PrintLine(n: Names, d: Parser, ev: Call, o: Out, table: seq<Entry>)
    requires o.Valid() && SixArgs(ev) && ValidNames(n) && |table| == TABLE_SIZE
    modifies o, o.buf
    ensures o.Valid() && o.text == old(o.text) + LineText(n, d, ev, table)
  {
    hide Image, ArgsText, ResultText, Format.Decimal, Format.Padded;
    var ent := LookupEntry(table, ev.nr);
    var name := CallName(table, ev.nr);
    ghost var start := o.text;
    o.Printf("[pid " + Format.Decimal(ShownId(ev)) + "] ");
    o.Printf(name + "(");
    PrintCall(n, d, ev, o, ent, name);
    o.Printf(")");
    PrintResult(n, ev, o, name);
    o.Printf(DurationText(ev.durationNs));
    assert o.text == start + LineText(n, d, ev, table);
  }

  // decode_with_table: the line, cut to the buffer, and its full length.
  method DecodeWithTable(n: Names, parser: Option<Parser>, ev: Call, table: seq<Entry>,
                         dst: array?<char>, size: nat) returns (r: int)
    requires SixArgs(ev) && ValidNames(n) && |table| == TABLE_SIZE
    requires dst != null ==> size <= dst.Length
    modifies dst
    ensures
      if parser.None? || (dst == null && size > 0) then
        r == -22 && (dst != null ==> dst[..] == old(dst[..]))
      else
        var line := LineText(n, parser.value, ev, table);
        r == Min(|line|, 0x7fff_ffff) && (dst != null ==> dst[..] == Image(line, size, old(dst[..])))
  {
    if parser.None? || (dst == null && size > 0) {
      return -EINVAL;
    }
    if size > 0 {
      dst[0] := NUL;
    }
    var o := new Out(dst, size);
    PrintLine(n, parser.value, ev, o, table);
    ghost var line := LineText(n, parser.value, ev, table);
    assert "" + line == line;
    if dst != null {
      ImageForgetsFirst(line, size, old(dst[..]), o.memory);
    }
    r := if o.len > INT32_MAX then INT32_MAX else o.len;
  }

  // Writing the NUL at the start first makes no difference.
  lemma ImageForgetsFirst(text: string, cap: nat, before: seq<char>, after: seq<char>)
    requires cap <= |before| == |after|
    requires cap == 0 ==> before == after
    requires cap > 0 ==> before[1..] == after[1..]
    ensures Image(text, cap, before) == Image(text, cap, after)
  {
    if cap > 0 {
      var k := Min(|text|, cap - 1);
      assert before[k + 1..] == before[1..][k..] && after[k + 1..] == after[1..][k..];
    }
  }

  // ----- the event as the kernel side sends it -----

  datatype SyscallEvent = SyscallEvent(durationNs: u64, args: seq<u64>, ret: s64, pid: u32, tid: u32, syscallId: s32)

  function CallOf(event: SyscallEvent, bits: u8): Call
    requires event.syscallId >= 0
  {
    var abi := if bits == 32 then ArmEabi else Arm64;
    Call(abi, event.syscallId, event.pid, event.tid, event.args,
         NormalizeRetval(abi, AsUnsigned(event.ret)), event.durationNs)
  }

  function TableBits(table: Option<seq<Entry>>): u8
    requires table.Some? ==> |table.value| == TABLE_SIZE
  {
    if table.Some? then table.value[0].abiBits else 0
  }

  // When the event is turned down before anything is written.
  predicate Rejected(parser: Option<Parser>, event: Option<SyscallEvent>, table: Option<seq<Entry>>,
                     haveDst: bool, size: nat)
    requires table.Some? ==> |table.value| == TABLE_SIZE
  {
    || event.None? || event.value.syscallId < 0 || TableBits(table) !in {32, 64}
    || parser.None? || (!haveDst && size > 0)
  }

  // The line for an event of a process whose calls are numbered by this table.
  function EventLine(n: Names, d: Parser, event: SyscallEvent, table: seq<Entry>): string
    requires ValidNames(n) && |event.args| == 6 && event.syscallId >= 0 && |table| == TABLE_SIZE
  {
    LineText(n, d, CallOf(event, table[0].abiBits), table)
  }

  method ParseEvent(n: Names, parser: Option<Parser>, event: Option<SyscallEvent>, table: Option<seq<Entry>>,
                    dst: array?<char>, size: nat) returns (r: int)
    requires ValidNames(n)
    requires event.Some? ==> |event.value.args| == 6
    requires table.Some? ==> |table.value| == TABLE_SIZE
    requires dst != null ==> size <= dst.Length
    modifies dst
    ensures
      if Rejected(parser, event, table, dst != null, size) then
        r == -22 && (dst != null ==> dst[..] == old(dst[..]))
      else
        var line := EventLine(n, parser.value, event.value, table.value);
        r == Min(|line|, 0x7fff_ffff) && (dst != null ==> dst[..] == Image(line, size, old(dst[..])))
  {
    hide LineText, Image;
    var bits := TableBits(table);
    if event.None? || event.value.syscallId < 0 || (bits != 32 && bits != 64) {
      return -EINVAL;
    }
    r := DecodeWithTable(n, parser, CallOf(event.value, bits), table.value, dst, size);
  }
}
