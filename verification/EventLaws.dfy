/** From the kernel's event and the table of calls to the line, in the event's own numbers. */
module EventLaws {
  import opened Words
  import opened Remote
  import opened Decoder
  import opened Memory
  import opened ViewLaws
  import opened LineLaws
  import Eabi
  import Format
  import Text
  import Times
  import VectorLaws
  import Vectors

  // ----- a plain event -----

  // What the call with this number is called.
  predicate IsNamed(table: seq<Decoder.Entry>, id: nat, name: string) {
    if id < |table| && table[id].name.Some? then table[id].name == Some(name)
    else name == "syscall_" + Format.Decimal(id)
  }

  // The event's return value, or its low half as a signed number for a 32-bit process.
  predicate IsResult(bits: int, ret: s64, result: int) {
    if bits == 64 then result == ret
    else -0x8000_0000 <= result < 0x8000_0000 && (result - ret) % 0x1_0000_0000 == 0
  }

  // The calls that are printed by a rule of their own.
  predicate IsPrintedApart(bits: int, name: string) {
    || name in {"ioctl", "bpf", "openat2", "clone3", "fcntl", "fcntl64"}
    || (bits == 32 && name in {"socketcall", "pread64", "pwrite64", "readahead", "truncate64", "ftruncate64"})
  }

  // A plain event: no descriptor, no printer of its own, and a result that is shown as a decimal number.
  predicate IsPlainEvent(n: Names, bits: int, name: string, result: int) {
    && (forall c :: c in n.calls ==> c.name != name)
    && !IsPrintedApart(bits, name) && name !in {"mmap", "mmap2", "brk"} && '(' !in name
    && !(-4095 <= result <= -1)
  }

  lemma EventIsCall(event: SyscallEvent, bits: u8, result: int)
    requires event.syscallId >= 0 && |event.args| == 6 && (bits == 32 || bits == 64)
    requires IsResult(bits, event.ret, result)
    ensures
      var ev := Decoder.CallOf(event, bits);
      && ev.args == event.args && ev.pid == event.pid && ev.tid == event.tid && ev.nr == event.syscallId
      && ev.durationNs == event.durationNs && ev.retval == result && (ev.abi.Arm64? <==> bits == 64)
  {
  }

  lemma NameIsFound(table: seq<Decoder.Entry>, id: nat, name: string)
    requires |table| == 473 && id < 0x8000_0000 && IsNamed(table, id, name)
    ensures CallName(table, id) == name
    ensures LookupEntry(table, id) == if id < 473 && table[id].name.Some? then Some(table[id]) else None
  {
    hide Format.Decimal;
  }

  lemma PlainEventIsPlain(n: Names, ev: Call, bits: int, name: string)
    requires IsPlainEvent(n, bits, name, ev.retval) && (ev.abi.Arm64? <==> bits == 64) && (bits == 32 || bits == 64)
    ensures IsPlain(n, ev, name) && FindCall(n.calls, name).None?
  {
  }

  lemma PlainArgs(n: Names, ev: Call, ent: Option<Decoder.Entry>, name: string)
    requires SixArgs(ev) && FindCall(n.calls, name).None?
    ensures ArgCount(n, ev, ent, name) == if ent.Some? then Min(6, ent.value.nargs) else 6
    ensures forall i :: 0 <= i < ArgCount(n, ev, ent, name) ==>
      NormalArgs(ev, ArgCount(n, ev, ent, name))[i]
        == if ev.abi.Arm64? then ev.args[i] else ev.args[i] % 0x1_0000_0000
  {
  }

  // The event's own numbers: the thread, or the process if there is none; the call's name; its arguments, as many
  // as the table says, whole or their low halves; the result; and the duration in microseconds.
  predicate FieldsAre(f: Fields, event: SyscallEvent, table: seq<Decoder.Entry>, name: string, result: int)
    requires |event.args| == 6 && event.syscallId >= 0 && |table| == 473
  {
    var id := event.syscallId;
    && f.id == (if event.tid != 0 then event.tid else event.pid) && f.name == name
    && |f.args| == (if id < 473 && table[id].name.Some? then Min(6, table[id].nargs) else 6)
    && (forall i :: 0 <= i < |f.args| ==>
          f.args[i] == if table[0].abiBits == 64 then event.args[i] else event.args[i] % 0x1_0000_0000)
    && f.retval == result && f.micros == event.durationNs / 1000
  }

  // The line of a plain event gives these back, for the event and its table alone.
  lemma EventReadsBack(n: Names, d: Parser, event: SyscallEvent, table: seq<Decoder.Entry>, name: string, result: int)
    requires ValidNames(n) && |event.args| == 6 && event.syscallId >= 0 && |table| == 473
    requires table[0].abiBits == 32 || table[0].abiBits == 64
    requires IsNamed(table, event.syscallId, name) && IsResult(table[0].abiBits, event.ret, result)
    requires IsPlainEvent(n, table[0].abiBits, name, result)
    ensures
      var read := ReadLine(EventLine(n, d, event, table));
      read.Some? && FieldsAre(read.value, event, table, name, result)
  {
    var ev := Decoder.CallOf(event, table[0].abiBits);
    assert EventLine(n, d, event, table) == LineText(n, d, ev, table);
    EventIsCall(event, table[0].abiBits, result);
    NameIsFound(table, event.syscallId, name);
    assert SixArgs(ev);
    hide ReadLine, EventLine, LineText, CallName, LookupEntry, Decoder.CallOf, IsNamed, IsPlainEvent, IsPlain, IsResult,
         ValidNames, FindCall, ArgCount, NormalArgs;
    PlainEventIsPlain(n, ev, table[0].abiBits, name);
    PlainArgs(n, ev, LookupEntry(table, ev.nr), name);
    LineReadsBack(n, d, ev, table);
    assert ShownId(ev) == if event.tid != 0 then event.tid else event.pid;
  }

  // ----- the other results -----

  // A failed call shows -1, the name of the error and its message; mmap and brk show an unsigned address; every
  // other result is a signed number.
  lemma ResultReadsBack(n: Names, ev: Call, name: string)
    ensures
      match Text.After(ResultText(n, ev, name), " = ")
      case None => false
      case Some(shown) =>
        if -4095 <= ev.retval <= -1 then
          var error := n.errnoName(-ev.retval);
          shown == "-1 " + (if error.Some? then error.value else "ERRNO") + " (" + n.strerror(-ev.retval) + ")"
        else if name in {"mmap", "mmap2", "brk"} then
          Format.ParseHex(shown) == Some(if ev.retval < 0 then ev.retval + 0x1_0000_0000_0000_0000 else ev.retval)
        else Format.ParseSigned(shown) == Some(ev.retval)
  {
    hide Format.Hex, Format.ParseHex, Format.Signed, Format.ParseSigned;
    Format.ParseOfHex(AsUnsigned(ev.retval));
    Format.ParseOfSigned(ev.retval);
    if -4095 <= ev.retval <= -1 {
      var e := n.errnoName(-ev.retval);
      var shown := "-1 " + (if e.Some? then e.value else "ERRNO") + " (" + n.strerror(-ev.retval) + ")";
      assert ResultText(n, ev, name) == " = " + shown;
      Text.AfterFinds(" = ", shown);
    } else if name in {"mmap", "mmap2", "brk"} {
      Text.AfterFinds(" = ", Format.Hex(AsUnsigned(ev.retval)));
    } else {
      Text.AfterFinds(" = ", Format.Signed(ev.retval));
    }
  }

  // ----- arguments that are followed into memory -----

  // A string argument shows what its pointer leads to.
  lemma StringArgShows(n: Names, d: Parser, ev: Call, desc: ArgDesc, v: u64, a: nat, mem: Memory)
    requires SixArgs(ev) && ValidDesc(desc) && (desc.kind.Str? || desc.kind.Path?)
    requires PrefixReader(d, ev.pid, mem) && PointsTo(ev.abi, v, a, Max(1, d.opt.maxString))
    ensures
      match ReadView(ArgText(n, d, ev, desc, v))
      case None => false
      case Some((seen, rest)) => rest == "" && VectorLaws.ShowsString(seen, mem, a, Max(1, d.opt.maxString), v)
  {
    hide ReadView, ViewText, StringView, PrefixReader, PointsTo, VectorLaws.ShowsString;
    ViewReadsBack(ev.abi, StringView(d, ev, v), "");
    assert ViewText(ev.abi, StringView(d, ev, v)) + "" == ViewText(ev.abi, StringView(d, ev, v));
    VectorLaws.StringIsShown(d, ev, v, a, mem);
  }

  // Without a reader, or when told not to follow pointers, every argument of these kinds shows its pointer.
  lemma NothingIsFollowed(n: Names, d: Parser, ev: Call, desc: ArgDesc, v: u64)
    requires SixArgs(ev) && ValidDesc(desc) && (!d.opt.dereference || d.reader.None?) && v != 0
    requires desc.kind in {Str, Path, Strv, BufIn, BufOut, IovIn, IovOut, TimeSpec, Time64, TimeSpecOut, Time64Out}
    ensures
      var text := ArgText(n, d, ev, desc, v);
      var word := if ev.abi.ArmEabi? then v % 0x1_0000_0000 else v;
      if word == 0 then text == "NULL" else Format.ParseHex(text) == Some(word)
  {
    hide Format.Hex, Format.ParseHex;
    Format.ParseOfHex(PtrValue(ev.abi, v));
  }

  // A list of strings shows, slot by slot, what its words point to.
  lemma StrvArgShows(n: Names, d: Parser, ev: Call, desc: ArgDesc, v: u64, base: nat, mem: Memory,
                     ptrs: seq<u64>, at: seq<nat>, stop: VectorLaws.Stop)
    requires SixArgs(ev) && ValidDesc(desc) && desc.kind.Strv?
    requires PrefixReader(d, ev.pid, mem) && VectorLaws.VectorAt(ev.abi, v, base, |ptrs| + 1)
    requires VectorLaws.VectorHolds(d, ev.abi, base, mem, ptrs, at, stop)
    ensures
      var read := VectorLaws.ReadStrv(ArgText(n, d, ev, desc, v));
      read.Some? &&
      var (items, stopped) := read.value;
      && |items| == |ptrs| && stopped == stop
      && forall k :: 0 <= k < |ptrs| ==>
           VectorLaws.ShowsString(items[k], mem, at[k], Max(1, d.opt.maxString), ptrs[k])
  {
    hide VectorLaws.ReadStrv, Vectors.StrvText, VectorLaws.VectorAt, VectorLaws.ShowsString, PrefixReader;
    VectorLaws.StrvShowsMemory(d, ev, v, base, mem, ptrs, at, stop);
  }

  // A time argument shows the two signed words at its address: 64-bit ones on AArch64 and for the kinds with
  // 64-bit time, else 32-bit ones; one that a failed call should have filled in shows its pointer.
  lemma TimeArgShows(n: Names, d: Parser, ev: Call, desc: ArgDesc, v: u64, a: nat, mem: Memory, sec: s64, nsec: s64)
    requires SixArgs(ev) && ValidDesc(desc) && desc.kind in {TimeSpec, Time64, TimeSpecOut, Time64Out}
    requires
      var w := if ev.abi.Arm64? || desc.kind in {Time64, Time64Out} then 8 else 4;
      && PrefixReader(d, ev.pid, mem) && PointsTo(ev.abi, v, a, 2 * w)
      && Times.SignedAt(mem, a, w, sec) && Times.SignedAt(mem, a + w, w, nsec)
    ensures
      var text := ArgText(n, d, ev, desc, v);
      if desc.kind in {TimeSpecOut, Time64Out} && -4095 <= ev.retval <= -1 then
        ReadPointer(text) == Some(AddressOf(ev.abi, v))
      else Times.ReadTime(text) == Some((sec, nsec))
  {
    hide Times.TimeText, Times.ReadTime, Times.SignedAt, PrefixReader, PointsTo, PtrText, ReadPointer;
    Times.TimeShowsMemory(d, ev, v, a, desc.kind in {Time64, Time64Out}, mem, sec, nsec);
    PointerReadsBack(ev.abi, v);
  }

  // ----- which arguments are printed, and by whom -----

  // open and openat show a mode exactly when they may create a file.
  lemma ModeIsShownForCreation(n: Names, d: Parser, ev: Call, ent: Option<Decoder.Entry>, name: string, call: CallDesc)
    requires SixArgs(ev) && ValidNames(n) && FindCall(n.calls, name) == Some(call)
    requires (name == "open" && call.nargs == 3) || (name == "openat" && call.nargs == 4)
    ensures
      var k := if name == "open" then 2 else 3;
      var creates := ev.args[k - 1] / 0x40 % 2 == 1;
      ArgsText(n, d, ev, ent, name) == Text.Join(ArgTexts(n, d, ev, name, if creates then k + 1 else k), ", ")
  {
    hide ArgTexts, Text.Join;
  }

  // Every other described call shows as many arguments as its descriptor has, at most six.
  lemma DescribedCallShowsArgs(n: Names, d: Parser, ev: Call, ent: Option<Decoder.Entry>, name: string, call: CallDesc)
    requires SixArgs(ev) && ValidNames(n) && FindCall(n.calls, name) == Some(call)
    requires name != "open" && name != "openat" && !IsPrintedApart(if ev.abi.Arm64? then 64 else 32, name)
    ensures ArgsText(n, d, ev, ent, name) == Text.Join(ArgTexts(n, d, ev, name, Min(6, call.nargs)), ", ")
  {
    hide Text.Join, ArgTexts, FindCall, ValidNames, Concat, Eabi.AlignedText;
  }

  // Each of them by its own kind.
  lemma DescribedArgIsShown(n: Names, d: Parser, ev: Call, name: string, call: CallDesc, count: nat, i: nat)
    requires SixArgs(ev) && ValidNames(n) && FindCall(n.calls, name) == Some(call) && i < count <= 6
    ensures |call.args| == 6 && ValidDesc(call.args[i])
    ensures ArgTexts(n, d, ev, name, count)[i] == ArgText(n, d, ev, call.args[i], ev.args[i])
  {
    hide ArgText, ValidDesc;
    assert call in n.calls && call.args[i] in call.args;
  }

  // The calls with a printer of their own get it.
  lemma SpecialCallsAreApart(n: Names, d: Parser, ev: Call, ent: Option<Decoder.Entry>, name: string)
    requires SixArgs(ev) && ValidNames(n)
    requires name in {"ioctl", "bpf", "openat2", "clone3", "fcntl", "fcntl64"}
          || (name == "socketcall" && ev.abi.ArmEabi?)
    ensures ArgsText(n, d, ev, ent, name) == Concat(n.special(d, ev, name))
  {
    hide Concat, Eabi.AlignedText, ArgTexts;
  }
}
