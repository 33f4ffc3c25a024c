/** What the decoder sees of the traced process: pointers, strings and buffers behind a memory reader. */
module Remote {
  import opened Words
  import opened OutBuffer
  import Format
  import Quoting

  datatype Abi = Arm64 | ArmEabi

  // A reader maps (pid, address, length) to the bytes it copied, never more than asked for.
  // A failed read is the empty sequence: no caller tells an error from zero bytes.
  type Reader = read: (u32, u64, nat) -> seq<u8>
    | forall pid: u32, a: u64, n: nat :: |read(pid, a, n)| <= n
    witness (pid: u32, a: u64, n: nat) => []

  datatype Options = Options(maxString: u64, maxBuffer: u64, maxArray: u64, dereference: bool, symbolic: bool)

  datatype Parser = Parser(opt: Options, reader: Option<Reader>)

  // sd_event_t; six argument registers.
  datatype Call = Call(abi: Abi, nr: u32, pid: u32, tid: u32, args: seq<u64>, retval: s64, durationNs: u64)

  predicate SixArgs(ev: Call) {
    |ev.args| == 6
  }

  function Width(abi: Abi): nat {
    if abi.Arm64? then 8 else 4
  }

  function PtrValue(abi: Abi, v: u64): u64 {
    if abi.ArmEabi? then Low32(v) else v
  }

  // The address as the reader gets it: AArch64 drops the tag in the top byte.
  function ReadAddr(abi: Abi, v: u64): u64 {
    if abi.Arm64? then PtrValue(abi, v) % TWO_56 else PtrValue(abi, v)
  }

  function AddressLimit(abi: Abi): nat {
    if abi.Arm64? then TWO_56 else TWO_32
  }

  predicate IsError(retval: s64) {
    -4095 <= retval < 0
  }

  function NormalizeArg(abi: Abi, v: u64): u64 {
    if abi.ArmEabi? then Low32(v) else v
  }

  function NormalizeRetval(abi: Abi, v: u64): s64 {
    if abi.ArmEabi? then AsInt32(v) else AsInt64(v)
  }

  predicate CanRead(d: Parser) {
    d.opt.dereference && d.reader.Some?
  }

  // d->reader.read(...)
  function Fetch(d: Parser, pid: u32, addr: u64, size: nat): (bytes: seq<u8>)
    requires d.reader.Some?
    ensures |bytes| <= size
  {
    d.reader.value(pid, addr, size)
  }

  function ReadMem(d: Parser, ev: Call, addr: u64, size: nat): (bytes: seq<u8>)
    ensures |bytes| <= size
  {
    if !CanRead(d) || addr == 0 then [] else Fetch(d, ev.pid, ReadAddr(ev.abi, addr), size)
  }

  function PtrText(abi: Abi, v: u64): string {
    if PtrValue(abi, v) == 0 then "NULL" else Format.Hex(PtrValue(abi, v))
  }

  // What is shown for a pointer: itself, itself with a note, or the bytes behind it.
  datatype View = Pointer(p: u64) | Unreadable(p: u64) | Shown(bytes: seq<u8>, more: bool)

  function ViewText(abi: Abi, v: View): string {
    match v
    case Pointer(p) => PtrText(abi, p)
    case Unreadable(p) => PtrText(abi, p) + " /* unreadable */"
    case Shown(bytes, more) => Quoting.Quoted(bytes, more)
  }

  method PrintPtr(o: Out, abi: Abi, v: u64)
    requires o.Valid()
    modifies o, o.buf
    ensures o.Valid() && o.text == old(o.text) + PtrText(abi, v)
  {
    var value := PtrValue(abi, v);
    if value == 0 {
      o.Printf("NULL");
    } else {
      o.Printf(Format.Hex(value));
    }
  }

  // ----- NUL-terminated strings -----

  function FirstNul(b: seq<u8>): (i: nat)
    ensures i <= |b|
    ensures forall k :: 0 <= k < i ==> b[k] != 0
    ensures i < |b| ==> b[i] == 0
  {
    if b == [] || b[0] == 0 then 0 else 1 + FirstNul(b[1..])
  }

  // The bytes found and whether a NUL ended them, reading 32 bytes at a time after `acc`.
  function ChunkedString(d: Parser, ev: Call, addr: u64, acc: seq<u8>, max: nat): (seq<u8>, bool)
    requires |acc| <= max
    decreases max - |acc|
  {
    if |acc| == max then (acc, false)
    else
      var chunk := Min(max - |acc|, 32);
      var got := ReadMem(d, ev, Add64(addr, |acc|), chunk);
      var i := FirstNul(got);
      if got == [] then (acc, false)
      else if i < |got| then (acc + got[..i], true)
      else if |got| < chunk then (acc + got, false)
      else ChunkedString(d, ev, addr, acc + got, max)
  }

  function StringMax(d: Parser): nat {
    if d.opt.maxString == 0 then 1 else d.opt.maxString
  }

  function StringView(d: Parser, ev: Call, addr: u64): View {
    if addr == 0 || !CanRead(d) then Pointer(addr)
    else
      var (bytes, terminated) := ChunkedString(d, ev, addr, [], StringMax(d));
      if bytes == [] && !terminated then Unreadable(addr) else Shown(bytes, !terminated)
  }

  // One turn of the loop, case by case.
  lemma ChunkedStep(d: Parser, ev: Call, addr: u64, acc: seq<u8>, max: nat)
    requires |acc| < max
    ensures
      var chunk := Min(max - |acc|, 32);
      var got := ReadMem(d, ev, Add64(addr, |acc|), chunk);
      var i := FirstNul(got);
      && (|got| == 0 ==> ChunkedString(d, ev, addr, acc, max) == (acc, false))
      && (i < |got| ==> ChunkedString(d, ev, addr, acc, max) == (acc + got[..i], true))
      && (0 < |got| < chunk && i == |got| ==> ChunkedString(d, ev, addr, acc, max) == (acc + got, false))
      && (0 < |got| == chunk && i == |got| ==>
            ChunkedString(d, ev, addr, acc, max) == ChunkedString(d, ev, addr, acc + got, max))
  {
  }

  lemma ChunkedAtMax(d: Parser, ev: Call, addr: u64)
    ensures forall acc: seq<u8> :: ChunkedString(d, ev, addr, acc, |acc|) == (acc, false)
  {
  }

  // Where the reader puts what it copied.
  method CopyInto(buf: array<u8>, at: nat, data: seq<u8>)
    requires at + |data| <= buf.Length
    modifies buf
    ensures buf[..at] == old(buf[..at]) && buf[at..at + |data|] == data
  {
    forall j | 0 <= j < |data| {
      buf[at + j] := data[j];
    }
  }

  method ScanForNul(buf: array<u8>, at: nat, n: nat) returns (i: nat)
    requires at + n <= buf.Length
    ensures i == FirstNul(buf[at..at + n])
  {
    i := 0;
    ghost var got := buf[at..at + n];
    while i < n && buf[at + i] != 0
      invariant i <= n
      invariant forall k :: 0 <= k < i ==> got[k] != 0
    {
      i := i + 1;
    }
  }

  lemma Extended(s: seq<u8>, used: nat, n: nat, i: nat)
    requires used + n <= |s| && i <= n
    ensures s[..used + i] == s[..used] + s[used..used + n][..i]
  {
  }

  // The loop of print_cstring: fills buf and says how much of it is the string.
  method ReadString(d: Parser, ev: Call, addr: u64, max: nat) returns (bytes: seq<u8>, terminated: bool)
    ensures (bytes, terminated) == ChunkedString(d, ev, addr, [], max)
  {
    hide FirstNul, ReadMem, Add64, ChunkedString;
    var buf := new u8[max];
    var used := 0;
    terminated := false;
    ChunkedAtMax(d, ev, addr);
    ghost var whole := ChunkedString(d, ev, addr, [], max);
    while used < max
      invariant used <= max
      invariant ChunkedString(d, ev, addr, buf[..used], max) == whole
      invariant !terminated
    {
      var chunk := if max - used > 32 then 32 else max - used;
      var got := ReadMem(d, ev, Add64(addr, used), chunk);
      ghost var acc := buf[..used];
      ChunkedStep(d, ev, addr, acc, max);
      CopyInto(buf, used, got);
      if |got| == 0 {
        break;
      }
      var i := ScanForNul(buf, used, |got|);
      Extended(buf[..], used, |got|, i);
      assert buf[..used + i] == acc + got[..i];
      if i < |got| {
        used := used + i;
        terminated := true;
        break;
      }
      assert got[..i] == got;
      used := used + |got|;
      if |got| < chunk {
        break;
      }
    }
    bytes := buf[..used];
  }

  method PrintCString(d: Parser, ev: Call, o: Out, addr: u64)
    requires o.Valid()
    modifies o, o.buf
    ensures o.Valid() && o.text == old(o.text) + ViewText(ev.abi, StringView(d, ev, addr))
  {
    hide Image, ChunkedString, Quoting.Quoted, PtrText;
    if addr == 0 {
      o.Printf("NULL");
      assert PtrText(ev.abi, 0) == "NULL" by { PtrTextOfNull(ev.abi); }
      return;
    }
    if !CanRead(d) {
      PrintPtr(o, ev.abi, addr);
      return;
    }
    var max := if d.opt.maxString != 0 then d.opt.maxString else 1;
    var bytes, terminated := ReadString(d, ev, addr, max);
    if |bytes| == 0 && !terminated {
      PrintPtr(o, ev.abi, addr);
      o.Printf(" /* unreadable */");
    } else {
      Quoting.PrintQuoted(o, bytes, !terminated);
    }
  }

  lemma PtrTextOfNull(abi: Abi)
    ensures PtrText(abi, 0) == "NULL"
  {
  }

  // ----- buffers of a known length -----

  function BufferView(d: Parser, ev: Call, addr: u64, requested: u64): View {
    if addr == 0 || !CanRead(d) then Pointer(addr)
    else
      var want := Min(requested, d.opt.maxBuffer);
      if want == 0 then Shown([], false)
      else
        var got := ReadMem(d, ev, addr, want);
        if got == [] then Unreadable(addr) else Shown(got, requested > |got|)
  }

  method PrintBuffer(d: Parser, ev: Call, o: Out, addr: u64, requested: u64)
    requires o.Valid()
    modifies o, o.buf
    ensures o.Valid() && o.text == old(o.text) + ViewText(ev.abi, BufferView(d, ev, addr, requested))
  {
    hide Image, PtrText;
    if addr == 0 {
      o.Printf("NULL");
      assert PtrText(ev.abi, 0) == "NULL" by { PtrTextOfNull(ev.abi); }
      return;
    }
    if !CanRead(d) {
      PrintPtr(o, ev.abi, addr);
      return;
    }
    var want := if requested > d.opt.maxBuffer then d.opt.maxBuffer else requested;
    if want == 0 {
      o.Printf("\"\"");
      assert Quoting.Quoted([], false) == "\"\"";
      return;
    }
    var got := ReadMem(d, ev, addr, want);
    if |got| == 0 {
      PrintPtr(o, ev.abi, addr);
      o.Printf(" /* unreadable */");
    } else {
      Quoting.PrintQuoted(o, got, requested > |got|);
    }
  }

  // buffer_count: how long the buffer described by argument `index` is.
  function BufferCount(ev: Call, index: int, output: bool): u64
    requires SixArgs(ev) && index < 6
  {
    var requested := if index >= 0 then ev.args[index] else 0;
    if output && !IsError(ev.retval) then
      var returned := if ev.retval > 0 then ev.retval else 0;
      if returned < requested then returned else requested
    else requested
  }

  // A buffer the call filled in, with its length in argument `index`.
  function OutputView(d: Parser, ev: Call, index: int, addr: u64): View
    requires SixArgs(ev) && index < 6
  {
    if IsError(ev.retval) then Pointer(addr) else BufferView(d, ev, addr, BufferCount(ev, index, true))
  }

  method PrintOutputBuffer(d: Parser, ev: Call, o: Out, index: int, addr: u64)
    requires o.Valid() && SixArgs(ev) && index < 6
    modifies o, o.buf
    ensures o.Valid() && o.text == old(o.text) + ViewText(ev.abi, OutputView(d, ev, index, addr))
  {
    if !IsError(ev.retval) {
      PrintBuffer(d, ev, o, addr, BufferCount(ev, index, true));
    } else {
      PrintPtr(o, ev.abi, addr);
    }
  }
}
