/** What the shown strings and buffers say about the traced process's memory. */
module Memory {
  import opened Words
  import opened Remote

  // The readable part of an address space.
  type Memory = map<nat, u8>

  // These bytes are what is at address a.
  predicate At(mem: Memory, a: nat, bytes: seq<u8>) {
    forall k :: a <= k < a + |bytes| ==> k in mem && mem[k] == bytes[k - a]
  }

  ghost predicate Faithful(d: Parser, pid: u32, mem: Memory) {
    d.reader.Some? ==> forall a: u64, n: nat :: At(mem, a, d.reader.value(pid, a, n))
  }

  // The longest readable run of at most n bytes at a.
  function Prefix(mem: Memory, a: nat, n: nat): (bytes: seq<u8>)
    ensures |bytes| <= n
    ensures At(mem, a, bytes)
    ensures |bytes| < n ==> a + |bytes| !in mem
    decreases n
  {
    if n == 0 || a !in mem then []
    else
      var rest := Prefix(mem, a + 1, n - 1);
      AtCons(mem, a, rest);
      [mem[a]] + rest
  }

  predicate Readable(mem: Memory, a: nat, n: nat) {
    |Prefix(mem, a, n)| == n
  }

  lemma AtCons(mem: Memory, a: nat, rest: seq<u8>)
    requires a in mem && At(mem, a + 1, rest)
    ensures At(mem, a, [mem[a]] + rest)
  {
  }

  ghost predicate PrefixReader(d: Parser, pid: u32, mem: Memory) {
    && d.opt.dereference && d.reader.Some?
    && forall a: u64, n: nat :: d.reader.value(pid, a, n) == Prefix(mem, a, n)
  }

  // n bytes at addr neither wrap around the address space nor spill into the tag,
  // and an EABI pointer arrives zero-extended.
  predicate InRange(abi: Abi, addr: u64, n: nat) {
    && addr != 0
    && (abi.ArmEabi? ==> addr < TWO_32)
    && ReadAddr(abi, addr) + n <= AddressLimit(abi)
  }

  // Where a pointer leads: an AArch64 one without the tag in its top byte, an EABI one by its low half.
  function Target(abi: Abi, addr: u64): nat {
    if abi.Arm64? then addr % 0x100_0000_0000_0000 else addr % 0x1_0000_0000
  }

  // The same, with room for n bytes before the end of the address space, and an EABI pointer zero-extended.
  predicate PointsTo(abi: Abi, addr: u64, a: nat, n: nat) {
    && addr != 0 && a == Target(abi, addr)
    && a + n <= (if abi.Arm64? then 0x100_0000_0000_0000 else 0x1_0000_0000)
    && (abi.ArmEabi? ==> addr == a)
  }

  lemma TargetIsRead(abi: Abi, addr: u64)
    ensures Target(abi, addr) == ReadAddr(abi, addr)
  {
  }

  lemma PointsToIsInRange(abi: Abi, addr: u64, a: nat, n: nat)
    requires PointsTo(abi, addr, a, n)
    ensures a == ReadAddr(abi, addr) && InRange(abi, addr, n)
  {
    TargetIsRead(abi, addr);
  }

  lemma ReadAddrAdds(abi: Abi, addr: u64, n: nat, k: nat)
    requires InRange(abi, addr, n) && k < n
    ensures Add64(addr, k) == addr + k != 0
    ensures ReadAddr(abi, Add64(addr, k)) == ReadAddr(abi, addr) + k
  {
  }

  // ----- strings -----

  // Reading a string one byte at a time: stop at a NUL, an unreadable byte or the limit.
  function BytewiseString(mem: Memory, a: nat, max: nat): (seq<u8>, bool)
    decreases max
  {
    if max == 0 || a !in mem then ([], false)
    else if mem[a] == 0 then ([], true)
    else
      var (bytes, terminated) := BytewiseString(mem, a + 1, max - 1);
      ([mem[a]] + bytes, terminated)
  }

  lemma {:induction false} BytewiseMeans(mem: Memory, a: nat, max: nat)
    ensures
      var (bytes, terminated) := BytewiseString(mem, a, max);
      && |bytes| <= max
      && At(mem, a, bytes) && 0 !in bytes
      && (terminated <==> |bytes| < max && a + |bytes| in mem && mem[a + |bytes|] == 0)
      && (terminated || |bytes| == max || a + |bytes| !in mem)
    decreases max
  {
    if max != 0 && a in mem && mem[a] != 0 {
      BytewiseMeans(mem, a + 1, max - 1);
      var (bytes, _) := BytewiseString(mem, a + 1, max - 1);
      AtCons(mem, a, bytes);
    }
  }

  // A chunk of n bytes, then the rest.
  lemma {:induction false} BytewiseByChunk(mem: Memory, a: nat, n: nat, max: nat)
    requires n <= max
    ensures
      var got := Prefix(mem, a, n);
      var i := FirstNul(got);
      var rest := BytewiseString(mem, a + n, max - n);
      && (i < |got| ==> BytewiseString(mem, a, max) == (got[..i], true))
      && (i == |got| < n ==> BytewiseString(mem, a, max) == (got, false))
      && (i == |got| == n ==> BytewiseString(mem, a, max) == (got + rest.0, rest.1))
    decreases n
  {
    hide At, FirstNul;
    var got := Prefix(mem, a, n);
    if n == 0 {
      var whole := BytewiseString(mem, a, max);
      assert [] + whole.0 == whole.0;
    } else if a in mem {
      var rest := Prefix(mem, a + 1, n - 1);
      FirstNulOfCons(mem[a], rest);
      if mem[a] != 0 {
        BytewiseByChunk(mem, a + 1, n - 1, max - 1);
        var i := FirstNul(rest);
        var bytes := BytewiseString(mem, a + n, max - n).0;
        assert got == [mem[a]] + rest;
        hide Prefix;
        assert got[..1 + i] == [mem[a]] + rest[..i];
        assert [mem[a]] + (rest + bytes) == got + bytes;
      }
    }
  }

  lemma FirstNulOfCons(c: u8, rest: seq<u8>)
    ensures FirstNul([c] + rest) == if c == 0 then 0 else 1 + FirstNul(rest)
  {
    assert ([c] + rest)[1..] == rest;
  }

  lemma ReadIsPrefix(d: Parser, ev: Call, addr: u64, mem: Memory, max: nat, k: nat, n: nat)
    requires PrefixReader(d, ev.pid, mem) && InRange(ev.abi, addr, max) && k < max
    ensures ReadMem(d, ev, Add64(addr, k), n) == Prefix(mem, ReadAddr(ev.abi, addr) + k, n)
  {
    ReadAddrAdds(ev.abi, addr, max, k);
  }

  // The 32-byte loop and the byte-at-a-time reading agree.
  lemma {:induction false} ChunkedIsBytewise(d: Parser, ev: Call, addr: u64, mem: Memory, acc: seq<u8>, max: nat)
    requires PrefixReader(d, ev.pid, mem) && InRange(ev.abi, addr, max)
    requires |acc| <= max
    ensures
      var rest := BytewiseString(mem, ReadAddr(ev.abi, addr) + |acc|, max - |acc|);
      ChunkedString(d, ev, addr, acc, max) == (acc + rest.0, rest.1)
    decreases max - |acc|
  {
    hide ChunkedString, ReadMem, Prefix, FirstNul, BytewiseString, InRange, ReadAddr, Add64, PrefixReader;
    var a := ReadAddr(ev.abi, addr) + |acc|;
    if |acc| == max {
      ChunkedAtMax(d, ev, addr);
      assert BytewiseString(mem, a, 0) == ([], false) by { BytewiseAtMax(mem, a); }
      assert acc + [] == acc;
    } else {
      var chunk := Min(max - |acc|, 32);
      var got := Prefix(mem, a, chunk);
      ReadIsPrefix(d, ev, addr, mem, max, |acc|, chunk);
      BytewiseByChunk(mem, a, chunk, max - |acc|);
      ChunkedStep(d, ev, addr, acc, max);
      if |got| == 0 {
        assert acc + got == acc;
      } else if FirstNul(got) < |got| {
      } else if |got| < chunk {
      } else {
        ChunkedIsBytewise(d, ev, addr, mem, acc + got, max);
        var bytes := BytewiseString(mem, a + chunk, max - |acc| - chunk).0;
        assert acc + got + bytes == acc + (got + bytes);
      }
    }
  }

  lemma BytewiseAtMax(mem: Memory, a: nat)
    ensures BytewiseString(mem, a, 0) == ([], false)
  {
  }

  lemma StringViewIsBytewise(d: Parser, ev: Call, addr: u64, a: nat, mem: Memory)
    requires PrefixReader(d, ev.pid, mem) && PointsTo(ev.abi, addr, a, Max(1, d.opt.maxString))
    ensures
      var (bytes, terminated) := BytewiseString(mem, a, Max(1, d.opt.maxString));
      StringView(d, ev, addr) == if bytes == [] && !terminated then Unreadable(addr) else Shown(bytes, !terminated)
  {
    assert addr != 0 && CanRead(d);
    assert StringMax(d) == Max(1, d.opt.maxString);
    hide ChunkedString, BytewiseString, ReadAddr, InRange, PointsTo, PrefixReader, CanRead, StringMax, Max;
    PointsToIsInRange(ev.abi, addr, a, Max(1, d.opt.maxString));
    ChunkedIsBytewise(d, ev, addr, mem, [], StringMax(d));
    var bytes := BytewiseString(mem, a, StringMax(d)).0;
    assert [] + bytes == bytes;
  }

  // Byte k of a string comes out of one read of 32 bytes, or of what is left below the limit.
  predicate ComesFrom(d: Parser, ev: Call, addr: u64, max: nat, k: nat, c: u8)
    requires k < max
  {
    var start := k - k % 32;
    var got := ReadMem(d, ev, Add64(addr, start), Min(32, max - start));
    k % 32 < |got| && got[k % 32] == c
  }

  // Whatever the reader answers, a string is put together from such reads.
  lemma {:induction false} StringComesInChunks(d: Parser, ev: Call, addr: u64, acc: seq<u8>, max: nat)
    requires |acc| <= max && (|acc| < max ==> |acc| % 32 == 0)
    ensures
      var bytes := ChunkedString(d, ev, addr, acc, max).0;
      && |acc| <= |bytes| <= max && bytes[..|acc|] == acc
      && forall k :: |acc| <= k < |bytes| ==> ComesFrom(d, ev, addr, max, k, bytes[k])
    decreases max - |acc|
  {
    hide ChunkedString, ReadMem, FirstNul, Add64;
    if |acc| == max {
      ChunkedAtMax(d, ev, addr);
    } else {
      var chunk := Min(max - |acc|, 32);
      var got := ReadMem(d, ev, Add64(addr, |acc|), chunk);
      ChunkedStep(d, ev, addr, acc, max);
      OneChunk(d, ev, addr, |acc|, max);
      assert forall k :: |acc| <= k < |acc| + |got| ==> ComesFrom(d, ev, addr, max, k, (acc + got)[k]) by {
        assert forall k :: |acc| <= k < |acc| + |got| ==> (acc + got)[k] == got[k - |acc|] && |acc| + (k - |acc|) == k;
      }
      if |got| == chunk && FirstNul(got) == |got| {
        StringComesInChunks(d, ev, addr, acc + got, max);
        var bytes := ChunkedString(d, ev, addr, acc + got, max).0;
        assert forall k :: 0 <= k < |acc + got| ==> bytes[k] == bytes[..|acc + got|][k] == (acc + got)[k];
      }
      hide ComesFrom;
    }
  }

  lemma OneChunk(d: Parser, ev: Call, addr: u64, n: nat, max: nat)
    requires n < max && n % 32 == 0
    ensures
      var got := ReadMem(d, ev, Add64(addr, n), Min(32, max - n));
      forall j :: 0 <= j < |got| ==> ComesFrom(d, ev, addr, max, n + j, got[j])
  {
    hide ReadMem, Add64;
    var got := ReadMem(d, ev, Add64(addr, n), Min(32, max - n));
    forall j | 0 <= j < |got|
      ensures ComesFrom(d, ev, addr, max, n + j, got[j])
    {
      assert (n + j) % 32 == j;
    }
  }

  // print_cstring, declaratively, for a pointer that leads to a.
  lemma StringShowsMemory(d: Parser, ev: Call, addr: u64, a: nat, mem: Memory)
    requires PrefixReader(d, ev.pid, mem) && PointsTo(ev.abi, addr, a, Max(1, d.opt.maxString))
    ensures
      var max := Max(1, d.opt.maxString);
      match StringView(d, ev, addr)
      case Pointer(_) => false
      case Unreadable(p) => p == addr && a !in mem
      case Shown(bytes, more) =>
        && a in mem
        && |bytes| <= max
        && At(mem, a, bytes) && 0 !in bytes
        && (!more <==> |bytes| < max && a + |bytes| in mem && mem[a + |bytes|] == 0)
        && (more ==> |bytes| == max || a + |bytes| !in mem)
  {
    hide BytewiseString, PointsTo, PrefixReader, StringView;
    StringViewIsBytewise(d, ev, addr, a, mem);
    BytewiseMeans(mem, a, Max(1, d.opt.maxString));
    assert forall bytes: seq<u8> :: bytes != [] && At(mem, a, bytes) ==> a in mem;
    hide At;
  }

  // ----- buffers -----

  // A buffer never shows more than was requested or may be shown, and nothing but memory;
  // there is an ellipsis exactly when something, but not all that was requested, is shown.
  lemma BufferNeverOverShows(d: Parser, ev: Call, addr: u64, requested: u64, a: nat, mem: Memory)
    requires Faithful(d, ev.pid, mem) && a == Target(ev.abi, addr)
    ensures
      match BufferView(d, ev, addr, requested)
      case Pointer(p) => p == addr && (addr == 0 || !d.opt.dereference || d.reader.None?)
      case Unreadable(p) => p == addr && addr != 0 && d.opt.dereference && d.reader.Some?
      case Shown(bytes, more) =>
        && |bytes| <= Min(requested, d.opt.maxBuffer)
        && At(mem, a, bytes)
        && (more <==> 0 < |bytes| < requested)
  {
    TargetIsRead(ev.abi, addr);
  }

  // And it shows all of that when the memory can be read.
  lemma BufferShowsAll(d: Parser, ev: Call, addr: u64, requested: u64, a: nat, mem: Memory)
    requires PrefixReader(d, ev.pid, mem) && a == Target(ev.abi, addr) && addr != 0
    requires Readable(mem, a, Min(requested, d.opt.maxBuffer))
    ensures
      var n := Min(requested, d.opt.maxBuffer);
      BufferView(d, ev, addr, requested) == Shown(Prefix(mem, a, n), 0 < n < requested)
  {
    TargetIsRead(ev.abi, addr);
  }

  // What was asked for, or what was returned if that is less; no length argument asks for nothing.
  function OutputLimit(ev: Call, index: int): nat
    requires SixArgs(ev) && index < 6
  {
    Min(if index >= 0 then ev.args[index] else 0, Max(ev.retval, 0))
  }

  // A buffer that a call filled in is limited by what it returned, too; after a failed call it is not looked at.
  lemma OutputIsLimited(d: Parser, ev: Call, index: int, addr: u64)
    requires SixArgs(ev) && index < 6
    ensures
      OutputView(d, ev, index, addr) ==
        if -4095 <= ev.retval <= -1 then Pointer(addr) else BufferView(d, ev, addr, OutputLimit(ev, index))
  {
  }
}
