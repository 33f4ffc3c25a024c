/** Time specifications: two signed words in the traced process, 64-bit or 32-bit ones. */
module Times {
  import opened Words
  import opened OutBuffer
  import opened Remote
  import opened Memory
  import opened Vectors
  import opened VectorLaws
  import opened ViewLaws
  import Format
  import Text

  datatype Time = Time(sec: s64, nsec: s64)

  // The two words, or None when they cannot be read whole.
  function TimeOf(d: Parser, ev: Call, addr: u64, wide: bool): Option<Time> {
    if ev.abi.Arm64? || wide then
      var raw := ReadMem(d, ev, addr, 16);
      if |raw| == 16 then Some(Time(AsInt64(Word(raw[..8])), AsInt64(Word(raw[8..])))) else None
    else
      var raw := ReadMem(d, ev, addr, 8);
      if |raw| == 8 then Some(Time(AsInt32(Word(raw[..4])), AsInt32(Word(raw[4..])))) else None
  }

  function TimeText(d: Parser, ev: Call, addr: u64, wide: bool): string {
    if addr == 0 then "NULL"
    else
      match TimeOf(d, ev, addr, wide)
      case Some(t) => "{tv_sec=" + Format.Signed(t.sec) + ", tv_nsec=" + Format.Signed(t.nsec) + "}"
      case None => PtrText(ev.abi, addr)
  }

  method PrintTimeSpec(d: Parser, ev: Call, o: Out, addr: u64, wide: bool)
    requires o.Valid()
    modifies o, o.buf
    ensures o.Valid() && o.text == old(o.text) + TimeText(d, ev, addr, wide)
  {
    hide Image, PtrText, Format.Signed, Word, Word32;
    if addr == 0 {
      o.Printf("NULL");
      return;
    }
    if ev.abi.Arm64? || wide {
      var raw := ReadMem(d, ev, addr, 16);
      if |raw| == 16 {
        var sec, nsec := AsInt64(Word(raw[..8])), AsInt64(Word(raw[8..]));
        o.Printf("{tv_sec=" + Format.Signed(sec) + ", tv_nsec=" + Format.Signed(nsec) + "}");
      } else {
        PrintPtr(o, ev.abi, addr);
      }
    } else {
      var raw := ReadMem(d, ev, addr, 8);
      if |raw| == 8 {
        var sec, nsec := AsInt32(Word(raw[..4])), AsInt32(Word(raw[4..]));
        o.Printf("{tv_sec=" + Format.Signed(sec) + ", tv_nsec=" + Format.Signed(nsec) + "}");
      } else {
        PrintPtr(o, ev.abi, addr);
      }
    }
  }

  // ----- reading it back -----

  function ReadTime(text: string): Option<(int, int)> {
    match Text.After(text, "{tv_sec=")
    case None => None
    case Some(s1) =>
      match Text.Until(s1, ',')
      case None => None
      case Some((sec, s2)) =>
        match Text.After(s2, " tv_nsec=")
        case None => None
        case Some(s3) =>
          match Text.Until(s3, '}')
          case None => None
          case Some((nsec, end)) =>
            match (Format.ParseSigned(sec), Format.ParseSigned(nsec))
            case (Some(a), Some(b)) => if end == "" then Some((a, b)) else None
            case _ => None
  }

  lemma ReadTimeOfText(sec: s64, nsec: s64)
    ensures ReadTime("{tv_sec=" + Format.Signed(sec) + ", tv_nsec=" + Format.Signed(nsec) + "}") == Some((sec, nsec))
  {
    hide Format.Signed, Format.ParseSigned;
    var (a, b) := (Format.Signed(sec), Format.Signed(nsec));
    Format.ParseOfSigned(sec);
    Format.ParseOfSigned(nsec);
    var s3 := b + ['}'] + "";
    var s2 := " tv_nsec=" + s3;
    var s1 := a + [','] + s2;
    assert "{tv_sec=" + a + ", tv_nsec=" + b + "}" == "{tv_sec=" + s1;
    Text.AfterFinds("{tv_sec=", s1);
    Text.UntilFinds(a, ',', s2);
    Text.AfterFinds(" tv_nsec=", s3);
    Text.UntilFinds(b, '}', "");
  }

  // v in two's complement, lowest byte first.
  predicate SignedAt(mem: Memory, a: nat, width: nat, v: int) {
    if width == 8 then
      -0x8000_0000_0000_0000 <= v < 0x8000_0000_0000_0000
      && WordAt(mem, a, 8, if v < 0 then v + 0x1_0000_0000_0000_0000 else v)
    else
      -0x8000_0000 <= v < 0x8000_0000 && WordAt(mem, a, 4, if v < 0 then v + 0x1_0000_0000 else v)
  }

  lemma ReadsPrefix(d: Parser, ev: Call, addr: u64, a: nat, n: nat, mem: Memory)
    requires PrefixReader(d, ev.pid, mem) && PointsTo(ev.abi, addr, a, n)
    ensures ReadMem(d, ev, addr, n) == Prefix(mem, a, n)
  {
    TargetIsRead(ev.abi, addr);
  }

  lemma WideIsRead(mem: Memory, a: nat, v: s64)
    requires SignedAt(mem, a, 8, v)
    ensures |Prefix(mem, a, 8)| == 8 && AsInt64(Word(Prefix(mem, a, 8))) == v
  {
    hide Pow256, WordAt, Prefix, Word;
    var p: u64 := if v < 0 then v + TWO_64 else v;
    PrefixOfWord(mem, a, 8, p);
    Word64OfBytes(Prefix(mem, a, 8), p);
  }

  lemma NarrowIsRead(mem: Memory, a: nat, v: s32)
    requires SignedAt(mem, a, 4, v)
    ensures |Prefix(mem, a, 4)| == 4 && AsInt32(Word(Prefix(mem, a, 4))) == v
  {
    hide Pow256, WordAt, Prefix, Word32;
    var p: u32 := if v < 0 then v + TWO_32 else v;
    PrefixOfWord(mem, a, 4, p);
    Word32OfBytes(Prefix(mem, a, 4), p);
  }

  lemma SignedPair(mem: Memory, a: nat, w: nat, first: int, second: int)
    requires w == 4 || w == 8
    requires SignedAt(mem, a, w, first) && SignedAt(mem, a + w, w, second)
    ensures |Prefix(mem, a, 2 * w)| == 2 * w
    ensures Prefix(mem, a, 2 * w)[..w] == Prefix(mem, a, w) && Prefix(mem, a, 2 * w)[w..] == Prefix(mem, a + w, w)
  {
    hide WordAt, Prefix;
    var m := if w == 8 then TWO_64 else TWO_32;
    PairOfWords(mem, a, w, if first < 0 then first + m else first, if second < 0 then second + m else second);
  }

  // The text gives back the two signed words: 64-bit ones on AArch64 and for the calls that say so, else 32-bit ones.
  lemma TimeShowsMemory(d: Parser, ev: Call, addr: u64, a: nat, wide: bool, mem: Memory, sec: s64, nsec: s64)
    requires
      var w := if ev.abi.Arm64? || wide then 8 else 4;
      && PrefixReader(d, ev.pid, mem) && PointsTo(ev.abi, addr, a, 2 * w)
      && SignedAt(mem, a, w, sec) && SignedAt(mem, a + w, w, nsec)
    ensures ReadTime(TimeText(d, ev, addr, wide)) == Some((sec, nsec))
  {
    var w := if ev.abi.Arm64? || wide then 8 else 4;
    assert addr != 0 && (w == 4 ==> -0x8000_0000 <= sec < 0x8000_0000 && -0x8000_0000 <= nsec < 0x8000_0000);
    hide SignedAt, PrefixReader, PointsTo, Prefix, Format.Signed, ReadTime, Word, ReadMem, AsInt64, AsInt32;
    ReadsPrefix(d, ev, addr, a, 2 * w, mem);
    SignedPair(mem, a, w, sec, nsec);
    if w == 8 {
      WideIsRead(mem, a, sec);
      WideIsRead(mem, a + 8, nsec);
    } else {
      NarrowIsRead(mem, a, sec);
      NarrowIsRead(mem, a + 4, nsec);
    }
    ReadTimeOfText(sec, nsec);
  }
}
