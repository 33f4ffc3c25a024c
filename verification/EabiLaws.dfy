/** The five EABI calls with a 64-bit argument, from the C arguments through the registers to the text and back. */
module EabiLaws {
  import opened Words
  import opened Remote
  import opened Decoder
  import opened Eabi
  import opened Memory
  import opened ViewLaws
  import BufferLaws
  import Format
  import Text
  import VectorLaws

  // A number, and what follows the comma and the blank after it.
  function ReadSigned(s: string): Option<(int, string)> {
    match Text.Until(s, ',')
    case None => None
    case Some((digits, s1)) =>
      match (Format.ParseSigned(digits), Text.After(s1, " "))
      case (Some(i), Some(rest)) => Some((i, rest))
      case _ => None
  }

  function ReadUnsigned(s: string): Option<(nat, string)> {
    match Text.Until(s, ',')
    case None => None
    case Some((digits, s1)) =>
      match (Format.ParseDigits(10, digits), Text.After(s1, " "))
      case (Some(i), Some(rest)) => Some((i, rest))
      case _ => None
  }

  // "fd, buffer, count, offset"
  function ReadPositional(s: string): Option<(int, Seen, nat, nat)> {
    match ReadSigned(s)
    case None => None
    case Some((fd, s1)) =>
      match ReadView(s1)
      case None => None
      case Some((seen, s2)) =>
        match Text.After(s2, ", ")
        case None => None
        case Some(s3) =>
          match ReadUnsigned(s3)
          case None => None
          case Some((count, s4)) =>
            match Format.ParseDigits(10, s4)
            case None => None
            case Some(offset) => Some((fd, seen, count, offset))
  }

  // "fd, offset, count"
  function ReadAhead(s: string): Option<(int, nat, nat)> {
    match ReadSigned(s)
    case None => None
    case Some((fd, s1)) =>
      match ReadUnsigned(s1)
      case None => None
      case Some((offset, s2)) =>
        match Format.ParseDigits(10, s2)
        case None => None
        case Some(count) => Some((fd, offset, count))
  }

  // "path, length"
  function ReadPathLength(s: string): Option<(Seen, nat)> {
    match ReadView(s)
    case None => None
    case Some((seen, s1)) =>
      match Text.After(s1, ", ")
      case None => None
      case Some(s2) =>
        match Format.ParseDigits(10, s2)
        case None => None
        case Some(length) => Some((seen, length))
  }

  // "fd, length"
  function ReadFdLength(s: string): Option<(int, nat)> {
    match ReadSigned(s)
    case None => None
    case Some((fd, s1)) =>
      match Format.ParseDigits(10, s1)
      case None => None
      case Some(length) => Some((fd, length))
  }

  // A signed 32-bit argument in its register.
  function Register(i: s32): u32 {
    if i < 0 then i + 0x1_0000_0000 else i
  }

  lemma RegisterIsSigned(i: s32)
    ensures AsInt32(Register(i)) == i
  {
  }

  lemma ReadSignedOf(i: int, rest: string)
    ensures ReadSigned(Format.Signed(i) + ", " + rest) == Some((i, rest))
  {
    hide Format.Signed, Format.ParseSigned;
    Format.ParseOfSigned(i);
    assert Format.Signed(i) + ", " + rest == Format.Signed(i) + [','] + (" " + rest);
    Text.UntilFinds(Format.Signed(i), ',', " " + rest);
    Text.AfterFinds(" ", rest);
  }

  lemma ReadUnsignedOf(i: nat, rest: string)
    ensures ReadUnsigned(Format.Decimal(i) + ", " + rest) == Some((i, rest))
  {
    hide Format.Digits, Format.ParseDigits;
    Format.ParseOfDigits(10, i);
    Format.DigitsAreDigits(10, i);
    assert Format.Decimal(i) + ", " + rest == Format.Decimal(i) + [','] + (" " + rest);
    Text.UntilFinds(Format.Decimal(i), ',', " " + rest);
    Text.AfterFinds(" ", rest);
  }

  lemma ReadPositionalOf(abi: Abi, fd: int, view: View, count: nat, offset: nat)
    ensures
      ReadPositional(Format.Signed(fd) + ", " + ViewText(abi, view)
                     + (", " + Format.Decimal(count) + ", " + Format.Decimal(offset)))
        == Some((fd, SeenOf(abi, view), count, offset))
  {
    hide ReadSigned, ReadUnsigned, ReadView, ViewText, SeenOf, Format.Signed, Format.ParseDigits;
    var s4 := Format.Decimal(offset);
    var s3 := Format.Decimal(count) + ", " + s4;
    var s2 := ", " + s3;
    var s1 := ViewText(abi, view) + s2;
    assert Format.Signed(fd) + ", " + ViewText(abi, view) + (", " + Format.Decimal(count) + ", " + s4)
        == Format.Signed(fd) + ", " + s1;
    ReadSignedOf(fd, s1);
    ViewReadsBack(abi, view, s2);
    Text.AfterFinds(", ", s3);
    ReadUnsignedOf(count, s4);
    Format.ParseOfDigits(10, offset);
  }

  lemma ReadAheadOf(fd: int, offset: nat, count: nat)
    ensures ReadAhead(Format.Signed(fd) + ", " + Format.Decimal(offset) + ", " + Format.Decimal(count))
         == Some((fd, offset, count))
  {
    hide ReadSigned, ReadUnsigned, Format.Signed, Format.ParseDigits;
    var s2 := Format.Decimal(count);
    var s1 := Format.Decimal(offset) + ", " + s2;
    assert Format.Signed(fd) + ", " + Format.Decimal(offset) + ", " + s2 == Format.Signed(fd) + ", " + s1;
    ReadSignedOf(fd, s1);
    ReadUnsignedOf(offset, s2);
    Format.ParseOfDigits(10, count);
  }

  lemma ReadPathLengthOf(abi: Abi, view: View, length: nat)
    ensures ReadPathLength(ViewText(abi, view) + (", " + Format.Decimal(length))) == Some((SeenOf(abi, view), length))
  {
    hide ReadView, ViewText, SeenOf, Format.ParseDigits;
    ViewReadsBack(abi, view, ", " + Format.Decimal(length));
    Text.AfterFinds(", ", Format.Decimal(length));
    Format.ParseOfDigits(10, length);
  }

  lemma ReadFdLengthOf(fd: int, length: nat)
    ensures ReadFdLength(Format.Signed(fd) + (", " + Format.Decimal(length))) == Some((fd, length))
  {
    hide ReadSigned, Format.Signed, Format.ParseDigits;
    assert Format.Signed(fd) + (", " + Format.Decimal(length)) == Format.Signed(fd) + ", " + Format.Decimal(length);
    ReadSignedOf(fd, Format.Decimal(length));
    Format.ParseOfDigits(10, length);
  }

  // ----- from the C arguments to the text and back -----

  // pread64(fd, buf, count, offset) and pwrite64: the four arguments in C order. A write shows what it was given;
  // a read shows what it filled in, or the pointer if it failed.
  lemma PositionalReadsBack(n: Names, d: Parser, ev: Call, ent: Option<Decoder.Entry>, name: string,
                            fd: s32, buf: u32, count: u32, offset: u64, hole: u32, mem: Memory)
    requires SixArgs(ev) && ValidNames(n) && ev.abi.ArmEabi? && (name == "pread64" || name == "pwrite64")
    requires Holds(ev.args, Lower([W32(Register(fd)), W32(buf), W32(count), W64(offset)], 0, hole))
    requires Faithful(d, ev.pid, mem)
    ensures
      match ReadPositional(ArgsText(n, d, ev, ent, name))
      case None => false
      case Some((f, seen, c, o)) =>
        && f == fd && c == count && o == offset
        && if name == "pwrite64" then BufferLaws.ShowsBuffer(seen, d, ev, buf, count, mem)
           else if -4095 <= ev.retval <= -1 then seen == Address(buf, false)
           else BufferLaws.ShowsBuffer(seen, d, ev, buf, Min(count, Max(ev.retval, 0)), mem)
  {
    hide BufferLaws.ShowsBuffer, ReadPositional, ViewText, BufferView, OutputView, Faithful, Format.Signed, Format.Digits;
    var cs := [W32(Register(fd)), W32(buf), W32(count), W64(offset)];
    LiftInvertsLower(name, cs, hole, ev.args);
    LowerPositional(Register(fd), buf, count, offset, hole);
    assert ev.args[1] == buf && ev.args[2] == count;
    hide Lower, Lift, Holds;
    RegisterIsSigned(fd);
    ReadPositionalOf(ev.abi, fd, PositionalView(d, ev, name), count, offset);
    if name == "pwrite64" {
      BufferLaws.BufferIsShown(d, ev, buf, count, mem);
    } else {
      OutputIsLimited(d, ev, 2, buf);
      BufferLaws.BufferIsShown(d, ev, buf, OutputLimit(ev, 2), mem);
    }
  }

  // readahead(fd, offset, count)
  lemma ReadaheadReadsBack(n: Names, d: Parser, ev: Call, ent: Option<Decoder.Entry>,
                           fd: s32, offset: u64, count: u32, hole: u32)
    requires SixArgs(ev) && ValidNames(n) && ev.abi.ArmEabi?
    requires Holds(ev.args, Lower([W32(Register(fd)), W64(offset), W32(count)], 0, hole))
    ensures ReadAhead(ArgsText(n, d, ev, ent, "readahead")) == Some((fd, offset, count))
  {
    hide ReadAhead, Format.Signed, Format.Digits;
    LiftInvertsLower("readahead", [W32(Register(fd)), W64(offset), W32(count)], hole, ev.args);
    hide Lower, Lift, Holds;
    RegisterIsSigned(fd);
    ReadAheadOf(fd, offset, count);
  }

  // truncate64(path, length): what is seen at the path's address, and the length.
  lemma TruncateReadsBack(n: Names, d: Parser, ev: Call, ent: Option<Decoder.Entry>,
                          path: u32, length: u64, hole: u32, mem: Memory)
    requires SixArgs(ev) && ValidNames(n) && ev.abi.ArmEabi?
    requires Holds(ev.args, Lower([W32(path), W64(length)], 0, hole))
    requires PrefixReader(d, ev.pid, mem) && PointsTo(ev.abi, path, path, Max(1, d.opt.maxString))
    ensures
      match ReadPathLength(ArgsText(n, d, ev, ent, "truncate64"))
      case None => false
      case Some((seen, l)) => l == length && VectorLaws.ShowsString(seen, mem, path, Max(1, d.opt.maxString), path)
  {
    hide ReadPathLength, ViewText, StringView, VectorLaws.ShowsString, PrefixReader, PointsTo, Format.Digits;
    LiftInvertsLower("truncate64", [W32(path), W64(length)], hole, ev.args);
    LowerSecondWide(path, length, [], hole);
    assert [W32(path), W64(length)] + [] == [W32(path), W64(length)];
    assert ev.args[0] == path;
    hide Lower, Lift, Holds;
    ReadPathLengthOf(ev.abi, StringView(d, ev, path), length);
    VectorLaws.StringIsShown(d, ev, path, path, mem);
  }

  // ftruncate64(fd, length)
  lemma FtruncateReadsBack(n: Names, d: Parser, ev: Call, ent: Option<Decoder.Entry>, fd: s32, length: u64, hole: u32)
    requires SixArgs(ev) && ValidNames(n) && ev.abi.ArmEabi?
    requires Holds(ev.args, Lower([W32(Register(fd)), W64(length)], 0, hole))
    ensures ReadFdLength(ArgsText(n, d, ev, ent, "ftruncate64")) == Some((fd, length))
  {
    hide ReadFdLength, Format.Signed, Format.Digits;
    LiftInvertsLower("ftruncate64", [W32(Register(fd)), W64(length)], hole, ev.args);
    hide Lower, Holds;
    RegisterIsSigned(fd);
    ReadFdLengthOf(fd, length);
  }
}
