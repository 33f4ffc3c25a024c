/** What the finished line promises: fields that can be read back. */
module LineLaws {
  import opened Words
  import opened Remote
  import opened Decoder
  import Bits
  import Eabi
  import FlagLaws
  import Flags
  import Format
  import Text

  // ----- reading single arguments and results back -----

  // r is v in 32 or 64 bits, in two's complement.
  predicate IsSigned32(r: int, v: u64) {
    -0x8000_0000 <= r < 0x8000_0000 && (r - v) % 0x1_0000_0000 == 0
  }

  predicate IsSigned64(r: int, v: u64) {
    -0x8000_0000_0000_0000 <= r < 0x8000_0000_0000_0000 && (r - v) % 0x1_0000_0000_0000_0000 == 0
  }

  lemma SignsAreRight(v: u64)
    ensures IsSigned32(AsInt32(v), v) && IsSigned64(AsInt64(v), v)
    ensures IsSigned32(-100, v) <==> AsInt32(v) == -100
  {
  }

  // Every kind of argument that is printed as a number or as flags denotes the register's value,
  // at the width and with the sign of its type.
  lemma ArgReadsBack(n: Names, d: Parser, ev: Call, desc: ArgDesc, v: u64)
    requires SixArgs(ev) && ValidDesc(desc)
    ensures
      var text := ArgText(n, d, ev, desc, v);
      var word := if ev.abi.ArmEabi? then v % 0x1_0000_0000 else v;
      match desc.kind
      case Int | Fd | Pid => Format.ParseSigned(text).Some? && IsSigned32(Format.ParseSigned(text).value, v)
      case Long =>
        && Format.ParseSigned(text).Some?
        && if ev.abi.ArmEabi? then IsSigned32(Format.ParseSigned(text).value, v)
           else IsSigned64(Format.ParseSigned(text).value, v)
      case UInt | Size => Format.ParseDigits(10, text) == Some(word)
      case Hex => Format.ParseHex(text) == Some(word)
      case Ptr => if word == 0 then text == "NULL" else Format.ParseHex(text) == Some(word)
      case Mode => text[..1] == "0" && Format.ParseDigits(8, text[1..]) == Some(v % 0x1000)
      case DirFd =>
        if d.opt.symbolic && IsSigned32(-100, v) then text == "AT_FDCWD"
        else text != "AT_FDCWD" && Format.ParseSigned(text).Some? && IsSigned32(Format.ParseSigned(text).value, v)
      case Sig =>
        var name := n.signalName(v % 0x1_0000_0000);
        if d.opt.symbolic && name.Some? then name == Some(text) else Format.ParseDigits(10, text) == Some(v)
      case Open =>
        FlagLaws.WellNamed(FlagLaws.ACCESS_MODES + n.openFlags) ==>
          FlagLaws.Eval(FlagLaws.ACCESS_MODES + n.openFlags, text) == Some(Bits.FromNat(v))
      case Prot =>
        var dict := n.protFlags + FlagLaws.Zero(Some("PROT_NONE"));
        FlagLaws.WellNamed(dict) ==> FlagLaws.Eval(dict, text) == Some(Bits.FromNat(v))
      case Map =>
        var dict := n.mapFlags + FlagLaws.Zero(None);
        FlagLaws.WellNamed(dict) ==> FlagLaws.Eval(dict, text) == Some(Bits.FromNat(v))
      case SockAddr => text == Concat(n.sockAddr(d, ev, v, ev.args[desc.aux]))
      case _ => true
  {
    hide Format.Signed, Format.ParseSigned, Format.Digits, Format.ParseDigits, Format.Hex, Format.ParseHex,
         FlagLaws.Eval, FlagLaws.WellNamed, FlagLaws.Zero, AsInt32, AsInt64, IsSigned32, IsSigned64,
         Flags.FlagsText, Flags.OpenFlagsText, Bits.FromNat;
    SignsAreRight(v);
    Format.ParseOfSigned(AsInt32(v));
    Format.ParseOfSigned(AsInt64(v));
    Format.ParseOfHex(NormalizeArg(ev.abi, v));
    Format.ParseOfDigits(10, NormalizeArg(ev.abi, v));
    Format.ParseOfDigits(10, v);
    assert 'A' !in Format.Signed(AsInt32(v)) && "AT_FDCWD"[0] == 'A';
    Format.ParseOfDigits(8, v % 4096);
    assert ("0" + Format.Digits(8, v % 4096))[1..] == Format.Digits(8, v % 4096);
    match desc.kind
    case Open =>
      if FlagLaws.WellNamed(FlagLaws.ACCESS_MODES + n.openFlags) {
        FlagLaws.OpenFlagsReadBack(Bits.FromNat(v), n.openFlags, d.opt.symbolic);
      }
    case Prot =>
      if FlagLaws.WellNamed(n.protFlags + FlagLaws.Zero(Some("PROT_NONE"))) {
        FlagLaws.FlagsReadBack(Bits.FromNat(v), n.protFlags, d.opt.symbolic, Some("PROT_NONE"));
      }
    case Map =>
      if FlagLaws.WellNamed(n.mapFlags + FlagLaws.Zero(None)) {
        FlagLaws.FlagsReadBack(Bits.FromNat(v), n.mapFlags, d.opt.symbolic, None);
      }
    case _ =>
  }

  // ----- reading the line back -----

  datatype Fields = Fields(id: nat, name: string, args: seq<nat>, retval: int, micros: nat)

  // "0x1, 0x2" after the first argument; `lead` is what precedes each number.
  function ReadHexes(fields: seq<string>, first: bool): Option<seq<nat>> {
    if fields == [] then Some([])
    else
      var body := if first then Some(fields[0]) else Text.After(fields[0], " ");
      match body
      case None => None
      case Some(digits) =>
        match (Format.ParseHex(digits), ReadHexes(fields[1..], false))
        case (Some(v), Some(rest)) => Some([v] + rest)
        case _ => None
  }

  function ReadArgs(s: string): Option<seq<nat>> {
    if s == "" then Some([]) else ReadHexes(Text.Split(s, ','), true)
  }

  // "<seconds>.<six digits>" as microseconds.
  function ReadDuration(s: string): Option<nat> {
    match Text.Until(s, '.')
    case None => None
    case Some((sec, frac)) =>
      if |frac| != 6 then None
      else
        match (Format.ParseDigits(10, sec), Format.ParseDigits(10, frac))
        case (Some(a), Some(b)) => Some(a * 1_000_000 + b)
        case _ => None
  }

  // " = <retval> <<duration>>"
  function ReadTail(s: string): Option<(int, nat)> {
    match Text.After(s, " = ")
    case None => None
    case Some(s1) =>
      match Text.Until(s1, ' ')
      case None => None
      case Some((ret, s2)) =>
        match Text.After(s2, "<")
        case None => None
        case Some(s3) =>
          match Text.Until(s3, '>')
          case None => None
          case Some((dur, end)) =>
            match (Format.ParseSigned(ret), ReadDuration(dur))
            case (Some(r), Some(us)) => if end == "" then Some((r, us)) else None
            case _ => None
  }

  function ReadLine(s: string): Option<Fields> {
    match Text.After(s, "[pid ")
    case None => None
    case Some(s1) =>
      match Text.Until(s1, ']')
      case None => None
      case Some((id, s2)) =>
        match Text.After(s2, " ")
        case None => None
        case Some(s3) =>
          match Text.Until(s3, '(')
          case None => None
          case Some((name, s4)) =>
            match Text.Until(s4, ')')
            case None => None
            case Some((args, s5)) =>
              match (Format.ParseDigits(10, id), ReadArgs(args), ReadTail(s5))
              case (Some(i), Some(a), Some((r, us))) => Some(Fields(i, name, a, r, us))
              case _ => None
  }

  // The lines in question: plain hexadecimal arguments and a plain result.
  predicate IsPlain(n: Names, ev: Call, name: string) {
    && FindCall(n.calls, name).None?
    && !(ev.abi.ArmEabi? && Eabi.IsAligned64(name))
    && !IsSpecial(ev.abi, name)
    && name !in {"mmap", "mmap2", "brk"}
    && !IsError(ev.retval)
    && '(' !in name
  }

  function NormalArgs(ev: Call, count: nat): seq<nat>
    requires SixArgs(ev) && count <= 6
  {
    seq(count, i requires 0 <= i < count => NormalizeArg(ev.abi, ev.args[i]))
  }

  function HexTexts(vs: seq<nat>): seq<string> {
    seq(|vs|, i requires 0 <= i < |vs| => Format.Hex(vs[i]))
  }

  function Field(v: nat, first: bool): string {
    (if first then "" else " ") + Format.Hex(v)
  }

  lemma FieldShape(v: nat, first: bool)
    ensures Field(v, first) != "" && ',' !in Field(v, first) && ')' !in Field(v, first)
  {
    hide Format.Hex;
    Format.ParseOfHex(v);
  }

  lemma ReadField(v: nat, first: bool, fields: seq<string>)
    ensures ReadHexes([Field(v, first)] + fields, first) ==
      match ReadHexes(fields, false)
      case Some(rest) => Some([v] + rest)
      case None => None
  {
    hide Format.Hex, Format.ParseHex;
    Format.ParseOfHex(v);
    Text.AfterFinds(" ", Format.Hex(v));
    assert "" + Format.Hex(v) == Format.Hex(v);
    assert ([Field(v, first)] + fields)[1..] == fields;
  }

  lemma JoinCons(vs: seq<nat>, first: bool)
    requires |vs| > 1
    ensures
      var sep := if first then "" else " ";
      sep + Text.Join(HexTexts(vs), ", ")
        == Field(vs[0], first) + [','] + (" " + Text.Join(HexTexts(vs[1..]), ", "))
  {
    hide Format.Hex;
    assert HexTexts(vs)[1..] == HexTexts(vs[1..]);
  }

  // The fields of "a, b, c" between commas: all but the first start with a blank.
  lemma {:induction false} JoinIsFields(vs: seq<nat>, first: bool)
    requires vs != []
    ensures
      var s := (if first then "" else " ") + Text.Join(HexTexts(vs), ", ");
      && s != "" && ')' !in s
      && ReadHexes(Text.Split(s, ','), first) == Some(vs)
    decreases |vs|
  {
    hide Field, ReadHexes, Format.Hex;
    var head := Field(vs[0], first);
    FieldShape(vs[0], first);
    if |vs| == 1 {
      assert (if first then "" else " ") + Text.Join(HexTexts(vs), ", ") == head by { FieldIs(vs[0], first); }
      Text.IndexOfNone(head, ',');
      ReadField(vs[0], first, []);
      ReadNothing();
      assert [head] + [] == [head] && [vs[0]] + [] == vs;
    } else {
      hide Text.Join, HexTexts;
      var rest := " " + Text.Join(HexTexts(vs[1..]), ", ");
      JoinCons(vs, first);
      Text.IndexOfFirst(head, ',', rest);
      JoinIsFields(vs[1..], false);
      ReadField(vs[0], first, Text.Split(rest, ','));
      assert [vs[0]] + vs[1..] == vs;
    }
  }

  lemma FieldIs(v: nat, first: bool)
    ensures Field(v, first) == (if first then "" else " ") + Format.Hex(v)
  {
  }

  lemma ReadNothing()
    ensures ReadHexes([], false) == Some([])
  {
  }

  lemma ArgsReadBack(vs: seq<nat>)
    ensures ReadArgs(Text.Join(HexTexts(vs), ", ")) == Some(vs)
    ensures ')' !in Text.Join(HexTexts(vs), ", ")
  {
    if vs != [] {
      JoinIsFields(vs, true);
      assert "" + Text.Join(HexTexts(vs), ", ") == Text.Join(HexTexts(vs), ", ");
    }
  }

  lemma Micros(ns: u64)
    ensures ns / 1_000_000_000 * 1_000_000 + ns % 1_000_000_000 / 1000 == ns / 1000
    ensures ns % 1_000_000_000 / 1000 < Format.Pow10(6)
  {
    assert Format.Pow10(3) == 1000;
    assert Format.Pow10(6) == 1_000_000;
  }

  lemma DurationReadsBack(ns: u64)
    ensures
      var s := Format.Decimal(ns / 1_000_000_000) + "." + Format.Padded(ns % 1_000_000_000 / 1000, 6);
      ReadDuration(s) == Some(ns / 1000) && '>' !in s
  {
    hide Format.Digits, Format.Padded, Format.ParseDigits, Format.Pow10, Text.Until;
    var sec, us := ns / 1_000_000_000, ns % 1_000_000_000 / 1000;
    Micros(ns);
    Format.ParseOfPadded(us, 6);
    Format.ParseOfDigits(10, sec);
    Format.DigitsAreDigits(10, sec);
    PaddedIsDigits(us, 6);
    Text.UntilFinds(Format.Decimal(sec), '.', Format.Padded(us, 6));
  }

  lemma {:induction false} PaddedIsDigits(n: nat, width: nat)
    ensures forall c :: c in Format.Padded(n, width) ==> Format.IsDigit(c)
  {
    if width > 0 {
      PaddedIsDigits(n / 10, width - 1);
    }
  }

  lemma TailReadsBack(retval: s64, ns: u64)
    ensures ReadTail(" = " + Format.Signed(retval) + DurationText(ns)) == Some((retval, ns / 1000))
  {
    hide Format.Signed, Format.Decimal, Format.Padded, ReadDuration;
    var ret := Format.Signed(retval);
    var dur := Format.Decimal(ns / 1_000_000_000) + "." + Format.Padded(ns % 1_000_000_000 / 1000, 6);
    Format.ParseOfSigned(retval);
    DurationReadsBack(ns);
    var s3 := dur + ['>'] + "";
    var s1 := ret + [' '] + ("<" + s3);
    assert " = " + ret + DurationText(ns) == " = " + s1;
    Text.AfterFinds(" = ", s1);
    Text.UntilFinds(ret, ' ', "<" + s3);
    Text.AfterFinds("<", s3);
    Text.UntilFinds(dur, '>', "");
  }

  lemma HeadReadsBack(id: nat, name: string, args: string, tail: string)
    requires '(' !in name && ')' !in args
    ensures
      var s := "[pid " + Format.Decimal(id) + "] " + (name + "(") + args + ")" + tail;
      ReadLine(s) ==
        match (ReadArgs(args), ReadTail(tail))
        case (Some(a), Some((r, us))) => Some(Fields(id, name, a, r, us))
        case _ => None
  {
    hide Format.Decimal, ReadArgs, ReadTail;
    Format.ParseOfDigits(10, id);
    Format.DigitsAreDigits(10, id);
    assert Format.Decimal(id) == Format.Digits(10, id) by { DecimalIs(id); }
    var s4 := args + [')'] + tail;
    var s3 := name + ['('] + s4;
    var s1 := Format.Decimal(id) + [']'] + (" " + s3);
    var s := "[pid " + Format.Decimal(id) + "] " + (name + "(") + args + ")" + tail;
    assert s == "[pid " + s1;
    Text.AfterFinds("[pid ", s1);
    Text.UntilFinds(Format.Decimal(id), ']', " " + s3);
    Text.AfterFinds(" ", s3);
    Text.UntilFinds(name, '(', s4);
    Text.UntilFinds(args, ')', tail);
  }

  lemma DecimalIs(n: nat)
    ensures Format.Decimal(n) == Format.Digits(10, n)
  {
  }

  // A plain line gives back the thread (or process), the name, the normalised arguments in order,
  // the result, and the duration cut to microseconds.
  lemma LineReadsBack(n: Names, d: Parser, ev: Call, table: seq<Entry>)
    requires SixArgs(ev) && ValidNames(n) && |table| == TABLE_SIZE
    requires IsPlain(n, ev, CallName(table, ev.nr))
    ensures
      var name := CallName(table, ev.nr);
      var count := ArgCount(n, ev, LookupEntry(table, ev.nr), name);
      ReadLine(LineText(n, d, ev, table))
        == Some(Fields(ShownId(ev), name, NormalArgs(ev, count), ev.retval, ev.durationNs / 1000))
  {
    hide ReadLine, ReadArgs, ReadTail, Format.Decimal, Format.Signed, Format.Hex, DurationText, Text.Join, ArgCount,
         Eabi.AlignedText;
    var name := CallName(table, ev.nr);
    var ent := LookupEntry(table, ev.nr);
    var vs := NormalArgs(ev, ArgCount(n, ev, ent, name));
    assert ArgTexts(n, d, ev, name, |vs|) == HexTexts(vs);
    var args := Text.Join(HexTexts(vs), ", ");
    var tail := " = " + Format.Signed(ev.retval) + DurationText(ev.durationNs);
    ArgsReadBack(vs);
    TailReadsBack(ev.retval, ev.durationNs);
    HeadReadsBack(ShownId(ev), name, args, tail);
    var head := "[pid " + Format.Decimal(ShownId(ev)) + "] " + (name + "(") + args + ")";
    assert LineText(n, d, ev, table) == head + (" = " + Format.Signed(ev.retval)) + DurationText(ev.durationNs);
    assert head + (" = " + Format.Signed(ev.retval)) + DurationText(ev.durationNs) == head + tail;
  }

  // Two plain events with the same line agree on all that.
  lemma LineIsInjective(n: Names, d: Parser, a: Call, b: Call, table: seq<Entry>)
    requires SixArgs(a) && SixArgs(b) && ValidNames(n) && |table| == TABLE_SIZE
    requires IsPlain(n, a, CallName(table, a.nr)) && IsPlain(n, b, CallName(table, b.nr))
    requires LineText(n, d, a, table) == LineText(n, d, b, table)
    ensures ShownId(a) == ShownId(b) && CallName(table, a.nr) == CallName(table, b.nr)
    ensures a.retval == b.retval && a.durationNs / 1000 == b.durationNs / 1000
    ensures
      NormalArgs(a, ArgCount(n, a, LookupEntry(table, a.nr), CallName(table, a.nr)))
        == NormalArgs(b, ArgCount(n, b, LookupEntry(table, b.nr), CallName(table, b.nr)))
  {
    hide *;
    LineReadsBack(n, d, a, table);
    LineReadsBack(n, d, b, table);
  }
}
