/** Arrays in the traced process: argv-style string vectors and scatter/gather lists. */
module Vectors {
  import opened Words
  import opened OutBuffer
  import opened Remote
  import Format

  // A little-endian word of 4 or 8 bytes.
  function Word(b: seq<u8>): u64
    requires |b| == 4 || |b| == 8
  {
    if |b| == 4 then Word32(b) else Word32(b[..4]) + TWO_32 * Word32(b[4..])
  }

  function Word32(b: seq<u8>): u32
    requires |b| == 4
  {
    (b[0] as int) + 0x100 * (b[1] as int) + 0x1_0000 * (b[2] as int) + 0x100_0000 * (b[3] as int)
  }

  function Separator(i: nat): string {
    if i > 0 then ", " else ""
  }

  // ----- print_strv -----

  // The pointer in slot i, or None when it cannot be read whole.
  function Slot(d: Parser, ev: Call, addr: u64, i: nat): Option<u64> {
    var raw := ReadMem(d, ev, Add64(addr, i * Width(ev.abi)), Width(ev.abi));
    if |raw| == Width(ev.abi) then Some(PtrValue(ev.abi, Word(raw))) else None
  }

  // What is printed from slot i on, up to the closing bracket.
  function StrvFrom(d: Parser, ev: Call, addr: u64, i: nat): string
    decreases d.opt.maxArray - i
  {
    if i >= d.opt.maxArray then ", ...]"
    else
      match Slot(d, ev, addr, i)
      case None => Separator(i) + "... /* unreadable */]"
      case Some(p) =>
        if p == 0 then "]"
        else Separator(i) + ViewText(ev.abi, StringView(d, ev, p)) + StrvFrom(d, ev, addr, i + 1)
  }

  function StrvText(d: Parser, ev: Call, addr: u64): string {
    if addr == 0 || !CanRead(d) then PtrText(ev.abi, addr)
    else "[" + StrvFrom(d, ev, addr, 0)
  }

  method PrintStrv(d: Parser, ev: Call, o: Out, addr: u64)
    requires o.Valid()
    modifies o, o.buf
    ensures o.Valid() && o.text == old(o.text) + StrvText(d, ev, addr)
  {
    hide Image, PtrText, ViewText, StringView, Slot;
    if addr == 0 {
      o.Printf("NULL");
      PtrTextOfNull(ev.abi);
      return;
    }
    if !CanRead(d) {
      PrintPtr(o, ev.abi, addr);
      return;
    }
    ghost var whole := o.text + StrvText(d, ev, addr);
    o.Printf("[");
    assert o.text + StrvFrom(d, ev, addr, 0) == whole;
    var i := 0;
    while i < d.opt.maxArray
      invariant o.Valid() && i <= d.opt.maxArray
      invariant o.text + StrvFrom(d, ev, addr, i) == whole
    {
      var slot := Slot(d, ev, addr, i);
      if slot.None? {
        o.Printf(Separator(i) + "... /* unreadable */");
        assert o.text + "]" == whole;
        break;
      }
      if slot.value == 0 {
        assert o.text + "]" == whole;
        break;
      }
      ghost var before := o.text;
      ghost var item := ViewText(ev.abi, StringView(d, ev, slot.value));
      if i > 0 {
        o.Printf(", ");
      }
      PrintCString(d, ev, o, slot.value);
      StepText(before, Separator(i), item, StrvFrom(d, ev, addr, i + 1));
      i := i + 1;
    }
    if i == d.opt.maxArray {
      o.Printf(", ...");
    }
    o.Printf("]");
  }

  lemma StepText(before: string, sep: string, item: string, rest: string)
    ensures before + (sep + item + rest) == before + sep + item + rest
    ensures before + "" == before
  {
  }

  // ----- print_iov -----

  datatype Area = Area(base: u64, len: u64)

  // Entry i of the list, or None when it cannot be read whole.
  function Entry(d: Parser, ev: Call, addr: u64, i: nat): Option<Area> {
    var w := Width(ev.abi);
    var raw := ReadMem(d, ev, Add64(addr, i * (2 * w)), 2 * w);
    if |raw| == 2 * w then
      Some(Area(PtrValue(ev.abi, Word(raw[..w])), PtrValue(ev.abi, Word(raw[w..]))))
    else None
  }

  function EntryLen(d: Parser, ev: Call, addr: u64, i: nat): u64 {
    match Entry(d, ev, addr, i)
    case Some(a) => a.len
    case None => 0
  }

  function Lens(d: Parser, ev: Call, addr: u64, n: nat): (lens: seq<nat>)
    ensures |lens| == n
  {
    seq(n, i requires 0 <= i < n => EntryLen(d, ev, addr, i))
  }

  function Sum(lens: seq<nat>): nat {
    if lens == [] then 0 else Sum(lens[..|lens| - 1]) + lens[|lens| - 1]
  }

  // Of `total` bytes put into areas of these lengths in order, how many go to area i.
  function Given(lens: seq<nat>, total: nat, i: nat): nat
    requires i < |lens|
  {
    Min(lens[i], Max(0, total - Sum(lens[..i])))
  }

  function AreaText(d: Parser, ev: Call, a: Area, shown: u64, showData: bool): string {
    "{iov_base="
    + (if showData then ViewText(ev.abi, BufferView(d, ev, a.base, shown)) else PtrText(ev.abi, a.base))
    + ", iov_len=" + Format.Decimal(a.len) + "}"
  }

  function IovFrom(d: Parser, ev: Call, addr: u64, i: nat, n: nat, showData: bool, total: u64): string
    decreases n - i
  {
    if i >= n then "]"
    else
      match Entry(d, ev, addr, i)
      case None => Separator(i) + "... /* unreadable */]"
      case Some(a) =>
        Separator(i) + AreaText(d, ev, a, Given(Lens(d, ev, addr, n), total, i), showData)
        + IovFrom(d, ev, addr, i + 1, n, showData, total)
  }

  function IovText(d: Parser, ev: Call, addr: u64, count: nat, showData: bool, total: u64): string {
    if addr == 0 || !CanRead(d) then PtrText(ev.abi, addr)
    else "[" + IovFrom(d, ev, addr, 0, Min(count, d.opt.maxArray), showData, total)
  }

  lemma SumTake(lens: seq<nat>, i: nat)
    requires i < |lens|
    ensures Sum(lens[..i + 1]) == Sum(lens[..i]) + lens[i]
  {
    assert lens[..i + 1][..i] == lens[..i];
  }

  // The budget of the loop, one entry later.
  lemma BudgetStep(lens: seq<nat>, total: nat, i: nat, limit: nat)
    requires i < |lens| && limit == Max(0, total - Sum(lens[..i]))
    ensures
      var shown := if lens[i] < limit then lens[i] else limit;
      && shown == Given(lens, total, i)
      && (if limit > shown then limit - shown else 0) == Max(0, total - Sum(lens[..i + 1]))
  {
    SumTake(lens, i);
  }

  // What is printed for entry i, case by case.
  lemma IovStep(d: Parser, ev: Call, addr: u64, i: nat, n: nat, showData: bool, total: u64)
    requires i <= n
    ensures
      var here := IovFrom(d, ev, addr, i, n, showData, total);
      && (i == n ==> here == "]")
      && (i < n && Entry(d, ev, addr, i).None? ==> here == Separator(i) + "... /* unreadable */]")
      && (i < n && Entry(d, ev, addr, i).Some? ==>
            var a := Entry(d, ev, addr, i).value;
            var shown := Given(Lens(d, ev, addr, n), total, i);
            && Lens(d, ev, addr, n)[i] == a.len
            && here == Separator(i) + AreaText(d, ev, a, shown, showData) + IovFrom(d, ev, addr, i + 1, n, showData, total))
  {
    hide AreaText, Entry, Sum;
  }

  method PrintArea(d: Parser, ev: Call, o: Out, a: Area, shown: u64, showData: bool)
    requires o.Valid()
    modifies o, o.buf
    ensures o.Valid() && o.text == old(o.text) + AreaText(d, ev, a, shown, showData)
  {
    hide Image, PtrText, ViewText, BufferView;
    o.Printf("{iov_base=");
    if showData {
      PrintBuffer(d, ev, o, a.base, shown);
    } else {
      PrintPtr(o, ev.abi, a.base);
    }
    o.Printf(", iov_len=" + Format.Decimal(a.len) + "}");
  }

  method PrintIov(d: Parser, ev: Call, o: Out, addr: u64, count: nat, showData: bool, total: u64)
    requires o.Valid()
    modifies o, o.buf
    ensures o.Valid() && o.text == old(o.text) + IovText(d, ev, addr, count, showData, total)
  {
    hide Image, PtrText, IovFrom;
    if addr == 0 || !CanRead(d) {
      PrintPtr(o, ev.abi, addr);
      return;
    }
    o.Printf("[");
    PrintAreas(d, ev, o, addr, if count > d.opt.maxArray then d.opt.maxArray else count, showData, total);
  }

  method PrintAreas(d: Parser, ev: Call, o: Out, addr: u64, n: nat, showData: bool, total: u64)
    requires o.Valid()
    modifies o, o.buf
    ensures o.Valid() && o.text == old(o.text) + IovFrom(d, ev, addr, 0, n, showData, total)
  {
    hide Image, PtrText, ViewText, AreaText, Entry, Given, Sum, IovFrom, Lens;
    ghost var whole := o.text + IovFrom(d, ev, addr, 0, n, showData, total);
    ghost var lens := Lens(d, ev, addr, n);
    SumOfNone(lens);
    var limit := total;
    var i := 0;
    while i < n
      invariant o.Valid() && i <= n && limit < TWO_64
      invariant limit == Max(0, total - Sum(lens[..i]))
      invariant o.text + IovFrom(d, ev, addr, i, n, showData, total) == whole
    {
      var entry := Entry(d, ev, addr, i);
      IovStep(d, ev, addr, i, n, showData, total);
      if entry.None? {
        o.Printf(Separator(i) + "... /* unreadable */");
        assert o.text + "]" == whole;
        break;
      }
      ghost var before := o.text;
      if i > 0 {
        o.Printf(", ");
      }
      var len := entry.value.len;
      var shown := if len < limit then len else limit;
      BudgetStep(lens, total, i, limit);
      PrintArea(d, ev, o, entry.value, shown, showData);
      StepText(before, Separator(i), AreaText(d, ev, entry.value, shown, showData),
               IovFrom(d, ev, addr, i + 1, n, showData, total));
      limit := if limit > shown then limit - shown else 0;
      i := i + 1;
    }
    IovStep(d, ev, addr, i, n, showData, total);
    o.Printf("]");
  }

  lemma SumOfNone(lens: seq<nat>)
    ensures Sum(lens[..0]) == 0
  {
  }
}
