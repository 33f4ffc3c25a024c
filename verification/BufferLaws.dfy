/** What the printed text shows of buffers and scatter lists, read back from the text. */
module BufferLaws {
  import opened Words
  import opened Remote
  import opened Decoder
  import opened Memory
  import opened Vectors
  import opened VectorLaws
  import opened ViewLaws
  import Format
  import Text

  // ----- buffers -----

  // What is seen of a buffer of which `requested` bytes are to be shown: the pointer, noted if it could be
  // followed but nothing read; or bytes of memory, at most as many as requested and as max_buffer allows, with
  // an ellipsis exactly when some but not all of the requested ones are there; and all that is allowed when
  // the memory can be read.
  ghost predicate ShowsBuffer(seen: Seen, d: Parser, ev: Call, addr: u64, requested: nat, mem: Memory) {
    var (a, most) := (Target(ev.abi, addr), Min(requested, d.opt.maxBuffer));
    && (match seen
        case Address(p, unreadable) =>
          && p == AddressOf(ev.abi, addr)
          && (!unreadable <==> addr == 0 || !d.opt.dereference || d.reader.None?)
        case Bytes(bytes, more) =>
          |bytes| <= most && At(mem, a, bytes) && (more <==> 0 < |bytes| < requested))
    && (PrefixReader(d, ev.pid, mem) && addr != 0 && Readable(mem, a, most) ==>
          seen == Bytes(Prefix(mem, a, most), 0 < most < requested))
  }

  lemma BufferIsShown(d: Parser, ev: Call, addr: u64, requested: u64, mem: Memory)
    requires Faithful(d, ev.pid, mem)
    ensures ShowsBuffer(SeenOf(ev.abi, BufferView(d, ev, addr, requested)), d, ev, addr, requested, mem)
  {
    hide BufferView, Faithful, PrefixReader, At, Readable, Target;
    BufferNeverOverShows(d, ev, addr, requested, Target(ev.abi, addr), mem);
    if PrefixReader(d, ev.pid, mem) && addr != 0 && Readable(mem, Target(ev.abi, addr), Min(requested, d.opt.maxBuffer)) {
      BufferShowsAll(d, ev, addr, requested, Target(ev.abi, addr), mem);
    }
  }

  // The bytes an argument asks for, if it has a length argument.
  function Requested(ev: Call, index: int): nat
    requires SixArgs(ev) && index < 6
  {
    if index >= 0 then ev.args[index] else 0
  }

  lemma OnlyView(abi: Abi, view: View)
    ensures ReadView(ViewText(abi, view)) == Some((SeenOf(abi, view), ""))
  {
    hide ViewText, ReadView, SeenOf;
    ViewReadsBack(abi, view, "");
    assert ViewText(abi, view) + "" == ViewText(abi, view);
  }

  // Every argument described as a buffer the call filled in.
  lemma BufOutShows(n: Names, d: Parser, ev: Call, desc: ArgDesc, v: u64, mem: Memory)
    requires SixArgs(ev) && ValidDesc(desc) && desc.kind.BufOut? && Faithful(d, ev.pid, mem)
    ensures
      match ReadView(ArgText(n, d, ev, desc, v))
      case None => false
      case Some((seen, rest)) =>
        && rest == ""
        && if -4095 <= ev.retval <= -1 then seen == Address(AddressOf(ev.abi, v), false)
           else ShowsBuffer(seen, d, ev, v, Min(Requested(ev, desc.aux), Max(ev.retval, 0)), mem)
  {
    hide ViewText, OutputView, BufferView, ReadView, ShowsBuffer, Faithful;
    OnlyView(ev.abi, OutputView(d, ev, desc.aux, v));
    OutputIsLimited(d, ev, desc.aux, v);
    BufferIsShown(d, ev, v, OutputLimit(ev, desc.aux), mem);
  }

  // Every argument described as a buffer the call reads from, whatever the call returned.
  lemma BufInShows(n: Names, d: Parser, ev: Call, desc: ArgDesc, v: u64, mem: Memory)
    requires SixArgs(ev) && ValidDesc(desc) && desc.kind.BufIn? && Faithful(d, ev.pid, mem)
    ensures
      match ReadView(ArgText(n, d, ev, desc, v))
      case None => false
      case Some((seen, rest)) => rest == "" && ShowsBuffer(seen, d, ev, v, Requested(ev, desc.aux), mem)
  {
    hide ViewText, BufferView, ReadView, ShowsBuffer, Faithful;
    OnlyView(ev.abi, BufferView(d, ev, v, BufferCount(ev, desc.aux, false)));
    BufferIsShown(d, ev, v, Requested(ev, desc.aux), mem);
  }

  // ----- scatter lists -----

  // One area of a printed list: what is seen at its base, and its length.
  datatype Item = Item(seen: Seen, len: nat)

  function ReadArea(s: string): Option<(Item, string)> {
    match Text.After(s, "{iov_base=")
    case None => None
    case Some(s1) =>
      match ReadView(s1)
      case None => None
      case Some((seen, s2)) =>
        match Text.After(s2, ", iov_len=")
        case None => None
        case Some(s3) =>
          match Text.Until(s3, '}')
          case None => None
          case Some((digits, rest)) =>
            match Format.ParseDigits(10, digits)
            case None => None
            case Some(len) => Some((Item(seen, len), rest))
  }

  // The areas of a list from number i on, and whether it ends at one that cannot be read.
  function ReadAreas(s: string, i: nat): Option<(seq<Item>, bool)>
    decreases |s|
  {
    if s == "]" then Some(([], false))
    else if s == Comma(i) + "... /* unreadable */]" then Some(([], true))
    else
      match Text.After(s, Comma(i))
      case None => None
      case Some(s1) =>
        match ReadArea(s1)
        case None => None
        case Some((item, rest)) =>
          if |rest| >= |s| then None
          else
            match ReadAreas(rest, i + 1)
            case None => None
            case Some((items, torn)) => Some(([item] + items, torn))
  }

  function ReadIov(text: string): Option<(seq<Item>, bool)> {
    if text != "" && text[0] == '[' then ReadAreas(text[1..], 0) else None
  }

  function AreaView(d: Parser, ev: Call, a: Area, shown: u64, showData: bool): View {
    if showData then BufferView(d, ev, a.base, shown) else Pointer(a.base)
  }

  function ItemOf(d: Parser, ev: Call, a: Area, shown: u64, showData: bool): Item {
    Item(SeenOf(ev.abi, AreaView(d, ev, a, shown, showData)), a.len)
  }

  lemma ReadAreaOfText(d: Parser, ev: Call, a: Area, shown: u64, showData: bool, rest: string)
    ensures ReadArea(AreaText(d, ev, a, shown, showData) + rest) == Some((ItemOf(d, ev, a, shown, showData), rest))
  {
    hide ViewText, ReadView, SeenOf, Format.Digits, Format.ParseDigits, Text.Until, BufferView, PtrText;
    var view := AreaView(d, ev, a, shown, showData);
    var s3 := Format.Decimal(a.len) + ['}'] + rest;
    var s2 := ", iov_len=" + s3;
    var s1 := ViewText(ev.abi, view) + s2;
    assert AreaText(d, ev, a, shown, showData) + rest == "{iov_base=" + s1 by { PointerText(ev.abi, a.base); }
    Text.AfterFinds("{iov_base=", s1);
    ViewReadsBack(ev.abi, view, s2);
    Text.AfterFinds(", iov_len=", s3);
    Format.ParseOfDigits(10, a.len);
    Format.DigitsAreDigits(10, a.len);
    Text.UntilFinds(Format.Decimal(a.len), '}', rest);
  }

  lemma PointerText(abi: Abi, p: u64)
    ensures ViewText(abi, Pointer(p)) == PtrText(abi, p)
  {
  }

  // The areas shown from number i on.
  function ItemsFrom(d: Parser, ev: Call, addr: u64, i: nat, n: nat, showData: bool, total: u64): (seq<Item>, bool)
    decreases n - i
  {
    if i >= n then ([], false)
    else
      match Vectors.Entry(d, ev, addr, i)
      case None => ([], true)
      case Some(a) =>
        var (items, torn) := ItemsFrom(d, ev, addr, i + 1, n, showData, total);
        ([ItemOf(d, ev, a, Given(Lens(d, ev, addr, n), total, i), showData)] + items, torn)
  }

  // The readable areas before the first unreadable one, each with its share.
  lemma {:induction false} ItemsAre(d: Parser, ev: Call, addr: u64, i: nat, n: nat, showData: bool, total: u64)
    requires i <= n
    ensures
      var (items, torn) := ItemsFrom(d, ev, addr, i, n, showData, total);
      && i + |items| <= n && (torn <==> i + |items| < n)
      && (torn ==> Vectors.Entry(d, ev, addr, i + |items|).None?)
      && forall k :: i <= k < i + |items| ==>
           && Vectors.Entry(d, ev, addr, k).Some?
           && var a := Vectors.Entry(d, ev, addr, k).value;
              items[k - i] == ItemOf(d, ev, a, Given(Lens(d, ev, addr, n), total, k), showData)
    decreases n - i
  {
    hide Vectors.Entry, ItemOf, Given, Lens;
    if i < n && Vectors.Entry(d, ev, addr, i).Some? {
      ItemsAre(d, ev, addr, i + 1, n, showData, total);
    }
  }

  lemma ReadAreasOfEnd(i: nat)
    ensures ReadAreas("]", i) == Some(([], false))
    ensures ReadAreas(Comma(i) + "... /* unreadable */]", i) == Some(([], true))
  {
  }

  lemma ReadAreasStep(s1: string, item: Item, rest: string, i: nat)
    requires s1 != "" && s1[0] == '{' && |rest| < |s1| && ReadArea(s1) == Some((item, rest))
    ensures
      ReadAreas(Comma(i) + s1, i) ==
        match ReadAreas(rest, i + 1)
        case None => None
        case Some((items, torn)) => Some(([item] + items, torn))
  {
    hide ReadArea;
    Text.AfterFinds(Comma(i), s1);
    assert (Comma(i) + s1)[|Comma(i)|] == '{';
  }

  lemma AreaTextStart(d: Parser, ev: Call, a: Area, shown: u64, showData: bool)
    ensures AreaText(d, ev, a, shown, showData) != "" && AreaText(d, ev, a, shown, showData)[0] == '{'
  {
    hide ViewText, BufferView, PtrText, Format.Decimal;
  }

  lemma ReadAreasOfArea(d: Parser, ev: Call, a: Area, shown: u64, showData: bool, rest: string, i: nat)
    ensures
      ReadAreas(Comma(i) + AreaText(d, ev, a, shown, showData) + rest, i) ==
        match ReadAreas(rest, i + 1)
        case None => None
        case Some((items, torn)) => Some(([ItemOf(d, ev, a, shown, showData)] + items, torn))
  {
    hide AreaText, ReadArea, ReadAreas, ItemOf, Comma;
    var s1 := AreaText(d, ev, a, shown, showData) + rest;
    assert Comma(i) + AreaText(d, ev, a, shown, showData) + rest == Comma(i) + s1;
    AreaTextStart(d, ev, a, shown, showData);
    ReadAreaOfText(d, ev, a, shown, showData, rest);
    ReadAreasStep(s1, ItemOf(d, ev, a, shown, showData), rest, i);
  }

  // The printed list reads back as exactly these areas.
  lemma {:induction false} AreasReadBack(d: Parser, ev: Call, addr: u64, i: nat, n: nat, showData: bool, total: u64)
    ensures ReadAreas(IovFrom(d, ev, addr, i, n, showData, total), i)
         == Some(ItemsFrom(d, ev, addr, i, n, showData, total))
    decreases n - i
  {
    hide Vectors.Entry, ItemOf, AreaText, Given, Lens, ReadAreas;
    ReadAreasOfEnd(i);
    assert Separator(i) == Comma(i);
    if i < n && Vectors.Entry(d, ev, addr, i).Some? {
      var a := Vectors.Entry(d, ev, addr, i).value;
      AreasReadBack(d, ev, addr, i + 1, n, showData, total);
      GivenFits(Lens(d, ev, addr, n), total, i);
      ReadAreasOfArea(d, ev, a, Given(Lens(d, ev, addr, n), total, i), showData,
                      IovFrom(d, ev, addr, i + 1, n, showData, total), i);
    }
  }

  lemma GivenFits(lens: seq<nat>, total: u64, i: nat)
    requires i < |lens|
    ensures Given(lens, total, i) <= total
  {
  }

  lemma IovReadsBack(d: Parser, ev: Call, addr: u64, count: nat, showData: bool, total: u64)
    requires addr != 0 && d.opt.dereference && d.reader.Some?
    ensures ReadIov(IovText(d, ev, addr, count, showData, total))
         == Some(ItemsFrom(d, ev, addr, 0, Min(count, d.opt.maxArray), showData, total))
  {
    hide IovFrom, ReadAreas, ItemsFrom;
    AreasReadBack(d, ev, addr, 0, Min(count, d.opt.maxArray), showData, total);
    var body := IovFrom(d, ev, addr, 0, Min(count, d.opt.maxArray), showData, total);
    assert ("[" + body)[1..] == body;
  }

  // ----- the words of a list in memory -----

  // Area i of a list at base has this base and this length.
  predicate AreaAt(mem: Memory, abi: Abi, base: nat, i: nat, area: (u64, u64)) {
    if abi.Arm64? then WordAt(mem, base + 16 * i, 8, area.0) && WordAt(mem, base + 16 * i + 8, 8, area.1)
    else
      && area.0 < 0x1_0000_0000 && area.1 < 0x1_0000_0000
      && WordAt(mem, base + 8 * i, 4, area.0) && WordAt(mem, base + 8 * i + 4, 4, area.1)
  }

  // A list of n areas at addr, that is at address base.
  predicate ListAt(abi: Abi, addr: u64, base: nat, n: nat) {
    PointsTo(abi, addr, base, if abi.Arm64? then 16 * n else 8 * n)
  }

  lemma EntryIs(d: Parser, ev: Call, addr: u64, base: nat, mem: Memory, n: nat, i: nat)
    requires PrefixReader(d, ev.pid, mem) && ListAt(ev.abi, addr, base, n) && i < n
    ensures
      var w := Width(ev.abi);
      var raw := Prefix(mem, base + i * (2 * w), 2 * w);
      && i * (2 * w) == (if ev.abi.Arm64? then 16 * i else 8 * i)
      && Vectors.Entry(d, ev, addr, i) ==
           if |raw| == 2 * w then Some(Area(PtrValue(ev.abi, Word(raw[..w])), PtrValue(ev.abi, Word(raw[w..])))) else None
  {
    hide InRange, ReadAddr, PrefixReader, ReadMem, Prefix, Word, PtrValue, Add64, PointsTo;
    var w := Width(ev.abi);
    assert n * (2 * w) == (if ev.abi.Arm64? then 16 * n else 8 * n);
    assert i * (2 * w) == (if ev.abi.Arm64? then 16 * i else 8 * i);
    assert i * (2 * w) < n * (2 * w);
    hide ListAt;
    PointsToIsInRange(ev.abi, addr, base, n * (2 * w));
    ReadIsPrefix(d, ev, addr, mem, n * (2 * w), i * (2 * w), 2 * w);
  }

  lemma EntryHolds(d: Parser, ev: Call, addr: u64, base: nat, mem: Memory, n: nat, i: nat, area: (u64, u64))
    requires PrefixReader(d, ev.pid, mem) && ListAt(ev.abi, addr, base, n) && i < n
    requires AreaAt(mem, ev.abi, base, i, area)
    ensures Vectors.Entry(d, ev, addr, i) == Some(Area(area.0, area.1))
  {
    hide Vectors.Entry, Prefix, WordAt, Word, PtrValue, PrefixReader, ListAt;
    EntryIs(d, ev, addr, base, mem, n, i);
    var (w, a) := (Width(ev.abi), if ev.abi.Arm64? then base + 16 * i else base + 8 * i);
    PairOfWords(mem, a, w, area.0, area.1);
    WordIsRead(ev.abi, mem, a, area.0);
    WordIsRead(ev.abi, mem, a + w, area.1);
  }

  // ----- what the areas show -----

  function ShownSizes(items: seq<Item>): (sizes: seq<nat>)
    ensures |sizes| == |items|
  {
    seq(|items|, i requires 0 <= i < |items| => if items[i].seen.Bytes? then |items[i].seen.bytes| else 0)
  }

  lemma {:induction false} SumIsMonotone(a: seq<nat>, b: seq<nat>)
    requires |a| <= |b| && forall i :: 0 <= i < |a| ==> a[i] <= b[i]
    ensures Sum(a) <= Sum(b)
  {
    if |a| == |b| {
      if a != [] {
        SumIsMonotone(a[..|a| - 1], b[..|b| - 1]);
      }
    } else {
      SumIsMonotone(a, b[..|b| - 1]);
    }
  }

  lemma ShowsAtMost(seen: Seen, d: Parser, ev: Call, addr: u64, requested: nat, mem: Memory)
    requires ShowsBuffer(seen, d, ev, addr, requested, mem)
    ensures seen.Bytes? ==> |seen.bytes| <= requested
  {
  }

  // One area printed with its share of the budget.
  lemma ShareShows(d: Parser, ev: Call, addr: u64, count: nat, total: u64, i: nat, mem: Memory)
    requires Faithful(d, ev.pid, mem) && i < Min(count, d.opt.maxArray) && Vectors.Entry(d, ev, addr, i).Some?
    ensures
      var a := Vectors.Entry(d, ev, addr, i).value;
      var share := Given(Lens(d, ev, addr, Min(count, d.opt.maxArray)), total, i);
      && share < TWO_64 && share == Scatter(Lens(d, ev, addr, count), total)[i]
      && ShowsBuffer(ItemOf(d, ev, a, share, true).seen, d, ev, a.base, share, mem)
      && (ItemOf(d, ev, a, share, true).seen.Bytes? ==> |ItemOf(d, ev, a, share, true).seen.bytes| <= share)
  {
    hide ShowsBuffer, Vectors.Entry, BufferView, Faithful, Given, Scatter, SeenOf, Lens;
    var a := Vectors.Entry(d, ev, addr, i).value;
    var share := Given(Lens(d, ev, addr, Min(count, d.opt.maxArray)), total, i);
    GivenIsScatter(d, ev, addr, count, total, i);
    GivenFits(Lens(d, ev, addr, Min(count, d.opt.maxArray)), total, i);
    BufferIsShown(d, ev, a.base, share, mem);
    ShowsAtMost(SeenOf(ev.abi, BufferView(d, ev, a.base, share)), d, ev, a.base, share, mem);
  }

  // What a printed list shows of the entries found in memory.
  ghost predicate ShowsEntries(items: seq<Item>, torn: bool, d: Parser, ev: Call, addr: u64, count: nat, total: nat,
                               mem: Memory) {
    && |items| <= Min(count, d.opt.maxArray) && (torn <==> |items| < Min(count, d.opt.maxArray))
    && (torn ==> Vectors.Entry(d, ev, addr, |items|).None?)
    && (forall i :: 0 <= i < |items| ==>
          && Vectors.Entry(d, ev, addr, i).Some?
          && var a := Vectors.Entry(d, ev, addr, i).value;
             && items[i].len == a.len
             && ShowsBuffer(items[i].seen, d, ev, a.base, Scatter(Lens(d, ev, addr, count), total)[i], mem))
    && Sum(ShownSizes(items)) <= total
  }

  // A list printed with data, read back: the areas before the first unreadable entry; each shows at most what
  // it gets of `total` bytes put into the areas in order, and all of it when it can be read and max_buffer
  // allows; together they show at most `total` bytes.
  lemma IovShows(d: Parser, ev: Call, addr: u64, count: nat, total: u64, mem: Memory)
    requires addr != 0 && d.opt.dereference && d.reader.Some? && Faithful(d, ev.pid, mem)
    ensures
      var read := ReadIov(IovText(d, ev, addr, count, true, total));
      read.Some? && ShowsEntries(read.value.0, read.value.1, d, ev, addr, count, total, mem)
  {
    hide ShowsBuffer, ReadIov, IovText, ItemsFrom, Vectors.Entry, AreaView, Faithful, Given, Scatter, Sum, Lens, SeenOf;
    var m := Min(count, d.opt.maxArray);
    var items := ItemsFrom(d, ev, addr, 0, m, true, total).0;
    IovReadsBack(d, ev, addr, count, true, total);
    ItemsAre(d, ev, addr, 0, m, true, total);
    var shares := Shares(Lens(d, ev, addr, m), total);
    forall i | 0 <= i < |items|
      ensures items[i].len == Vectors.Entry(d, ev, addr, i).value.len
      ensures
        ShowsBuffer(items[i].seen, d, ev, Vectors.Entry(d, ev, addr, i).value.base,
                    Scatter(Lens(d, ev, addr, count), total)[i], mem)
      ensures ShownSizes(items)[i] <= shares[i]
    {
      ShareShows(d, ev, addr, count, total, i, mem);
    }
    hide Shares, ShownSizes;
    SumIsMonotone(ShownSizes(items), shares);
    GivenInTotal(Lens(d, ev, addr, m), total);
  }

  lemma PrefixIsFaithful(d: Parser, pid: u32, mem: Memory)
    requires PrefixReader(d, pid, mem)
    ensures Faithful(d, pid, mem)
  {
    hide At, Prefix;
  }

  // The words of a whole list, none missing.
  ghost predicate ListHolds(mem: Memory, abi: Abi, base: nat, areas: seq<(u64, u64)>) {
    forall i :: 0 <= i < |areas| ==> AreaAt(mem, abi, base, i, areas[i])
  }

  function LensOf(areas: seq<(u64, u64)>): (lens: seq<nat>)
    ensures |lens| == |areas|
  {
    seq(|areas|, i requires 0 <= i < |areas| => areas[i].1)
  }

  // What a printed list shows of areas laid out in memory.
  ghost predicate ShowsAreas(items: seq<Item>, d: Parser, ev: Call, areas: seq<(u64, u64)>, total: nat, mem: Memory) {
    && |items| == Min(|areas|, d.opt.maxArray)
    && (forall i :: 0 <= i < |items| ==>
          && items[i].len == areas[i].1
          && ShowsBuffer(items[i].seen, d, ev, areas[i].0, Scatter(LensOf(areas), total)[i], mem))
    && Sum(ShownSizes(items)) <= total
  }

  lemma EntriesHold(d: Parser, ev: Call, addr: u64, base: nat, areas: seq<(u64, u64)>, mem: Memory)
    requires PrefixReader(d, ev.pid, mem) && ListAt(ev.abi, addr, base, |areas|) && ListHolds(mem, ev.abi, base, areas)
    ensures forall i :: 0 <= i < |areas| ==> Vectors.Entry(d, ev, addr, i) == Some(Area(areas[i].0, areas[i].1))
    ensures Lens(d, ev, addr, |areas|) == LensOf(areas)
  {
    hide ListAt, PrefixReader, AreaAt, Vectors.Entry;
    forall i | 0 <= i < |areas|
      ensures Vectors.Entry(d, ev, addr, i) == Some(Area(areas[i].0, areas[i].1))
    {
      EntryHolds(d, ev, addr, base, mem, |areas|, i, areas[i]);
    }
    assert Lens(d, ev, addr, |areas|) == LensOf(areas);
  }

  lemma EntriesAreAreas(items: seq<Item>, torn: bool, d: Parser, ev: Call, addr: u64, areas: seq<(u64, u64)>,
                        total: nat, mem: Memory)
    requires ShowsEntries(items, torn, d, ev, addr, |areas|, total, mem)
    requires forall i :: 0 <= i < |areas| ==> Vectors.Entry(d, ev, addr, i) == Some(Area(areas[i].0, areas[i].1))
    requires Lens(d, ev, addr, |areas|) == LensOf(areas)
    ensures !torn && ShowsAreas(items, d, ev, areas, total, mem)
  {
    hide Vectors.Entry, ShowsBuffer, Scatter, Sum, ShownSizes, Lens, LensOf;
  }

  lemma ListIsShown(d: Parser, ev: Call, addr: u64, base: nat, areas: seq<(u64, u64)>, total: u64, mem: Memory)
    requires PrefixReader(d, ev.pid, mem) && ListAt(ev.abi, addr, base, |areas|) && ListHolds(mem, ev.abi, base, areas)
    ensures
      var read := ReadIov(IovText(d, ev, addr, |areas|, true, total));
      read.Some? && !read.value.1 && ShowsAreas(read.value.0, d, ev, areas, total, mem)
  {
    assert addr != 0 && d.opt.dereference && d.reader.Some?;
    hide *;
    PrefixIsFaithful(d, ev.pid, mem);
    IovShows(d, ev, addr, |areas|, total, mem);
    EntriesHold(d, ev, addr, base, areas, mem);
    var read := ReadIov(IovText(d, ev, addr, |areas|, true, total)).value;
    EntriesAreAreas(read.0, read.1, d, ev, addr, areas, total, mem);
  }

  // A readv() that did not fail shows what POSIX readv() put into its areas: from the words of the list in
  // memory and the return value to the text.
  lemma ReadvShowsWhatWasFilled(n: Names, d: Parser, ev: Call, desc: ArgDesc, v: u64, base: nat,
                                areas: seq<(u64, u64)>, mem: Memory)
    requires SixArgs(ev) && ValidDesc(desc) && desc.kind.IovOut? && !(-4095 <= ev.retval <= -1)
    requires PrefixReader(d, ev.pid, mem) && ListAt(ev.abi, v, base, |areas|) && ListHolds(mem, ev.abi, base, areas)
    requires |areas| == ev.args[desc.aux]
    ensures
      var read := ReadIov(ArgText(n, d, ev, desc, v));
      read.Some? && !read.value.1 && ShowsAreas(read.value.0, d, ev, areas, Max(ev.retval, 0), mem)
  {
    hide ListAt, ListHolds, PrefixReader, ReadIov, IovText, ShowsAreas;
    ListIsShown(d, ev, v, base, areas, Max(ev.retval, 0), mem);
  }

  // A writev() shows the first max_buffer bytes of its areas, in order.
  lemma WritevShowsFirstBytes(n: Names, d: Parser, ev: Call, desc: ArgDesc, v: u64, base: nat,
                              areas: seq<(u64, u64)>, mem: Memory)
    requires SixArgs(ev) && ValidDesc(desc) && desc.kind.IovIn?
    requires PrefixReader(d, ev.pid, mem) && ListAt(ev.abi, v, base, |areas|) && ListHolds(mem, ev.abi, base, areas)
    requires |areas| == ev.args[desc.aux]
    ensures
      var read := ReadIov(ArgText(n, d, ev, desc, v));
      read.Some? && !read.value.1 && ShowsAreas(read.value.0, d, ev, areas, d.opt.maxBuffer, mem)
  {
    hide ListAt, ListHolds, PrefixReader, ReadIov, IovText, ShowsAreas;
    ListIsShown(d, ev, v, base, areas, d.opt.maxBuffer, mem);
  }

  // A readv() that failed shows its areas as pointers.
  lemma FailedReadvShowsPointers(n: Names, d: Parser, ev: Call, desc: ArgDesc, v: u64)
    requires SixArgs(ev) && ValidDesc(desc) && desc.kind.IovOut? && -4095 <= ev.retval <= -1
    requires v != 0 && d.opt.dereference && d.reader.Some?
    ensures
      match ReadIov(ArgText(n, d, ev, desc, v))
      case None => false
      case Some((items, torn)) =>
        forall i :: 0 <= i < |items| ==>
          && Vectors.Entry(d, ev, v, i).Some?
          && var a := Vectors.Entry(d, ev, v, i).value;
             items[i] == Item(Address(AddressOf(ev.abi, a.base), false), a.len)
  {
    hide Vectors.Entry, ItemsFrom, ReadIov, IovText, BufferView, AddressOf;
    var m := Min(ev.args[desc.aux], d.opt.maxArray);
    IovReadsBack(d, ev, v, ev.args[desc.aux], false, IovBudget(ev));
    ItemsAre(d, ev, v, 0, m, false, IovBudget(ev));
  }
}
