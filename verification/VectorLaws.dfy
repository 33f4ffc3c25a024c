/** String vectors read back from their text, from the bytes up; how a scatter list is filled. */
module VectorLaws {
  import opened Words
  import opened Remote
  import opened Memory
  import opened Vectors
  import opened ViewLaws
  import Modular
  import Quoting
  import Text

  // ----- words in memory -----

  function Pow256(k: nat): (p: nat)
    ensures p > 0
  {
    if k == 0 then 1 else 0x100 * Pow256(k - 1)
  }

  // p in `width` bytes at a, lowest byte first.
  predicate WordAt(mem: Memory, a: nat, width: nat, p: nat) {
    forall j :: a <= j < a + width ==> j in mem && mem[j] == p / Pow256(j - a) % 0x100
  }

  lemma Powers()
    ensures Pow256(0) == 1 && Pow256(1) == 0x100 && Pow256(2) == 0x1_0000 && Pow256(3) == 0x100_0000
    ensures Pow256(4) == TWO_32 && Pow256(5) == 0x100_0000_0000 && Pow256(6) == 0x1_0000_0000_0000
    ensures Pow256(7) == TWO_56
  {
    assert Pow256(2) == 0x1_0000;
    assert Pow256(4) == TWO_32;
    assert Pow256(6) == 0x1_0000_0000_0000;
  }

  lemma FourBytes(q: u32)
    ensures
      q == q % 0x100 + 0x100 * (q / 0x100 % 0x100) + 0x1_0000 * (q / 0x1_0000 % 0x100)
           + 0x100_0000 * (q / 0x100_0000 % 0x100)
  {
  }

  lemma LowByte(p: nat, k: nat)
    requires 0 < k <= 0x100_0000 && TWO_32 % (0x100 * k) == 0
    ensures p % TWO_32 / k % 0x100 == p / k % 0x100
  {
    var (m, h, q) := (TWO_32 / (0x100 * k), p / TWO_32, p % TWO_32);
    assert p == k * (0x100 * (m * h)) + q;
    Modular.ModUnique(p, k, 0x100 * (m * h) + q / k, q % k);
    Modular.ModUnique(p / k, 0x100, m * h + q / k / 0x100, q / k % 0x100);
  }

  lemma LowHalf(p: u64)
    ensures
      var q := p % TWO_32;
      && q % 0x100 == p % 0x100 && q / 0x100 % 0x100 == p / 0x100 % 0x100
      && q / 0x1_0000 % 0x100 == p / 0x1_0000 % 0x100 && q / 0x100_0000 % 0x100 == p / 0x100_0000 % 0x100
  {
    LowByte(p, 1);
    LowByte(p, 0x100);
    LowByte(p, 0x1_0000);
    LowByte(p, 0x100_0000);
  }

  lemma HighHalf(p: u64)
    ensures
      var q := p / TWO_32;
      && q / 0x100 == p / 0x100_0000_0000 && q / 0x1_0000 == p / 0x1_0000_0000_0000 && q / 0x100_0000 == p / TWO_56
  {
  }

  lemma Word32OfBytes(b: seq<u8>, p: u32)
    requires |b| == 4 && forall k :: 0 <= k < 4 ==> b[k] == p / Pow256(k) % 0x100
    ensures Word32(b) == p
  {
    Powers();
    FourBytes(p);
    hide Pow256;
    assert b[0] == p / Pow256(0) % 0x100 && b[1] == p / Pow256(1) % 0x100;
    assert b[2] == p / Pow256(2) % 0x100 && b[3] == p / Pow256(3) % 0x100;
  }

  lemma Word64OfBytes(b: seq<u8>, p: u64)
    requires |b| == 8 && forall k :: 0 <= k < 8 ==> b[k] == p / Pow256(k) % 0x100
    ensures Word(b) == p
  {
    Powers();
    hide Pow256;
    LowHalf(p);
    HighHalf(p);
    var (low, high) := (b[..4], b[4..]);
    assert low[0] == b[0] == p / Pow256(0) % 0x100 && low[1] == b[1] == p / Pow256(1) % 0x100;
    assert low[2] == b[2] == p / Pow256(2) % 0x100 && low[3] == b[3] == p / Pow256(3) % 0x100;
    assert high[0] == b[4] == p / Pow256(4) % 0x100 && high[1] == b[5] == p / Pow256(5) % 0x100;
    assert high[2] == b[6] == p / Pow256(6) % 0x100 && high[3] == b[7] == p / Pow256(7) % 0x100;
    FourBytes(p % TWO_32);
    FourBytes(p / TWO_32);
  }

  lemma PrefixOfWord(mem: Memory, a: nat, width: nat, p: nat)
    requires WordAt(mem, a, width, p)
    ensures
      var b := Prefix(mem, a, width);
      |b| == width && forall k :: 0 <= k < width ==> b[k] == p / Pow256(k) % 0x100
  {
    hide Pow256;
    var b := Prefix(mem, a, width);
    forall k | 0 <= k < |b|
      ensures b[k] == p / Pow256(k) % 0x100
    {
      assert a + k in mem && mem[a + k] == b[k];
    }
  }

  // A pointer-sized word of the traced process.
  lemma WordIsRead(abi: Abi, mem: Memory, a: nat, p: u64)
    requires if abi.Arm64? then WordAt(mem, a, 8, p) else p < TWO_32 && WordAt(mem, a, 4, p)
    ensures |Prefix(mem, a, Width(abi))| == Width(abi) && PtrValue(abi, Word(Prefix(mem, a, Width(abi)))) == p
  {
    hide Prefix, WordAt;
    if abi.Arm64? {
      PrefixOfWord(mem, a, 8, p);
      Word64OfBytes(Prefix(mem, a, 8), p);
    } else {
      PrefixOfWord(mem, a, 4, p);
      Word32OfBytes(Prefix(mem, a, 4), p);
    }
  }

  lemma {:induction false} PrefixSplit(mem: Memory, a: nat, n: nat, m: nat)
    requires |Prefix(mem, a, n)| == n
    ensures Prefix(mem, a, n + m) == Prefix(mem, a, n) + Prefix(mem, a + n, m)
    decreases n
  {
    hide At;
    if n == 0 {
      assert [] + Prefix(mem, a, m) == Prefix(mem, a, m);
    } else {
      PrefixSplit(mem, a + 1, n - 1, m);
      assert [mem[a]] + (Prefix(mem, a + 1, n - 1) + Prefix(mem, a + n, m)) == Prefix(mem, a, n) + Prefix(mem, a + n, m);
    }
  }

  lemma PairOfWords(mem: Memory, a: nat, w: nat, first: nat, second: nat)
    requires WordAt(mem, a, w, first) && WordAt(mem, a + w, w, second)
    ensures |Prefix(mem, a, 2 * w)| == 2 * w
    ensures Prefix(mem, a, 2 * w)[..w] == Prefix(mem, a, w) && Prefix(mem, a, 2 * w)[w..] == Prefix(mem, a + w, w)
  {
    hide Pow256, WordAt, Prefix;
    PrefixOfWord(mem, a, w, first);
    PrefixOfWord(mem, a + w, w, second);
    PrefixSplit(mem, a, w, w);
    assert w + w == 2 * w;
  }

  // ----- print_strv parses back -----

  // How a list ends: at a NULL, at the limit, or at a slot that cannot be read.
  datatype Stop = Closed | Limit | Torn

  function Comma(i: nat): string {
    if i > 0 then ", " else ""
  }

  // What is seen in a text like `["a", "b"...]` from item i on, and how it ends.
  function ReadItems(s: string, i: nat): Option<(seq<Seen>, Stop)>
    decreases |s|
  {
    if s == "]" then Some(([], Closed))
    else if s == ", ...]" then Some(([], Limit))
    else if s == Comma(i) + "... /* unreadable */]" then Some(([], Torn))
    else
      match Text.After(s, Comma(i))
      case None => None
      case Some(s1) =>
        match ReadView(s1)
        case None => None
        case Some((seen, rest)) =>
          if |rest| >= |s| then None
          else
            match ReadItems(rest, i + 1)
            case None => None
            case Some((items, stop)) => Some(([seen] + items, stop))
  }

  function ReadStrv(s: string): Option<(seq<Seen>, Stop)> {
    if s != "" && s[0] == '[' then ReadItems(s[1..], 0) else None
  }

  // The slots from number i on.
  function SlotsFrom(d: Parser, ev: Call, addr: u64, i: nat): (seq<Seen>, Stop)
    decreases d.opt.maxArray - i
  {
    if i >= d.opt.maxArray then ([], Limit)
    else
      match Slot(d, ev, addr, i)
      case None => ([], Torn)
      case Some(p) =>
        if p == 0 then ([], Closed)
        else
          var (items, stop) := SlotsFrom(d, ev, addr, i + 1);
          ([SeenOf(ev.abi, StringView(d, ev, p))] + items, stop)
  }

  lemma ReadItemsEnds(i: nat)
    ensures ReadItems("]", i) == Some(([], Closed))
    ensures ReadItems(", ...]", i) == Some(([], Limit))
    ensures ReadItems(Comma(i) + "... /* unreadable */]", i) == Some(([], Torn))
  {
  }

  lemma ViewTextIsNoEnd(abi: Abi, view: View)
    ensures ViewText(abi, view) != "" && ViewText(abi, view)[0] !in {']', '.', ','}
  {
    hide Quoting.Escape;
    if !view.Shown? {
      AddressCharacters(abi, view.p);
      PointerReadsBack(abi, view.p);
      assert PtrText(abi, view.p)[0] in PtrText(abi, view.p);
    }
  }

  lemma ReadItem(abi: Abi, view: View, rest: string, i: nat)
    requires Ends(rest)
    ensures
      ReadItems(Comma(i) + ViewText(abi, view) + rest, i) ==
        match ReadItems(rest, i + 1)
        case None => None
        case Some((items, stop)) => Some(([SeenOf(abi, view)] + items, stop))
  {
    hide ViewText, ReadView, SeenOf;
    var s1 := ViewText(abi, view) + rest;
    var s := Comma(i) + s1;
    assert Comma(i) + ViewText(abi, view) + rest == s;
    ViewReadsBack(abi, view, rest);
    ViewTextIsNoEnd(abi, view);
    Text.AfterFinds(Comma(i), s1);
    assert s[|Comma(i)|] == ViewText(abi, view)[0];
  }

  lemma StrvStarts(d: Parser, ev: Call, addr: u64, i: nat)
    requires i > 0
    ensures Ends(StrvFrom(d, ev, addr, i))
  {
    hide Slot, ViewText, StringView;
  }

  lemma {:induction false} ItemsReadBack(d: Parser, ev: Call, addr: u64, i: nat)
    ensures ReadItems(StrvFrom(d, ev, addr, i), i) == Some(SlotsFrom(d, ev, addr, i))
    decreases d.opt.maxArray - i
  {
    hide Slot, ViewText, StringView, SeenOf, ReadItems, Ends;
    ReadItemsEnds(i);
    assert Separator(i) == Comma(i);
    if i < d.opt.maxArray && Slot(d, ev, addr, i).Some? && Slot(d, ev, addr, i).value != 0 {
      ItemsReadBack(d, ev, addr, i + 1);
      StrvStarts(d, ev, addr, i + 1);
      ReadItem(ev.abi, StringView(d, ev, Slot(d, ev, addr, i).value), StrvFrom(d, ev, addr, i + 1), i);
    }
  }

  // Slot i of a vector at base holds this pointer.
  predicate SlotAt(mem: Memory, abi: Abi, base: nat, i: nat, p: u64) {
    if abi.Arm64? then WordAt(mem, base + 8 * i, 8, p) else p < 0x1_0000_0000 && WordAt(mem, base + 4 * i, 4, p)
  }

  // Some byte of slot i cannot be read.
  predicate SlotIsTorn(mem: Memory, abi: Abi, base: nat, i: nat) {
    if abi.Arm64? then exists j :: base + 8 * i <= j < base + 8 * i + 8 && j !in mem
    else exists j :: base + 4 * i <= j < base + 4 * i + 4 && j !in mem
  }

  // A vector of n slots at addr, that is at address base.
  predicate VectorAt(abi: Abi, addr: u64, base: nat, n: nat) {
    PointsTo(abi, addr, base, if abi.Arm64? then 8 * n else 4 * n)
  }

  lemma SlotIsPrefix(d: Parser, ev: Call, addr: u64, base: nat, mem: Memory, n: nat, i: nat)
    requires PrefixReader(d, ev.pid, mem) && VectorAt(ev.abi, addr, base, n) && i < n
    ensures
      var a := if ev.abi.Arm64? then base + 8 * i else base + 4 * i;
      && Slot(d, ev, addr, i) ==
           (if |Prefix(mem, a, Width(ev.abi))| == Width(ev.abi)
            then Some(PtrValue(ev.abi, Word(Prefix(mem, a, Width(ev.abi))))) else None)
  {
    hide InRange, ReadAddr, PrefixReader, ReadMem, Prefix, Word, PtrValue, Add64, PointsTo;
    var w := Width(ev.abi);
    assert n * w == (if ev.abi.Arm64? then 8 * n else 4 * n) && i * w == (if ev.abi.Arm64? then 8 * i else 4 * i);
    assert i * w < n * w;
    hide Width, VectorAt;
    PointsToIsInRange(ev.abi, addr, base, n * w);
    ReadIsPrefix(d, ev, addr, mem, n * w, i * w, w);
  }

  lemma SlotHolds(d: Parser, ev: Call, addr: u64, base: nat, mem: Memory, n: nat, i: nat, p: u64)
    requires PrefixReader(d, ev.pid, mem) && VectorAt(ev.abi, addr, base, n) && i < n
    requires SlotAt(mem, ev.abi, base, i, p)
    ensures Slot(d, ev, addr, i) == Some(p)
  {
    hide Slot, Prefix, WordAt, Word, PtrValue, PrefixReader, VectorAt;
    SlotIsPrefix(d, ev, addr, base, mem, n, i);
    WordIsRead(ev.abi, mem, if ev.abi.Arm64? then base + 8 * i else base + 4 * i, p);
  }

  lemma SlotFails(d: Parser, ev: Call, addr: u64, base: nat, mem: Memory, n: nat, i: nat)
    requires PrefixReader(d, ev.pid, mem) && VectorAt(ev.abi, addr, base, n) && i < n
    requires SlotIsTorn(mem, ev.abi, base, i)
    ensures Slot(d, ev, addr, i) == None
  {
    hide Slot, Word, PtrValue, PrefixReader, VectorAt;
    SlotIsPrefix(d, ev, addr, base, mem, n, i);
  }

  // What is seen of a string at a: its bytes up to a NUL, an unreadable byte or the limit, and no ellipsis
  // exactly when a NUL was found; or the pointer, noted, when nothing can be read.
  predicate ShowsString(seen: Seen, mem: Memory, a: nat, max: nat, p: nat) {
    match seen
    case Address(q, unreadable) => unreadable && q == p && a !in mem
    case Bytes(bytes, more) =>
      && a in mem && |bytes| <= max && At(mem, a, bytes) && 0 !in bytes
      && (!more <==> |bytes| < max && a + |bytes| in mem && mem[a + |bytes|] == 0)
      && (more ==> |bytes| == max || a + |bytes| !in mem)
  }

  lemma StringIsShown(d: Parser, ev: Call, p: u64, a: nat, mem: Memory)
    requires PrefixReader(d, ev.pid, mem) && PointsTo(ev.abi, p, a, Max(1, d.opt.maxString))
    ensures ShowsString(SeenOf(ev.abi, StringView(d, ev, p)), mem, a, Max(1, d.opt.maxString), p)
  {
    hide StringView, PrefixReader, At;
    StringShowsMemory(d, ev, p, a, mem);
  }

  // The words of a vector: pointers to these addresses, then NULL, the limit, or a word that cannot be read.
  ghost predicate VectorHolds(d: Parser, abi: Abi, base: nat, mem: Memory, ptrs: seq<u64>, at: seq<nat>, stop: Stop) {
    && |ptrs| == |at| <= d.opt.maxArray
    && (forall i :: 0 <= i < |ptrs| ==>
          SlotAt(mem, abi, base, i, ptrs[i]) && PointsTo(abi, ptrs[i], at[i], Max(1, d.opt.maxString)))
    && (stop == Limit <==> |ptrs| == d.opt.maxArray)
    && (stop == Closed ==> SlotAt(mem, abi, base, |ptrs|, 0))
    && (stop == Torn ==> SlotIsTorn(mem, abi, base, |ptrs|))
  }

  lemma {:induction false} SlotsAre(d: Parser, ev: Call, addr: u64, base: nat, mem: Memory,
                                   ptrs: seq<u64>, at: seq<nat>, stop: Stop, i: nat)
    requires PrefixReader(d, ev.pid, mem) && VectorAt(ev.abi, addr, base, |ptrs| + 1)
    requires VectorHolds(d, ev.abi, base, mem, ptrs, at, stop) && i <= |ptrs|
    ensures
      var (items, stopped) := SlotsFrom(d, ev, addr, i);
      && |items| == |ptrs| - i && stopped == stop
      && forall k :: i <= k < |ptrs| ==> ShowsString(items[k - i], mem, at[k], Max(1, d.opt.maxString), ptrs[k])
    decreases |ptrs| - i
  {
    hide PrefixReader, VectorAt, Slot, SlotAt, SlotIsTorn, StringView, SeenOf, ShowsString;
    if i < |ptrs| {
      SlotHolds(d, ev, addr, base, mem, |ptrs| + 1, i, ptrs[i]);
      StringIsShown(d, ev, ptrs[i], at[i], mem);
      SlotsAre(d, ev, addr, base, mem, ptrs, at, stop, i + 1);
    } else if stop == Closed {
      SlotHolds(d, ev, addr, base, mem, |ptrs| + 1, i, 0);
    } else if stop == Torn {
      SlotFails(d, ev, addr, base, mem, |ptrs| + 1, i);
    }
  }

  // The text of print_strv shows, slot by slot, the strings the words in memory point to, and how it ended.
  lemma StrvShowsMemory(d: Parser, ev: Call, addr: u64, base: nat, mem: Memory,
                        ptrs: seq<u64>, at: seq<nat>, stop: Stop)
    requires PrefixReader(d, ev.pid, mem) && VectorAt(ev.abi, addr, base, |ptrs| + 1)
    requires VectorHolds(d, ev.abi, base, mem, ptrs, at, stop)
    ensures
      var read := ReadStrv(StrvText(d, ev, addr));
      read.Some? &&
      var (items, stopped) := read.value;
      && |items| == |ptrs| && stopped == stop
      && forall k :: 0 <= k < |ptrs| ==> ShowsString(items[k], mem, at[k], Max(1, d.opt.maxString), ptrs[k])
  {
    assert CanRead(d) && addr != 0;
    hide *;
    SlotsAre(d, ev, addr, base, mem, ptrs, at, stop, 0);
    StrvReads(d, ev, addr);
  }

  lemma StrvReads(d: Parser, ev: Call, addr: u64)
    requires CanRead(d) && addr != 0
    ensures ReadStrv(StrvText(d, ev, addr)) == Some(SlotsFrom(d, ev, addr, 0))
  {
    hide StrvFrom, SlotsFrom, ReadItems;
    ItemsReadBack(d, ev, addr, 0);
    assert ("[" + StrvFrom(d, ev, addr, 0))[1..] == StrvFrom(d, ev, addr, 0);
  }

  // A terminated string in memory.
  ghost predicate StringAt(mem: Memory, a: nat, s: seq<u8>) {
    0 !in s && At(mem, a, s + [0])
  }

  lemma ShownString(seen: Seen, mem: Memory, a: nat, max: nat, p: nat, s: seq<u8>)
    requires ShowsString(seen, mem, a, max, p) && StringAt(mem, a, s) && |s| < max
    ensures seen == Bytes(s, false)
  {
    var bytes := seen.bytes;
    assert forall k :: 0 <= k <= |s| ==> a + k in mem && mem[a + k] == (s + [0])[k];
    assert forall k :: 0 <= k < |bytes| ==> mem[a + k] == bytes[k] != 0 by {
      assert forall k :: 0 <= k < |bytes| ==> bytes[k] in bytes;
    }
    assert forall k :: 0 <= k < |s| ==> mem[a + k] == s[k] != 0 by {
      assert forall k :: 0 <= k < |s| ==> s[k] in s;
    }
    assert mem[a + |s|] == 0;
    assert |s| <= |bytes| <= |s|;
    assert bytes == s;
  }

  // So for readable, terminated strings it determines them byte for byte,
  // and ends in an ellipsis exactly when all the slots it may look at are non-NULL.
  lemma StrvReadsBack(d: Parser, ev: Call, addr: u64, base: nat, mem: Memory,
                      ptrs: seq<u64>, at: seq<nat>, strs: seq<seq<u8>>)
    requires PrefixReader(d, ev.pid, mem) && VectorAt(ev.abi, addr, base, |ptrs| + 1)
    requires VectorHolds(d, ev.abi, base, mem, ptrs, at, if |ptrs| == d.opt.maxArray then Limit else Closed)
    requires |strs| == |ptrs|
    requires forall i :: 0 <= i < |strs| ==> StringAt(mem, at[i], strs[i]) && |strs[i]| < Max(1, d.opt.maxString)
    ensures ReadStrv(StrvText(d, ev, addr)) ==
      Some((seq(|strs|, i requires 0 <= i < |strs| => Bytes(strs[i], false)),
            if |strs| == d.opt.maxArray then Limit else Closed))
  {
    hide ShowsString, StringAt, SlotAt, SlotIsTorn, ReadStrv, StrvText;
    StrvShowsMemory(d, ev, addr, base, mem, ptrs, at, if |ptrs| == d.opt.maxArray then Limit else Closed);
    var items := ReadStrv(StrvText(d, ev, addr)).value.0;
    forall k | 0 <= k < |strs|
      ensures items[k] == Bytes(strs[k], false)
    {
      ShownString(items[k], mem, at[k], Max(1, d.opt.maxString), ptrs[k], strs[k]);
    }
    assert items == seq(|strs|, i requires 0 <= i < |strs| => Bytes(strs[i], false));
  }

  // ----- readv() fills areas in order -----

  // The first area with room, or |lens|.
  function FirstFree(lens: seq<nat>, filled: seq<nat>, i: nat): (j: nat)
    requires |lens| == |filled| && i <= |lens|
    ensures i <= j <= |lens|
    ensures forall k :: i <= k < j ==> filled[k] >= lens[k]
    ensures j < |lens| ==> filled[j] < lens[j]
    decreases |lens| - i
  {
    if i == |lens| || filled[i] < lens[i] then i else FirstFree(lens, filled, i + 1)
  }

  // How full each area is after `total` bytes arrived one at a time, each going to the first area with room.
  function Scatter(lens: seq<nat>, total: nat): (filled: seq<nat>)
    ensures |filled| == |lens|
  {
    if total == 0 then seq(|lens|, _ => 0)
    else
      var filled := Scatter(lens, total - 1);
      var j := FirstFree(lens, filled, 0);
      if j == |lens| then filled else filled[j := filled[j] + 1]
  }

  lemma {:induction false} SumGrows(lens: seq<nat>, i: nat, j: nat)
    requires i <= j <= |lens|
    ensures Sum(lens[..i]) <= Sum(lens[..j])
    decreases j
  {
    if i < j {
      SumGrows(lens, i, j - 1);
      SumTake(lens, j - 1);
    }
  }

  // The areas before j are full after t bytes, so t bytes reach area j.
  lemma {:induction false} FullPrefix(lens: seq<nat>, t: nat, j: nat)
    requires j <= |lens|
    requires forall k :: 0 <= k < j ==> Given(lens, t, k) >= lens[k]
    ensures Sum(lens[..j]) <= t
    decreases j
  {
    if j > 0 {
      FullPrefix(lens, t, j - 1);
      SumTake(lens, j - 1);
      assert Given(lens, t, j - 1) >= lens[j - 1];
    }
  }

  // What each area is given once the areas before j are full and area j is not, one byte later.
  lemma GivenOneMore(lens: seq<nat>, t: nat, j: nat, i: nat)
    requires j <= |lens| && i < |lens|
    requires forall k :: 0 <= k < j ==> Given(lens, t, k) >= lens[k]
    requires j < |lens| ==> Given(lens, t, j) < lens[j]
    ensures Given(lens, t + 1, i) == Given(lens, t, i) + if i == j then 1 else 0
  {
    hide Sum;
    FullPrefix(lens, t, j);
    SumTake(lens, i);
    if i < j {
      SumGrows(lens, i + 1, j);
    } else if j < i {
      SumTake(lens, j);
      SumGrows(lens, j + 1, i);
    }
  }

  // The closed form of print_iov's budget is what byte-by-byte delivery gives each area.
  lemma {:induction false} ScatterIsGiven(lens: seq<nat>, total: nat)
    ensures forall i :: 0 <= i < |lens| ==> Scatter(lens, total)[i] == Given(lens, total, i)
    decreases total
  {
    if total > 0 {
      ScatterIsGiven(lens, total - 1);
      var j := FirstFree(lens, Scatter(lens, total - 1), 0);
      forall i | 0 <= i < |lens|
        ensures Scatter(lens, total)[i] == Given(lens, total, i)
      {
        hide Given;
        GivenOneMore(lens, total - 1, j, i);
      }
    } else {
      forall i | 0 <= i < |lens|
        ensures Given(lens, 0, i) == 0
      {
        hide Sum;
      }
    }
  }

  // What every area is given.
  function Shares(lens: seq<nat>, total: nat): (shares: seq<nat>)
    ensures |shares| == |lens|
  {
    seq(|lens|, i requires 0 <= i < |lens| => Given(lens, total, i))
  }

  lemma {:induction false} GivenInTotal(lens: seq<nat>, total: nat)
    ensures Sum(Shares(lens, total)) == Min(Sum(lens), total)
  {
    if lens != [] {
      var init := lens[..|lens| - 1];
      var all, some := Shares(lens, total), Shares(init, total);
      forall i | 0 <= i < |init|
        ensures all[i] == some[i]
      {
        assert lens[..i] == init[..i];
      }
      assert all[..|all| - 1] == some;
      GivenInTotal(init, total);
    }
  }

  // What is shown of an area is up to what was put there, even when the list is longer than what is shown.
  lemma GivenIsScatter(d: Parser, ev: Call, addr: u64, count: nat, total: u64, i: nat)
    requires i < Min(count, d.opt.maxArray)
    ensures Given(Lens(d, ev, addr, Min(count, d.opt.maxArray)), total, i)
         == Scatter(Lens(d, ev, addr, count), total)[i]
  {
    ScatterIsGiven(Lens(d, ev, addr, count), total);
    assert Lens(d, ev, addr, Min(count, d.opt.maxArray))[..i] == Lens(d, ev, addr, count)[..i];
  }
}
