/** Truncation like snprintf's: what ends up in the buffer, and what the result says about it. */
module Truncation {
  import opened Words
  import opened OutBuffer
  import opened Remote
  import opened Decoder
  import opened Memory
  import Eabi
  import Quoting
  import Text

  // A buffer of any size holds a prefix of what a larger one holds, up to its own NUL.
  lemma SmallerBufferHoldsPrefix(text: string, small: nat, large: nat, before: seq<char>, other: seq<char>)
    requires 0 < small <= large && small <= |before| && large <= |other|
    ensures
      var (a, b) := (Image(text, small, before), Image(text, large, other));
      var k := |Stored(text, small)|;
      && |a| == |before| && |b| == |other|
      && a[..k] == b[..k] == Stored(text, small) && a[k] == NUL
      && a[k + 1..] == before[k + 1..]
  {
    var k := Min(|text|, small - 1);
    var l := Min(|text|, large - 1);
    assert text[..l][..k] == text[..k];
  }

  // ----- the header's promise: a result of at least dst_size means the line was cut -----

  // The C string that ends up in the buffer; an empty buffer holds nothing.
  function Stored(line: string, size: nat): string {
    if size == 0 then "" else line[..Min(|line|, size - 1)]
  }

  // What the decoder returns for a line.
  function Returned(line: string): int {
    Min(|line|, INT32_MAX)
  }

  predicate IsInput(n: Names, ev: Call, table: seq<Entry>) {
    SixArgs(ev) && ValidNames(n) && |table| == TABLE_SIZE
  }

  // For this event, the result tells whether the buffer holds less than the line.
  predicate TellsTruncation(n: Names, d: Parser, ev: Call, table: seq<Entry>, size: u64)
    requires IsInput(n, ev, table)
  {
    var line := LineText(n, d, ev, table);
    Returned(line) >= size <==> Stored(line, size) != line
  }

  ghost predicate PromiseHolds(size: u64) {
    forall n: Names, d: Parser, ev: Call, table: seq<Entry> ::
      IsInput(n, ev, table) ==> TellsTruncation(n, d, ev, table, size)
  }

  lemma LineIsNotEmpty(n: Names, d: Parser, ev: Call, table: seq<Entry>)
    requires IsInput(n, ev, table)
    ensures LineText(n, d, ev, table) != ""
  {
    hide ArgsText, ResultText, DurationText;
  }

  lemma SmallSizesTell(n: Names, d: Parser, ev: Call, table: seq<Entry>, size: u64)
    requires IsInput(n, ev, table) && size <= INT32_MAX
    ensures TellsTruncation(n, d, ev, table, size)
  {
    hide LineText;
    LineIsNotEmpty(n, d, ev, table);
    var line := LineText(n, d, ev, table);
    if size > |line| {
      assert line[..|line|] == line;
    }
  }

  // ----- lines as long as a string argument -----

  // Argument i is printed as the string it points to.
  predicate PrintsString(n: Names, ev: Call, table: seq<Entry>, i: nat)
    requires IsInput(n, ev, table)
  {
    var name := CallName(table, ev.nr);
    var call := FindCall(n.calls, name);
    && call.Some? && i < ArgCount(n, ev, LookupEntry(table, ev.nr), name)
    && (|call.value.args| == 6 ==> call.value.args[i].kind in {Str, Path})
    && !(ev.abi.ArmEabi? && Eabi.IsAligned64(name)) && !IsSpecial(ev.abi, name)
  }

  lemma LineHoldsArgs(n: Names, d: Parser, ev: Call, table: seq<Entry>)
    requires IsInput(n, ev, table)
    ensures
      var name := CallName(table, ev.nr);
      |LineText(n, d, ev, table)| > |ArgsText(n, d, ev, LookupEntry(table, ev.nr), name)|
  {
    hide ArgsText, ResultText, DurationText;
  }

  lemma LineHoldsString(n: Names, d: Parser, ev: Call, table: seq<Entry>, i: nat)
    requires IsInput(n, ev, table) && PrintsString(n, ev, table, i)
    requires StringView(d, ev, ev.args[i]).Shown?
    ensures |LineText(n, d, ev, table)| > |StringView(d, ev, ev.args[i]).bytes|
  {
    hide LineText, ArgCount, Text.Join, StringView, Quoting.Quoted, IsSpecial, Eabi.IsAligned64, Eabi.AlignedText;
    LineHoldsArgs(n, d, ev, table);
    var name := CallName(table, ev.nr);
    hide CallName, LookupEntry;
    var texts := ArgTexts(n, d, ev, name, ArgCount(n, ev, LookupEntry(table, ev.nr), name));
    var view := StringView(d, ev, ev.args[i]);
    assert FindCall(n.calls, name).value.args[i] in FindCall(n.calls, name).value.args;
    assert texts[i] == Quoting.Quoted(view.bytes, view.more);
    Quoting.QuotedShape(view.bytes, view.more);
    Text.JoinIsLonger(texts, ", ", i);
  }

  // From a on, max bytes can be read and none is a NUL.
  predicate NoNulWithin(mem: Memory, a: nat, max: nat) {
    forall k :: a <= k < a + max ==> k in mem && mem[k] != 0
  }

  lemma LongStringView(d: Parser, ev: Call, addr: u64, a: nat, mem: Memory)
    requires PrefixReader(d, ev.pid, mem) && PointsTo(ev.abi, addr, a, Max(1, d.opt.maxString))
    requires NoNulWithin(mem, a, Max(1, d.opt.maxString))
    ensures StringView(d, ev, addr).Shown? && |StringView(d, ev, addr).bytes| == Max(1, d.opt.maxString)
  {
    hide PrefixReader, PointsTo, StringView, At;
    StringShowsMemory(d, ev, addr, a, mem);
  }

  // A string argument of max_string readable bytes without a NUL makes a line that is cut without the result
  // saying so, for every buffer that is larger than an int can count and no larger than max_string.
  lemma LongStringIsCutSilently(n: Names, d: Parser, ev: Call, table: seq<Entry>, i: nat, a: nat, mem: Memory, size: u64)
    requires IsInput(n, ev, table) && PrintsString(n, ev, table, i)
    requires PrefixReader(d, ev.pid, mem) && PointsTo(ev.abi, ev.args[i], a, Max(1, d.opt.maxString))
    requires NoNulWithin(mem, a, Max(1, d.opt.maxString))
    requires INT32_MAX < size <= Max(1, d.opt.maxString)
    ensures
      var line := LineText(n, d, ev, table);
      Returned(line) < size && Stored(line, size) != line && !TellsTruncation(n, d, ev, table, size)
  {
    hide LineText, ArgCount, PrefixReader, PointsTo, StringView, NoNulWithin;
    LongStringView(d, ev, ev.args[i], a, mem);
    LineHoldsString(n, d, ev, table, i);
  }

  // ----- for every size beyond an int there is such a call -----

  // chdir(path), with every byte of memory an 'x'.
  function Chdir(): CallDesc {
    var none := ArgDesc(Hex, 0);
    CallDesc("chdir", 1, [ArgDesc(Path, -1), none, none, none, none, none])
  }

  function ChdirNames(): Names {
    Names([Chdir()], [], [], [], _ => None, _ => None, _ => "",
          (d, ev, addr, len) => [], (d, ev, name) => [])
  }

  function ChdirTable(): seq<Entry> {
    seq(TABLE_SIZE, _ => Entry(Some("chdir"), 1, 64))
  }

  function AllXs(): Reader {
    (pid: u32, a: u64, n: nat) => seq(n, _ => 0x78)
  }

  function Patient(maxString: u64): Parser {
    Parser(Options(maxString, 0, 0, true, true), Some(AllXs()))
  }

  function ChdirEvent(): Call {
    Call(Arm64, 49, 1, 1, [1, 0, 0, 0, 0, 0], 0, 0)
  }

  lemma {:induction false} XsAreRead(acc: seq<u8>, max: u64)
    requires |acc| <= max
    ensures
      var (bytes, terminated) := ChunkedString(Patient(max), ChdirEvent(), 1, acc, max);
      |bytes| == max && !terminated
    decreases max - |acc|
  {
    if |acc| < max {
      var chunk := Min(max - |acc|, 32);
      var got := ReadMem(Patient(max), ChdirEvent(), Add64(1, |acc|), chunk);
      assert Add64(1, |acc|) == 1 + |acc|;
      assert got == seq(chunk, _ => 0x78);
      ChunkedStep(Patient(max), ChdirEvent(), 1, acc, max);
      XsAreRead(acc + got, max);
    }
  }

  lemma ChdirPrintsString()
    ensures IsInput(ChdirNames(), ChdirEvent(), ChdirTable())
    ensures PrintsString(ChdirNames(), ChdirEvent(), ChdirTable(), 0)
  {
    var n := ChdirNames();
    assert n.calls[0] == Chdir() && n.calls[0].name == "chdir";
    assert CallName(ChdirTable(), 49) == "chdir";
  }

  lemma LongPathIsCutSilently(size: u64)
    requires size > INT32_MAX
    ensures IsInput(ChdirNames(), ChdirEvent(), ChdirTable())
    ensures
      var line := LineText(ChdirNames(), Patient(size), ChdirEvent(), ChdirTable());
      && Returned(line) < size && Stored(line, size) != line
      && !TellsTruncation(ChdirNames(), Patient(size), ChdirEvent(), ChdirTable(), size)
  {
    hide LineText, PrintsString, ChunkedString;
    ChdirPrintsString();
    XsAreRead([], size);
    LineHoldsString(ChdirNames(), Patient(size), ChdirEvent(), ChdirTable(), 0);
  }

  // The promise is kept for every parser, event and table if and only if the size fits an int.
  lemma PromiseHoldsIffSizeFitsInt(size: u64)
    ensures PromiseHolds(size) <==> size <= 0x7fff_ffff
  {
    hide TellsTruncation;
    if size <= INT32_MAX {
      forall n: Names, d: Parser, ev: Call, table: seq<Entry> | IsInput(n, ev, table)
        ensures TellsTruncation(n, d, ev, table, size)
      {
        SmallSizesTell(n, d, ev, table, size);
      }
    } else {
      LongPathIsCutSilently(size);
    }
  }
}
