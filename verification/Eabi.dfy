/** 64-bit arguments of 32-bit ARM calls: split over an even register pair and put together again. */
module Eabi {
  import opened Words
  import opened OutBuffer
  import opened Remote
  import Format

  // An argument of the C function.
  datatype CArg = W32(low: u32) | W64(wide: u64)

  function ArmU64(first: u64, second: u64): u64 {
    Low32(second) * TWO_32 + Low32(first)
  }

  predicate IsPositional(name: string) {
    name == "pread64" || name == "pwrite64"
  }

  predicate IsTruncate(name: string) {
    name == "truncate64" || name == "ftruncate64"
  }

  predicate IsAligned64(name: string) {
    IsPositional(name) || name == "readahead" || IsTruncate(name)
  }

  // The logical arguments the decoder takes out of the registers.
  function Lift(name: string, args: seq<u64>): seq<CArg>
    requires IsAligned64(name) && |args| == 6
  {
    if IsPositional(name) then
      [W32(Low32(args[0])), W32(Low32(args[1])), W32(Low32(args[2])), W64(ArmU64(args[4], args[5]))]
    else if name == "readahead" then
      [W32(Low32(args[0])), W64(ArmU64(args[2], args[3])), W32(Low32(args[4]))]
    else
      [W32(Low32(args[0])), W64(ArmU64(args[2], args[3]))]
  }

  function PositionalView(d: Parser, ev: Call, name: string): View
    requires SixArgs(ev)
  {
    if name == "pwrite64" then BufferView(d, ev, ev.args[1], Low32(ev.args[2]))
    else OutputView(d, ev, 2, ev.args[1])
  }

  function AlignedText(d: Parser, ev: Call, name: string): string
    requires IsAligned64(name) && SixArgs(ev)
  {
    var cs := Lift(name, ev.args);
    if IsPositional(name) then
      Format.Signed(AsInt32(cs[0].low)) + ", "
      + ViewText(ev.abi, PositionalView(d, ev, name))
      + (", " + Format.Decimal(cs[2].low) + ", " + Format.Decimal(cs[3].wide))
    else if name == "readahead" then
      Format.Signed(AsInt32(cs[0].low)) + ", " + Format.Decimal(cs[1].wide) + ", " + Format.Decimal(cs[2].low)
    else
      (if name == "truncate64" then ViewText(ev.abi, StringView(d, ev, ev.args[0]))
       else Format.Signed(AsInt32(cs[0].low)))
      + (", " + Format.Decimal(cs[1].wide))
  }

  method PrintPositional(d: Parser, ev: Call, o: Out, name: string)
    requires o.Valid() && SixArgs(ev) && IsPositional(name)
    modifies o, o.buf
    ensures o.Valid() && o.text == old(o.text) + AlignedText(d, ev, name)
  {
    hide Image, ViewText, BufferView, OutputView, Format.Signed, Format.Decimal;
    o.Printf(Format.Signed(AsInt32(ev.args[0])) + ", ");
    if name == "pwrite64" {
      PrintBuffer(d, ev, o, ev.args[1], Low32(ev.args[2]));
    } else {
      PrintOutputBuffer(d, ev, o, 2, ev.args[1]);
    }
    var v := ArmU64(ev.args[4], ev.args[5]);
    o.Printf(", " + Format.Decimal(Low32(ev.args[2])) + ", " + Format.Decimal(v));
  }

  method PrintAligned64(d: Parser, ev: Call, o: Out, name: string) returns (handled: bool)
    requires o.Valid() && SixArgs(ev)
    modifies o, o.buf
    ensures o.Valid() && handled == IsAligned64(name)
    ensures o.text == old(o.text) + if handled then AlignedText(d, ev, name) else ""
  {
    hide Image, ViewText, StringView, Format.Signed, Format.Decimal, PositionalView;
    if name == "pread64" || name == "pwrite64" {
      PrintPositional(d, ev, o, name);
      return true;
    }
    if name == "readahead" {
      var v := ArmU64(ev.args[2], ev.args[3]);
      o.Printf(Format.Signed(AsInt32(ev.args[0])) + ", " + Format.Decimal(v) + ", " + Format.Decimal(Low32(ev.args[4])));
      return true;
    }
    if name == "truncate64" || name == "ftruncate64" {
      if name == "truncate64" {
        PrintCString(d, ev, o, ev.args[0]);
      } else {
        o.Printf(Format.Signed(AsInt32(ev.args[0])));
      }
      var v := ArmU64(ev.args[2], ev.args[3]);
      o.Printf(", " + Format.Decimal(v));
      return true;
    }
    return false;
  }

  // ----- what the C library does before the call -----

  // The C prototypes: one flag per argument, true for a 64-bit one.
  function Signature(name: string): seq<bool>
    requires IsAligned64(name)
  {
    if IsPositional(name) then [false, false, false, true]
    else if name == "readahead" then [false, true, false]
    else [false, true]
  }

  predicate HasSignature(name: string, cs: seq<CArg>)
    requires IsAligned64(name)
  {
    |cs| == |Signature(name)| && forall i :: 0 <= i < |cs| ==> cs[i].W64? == Signature(name)[i]
  }

  // Registers from number `next` on; a 64-bit argument starts at an even one (rule C.3 of section 6.5
  // of AAPCS32), low word first, and the register skipped for that holds anything.
  function Lower(cs: seq<CArg>, next: nat, hole: u32): seq<u32> {
    if cs == [] then []
    else
      match cs[0]
      case W32(v) => [v] + Lower(cs[1..], next + 1, hole)
      case W64(v) =>
        var pair := [v % TWO_32, v / TWO_32];
        if next % 2 == 0 then pair + Lower(cs[1..], next + 2, hole)
        else [hole] + pair + Lower(cs[1..], next + 3, hole)
  }

  // The six recorded registers start with these, zero-extended.
  predicate Holds(args: seq<u64>, regs: seq<u32>) {
    |args| == 6 && |regs| <= 6 && forall i :: 0 <= i < |regs| ==> args[i] == regs[i]
  }

  lemma Halves(v: u64)
    ensures ArmU64(v % TWO_32, v / TWO_32) == v
  {
  }

  lemma LowerPositional(a: u32, b: u32, c: u32, v: u64, hole: u32)
    ensures Lower([W32(a), W32(b), W32(c), W64(v)], 0, hole) == [a, b, c, hole, v % TWO_32, v / TWO_32]
  {
    var cs := [W32(a), W32(b), W32(c), W64(v)];
    assert cs[1..] == [W32(b), W32(c), W64(v)] && cs[1..][1..] == [W32(c), W64(v)] && cs[1..][1..][1..] == [W64(v)];
    assert Lower([W64(v)], 3, hole) == [hole] + [v % TWO_32, v / TWO_32] + Lower([], 6, hole);
    assert Lower([W32(c), W64(v)], 2, hole) == [c] + Lower([W64(v)], 3, hole);
    assert Lower([W32(b), W32(c), W64(v)], 1, hole) == [b] + Lower([W32(c), W64(v)], 2, hole);
  }

  lemma LowerSecondWide(a: u32, v: u64, rest: seq<CArg>, hole: u32)
    requires rest == [] || exists c :: rest == [W32(c)]
    ensures Lower([W32(a), W64(v)] + rest, 0, hole)
         == [a, hole, v % TWO_32, v / TWO_32] + if rest == [] then [] else [rest[0].low]
  {
    var cs := [W32(a), W64(v)] + rest;
    assert cs[1..] == [W64(v)] + rest && cs[1..][1..] == rest;
    assert rest != [] ==> rest[1..] == [];
    assert Lower(rest, 4, hole) == if rest == [] then [] else [rest[0].low];
  }

  // Decoding undoes lowering: the original arguments come out whatever the skipped register
  // and the unused ones held.
  lemma LiftInvertsLower(name: string, cs: seq<CArg>, hole: u32, args: seq<u64>)
    requires IsAligned64(name) && HasSignature(name, cs)
    requires Holds(args, Lower(cs, 0, hole))
    ensures Lift(name, args) == cs
  {
    var regs := Lower(cs, 0, hole);
    if IsPositional(name) {
      var v := cs[3].wide;
      assert cs == [W32(cs[0].low), W32(cs[1].low), W32(cs[2].low), W64(v)];
      LowerPositional(cs[0].low, cs[1].low, cs[2].low, v, hole);
      Halves(v);
      assert args[4] == regs[4] && args[5] == regs[5];
    } else {
      var v := cs[1].wide;
      assert cs == [W32(cs[0].low), W64(v)] + cs[2..];
      if |cs| == 3 {
        assert cs[2..] == [W32(cs[2].low)];
      }
      LowerSecondWide(cs[0].low, v, cs[2..], hole);
      Halves(v);
      assert args[2] == regs[2] && args[3] == regs[3];
    }
  }
}
