/** Decomposing a word into named masks: greedy, lossless, irreducible, and readable back. */
module Flags {
  import opened Words
  import opened OutBuffer
  import opened Bits
  import Format
  import Text

  datatype Flag = Flag(value: bv64, name: string)

  type Table = seq<Flag>

  const O_ACCMODE: bv64 := 3

  // An entry that print_flags looks at; print_open_flags also skips those inside the access mode.
  predicate Considered(f: Flag, skip: bv64) {
    f.value != 0 && Disjoint(f.value, skip)
  }

  // The entries printed after the first n of the table were tried, and what is left of the value.
  function Greedy(value: bv64, table: Table, skip: bv64, n: nat): (Table, bv64)
    requires n <= |table|
  {
    if n == 0 then ([], value)
    else
      var (picked, rest) := Greedy(value, table, skip, n - 1);
      var f := table[n - 1];
      if Considered(f, skip) && Within(f.value, rest) then (picked + [f], Minus(rest, f.value)) else (picked, rest)
  }

  function Names(fs: Table): seq<string> {
    seq(|fs|, i requires 0 <= i < |fs| => fs[i].name)
  }

  function HexOf(v: bv64): string {
    Format.Hex(ToNat(v))
  }

  function Pieces(value: bv64, table: Table): seq<string> {
    var (picked, rest) := Greedy(value, table, 0, |table|);
    Names(picked) + if rest != 0 || picked == [] then [HexOf(rest)] else []
  }

  function FlagsText(value: bv64, table: Table, symbolic: bool, zero: Option<string>): string {
    if !symbolic then HexOf(value)
    else if value == 0 && zero.Some? then zero.value
    else Text.Join(Pieces(value, table), "|")
  }

  function AccessText(access: bv64): string {
    if access == 0 then "O_RDONLY"
    else if access == 1 then "O_WRONLY"
    else if access == 2 then "O_RDWR"
    else HexOf(access)
  }

  function OpenPieces(value: bv64, table: Table): seq<string> {
    var (picked, rest) := Greedy(Minus(value, O_ACCMODE), table, O_ACCMODE, |table|);
    [AccessText(Common(value, O_ACCMODE))] + Names(picked) + if rest != 0 then [HexOf(rest)] else []
  }

  function OpenFlagsText(value: bv64, table: Table, symbolic: bool): string {
    if symbolic then Text.Join(OpenPieces(value, table), "|") else HexOf(value)
  }

  // The text of both loops after n entries, behind the pieces that came first.
  function Printed(value: bv64, table: Table, skip: bv64, lead: seq<string>, n: nat): string
    requires n <= |table|
  {
    Text.Join(lead + Names(Greedy(value, table, skip, n).0), "|")
  }

  lemma PrintedNone(value: bv64, table: Table, skip: bv64, lead: seq<string>)
    requires |lead| <= 1
    ensures Greedy(value, table, skip, 0) == ([], value)
    ensures Printed(value, table, skip, lead, 0) == if lead == [] then "" else lead[0]
  {
    assert lead + Names([]) == lead;
  }

  lemma PrintedStep(value: bv64, table: Table, skip: bv64, lead: seq<string>, n: nat)
    requires n < |table|
    ensures
      var f := table[n];
      var (picked, rest) := Greedy(value, table, skip, n);
      var (picked', rest') := Greedy(value, table, skip, n + 1);
      var now := Printed(value, table, skip, lead, n);
      if Considered(f, skip) && Within(f.value, rest) then
        && picked' != [] && rest' == Minus(rest, f.value)
        && Printed(value, table, skip, lead, n + 1) == now + (if lead == [] && picked == [] then "" else "|") + f.name
      else
        picked' == picked && rest' == rest && Printed(value, table, skip, lead, n + 1) == now
  {
    var f := table[n];
    var (picked, rest) := Greedy(value, table, skip, n);
    assert Names(picked + [f]) == Names(picked) + [f.name];
    assert lead + (Names(picked) + [f.name]) == lead + Names(picked) + [f.name];
    Text.JoinSnoc(lead + Names(picked), f.name, "|");
  }

  lemma FlagsTextIs(value: bv64, table: Table, zero: Option<string>)
    requires value != 0 || zero.None?
    ensures
      var (picked, rest) := Greedy(value, table, 0, |table|);
      FlagsText(value, table, true, zero) ==
        Printed(value, table, 0, [], |table|)
        + if rest != 0 || picked == [] then (if picked == [] then "" else "|") + HexOf(rest) else ""
  {
    hide Greedy, HexOf;
    var (picked, rest) := Greedy(value, table, 0, |table|);
    assert [] + Names(picked) == Names(picked) && Names(picked) + [] == Names(picked);
    Text.JoinSnoc(Names(picked), HexOf(rest), "|");
  }

  lemma OpenFlagsTextIs(value: bv64, table: Table)
    ensures
      var rest := Greedy(Minus(value, O_ACCMODE), table, O_ACCMODE, |table|).1;
      OpenFlagsText(value, table, true) ==
        Printed(Minus(value, O_ACCMODE), table, O_ACCMODE, [AccessText(Common(value, O_ACCMODE))], |table|)
        + if rest != 0 then "|" + HexOf(rest) else ""
  {
    var (picked, rest) := Greedy(Minus(value, O_ACCMODE), table, O_ACCMODE, |table|);
    var head := [AccessText(Common(value, O_ACCMODE))] + Names(picked);
    assert head + [] == head;
    Text.JoinSnoc(head, HexOf(rest), "|");
  }

  method PrintFlags(o: Out, value: bv64, table: Table, symbolic: bool, zero: Option<string>)
    requires o.Valid()
    modifies o, o.buf
    ensures o.Valid() && o.text == old(o.text) + FlagsText(value, table, symbolic, zero)
  {
    if !symbolic {
      o.Printf(HexOf(value));
      return;
    }
    if value == 0 && zero.Some? {
      o.Printf(zero.value);
      return;
    }
    PrintMasks(o, value, table);
    FlagsTextIs(value, table, zero);
  }

  method PrintMasks(o: Out, value: bv64, table: Table)
    requires o.Valid()
    modifies o, o.buf
    ensures
      var (picked, rest) := Greedy(value, table, 0, |table|);
      && o.Valid()
      && o.text == old(o.text) + (Printed(value, table, 0, [], |table|) +
           if rest != 0 || picked == [] then (if picked == [] then "" else "|") + HexOf(rest) else "")
  {
    hide Image, HexOf, Printed, Greedy, Considered, Within, Minus, Disjoint;
    var rest := value;
    var any := false;
    PrintedNone(value, table, 0, []);
    for i := 0 to |table|
      invariant o.Valid() && o.text == old(o.text) + Printed(value, table, 0, [], i)
      invariant rest == Greedy(value, table, 0, i).1
      invariant any <==> Greedy(value, table, 0, i).0 != []
    {
      var f := table[i];
      PrintedStep(value, table, 0, [], i);
      if Considered(f, 0) && Within(f.value, rest) {
        o.Printf((if any then "|" else "") + f.name);
        rest := Minus(rest, f.value);
        any := true;
      }
    }
    if rest != 0 || !any {
      o.Printf((if any then "|" else "") + HexOf(rest));
    }
  }

  method PrintOpenFlags(o: Out, value: bv64, table: Table, symbolic: bool)
    requires o.Valid()
    modifies o, o.buf
    ensures o.Valid() && o.text == old(o.text) + OpenFlagsText(value, table, symbolic)
  {
    if !symbolic {
      o.Printf(HexOf(value));
      return;
    }
    PrintOpenMasks(o, Common(value, O_ACCMODE), Minus(value, O_ACCMODE), table);
    OpenFlagsTextIs(value, table);
  }

  method PrintOpenMasks(o: Out, access: bv64, value: bv64, table: Table)
    requires o.Valid()
    modifies o, o.buf
    ensures
      var left := Greedy(value, table, O_ACCMODE, |table|).1;
      && o.Valid()
      && o.text == old(o.text) + (Printed(value, table, O_ACCMODE, [AccessText(access)], |table|) +
           if left != 0 then "|" + HexOf(left) else "")
  {
    hide Image, HexOf, Printed, Greedy, AccessText, Considered, Within, Minus;
    var rest := value;
    PrintedNone(value, table, O_ACCMODE, [AccessText(access)]);
    o.Printf(AccessText(access));
    for i := 0 to |table|
      invariant o.Valid() && o.text == old(o.text) + Printed(value, table, O_ACCMODE, [AccessText(access)], i)
      invariant rest == Greedy(value, table, O_ACCMODE, i).1
    {
      var f := table[i];
      PrintedStep(value, table, O_ACCMODE, [AccessText(access)], i);
      if !Considered(f, O_ACCMODE) {
        continue;
      }
      if Within(f.value, rest) {
        o.Printf("|" + f.name);
        rest := Minus(rest, f.value);
      }
    }
    if rest != 0 {
      o.Printf("|" + HexOf(rest));
    }
  }
}
