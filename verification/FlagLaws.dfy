/** Flag printing loses nothing, leaves nothing that could still be named, and reads back. */
module FlagLaws {
  import opened Words
  import opened Bits
  import opened Flags
  import Format
  import Text

  function Or(fs: Table): bv64 {
    if fs == [] then 0 else Union(Or(fs[..|fs| - 1]), fs[|fs| - 1].value)
  }

  lemma OrSnoc(fs: Table, f: Flag)
    ensures Or(fs + [f]) == Union(Or(fs), f.value)
  {
    assert (fs + [f])[..|fs|] == fs;
  }

  // No bit is lost and none is counted twice between the printed masks and the residual.
  lemma {:induction false} GreedyIsLossless(value: bv64, table: Table, skip: bv64, n: nat)
    requires n <= |table|
    ensures
      var (picked, rest) := Greedy(value, table, skip, n);
      Union(Or(picked), rest) == value && Disjoint(Or(picked), rest)
  {
    hide Union, Disjoint, Within, Minus;
    if n == 0 {
      UnionWithNone(value);
    } else {
      GreedyIsLossless(value, table, skip, n - 1);
      var (picked, rest) := Greedy(value, table, skip, n - 1);
      var f := table[n - 1];
      if Considered(f, skip) && Within(f.value, rest) {
        MoveKeeps(Or(picked), rest, f.value);
        MoveSeparates(Or(picked), rest, f.value);
        OrSnoc(picked, f);
      }
    }
  }

  lemma {:induction false} PartOfOr(fs: Table, i: nat)
    requires i < |fs|
    ensures Within(fs[i].value, Or(fs))
  {
    hide Union, Within;
    WithinUnion(Or(fs[..|fs| - 1]), fs[|fs| - 1].value, fs[i].value);
    if i < |fs| - 1 {
      PartOfOr(fs[..|fs| - 1], i);
    }
  }

  predicate PairwiseDisjoint(fs: Table) {
    forall i, j :: 0 <= i < j < |fs| ==> Disjoint(fs[i].value, fs[j].value)
  }

  lemma PairwiseSnoc(fs: Table, f: Flag)
    requires PairwiseDisjoint(fs)
    requires forall i :: 0 <= i < |fs| ==> Disjoint(fs[i].value, f.value)
    ensures PairwiseDisjoint(fs + [f])
  {
    hide Disjoint;
  }

  lemma {:induction false} GreedyIsDisjoint(value: bv64, table: Table, skip: bv64, n: nat)
    requires n <= |table|
    ensures
      var picked := Greedy(value, table, skip, n).0;
      && (forall f :: f in picked ==> f in table)
      && PairwiseDisjoint(picked)
  {
    hide Union, Disjoint, Within, Minus, Considered;
    if n > 0 {
      GreedyIsDisjoint(value, table, skip, n - 1);
      var (picked, rest) := Greedy(value, table, skip, n - 1);
      var f := table[n - 1];
      if Considered(f, skip) && Within(f.value, rest) {
        GreedyIsLossless(value, table, skip, n - 1);
        MoveIsNew(Or(picked), rest, f.value);
        forall i | 0 <= i < |picked|
          ensures Disjoint(picked[i].value, f.value)
        {
          PartOfOr(picked, i);
          DisjointWithin(picked[i].value, Or(picked), f.value);
        }
        PairwiseSnoc(picked, f);
      }
    }
  }

  lemma {:induction false} GreedyIsIrreducible(value: bv64, table: Table, skip: bv64, n: nat)
    requires n <= |table|
    ensures
      var rest := Greedy(value, table, skip, n).1;
      forall i :: 0 <= i < n && Considered(table[i], skip) ==> !Within(table[i].value, rest)
  {
    hide Disjoint, Within, Minus;
    if n > 0 {
      GreedyIsIrreducible(value, table, skip, n - 1);
      var rest := Greedy(value, table, skip, n - 1).1;
      var f := table[n - 1];
      if Considered(f, skip) && Within(f.value, rest) {
        MinusRemoves(rest, f.value);
        forall i | 0 <= i < n - 1 && Considered(table[i], skip)
          ensures !Within(table[i].value, Minus(rest, f.value))
        {
          MinusShrinks(rest, f.value, table[i].value);
        }
      }
    }
  }

  // print_flags and print_open_flags as a decomposition of the value.
  lemma FlagDecomposition(value: bv64, table: Table, skip: bv64)
    ensures
      var (picked, rest) := Greedy(value, table, skip, |table|);
      && Union(Or(picked), rest) == value
      && Disjoint(Or(picked), rest)
      && (forall f :: f in picked ==> f in table)
      && PairwiseDisjoint(picked)
      && (forall f :: f in table && Considered(f, skip) ==> !Within(f.value, rest))
  {
    hide Union, Disjoint, Within, Greedy;
    GreedyIsLossless(value, table, skip, |table|);
    GreedyIsDisjoint(value, table, skip, |table|);
    GreedyIsIrreducible(value, table, skip, |table|);
  }

  // ----- reading the text back -----

  const ACCESS_MODES: Table := [Flag(0, "O_RDONLY"), Flag(1, "O_WRONLY"), Flag(2, "O_RDWR")]

  function Lookup(dict: Table, name: string): Option<bv64> {
    if dict == [] then None
    else if dict[0].name == name then Some(dict[0].value)
    else Lookup(dict[1..], name)
  }

  function EvalPiece(dict: Table, piece: string): Option<bv64> {
    match Format.ParseHex(piece)
    case Some(n) => if n < TWO_64 then Some(FromNat(n)) else None
    case None => Lookup(dict, piece)
  }

  function EvalPieces(dict: Table, pieces: seq<string>): Option<bv64> {
    if pieces == [] then Some(0)
    else
      match (EvalPieces(dict, pieces[..|pieces| - 1]), EvalPiece(dict, pieces[|pieces| - 1]))
      case (Some(a), Some(b)) => Some(Union(a, b))
      case _ => None
  }

  // The value a text like "A|B|0x40" denotes.
  function Eval(dict: Table, text: string): Option<bv64> {
    EvalPieces(dict, Text.Split(text, '|'))
  }

  // Names that can be told apart from each other, from numbers and from separators.
  ghost predicate WellNamed(dict: Table) {
    && (forall f :: f in dict ==> '|' !in f.name && Format.ParseHex(f.name) == None)
    && (forall f, g :: f in dict && g in dict && f.name == g.name ==> f.value == g.value)
  }

  lemma {:induction false} LookupFinds(dict: Table, f: Flag)
    requires WellNamed(dict) && f in dict
    ensures Lookup(dict, f.name) == Some(f.value)
  {
    if dict[0].name == f.name {
      assert dict[0] in dict;
    } else {
      assert f in dict[1..];
      LookupFinds(dict[1..], f);
    }
  }

  lemma EvalOfHex(dict: Table, v: bv64)
    ensures EvalPiece(dict, HexOf(v)) == Some(v)
    ensures '|' !in HexOf(v)
  {
    hide ToNat, FromNat;
    Format.ParseOfHex(ToNat(v));
    RoundTrip(v);
  }

  lemma EvalSnoc(dict: Table, pieces: seq<string>, p: string, a: bv64, b: bv64)
    requires EvalPieces(dict, pieces) == Some(a) && EvalPiece(dict, p) == Some(b)
    ensures EvalPieces(dict, pieces + [p]) == Some(Union(a, b))
  {
    hide Union, EvalPiece;
    assert (pieces + [p])[..|pieces|] == pieces;
  }

  lemma EvalOne(dict: Table, p: string, v: bv64)
    requires EvalPiece(dict, p) == Some(v)
    ensures EvalPieces(dict, [p]) == Some(v)
    ensures '|' !in p ==> Eval(dict, p) == Some(v)
  {
    hide Union, EvalPiece;
    EvalSnoc(dict, [], p, 0, v);
    UnionWithNone(v);
    assert [] + [p] == [p];
    if '|' !in p {
      assert Text.Join([p], "|") == p;
      Text.SplitOfJoin([p], '|');
    }
  }

  // A leading piece worth `a`, then the names of fs.
  lemma {:induction false} EvalNames(dict: Table, lead: seq<string>, a: bv64, fs: Table)
    requires WellNamed(dict) && EvalPieces(dict, lead) == Some(a)
    requires forall f :: f in fs ==> f in dict
    ensures EvalPieces(dict, lead + Names(fs)) == Some(Union(a, Or(fs)))
  {
    hide Union, EvalPieces;
    if fs == [] {
      assert lead + Names(fs) == lead;
      UnionWithNone(a);
    } else {
      var init, last := fs[..|fs| - 1], fs[|fs| - 1];
      EvalNames(dict, lead, a, init);
      assert EvalPiece(dict, last.name) == Some(last.value) by { LookupFinds(dict, last); }
      EvalSnoc(dict, lead + Names(init), last.name, Union(a, Or(init)), last.value);
      assert lead + Names(fs) == lead + Names(init) + [last.name];
      UnionAssociates(a, Or(init), last.value);
    }
  }

  lemma NoBars(dict: Table, fs: Table)
    requires WellNamed(dict) && forall f :: f in fs ==> f in dict
    ensures forall p :: p in Names(fs) ==> '|' !in p
  {
    forall p | p in Names(fs)
      ensures '|' !in p
    {
      var i :| 0 <= i < |fs| && p == Names(fs)[i];
      assert fs[i] in dict;
    }
  }

  function Zero(zero: Option<string>): Table {
    match zero
    case Some(z) => [Flag(0, z)]
    case None => []
  }

  // Names after a lead worth a, and what is left of the value when it is printed.
  lemma EvalDecomposition(dict: Table, lead: seq<string>, a: bv64, picked: Table, rest: bv64, shown: bool)
    requires WellNamed(dict) && EvalPieces(dict, lead) == Some(a)
    requires forall f :: f in picked ==> f in dict
    requires forall p :: p in lead ==> '|' !in p
    requires shown || rest == 0
    ensures
      var pieces := lead + Names(picked) + if shown then [HexOf(rest)] else [];
      && EvalPieces(dict, pieces) == Some(Union(a, Union(Or(picked), rest)))
      && forall p :: p in pieces ==> '|' !in p
  {
    hide Union, EvalPieces, EvalPiece, Or, Names, WellNamed, HexOf;
    EvalNames(dict, lead, a, picked);
    NoBars(dict, picked);
    EvalOfHex(dict, rest);
    EvalSnoc(dict, lead + Names(picked), HexOf(rest), Union(a, Or(picked)), rest);
    UnionAssociates(a, Or(picked), rest);
    UnionWithNone(Or(picked));
    assert lead + Names(picked) + [] == lead + Names(picked);
  }

  // Whatever the options, the printed text denotes the value.
  lemma FlagsReadBack(value: bv64, table: Table, symbolic: bool, zero: Option<string>)
    requires WellNamed(table + Zero(zero))
    ensures Eval(table + Zero(zero), FlagsText(value, table, symbolic, zero)) == Some(value)
  {
    hide Union, Disjoint, Within, Greedy, HexOf, EvalPieces;
    var dict := table + Zero(zero);
    if !symbolic {
      EvalOfHex(dict, value);
      EvalOne(dict, HexOf(value), value);
    } else if value == 0 && zero.Some? {
      var z := Flag(0, zero.value);
      assert z in dict;
      LookupFinds(dict, z);
      EvalOne(dict, z.name, 0);
    } else {
      var (picked, rest) := Greedy(value, table, 0, |table|);
      FlagDecomposition(value, table, 0);
      EvalNone(dict);
      EvalDecomposition(dict, [], 0, picked, rest, rest != 0 || picked == []);
      UnionWithNone(value);
      assert [] + Names(picked) == Names(picked);
      Text.SplitOfJoin(Pieces(value, table), '|');
    }
  }

  lemma EvalNone(dict: Table)
    ensures EvalPieces(dict, []) == Some(0)
  {
  }

  lemma AccessReadsBack(dict: Table, access: bv64)
    requires WellNamed(dict) && ACCESS_MODES <= dict
    requires access == 0 || access == 1 || access == 2 || access == 3
    ensures EvalPiece(dict, AccessText(access)) == Some(access)
    ensures '|' !in AccessText(access)
  {
    if access == 3 {
      EvalOfHex(dict, access);
    } else {
      var i := if access == 0 then 0 else if access == 1 then 1 else 2;
      var f := dict[i];
      assert f == ACCESS_MODES[i] == Flag(access, AccessText(access));
      LookupFinds(dict, f);
    }
  }

  lemma AccessIsSmall(value: bv64)
    ensures
      var access := Common(value, O_ACCMODE);
      access == 0 || access == 1 || access == 2 || access == 3
  {
  }

  // The access mode is printed apart, and the whole still denotes the value.
  lemma OpenFlagsReadBack(value: bv64, table: Table, symbolic: bool)
    requires WellNamed(ACCESS_MODES + table)
    ensures Eval(ACCESS_MODES + table, OpenFlagsText(value, table, symbolic)) == Some(value)
  {
    hide Union, Disjoint, Within, Greedy, HexOf, EvalPieces, EvalPiece, Common, Minus, AccessText;
    var dict := ACCESS_MODES + table;
    if !symbolic {
      EvalOfHex(dict, value);
      EvalOne(dict, HexOf(value), value);
    } else {
      var access, masked := Common(value, O_ACCMODE), Minus(value, O_ACCMODE);
      var (picked, rest) := Greedy(masked, table, O_ACCMODE, |table|);
      AccessIsSmall(value);
      AccessReadsBack(dict, access);
      EvalOne(dict, AccessText(access), access);
      FlagDecomposition(masked, table, O_ACCMODE);
      EvalDecomposition(dict, [AccessText(access)], access, picked, rest, rest != 0);
      Partition(value, O_ACCMODE);
      Text.SplitOfJoin(OpenPieces(value, table), '|');
    }
  }

  // ----- the rule by which entries are printed -----

  // What is left of a value.
  datatype Rest = Rest(bits: bv64)

  predicate Fits(f: Flag, skip: bv64, left: Rest) {
    Considered(f, skip) && Within(f.value, left.bits)
  }

  function Without(left: Rest, f: Flag): Rest {
    Rest(Minus(left.bits, f.value))
  }

  // No bit of the mask is to be skipped; all its bits are left; they are taken.
  lemma FittingIs(mask: bv64, skip: bv64, left: bv64)
    ensures Disjoint(mask, skip) <==> mask & skip == 0
    ensures Within(mask, left) <==> left & mask == mask
    ensures Minus(left, mask) == left & !mask
  {
  }

  // What is left of the value when the chosen entries before number i are taken away.
  function Left(value: Rest, table: Table, chosen: set<nat>, i: nat): Rest
    requires i <= |table|
  {
    if i == 0 then value
    else if i - 1 in chosen then Without(Left(value, table, chosen, i - 1), table[i - 1])
    else Left(value, table, chosen, i - 1)
  }

  // Of the first n entries those are chosen that fit into what is left at their turn.
  ghost predicate IsChoice(value: Rest, table: Table, skip: bv64, chosen: set<nat>, n: nat)
    requires n <= |table|
  {
    && (forall i :: i in chosen ==> i < n)
    && forall i :: 0 <= i < n ==> (i in chosen <==> Fits(table[i], skip, Left(value, table, chosen, i)))
  }

  // The chosen ones of the first n entries, in table order.
  function Entries(table: Table, chosen: set<nat>, n: nat): Table
    requires n <= |table|
  {
    if n == 0 then [] else Entries(table, chosen, n - 1) + if n - 1 in chosen then [table[n - 1]] else []
  }

  lemma {:induction false} LaterChoice(value: Rest, table: Table, chosen: set<nat>, n: nat, i: nat)
    requires i <= n <= |table|
    ensures Left(value, table, chosen + {n}, i) == Left(value, table, chosen, i)
    ensures Entries(table, chosen + {n}, i) == Entries(table, chosen, i)
  {
    hide Without;
    if i > 0 {
      LaterChoice(value, table, chosen, n, i - 1);
    }
  }

  lemma ChoiceSnoc(value: Rest, table: Table, skip: bv64, before: set<nat>, n: nat)
    requires n < |table| && IsChoice(value, table, skip, before, n)
    ensures
      var chosen := if Fits(table[n], skip, Left(value, table, before, n)) then before + {n} else before;
      && IsChoice(value, table, skip, chosen, n + 1)
      && Entries(table, chosen, n) == Entries(table, before, n)
      && Left(value, table, chosen, n) == Left(value, table, before, n)
      && (n in chosen <==> Fits(table[n], skip, Left(value, table, before, n)))
  {
    hide Fits, Without, Left, Entries;
    forall i | 0 <= i <= n
      ensures Left(value, table, before + {n}, i) == Left(value, table, before, i)
      ensures Entries(table, before + {n}, i) == Entries(table, before, i)
    {
      LaterChoice(value, table, before, n, i);
    }
  }

  // Greedy, with what is left wrapped up.
  function Wrapped(value: bv64, table: Table, skip: bv64, n: nat): (Table, Rest)
    requires n <= |table|
  {
    (Greedy(value, table, skip, n).0, Rest(Greedy(value, table, skip, n).1))
  }

  lemma GreedyStep(value: bv64, table: Table, skip: bv64, n: nat)
    requires n < |table|
    ensures
      var (picked, rest) := Wrapped(value, table, skip, n);
      Wrapped(value, table, skip, n + 1) ==
        if Fits(table[n], skip, rest) then (picked + [table[n]], Without(rest, table[n])) else (picked, rest)
  {
    hide Considered, Within, Minus;
  }

  lemma LeftStep(value: Rest, table: Table, chosen: set<nat>, n: nat)
    requires n < |table|
    ensures Left(value, table, chosen, n + 1) ==
      if n in chosen then Without(Left(value, table, chosen, n), table[n]) else Left(value, table, chosen, n)
    ensures Entries(table, chosen, n + 1) == Entries(table, chosen, n) + if n in chosen then [table[n]] else []
  {
    hide Without;
  }

  lemma NothingChosen(value: bv64, table: Table, skip: bv64)
    ensures IsChoice(Rest(value), table, skip, {}, 0)
    ensures Wrapped(value, table, skip, 0) == (Entries(table, {}, 0), Left(Rest(value), table, {}, 0))
  {
  }

  // The loop follows the rule.
  lemma {:induction false} GreedyFollowsRule(value: bv64, table: Table, skip: bv64, n: nat) returns (chosen: set<nat>)
    requires n <= |table|
    ensures IsChoice(Rest(value), table, skip, chosen, n)
    ensures Wrapped(value, table, skip, n) == (Entries(table, chosen, n), Left(Rest(value), table, chosen, n))
  {
    hide Fits, Without, Wrapped, Left, Entries, IsChoice, Greedy;
    if n == 0 {
      chosen := {};
      NothingChosen(value, table, skip);
    } else {
      var before := GreedyFollowsRule(value, table, skip, n - 1);
      GreedyStep(value, table, skip, n - 1);
      ChoiceSnoc(Rest(value), table, skip, before, n - 1);
      chosen := if Fits(table[n - 1], skip, Left(Rest(value), table, before, n - 1)) then before + {n - 1} else before;
      LeftStep(Rest(value), table, chosen, n - 1);
      assert Entries(table, chosen, n - 1) + [] == Entries(table, chosen, n - 1);
    }
  }

  // What is printed of the rest, if anything.
  function RestText(rest: Rest, always: bool): seq<string> {
    if rest.bits != 0 || always then [Format.Hex(ToNat(rest.bits))] else []
  }

  // print_flags by the rule: the names chosen, then what is left of the value; a value that is not to be shown by
  // name, or zero, is shown as such.
  lemma FlagsByRule(value: bv64, table: Table, symbolic: bool, zero: Option<string>) returns (chosen: set<nat>)
    ensures IsChoice(Rest(value), table, 0, chosen, |table|)
    ensures FlagsText(value, table, symbolic, zero) ==
      if !symbolic then Format.Hex(ToNat(value))
      else if value == 0 && zero.Some? then zero.value
      else
        var fs := Entries(table, chosen, |table|);
        Text.Join(Names(fs) + RestText(Left(Rest(value), table, chosen, |table|), fs == []), "|")
  {
    hide Greedy, Left, IsChoice, Format.Hex, Text.Join, ToNat;
    chosen := GreedyFollowsRule(value, table, 0, |table|);
  }

  lemma HexOfThree()
    ensures HexOf(3) == "0x3"
  {
    assert ToNat(3) == 3;
    assert Format.Digits(16, 3) == [Format.Digit(3)] == "3";
  }

  // The name of an access mode.
  predicate IsModeName(access: bv64, mode: string) {
    || (access == 0 && mode == "O_RDONLY") || (access == 1 && mode == "O_WRONLY") || (access == 2 && mode == "O_RDWR")
    || (access == 3 && mode == "0x3")
  }

  lemma AccessTextIs(access: bv64)
    requires access == 0 || access == 1 || access == 2 || access == 3
    ensures IsModeName(access, AccessText(access))
  {
    HexOfThree();
  }

  lemma OpenParts(value: bv64) returns (mode: string, others: Rest)
    ensures mode == AccessText(Common(value, O_ACCMODE)) && others.bits == Minus(value, O_ACCMODE)
    ensures IsModeName(value & 3, mode) && others.bits == value & !3
  {
    AccessIsSmall(value);
    AccessTextIs(value & 3);
    hide AccessText, IsModeName;
    mode, others := AccessText(value & 3), Rest(value & !3);
  }

  // print_open_flags by the rule: the access mode by its own name, then the names chosen for the other bits.
  lemma OpenFlagsByRule(value: bv64, table: Table, symbolic: bool) returns (mode: string, others: Rest, chosen: set<nat>)
    ensures IsModeName(value & 3, mode) && others.bits == value & !3 && IsChoice(others, table, 3, chosen, |table|)
    ensures OpenFlagsText(value, table, symbolic) ==
      if !symbolic then Format.Hex(ToNat(value))
      else
        var fs := Entries(table, chosen, |table|);
        Text.Join([mode] + Names(fs) + RestText(Left(others, table, chosen, |table|), false), "|")
  {
    mode, others := OpenParts(value);
    hide Greedy, Left, IsChoice, Text.Join, Format.Hex, AccessText, Common, Minus, IsModeName, ToNat;
    chosen := GreedyFollowsRule(others.bits, table, 3, |table|);
  }
}
