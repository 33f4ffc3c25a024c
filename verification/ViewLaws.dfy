/** Reading back what is printed for a pointer: the bytes behind it, or the pointer itself. */
module ViewLaws {
  import opened Words
  import opened Remote
  import Format
  import Quoting
  import Text

  // Bytes and whether an ellipsis follows them, or an address and whether it is noted as unreadable.
  datatype Seen = Bytes(bytes: seq<u8>, more: bool) | Address(p: nat, unreadable: bool)

  const NOTE := " /* unreadable */"

  function ReadPointer(t: string): Option<nat> {
    if t == "NULL" then Some(0) else Format.ParseHex(t)
  }

  function ReadAddress(t: string): Option<Seen> {
    if |t| >= |NOTE| && t[|t| - |NOTE|..] == NOTE then
      match ReadPointer(t[..|t| - |NOTE|])
      case Some(p) => Some(Address(p, true))
      case None => None
    else
      match ReadPointer(t)
      case Some(p) => Some(Address(p, false))
      case None => None
  }

  // An address ends at a comma or a closing bracket.
  function EndOfAddress(s: string): (i: nat)
    ensures i <= |s|
  {
    if s == "" || s[0] == ',' || s[0] == ']' then 0 else 1 + EndOfAddress(s[1..])
  }

  function ReadBytes(s: string): Option<(Seen, string)> {
    match Quoting.ReadQuoted(s)
    case None => None
    case Some(r) =>
      match Text.After(r.rest, "...")
      case Some(rest) => Some((Bytes(r.bytes, true), rest))
      case None => Some((Bytes(r.bytes, false), r.rest))
  }

  // What is seen at the start of a text, and what follows.
  function ReadView(s: string): Option<(Seen, string)> {
    if s != "" && s[0] == '\"' then ReadBytes(s)
    else
      var i := EndOfAddress(s);
      match ReadAddress(s[..i])
      case Some(seen) => Some((seen, s[i..]))
      case None => None
  }

  // A pointer as a number: all of it, or the low half for the 32-bit ABI.
  function AddressOf(abi: Abi, p: u64): nat {
    if abi.Arm64? then p else p % 0x1_0000_0000
  }

  function SeenOf(abi: Abi, view: View): Seen {
    match view
    case Pointer(p) => Address(AddressOf(abi, p), false)
    case Unreadable(p) => Address(AddressOf(abi, p), true)
    case Shown(bytes, more) => Bytes(bytes, more)
  }

  predicate Ends(rest: string) {
    rest == "" || rest[0] == ',' || rest[0] == ']'
  }

  lemma {:induction false} EndOfAddressFinds(t: string, rest: string)
    requires ',' !in t && ']' !in t && Ends(rest)
    ensures EndOfAddress(t + rest) == |t|
  {
    if t != "" {
      assert t[0] in t && (t + rest)[1..] == t[1..] + rest;
      EndOfAddressFinds(t[1..], rest);
    } else {
      assert t + rest == rest;
    }
  }

  lemma PointerReadsBack(abi: Abi, p: u64)
    ensures ReadPointer(PtrText(abi, p)) == Some(AddressOf(abi, p))
    ensures PtrText(abi, p) != "" && PtrText(abi, p)[0] != '\"'
    ensures forall c :: c in PtrText(abi, p) ==> Format.IsDigit(c) || c in {'x', 'N', 'U', 'L'}
  {
    hide Format.ParseHex, Format.Digits;
    Format.ParseOfHex(AddressOf(abi, p));
    assert "NULL"[0] == 'N';
  }

  lemma AddressReadsBack(abi: Abi, p: u64)
    ensures ReadAddress(PtrText(abi, p)) == Some(Address(AddressOf(abi, p), false))
    ensures ReadAddress(PtrText(abi, p) + NOTE) == Some(Address(AddressOf(abi, p), true))
  {
    hide PtrText, ReadPointer;
    var t := PtrText(abi, p);
    PointerReadsBack(abi, p);
    assert (t + NOTE)[..|t|] == t && (t + NOTE)[|t|..] == NOTE;
    if |t| >= |NOTE| {
      assert t[|t| - |NOTE|..][0] in t && NOTE[0] == ' ';
    }
  }

  lemma ReadBytesOf(bytes: seq<u8>, more: bool, rest: string)
    requires Ends(rest)
    ensures ReadBytes(Quoting.Quoted(bytes, more) + rest) == Some((Bytes(bytes, more), rest))
  {
    hide Quoting.Quoted, Quoting.ReadQuoted;
    Quoting.ReadOfQuoted(bytes, more, rest);
    Text.AfterFinds("...", rest);
    assert "" + rest == rest;
  }

  lemma ReadAddressText(t: string, rest: string)
    requires t != "" && t[0] != '\"' && ',' !in t && ']' !in t && Ends(rest)
    ensures ReadView(t + rest) ==
      match ReadAddress(t)
      case Some(seen) => Some((seen, rest))
      case None => None
  {
    EndOfAddressFinds(t, rest);
    assert (t + rest)[..|t|] == t && (t + rest)[|t|..] == rest;
  }

  // The text of a view gives back what it shows, whatever list or argument follows.
  lemma ViewReadsBack(abi: Abi, view: View, rest: string)
    requires Ends(rest)
    ensures ReadView(ViewText(abi, view) + rest) == Some((SeenOf(abi, view), rest))
    ensures ViewText(abi, view) != "" && |rest| < |ViewText(abi, view) + rest|
  {
    hide PtrText, ReadAddress, ReadBytes, Format.IsDigit, AddressOf;
    match view
    case Shown(bytes, more) =>
      ReadBytesOf(bytes, more, rest);
      hide Quoting.Escape;
    case Pointer(p) =>
      AddressCharacters(abi, p);
      AddressReadsBack(abi, p);
      ReadAddressText(PtrText(abi, p), rest);
    case Unreadable(p) =>
      AddressCharacters(abi, p);
      AddressReadsBack(abi, p);
      ReadAddressText(PtrText(abi, p) + NOTE, rest);
  }

  lemma AddressCharacters(abi: Abi, p: u64)
    ensures PtrText(abi, p) != "" && PtrText(abi, p)[0] != '\"'
    ensures ',' !in PtrText(abi, p) && ']' !in PtrText(abi, p)
    ensures ',' !in PtrText(abi, p) + NOTE && ']' !in PtrText(abi, p) + NOTE
  {
    hide PtrText;
    PointerReadsBack(abi, p);
  }
}
