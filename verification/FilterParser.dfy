/** The -e option: a comma-separated list, cut up in place and turned into a bitmap. */
module FilterParser {
  import opened Words
  import opened SyscallBitmap
  import Text

  type Table = seq<Option<string>>

  const TABLE_SIZE := 473

  predicate IsBlank(c: char) {
    c == ' ' || c == '\t'
  }

  // ----- the specification: split, trim, drop the empty ones -----

  function TrimLeft(s: string): string {
    if s != "" && IsBlank(s[0]) then TrimLeft(s[1..]) else s
  }

  function TrimRight(s: string): string {
    if s != "" && IsBlank(s[|s| - 1]) then TrimRight(s[..|s| - 1]) else s
  }

  function Trim(s: string): string {
    TrimRight(TrimLeft(s))
  }

  function Wanted(field: string): seq<string> {
    if Trim(field) == "" then [] else [Trim(field)]
  }

  function WantedAll(fields: seq<string>): seq<string> {
    if fields == [] then [] else Wanted(fields[0]) + WantedAll(fields[1..])
  }

  // The trimmed, non-empty tokens of the argument.
  function Tokens(arg: string): seq<string> {
    WantedAll(Text.Split(arg, ','))
  }

  // The number of a name: its first slot in the table, or -1.
  function Number(table: Table, name: string): (r: int)
    ensures -1 <= r < |table|
    ensures r >= 0 ==> table[r] == Some(name)
    ensures forall k :: 0 <= k < |table| && (r < 0 || k < r) ==> table[k] != Some(name)
  {
    if table == [] then -1
    else if table[0] == Some(name) then 0
    else
      var r := Number(table[1..], name);
      assert forall k :: 1 <= k < |table| ==> table[k] == table[1..][k - 1];
      if r < 0 then -1 else r + 1
  }

  // How many tokens are processed before the first unknown one.
  function KnownPrefix(tokens: seq<string>, table: Table): (n: nat)
    ensures n <= |tokens|
  {
    if tokens == [] || Number(table, tokens[0]) < 0 then 0 else 1 + KnownPrefix(tokens[1..], table)
  }

  function Numbers(tokens: seq<string>, table: Table): set<int> {
    set t | t in tokens :: Number(table, t)
  }

  predicate AllBlank(s: string) {
    forall c :: c in s ==> IsBlank(c)
  }

  lemma {:induction false} TrimLeftIs(s: string) returns (blanks: string)
    ensures s == blanks + TrimLeft(s) && AllBlank(blanks)
    ensures TrimLeft(s) != "" ==> !IsBlank(TrimLeft(s)[0])
  {
    if s != "" && IsBlank(s[0]) {
      blanks := TrimLeftIs(s[1..]);
      blanks := [s[0]] + blanks;
    } else {
      blanks := "";
    }
  }

  lemma {:induction false} TrimRightIs(s: string) returns (blanks: string)
    ensures s == TrimRight(s) + blanks && AllBlank(blanks)
    ensures TrimRight(s) != "" ==> !IsBlank(TrimRight(s)[|TrimRight(s)| - 1])
  {
    if s != "" && IsBlank(s[|s| - 1]) {
      blanks := TrimRightIs(s[..|s| - 1]);
      blanks := blanks + [s[|s| - 1]];
    } else {
      blanks := "";
    }
  }

  // Trimming takes blanks off both ends and nothing else.
  lemma TrimMeans(s: string) returns (left: string, right: string)
    ensures s == left + Trim(s) + right && AllBlank(left) && AllBlank(right)
    ensures Trim(s) != "" ==> !IsBlank(Trim(s)[0]) && !IsBlank(Trim(s)[|Trim(s)| - 1])
  {
    left := TrimLeftIs(s);
    right := TrimRightIs(TrimLeft(s));
    if Trim(s) != "" {
      assert TrimLeft(s)[0] == Trim(s)[0];
    }
  }

  // ----- one token at a time -----

  lemma TokensOfLast(field: string)
    requires ',' !in field
    ensures Tokens(field) == Wanted(field)
    ensures Tokens("") == []
    ensures Tokens(field) == Wanted(field) + Tokens("")
  {
    Text.IndexOfNone(field, ',');
    assert WantedAll([field]) == Wanted(field) + WantedAll([]);
    Text.IndexOfNone("", ',');
    assert WantedAll([""]) == Wanted("") + WantedAll([]);
  }

  lemma TokensOfField(field: string, rest: string)
    requires ',' !in field
    ensures Tokens(field + [','] + rest) == Wanted(field) + Tokens(rest)
  {
    Text.IndexOfFirst(field, ',', rest);
    var fields := Text.Split(field + [','] + rest, ',');
    assert fields == [field] + Text.Split(rest, ',');
    assert fields[1..] == Text.Split(rest, ',');
  }

  lemma TokensOfComma(rest: string)
    ensures Tokens([','] + rest) == Tokens(rest)
  {
    TokensOfField("", rest);
    assert "" + [','] + rest == [','] + rest;
    assert Wanted("") + Tokens(rest) == Tokens(rest);
  }

  // ----- the in-place tokenizer -----

  // A C string at position p of a buffer whose last character is its NUL.
  ghost predicate IsTail(buf: array<char>, p: nat)
    reads buf
  {
    && p < buf.Length
    && buf[buf.Length - 1] == NUL
    && NUL !in buf[p..buf.Length - 1]
  }

  ghost function Tail(buf: array<char>, p: nat): string
    requires p < buf.Length
    reads buf
  {
    buf[p..buf.Length - 1]
  }

  // strspn(s, ",")
  method SkipCommas(buf: array<char>, from: nat) returns (p: nat)
    requires IsTail(buf, from)
    ensures from <= p && IsTail(buf, p)
    ensures buf[p] != ',' && (buf[p] == NUL ==> p == buf.Length - 1)
    ensures Tokens(Tail(buf, p)) == Tokens(Tail(buf, from))
  {
    p := from;
    while buf[p] == ','
      invariant from <= p && IsTail(buf, p)
      invariant Tokens(Tail(buf, p)) == Tokens(Tail(buf, from))
      decreases buf.Length - p
    {
      assert Tail(buf, p) == [','] + Tail(buf, p + 1);
      TokensOfComma(Tail(buf, p + 1));
      p := p + 1;
    }
    assert p < buf.Length - 1 ==> buf[p] == Tail(buf, p)[0];
  }

  // strcspn(s, ",")
  method FindComma(buf: array<char>, from: nat) returns (end: nat)
    requires IsTail(buf, from)
    ensures from <= end < buf.Length
    ensures ',' !in buf[from..end] && NUL !in buf[from..end]
    ensures if end < buf.Length - 1 then buf[end] == ',' else buf[end] == NUL
  {
    end := from;
    while buf[end] != ',' && buf[end] != NUL
      invariant from <= end < buf.Length
      invariant ',' !in buf[from..end]
      decreases buf.Length - end
    {
      assert buf[from..end + 1] == buf[from..end] + [buf[end]];
      end := end + 1;
    }
    if end < buf.Length - 1 {
      assert buf[end] == buf[from..buf.Length - 1][end - from];
    }
    assert forall k :: from <= k < end ==> buf[k] == buf[from..buf.Length - 1][k - from];
  }

  // strtok_r(..., ",", &save): the token's bounds and where to go on, or found == false.
  method NextToken(buf: array<char>, from: nat) returns (found: bool, token: nat, end: nat, save: nat)
    requires IsTail(buf, from)
    modifies buf
    ensures found ==> from <= token < buf.Length && IsToken(buf, token, end, save)
    ensures old(Tokens(Tail(buf, from))) == Pending(buf, found, token, end, save)
  {
    hide Tokens, Wanted;
    token := SkipCommas(buf, from);
    if buf[token] == NUL {
      assert Tail(buf, token) == "";
      TokensOfLast("");
      return false, token, token, token;
    }
    end := FindComma(buf, token);
    ghost var field := buf[token..end];
    ghost var all := Tail(buf, token);
    if buf[end] == NUL {
      assert field == all;
      TokensOfLast(field);
      assert Tail(buf, end) == "";
      return true, token, end, end;
    }
    ghost var rest := Tail(buf, end + 1);
    assert all == field + [','] + rest;
    TokensOfField(field, rest);
    buf[end] := NUL;
    assert Tail(buf, end + 1) == rest;
    assert NUL !in rest by {
      assert forall c :: c in rest ==> c in all;
    }
    return true, token, end, end + 1;
  }

  method SkipBlanks(buf: array<char>, token: nat, end: nat) returns (start: nat)
    requires token <= end < buf.Length && buf[end] == NUL
    ensures token <= start <= end
    ensures buf[start..end] == TrimLeft(buf[token..end])
  {
    start := token;
    while IsBlank(buf[start])
      invariant token <= start <= end
      invariant TrimLeft(buf[start..end]) == TrimLeft(buf[token..end])
      decreases end - start
    {
      assert start != end;
      assert buf[start..end][1..] == buf[start + 1..end];
      start := start + 1;
    }
  }

  method DropBlanks(buf: array<char>, start: nat, end: nat) returns (stop: nat)
    requires start <= end < buf.Length
    ensures start <= stop <= end
    ensures buf[start..stop] == TrimRight(buf[start..end])
  {
    stop := end;
    while stop > start && IsBlank(buf[stop - 1])
      invariant start <= stop <= end
      invariant TrimRight(buf[start..stop]) == TrimRight(buf[start..end])
      decreases stop
    {
      assert buf[start..stop][..stop - start - 1] == buf[start..stop - 1];
      stop := stop - 1;
    }
  }

  // Trimming: afterwards the C string at `start` is the trimmed field.
  method TrimInPlace(buf: array<char>, token: nat, end: nat) returns (start: nat, stop: nat)
    requires token < end < buf.Length && buf[end] == NUL
    modifies buf
    ensures token <= start <= stop <= end
    ensures buf[start..stop] == Trim(old(buf[token..end]))
    ensures buf[stop] == NUL
    ensures forall k :: 0 <= k < buf.Length && k != stop ==> buf[k] == old(buf[k])
    ensures buf[end] == NUL
  {
    start := SkipBlanks(buf, token, end);
    stop := DropBlanks(buf, start, end);
    buf[stop] := NUL;
  }

  // syscall_number
  method SyscallNumber(table: Table, name: string) returns (nr: int)
    ensures nr == Number(table, name)
  {
    for i := 0 to |table|
      invariant forall k :: 0 <= k < i ==> table[k] != Some(name)
    {
      if table[i].Some? && table[i].value == name {
        return i;
      }
    }
    return -1;
  }

  lemma {:induction false} KnownConcat(done: seq<string>, rest: seq<string>, table: Table)
    requires KnownPrefix(done, table) == |done|
    ensures KnownPrefix(done + rest, table) == |done| + KnownPrefix(rest, table)
  {
    if done == [] {
      assert done + rest == rest;
    } else {
      assert (done + rest)[1..] == done[1..] + rest;
      KnownConcat(done[1..], rest, table);
    }
  }

  lemma NumbersConcat(a: seq<string>, b: seq<string>, table: Table)
    ensures Numbers(a + b, table) == Numbers(a, table) + Numbers(b, table)
  {
    hide Number;
    forall n
      ensures n in Numbers(a + b, table) <==> n in Numbers(a, table) || n in Numbers(b, table)
    {
      if n in Numbers(a, table) {
        var t :| t in a && Number(table, t) == n;
        assert t in a + b;
      }
      if n in Numbers(b, table) {
        var t :| t in b && Number(table, t) == n;
        assert t in a + b;
      }
    }
  }

  // parse_syscall_filter: what it returns and what it leaves in the bitmap.
  method ParseFilter(words: array<bv64>, arg: Option<string>, table: Table) returns (ret: int)
    requires words.Length == 8 && |table| == TABLE_SIZE
    requires arg.Some? ==> NUL !in arg.value
    modifies words
    ensures
      var tokens := if arg.Some? then Tokens(arg.value) else [];
      var known := KnownPrefix(tokens, table);
      && ret == (if tokens != [] && known == |tokens| then 0 else -22)
      && Members(words[..]) == old(Members(words[..])) + Numbers(tokens[..known], table)
  {
    if arg.None? || arg.value == "" {
      if arg.Some? {
        TokensOfLast("");
      }
      assert Numbers([], table) == {};
      return -EINVAL;
    }
    var s := arg.value;
    var buf := new char[|s| + 1];
    forall i | 0 <= i < |s| {
      buf[i] := s[i];
    }
    buf[|s|] := NUL;
    assert buf[..|s|] == s;
    assert Tail(buf, 0) == s;
    ret := Tokenize(words, buf, table);
  }

  // One token: trimmed, looked up and added. `known` is false for a name the table lacks.
  method AddToken(words: array<bv64>, buf: array<char>, token: nat, end: nat, table: Table)
    returns (known: bool, counted: bool)
    requires words.Length == 8 && |table| == TABLE_SIZE
    requires words as object != buf as object
    requires token < end < buf.Length && buf[end] == NUL && NUL !in buf[token..end]
    modifies words, buf
    ensures forall k :: end <= k < buf.Length ==> buf[k] == old(buf[k])
    ensures
      var wanted := old(Wanted(buf[token..end]));
      && known == (KnownPrefix(wanted, table) == |wanted|)
      && (known ==> counted == (wanted != []))
      && Members(words[..]) == old(Members(words[..])) + if known then Numbers(wanted, table) else {}
  {
    hide Members, Trim;
    var start, stop := TrimInPlace(buf, token, end);
    var name := buf[start..stop];
    if name == "" {
      return true, false;
    }
    var nr := SyscallNumber(table, name);
    if nr < 0 {
      return false, false;
    }
    var r := FilterAdd(words, nr);
    assert Numbers([name], table) == {nr};
    return true, true;
  }

  // The tokens still to come while the loop holds one.
  ghost function Pending(buf: array<char>, found: bool, token: nat, end: nat, save: nat): seq<string>
    requires found ==> IsToken(buf, token, end, save)
    reads buf
  {
    if found then Wanted(buf[token..end]) + Tokens(Tail(buf, save)) else []
  }

  // One turn of the loop: the current token, then the call for the next one.
  method OneTurn(words: array<bv64>, buf: array<char>, token: nat, end: nat, save: nat, table: Table)
    returns (known: bool, counted: bool, found: bool, token': nat, end': nat, save': nat,
             ghost wanted: seq<string>, ghost rest: seq<string>)
    requires words.Length == 8 && |table| == TABLE_SIZE
    requires words as object != buf as object
    requires IsToken(buf, token, end, save)
    modifies words, buf
    ensures old(Pending(buf, true, token, end, save)) == wanted + rest && |wanted| <= 1
    ensures known == (KnownPrefix(wanted, table) == |wanted|)
    ensures known ==> counted == (wanted != [])
    ensures known ==> found ==> token < token' < buf.Length && IsToken(buf, token', end', save')
    ensures known ==> rest == Pending(buf, found, token', end', save')
    ensures Members(words[..]) == old(Members(words[..])) + if known then Numbers(wanted, table) else {}
  {
    hide Members, Tokens, Trim, Numbers, KnownPrefix;
    wanted, rest := Wanted(buf[token..end]), Tokens(Tail(buf, save));
    ghost var tail := Tail(buf, save);
    known, counted := AddToken(words, buf, token, end, table);
    if !known {
      found, token', end', save' := false, token, end, save;
      return;
    }
    assert Tail(buf, save) == tail;
    found, token', end', save' := NextToken(buf, save);
  }

  method Tokenize(words: array<bv64>, buf: array<char>, table: Table) returns (ret: int)
    requires words.Length == 8 && |table| == TABLE_SIZE && IsTail(buf, 0)
    requires words as object != buf as object
    modifies words, buf
    ensures
      var tokens := old(Tokens(Tail(buf, 0)));
      var known := KnownPrefix(tokens, table);
      && ret == (if tokens != [] && known == |tokens| then 0 else -22)
      && Members(words[..]) == old(Members(words[..])) + Numbers(tokens[..known], table)
  {
    hide Members, Tokens, Wanted, Numbers, KnownPrefix, Pending, IsToken, Tail;
    ghost var all := Tokens(Tail(buf, 0));
    ghost var done: seq<string> := [];
    ghost var before := Members(words[..]);
    NothingYet(table);
    var count := 0;
    var found, token: nat, end: nat, save: nat := NextToken(buf, 0);
    ghost var pending := Pending(buf, found, token, end, save);
    while found
      invariant found ==> token < buf.Length && IsToken(buf, token, end, save)
      invariant pending == Pending(buf, found, token, end, save)
      invariant all == done + pending
      invariant KnownPrefix(done, table) == |done| == count
      invariant Members(words[..]) == before + Numbers(done, table)
      decreases if found then buf.Length - token else 0
    {
      var known, counted, found', token', end', save', wanted, rest := OneTurn(words, buf, token, end, save, table);
      TurnLaw(done, wanted, rest, table);
      if !known {
        return -EINVAL;
      }
      if counted {
        count := count + 1;
      }
      done, pending := done + wanted, rest;
      found, token, end, save := found', token', end', save';
    }
    NothingPending(buf, token, end, save);
    assert all == done && all[..|done|] == all;
    return if count == 0 then -EINVAL else 0;
  }

  lemma NothingPending(buf: array<char>, token: nat, end: nat, save: nat)
    ensures Pending(buf, false, token, end, save) == []
  {
  }

  ghost predicate IsToken(buf: array<char>, token: nat, end: nat, save: nat)
    reads buf
  {
    && token < end <= save < buf.Length
    && NUL !in buf[token..end] && buf[end] == NUL
    && IsTail(buf, save)
    && (save == end ==> end == buf.Length - 1)
  }

  lemma NothingYet(table: Table)
    ensures Numbers([], table) == {} && KnownPrefix([], table) == 0
  {
  }

  // What one turn does to the tokens processed so far.
  lemma TurnLaw(done: seq<string>, wanted: seq<string>, rest: seq<string>, table: Table)
    requires |wanted| <= 1 && KnownPrefix(done, table) == |done|
    ensures
      var all := done + (wanted + rest);
      && all == done + wanted + rest
      && (KnownPrefix(wanted, table) == |wanted| ==>
            && KnownPrefix(done + wanted, table) == |done + wanted|
            && Numbers(done + wanted, table) == Numbers(done, table) + Numbers(wanted, table))
      && (KnownPrefix(wanted, table) != |wanted| ==>
            && KnownPrefix(all, table) == |done| < |all|
            && all[..|done|] == done)
  {
    hide Number, Numbers;
    KnownConcat(done, wanted, table);
    KnownConcat(done, wanted + rest, table);
    NumbersConcat(done, wanted, table);
    if KnownPrefix(wanted, table) != |wanted| {
      assert Number(table, wanted[0]) < 0;
    }
  }

  // ----- end to end -----

  lemma {:induction false} AllKnown(tokens: seq<string>, table: Table)
    ensures KnownPrefix(tokens, table) == |tokens| <==> forall t :: t in tokens ==> Number(table, t) >= 0
  {
    hide Number;
    if tokens != [] {
      AllKnown(tokens[1..], table);
      assert forall t :: t in tokens <==> t == tokens[0] || t in tokens[1..];
      assert tokens[0] in tokens;
    }
  }

  // Positions i to j of the argument are a field between commas.
  predicate FieldAt(arg: string, i: nat, j: nat) {
    && i <= j <= |arg| && (i == 0 || arg[i - 1] == ',') && (j == |arg| || arg[j] == ',')
    && forall k :: i <= k < j ==> arg[k] != ','
  }

  // Positions p to q of the field are all of it but the blanks and tabs at its ends.
  predicate TrimmedAt(field: string, p: nat, q: nat) {
    && p < q <= |field|
    && (forall k :: 0 <= k < p ==> field[k] in {' ', '\t'}) && (forall k :: q <= k < |field| ==> field[k] in {' ', '\t'})
    && field[p] !in {' ', '\t'} && field[q - 1] !in {' ', '\t'}
  }

  // The argument lists this name: some field of it, less the blanks around it, and not empty.
  ghost predicate Lists(arg: string, t: string) {
    exists i: nat, j: nat, p: nat, q: nat :: FieldAt(arg, i, j) && TrimmedAt(arg[i..j], p, q) && t == arg[i..j][p..q]
  }

  lemma IndexOfIs(s: string)
    ensures
      var k := Text.IndexOf(s, ',');
      && FieldAt(s, 0, k) && s[0..k] == s[..k] && (k == |s| ==> s[..k] == s)
      && Text.Split(s, ',') == if k == |s| then [s] else [s[..k]] + Text.Split(s[k + 1..], ',')
  {
    var k := Text.IndexOf(s, ',');
    assert forall n :: 0 <= n < k ==> s[n] == s[..k][n];
  }

  // The fields behind a comma are those of what follows it.
  lemma LaterField(s: string, k: nat, i: nat, j: nat)
    requires k < |s| && s[k] == ',' && i <= j <= |s| - k - 1
    ensures FieldAt(s[k + 1..], i, j) <==> FieldAt(s, i + k + 1, j + k + 1)
    ensures s[k + 1..][i..j] == s[i + k + 1..j + k + 1]
  {
    var rest := s[k + 1..];
    assert forall n :: 0 <= n < |rest| ==> rest[n] == s[n + k + 1];
    assert forall n :: k < n < |s| ==> s[n] == rest[n - k - 1];
  }

  lemma {:induction false} FieldOfSplit(s: string, f: string) returns (i: nat, j: nat)
    requires f in Text.Split(s, ',')
    ensures FieldAt(s, i, j) && s[i..j] == f
    decreases |s|
  {
    var k := Text.IndexOf(s, ',');
    IndexOfIs(s);
    hide Text.IndexOf, Text.Split;
    if k == |s| || f == s[..k] {
      i, j := 0, k;
    } else {
      var i', j' := FieldOfSplit(s[k + 1..], f);
      LaterField(s, k, i', j');
      i, j := i' + k + 1, j' + k + 1;
    }
  }

  lemma {:induction false} SplitOfField(s: string, i: nat, j: nat)
    requires FieldAt(s, i, j)
    ensures s[i..j] in Text.Split(s, ',')
    decreases |s|
  {
    var k := Text.IndexOf(s, ',');
    IndexOfIs(s);
    hide Text.IndexOf, Text.Split;
    if i == 0 {
      assert j == k;
    } else {
      assert k <= i - 1;
      LaterField(s, k, i - k - 1, j - k - 1);
      SplitOfField(s[k + 1..], i - k - 1, j - k - 1);
    }
  }

  lemma {:induction false} TrimLeftDrops(s: string, p: nat)
    requires p < |s| && (forall k :: 0 <= k < p ==> s[k] in {' ', '\t'}) && s[p] !in {' ', '\t'}
    ensures TrimLeft(s) == s[p..]
    decreases p
  {
    if p > 0 {
      assert s[1..][p - 1..] == s[p..];
      TrimLeftDrops(s[1..], p - 1);
    }
  }

  lemma {:induction false} TrimRightDrops(s: string, q: nat)
    requires 0 < q <= |s| && (forall k :: q <= k < |s| ==> s[k] in {' ', '\t'}) && s[q - 1] !in {' ', '\t'}
    ensures TrimRight(s) == s[..q]
    decreases |s|
  {
    if q < |s| {
      assert s[..|s| - 1][..q] == s[..q];
      TrimRightDrops(s[..|s| - 1], q);
    } else {
      assert s[..q] == s;
    }
  }

  lemma TrimOfTrimmed(f: string, p: nat, q: nat)
    requires TrimmedAt(f, p, q)
    ensures Trim(f) == f[p..q] != ""
  {
    TrimLeftDrops(f, p);
    TrimRightDrops(f[p..], q - p);
    assert f[p..][..q - p] == f[p..q];
  }

  lemma TrimmedOfTrim(f: string) returns (p: nat, q: nat)
    requires Trim(f) != ""
    ensures TrimmedAt(f, p, q) && f[p..q] == Trim(f)
  {
    var left, right := TrimMeans(f);
    p, q := |left|, |left| + |Trim(f)|;
    assert forall k :: 0 <= k < p ==> f[k] == left[k] && left[k] in left;
    assert forall k :: q <= k < |f| ==> f[k] == right[k - q] && right[k - q] in right;
    assert f[p] == Trim(f)[0] && f[q - 1] == Trim(f)[|Trim(f)| - 1];
  }

  lemma {:induction false} WantedFrom(fields: seq<string>, t: string)
    ensures t in WantedAll(fields) <==> t != "" && exists f :: f in fields && Trim(f) == t
  {
    hide Trim;
    if fields != [] {
      WantedFrom(fields[1..], t);
      assert forall f :: f in fields <==> f == fields[0] || f in fields[1..];
    }
  }

  // The tokens are the names listed.
  lemma TokensAreListed(arg: string, t: string)
    ensures t in Tokens(arg) <==> Lists(arg, t)
  {
    hide Trim, Text.Split;
    WantedFrom(Text.Split(arg, ','), t);
    if t in Tokens(arg) {
      var f :| f in Text.Split(arg, ',') && Trim(f) == t;
      var i, j := FieldOfSplit(arg, f);
      var p, q := TrimmedOfTrim(f);
    }
    if Lists(arg, t) {
      var i: nat, j: nat, p: nat, q: nat :|
        FieldAt(arg, i, j) && TrimmedAt(arg[i..j], p, q) && t == arg[i..j][p..q];
      SplitOfField(arg, i, j);
      TrimOfTrimmed(arg[i..j], p, q);
    }
  }

  // The number of a name is its first slot.
  predicate IsNumberOf(table: Table, id: int, name: string) {
    0 <= id < |table| && table[id] == Some(name) && forall k :: 0 <= k < id ==> table[k] != Some(name)
  }

  lemma NumberIs(table: Table, name: string, id: int)
    ensures id >= 0 ==> (Number(table, name) == id <==> IsNumberOf(table, id, name))
    ensures Number(table, name) >= 0 <==> Some(name) in table
  {
    hide Number;
  }

  lemma TokensKnown(arg: string, table: Table)
    ensures (forall t :: t in Tokens(arg) ==> Number(table, t) >= 0) <==> (forall t :: Lists(arg, t) ==> Some(t) in table)
    ensures Tokens(arg) != [] <==> exists t :: Lists(arg, t)
  {
    hide Tokens, Number, Lists;
    forall t
      ensures t in Tokens(arg) <==> Lists(arg, t)
      ensures Number(table, t) >= 0 <==> Some(t) in table
    {
      TokensAreListed(arg, t);
      NumberIs(table, t, 0);
    }
    if Tokens(arg) != [] {
      assert Tokens(arg)[0] in Tokens(arg);
    }
  }

  // Parsing into an empty map, then asking the kernel side. It succeeds exactly when the argument lists some name
  // and the table has all that it lists; then the kernel allows exactly the numbers of the names listed.
  method FilterEndToEnd(arg: Option<string>, table: Table, id: s32) returns (ret: int, allowed: bool)
    requires |table| == TABLE_SIZE && (arg.Some? ==> NUL !in arg.value)
    ensures ret in {0, -22}
    ensures ret == 0 <==>
      arg.Some? && (exists t :: Lists(arg.value, t)) && forall t :: Lists(arg.value, t) ==> Some(t) in table
    ensures ret == 0 ==> (allowed <==> exists t :: Lists(arg.value, t) && IsNumberOf(table, id, t))
  {
    hide Lists;
    var words := new bv64[8](_ => 0);
    assert words[..] == [0, 0, 0, 0, 0, 0, 0, 0];
    EmptyBitmap();
    ret := ParseFilter(words, arg, table);
    allowed := Allowed(words[..], id);
    ghost var tokens := if arg.Some? then Tokens(arg.value) else [];
    AllKnown(tokens, table);
    assert ret == 0 ==> tokens[..|tokens|] == tokens;
    assert allowed <==> id in Members(words[..]);
    if arg.Some? {
      TokensKnown(arg.value, table);
      forall t
        ensures t in tokens <==> Lists(arg.value, t)
        ensures id >= 0 ==> (Number(table, t) == id <==> IsNumberOf(table, id, t))
      {
        TokensAreListed(arg.value, t);
        NumberIs(table, t, id);
      }
    }
  }
}
