/** The append buffer: snprintf into what is left of a fixed capacity, counting every character. */
module OutBuffer {
  import opened Words

  // The first `cap` characters, as a C string, of `text`; the rest of the memory is untouched.
  function Image(text: string, cap: nat, memory: seq<char>): seq<char>
    requires cap <= |memory|
  {
    if cap == 0 then memory
    else
      var k := Min(|text|, cap - 1);
      text[..k] + [NUL] + memory[k + 1..]
  }

  // Appending is the same whether done in one piece or two.
  lemma ImageAppend(text: string, s: string, cap: nat, memory: seq<char>)
    requires |text| < cap <= |memory|
    ensures
      var m := Min(|s|, cap - |text| - 1);
      var k := |text| + m;
      Image(text + s, cap, memory) == Image(text, cap, memory)[..|text|] + s[..m] + [NUL] + Image(text, cap, memory)[k + 1..]
  {
    var m := Min(|s|, cap - |text| - 1);
    assert Image(text, cap, memory)[..|text|] == text;
    assert (text + s)[..|text| + m] == text + s[..m];
  }

  lemma ImageFull(text: string, s: string, cap: nat, memory: seq<char>)
    requires cap <= |memory| && cap <= |text|
    ensures Image(text + s, cap, memory) == Image(text, cap, memory)
  {
    if cap > 0 {
      assert (text + s)[..cap - 1] == text[..cap - 1];
    }
  }

  // vsnprintf(buf + at, avail, ...) for a conversion whose full result is s.
  method Snprintf(buf: array<char>, at: nat, avail: nat, s: string)
    requires at + avail <= buf.Length
    modifies buf
    ensures avail == 0 ==> buf[..] == old(buf[..])
    ensures avail > 0 ==>
      var m := Min(|s|, avail - 1);
      buf[..] == old(buf[..at]) + s[..m] + [NUL] + old(buf[at + m + 1..])
  {
    if avail > 0 {
      var m := Min(|s|, avail - 1);
      forall i | 0 <= i < m {
        buf[at + i] := s[i];
      }
      buf[at + m] := NUL;
    }
  }

  class Out {
    const buf: array?<char>
    const cap: nat
    var len: nat
    ghost var text: string           // everything appended so far, without truncation
    ghost const memory: seq<char>    // what buf held at the start

    ghost predicate Valid()
      reads this, buf
    {
      && len == |text|
      && (buf == null ==> cap == 0)
      && (buf != null ==> cap <= buf.Length == |memory| && buf[..] == Image(text, cap, memory))
    }

    constructor (dst: array?<char>, size: nat)
      requires dst == null ==> size == 0
      requires dst != null ==> size <= dst.Length
      requires size > 0 ==> dst[0] == NUL
      ensures Valid() && fresh(this) && buf == dst && cap == size && text == ""
      ensures dst != null ==> memory == dst[..]
    {
      buf, cap, len, text := dst, size, 0, "";
      memory := if dst == null then [] else dst[..];
    }

    method Printf(s: string)
      requires Valid()
      modifies this, buf
      ensures Valid() && text == old(text) + s
    {
      var avail := if len < cap then cap - len else 0;
      if buf != null {
        Snprintf(buf, if avail > 0 then len else 0, avail, s);
        if avail > 0 {
          ImageAppend(text, s, cap, memory);
        } else {
          ImageFull(text, s, cap, memory);
        }
      }
      len := len + |s|;
      text := text + s;
    }
  }
}
