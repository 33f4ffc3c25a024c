/** The 512-bit syscall whitelist: written in user space, read in the kernel. */
module SyscallBitmap {
  import opened Words
  import opened Bits

  const MAX_SYSCALLS := 512
  const BITMAP_WORDS := 8

  type Bitmap = s: seq<bv64> | |s| == 8 witness [0, 0, 0, 0, 0, 0, 0, 0]

  // syscall_allowed
  predicate Allowed(words: Bitmap, id: s32) {
    0 <= id < MAX_SYSCALLS && HasBit(words[id / 64], id % 64)
  }

  // The word with only bit b set, counted from the lowest.
  function Mask(b: nat): bv64
    requires b < 64
  {
    1 << (b as bv6)
  }

  lemma HasBitIs(v: bv64, b: nat)
    requires b < 64
    ensures HasBit(v, b) <==> Common(v, Mask(b)) != 0
  {
    assert Bit(b) == Mask(b);
    hide Bit, Mask, Common;
  }

  // A number below 512 is allowed when its bit is set: bit id % 64 of word id / 64.
  lemma AllowedIsBit(words: Bitmap, id: s32)
    ensures Allowed(words, id) <==> 0 <= id < 512 && Common(words[id / 64], Mask(id % 64)) != 0
  {
    hide HasBit, Mask, Common;
    if 0 <= id < 512 {
      HasBitIs(words[id / 64], id % 64);
    }
  }

  // The set the bitmap stands for.
  function Members(words: Bitmap): set<int> {
    set id: int | 0 <= id < MAX_SYSCALLS && Allowed(words, id)
  }

  // Whatever the bitmap holds, setting one bit in user space makes the kernel allow that call,
  // and changes nothing for any other number, in range or not.
  lemma AllowedAfterAdd(words: Bitmap, id: nat, n: s32)
    requires id < MAX_SYSCALLS
    ensures Allowed(words[id / 64 := Union(words[id / 64], Bit(id % 64))], n) <==> Allowed(words, n) || n == id
  {
    hide HasBit, Union, Bit;
    if 0 <= n < MAX_SYSCALLS && n / 64 == id / 64 {
      SetBit(words[id / 64], id % 64, n % 64);
    }
  }

  lemma AddedMember(words: Bitmap, id: nat)
    requires id < MAX_SYSCALLS
    ensures Members(words[id / 64 := Union(words[id / 64], Bit(id % 64))]) == Members(words) + {id}
  {
    hide HasBit, Union, Bit, Allowed;
    forall n: int | 0 <= n < MAX_SYSCALLS
      ensures Allowed(words[id / 64 := Union(words[id / 64], Bit(id % 64))], n) <==> Allowed(words, n) || n == id
    {
      AllowedAfterAdd(words, id, n);
    }
  }

  // syscall_filter_add on the map's eight words.
  method FilterAdd(words: array<bv64>, id: int) returns (ret: int)
    requires words.Length == 8
    modifies words
    ensures ret == if 0 <= id < 512 then 0 else -22
    ensures Members(words[..]) == old(Members(words[..])) + if ret == 0 then {id} else {}
  {
    if id < 0 || id >= MAX_SYSCALLS {
      return -EINVAL;
    }
    ghost var before := words[..];
    var key, bit := id / 64, id % 64;
    var value := words[key];
    value := Union(value, Bit(bit));
    words[key] := value;
    AddedMember(before, id);
    assert words[..] == before[key := value];
    return 0;
  }

  // set_all_syscall
  method SetAll(words: array<bv64>)
    requires words.Length == 8
    modifies words
    ensures forall id: s32 :: Allowed(words[..], id) <==> 0 <= id < 512
  {
    for i := 0 to BITMAP_WORDS
      invariant forall k :: 0 <= k < i ==> words[k] == 0xffff_ffff_ffff_ffff
    {
      words[i] := 0xffff_ffff_ffff_ffff;
    }
    forall id: s32 | 0 <= id < MAX_SYSCALLS
      ensures Allowed(words[..], id)
    {
      AllOnes(id % 64);
    }
  }

  lemma EmptyBitmap()
    ensures Members([0, 0, 0, 0, 0, 0, 0, 0]) == {}
  {
    var words: Bitmap := [0, 0, 0, 0, 0, 0, 0, 0];
    forall id: int | 0 <= id < MAX_SYSCALLS
      ensures !Allowed(words, id)
    {
      AllOnes(id % 64);
    }
  }
}
