/** The producer and consumer sides of an AF_XDP ring: cached, wrapping, deliberately biased indices. */
module Ring {
  import opened Words
  import opened Modular

  // cached_prod and cached_cons of either side.
  datatype Side = Side(cachedProd: u32, cachedCons: u32)

  const MAX_ORDER := 31

  // ----- the operations as the header has them -----

  function SizeOf(order: nat): u32
    requires order <= MAX_ORDER
  {
    Pow2Sum(order, 32 - order);
    Pow2Of32();
    MulGrows(Pow2(order), Pow2(32 - order) - 1);
    Pow2(order)
  }

  // idx & mask
  function SlotOf(order: nat, idx: u32): (slot: nat)
    requires order <= MAX_ORDER
    ensures slot == idx % Pow2(order) < Pow2(order)
  {
    MaskIsRemainder(idx, order);
    And(idx, Pow2(order) - 1)
  }

  function Free(p: Side): u32 {
    Minus32(p.cachedCons, p.cachedProd)
  }

  // xsk_prod_nb_free: the cached consumer index is kept `size` ahead of the real one.
  function FreeSide(p: Side, consumer: u32, size: u32, nb: u32): Side {
    if Free(p) >= nb then p else p.(cachedCons := Plus32(consumer, size))
  }

  // xsk_ring_prod__reserve: the first index handed out, or None.
  function ReserveSide(p: Side, consumer: u32, size: u32, nb: u32): (Side, Option<u32>) {
    var q := FreeSide(p, consumer, size, nb);
    if Free(q) < nb then (q, None) else (q.(cachedProd := Plus32(q.cachedProd, nb)), Some(q.cachedProd))
  }

  function Entries(c: Side): u32 {
    Minus32(c.cachedProd, c.cachedCons)
  }

  function AvailSide(c: Side, producer: u32): Side {
    if Entries(c) == 0 then c.(cachedProd := producer) else c
  }

  // xsk_ring_cons__peek: how many entries are handed out; the first is at the old cached_cons.
  function PeekSide(c: Side, producer: u32, nb: u32): (Side, u32) {
    var q := AvailSide(c, producer);
    var n := if Entries(q) > nb then nb else Entries(q);
    (q.(cachedCons := Plus32(q.cachedCons, n)), n)
  }

  // ----- both sides together, with the history of the run -----

  datatype System<T> = System(
    order: nat, prod: Side, cons: Side, producer: u32, consumer: u32, slots: seq<T>,
    reserved: nat,             // how many slots were ever handed to the producer
    items: seq<T>,             // everything ever submitted
    peeked: nat,               // how many entries the consumer holds or has released
    released: seq<T>,          // what was in the slots it released
    seenConsumer: nat,         // how many were released when the producer last looked
    seenProducer: nat)         // how many were submitted when the consumer last looked

  datatype Action<T> =
    | NbFree(nb: u32)
    | Reserve(nb: u32)
    | Write(k: nat, v: T)      // fill entry number k, one handed out and not yet submitted
    | Submit(nb: u32)
    | NbAvail(nb: u32)
    | Peek(nb: u32)
    | Cancel(nb: u32)
    | Release(nb: u32)

  ghost predicate Shape<T>(s: System<T>) {
    s.order <= MAX_ORDER && |s.slots| == Pow2(s.order)
  }

  // What the callers of the header promise.
  ghost predicate Legal<T>(s: System<T>, a: Action<T>) {
    match a
    case NbFree(nb) => true
    case Reserve(nb) => true
    case Write(k, v) => |s.items| <= k < s.reserved
    case Submit(nb) => |s.items| + nb <= s.reserved
    case NbAvail(nb) => true
    case Peek(nb) => true
    case Cancel(nb) => |s.released| + nb <= s.peeked
    case Release(nb) => |s.released| + nb <= s.peeked
  }

  ghost function At<T>(s: System<T>, k: nat): T
    requires Shape(s)
  {
    s.slots[SlotOf(s.order, Wrap(k))]
  }

  ghost function Contents<T>(s: System<T>, from: nat, n: nat): (items: seq<T>)
    requires Shape(s)
    ensures |items| == n
  {
    seq(n, i requires 0 <= i < n => At(s, from + i))
  }

  ghost function Apply<T>(s: System<T>, a: Action<T>): System<T>
    requires Shape(s) && Legal(s, a)
  {
    match a
    case NbFree(nb) =>
      s.(prod := FreeSide(s.prod, s.consumer, SizeOf(s.order), nb),
         seenConsumer := if Free(s.prod) >= nb then s.seenConsumer else |s.released|)
    case Reserve(nb) =>
      var (side, first) := ReserveSide(s.prod, s.consumer, SizeOf(s.order), nb);
      s.(prod := side,
         reserved := if first.Some? then s.reserved + nb else s.reserved,
         seenConsumer := if Free(s.prod) >= nb then s.seenConsumer else |s.released|)
    case Write(k, v) => s.(slots := s.slots[SlotOf(s.order, Wrap(k)) := v])
    case Submit(nb) => s.(producer := Plus32(s.producer, nb), items := s.items + Contents(s, |s.items|, nb))
    case NbAvail(nb) =>
      s.(cons := AvailSide(s.cons, s.producer),
         seenProducer := if Entries(s.cons) == 0 then |s.items| else s.seenProducer)
    case Peek(nb) =>
      var (side, n) := PeekSide(s.cons, s.producer, nb);
      s.(cons := side, peeked := s.peeked + n,
         seenProducer := if Entries(s.cons) == 0 then |s.items| else s.seenProducer)
    case Cancel(nb) =>
      s.(cons := s.cons.(cachedCons := Minus32(s.cons.cachedCons, nb)), peeked := s.peeked - nb)
    case Release(nb) =>
      s.(consumer := Plus32(s.consumer, nb), released := s.released + Contents(s, |s.released|, nb))
  }

  ghost predicate Init<T>(s: System<T>) {
    && Shape(s)
    && s.prod == Side(0, SizeOf(s.order)) && s.cons == Side(0, 0) && s.producer == 0 && s.consumer == 0
    && s.reserved == 0 && s.items == [] && s.peeked == 0 && s.released == []
    && s.seenConsumer == 0 && s.seenProducer == 0
  }

  // Every 32-bit index is its count modulo 2^32, and the counts are in order.
  ghost predicate IndexInv<T>(s: System<T>) {
    && Shape(s)
    && |s.released| <= s.peeked <= s.seenProducer <= |s.items| <= s.reserved <= s.seenConsumer + Pow2(s.order)
    && s.seenConsumer <= |s.released|
    && s.prod.cachedProd == Wrap(s.reserved)
    && s.prod.cachedCons == Wrap(s.seenConsumer + Pow2(s.order))
    && s.cons.cachedCons == Wrap(s.peeked)
    && s.cons.cachedProd == Wrap(s.seenProducer)
    && s.producer == Wrap(|s.items|)
    && s.consumer == Wrap(|s.released|)
  }

  // Submitted entries stay in their slots until they are released, in order.
  ghost predicate DataInv<T>(s: System<T>) {
    && Shape(s)
    && (forall k :: |s.released| <= k < |s.items| ==> At(s, k) == s.items[k])
    && |s.released| <= |s.items| && s.released == s.items[..|s.released|]
  }

  ghost predicate Inv<T>(s: System<T>) {
    IndexInv(s) && DataInv(s)
  }

  lemma SizeFits(order: nat)
    requires order <= MAX_ORDER
    ensures SizeOf(order) == Pow2(order) < TWO_32
  {
  }

  lemma InitInv<T>(s: System<T>)
    requires Init(s)
    ensures Inv(s)
  {
    SizeFits(s.order);
  }

  // What xsk_prod_nb_free computes is a safe count: what the producer knows to be free,
  // never more than what is free, whether or not it looked again.
  lemma FreeIsSafe<T>(s: System<T>, nb: u32)
    requires IndexInv(s)
    ensures
      var size := Pow2(s.order);
      var now := FreeSide(s.prod, s.consumer, SizeOf(s.order), nb);
      var seen := if Free(s.prod) >= nb then s.seenConsumer else |s.released|;
      && Free(s.prod) == s.seenConsumer + size - s.reserved
      && now.cachedCons == Wrap(seen + size)
      && Free(now) == seen + size - s.reserved
      && 0 <= Free(now) <= |s.released| + size - s.reserved <= size
  {
    var size := Pow2(s.order);
    SizeFits(s.order);
    WrapDifference(s.seenConsumer + size, s.reserved);
    WrapSum(|s.released|, SizeOf(s.order));
    WrapDifference(|s.released| + size, s.reserved);
  }

  lemma FreeKeepsIndices<T>(s: System<T>, nb: u32)
    requires IndexInv(s)
    ensures IndexInv(Apply(s, NbFree(nb)))
  {
    FreeIsSafe(s, nb);
    hide Wrap, Free, SizeOf, Plus32, Minus32;
  }

  lemma ReserveKeepsIndices<T>(s: System<T>, nb: u32)
    requires IndexInv(s)
    ensures IndexInv(Apply(s, Reserve(nb)))
  {
    FreeIsSafe(s, nb);
    WrapSum(s.reserved, nb);
    hide Wrap, Free, SizeOf, Plus32, Minus32;
  }

  lemma AvailIsSafe<T>(s: System<T>, nb: u32)
    requires IndexInv(s)
    ensures
      var now := AvailSide(s.cons, s.producer);
      var seen := if Entries(s.cons) == 0 then |s.items| else s.seenProducer;
      && now.cachedCons == s.cons.cachedCons && now.cachedProd == Wrap(seen)
      && Entries(now) == seen - s.peeked <= |s.items| - s.peeked
  {
    SizeFits(s.order);
    WrapDifference(s.seenProducer, s.peeked);
    WrapDifference(|s.items|, s.peeked);
  }

  // xsk_ring_cons__peek hands out what is known to be there, up to nb, and looks again when nothing is.
  lemma PeekGivesKnown<T>(s: System<T>, nb: u32)
    requires IndexInv(s)
    ensures PeekSide(s.cons, s.producer, nb).1
         == Min(nb, if s.seenProducer > s.peeked then s.seenProducer - s.peeked else |s.items| - s.peeked)
    ensures AvailSide(s.cons, s.producer).cachedProd
         == Wrap(if s.seenProducer > s.peeked then s.seenProducer else |s.items|)
  {
    AvailIsSafe(s, nb);
    SizeFits(s.order);
    WrapDifference(s.seenProducer, s.peeked);
    hide Wrap, Plus32, Minus32;
  }

  lemma AvailKeepsIndices<T>(s: System<T>, nb: u32)
    requires IndexInv(s)
    ensures IndexInv(Apply(s, NbAvail(nb)))
  {
    AvailIsSafe(s, nb);
    hide Wrap, Entries, Plus32, Minus32;
  }

  lemma PeekKeepsIndices<T>(s: System<T>, nb: u32)
    requires IndexInv(s)
    ensures IndexInv(Apply(s, Peek(nb)))
  {
    AvailIsSafe(s, nb);
    var n := PeekSide(s.cons, s.producer, nb).1;
    WrapSum(s.peeked, n);
    hide Wrap, Entries, Plus32, Minus32;
  }

  lemma OtherStepsKeepIndices<T>(s: System<T>, a: Action<T>)
    requires IndexInv(s) && Legal(s, a) && (a.Write? || a.Submit? || a.Cancel? || a.Release?)
    ensures IndexInv(Apply(s, a))
  {
    match a
    case Write(k, v) =>
    case Submit(nb) => WrapSum(|s.items|, nb);
    case Cancel(nb) => WrapMinus(s.peeked, nb);
    case Release(nb) => WrapSum(|s.released|, nb);
  }

  // The slot of an entry, and when two entries share one.
  lemma SlotOfEntry(order: nat, k: nat)
    requires order <= MAX_ORDER
    ensures SlotOf(order, Wrap(k)) == k % Pow2(order)
  {
    WrapKeepsSlot(k, order);
  }

  lemma SlotsAreApart(order: nat, a: nat, b: nat)
    requires order <= MAX_ORDER && a < b < a + Pow2(order)
    ensures SlotOf(order, Wrap(a)) != SlotOf(order, Wrap(b))
  {
    SlotOfEntry(order, a);
    SlotOfEntry(order, b);
    SlotsDiffer(a, b, Pow2(order));
  }

  lemma WriteKeepsData<T>(s: System<T>, k: nat, v: T)
    requires Inv(s) && Legal(s, Write(k, v))
    ensures DataInv(Apply(s, Write(k, v)))
  {
    var s' := Apply(s, Write(k, v));
    forall j | |s.released| <= j < |s.items|
      ensures At(s', j) == At(s, j)
    {
      SlotsAreApart(s.order, j, k);
    }
  }

  // The slots are the same, so are the entries in them.
  lemma SameSlotsSameEntries<T>(s: System<T>, s': System<T>)
    requires Shape(s) && Shape(s') && s'.order == s.order && s'.slots == s.slots
    ensures forall k: nat :: At(s', k) == At(s, k)
  {
    hide SlotOf, Wrap;
  }

  lemma SubmitKeepsData<T>(s: System<T>, nb: u32)
    requires Inv(s) && Legal(s, Submit(nb))
    ensures DataInv(Apply(s, Submit(nb)))
  {
    hide IndexInv, Plus32, At;
    var s' := Apply(s, Submit(nb));
    SameSlotsSameEntries(s, s');
    assert s'.items[..|s.released|] == s.items[..|s.released|];
    forall k | |s'.released| <= k < |s'.items|
      ensures At(s', k) == s'.items[k]
    {
      if k >= |s.items| {
        assert s'.items[k] == Contents(s, |s.items|, nb)[k - |s.items|];
      }
    }
  }

  lemma SubmittedIsInSlots<T>(s: System<T>, nb: u32)
    requires Inv(s) && Legal(s, Submit(nb))
    ensures
      var items := Apply(s, Submit(nb)).items;
      forall k :: |s.items| <= k < |items| ==> items[k] == s.slots[k % Pow2(s.order)]
  {
    var items := Apply(s, Submit(nb)).items;
    hide Inv, SlotOf, Wrap, Plus32;
    forall k | |s.items| <= k < |items|
      ensures items[k] == s.slots[k % Pow2(s.order)]
    {
      SlotOfEntry(s.order, k);
      assert items[k] == Contents(s, |s.items|, nb)[k - |s.items|] == At(s, k);
    }
  }

  lemma ContentsAreItems<T>(s: System<T>, nb: u32)
    requires Inv(s) && Legal(s, Release(nb))
    ensures |s.released| + nb <= |s.items|
    ensures Contents(s, |s.released|, nb) == s.items[|s.released|..|s.released| + nb]
  {
    hide At;
  }

  lemma ReleaseKeepsData<T>(s: System<T>, nb: u32)
    requires Inv(s) && Legal(s, Release(nb))
    ensures DataInv(Apply(s, Release(nb)))
  {
    hide IndexInv, Plus32, At, Contents;
    var s' := Apply(s, Release(nb));
    SameSlotsSameEntries(s, s');
    ContentsAreItems(s, nb);
    assert s'.released == s.items[..|s.released| + nb];
  }

  lemma LocalStepsKeepData<T>(s: System<T>, a: Action<T>)
    requires Inv(s) && Legal(s, a) && (a.NbFree? || a.Reserve? || a.NbAvail? || a.Peek? || a.Cancel?)
    ensures DataInv(Apply(s, a))
  {
    hide At;
    SameSlotsSameEntries(s, Apply(s, a));
  }

  lemma StepKeepsInv<T>(s: System<T>, a: Action<T>)
    requires Inv(s) && Legal(s, a)
    ensures Inv(Apply(s, a))
  {
    hide IndexInv, DataInv, Apply, Legal;
    assert Shape(s) by { InvShape(s); }
    match a
    case NbFree(nb) => FreeKeepsIndices(s, nb); LocalStepsKeepData(s, a);
    case Reserve(nb) => ReserveKeepsIndices(s, nb); LocalStepsKeepData(s, a);
    case Write(k, v) => OtherStepsKeepIndices(s, a); WriteKeepsData(s, k, v);
    case Submit(nb) => OtherStepsKeepIndices(s, a); SubmitKeepsData(s, nb);
    case NbAvail(nb) => AvailKeepsIndices(s, nb); LocalStepsKeepData(s, a);
    case Peek(nb) => PeekKeepsIndices(s, nb); LocalStepsKeepData(s, a);
    case Cancel(nb) => OtherStepsKeepIndices(s, a); LocalStepsKeepData(s, a);
    case Release(nb) => OtherStepsKeepIndices(s, a); ReleaseKeepsData(s, nb);
  }

  lemma InvShape<T>(s: System<T>)
    requires Inv(s)
    ensures Shape(s)
  {
  }

  // ----- whole runs -----

  // The two sides take turns in any order.
  ghost predicate LegalRun<T>(s: System<T>, acts: seq<Action<T>>)
    requires Inv(s)
    decreases |acts|, 0
  {
    acts == [] ||
    (LegalRun(s, acts[..|acts| - 1]) && Legal(Exec(s, acts[..|acts| - 1]), acts[|acts| - 1]))
  }

  ghost function Exec<T>(s: System<T>, acts: seq<Action<T>>): (r: System<T>)
    requires Inv(s) && LegalRun(s, acts)
    ensures Inv(r)
    decreases |acts|, 1
  {
    if acts == [] then s
    else
      var t := Exec(s, acts[..|acts| - 1]);
      StepKeepsInv(t, acts[|acts| - 1]);
      Apply(t, acts[|acts| - 1])
  }

  // The ring is a queue: what is released is what was submitted, in order, and nothing is skipped,
  // however the two sides interleave and however often the indices wrap.
  lemma ReleasedIsPrefixOfSubmitted<T>(s: System<T>, acts: seq<Action<T>>)
    requires Init(s) && Inv(s) && LegalRun(s, acts)
    ensures
      var t := Exec(s, acts);
      t.released <= t.items && |t.items| - |t.released| <= Pow2(t.order)
  {
    var t := Exec(s, acts);
    assert Inv(t);
  }

  // Between peek and release the consumer sees exactly the entries that are next in line.
  lemma PeekedEntriesAreNext<T>(s: System<T>, acts: seq<Action<T>>, k: nat)
    requires Init(s) && Inv(s) && LegalRun(s, acts)
    requires |Exec(s, acts).released| <= k < Exec(s, acts).peeked
    ensures
      var t := Exec(s, acts);
      k < |t.items| && At(t, k) == t.items[k]
  {
    assert Inv(Exec(s, acts));
  }

  // Filling an entry sets that entry and no other one in use.
  lemma WriteSetsOneEntry<T>(s: System<T>, k: nat, v: T, j: nat)
    requires Inv(s) && Legal(s, Write(k, v)) && |s.released| <= j < s.reserved
    ensures At(Apply(s, Write(k, v)), j) == if j == k then v else At(s, j)
  {
    if j < k {
      SlotsAreApart(s.order, j, k);
    } else if k < j {
      SlotsAreApart(s.order, k, j);
    }
  }

  // The slots of entries handed out together are distinct.
  lemma ReservedSlotsDiffer(order: nat, from: nat, nb: u32, i: u32, j: u32)
    requires order <= MAX_ORDER && nb <= Pow2(order) && i < j < nb
    ensures SlotOf(order, Plus32(Wrap(from), i)) != SlotOf(order, Plus32(Wrap(from), j))
  {
    hide SlotOf, Wrap, Plus32;
    WrapSum(from, i);
    WrapSum(from, j);
    SlotsAreApart(order, from + i, from + j);
  }

  // And none of them is the slot of an entry handed out before, back to a whole ring ago.
  lemma ReservedSlotsAreFree(order: nat, from: nat, nb: u32, i: u32, k: nat)
    requires order <= MAX_ORDER && i < nb && k < from && from + nb <= k + Pow2(order)
    ensures SlotOf(order, Plus32(Wrap(from), i)) != SlotOf(order, Wrap(k))
  {
    hide SlotOf, Wrap, Plus32;
    WrapSum(from, i);
    SlotsAreApart(order, k, from + i);
  }

  lemma ReserveGivesNext<T>(s: System<T>, nb: u32)
    requires IndexInv(s)
    ensures
      var first := ReserveSide(s.prod, s.consumer, SizeOf(s.order), nb).1;
      && (first.Some? <==> s.reserved + nb <= |s.released| + Pow2(s.order))
      && (first.Some? ==> first.value == Wrap(s.reserved))
  {
    FreeIsSafe(s, nb);
    hide Wrap, Free, SizeOf, Plus32, Minus32;
  }

  // A successful reserve hands out slots that are distinct and hold no unreleased entry,
  // however old the producer's idea of the consumer index is.
  lemma ReserveNeverOverruns<T>(s: System<T>, nb: u32)
    requires Inv(s)
    ensures
      var first := ReserveSide(s.prod, s.consumer, SizeOf(s.order), nb).1;
      first.Some? ==>
        && s.reserved + nb <= |s.released| + Pow2(s.order)
        && (forall i: u32, j: u32 :: i < j < nb ==>
              SlotOf(s.order, Plus32(first.value, i)) != SlotOf(s.order, Plus32(first.value, j)))
        && (forall i: u32, k: nat :: i < nb && |s.released| <= k < s.reserved ==>
              SlotOf(s.order, Plus32(first.value, i)) != SlotOf(s.order, Wrap(k)))
  {
    assert Shape(s) && |s.released| <= s.reserved;
    ReserveGivesNext(s, nb);
    hide Wrap, Plus32, SlotOf, Inv, ReserveSide, SizeOf;
    var first := ReserveSide(s.prod, s.consumer, SizeOf(s.order), nb).1;
    if first.Some? {
      forall i: u32, j: u32 | i < j < nb
        ensures SlotOf(s.order, Plus32(first.value, i)) != SlotOf(s.order, Plus32(first.value, j))
      {
        ReservedSlotsDiffer(s.order, s.reserved, nb, i, j);
      }
      forall i: u32, k: nat | i < nb && |s.released| <= k < s.reserved
        ensures SlotOf(s.order, Plus32(first.value, i)) != SlotOf(s.order, Wrap(k))
      {
        ReservedSlotsAreFree(s.order, s.reserved, nb, i, k);
      }
    }
  }

  // A reserve is refused only when that many slots are really not free.
  lemma ReserveRefusesOnlyWhenFull<T>(s: System<T>, nb: u32)
    requires Inv(s)
    ensures ReserveSide(s.prod, s.consumer, SizeOf(s.order), nb).1.None?
        <==> s.reserved + nb > |s.released| + Pow2(s.order)
  {
    FreeIsSafe(s, nb);
  }

  // Peeking and giving everything back is the same as only having looked.
  lemma CancelUndoesPeek<T>(s: System<T>, nb: u32)
    requires Inv(s)
    ensures
      var n := PeekSide(s.cons, s.producer, nb).1;
      && Legal(Apply(s, Peek(nb)), Cancel(n))
      && Apply(Apply(s, Peek(nb)), Cancel(n)) == Apply(s, NbAvail(nb))
  {
    var n := PeekSide(s.cons, s.producer, nb).1;
    WrapSum(s.peeked, n);
    WrapMinus(s.peeked + n, n);
  }

  // ----- the two sides as the header has them, over memory they share -----

  class Shared<T> {
    var producer: u32
    var consumer: u32
    const ring: array<T>
    ghost var log: System<T>           // both sides, and the history of the run

    ghost predicate Valid()
      reads this, ring
    {
      Inv(log) && log.producer == producer && log.consumer == consumer && log.slots == ring[..]
    }

    constructor (ghost order: nat, ring: array<T>)
      requires order <= MAX_ORDER && ring.Length == Pow2(order)
      ensures Valid() && this.ring == ring && Init(log) && log.order == order
    {
      producer, consumer, this.ring := 0, 0, ring;
      log := System(order, Side(0, SizeOf(order)), Side(0, 0), 0, 0, ring[..], 0, [], 0, [], 0, 0);
      InitInv(System(order, Side(0, SizeOf(order)), Side(0, 0), 0, 0, ring[..], 0, [], 0, [], 0, 0));
    }

    // At any moment, between any two operations of either side, the ring is a queue.
    lemma IsQueue()
      requires Valid()
      ensures log.released <= log.items && |log.items| - |log.released| <= ring.Length
    {
    }
  }

  class RingProd<T> {
    var cachedProd: u32
    var cachedCons: u32
    const order: nat
    const shared: Shared<T>

    ghost predicate Valid()
      reads this, shared, shared.ring
    {
      shared.Valid() && shared.log.order == order && shared.log.prod == Side(cachedProd, cachedCons)
    }

    constructor (order: nat, shared: Shared<T>)
      requires shared.Valid() && Init(shared.log) && shared.log.order == order
      ensures Valid() && this.order == order && this.shared == shared
    {
      this.order, this.shared := order, shared;
      cachedProd, cachedCons := 0, SizeOf(order);
    }

    // Room for `free` more entries, as far as the producer knows: never more than there is,
    // and all there is when that is less than asked for.
    method NbFree(nb: u32) returns (free: u32)
      requires Valid()
      modifies this`cachedCons, shared`log
      ensures Valid() && shared.log == Apply(old(shared.log), Action.NbFree(nb))
      ensures
        var room := |shared.log.released| + Pow2(order) - shared.log.reserved;
        free <= room <= Pow2(order) && (free < nb ==> free == room)
      ensures
        var known := old(shared.log.seenConsumer) + Pow2(order) - shared.log.reserved;
        known >= nb ==> free == known
    {
      ghost var before := shared.log;
      FreeIsSafe(before, nb);
      StepKeepsInv(before, Action.NbFree(nb));
      free := Minus32(cachedCons, cachedProd);
      if free < nb {
        cachedCons := shared.consumer;
        cachedCons := Plus32(cachedCons, SizeOf(order));
        free := Minus32(cachedCons, cachedProd);
      }
      shared.log := Apply(before, Action.NbFree(nb));
    }

    // All or nothing: the next nb entries, if and only if they are really free.
    method Reserve(nb: u32) returns (n: u32, idx: u32)
      requires Valid()
      modifies this, shared`log
      ensures Valid() && shared.log == Apply(old(shared.log), Action.Reserve(nb))
      ensures
        if old(shared.log.reserved) + nb <= |shared.log.released| + Pow2(order) then
          n == nb && idx == Wrap(old(shared.log.reserved)) && shared.log.reserved == old(shared.log.reserved) + nb
        else n == 0 && shared.log.reserved == old(shared.log.reserved)
    {
      ghost var before := shared.log;
      ReserveGivesNext(before, nb);
      StepKeepsInv(before, Action.Reserve(nb));
      var free := NbFree(nb);
      if free < nb {
        shared.log := Apply(before, Action.Reserve(nb));
        return 0, 0;
      }
      idx := cachedProd;
      cachedProd := Plus32(cachedProd, nb);
      shared.log := Apply(before, Action.Reserve(nb));
      n := nb;
    }

    // The next nb reserved entries become visible, with what is in their slots.
    method Submit(nb: u32)
      requires Valid() && Legal(shared.log, Action.Submit(nb))
      modifies shared`producer, shared`log
      ensures Valid() && shared.log == Apply(old(shared.log), Action.Submit(nb))
      ensures |shared.log.items| == |old(shared.log.items)| + nb && old(shared.log.items) <= shared.log.items
      ensures forall k :: |old(shared.log.items)| <= k < |shared.log.items| ==>
        shared.log.items[k] == shared.ring[k % Pow2(order)]
    {
      ghost var before := shared.log;
      StepKeepsInv(before, Action.Submit(nb));
      shared.producer := Plus32(shared.producer, nb);
      shared.log := Apply(before, Action.Submit(nb));
      SubmittedIsInSlots(before, nb);
    }

    // *xsk_ring_prod__fill_addr(prod, idx) = v, for entry number k
    method Write(idx: u32, v: T, ghost k: nat)
      requires Valid() && Legal(shared.log, Action.Write(k, v)) && idx == Wrap(k)
      modifies shared.ring, shared`log
      ensures Valid() && shared.log == Apply(old(shared.log), Action.Write(k, v))
      ensures shared.ring[..] == old(shared.ring[..])[k % Pow2(order) := v]
    {
      ghost var before := shared.log;
      StepKeepsInv(before, Action.Write(k, v));
      SlotOfEntry(order, k);
      shared.ring[SlotOf(order, idx)] := v;
      shared.log := Apply(before, Action.Write(k, v));
    }
  }

  class RingCons<T> {
    var cachedProd: u32
    var cachedCons: u32
    const order: nat
    const shared: Shared<T>

    ghost predicate Valid()
      reads this, shared, shared.ring
    {
      shared.Valid() && shared.log.order == order && shared.log.cons == Side(cachedProd, cachedCons)
    }

    constructor (order: nat, shared: Shared<T>)
      requires shared.Valid() && Init(shared.log) && shared.log.order == order
      ensures Valid() && this.order == order && this.shared == shared
    {
      this.order, this.shared := order, shared;
      cachedProd, cachedCons := 0, 0;
    }

    // Entries that can be peeked, at most nb: none that was not submitted, and some if there are any.
    method NbAvail(nb: u32) returns (n: u32)
      requires Valid()
      modifies this`cachedProd, shared`log
      ensures Valid() && shared.log == Apply(old(shared.log), Action.NbAvail(nb))
      ensures n == PeekSide(old(shared.log.cons), shared.producer, nb).1
      ensures
        var known := old(shared.log.seenProducer) - shared.log.peeked;
        n == Min(nb, if known > 0 then known else |shared.log.items| - shared.log.peeked)
      ensures n <= nb && shared.log.peeked + n <= |shared.log.items|
      ensures n == 0 ==> nb == 0 || shared.log.peeked == |shared.log.items|
    {
      ghost var before := shared.log;
      AvailIsSafe(before, nb);
      PeekGivesKnown(before, nb);
      StepKeepsInv(before, Action.NbAvail(nb));
      var entries := Minus32(cachedProd, cachedCons);
      if entries == 0 {
        cachedProd := shared.producer;
        entries := Minus32(cachedProd, cachedCons);
      }
      shared.log := Apply(before, Action.NbAvail(nb));
      n := if entries > nb then nb else entries;
    }

    // The next n entries, in order of submission, starting at idx.
    method Peek(nb: u32) returns (n: u32, idx: u32)
      requires Valid()
      modifies this, shared`log
      ensures Valid() && shared.log == Apply(old(shared.log), Action.Peek(nb))
      ensures
        var known := old(shared.log.seenProducer) - old(shared.log.peeked);
        n == Min(nb, if known > 0 then known else |shared.log.items| - old(shared.log.peeked))
      ensures n <= nb && shared.log.peeked == old(shared.log.peeked) + n <= |shared.log.items|
      ensures n == 0 ==> nb == 0 || shared.log.peeked == |shared.log.items|
      ensures n > 0 ==> idx == Wrap(old(shared.log.peeked))
    {
      ghost var before := shared.log;
      StepKeepsInv(before, Action.Peek(nb));
      n := NbAvail(nb);
      idx := 0;
      if n > 0 {
        idx := cachedCons;
        cachedCons := Plus32(cachedCons, n);
      }
      shared.log := Apply(before, Action.Peek(nb));
    }

    // The last nb peeked entries are the next ones again.
    method Cancel(nb: u32)
      requires Valid() && Legal(shared.log, Action.Cancel(nb))
      modifies this`cachedCons, shared`log
      ensures Valid() && shared.log == Apply(old(shared.log), Action.Cancel(nb))
      ensures shared.log.peeked == old(shared.log.peeked) - nb && cachedCons == Wrap(shared.log.peeked)
    {
      ghost var before := shared.log;
      StepKeepsInv(before, Action.Cancel(nb));
      cachedCons := Minus32(cachedCons, nb);
      shared.log := Apply(before, Action.Cancel(nb));
    }

    // The oldest nb peeked entries are done with: what is released is what was submitted, in order.
    method Release(nb: u32)
      requires Valid() && Legal(shared.log, Action.Release(nb))
      modifies shared`consumer, shared`log
      ensures Valid() && shared.log == Apply(old(shared.log), Action.Release(nb))
      ensures |shared.log.released| == |old(shared.log.released)| + nb && shared.log.released <= shared.log.items
    {
      ghost var before := shared.log;
      StepKeepsInv(before, Action.Release(nb));
      shared.consumer := Plus32(shared.consumer, nb);
      shared.log := Apply(before, Action.Release(nb));
    }

    // *xsk_ring_cons__comp_addr(cons, idx), for entry number k: what was submitted as such
    method Read(idx: u32, ghost k: nat) returns (v: T)
      requires Valid() && |shared.log.released| <= k < shared.log.peeked && idx == Wrap(k)
      ensures k < |shared.log.items| && v == shared.log.items[k]
    {
      SlotOfEntry(order, k);
      assert At(shared.log, k) == shared.log.items[k];
      v := shared.ring[SlotOf(order, idx)];
    }
  }
}
