/**
 The enter/exit pairing protocol with each handler as one step.

 Nothing in the exit handler compares system calls, so that an event reports the call that is returning
 is an invariant of whole runs: it needs every thread to alternate between entering and leaving, which
 a thread does as long as its pid_tgid is not reused after a call that never returned.
 */
module Pairing {
  import opened Words
  import opened SyscallBitmap
  import opened Records
  import opened Handlers

  // Where a thread is: outside, or inside a call; `call` numbers the call if its enter was accepted.
  datatype Status = Outside | Inside(call: Option<nat>)

  // An event handed to a perf buffer, and the number of the call it was for (a history variable).
  datatype Emission = Emission(event: Event, call: nat)

  // What a call returned and when, recorded by the exit that found its record (a history variable).
  datatype Return = Return(ret: s64, now: u64)

  // The shared map, and the history of the run so far.
  datatype State = State(
    inflight: map<u64, Record>,
    status: map<u64, Status>,          // threads seen so far
    last: map<u64, u64>,               // each thread's latest clock reading
    calls: seq<Call>,                  // accepted enters, in order
    lost: set<nat>,                    // those whose insert found the map full
    ended: map<nat, Return>,           // how those that were found at their exit ended
    emitted: seq<seq<Emission>>)       // per CPU

  datatype Action =
    | RejectedEnter(key: u64)
    | AcceptedEnter(call: Call, record: Record)
    | ExitMiss(key: u64)
    | ExitHit(cpu: nat, key: u64, ret: s64, now: u64, event: Event)

  // A thread seen for the first time may be entering, or leaving a call it entered before the tracing began.
  predicate MayEnter(s: State, key: u64) {
    key in s.status ==> s.status[key].Outside?
  }

  predicate MayExit(s: State, key: u64) {
    key in s.status ==> s.status[key].Inside?
  }

  predicate ClockOk(s: State, key: u64, now: u64) {
    key in s.last ==> s.last[key] <= now
  }

  predicate HasCall(s: State, key: u64) {
    key in s.status && s.status[key].Inside? && s.status[key].call.Some?
  }

  function CurrentCall(s: State, key: u64): nat {
    if HasCall(s, key) then s.status[key].call.value else |s.calls|
  }

  // The event the exit handler sends for what it found under the key.
  predicate EventFor(cfg: Config, e: Event, r: Record, ret: s64, now: u64) {
    && e.tsNs == r.tsNs && e.args == r.args && e.syscallId == r.syscallId && e.pid == r.pid && e.tid == r.tid
    && e.ret == ret && e.durationNs == Sub64(now, r.tsNs)
    && e.stackSize == r.stackSize && (cfg.printStack ==> e.userStack == r.userStack)
  }

  function AfterRejected(s: State, key: u64): State {
    s.(status := s.status[key := Inside(None)])
  }

  function AfterAccepted(s: State, call: Call, r: Record): State {
    s.(inflight := Store(s.inflight, call.key, r),
       status := s.status[call.key := Inside(Some(|s.calls|))],
       last := s.last[call.key := call.tsNs],
       calls := s.calls + [call],
       lost := if Fits(s.inflight, call.key) then s.lost else s.lost + {|s.calls|})
  }

  function AfterMiss(s: State, key: u64): State {
    s.(status := s.status[key := Outside])
  }

  function AfterHit(s: State, cpu: nat, key: u64, ret: s64, now: u64, e: Event): State
    requires cpu < |s.emitted|
  {
    s.(inflight := s.inflight - {key},
       status := s.status[key := Outside],
       last := s.last[key := now],
       ended := s.ended[CurrentCall(s, key) := Return(ret, now)],
       emitted := s.emitted[cpu := s.emitted[cpu] + [Emission(e, CurrentCall(s, key))]])
  }

  predicate Step(cfg: Config, s: State, a: Action, s': State) {
    match a
    case RejectedEnter(key) => MayEnter(s, key) && s' == AfterRejected(s, key)
    case AcceptedEnter(call, r) =>
      && MayEnter(s, call.key) && ClockOk(s, call.key, call.tsNs) && RecordMatches(cfg, r, call)
      && s' == AfterAccepted(s, call, r)
    case ExitMiss(key) => MayExit(s, key) && key !in s.inflight && s' == AfterMiss(s, key)
    case ExitHit(cpu, key, ret, now, e) =>
      && MayExit(s, key) && key in s.inflight && ClockOk(s, key, now)
      && cpu < |s.emitted| && EventFor(cfg, e, s.inflight[key], ret, now)
      && s' == AfterHit(s, cpu, key, ret, now, e)
  }

  ghost predicate Next(cfg: Config, s: State, s': State) {
    s == s' || exists a :: Step(cfg, s, a, s')
  }

  // Both programs attached, nothing in flight, and nothing known about any thread.
  predicate Init(s: State) {
    && s.inflight == map[] && s.status == map[] && s.last == map[] && s.calls == [] && s.lost == {}
    && s.ended == map[]
    && forall c :: 0 <= c < |s.emitted| ==> s.emitted[c] == []
  }

  ghost predicate Run(cfg: Config, run: seq<State>) {
    && run != [] && Init(run[0])
    && forall i :: 0 <= i < |run| - 1 ==> Next(cfg, run[i], run[i + 1])
  }

  // ----- the invariant, in four parts -----

  // A key is in flight exactly when its thread is inside an accepted, stored call,
  // and then its value is that call's record.
  ghost predicate TableInv(cfg: Config, s: State) {
    && |s.inflight| <= MAX_INFLIGHT
    && (forall n :: n in s.lost ==> n < |s.calls|)
    && (forall k :: k in s.inflight <==> HasCall(s, k) && s.status[k].call.value !in s.lost)
    && (forall k :: HasCall(s, k) ==>
          && s.status[k].call.value < |s.calls|
          && s.calls[s.status[k].call.value].key == k)
    && (forall k :: k in s.inflight && HasCall(s, k) ==>
          RecordMatches(cfg, s.inflight[k], s.calls[s.status[k].call.value]))
  }

  predicate IsEmission(s: State, c: nat, i: nat) {
    c < |s.emitted| && i < |s.emitted[c]|
  }

  function EndOf(e: Event): nat {
    e.tsNs + e.durationNs
  }

  // The event reports that call and how it ended, and nothing else.
  predicate Reports(cfg: Config, s: State, e: Emission) {
    && e.call < |s.calls| && EventMatches(cfg, e.event, s.calls[e.call])
    && e.call in s.ended && e.event.ret == s.ended[e.call].ret && EndOf(e.event) == s.ended[e.call].now
  }

  // Every event reports one accepted, stored call that is over.
  ghost predicate EventInv(cfg: Config, s: State) {
    && (forall c: nat, i: nat :: IsEmission(s, c, i) ==>
          var e := s.emitted[c][i];
          && Reports(cfg, s, e) && e.call !in s.lost
          && s.calls[e.call].key in s.status
          && s.status[s.calls[e.call].key] != Inside(Some(e.call)))
    && (forall c: nat, i: nat, c': nat, i': nat ::
          IsEmission(s, c, i) && IsEmission(s, c', i') && s.emitted[c][i].call == s.emitted[c'][i'].call ==>
          c == c' && i == i')
  }

  // A call began no later than its thread was last seen.
  ghost predicate CallsTimed(s: State) {
    forall k :: HasCall(s, k) ==>
      && s.status[k].call.value < |s.calls|
      && k in s.last && s.calls[s.status[k].call.value].tsNs <= s.last[k]
  }

  // An event ended no later than its thread was last seen, nor than the thread's current call began.
  ghost predicate EventsTimed(s: State) {
    forall c: nat, i: nat :: IsEmission(s, c, i) && s.emitted[c][i].call < |s.calls| ==>
      var e := s.emitted[c][i];
      var k := s.calls[e.call].key;
      && k in s.last && EndOf(e.event) <= s.last[k]
      && (HasCall(s, k) && s.status[k].call.value < |s.calls| ==>
            && e.call < s.status[k].call.value
            && EndOf(e.event) <= s.calls[s.status[k].call.value].tsNs)
  }

  // A thread's events follow one another.
  ghost predicate EventsOrdered(s: State) {
    forall c: nat, i: nat, c': nat, i': nat ::
      && IsEmission(s, c, i) && IsEmission(s, c', i')
      && s.emitted[c][i].call < s.emitted[c'][i'].call < |s.calls|
      && s.calls[s.emitted[c][i].call].key == s.calls[s.emitted[c'][i'].call].key ==>
      EndOf(s.emitted[c][i].event) <= s.emitted[c'][i'].event.tsNs
  }

  // Per thread, events do not overlap in time, nor with the call the thread is in.
  ghost predicate TimeInv(s: State) {
    CallsTimed(s) && EventsTimed(s) && EventsOrdered(s)
  }

  function Total(emitted: seq<seq<Emission>>): nat {
    if emitted == [] then 0 else Total(emitted[..|emitted| - 1]) + |emitted[|emitted| - 1]|
  }

  // Accepted enters are reported, in flight, or lost.
  predicate CountInv(s: State) {
    |s.calls| == Total(s.emitted) + |s.inflight| + |s.lost|
  }

  ghost predicate Inv(cfg: Config, s: State) {
    TableInv(cfg, s) && EventInv(cfg, s) && TimeInv(s) && CountInv(s)
  }

  // ----- it holds at the start -----

  lemma {:induction false} TotalOfNone(emitted: seq<seq<Emission>>)
    requires forall c :: 0 <= c < |emitted| ==> emitted[c] == []
    ensures Total(emitted) == 0
  {
    if emitted != [] {
      TotalOfNone(emitted[..|emitted| - 1]);
    }
  }

  lemma InitTable(cfg: Config, s: State)
    requires Init(s)
    ensures TableInv(cfg, s) && CountInv(s)
  {
    hide RecordMatches;
    TotalOfNone(s.emitted);
    assert forall k :: !HasCall(s, k);
  }

  lemma InitEvents(cfg: Config, s: State)
    requires Init(s)
    ensures EventInv(cfg, s)
  {
    hide EventMatches;
    assert forall c: nat, i: nat :: !IsEmission(s, c, i);
  }

  lemma InitTime(s: State)
    requires Init(s)
    ensures TimeInv(s)
  {
    hide EndOf;
    assert forall k :: !HasCall(s, k);
    assert forall c: nat, i: nat :: !IsEmission(s, c, i);
  }

  lemma InitInv(cfg: Config, s: State)
    requires Init(s)
    ensures Inv(cfg, s)
  {
    hide TableInv, EventInv, TimeInv, CountInv, Init;
    InitTable(cfg, s);
    InitEvents(cfg, s);
    InitTime(s);
  }

  // ----- it is kept by every step -----

  lemma {:induction false} TotalAppend(emitted: seq<seq<Emission>>, c: nat, e: Emission)
    requires c < |emitted|
    ensures Total(emitted[c := emitted[c] + [e]]) == Total(emitted) + 1
  {
    var after := emitted[c := emitted[c] + [e]];
    var n := |emitted| - 1;
    if c == n {
      assert after[..n] == emitted[..n];
    } else {
      assert after[..n] == emitted[..n][c := emitted[..n][c] + [e]];
      TotalAppend(emitted[..n], c, e);
    }
  }

  // A thread with nothing in flight moves to where it has no call.
  predicate NoCall(st: Status) {
    st.Inside? ==> st.call.None?
  }

  function Moved(s: State, key: u64, st: Status): State {
    s.(status := s.status[key := st])
  }

  lemma MoveKeepsTable(cfg: Config, s: State, key: u64, st: Status)
    requires TableInv(cfg, s) && key !in s.inflight && NoCall(st)
    ensures TableInv(cfg, Moved(s, key, st))
  {
    assert forall k :: HasCall(Moved(s, key, st), k) <==> HasCall(s, k) && k != key;
    hide RecordMatches;
  }

  lemma MoveKeepsEvents(cfg: Config, s: State, key: u64, st: Status)
    requires EventInv(cfg, s) && NoCall(st)
    ensures EventInv(cfg, Moved(s, key, st))
  {
    var s' := Moved(s, key, st);
    hide EventMatches;
    assert forall c: nat, i: nat :: IsEmission(s', c, i) <==> IsEmission(s, c, i);
  }

  lemma MoveKeepsTime(cfg: Config, s: State, key: u64, st: Status)
    requires TimeInv(s) && NoCall(st)
    ensures TimeInv(Moved(s, key, st))
  {
    var s' := Moved(s, key, st);
    hide EndOf;
    assert forall k :: HasCall(s', k) <==> HasCall(s, k) && k != key;
    assert forall c: nat, i: nat :: IsEmission(s', c, i) <==> IsEmission(s, c, i);
  }

  lemma MoveKeepsInv(cfg: Config, s: State, key: u64, st: Status)
    requires Inv(cfg, s) && key !in s.inflight && NoCall(st)
    ensures Inv(cfg, Moved(s, key, st))
  {
    MoveKeepsTable(cfg, s, key, st);
    MoveKeepsEvents(cfg, s, key, st);
    MoveKeepsTime(cfg, s, key, st);
    hide TableInv, EventInv, TimeInv;
  }

  lemma OutsideIsNotInFlight(cfg: Config, s: State, key: u64)
    requires TableInv(cfg, s) && MayEnter(s, key)
    ensures key !in s.inflight
  {
    assert !HasCall(s, key);
  }

  // A key not yet there is added if there is room, and nothing else changes.
  lemma StoreIs(m: map<u64, Record>, key: u64, r: Record)
    requires key !in m && |m| <= MAX_INFLIGHT
    ensures |Store(m, key, r)| <= MAX_INFLIGHT
    ensures key in Store(m, key, r) <==> Fits(m, key)
    ensures key in Store(m, key, r) ==> Store(m, key, r)[key] == r
    ensures forall k :: k != key ==> (k in Store(m, key, r) <==> k in m)
    ensures forall k :: k in m ==> Store(m, key, r)[k] == m[k]
  {
    StoreSize(m, key, r);
  }

  // What TableInv says of one thread.
  ghost predicate KeyOk(cfg: Config, s: State, k: u64) {
    && (k in s.inflight <==> HasCall(s, k) && s.status[k].call.value !in s.lost)
    && (HasCall(s, k) ==> s.status[k].call.value < |s.calls| && s.calls[s.status[k].call.value].key == k)
    && (k in s.inflight && HasCall(s, k) ==> RecordMatches(cfg, s.inflight[k], s.calls[s.status[k].call.value]))
  }

  lemma KeysAreOk(cfg: Config, s: State)
    ensures TableInv(cfg, s) <==>
      |s.inflight| <= MAX_INFLIGHT && (forall n :: n in s.lost ==> n < |s.calls|) && forall k: u64 :: KeyOk(cfg, s, k)
  {
    hide RecordMatches;
    if TableInv(cfg, s) {
      forall k: u64
        ensures KeyOk(cfg, s, k)
      {
      }
    } else if forall k: u64 :: KeyOk(cfg, s, k) {
      forall k: u64
        ensures k in s.inflight <==> HasCall(s, k) && s.status[k].call.value !in s.lost
        ensures HasCall(s, k) ==> s.status[k].call.value < |s.calls| && s.calls[s.status[k].call.value].key == k
        ensures k in s.inflight && HasCall(s, k) ==> RecordMatches(cfg, s.inflight[k], s.calls[s.status[k].call.value])
      {
        assert KeyOk(cfg, s, k);
      }
    }
  }

  lemma AcceptedKeepsKey(cfg: Config, s: State, call: Call, r: Record, k: u64)
    requires |s.inflight| <= MAX_INFLIGHT && call.key !in s.inflight && (forall n :: n in s.lost ==> n < |s.calls|)
    requires KeyOk(cfg, s, k) && RecordMatches(cfg, r, call)
    ensures KeyOk(cfg, AfterAccepted(s, call, r), k)
  {
    hide RecordMatches, Store, Fits;
    StoreIs(s.inflight, call.key, r);
  }

  lemma AcceptedKeepsTable(cfg: Config, s: State, call: Call, r: Record)
    requires TableInv(cfg, s) && MayEnter(s, call.key) && RecordMatches(cfg, r, call)
    ensures TableInv(cfg, AfterAccepted(s, call, r))
    ensures call.key !in s.inflight
  {
    var s' := AfterAccepted(s, call, r);
    OutsideIsNotInFlight(cfg, s, call.key);
    KeysAreOk(cfg, s);
    KeysAreOk(cfg, s');
    StoreIs(s.inflight, call.key, r);
    hide TableInv, RecordMatches, Store, KeyOk;
    forall k: u64
      ensures KeyOk(cfg, s', k)
    {
      AcceptedKeepsKey(cfg, s, call, r, k);
    }
  }

  lemma AcceptedKeepsEvents(cfg: Config, s: State, call: Call, r: Record)
    requires TableInv(cfg, s) && EventInv(cfg, s) && MayEnter(s, call.key)
    ensures EventInv(cfg, AfterAccepted(s, call, r))
  {
    var s' := AfterAccepted(s, call, r);
    forall c: nat, i: nat | IsEmission(s', c, i)
      ensures
        var e := s'.emitted[c][i];
        && e.call < |s.calls| && s'.calls[e.call] == s.calls[e.call] && e.call !in s'.lost
        && Reports(cfg, s', e)
        && s'.calls[e.call].key in s'.status && s'.status[s'.calls[e.call].key] != Inside(Some(e.call))
    {
      assert IsEmission(s, c, i);
    }
    forall c: nat, i: nat, c': nat, i': nat |
        IsEmission(s', c, i) && IsEmission(s', c', i') && s'.emitted[c][i].call == s'.emitted[c'][i'].call
      ensures c == c' && i == i'
    {
      assert IsEmission(s, c, i) && IsEmission(s, c', i');
    }
  }

  // What every event says about the time its thread was last seen.
  ghost predicate EndsBefore(s: State, e: Emission) {
    && e.call < |s.calls|
    && var k := s.calls[e.call].key;
       && k in s.last && EndOf(e.event) <= s.last[k]
       && (HasCall(s, k) ==>
             && e.call < s.status[k].call.value < |s.calls|
             && EndOf(e.event) <= s.calls[s.status[k].call.value].tsNs)
  }

  lemma EventEndsBefore(cfg: Config, s: State, c: nat, i: nat)
    requires EventInv(cfg, s) && TimeInv(s) && IsEmission(s, c, i)
    ensures EndsBefore(s, s.emitted[c][i])
  {
    hide EventMatches, EndOf;
  }

  lemma AcceptedEventEnds(cfg: Config, s: State, call: Call, r: Record, c: nat, i: nat)
    requires EventInv(cfg, s) && TimeInv(s) && MayEnter(s, call.key) && ClockOk(s, call.key, call.tsNs)
    requires IsEmission(s, c, i)
    ensures EndsBefore(AfterAccepted(s, call, r), s.emitted[c][i]) && s.emitted[c][i].call < |s.calls|
  {
    EventEndsBefore(cfg, s, c, i);
    hide EventInv, TimeInv, EndOf, Store, Fits;
  }

  lemma AcceptedCallsTimed(s: State, call: Call, r: Record)
    requires CallsTimed(s)
    ensures CallsTimed(AfterAccepted(s, call, r))
  {
    var s' := AfterAccepted(s, call, r);
    hide Store, Fits;
    forall k | HasCall(s', k)
      ensures s'.status[k].call.value < |s'.calls| && k in s'.last
      ensures s'.calls[s'.status[k].call.value].tsNs <= s'.last[k]
    {
      assert k != call.key ==> HasCall(s, k);
    }
  }

  lemma AcceptedEventsTimed(cfg: Config, s: State, call: Call, r: Record)
    requires EventInv(cfg, s) && TimeInv(s) && MayEnter(s, call.key) && ClockOk(s, call.key, call.tsNs)
    ensures EventsTimed(AfterAccepted(s, call, r))
  {
    var s' := AfterAccepted(s, call, r);
    hide EndOf, Store, Fits, EventInv, TimeInv;
    forall c: nat, i: nat | IsEmission(s', c, i)
      ensures EndsBefore(s', s'.emitted[c][i])
    {
      AcceptedEventEnds(cfg, s, call, r, c, i);
    }
  }

  lemma AcceptedEventsOrdered(cfg: Config, s: State, call: Call, r: Record)
    requires EventInv(cfg, s) && EventsOrdered(s)
    ensures EventsOrdered(AfterAccepted(s, call, r))
  {
    var s' := AfterAccepted(s, call, r);
    assert forall c: nat, i: nat :: IsEmission(s, c, i) ==> s.emitted[c][i].call < |s.calls|;
    hide EndOf, Store, Fits, EventInv;
    assert forall c: nat, i: nat :: IsEmission(s', c, i) <==> IsEmission(s, c, i);
  }

  lemma AcceptedKeepsTime(cfg: Config, s: State, call: Call, r: Record)
    requires EventInv(cfg, s) && TimeInv(s) && MayEnter(s, call.key) && ClockOk(s, call.key, call.tsNs)
    ensures TimeInv(AfterAccepted(s, call, r))
  {
    hide CallsTimed, EventsTimed, EventsOrdered, EventInv;
    AcceptedCallsTimed(s, call, r);
    AcceptedEventsTimed(cfg, s, call, r);
    AcceptedEventsOrdered(cfg, s, call, r);
  }

  lemma AcceptedKeepsCount(cfg: Config, s: State, call: Call, r: Record)
    requires TableInv(cfg, s) && CountInv(s) && MayEnter(s, call.key)
    ensures CountInv(AfterAccepted(s, call, r))
  {
    StoreSize(s.inflight, call.key, r);
    assert call.key !in s.inflight && |s.calls| !in s.lost;
  }

  // The event an exit sends is for the call its thread is in.
  lemma HitReportsCurrentCall(cfg: Config, s: State, key: u64, ret: s64, now: u64, e: Event)
    requires TableInv(cfg, s) && TimeInv(s)
    requires key in s.inflight && ClockOk(s, key, now) && EventFor(cfg, e, s.inflight[key], ret, now)
    ensures HasCall(s, key) && CurrentCall(s, key) < |s.calls| && s.calls[CurrentCall(s, key)].key == key
    ensures EventMatches(cfg, e, s.calls[CurrentCall(s, key)]) && e.ret == ret
    ensures EndOf(e) == now
  {
    assert HasCall(s, key);
  }

  lemma HitKeepsTable(cfg: Config, s: State, cpu: nat, key: u64, ret: s64, now: u64, e: Event)
    requires TableInv(cfg, s) && key in s.inflight && cpu < |s.emitted|
    ensures TableInv(cfg, AfterHit(s, cpu, key, ret, now, e))
  {
    var s' := AfterHit(s, cpu, key, ret, now, e);
    RemoveSize(s.inflight, key);
    assert forall k :: HasCall(s', k) <==> HasCall(s, k) && k != key;
  }

  // An emission after the step is an old one or the new one.
  lemma HitEmission(s: State, cpu: nat, key: u64, ret: s64, now: u64, e: Event, c: nat, i: nat)
    requires cpu < |s.emitted|
    requires IsEmission(AfterHit(s, cpu, key, ret, now, e), c, i)
    ensures
      var s' := AfterHit(s, cpu, key, ret, now, e);
      if c == cpu && i == |s.emitted[cpu]| then s'.emitted[c][i] == Emission(e, CurrentCall(s, key))
      else IsEmission(s, c, i) && s'.emitted[c][i] == s.emitted[c][i]
  {
  }

  lemma HitKeepsEvents(cfg: Config, s: State, cpu: nat, key: u64, ret: s64, now: u64, e: Event)
    requires TableInv(cfg, s) && EventInv(cfg, s) && TimeInv(s)
    requires key in s.inflight && ClockOk(s, key, now) && cpu < |s.emitted|
    requires EventFor(cfg, e, s.inflight[key], ret, now)
    ensures EventInv(cfg, AfterHit(s, cpu, key, ret, now, e))
  {
    var s' := AfterHit(s, cpu, key, ret, now, e);
    var n := CurrentCall(s, key);
    HitReportsCurrentCall(cfg, s, key, ret, now, e);
    assert HasCall(s, key) && n !in s.lost;
    hide EventMatches, EventFor, RecordMatches;
    forall c: nat, i: nat | IsEmission(s', c, i)
      ensures
        var e' := s'.emitted[c][i];
        && Reports(cfg, s', e') && e'.call !in s'.lost
        && s'.calls[e'.call].key in s'.status && s'.status[s'.calls[e'.call].key] != Inside(Some(e'.call))
    {
      HitEmission(s, cpu, key, ret, now, e, c, i);
    }
    forall c: nat, i: nat, c': nat, i': nat |
        IsEmission(s', c, i) && IsEmission(s', c', i') && s'.emitted[c][i].call == s'.emitted[c'][i'].call
      ensures c == c' && i == i'
    {
      HitEmission(s, cpu, key, ret, now, e, c, i);
      HitEmission(s, cpu, key, ret, now, e, c', i');
    }
  }

  lemma HitEventEnds(cfg: Config, s: State, cpu: nat, key: u64, ret: s64, now: u64, e: Event, c: nat, i: nat)
    requires TableInv(cfg, s) && EventInv(cfg, s) && TimeInv(s)
    requires key in s.inflight && ClockOk(s, key, now) && cpu < |s.emitted|
    requires EventFor(cfg, e, s.inflight[key], ret, now)
    requires IsEmission(AfterHit(s, cpu, key, ret, now, e), c, i)
    ensures EndsBefore(AfterHit(s, cpu, key, ret, now, e), AfterHit(s, cpu, key, ret, now, e).emitted[c][i])
  {
    HitReportsCurrentCall(cfg, s, key, ret, now, e);
    HitEmission(s, cpu, key, ret, now, e, c, i);
    if IsEmission(s, c, i) {
      EventEndsBefore(cfg, s, c, i);
    }
    hide EventMatches, EventFor, RecordMatches, TableInv, EventInv, TimeInv, EndOf;
  }

  lemma HitEventsOrdered(cfg: Config, s: State, cpu: nat, key: u64, ret: s64, now: u64, e: Event,
                         c: nat, i: nat, c': nat, i': nat)
    requires TableInv(cfg, s) && EventInv(cfg, s) && TimeInv(s)
    requires key in s.inflight && ClockOk(s, key, now) && cpu < |s.emitted|
    requires EventFor(cfg, e, s.inflight[key], ret, now)
    requires IsEmission(AfterHit(s, cpu, key, ret, now, e), c, i) && IsEmission(AfterHit(s, cpu, key, ret, now, e), c', i')
    ensures
      var s' := AfterHit(s, cpu, key, ret, now, e);
      var (a, b) := (s'.emitted[c][i], s'.emitted[c'][i']);
      a.call < b.call < |s.calls| && s.calls[a.call].key == s.calls[b.call].key ==>
      EndOf(a.event) <= b.event.tsNs
  {
    HitReportsCurrentCall(cfg, s, key, ret, now, e);
    HitEmission(s, cpu, key, ret, now, e, c, i);
    HitEmission(s, cpu, key, ret, now, e, c', i');
    if IsEmission(s, c, i) {
      EventEndsBefore(cfg, s, c, i);
    }
    if IsEmission(s, c', i') {
      EventEndsBefore(cfg, s, c', i');
    }
    assert e.tsNs == s.calls[CurrentCall(s, key)].tsNs;
    hide EventMatches, EventFor, RecordMatches, TableInv, EventInv, EndOf;
  }

  lemma HitCallsTimed(s: State, cpu: nat, key: u64, ret: s64, now: u64, e: Event)
    requires CallsTimed(s) && cpu < |s.emitted|
    ensures CallsTimed(AfterHit(s, cpu, key, ret, now, e))
  {
    var s' := AfterHit(s, cpu, key, ret, now, e);
    assert forall k :: HasCall(s', k) ==> HasCall(s, k) && k != key;
  }

  lemma HitEventsTimed(cfg: Config, s: State, cpu: nat, key: u64, ret: s64, now: u64, e: Event)
    requires TableInv(cfg, s) && EventInv(cfg, s) && TimeInv(s)
    requires key in s.inflight && ClockOk(s, key, now) && cpu < |s.emitted|
    requires EventFor(cfg, e, s.inflight[key], ret, now)
    ensures EventsTimed(AfterHit(s, cpu, key, ret, now, e))
  {
    var s' := AfterHit(s, cpu, key, ret, now, e);
    hide EventFor, TableInv, EventInv, TimeInv, EndOf;
    forall c: nat, i: nat | IsEmission(s', c, i)
      ensures EndsBefore(s', s'.emitted[c][i])
    {
      HitEventEnds(cfg, s, cpu, key, ret, now, e, c, i);
    }
  }

  lemma HitKeepsOrder(cfg: Config, s: State, cpu: nat, key: u64, ret: s64, now: u64, e: Event)
    requires TableInv(cfg, s) && EventInv(cfg, s) && TimeInv(s)
    requires key in s.inflight && ClockOk(s, key, now) && cpu < |s.emitted|
    requires EventFor(cfg, e, s.inflight[key], ret, now)
    ensures EventsOrdered(AfterHit(s, cpu, key, ret, now, e))
  {
    var s' := AfterHit(s, cpu, key, ret, now, e);
    hide EventFor, TableInv, EventInv, TimeInv, EndOf;
    forall c: nat, i: nat, c': nat, i': nat |
        && IsEmission(s', c, i) && IsEmission(s', c', i')
        && s'.emitted[c][i].call < s'.emitted[c'][i'].call < |s'.calls|
        && s'.calls[s'.emitted[c][i].call].key == s'.calls[s'.emitted[c'][i'].call].key
      ensures EndOf(s'.emitted[c][i].event) <= s'.emitted[c'][i'].event.tsNs
    {
      HitEventsOrdered(cfg, s, cpu, key, ret, now, e, c, i, c', i');
    }
  }

  lemma HitKeepsTime(cfg: Config, s: State, cpu: nat, key: u64, ret: s64, now: u64, e: Event)
    requires TableInv(cfg, s) && EventInv(cfg, s) && TimeInv(s)
    requires key in s.inflight && ClockOk(s, key, now) && cpu < |s.emitted|
    requires EventFor(cfg, e, s.inflight[key], ret, now)
    ensures TimeInv(AfterHit(s, cpu, key, ret, now, e))
  {
    hide TableInv, EventInv, EventFor, CallsTimed, EventsTimed, EventsOrdered;
    HitCallsTimed(s, cpu, key, ret, now, e);
    HitEventsTimed(cfg, s, cpu, key, ret, now, e);
    HitKeepsOrder(cfg, s, cpu, key, ret, now, e);
  }

  lemma HitKeepsCount(cfg: Config, s: State, cpu: nat, key: u64, ret: s64, now: u64, e: Event)
    requires CountInv(s) && key in s.inflight && cpu < |s.emitted|
    ensures CountInv(AfterHit(s, cpu, key, ret, now, e))
  {
    RemoveSize(s.inflight, key);
    TotalAppend(s.emitted, cpu, Emission(e, CurrentCall(s, key)));
  }

  lemma StepKeepsInv(cfg: Config, s: State, a: Action, s': State)
    requires Inv(cfg, s) && Step(cfg, s, a, s')
    ensures Inv(cfg, s')
  {
    hide TableInv, EventInv, TimeInv, CountInv, RecordMatches, EventFor;
    match a
    case RejectedEnter(key) =>
      OutsideIsNotInFlight(cfg, s, key);
      MoveKeepsInv(cfg, s, key, Inside(None));
    case AcceptedEnter(call, r) =>
      AcceptedKeepsTable(cfg, s, call, r);
      AcceptedKeepsEvents(cfg, s, call, r);
      AcceptedKeepsTime(cfg, s, call, r);
      AcceptedKeepsCount(cfg, s, call, r);
    case ExitMiss(key) => MoveKeepsInv(cfg, s, key, Outside);
    case ExitHit(cpu, key, ret, now, e) =>
      HitKeepsTable(cfg, s, cpu, key, ret, now, e);
      HitKeepsEvents(cfg, s, cpu, key, ret, now, e);
      HitKeepsTime(cfg, s, cpu, key, ret, now, e);
      HitKeepsCount(cfg, s, cpu, key, ret, now, e);
  }

  // ----- the handlers take these steps -----

  // The protocol step a handler run amounts to.
  function ActionOf(cfg: Config, bitmap: Bitmap, m: Maps, a: Act): Action
    requires ValidMaps(cfg, m) && ValidAct(m, a)
  {
    match a
    case EnterAct(cpu, key, enter, now) =>
      if Accepts(cfg, bitmap, key, enter) then
        AcceptedEnter(Call(key, now, enter), Filled(cfg, m.inMap[cpu], key, enter, now))
      else RejectedEnter(key)
    case ExitAct(cpu, key, ret, now) =>
      if key in m.inflight then ExitHit(cpu, key, ret, now, Reported(cfg, m.eventMap[cpu], m.inflight[key], ret, now))
      else ExitMiss(key)
  }

  function Outcome(s: State, a: Action): State
    requires a.ExitHit? ==> a.cpu < |s.emitted|
  {
    match a
    case RejectedEnter(key) => AfterRejected(s, key)
    case AcceptedEnter(call, r) => AfterAccepted(s, call, r)
    case ExitMiss(key) => AfterMiss(s, key)
    case ExitHit(cpu, key, ret, now, e) => AfterHit(s, cpu, key, ret, now, e)
  }

  // The protocol's state and the programs' maps agree.
  ghost predicate Stands(s: State, m: Maps) {
    && s.inflight == m.inflight && |s.emitted| == |m.emitted|
    && forall c :: 0 <= c < |m.emitted| ==>
         && |s.emitted[c]| == |m.emitted[c]|
         && forall i :: 0 <= i < |m.emitted[c]| ==> s.emitted[c][i].event == m.emitted[c][i]
  }

  // A thread alternates, and its clock does not run backwards.
  predicate MayAct(s: State, a: Act) {
    (if a.EnterAct? then MayEnter(s, a.key) else MayExit(s, a.key)) && ClockOk(s, a.key, a.now)
  }

  // Whatever a handler does, accepting or not, finding an entry or not, and whatever the scratch records
  // held before, is one step of the protocol.
  lemma HandlersTakeSteps(cfg: Config, bitmap: Bitmap, s: State, m: Maps, a: Act)
    requires ValidMaps(cfg, m) && ValidAct(m, a) && Stands(s, m) && MayAct(s, a)
    ensures
      var step := ActionOf(cfg, bitmap, m, a);
      && (step.ExitHit? ==> step.cpu < |s.emitted|)
      && Step(cfg, s, step, Outcome(s, step))
      && Stands(Outcome(s, step), Handle(cfg, bitmap, m, a))
  {
    hide RecordMatches, Accepts, Filled, Reported;
    if a.EnterAct? {
      if Accepts(cfg, bitmap, a.key, a.enter) {
        FilledMatches(cfg, m.inMap[a.cpu], a.key, a.enter, a.now);
      }
    } else if a.key in m.inflight {
      ReportedIsEventFor(cfg, m.eventMap[a.cpu], m.inflight[a.key], a.ret, a.now);
      hide EventFor;
    }
  }

  lemma ReportedIsEventFor(cfg: Config, scratch: Event, r: Record, ret: s64, now: u64)
    ensures EventFor(cfg, Reported(cfg, scratch, r, ret, now), r, ret, now)
  {
  }

  // ----- the theorems, over whole runs -----

  lemma {:induction false} RunKeepsInv(cfg: Config, run: seq<State>, i: nat)
    requires Run(cfg, run) && i < |run|
    ensures Inv(cfg, run[i])
  {
    hide Inv;
    if i == 0 {
      InitInv(cfg, run[0]);
    } else {
      RunKeepsInv(cfg, run, i - 1);
      assert Next(cfg, run[i - 1], run[i - 1 + 1]);
      if run[i - 1] != run[i] {
        var a :| Step(cfg, run[i - 1], a, run[i]);
        StepKeepsInv(cfg, run[i - 1], a, run[i]);
      }
    }
  }

  // In every reachable state: what is in flight, what was reported, when, and how much.
  lemma PairingOverRuns(cfg: Config, run: seq<State>, i: nat)
    requires Run(cfg, run) && i < |run|
    ensures
      var s := run[i];
      // A key is in flight iff its thread is inside an accepted, stored call; its value is that call's record.
      && (forall k :: k in s.inflight <==> HasCall(s, k) && s.status[k].call.value !in s.lost)
      && (forall k :: k in s.inflight ==>
            HasCall(s, k) && CurrentCall(s, k) < |s.calls| &&
            s.calls[CurrentCall(s, k)].key == k && RecordMatches(cfg, s.inflight[k], s.calls[CurrentCall(s, k)]))
      // Every event reports one accepted call, what it returned and when; no call is reported twice.
      && (forall c: nat, i: nat :: IsEmission(s, c, i) ==> Reports(cfg, s, s.emitted[c][i]))
      && (forall c: nat, i: nat, c': nat, i': nat ::
            IsEmission(s, c, i) && IsEmission(s, c', i') && s.emitted[c][i].call == s.emitted[c'][i'].call ==>
            c == c' && i == i')
  {
    RunKeepsInv(cfg, run, i);
    hide RecordMatches, EventMatches;
  }

  lemma ConservationOverRuns(cfg: Config, run: seq<State>, i: nat)
    requires Run(cfg, run) && i < |run|
    ensures
      var s := run[i];
      |s.calls| == Total(s.emitted) + |s.inflight| + |s.lost| && |s.inflight| <= 4096
  {
    RunKeepsInv(cfg, run, i);
  }

  // One thread's events cover disjoint, ordered stretches of time.
  lemma IntervalsOverRuns(cfg: Config, run: seq<State>, i: nat, c: nat, j: nat, c': nat, j': nat)
    requires Run(cfg, run) && i < |run|
    requires IsEmission(run[i], c, j) && IsEmission(run[i], c', j')
    ensures
      var s := run[i];
      var (a, b) := (s.emitted[c][j], s.emitted[c'][j']);
      && a.call < |s.calls| && b.call < |s.calls|
      && a.event.tsNs + a.event.durationNs < TWO_64
      && (s.calls[a.call].key == s.calls[b.call].key && a.call < b.call ==>
            a.event.tsNs + a.event.durationNs <= b.event.tsNs)
  {
    RunKeepsInv(cfg, run, i);
  }
}
