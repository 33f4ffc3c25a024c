/**
 The in-flight map from any starting contents: stale entries do not survive an accepted enter.

 First with each handler as one step, for any acts in any order, whether or not threads alternate and
 whether or not ids are reused; then with the handlers split into single reads and writes.
 */
module SelfHealing {
  import opened Words
  import opened SyscallBitmap
  import opened Records
  import opened Pairing
  import opened FineGrained

  // ----- handlers as single steps -----

  predicate ValidActs(m: Maps, acts: seq<Act>) {
    forall i :: 0 <= i < |acts| ==> ValidAct(m, acts[i])
  }

  function After(cfg: Config, bitmap: Bitmap, m: Maps, acts: seq<Act>): (m': Maps)
    requires ValidMaps(cfg, m) && ValidActs(m, acts)
    ensures ValidMaps(cfg, m') && |m'.inMap| == |m.inMap|
  {
    if acts == [] then m
    else Handle(cfg, bitmap, After(cfg, bitmap, m, acts[..|acts| - 1]), acts[|acts| - 1])
  }

  // The latest act of a thread.
  function Latest(acts: seq<Act>, key: u64): (r: Option<nat>)
    ensures r.Some? ==>
      && r.value < |acts| && acts[r.value].key == key
      && forall i :: r.value < i < |acts| ==> acts[i].key != key
    ensures r.None? ==> forall i :: 0 <= i < |acts| ==> acts[i].key != key
  {
    if acts == [] then None
    else if acts[|acts| - 1].key == key then Some(|acts| - 1)
    else Latest(acts[..|acts| - 1], key)
  }

  // Nobody else touches a thread's entry.
  lemma {:induction false} OthersKeepEntry(cfg: Config, bitmap: Bitmap, m: Maps, acts: seq<Act>, n: nat, key: u64)
    requires ValidMaps(cfg, m) && ValidActs(m, acts) && n <= |acts|
    requires forall i :: n <= i < |acts| ==> acts[i].key != key
    ensures
      var (before, now) := (After(cfg, bitmap, m, acts[..n]).inflight, After(cfg, bitmap, m, acts).inflight);
      (key in now <==> key in before) && (key in now ==> now[key] == before[key])
  {
    hide Accepts, Filled, Reported;
    if n == |acts| {
      assert acts[..n] == acts;
    } else {
      var init := acts[..|acts| - 1];
      OthersKeepEntry(cfg, bitmap, m, init, n, key);
      assert init[..n] == acts[..n];
    }
  }

  lemma AfterSnoc(cfg: Config, bitmap: Bitmap, m: Maps, acts: seq<Act>, i: nat)
    requires ValidMaps(cfg, m) && ValidActs(m, acts) && i < |acts|
    ensures
      After(cfg, bitmap, m, acts[..i + 1]) == Handle(cfg, bitmap, After(cfg, bitmap, m, acts[..i]), acts[i])
  {
    assert acts[..i + 1][..i] == acts[..i];
  }

  // What is under a thread's key is what its latest act left there.
  lemma EntryIsFromLatest(cfg: Config, bitmap: Bitmap, m: Maps, acts: seq<Act>, key: u64)
    requires ValidMaps(cfg, m) && ValidActs(m, acts) && Latest(acts, key).Some?
    ensures
      var i := Latest(acts, key).value;
      var before := After(cfg, bitmap, m, acts[..i]);
      var (left, now) := (Handle(cfg, bitmap, before, acts[i]).inflight, After(cfg, bitmap, m, acts).inflight);
      (key in now <==> key in left) && (key in now ==> now[key] == left[key])
  {
    hide Handle, After;
    OthersKeepEntry(cfg, bitmap, m, acts, Latest(acts, key).value + 1, key);
    AfterSnoc(cfg, bitmap, m, acts, Latest(acts, key).value);
  }

  // Inside a call whose enter was accepted, the entry is a record of that call and nothing else, or absent
  // if and only if the map was full and had no entry of the thread. What the map held at the start,
  // what came before and what the scratch records held does not matter.
  lemma AcceptedEnterHeals(cfg: Config, bitmap: Bitmap, m: Maps, acts: seq<Act>, key: u64)
    requires ValidMaps(cfg, m) && ValidActs(m, acts) && Latest(acts, key).Some?
    requires
      var a := acts[Latest(acts, key).value];
      a.EnterAct? && Accepts(cfg, bitmap, key, a.enter)
    ensures
      var i := Latest(acts, key).value;
      var (before, now) := (After(cfg, bitmap, m, acts[..i]).inflight, After(cfg, bitmap, m, acts).inflight);
      && (key in now <==> Fits(before, key))
      && (key in now ==> RecordMatches(cfg, now[key], Call(key, acts[i].now, acts[i].enter)))
  {
    hide Accepts, After, Filled, RecordMatches;
    var i := Latest(acts, key).value;
    EntryIsFromLatest(cfg, bitmap, m, acts, key);
    FilledMatches(cfg, After(cfg, bitmap, m, acts[..i]).inMap[acts[i].cpu], key, acts[i].enter, acts[i].now);
  }

  // The event an act makes its CPU send, if any.
  function Sent(cfg: Config, bitmap: Bitmap, m: Maps, a: Act): Option<Event>
    requires ValidMaps(cfg, m) && ValidAct(m, a)
  {
    var sent := Handle(cfg, bitmap, m, a).emitted[a.cpu];
    if |sent| > |m.emitted[a.cpu]| then Some(sent[|sent| - 1]) else None
  }

  // An exit by the thread, no earlier than what the thread did before.
  predicate IsExitOf(m: Maps, acts: seq<Act>, key: u64, exit: Act) {
    && exit.ExitAct? && exit.key == key && ValidAct(m, exit)
    && forall i :: 0 <= i < |acts| && acts[i].key == key ==> acts[i].now <= exit.now
  }

  // The exit sends nothing, or an event for the thread's latest enter with its own result and time.
  ghost predicate ReportsLatestOrNothing(cfg: Config, bitmap: Bitmap, m: Maps, acts: seq<Act>, key: u64, exit: Act)
    requires ValidMaps(cfg, m) && ValidActs(m, acts) && IsExitOf(m, acts, key, exit)
  {
    match Sent(cfg, bitmap, After(cfg, bitmap, m, acts), exit)
    case None => true
    case Some(e) =>
      && Latest(acts, key).Some?
      && var enter := acts[Latest(acts, key).value];
         && enter.EnterAct?
         && EventMatches(cfg, e, Call(key, enter.now, enter.enter))
         && e.ret == exit.ret && EndOf(e) == exit.now
  }

  ghost predicate AllAccepted(cfg: Config, bitmap: Bitmap, acts: seq<Act>, key: u64) {
    forall i :: 0 <= i < |acts| && acts[i].key == key && acts[i].EnterAct? ==> Accepts(cfg, bitmap, key, acts[i].enter)
  }

  lemma ExitAfterAcceptedEnter(cfg: Config, bitmap: Bitmap, m: Maps, acts: seq<Act>, key: u64, exit: Act)
    requires ValidMaps(cfg, m) && ValidActs(m, acts) && IsExitOf(m, acts, key, exit) && Latest(acts, key).Some?
    requires
      var a := acts[Latest(acts, key).value];
      a.EnterAct? && Accepts(cfg, bitmap, key, a.enter)
    ensures ReportsLatestOrNothing(cfg, bitmap, m, acts, key, exit)
  {
    hide Accepts, RecordMatches, EventMatches;
    AcceptedEnterHeals(cfg, bitmap, m, acts, key);
    var t, enter := After(cfg, bitmap, m, acts), acts[Latest(acts, key).value];
    if key in t.inflight {
      ReportedMatches(cfg, t.eventMap[exit.cpu], t.inflight[key], Call(key, enter.now, enter.enter), exit.ret, exit.now);
    }
  }

  // From any maps: once a thread all of whose enters are accepted has done anything at all,
  // each of its exits reports its latest enter or nothing.
  lemma SelfHealing(cfg: Config, bitmap: Bitmap, m: Maps, acts: seq<Act>, key: u64, exit: Act)
    requires ValidMaps(cfg, m) && ValidActs(m, acts) && IsExitOf(m, acts, key, exit)
    requires AllAccepted(cfg, bitmap, acts, key) && Latest(acts, key).Some?
    ensures ReportsLatestOrNothing(cfg, bitmap, m, acts, key, exit)
  {
    hide After, ReportsLatestOrNothing;
    if acts[Latest(acts, key).value].EnterAct? {
      ExitAfterAcceptedEnter(cfg, bitmap, m, acts, key, exit);
    } else {
      EntryIsFromLatest(cfg, bitmap, m, acts, key);
      NothingToReport(cfg, bitmap, m, acts, key, exit);
    }
  }

  lemma NothingToReport(cfg: Config, bitmap: Bitmap, m: Maps, acts: seq<Act>, key: u64, exit: Act)
    requires ValidMaps(cfg, m) && ValidActs(m, acts) && IsExitOf(m, acts, key, exit)
    requires key !in After(cfg, bitmap, m, acts).inflight
    ensures ReportsLatestOrNothing(cfg, bitmap, m, acts, key, exit)
  {
  }

  // An exit after a rejected enter sends an event if and only if the map had a stale entry then,
  // and what it sends is that entry's.
  lemma RejectedEnterReportsStale(cfg: Config, bitmap: Bitmap, m: Maps, acts: seq<Act>, key: u64, exit: Act)
    requires ValidMaps(cfg, m) && ValidActs(m, acts) && IsExitOf(m, acts, key, exit) && Latest(acts, key).Some?
    requires
      var a := acts[Latest(acts, key).value];
      a.EnterAct? && !Accepts(cfg, bitmap, key, a.enter)
    ensures
      var before := After(cfg, bitmap, m, acts[..Latest(acts, key).value]).inflight;
      match Sent(cfg, bitmap, After(cfg, bitmap, m, acts), exit)
      case None => key !in before
      case Some(e) => key in before && EventFor(cfg, e, before[key], exit.ret, exit.now)
  {
    hide Accepts, After;
    EntryIsFromLatest(cfg, bitmap, m, acts, key);
  }

  // A stale entry with this system call number.
  function Stale(id: s32): Record {
    Record(0, [0, 0, 0, 0, 0, 0], seq(64, _ => 0), 0, 0, 0, id)
  }

  // One CPU whose maps hold nothing but that entry.
  function StaleMaps(key: u64, id: s32): Maps {
    var r := Stale(id);
    Maps([r], [Event(0, 0, r.args, 0, r.userStack, 0, 0, 0, 0)], map[key := r], [[]])
  }

  // A rejected enter and the exit after it: the event has the number of another system call.
  lemma StaleEntryIsReported(cfg: Config, bitmap: Bitmap, key: u64, enter: Enter, id: s32)
    requires ValidEnter(enter) && !Accepts(cfg, bitmap, key, enter) && (id - enter.id) % 0x1_0000_0000 != 0
    ensures
      var (acts, exit) := ([EnterAct(0, key, enter, 0)], ExitAct(0, key, 0, 0));
      var t := After(cfg, bitmap, StaleMaps(key, id), acts);
      && Sent(cfg, bitmap, t, exit).Some?
      && Sent(cfg, bitmap, t, exit).value.syscallId == id
      && !ReportsLatestOrNothing(cfg, bitmap, StaleMaps(key, id), acts, key, exit)
  {
    hide Accepts;
    var m := StaleMaps(key, id);
    var acts := [EnterAct(0, key, enter, 0)];
    assert acts[..0] == [];
    assert After(cfg, bitmap, m, []) == m;
    assert After(cfg, bitmap, m, acts) == Handle(cfg, bitmap, m, acts[0]) == m;
  }

  // Whatever the maps held and whatever other threads do, the exit after this enter reports it or nothing.
  ghost predicate AlwaysHeals(cfg: Config, bitmap: Bitmap, key: u64, enter: Enter) {
    forall m: Maps, acts: seq<Act>, exit: Act ::
      && ValidMaps(cfg, m) && ValidActs(m, acts) && IsExitOf(m, acts, key, exit)
      && Latest(acts, key).Some? && acts[Latest(acts, key).value].EnterAct?
      && acts[Latest(acts, key).value].enter == enter ==>
      ReportsLatestOrNothing(cfg, bitmap, m, acts, key, exit)
  }

  // An enter is sure to heal exactly when the filters accept it.
  lemma HealsIffAccepted(cfg: Config, bitmap: Bitmap, key: u64, enter: Enter)
    requires ValidEnter(enter)
    ensures AlwaysHeals(cfg, bitmap, key, enter) <==> Accepts(cfg, bitmap, key, enter)
  {
    hide Accepts, ReportsLatestOrNothing;
    if Accepts(cfg, bitmap, key, enter) {
      forall m: Maps, acts: seq<Act>, exit: Act |
          && ValidMaps(cfg, m) && ValidActs(m, acts) && IsExitOf(m, acts, key, exit)
          && Latest(acts, key).Some? && acts[Latest(acts, key).value].EnterAct?
          && acts[Latest(acts, key).value].enter == enter
        ensures ReportsLatestOrNothing(cfg, bitmap, m, acts, key, exit)
      {
        ExitAfterAcceptedEnter(cfg, bitmap, m, acts, key, exit);
      }
    } else {
      var id: s32 := if IdOf(enter.id) == 0 then 1 else 0;
      var acts := [EnterAct(0, key, enter, 0)];
      StaleEntryIsReported(cfg, bitmap, key, enter, id);
      assert Latest(acts, key) == Some(0);
    }
  }

  // ----- handlers split into single reads and writes -----

  // Nothing is known about any thread, and the map holds whatever was left in it.
  ghost predicate AnyMapInit(f: Fine) {
    && f.shared.status == map[] && f.shared.last == map[] && f.shared.calls == []
    && |f.cpus| == |f.shared.emitted|
    && forall c :: 0 <= c < |f.cpus| ==> f.cpus[c].pc.Idle? && f.cpus[c].inMap.stackSize == 0
  }

  ghost predicate AnyMapRun(cfg: Config, bitmap: Bitmap, run: seq<Fine>) {
    && run != [] && AnyMapInit(run[0])
    && forall i :: 0 <= i < |run| - 1 ==> FineNext(cfg, bitmap, run[i], run[i + 1])
  }

  // The thread is inside its latest accepted call, and its entry, if any, is that call's.
  ghost predicate KeyHealed(cfg: Config, s: State, k: u64) {
    && (HasCall(s, k) ==>
          && var n := s.status[k].call.value;
             && n < |s.calls| && s.calls[n].key == k
             && (forall m :: n < m < |s.calls| ==> s.calls[m].key != k)
             && k in s.last && s.calls[n].tsNs <= s.last[k]
             && (k in s.inflight ==> RecordMatches(cfg, s.inflight[k], s.calls[n])))
    && (k in s.status && s.status[k].Outside? ==> k !in s.inflight)
  }

  ghost predicate HealInv(cfg: Config, s: State) {
    forall k: u64 :: KeyHealed(cfg, s, k)
  }

  lemma AcceptedHeals(cfg: Config, s: State, call: Call, r: Record)
    requires HealInv(cfg, s) && MayEnter(s, call.key) && RecordMatches(cfg, r, call)
    ensures HealInv(cfg, AfterAccepted(s, call, r))
  {
    hide RecordMatches;
    var s' := AfterAccepted(s, call, r);
    forall k: u64
      ensures KeyHealed(cfg, s', k)
    {
      assert KeyHealed(cfg, s, k);
    }
  }

  lemma MovedHeals(cfg: Config, s: State, key: u64, st: Status)
    requires HealInv(cfg, s) && NoCall(st) && (st.Outside? ==> key !in s.inflight)
    ensures HealInv(cfg, Moved(s, key, st))
  {
    hide RecordMatches;
    forall k: u64
      ensures KeyHealed(cfg, Moved(s, key, st), k)
    {
      assert KeyHealed(cfg, s, k);
    }
  }

  lemma OutputHeals(cfg: Config, s: State, s': State)
    requires HealInv(cfg, s) && s' == s.(emitted := s'.emitted)
    ensures HealInv(cfg, s')
  {
    hide RecordMatches;
    forall k: u64
      ensures KeyHealed(cfg, s', k)
    {
      assert KeyHealed(cfg, s, k);
    }
  }

  lemma DeleteHeals(cfg: Config, s: State, key: u64, now: u64, s': State)
    requires HealInv(cfg, s)
    requires s'.inflight == s.inflight - {key} && s'.status == s.status[key := Outside]
    requires s'.last == s.last[key := now] && s'.calls == s.calls
    ensures HealInv(cfg, s')
  {
    hide RecordMatches;
    forall k: u64
      ensures KeyHealed(cfg, s', k)
    {
      assert KeyHealed(cfg, s, k);
    }
  }

  lemma FineStepHeals(cfg: Config, bitmap: Bitmap, f: Fine, a: FineAction, f': Fine)
    requires CpusInv(cfg, f) && HealInv(cfg, f.shared) && FineStep(cfg, bitmap, f, a, f')
    ensures CpusInv(cfg, f') && HealInv(cfg, f'.shared)
  {
    hide CpusInv, HealInv, Accepts, RecordMatches, WriteRecord, WriteEvent, Abs, AfterAccepted;
    FineStepKeepsCpus(cfg, bitmap, f, a, f');
    match a
    case BeginEnter(c, key, enter) =>
      if !Accepts(cfg, bitmap, key, enter) {
        MovedHeals(cfg, f.shared, key, Inside(None));
      }
    case BeginExit(c, key, ret) =>
      if key !in f.shared.inflight {
        MovedHeals(cfg, f.shared, key, Outside);
      }
    case EnterStep(c, time) =>
      if f.cpus[c].pc.at >= UPDATE {
        EnterUpdateEffect(cfg, f, c, time, f');
        AcceptedHeals(cfg, f.shared, Call(f.cpus[c].pc.key, f.cpus[c].pc.ts, f.cpus[c].pc.enter), f.cpus[c].inMap);
      }
    case ExitStep(c, time) =>
      if f.cpus[c].pc.at == OUTPUT {
        OutputHeals(cfg, f.shared, f'.shared);
      } else if f.cpus[c].pc.at > OUTPUT {
        DeleteHeals(cfg, f.shared, f.cpus[c].pc.key, f.cpus[c].pc.now, f'.shared);
      }
  }

  lemma {:induction false} AnyMapRunHeals(cfg: Config, bitmap: Bitmap, run: seq<Fine>, i: nat)
    requires AnyMapRun(cfg, bitmap, run) && i < |run|
    ensures CpusInv(cfg, run[i]) && HealInv(cfg, run[i].shared)
  {
    if i > 0 {
      hide CpusInv, HealInv;
      AnyMapRunHeals(cfg, bitmap, run, i - 1);
      assert FineNext(cfg, bitmap, run[i - 1], run[i - 1 + 1]);
      var a :| FineStep(cfg, bitmap, run[i - 1], a, run[i]);
      FineStepHeals(cfg, bitmap, run[i - 1], a, run[i]);
    } else {
      hide RecordSoFar, EventSoFar, RecordMatches;
    }
  }

  // Whatever the map held at the start and however the CPUs interleave their single writes: the event a CPU
  // sends for a thread whose latest enter was accepted reports that enter, whole, with the exit's own
  // result and time.
  lemma FineSelfHealing(cfg: Config, bitmap: Bitmap, run: seq<Fine>, i: nat, c: nat, time: u64)
    requires AnyMapRun(cfg, bitmap, run) && i < |run| - 1
    requires ExitStepStep(cfg, run[i], c, time, run[i + 1]) && run[i].cpus[c].pc.at == OUTPUT
    requires HasCall(run[i].shared, run[i].cpus[c].pc.key)
    ensures
      var (s, pc) := (run[i].shared, run[i].cpus[c].pc);
      var (before, sent) := (s.emitted[c], run[i + 1].shared.emitted[c]);
      var n := s.status[pc.key].call.value;
      && |sent| == |before| + 1 && sent[..|before|] == before
      && var e := sent[|before|].event;
         && n < |s.calls| && s.calls[n].key == pc.key && (forall m :: n < m < |s.calls| ==> s.calls[m].key != pc.key)
         && EventMatches(cfg, e, s.calls[n]) && e.ret == pc.ret && EndOf(e) == pc.now
  {
    hide CpusInv;
    AnyMapRunHeals(cfg, bitmap, run, i);
    ExitOutputEffect(cfg, run[i], c, time, run[i + 1]);
    assert KeyHealed(cfg, run[i].shared, run[i].cpus[c].pc.key);
  }
}
