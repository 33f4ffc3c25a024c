/**
 The handlers split into their single reads and writes, with the CPUs interleaving freely.

 A handler is not preempted on its own CPU, and a thread runs on one CPU at a time; apart from that any
 CPU may take the next step. Scratch records are per CPU and reused by every thread that runs there.
 */
module FineGrained {
  import opened Words
  import opened SyscallBitmap
  import opened Records
  import opened Pairing

  // Where a CPU is in a handler: `at` counts the writes done, `ts` and `now` are its clock reading.
  datatype Pc =
    | Idle
    | Entering(key: u64, enter: Enter, ts: u64, at: nat)
    | Exiting(key: u64, ret: s64, now: u64, at: nat)

  datatype Cpu = Cpu(inMap: Record, eventMap: Event, pc: Pc)

  datatype Fine = Fine(shared: State, cpus: seq<Cpu>, clock: u64)

  const UPDATE := 11
  const OUTPUT := 78
  const DELETE := 79

  // Write number `at` of trace_enter.
  function WriteRecord(cfg: Config, r: Record, at: nat, key: u64, enter: Enter, ts: u64): Record
    requires ValidEnter(enter) && at < UPDATE
  {
    if at == 0 then r.(tsNs := ts)
    else if at == 1 then r.(pid := PidOf(key))
    else if at == 2 then r.(tid := TidOf(key))
    else if at == 3 then r.(syscallId := IdOf(enter.id))
    else if at < 10 then r.(args := r.args[at - 4 := enter.args[at - 4]])
    else if cfg.printStack then
      r.(userStack := enter.frames + r.userStack[|enter.frames|..], stackSize := enter.stackRet)
    else r
  }

  // Write number `at` of trace_exit; number 0 is the reading of the clock.
  function WriteEvent(cfg: Config, e: Event, at: nat, r: Record, ret: s64, now: u64): Event
    requires at < OUTPUT
  {
    if at == 0 then e
    else if at == 1 then e.(tsNs := r.tsNs)
    else if at == 2 then e.(durationNs := Sub64(now, r.tsNs))
    else if at == 3 then e.(pid := r.pid)
    else if at == 4 then e.(tid := r.tid)
    else if at == 5 then e.(syscallId := r.syscallId)
    else if at == 6 then e.(ret := ret)
    else if at == 7 then e.(stackSize := r.stackSize)
    else if at < 14 then e.(args := e.args[at - 8 := r.args[at - 8]])
    else if cfg.printStack then e.(userStack := e.userStack[at - 14 := r.userStack[at - 14]])
    else e
  }

  datatype FineAction =
    | BeginEnter(cpu: nat, key: u64, enter: Enter)
    | EnterStep(cpu: nat, time: u64)
    | BeginExit(cpu: nat, key: u64, ret: s64)
    | ExitStep(cpu: nat, time: u64)

  function BusyKey(c: Cpu): Option<u64> {
    match c.pc
    case Idle => None
    case Entering(key, _, _, _) => Some(key)
    case Exiting(key, _, _, _) => Some(key)
  }

  // The thread is in no handler on any CPU.
  predicate NotRunning(cpus: seq<Cpu>, key: u64) {
    forall c :: 0 <= c < |cpus| ==> BusyKey(cpus[c]) != Some(key)
  }

  function WithCpu(f: Fine, c: nat, cpu: Cpu, clock: u64): Fine
    requires c < |f.cpus|
  {
    f.(cpus := f.cpus[c := cpu], clock := clock)
  }

  predicate MayBegin(f: Fine, c: nat, key: u64) {
    c < |f.cpus| && f.cpus[c].pc.Idle? && NotRunning(f.cpus, key)
  }

  predicate BeginEnterStep(cfg: Config, bitmap: Bitmap, f: Fine, c: nat, key: u64, enter: Enter, f': Fine) {
    && MayBegin(f, c, key) && MayEnter(f.shared, key) && ValidEnter(enter)
    && if Accepts(cfg, bitmap, key, enter) then
         f' == WithCpu(f, c, f.cpus[c].(pc := Entering(key, enter, 0, 0)), f.clock)
       else
         f' == f.(shared := AfterRejected(f.shared, key))
  }

  predicate EnterStepStep(cfg: Config, f: Fine, c: nat, time: u64, f': Fine) {
    && c < |f.cpus| && f.cpus[c].pc.Entering?
    && var cpu := f.cpus[c];
       var Entering(key, enter, ts, at) := cpu.pc;
       if at == 0 then
         && f.clock <= time && ValidEnter(enter)
         && f' == WithCpu(f, c, cpu.(inMap := WriteRecord(cfg, cpu.inMap, 0, key, enter, time),
                                     pc := Entering(key, enter, time, 1)), time)
       else if at < UPDATE then
         && ValidEnter(enter)
         && f' == WithCpu(f, c, cpu.(inMap := WriteRecord(cfg, cpu.inMap, at, key, enter, ts),
                                     pc := Entering(key, enter, ts, at + 1)), f.clock)
       else
         f' == WithCpu(f, c, cpu.(pc := Idle), f.clock)
                 .(shared := AfterAccepted(f.shared, Call(key, ts, enter), cpu.inMap))
  }

  predicate BeginExitStep(f: Fine, c: nat, key: u64, ret: s64, f': Fine) {
    && MayBegin(f, c, key) && MayExit(f.shared, key)
    && if key in f.shared.inflight then
         f' == WithCpu(f, c, f.cpus[c].(pc := Exiting(key, ret, 0, 0)), f.clock)
       else
         f' == f.(shared := AfterMiss(f.shared, key))
  }

  // The exit handler reads the map's value in place, through the pointer its lookup returned.
  predicate ExitStepStep(cfg: Config, f: Fine, c: nat, time: u64, f': Fine) {
    && c < |f.cpus| && c < |f.shared.emitted| && f.cpus[c].pc.Exiting?
    && var cpu := f.cpus[c];
       var Exiting(key, ret, now, at) := cpu.pc;
       && key in f.shared.inflight
       && if at == 0 then
            && f.clock <= time
            && f' == WithCpu(f, c, cpu.(pc := Exiting(key, ret, time, 1)), time)
          else if at < OUTPUT then
            f' == WithCpu(f, c, cpu.(eventMap := WriteEvent(cfg, cpu.eventMap, at, f.shared.inflight[key], ret, now),
                                     pc := Exiting(key, ret, now, at + 1)), f.clock)
          else if at == OUTPUT then
            var sent := f.shared.emitted[c] + [Emission(cpu.eventMap, CurrentCall(f.shared, key))];
            f' == WithCpu(f, c, cpu.(pc := Exiting(key, ret, now, DELETE)), f.clock)
                    .(shared := f.shared.(emitted := f.shared.emitted[c := sent]))
          else
            f' == WithCpu(f, c, cpu.(pc := Idle), f.clock)
                    .(shared := f.shared.(inflight := f.shared.inflight - {key},
                                          status := f.shared.status[key := Outside],
                                          last := f.shared.last[key := now],
                                          ended := f.shared.ended[CurrentCall(f.shared, key) := Return(ret, now)]))
  }

  predicate FineStep(cfg: Config, bitmap: Bitmap, f: Fine, a: FineAction, f': Fine) {
    match a
    case BeginEnter(c, key, enter) => BeginEnterStep(cfg, bitmap, f, c, key, enter, f')
    case EnterStep(c, time) => EnterStepStep(cfg, f, c, time, f')
    case BeginExit(c, key, ret) => BeginExitStep(f, c, key, ret, f')
    case ExitStep(c, time) => ExitStepStep(cfg, f, c, time, f')
  }

  // Maps start out zeroed, no handler is running.
  predicate FineInit(f: Fine) {
    && Init(f.shared) && |f.cpus| == |f.shared.emitted|
    && forall c :: 0 <= c < |f.cpus| ==> f.cpus[c].pc.Idle? && f.cpus[c].inMap.stackSize == 0
  }

  ghost predicate FineNext(cfg: Config, bitmap: Bitmap, f: Fine, f': Fine) {
    exists a :: FineStep(cfg, bitmap, f, a, f')
  }

  ghost predicate FineRun(cfg: Config, bitmap: Bitmap, run: seq<Fine>) {
    && run != [] && FineInit(run[0])
    && forall i :: 0 <= i < |run| - 1 ==> FineNext(cfg, bitmap, run[i], run[i + 1])
  }

  // ----- the atomic system a fine state stands for -----

  predicate AtDelete(cpu: Cpu) {
    cpu.pc.Exiting? && cpu.pc.at == DELETE
  }

  // An exit takes effect when it deletes: until then its event does not show.
  function Visible(cpu: Cpu, sent: seq<Emission>): seq<Emission> {
    if AtDelete(cpu) && sent != [] then sent[..|sent| - 1] else sent
  }

  function Abs(f: Fine): State {
    if |f.cpus| == |f.shared.emitted| then
      f.shared.(emitted := seq(|f.cpus|, c requires 0 <= c < |f.cpus| => Visible(f.cpus[c], f.shared.emitted[c])))
    else f.shared
  }

  // ----- what is already right in a half-written scratch record -----

  predicate RecordSoFar(cfg: Config, r: Record, at: nat, key: u64, enter: Enter, ts: u64) {
    && (at > 0 ==> r.tsNs == ts)
    && (at > 1 ==> r.pid == PidOf(key))
    && (at > 2 ==> r.tid == TidOf(key))
    && (at > 3 ==> r.syscallId == IdOf(enter.id))
    && (forall i :: 0 <= i < 6 && i + 4 < at ==> r.args[i] == enter.args[i])
    && (at > 10 ==> StackMatches(cfg, r.userStack, r.stackSize, enter))
  }

  predicate EventSoFar(cfg: Config, e: Event, at: nat, r: Record, ret: s64, now: u64) {
    && (at > 1 ==> e.tsNs == r.tsNs)
    && (at > 2 ==> e.durationNs == Sub64(now, r.tsNs))
    && (at > 3 ==> e.pid == r.pid)
    && (at > 4 ==> e.tid == r.tid)
    && (at > 5 ==> e.syscallId == r.syscallId)
    && (at > 6 ==> e.ret == ret)
    && (at > 7 ==> e.stackSize == r.stackSize)
    && (forall i :: 0 <= i < 6 && i + 8 < at ==> e.args[i] == r.args[i])
    && (cfg.printStack ==> forall i :: 0 <= i < 64 && i + 14 < at ==> e.userStack[i] == r.userStack[i])
  }

  lemma WriteRecordAdvances(cfg: Config, r: Record, at: nat, key: u64, enter: Enter, ts: u64)
    requires ValidEnter(enter) && at < UPDATE && RecordSoFar(cfg, r, at, key, enter, ts)
    requires !cfg.printStack ==> r.stackSize == 0
    ensures RecordSoFar(cfg, WriteRecord(cfg, r, at, key, enter, ts), at + 1, key, enter, ts)
    ensures !cfg.printStack ==> WriteRecord(cfg, r, at, key, enter, ts).stackSize == 0
  {
  }

  lemma WriteEventAdvances(cfg: Config, e: Event, at: nat, r: Record, ret: s64, now: u64)
    requires at < OUTPUT && EventSoFar(cfg, e, at, r, ret, now)
    ensures EventSoFar(cfg, WriteEvent(cfg, e, at, r, ret, now), at + 1, r, ret, now)
  {
  }

  lemma RecordIsWhole(cfg: Config, r: Record, key: u64, enter: Enter, ts: u64)
    requires RecordSoFar(cfg, r, UPDATE, key, enter, ts)
    ensures RecordMatches(cfg, r, Call(key, ts, enter))
  {
    assert r.args == enter.args;
    PartsIdentify(key, enter, ts);
    hide Identifies, PidOf, TidOf, IdOf;
  }

  lemma EventIsWhole(cfg: Config, e: Event, at: nat, r: Record, ret: s64, now: u64)
    requires at >= OUTPUT && EventSoFar(cfg, e, at, r, ret, now)
    ensures EventFor(cfg, e, r, ret, now)
  {
    assert e.args == r.args;
    assert cfg.printStack ==> e.userStack == r.userStack;
  }

  // ----- one write after another, from any scratch record -----

  // The scratch record after the first n writes of trace_enter.
  function Written(cfg: Config, scratch: Record, n: nat, key: u64, enter: Enter, ts: u64): Record
    requires ValidEnter(enter) && n <= UPDATE
  {
    if n == 0 then scratch else WriteRecord(cfg, Written(cfg, scratch, n - 1, key, enter, ts), n - 1, key, enter, ts)
  }

  // The scratch event after the first n writes of trace_exit.
  function WrittenEvent(cfg: Config, scratch: Event, n: nat, r: Record, ret: s64, now: u64): Event
    requires n <= OUTPUT
  {
    if n == 0 then scratch else WriteEvent(cfg, WrittenEvent(cfg, scratch, n - 1, r, ret, now), n - 1, r, ret, now)
  }

  lemma {:induction false} WrittenSoFar(cfg: Config, scratch: Record, n: nat, key: u64, enter: Enter, ts: u64)
    requires ValidEnter(enter) && n < UPDATE
    ensures
      var r := Written(cfg, scratch, n, key, enter, ts);
      && RecordSoFar(cfg, r, n, key, enter, ts)
      && r.userStack == scratch.userStack && r.stackSize == scratch.stackSize
  {
    if n > 0 {
      WrittenSoFar(cfg, scratch, n - 1, key, enter, ts);
    }
  }

  // The single writes add up to what the handler leaves behind.
  lemma WritesAreFilled(cfg: Config, scratch: Record, key: u64, enter: Enter, now: u64)
    requires ValidEnter(enter)
    ensures Written(cfg, scratch, UPDATE, key, enter, now) == Filled(cfg, scratch, key, enter, now)
  {
    WrittenSoFar(cfg, scratch, UPDATE - 1, key, enter, now);
    assert Written(cfg, scratch, UPDATE - 1, key, enter, now).args == enter.args;
  }

  lemma {:induction false} WrittenEventSoFar(cfg: Config, scratch: Event, n: nat, r: Record, ret: s64, now: u64)
    requires n <= OUTPUT
    ensures
      var e := WrittenEvent(cfg, scratch, n, r, ret, now);
      EventSoFar(cfg, e, n, r, ret, now) && (!cfg.printStack ==> e.userStack == scratch.userStack)
  {
    if n > 0 {
      WrittenEventSoFar(cfg, scratch, n - 1, r, ret, now);
      WriteEventAdvances(cfg, WrittenEvent(cfg, scratch, n - 1, r, ret, now), n - 1, r, ret, now);
    }
  }

  lemma WritesAreReported(cfg: Config, scratch: Event, r: Record, ret: s64, now: u64)
    ensures WrittenEvent(cfg, scratch, OUTPUT, r, ret, now) == Reported(cfg, scratch, r, ret, now)
  {
    var e := WrittenEvent(cfg, scratch, OUTPUT, r, ret, now);
    WrittenEventSoFar(cfg, scratch, OUTPUT, r, ret, now);
    EventIsWhole(cfg, e, OUTPUT, r, ret, now);
  }

  // ----- the invariant -----

  predicate CpuInv(cfg: Config, s: State, clock: u64, c: nat, cpu: Cpu) {
    && (!cfg.printStack ==> cpu.inMap.stackSize == 0)
    && match cpu.pc
       case Idle => true
       case Entering(key, enter, ts, at) =>
         && ValidEnter(enter) && at <= UPDATE && MayEnter(s, key)
         && RecordSoFar(cfg, cpu.inMap, at, key, enter, ts)
         && (at > 0 ==> ClockOk(s, key, ts) && ts <= clock)
       case Exiting(key, ret, now, at) =>
         && at <= DELETE && key in s.inflight && MayExit(s, key)
         && EventSoFar(cfg, cpu.eventMap, at, s.inflight[key], ret, now)
         && (at > 0 ==> ClockOk(s, key, now) && now <= clock)
         && (at == DELETE ==>
               && c < |s.emitted| && s.emitted[c] != []
               && s.emitted[c][|s.emitted[c]| - 1].event == cpu.eventMap
               && (HasCall(s, key) ==> s.emitted[c][|s.emitted[c]| - 1].call == CurrentCall(s, key)))
  }

  // What holds of the CPUs whatever the map held at the start.
  ghost predicate CpusInv(cfg: Config, f: Fine) {
    && |f.cpus| == |f.shared.emitted|
    && (forall c :: 0 <= c < |f.cpus| ==> CpuInv(cfg, f.shared, f.clock, c, f.cpus[c]))
    && (forall c, d :: 0 <= c < d < |f.cpus| && BusyKey(f.cpus[c]).Some? ==> BusyKey(f.cpus[c]) != BusyKey(f.cpus[d]))
    && (forall k :: k in f.shared.last ==> f.shared.last[k] <= f.clock)
  }

  ghost predicate FineInv(cfg: Config, f: Fine) {
    Inv(cfg, Abs(f)) && CpusInv(cfg, f)
  }

  // Two shared states that a CPU working for this thread cannot tell apart.
  predicate Agree(s: State, s': State, key: u64) {
    && (key in s.status <==> key in s'.status) && (key in s.status ==> s.status[key] == s'.status[key])
    && (key in s.inflight <==> key in s'.inflight) && (key in s.inflight ==> s.inflight[key] == s'.inflight[key])
    && (key in s.last <==> key in s'.last) && (key in s.last ==> s.last[key] == s'.last[key])
  }

  lemma CpuInvIsStable(cfg: Config, s: State, s': State, clock: u64, clock': u64, c: nat, cpu: Cpu)
    requires CpuInv(cfg, s, clock, c, cpu) && clock <= clock'
    requires BusyKey(cpu).Some? ==> Agree(s, s', BusyKey(cpu).value)
    requires c < |s.emitted| && c < |s'.emitted| && s.emitted[c] == s'.emitted[c]
    ensures CpuInv(cfg, s', clock', c, cpu)
  {
    hide RecordSoFar, EventSoFar;
  }

  // A step that changes one CPU and, for one thread, the shared state.
  lemma StepKeepsCpus(cfg: Config, f: Fine, f': Fine, c: nat, key: u64)
    requires CpusInv(cfg, f) && c < |f.cpus| == |f'.cpus| == |f'.shared.emitted|
    requires f.clock <= f'.clock
    requires forall d :: 0 <= d < |f.cpus| && d != c ==>
      f'.cpus[d] == f.cpus[d] && f'.shared.emitted[d] == f.shared.emitted[d] && BusyKey(f.cpus[d]) != Some(key)
    requires forall k :: k != key ==> Agree(f.shared, f'.shared, k)
    requires CpuInv(cfg, f'.shared, f'.clock, c, f'.cpus[c])
    requires BusyKey(f'.cpus[c]) in {None, Some(key)}
    requires forall k :: k in f'.shared.last ==> f'.shared.last[k] <= f'.clock
    ensures CpusInv(cfg, f')
  {
    hide CpuInv, Agree;
    forall d | 0 <= d < |f'.cpus|
      ensures CpuInv(cfg, f'.shared, f'.clock, d, f'.cpus[d])
    {
      if d != c {
        CpuInvIsStable(cfg, f.shared, f'.shared, f.clock, f'.clock, d, f.cpus[d]);
      }
    }
  }

  lemma AgreeIsReflexive(s: State, s': State)
    requires s'.status == s.status && s'.inflight == s.inflight && s'.last == s.last
    ensures forall k :: Agree(s, s', k)
  {
  }

  // Steps that touch only their own CPU are invisible.
  lemma OwnStep(cfg: Config, f: Fine, c: nat, cpu: Cpu, clock: u64, key: u64)
    requires CpusInv(cfg, f) && c < |f.cpus| && f.clock <= clock
    requires !AtDelete(f.cpus[c]) && !AtDelete(cpu) && BusyKey(cpu) == Some(key)
    requires CpuInv(cfg, f.shared, clock, c, cpu)
    requires forall d :: 0 <= d < |f.cpus| && d != c ==> BusyKey(f.cpus[d]) != Some(key)
    ensures CpusInv(cfg, WithCpu(f, c, cpu, clock))
    ensures Abs(WithCpu(f, c, cpu, clock)) == Abs(f)
  {
    hide CpuInv;
    assert Abs(WithCpu(f, c, cpu, clock)) == Abs(f);
    AgreeIsReflexive(f.shared, f.shared);
    StepKeepsCpus(cfg, f, WithCpu(f, c, cpu, clock), c, key);
  }

  lemma OthersBusyElsewhere(cfg: Config, f: Fine, c: nat, key: u64)
    requires CpusInv(cfg, f) && c < |f.cpus|
    requires BusyKey(f.cpus[c]) == Some(key) || NotRunning(f.cpus, key)
    ensures forall d :: 0 <= d < |f.cpus| && d != c ==> BusyKey(f.cpus[d]) != Some(key)
  {
    hide CpuInv;
  }

  lemma CpuInvOf(cfg: Config, f: Fine, c: nat)
    requires CpusInv(cfg, f) && c < |f.cpus|
    ensures |f.cpus| == |f.shared.emitted| && CpuInv(cfg, f.shared, f.clock, c, f.cpus[c])
    ensures forall k :: k in f.shared.last ==> f.shared.last[k] <= f.clock
    ensures forall key :: ClockOk(f.shared, key, f.clock)
  {
    hide CpuInv;
  }

  // ----- what each fine step does: to the CPUs, and to the system they stand for -----

  // An idle CPU decides at once: its thread moves to where it has no call.
  lemma MoveIsAtomic(cfg: Config, f: Fine, c: nat, key: u64, st: Status)
    requires CpusInv(cfg, f) && MayBegin(f, c, key) && NoCall(st)
    ensures CpusInv(cfg, f.(shared := Moved(f.shared, key, st)))
    ensures Abs(f.(shared := Moved(f.shared, key, st))) == Moved(Abs(f), key, st)
  {
    hide RecordSoFar, EventSoFar;
    var f' := f.(shared := Moved(f.shared, key, st));
    CpuInvOf(cfg, f, c);
    assert Abs(f') == Moved(Abs(f), key, st);
    OthersBusyElsewhere(cfg, f, c, key);
    hide Abs, CpusInv;
    StepKeepsCpus(cfg, f, f', c, key);
  }

  // A handler that found nothing to do has moved its thread; one that did shows nothing yet.
  lemma BeginEnterEffect(cfg: Config, bitmap: Bitmap, f: Fine, c: nat, key: u64, enter: Enter, f': Fine)
    requires CpusInv(cfg, f) && BeginEnterStep(cfg, bitmap, f, c, key, enter, f')
    ensures CpusInv(cfg, f')
    ensures Abs(f') == if Accepts(cfg, bitmap, key, enter) then Abs(f) else AfterRejected(Abs(f), key)
  {
    hide Abs, CpusInv, Accepts;
    CpuInvOf(cfg, f, c);
    if Accepts(cfg, bitmap, key, enter) {
      OthersBusyElsewhere(cfg, f, c, key);
      OwnStep(cfg, f, c, f.cpus[c].(pc := Entering(key, enter, 0, 0)), f.clock, key);
    } else {
      MoveIsAtomic(cfg, f, c, key, Inside(None));
    }
  }

  lemma BeginExitEffect(cfg: Config, f: Fine, c: nat, key: u64, ret: s64, f': Fine)
    requires CpusInv(cfg, f) && BeginExitStep(f, c, key, ret, f')
    ensures CpusInv(cfg, f')
    ensures Abs(f') == if key in f.shared.inflight then Abs(f) else AfterMiss(Abs(f), key)
  {
    hide Abs, CpusInv;
    CpuInvOf(cfg, f, c);
    if key in f.shared.inflight {
      OthersBusyElsewhere(cfg, f, c, key);
      OwnStep(cfg, f, c, f.cpus[c].(pc := Exiting(key, ret, 0, 0)), f.clock, key);
    } else {
      MoveIsAtomic(cfg, f, c, key, Outside);
    }
  }

  lemma EnterWriteEffect(cfg: Config, f: Fine, c: nat, time: u64, f': Fine)
    requires CpusInv(cfg, f) && EnterStepStep(cfg, f, c, time, f') && f.cpus[c].pc.at < UPDATE
    ensures CpusInv(cfg, f') && f'.shared == f.shared && Abs(f') == Abs(f)
  {
    hide CpusInv, Abs, RecordSoFar, EventSoFar, WriteRecord;
    CpuInvOf(cfg, f, c);
    var cpu := f.cpus[c];
    var Entering(key, enter, ts, at) := cpu.pc;
    OthersBusyElsewhere(cfg, f, c, key);
    var t := if at == 0 then time else ts;
    WriteRecordAdvances(cfg, cpu.inMap, at, key, enter, t);
    var cpu' := cpu.(inMap := WriteRecord(cfg, cpu.inMap, at, key, enter, t), pc := Entering(key, enter, t, at + 1));
    OwnStep(cfg, f, c, cpu', if at == 0 then time else f.clock, key);
  }

  lemma AcceptedAgrees(s: State, call: Call, r: Record)
    ensures forall k :: k != call.key ==> Agree(s, AfterAccepted(s, call, r), k)
  {
  }

  // What the enter handler stores is a record of its own call, whole.
  lemma EnterUpdateEffect(cfg: Config, f: Fine, c: nat, time: u64, f': Fine)
    requires CpusInv(cfg, f) && EnterStepStep(cfg, f, c, time, f') && f.cpus[c].pc.at >= UPDATE
    ensures
      var cpu := f.cpus[c];
      var call := Call(cpu.pc.key, cpu.pc.ts, cpu.pc.enter);
      && CpusInv(cfg, f')
      && MayEnter(f.shared, call.key) && ClockOk(f.shared, call.key, call.tsNs) && RecordMatches(cfg, cpu.inMap, call)
      && f'.shared == AfterAccepted(f.shared, call, cpu.inMap)
      && Abs(f') == AfterAccepted(Abs(f), call, cpu.inMap)
  {
    hide CpusInv, EventSoFar, RecordMatches;
    CpuInvOf(cfg, f, c);
    var cpu := f.cpus[c];
    var Entering(key, enter, ts, at) := cpu.pc;
    var call := Call(key, ts, enter);
    RecordIsWhole(cfg, cpu.inMap, key, enter, ts);
    assert Abs(f') == AfterAccepted(Abs(f), call, cpu.inMap);
    OthersBusyElsewhere(cfg, f, c, key);
    AcceptedAgrees(f.shared, call, cpu.inMap);
    hide Abs, RecordSoFar, Agree, Store;
    StepKeepsCpus(cfg, f, f', c, key);
  }

  lemma ExitWriteEffect(cfg: Config, f: Fine, c: nat, time: u64, f': Fine)
    requires CpusInv(cfg, f) && ExitStepStep(cfg, f, c, time, f') && f.cpus[c].pc.at < OUTPUT
    ensures CpusInv(cfg, f') && f'.shared == f.shared && Abs(f') == Abs(f)
  {
    hide CpusInv, Abs, RecordSoFar, WriteEvent;
    CpuInvOf(cfg, f, c);
    var cpu := f.cpus[c];
    var Exiting(key, ret, now, at) := cpu.pc;
    OthersBusyElsewhere(cfg, f, c, key);
    if at == 0 {
      OwnStep(cfg, f, c, cpu.(pc := Exiting(key, ret, time, 1)), time, key);
    } else {
      var r := f.shared.inflight[key];
      WriteEventAdvances(cfg, cpu.eventMap, at, r, ret, now);
      hide EventSoFar;
      var cpu' := cpu.(eventMap := WriteEvent(cfg, cpu.eventMap, at, r, ret, now), pc := Exiting(key, ret, now, at + 1));
      OwnStep(cfg, f, c, cpu', f.clock, key);
    }
  }

  lemma OutputChangesNothing(cfg: Config, e: Event, r: Record, ret: s64, now: u64)
    requires EventSoFar(cfg, e, OUTPUT, r, ret, now)
    ensures EventSoFar(cfg, e, DELETE, r, ret, now)
  {
  }

  // What the exit handler sends is the event for the entry it found, whole.
  lemma ExitOutputEffect(cfg: Config, f: Fine, c: nat, time: u64, f': Fine)
    requires CpusInv(cfg, f) && ExitStepStep(cfg, f, c, time, f') && f.cpus[c].pc.at == OUTPUT
    ensures
      var (pc, e) := (f.cpus[c].pc, f.cpus[c].eventMap);
      && CpusInv(cfg, f') && Abs(f') == Abs(f)
      && ClockOk(f.shared, pc.key, pc.now)
      && EventFor(cfg, e, f.shared.inflight[pc.key], pc.ret, pc.now)
      && f'.shared.emitted == f.shared.emitted[c := f.shared.emitted[c] + [Emission(e, CurrentCall(f.shared, pc.key))]]
      && f'.shared == f.shared.(emitted := f'.shared.emitted)
  {
    hide CpusInv, RecordSoFar, EventSoFar;
    CpuInvOf(cfg, f, c);
    var cpu := f.cpus[c];
    var Exiting(key, ret, now, at) := cpu.pc;
    OthersBusyElsewhere(cfg, f, c, key);
    assert Abs(f') == Abs(f);
    AgreeIsReflexive(f.shared, f'.shared);
    EventIsWhole(cfg, cpu.eventMap, at, f.shared.inflight[key], ret, now);
    OutputChangesNothing(cfg, cpu.eventMap, f.shared.inflight[key], ret, now);
    assert CpuInv(cfg, f'.shared, f'.clock, c, f'.cpus[c]);
    hide Abs, Agree, CpuInv;
    StepKeepsCpus(cfg, f, f', c, key);
  }

  lemma DeletedAgrees(s: State, key: u64, now: u64, s': State)
    requires s'.inflight == s.inflight - {key} && s'.status == s.status[key := Outside] && s'.last == s.last[key := now]
    ensures forall k :: k != key ==> Agree(s, s', k)
  {
  }

  // Deleting makes the event sent before it show.
  lemma DeleteIsHit(cfg: Config, f: Fine, c: nat, time: u64, f': Fine)
    requires |f.cpus| == |f.shared.emitted|
    requires ExitStepStep(cfg, f, c, time, f') && f.cpus[c].pc.at == DELETE
    requires CpuInv(cfg, f.shared, f.clock, c, f.cpus[c]) && HasCall(f.shared, f.cpus[c].pc.key)
    ensures
      var pc := f.cpus[c].pc;
      Abs(f') == AfterHit(Abs(f), c, pc.key, pc.ret, pc.now, f.cpus[c].eventMap)
  {
    hide EventSoFar;
    var pc := f.cpus[c].pc;
    var hit := AfterHit(Abs(f), c, pc.key, pc.ret, pc.now, f.cpus[c].eventMap);
    var sent := f.shared.emitted[c];
    assert CurrentCall(Abs(f), pc.key) == CurrentCall(f.shared, pc.key);
    assert sent[..|sent| - 1] + [sent[|sent| - 1]] == sent;
    assert Abs(f').emitted == hit.emitted;
  }

  lemma ExitDeleteEffect(cfg: Config, f: Fine, c: nat, time: u64, f': Fine)
    requires CpusInv(cfg, f) && ExitStepStep(cfg, f, c, time, f') && f.cpus[c].pc.at > OUTPUT
    ensures
      var (pc, e) := (f.cpus[c].pc, f.cpus[c].eventMap);
      && CpusInv(cfg, f')
      && ClockOk(f.shared, pc.key, pc.now) && MayExit(f.shared, pc.key) && c < |Abs(f).emitted|
      && EventFor(cfg, e, f.shared.inflight[pc.key], pc.ret, pc.now)
      && (HasCall(f.shared, pc.key) ==> Abs(f') == AfterHit(Abs(f), c, pc.key, pc.ret, pc.now, e))
  {
    hide CpusInv, RecordSoFar;
    CpuInvOf(cfg, f, c);
    var cpu := f.cpus[c];
    var Exiting(key, ret, now, at) := cpu.pc;
    EventIsWhole(cfg, cpu.eventMap, at, f.shared.inflight[key], ret, now);
    OthersBusyElsewhere(cfg, f, c, key);
    if HasCall(f.shared, key) {
      DeleteIsHit(cfg, f, c, time, f');
    }
    hide EventSoFar, EventFor, Abs;
    DeletedAgrees(f.shared, key, now, f'.shared);
    hide Agree;
    StepKeepsCpus(cfg, f, f', c, key);
  }

  lemma FineStepKeepsCpus(cfg: Config, bitmap: Bitmap, f: Fine, a: FineAction, f': Fine)
    requires CpusInv(cfg, f) && FineStep(cfg, bitmap, f, a, f')
    ensures CpusInv(cfg, f')
  {
    hide CpusInv, BeginEnterStep, BeginExitStep, Abs;
    match a
    case BeginEnter(c, key, enter) => BeginEnterEffect(cfg, bitmap, f, c, key, enter, f');
    case BeginExit(c, key, ret) => BeginExitEffect(cfg, f, c, key, ret, f');
    case EnterStep(c, time) =>
      if f.cpus[c].pc.at < UPDATE {
        EnterWriteEffect(cfg, f, c, time, f');
      } else {
        EnterUpdateEffect(cfg, f, c, time, f');
      }
    case ExitStep(c, time) =>
      if f.cpus[c].pc.at < OUTPUT {
        ExitWriteEffect(cfg, f, c, time, f');
      } else if f.cpus[c].pc.at == OUTPUT {
        ExitOutputEffect(cfg, f, c, time, f');
      } else {
        ExitDeleteEffect(cfg, f, c, time, f');
      }
  }

  // ----- refinement, step by step -----

  lemma ViaStep(cfg: Config, s: State, a: Action, s': State)
    requires Inv(cfg, s) && Step(cfg, s, a, s')
    ensures Next(cfg, s, s') && Inv(cfg, s')
  {
    StepKeepsInv(cfg, s, a, s');
  }

  lemma InFlightHasCall(cfg: Config, f: Fine, key: u64)
    requires Inv(cfg, Abs(f)) && key in f.shared.inflight
    ensures HasCall(f.shared, key)
  {
    assert HasCall(Abs(f), key);
  }

  // Every fine step is one step of the atomic system, or none.
  lemma FineStepRefines(cfg: Config, bitmap: Bitmap, f: Fine, a: FineAction, f': Fine)
    requires FineInv(cfg, f) && FineStep(cfg, bitmap, f, a, f')
    ensures FineInv(cfg, f') && Next(cfg, Abs(f), Abs(f'))
  {
    hide CpusInv, Inv, RecordMatches, EventFor, Accepts, WriteRecord, WriteEvent;
    FineStepKeepsCpus(cfg, bitmap, f, a, f');
    match a
    case BeginEnter(c, key, enter) =>
      BeginEnterEffect(cfg, bitmap, f, c, key, enter, f');
      if !Accepts(cfg, bitmap, key, enter) {
        ViaStep(cfg, Abs(f), RejectedEnter(key), Abs(f'));
      }
    case BeginExit(c, key, ret) =>
      BeginExitEffect(cfg, f, c, key, ret, f');
      if key !in f.shared.inflight {
        ViaStep(cfg, Abs(f), ExitMiss(key), Abs(f'));
      }
    case EnterStep(c, time) =>
      if f.cpus[c].pc.at < UPDATE {
        EnterWriteEffect(cfg, f, c, time, f');
      } else {
        EnterUpdateEffect(cfg, f, c, time, f');
        var pc := f.cpus[c].pc;
        ViaStep(cfg, Abs(f), AcceptedEnter(Call(pc.key, pc.ts, pc.enter), f.cpus[c].inMap), Abs(f'));
      }
    case ExitStep(c, time) =>
      if f.cpus[c].pc.at < OUTPUT {
        ExitWriteEffect(cfg, f, c, time, f');
      } else if f.cpus[c].pc.at == OUTPUT {
        ExitOutputEffect(cfg, f, c, time, f');
      } else {
        ExitDeleteEffect(cfg, f, c, time, f');
        var pc := f.cpus[c].pc;
        InFlightHasCall(cfg, f, pc.key);
        ViaStep(cfg, Abs(f), ExitHit(c, pc.key, pc.ret, pc.now, f.cpus[c].eventMap), Abs(f'));
      }
  }

  lemma FineInitInv(cfg: Config, f: Fine)
    requires FineInit(f)
    ensures Abs(f) == f.shared && FineInv(cfg, f)
  {
    assert Abs(f).emitted == f.shared.emitted;
    InitInv(cfg, f.shared);
    hide Inv, RecordSoFar, EventSoFar;
  }

  // ----- whole runs -----

  lemma {:induction false} FineRunKeepsInv(cfg: Config, bitmap: Bitmap, run: seq<Fine>, i: nat)
    requires FineRun(cfg, bitmap, run) && i < |run|
    ensures FineInv(cfg, run[i])
  {
    hide FineInv;
    if i == 0 {
      FineInitInv(cfg, run[0]);
    } else {
      FineRunKeepsInv(cfg, bitmap, run, i - 1);
      assert FineNext(cfg, bitmap, run[i - 1], run[i - 1 + 1]);
      var a :| FineStep(cfg, bitmap, run[i - 1], a, run[i]);
      FineStepRefines(cfg, bitmap, run[i - 1], a, run[i]);
    }
  }

  function AbsRun(run: seq<Fine>): seq<State> {
    seq(|run|, i requires 0 <= i < |run| => Abs(run[i]))
  }

  // Any interleaving of the split handlers is a run of the atomic protocol.
  lemma FineRefinesAtomic(cfg: Config, bitmap: Bitmap, run: seq<Fine>)
    requires FineRun(cfg, bitmap, run)
    ensures Run(cfg, AbsRun(run))
  {
    hide FineInv, Abs, Next;
    FineInitInv(cfg, run[0]);
    forall i | 0 <= i < |run| - 1
      ensures Next(cfg, AbsRun(run)[i], AbsRun(run)[i + 1])
    {
      FineRunKeepsInv(cfg, bitmap, run, i);
      assert FineNext(cfg, bitmap, run[i], run[i + 1]);
      var a :| FineStep(cfg, bitmap, run[i], a, run[i + 1]);
      FineStepRefines(cfg, bitmap, run[i], a, run[i + 1]);
    }
  }

  // An event that was sent shows already, or is the last one of a CPU about to delete.
  lemma SentEvent(cfg: Config, f: Fine, c: nat, j: nat)
    requires CpusInv(cfg, f) && IsEmission(f.shared, c, j)
    ensures
      && c < |f.cpus| &&
      var (e, cpu) := (f.shared.emitted[c][j], f.cpus[c]);
      if IsEmission(Abs(f), c, j) then Abs(f).emitted[c][j] == e
      else
        && AtDelete(cpu) && j == |f.shared.emitted[c]| - 1 && cpu.pc.key in f.shared.inflight
        && e.event == cpu.eventMap && (HasCall(f.shared, cpu.pc.key) ==> e.call == CurrentCall(f.shared, cpu.pc.key))
  {
    CpuInvOf(cfg, f, c);
    hide RecordSoFar, EventSoFar, CpusInv;
  }

  // What a CPU about to delete has sent is the event for its entry.
  lemma PendingEvent(cfg: Config, f: Fine, c: nat)
    requires CpusInv(cfg, f) && c < |f.cpus| && AtDelete(f.cpus[c])
    ensures
      var (pc, e) := (f.cpus[c].pc, f.cpus[c].eventMap);
      && pc.key in f.shared.inflight && ClockOk(f.shared, pc.key, pc.now)
      && EventFor(cfg, e, f.shared.inflight[pc.key], pc.ret, pc.now)
  {
    CpuInvOf(cfg, f, c);
    hide CpusInv, RecordSoFar;
    var (pc, e) := (f.cpus[c].pc, f.cpus[c].eventMap);
    EventIsWhole(cfg, e, pc.at, f.shared.inflight[pc.key], pc.ret, pc.now);
  }

  // Whatever the interleaving, every event ever sent reports one accepted enter, whole: its id, arguments,
  // time, pid, tid and captured frames, with nothing left over from other uses of the scratch records.
  // Its result and its end are those of the exit that ended the call, or that is about to.
  lemma EventsAreWhole(cfg: Config, bitmap: Bitmap, run: seq<Fine>, i: nat, c: nat, j: nat)
    requires FineRun(cfg, bitmap, run) && i < |run|
    requires IsEmission(run[i].shared, c, j)
    ensures
      var s := run[i].shared;
      c < |run[i].cpus| &&
      var (e, cpu) := (s.emitted[c][j], run[i].cpus[c]);
      && e.call < |s.calls| && EventMatches(cfg, e.event, s.calls[e.call])
      && (Reports(cfg, s, e)
          || (AtDelete(cpu) && e.call == CurrentCall(s, cpu.pc.key) && s.calls[e.call].key == cpu.pc.key
              && e.event.ret == cpu.pc.ret && EndOf(e.event) == cpu.pc.now))
  {
    FineRunKeepsInv(cfg, bitmap, run, i);
    var f := run[i];
    SentEvent(cfg, f, c, j);
    hide CpusInv, TableInv, TimeInv, CountInv, EventFor, EventMatches, EndOf;
    if IsEmission(Abs(f), c, j) {
      assert EventInv(cfg, Abs(f));
    } else {
      var (pc, e) := (f.cpus[c].pc, f.cpus[c].eventMap);
      hide EventInv;
      PendingEvent(cfg, f, c);
      InFlightHasCall(cfg, f, pc.key);
      HitReportsCurrentCall(cfg, Abs(f), pc.key, pc.ret, pc.now, e);
    }
  }

  lemma ShownAreDistinct(cfg: Config, s: State, c: nat, j: nat, c': nat, j': nat)
    requires EventInv(cfg, s) && IsEmission(s, c, j) && IsEmission(s, c', j')
    requires s.emitted[c][j].call == s.emitted[c'][j'].call
    ensures c == c' && j == j'
  {
    hide Reports;
  }

  lemma OneCallOneThread(cfg: Config, f: Fine, k: u64, k': u64)
    requires TableInv(cfg, Abs(f)) && HasCall(f.shared, k) && HasCall(f.shared, k')
    requires CurrentCall(f.shared, k) == CurrentCall(f.shared, k')
    ensures k == k'
  {
    hide RecordMatches;
    assert HasCall(Abs(f), k) && HasCall(Abs(f), k');
  }

  // At no time, and on no two CPUs, have two events been sent for one enter.
  lemma EventsAreDistinct(cfg: Config, bitmap: Bitmap, run: seq<Fine>, i: nat, c: nat, j: nat, c': nat, j': nat)
    requires FineRun(cfg, bitmap, run) && i < |run|
    requires IsEmission(run[i].shared, c, j) && IsEmission(run[i].shared, c', j')
    requires run[i].shared.emitted[c][j].call == run[i].shared.emitted[c'][j'].call
    ensures c == c' && j == j'
  {
    FineRunKeepsInv(cfg, bitmap, run, i);
    var f := run[i];
    SentEvent(cfg, f, c, j);
    SentEvent(cfg, f, c', j');
    hide EventInv, TableInv, TimeInv, CountInv, CpuInv, Abs;
    if IsEmission(Abs(f), c, j) && IsEmission(Abs(f), c', j') {
      ShownAreDistinct(cfg, Abs(f), c, j, c', j');
    } else if IsEmission(Abs(f), c, j) {
      InFlightHasCall(cfg, f, f.cpus[c'].pc.key);
      PendingIsNew(cfg, f, c, j, c');
    } else if IsEmission(Abs(f), c', j') {
      InFlightHasCall(cfg, f, f.cpus[c].pc.key);
      PendingIsNew(cfg, f, c', j', c);
    } else {
      InFlightHasCall(cfg, f, f.cpus[c].pc.key);
      InFlightHasCall(cfg, f, f.cpus[c'].pc.key);
      OneCallOneThread(cfg, f, f.cpus[c].pc.key, f.cpus[c'].pc.key);
      assert c < c' || c' < c || c == c';
    }
  }

  // The call a deleting CPU works for has no visible event yet.
  lemma PendingIsNew(cfg: Config, f: Fine, c: nat, j: nat, d: nat)
    requires EventInv(cfg, Abs(f)) && TableInv(cfg, Abs(f))
    requires IsEmission(Abs(f), c, j) && d < |f.cpus| && BusyKey(f.cpus[d]).Some?
    requires HasCall(f.shared, BusyKey(f.cpus[d]).value)
    ensures Abs(f).emitted[c][j].call != CurrentCall(f.shared, BusyKey(f.cpus[d]).value)
  {
    hide EventMatches, RecordMatches;
    assert HasCall(Abs(f), BusyKey(f.cpus[d]).value);
  }
}
