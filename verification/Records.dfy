/** The records the two tracepoint handlers fill in and exchange. */
module Records {
  import opened Words
  import opened SyscallBitmap

  const COMM_LEN := 16
  const MAX_STACK_DEPTH := 64
  const MAX_INFLIGHT := 4096
  const FILTER_PID := 1
  const FILTER_COMM := 2

  type Args = s: seq<u64> | |s| == 6 witness [0, 0, 0, 0, 0, 0]
  type Frames = s: seq<u64> | |s| == 64 witness seq(64, _ => 0)
  type Comm = s: seq<char> | |s| == 16 witness seq(16, _ => '\0')

  datatype Config = Config(filterType: u32, targetPid: u32, syscallFilter: bool, printStack: bool, targetComm: Comm)

  // struct inflight_syscall
  datatype Record = Record(tsNs: u64, args: Args, userStack: Frames, stackSize: s32,
                           pid: u32, tid: u32, syscallId: s32)

  // struct syscall_event
  datatype Event = Event(tsNs: u64, durationNs: u64, args: Args, ret: s64, userStack: Frames, stackSize: s32,
                         pid: u32, tid: u32, syscallId: s32)

  // What the kernel hands the enter handler: the command name (None when it cannot be had), the call,
  // and what bpf_get_stack() would return and write.
  datatype Enter = Enter(comm: Option<Comm>, id: s64, args: Args, stackRet: s32, frames: seq<u64>)

  // bpf_get_stack() writes whole frames, at least as many as its result says.
  predicate ValidEnter(enter: Enter) {
    |enter.frames| <= MAX_STACK_DEPTH && enter.stackRet / 8 <= |enter.frames|
  }

  // (__s32)ctx->id
  function IdOf(id: s64): s32 {
    AsInt32(AsUnsigned(id))
  }

  function PidOf(key: u64): u32 {
    key / TWO_32
  }

  function TidOf(key: u64): u32 {
    key % TWO_32
  }

  // A command name up to its NUL or the end of its 16 bytes.
  function CommName(comm: seq<char>): string {
    if comm == [] || comm[0] == NUL then [] else [comm[0]] + CommName(comm[1..])
  }

  predicate Accepts(cfg: Config, bitmap: Bitmap, key: u64, enter: Enter) {
    && enter.comm.Some?
    && (cfg.filterType == FILTER_PID ==> PidOf(key) == cfg.targetPid)
    && (cfg.filterType == FILTER_COMM ==> CommName(enter.comm.value) == CommName(cfg.targetComm))
    && (cfg.syscallFilter ==> Allowed(bitmap, IdOf(enter.id)))
  }

  // A call of the thread `key`, as the kernel presented it at time tsNs.
  datatype Call = Call(key: u64, tsNs: u64, enter: Enter)

  // The process and thread of a key, and the number of a call.
  predicate Identifies(pid: u32, tid: u32, syscallId: s32, call: Call) {
    && pid * 0x1_0000_0000 + tid == call.key
    && (syscallId - call.enter.id) % 0x1_0000_0000 == 0
  }

  // The frames a stack size vouches for are those that were captured.
  predicate StackMatches(cfg: Config, stack: Frames, stackSize: s32, enter: Enter) {
    if cfg.printStack then
      && stackSize == enter.stackRet
      && forall i :: 0 <= i < 64 && 8 * (i + 1) <= stackSize ==> i < |enter.frames| && stack[i] == enter.frames[i]
    else stackSize == 0
  }

  // A record holding nothing but this call.
  predicate RecordMatches(cfg: Config, r: Record, call: Call) {
    && r.tsNs == call.tsNs && r.args == call.enter.args && Identifies(r.pid, r.tid, r.syscallId, call)
    && StackMatches(cfg, r.userStack, r.stackSize, call.enter)
  }

  // An event reporting nothing but this call, with a duration that did not wrap around.
  predicate EventMatches(cfg: Config, e: Event, call: Call) {
    && e.tsNs == call.tsNs && e.args == call.enter.args && Identifies(e.pid, e.tid, e.syscallId, call)
    && StackMatches(cfg, e.userStack, e.stackSize, call.enter)
    && e.tsNs + e.durationNs < TWO_64
  }

  // bpf_map_update_elem(&inflight, ..., BPF_ANY): fails only for a new key in a full map.
  predicate Fits(m: map<u64, Record>, key: u64) {
    key in m || |m| < MAX_INFLIGHT
  }

  function Store(m: map<u64, Record>, key: u64, r: Record): map<u64, Record> {
    if Fits(m, key) then m[key := r] else m
  }

  // The scratch record after the enter handler wrote over `scratch`.
  function Filled(cfg: Config, scratch: Record, key: u64, enter: Enter, now: u64): Record
    requires ValidEnter(enter)
  {
    Record(now, enter.args,
           if cfg.printStack then enter.frames + scratch.userStack[|enter.frames|..] else scratch.userStack,
           if cfg.printStack then enter.stackRet else scratch.stackSize,
           PidOf(key), TidOf(key), IdOf(enter.id))
  }

  // The scratch event after the exit handler wrote over `scratch`.
  function Reported(cfg: Config, scratch: Event, r: Record, ret: s64, now: u64): Event {
    Event(r.tsNs, Sub64(now, r.tsNs), r.args, ret,
          if cfg.printStack then r.userStack else scratch.userStack,
          r.stackSize, r.pid, r.tid, r.syscallId)
  }

  // 32-bit halves and the low word of a number are determined by the word they come from.
  lemma PartsIdentify(key: u64, enter: Enter, tsNs: u64)
    ensures Identifies(PidOf(key), TidOf(key), IdOf(enter.id), Call(key, tsNs, enter))
  {
  }

  lemma FilledMatches(cfg: Config, scratch: Record, key: u64, enter: Enter, now: u64)
    requires ValidEnter(enter) && (!cfg.printStack ==> scratch.stackSize == 0)
    ensures RecordMatches(cfg, Filled(cfg, scratch, key, enter, now), Call(key, now, enter))
  {
    PartsIdentify(key, enter, now);
    hide Identifies, PidOf, TidOf, IdOf;
  }

  lemma ReportedMatches(cfg: Config, scratch: Event, r: Record, call: Call, ret: s64, now: u64)
    requires RecordMatches(cfg, r, call) && call.tsNs <= now
    ensures EventMatches(cfg, Reported(cfg, scratch, r, ret, now), call)
    ensures Reported(cfg, scratch, r, ret, now).tsNs + Reported(cfg, scratch, r, ret, now).durationNs == now
  {
  }

  // ----- a handler run on one CPU -----

  // The maps the programs use, and what each CPU passed to its perf buffer.
  datatype Maps = Maps(
    inMap: seq<Record>,                // one scratch record per CPU
    eventMap: seq<Event>,              // one scratch event per CPU
    inflight: map<u64, Record>,        // shared by all CPUs, keyed by pid_tgid
    emitted: seq<seq<Event>>)

  datatype Act =
    | EnterAct(cpu: nat, key: u64, enter: Enter, now: u64)
    | ExitAct(cpu: nat, key: u64, ret: s64, now: u64)

  // One scratch record of each kind per CPU; without stacks nobody ever writes a stack size into it.
  predicate ValidMaps(cfg: Config, m: Maps) {
    && |m.inMap| == |m.eventMap| == |m.emitted|
    && (!cfg.printStack ==> forall c :: 0 <= c < |m.inMap| ==> m.inMap[c].stackSize == 0)
  }

  predicate ValidAct(m: Maps, a: Act) {
    a.cpu < |m.inMap| && (a.EnterAct? ==> ValidEnter(a.enter))
  }

  function Handle(cfg: Config, bitmap: Bitmap, m: Maps, a: Act): (m': Maps)
    requires ValidMaps(cfg, m) && ValidAct(m, a)
    ensures ValidMaps(cfg, m') && |m'.inMap| == |m.inMap|
  {
    match a
    case EnterAct(cpu, key, enter, now) =>
      if Accepts(cfg, bitmap, key, enter) then
        var filled := Filled(cfg, m.inMap[cpu], key, enter, now);
        m.(inMap := m.inMap[cpu := filled], inflight := Store(m.inflight, key, filled))
      else m
    case ExitAct(cpu, key, ret, now) =>
      if key in m.inflight then
        var e := Reported(cfg, m.eventMap[cpu], m.inflight[key], ret, now);
        m.(eventMap := m.eventMap[cpu := e],
           emitted := m.emitted[cpu := m.emitted[cpu] + [e]],
           inflight := m.inflight - {key})
      else m
  }

  // From the enter of a thread t of process p to the event its exit sends: numbers, arguments and times,
  // with nothing taken from the scratch records.
  lemma CallIsReported(cfg: Config, bitmap: Bitmap, m: Maps, m': Maps, p: u32, t: u32, a: Act, exit: Act)
    requires ValidMaps(cfg, m) && ValidAct(m, a) && a.EnterAct? && a.key == p * 0x1_0000_0000 + t
    requires -0x8000_0000 <= a.enter.id < 0x8000_0000 && Accepts(cfg, bitmap, a.key, a.enter)
    requires ValidMaps(cfg, m') && ValidAct(m', exit) && exit.ExitAct? && exit.key == a.key && a.now <= exit.now
    requires a.key in m'.inflight ==>
      a.key in Handle(cfg, bitmap, m, a).inflight && m'.inflight[a.key] == Handle(cfg, bitmap, m, a).inflight[a.key]
    ensures a.key in Handle(cfg, bitmap, m, a).inflight <==> a.key in m.inflight || |m.inflight| < 4096
    ensures a.key in Handle(cfg, bitmap, m, a).inflight ==>
      var r := Handle(cfg, bitmap, m, a).inflight[a.key];
      r.pid == p && r.tid == t && r.syscallId == a.enter.id && r.args == a.enter.args && r.tsNs == a.now
    ensures a.key in m'.inflight ==>
      var sent := Handle(cfg, bitmap, m', exit).emitted;
      && |sent| == |m'.emitted| && |sent[exit.cpu]| == |m'.emitted[exit.cpu]| + 1
      && var e := sent[exit.cpu][|m'.emitted[exit.cpu]|];
         && e.pid == p && e.tid == t && e.syscallId == a.enter.id && e.args == a.enter.args
         && e.ret == exit.ret && e.tsNs == a.now && e.durationNs == exit.now - a.now
  {
    hide Accepts;
    FilledMatches(cfg, m.inMap[a.cpu], a.key, a.enter, a.now);
    PartsAreUnique(p, t, PidOf(a.key), TidOf(a.key));
    IdIsItself(a.enter.id);
  }

  lemma PartsAreUnique(p: u32, t: u32, p': u32, t': u32)
    requires p * 0x1_0000_0000 + t == p' * 0x1_0000_0000 + t'
    ensures p == p' && t == t'
  {
  }

  lemma IdIsItself(id: s64)
    requires -0x8000_0000 <= id < 0x8000_0000
    ensures IdOf(id) == id
  {
  }
}
