/** The two tracepoint handlers as they run on one CPU, and the command-name filter. */
module Handlers {
  import opened Words
  import opened Bits
  import opened SyscallBitmap
  import opened Records

  lemma {:induction false} CommNameFrom(a: seq<char>, b: seq<char>, i: nat)
    requires |a| == |b| && i <= |a|
    requires a[..i] == b[..i] && NUL !in a[..i]
    ensures CommName(a) == CommName(b) <==> CommName(a[i..]) == CommName(b[i..])
    decreases i
  {
    if i == 0 {
      assert a[0..] == a && b[0..] == b;
    } else {
      assert a[0] == a[..i][0] == b[..i][0] == b[0];
      assert a[1..][..i - 1] == a[..i][1..] && b[1..][..i - 1] == b[..i][1..];
      CommNameFrom(a[1..], b[1..], i - 1);
      assert a[1..][i - 1..] == a[i..] && b[1..][i - 1..] == b[i..];
      assert CommName(a)[1..] == CommName(a[1..]) && CommName(b)[1..] == CommName(b[1..]);
    }
  }

  lemma {:induction false} CommNameIs(s: seq<char>)
    ensures |CommName(s)| <= |s| && CommName(s) == s[..|CommName(s)|] && NUL !in CommName(s)
    ensures |CommName(s)| < |s| ==> s[|CommName(s)|] == NUL
  {
    if s != [] && s[0] != NUL {
      CommNameIs(s[1..]);
    }
  }

  // The first n characters agree and are not NUL, and there both names end.
  predicate AgreeFor(a: Comm, b: Comm, n: nat) {
    n <= 16 && a[..n] == b[..n] && NUL !in a[..n] && (n < 16 ==> a[n] == b[n] == NUL)
  }

  lemma NamesAgree(a: Comm, b: Comm)
    ensures CommName(a) == CommName(b) <==> exists n: nat :: AgreeFor(a, b, n)
  {
    CommNameIs(a);
    CommNameIs(b);
    if CommName(a) == CommName(b) {
      assert AgreeFor(a, b, |CommName(a)|);
    }
    if n: nat :| AgreeFor(a, b, n) {
      assert |CommName(a)| == n by { NameEnds(a, n); }
      assert |CommName(b)| == n by { NameEnds(b, n); }
    }
  }

  lemma {:induction false} NameEnds(s: seq<char>, n: nat)
    requires n <= |s| && NUL !in s[..n] && (n < |s| ==> s[n] == NUL)
    ensures |CommName(s)| == n
    decreases n
  {
    if n > 0 {
      assert s[0] == s[..n][0] && s[1..][..n - 1] == s[..n][1..];
      NameEnds(s[1..], n - 1);
    }
  }

  // What the filters let through: for a thread t of process p, all that are on agree.
  lemma AcceptsMeans(cfg: Config, bitmap: Bitmap, p: u32, t: u32, enter: Enter)
    requires 0 <= enter.id < 0x8000_0000
    ensures Accepts(cfg, bitmap, p * 0x1_0000_0000 + t, enter) <==>
      && enter.comm.Some?
      && (cfg.filterType == 1 ==> p == cfg.targetPid)
      && (cfg.filterType == 2 ==> exists n: nat :: AgreeFor(enter.comm.value, cfg.targetComm, n))
      && (cfg.syscallFilter ==> enter.id < 512 && Common(bitmap[enter.id / 64], Mask(enter.id % 64)) != 0)
  {
    hide Allowed, CommName, AgreeFor, Mask, Common;
    PartsAreUnique(p, t, PidOf(p * 0x1_0000_0000 + t), TidOf(p * 0x1_0000_0000 + t));
    IdIsItself(enter.id);
    hide PidOf, IdOf;
    if enter.comm.Some? {
      NamesAgree(enter.comm.value, cfg.targetComm);
    }
    AllowedIsBit(bitmap, enter.id);
  }

  lemma CommNameStarts(a: seq<char>)
    requires a != []
    ensures if a[0] == NUL then CommName(a) == [] else CommName(a) != [] && CommName(a)[0] == a[0]
  {
  }

  // comm_equal
  method CommEqual(a: Comm, b: Comm) returns (equal: bool)
    ensures equal == (CommName(a) == CommName(b))
  {
    for i := 0 to COMM_LEN
      invariant a[..i] == b[..i] && NUL !in a[..i]
    {
      CommNameFrom(a, b, i);
      if a[i] != b[i] {
        assert a[i..][0] == a[i] && b[i..][0] == b[i];
        CommNameStarts(a[i..]);
        CommNameStarts(b[i..]);
        return false;
      }
      if a[i] == NUL {
        return true;
      }
      assert a[..i + 1] == a[..i] + [a[i]] && b[..i + 1] == b[..i] + [b[i]];
    }
    CommNameFrom(a, b, COMM_LEN);
    return true;
  }

  // The name a -c argument asks for: whole if it fits, else its end for an Android package, else its start.
  function TargetName(arg: string): string {
    if |arg| < COMM_LEN then arg
    else if arg[..4] == "com." then arg[|arg| - (COMM_LEN - 1)..]
    else arg[..COMM_LEN - 1]
  }

  // The name is the argument's beginning, at most 15 characters of it, or its last 15 for a longer package name.
  lemma TargetNameMeans(arg: string)
    ensures |arg| <= 15 ==> TargetName(arg) == arg
    ensures |arg| > 15 ==> |TargetName(arg)| == 15
    ensures |arg| > 15 && "com." <= arg ==> exists rest :: arg == rest + TargetName(arg)
    ensures |arg| > 15 && !("com." <= arg) ==> TargetName(arg) <= arg
  {
    if |arg| > 15 && "com." <= arg {
      assert arg == arg[..|arg| - 15] + TargetName(arg);
    }
  }

  lemma {:induction false} CommNameOfPadded(s: string, pad: nat)
    requires NUL !in s
    ensures CommName(s + seq(pad, _ => NUL)) == s
  {
    if s != [] {
      assert (s + seq(pad, _ => NUL))[1..] == s[1..] + seq(pad, _ => NUL);
      CommNameOfPadded(s[1..], pad);
    }
  }

  // memset, then strcpy or strncpy into the 16-byte field.
  method StoreTargetComm(arg: string) returns (comm: Comm)
    requires NUL !in arg
    ensures CommName(comm) == TargetName(arg)
  {
    var field := new char[COMM_LEN](_ => NUL);
    var source := arg;
    if |arg| >= COMM_LEN {
      if arg[..4] == "com." {
        source := arg[|arg| - (COMM_LEN - 1)..];
      }
      source := source[..COMM_LEN - 1];
    }
    forall i | 0 <= i < |source| {
      field[i] := source[i];
    }
    comm := field[..];
    assert comm == source + seq(COMM_LEN - |source|, _ => NUL);
    CommNameOfPadded(source, COMM_LEN - |source|);
  }

  class Tracer {
    const cfg: Config
    const bitmap: Bitmap
    var inMap: seq<Record>               // one scratch record per CPU
    var eventMap: seq<Event>             // one scratch event per CPU
    var inflight: map<u64, Record>       // shared by all CPUs, keyed by pid_tgid
    var emitted: seq<seq<Event>>         // what each CPU passed to its perf buffer

    ghost predicate Valid()
      reads this
    {
      ValidMaps(cfg, View()) && |inflight| <= MAX_INFLIGHT
    }

    ghost function View(): Maps
      reads this
    {
      Maps(inMap, eventMap, inflight, emitted)
    }

    // trace_enter
    method TraceEnter(cpu: nat, key: u64, enter: Enter, now: u64)
      requires Valid() && cpu < |inMap| && ValidEnter(enter)
      modifies this`inMap, this`inflight
      ensures Valid()
      ensures
        if Accepts(cfg, bitmap, key, enter) then
          var filled := Filled(cfg, old(inMap[cpu]), key, enter, now);
          inMap == old(inMap)[cpu := filled] && inflight == Store(old(inflight), key, filled)
        else inMap == old(inMap) && inflight == old(inflight)
      ensures View() == Handle(cfg, bitmap, old(View()), EnterAct(cpu, key, enter, now))
    {
      if enter.comm.None? {
        return;
      }
      if cfg.filterType == FILTER_PID && PidOf(key) != cfg.targetPid {
        return;
      }
      if cfg.filterType == FILTER_COMM {
        var same := CommEqual(enter.comm.value, cfg.targetComm);
        if !same {
          return;
        }
      }
      if cfg.syscallFilter && !Allowed(bitmap, IdOf(enter.id)) {
        return;
      }
      FillScratch(cpu, key, enter, now);
      UpdateInflight(key, inMap[cpu]);
    }

    method FillScratch(cpu: nat, key: u64, enter: Enter, now: u64)
      requires cpu < |inMap| && ValidEnter(enter)
      modifies this`inMap
      ensures inMap == old(inMap)[cpu := Filled(cfg, old(inMap[cpu]), key, enter, now)]
    {
      inMap := inMap[cpu := inMap[cpu].(tsNs := now)];
      inMap := inMap[cpu := inMap[cpu].(pid := PidOf(key))];
      inMap := inMap[cpu := inMap[cpu].(tid := TidOf(key))];
      inMap := inMap[cpu := inMap[cpu].(syscallId := IdOf(enter.id))];
      ghost var start := inMap;
      for i := 0 to 6
        invariant |inMap| == |start|
        invariant inMap == start[cpu := start[cpu].(args := inMap[cpu].args)]
        invariant inMap[cpu].args[..i] == enter.args[..i]
      {
        var args := inMap[cpu].args;
        inMap := inMap[cpu := inMap[cpu].(args := args[i := enter.args[i]])];
        assert args[i := enter.args[i]][..i + 1] == args[..i] + [enter.args[i]];
      }
      assert inMap[cpu].args == inMap[cpu].args[..6] == enter.args[..6] == enter.args;
      if cfg.printStack {
        var stack := enter.frames + inMap[cpu].userStack[|enter.frames|..];
        inMap := inMap[cpu := inMap[cpu].(userStack := stack, stackSize := enter.stackRet)];
      }
    }

    method UpdateInflight(key: u64, r: Record)
      requires |inflight| <= MAX_INFLIGHT
      modifies this`inflight
      ensures inflight == Store(old(inflight), key, r) && |inflight| <= MAX_INFLIGHT
    {
      if key in inflight || |inflight| < MAX_INFLIGHT {
        StoreSize(inflight, key, r);
        inflight := inflight[key := r];
      }
    }

    // trace_exit
    method TraceExit(cpu: nat, key: u64, ret: s64, now: u64)
      requires Valid() && cpu < |inMap|
      modifies this`eventMap, this`inflight, this`emitted
      ensures Valid()
      ensures
        if key in old(inflight) then
          var e := Reported(cfg, old(eventMap[cpu]), old(inflight)[key], ret, now);
          && eventMap == old(eventMap)[cpu := e]
          && emitted == old(emitted)[cpu := old(emitted[cpu]) + [e]]
          && inflight == old(inflight) - {key}
        else eventMap == old(eventMap) && emitted == old(emitted) && inflight == old(inflight)
      ensures View() == Handle(cfg, bitmap, old(View()), ExitAct(cpu, key, ret, now))
    {
      if key !in inflight {
        return;
      }
      var found := inflight[key];
      FillEvent(cpu, found, ret, now);
      emitted := emitted[cpu := emitted[cpu] + [eventMap[cpu]]];
      RemoveSize(inflight, key);
      inflight := inflight - {key};
    }

    method FillEvent(cpu: nat, found: Record, ret: s64, now: u64)
      requires cpu < |eventMap|
      modifies this`eventMap
      ensures eventMap == old(eventMap)[cpu := Reported(cfg, old(eventMap[cpu]), found, ret, now)]
    {
      eventMap := eventMap[cpu := eventMap[cpu].(tsNs := found.tsNs)];
      eventMap := eventMap[cpu := eventMap[cpu].(durationNs := Sub64(now, found.tsNs))];
      eventMap := eventMap[cpu := eventMap[cpu].(pid := found.pid)];
      eventMap := eventMap[cpu := eventMap[cpu].(tid := found.tid)];
      eventMap := eventMap[cpu := eventMap[cpu].(syscallId := found.syscallId)];
      eventMap := eventMap[cpu := eventMap[cpu].(ret := ret)];
      eventMap := eventMap[cpu := eventMap[cpu].(stackSize := found.stackSize)];
      CopyArgs(cpu, found);
      if cfg.printStack {
        CopyStack(cpu, found);
      }
    }

    method CopyArgs(cpu: nat, found: Record)
      requires cpu < |eventMap|
      modifies this`eventMap
      ensures eventMap == old(eventMap)[cpu := old(eventMap[cpu]).(args := found.args)]
    {
      ghost var start := eventMap;
      for i := 0 to 6
        invariant |eventMap| == |start|
        invariant eventMap == start[cpu := start[cpu].(args := eventMap[cpu].args)]
        invariant eventMap[cpu].args[..i] == found.args[..i]
      {
        var args := eventMap[cpu].args;
        eventMap := eventMap[cpu := eventMap[cpu].(args := args[i := found.args[i]])];
        assert args[i := found.args[i]][..i + 1] == args[..i] + [found.args[i]];
      }
      assert eventMap[cpu].args == eventMap[cpu].args[..6] == found.args[..6] == found.args;
    }

    method CopyStack(cpu: nat, found: Record)
      requires cpu < |eventMap|
      modifies this`eventMap
      ensures eventMap == old(eventMap)[cpu := old(eventMap[cpu]).(userStack := found.userStack)]
    {
      ghost var start := eventMap;
      for i := 0 to MAX_STACK_DEPTH
        invariant |eventMap| == |start|
        invariant eventMap == start[cpu := start[cpu].(userStack := eventMap[cpu].userStack)]
        invariant eventMap[cpu].userStack[..i] == found.userStack[..i]
      {
        var stack := eventMap[cpu].userStack;
        eventMap := eventMap[cpu := eventMap[cpu].(userStack := stack[i := found.userStack[i]])];
        assert stack[i := found.userStack[i]][..i + 1] == stack[..i] + [found.userStack[i]];
      }
      assert eventMap[cpu].userStack == eventMap[cpu].userStack[..64] == found.userStack[..64] == found.userStack;
    }
  }

  lemma StoreSize(m: map<u64, Record>, key: u64, r: Record)
    ensures |m[key := r]| == |m| + if key in m then 0 else 1
  {
    assert m[key := r].Keys == m.Keys + {key};
  }

  lemma RemoveSize(m: map<u64, Record>, key: u64)
    requires key in m
    ensures |m - {key}| == |m| - 1
  {
    assert (m - {key}).Keys == m.Keys - {key};
  }
}
