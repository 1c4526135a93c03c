/** Several processes running the last-good transaction at once, one file operation at a time. */
module ConfigApplyConcurrent {
  import opened Bytes
  import opened ConfigApply

  type Pid = nat

  /** The lock file as the processes see it: `owner` is the process whose descriptor created it. */
  datatype LockFile = LockFile(content: Bytes, mtime: int, owner: Pid)

  datatype Files = Files(target: Option<Bytes>, temp: Option<Bytes>, lock: Option<LockFile>)

  datatype Pc =
    | Begin                  // about to check that a target to retain exists
    | Ready                  // about to create the lock exclusively
    | Stat                   // the lock existed; about to look at its age
    | StaleSeen              // it was stale; about to check its binding
    | StaleBound             // it is ours to take over; about to unlink it
    | Recreate               // unlinked; about to create it again
    | Locking                // created; the content is being written
    | ReadTemp               // lock complete; about to read the temporary file
    | CheckAbsent            // it matches the candidate; about to see whether the target exists
    | Recover                // it does not; about to move the temporary file over it
    | RemoveTemp             // about to remove a leftover temporary file
    | ReadTarget
    | OpenTemp               // about to truncate the temporary file
    | Writing
    | Replace                // synced; about to move it over the target
    | Verify
    | CleanTemp              // the `finally` block
    | CleanLock
    | Stopped

  datatype Process = Process(pc: Pc, req: Request)

  datatype System = System(files: Files, procs: map<Pid, Process>, now: int)

  /** What happens next: a process performs its next operation, a process dies, or time passes.
      `scribble` is the partial content a write leaves; `complete` says whether that write is the last. */
  datatype Event = Step(p: Pid, scribble: Bytes, complete: bool) | Crash(p: Pid) | Tick(to: int)

  /** Between creating the lock and removing it. */
  predicate Inside(pc: Pc) {
    !pc.Begin? && !pc.Ready? && !pc.Stat? && !pc.StaleSeen? && !pc.StaleBound? && !pc.Recreate? && !pc.Stopped?
  }

  predicate TakingOver(pc: Pc) {
    pc.StaleSeen? || pc.StaleBound? || pc.Recreate?
  }

  function StepOf(c: Codec, f: Files, now: int, p: Pid, proc: Process, scribble: Bytes, complete: bool): (Files, Pc) {
    var req := proc.req;
    match proc.pc
    case Begin => (f, if req.decision.RetainExisting? && f.target.None? then Stopped else Ready)
    case Ready =>
      if f.lock.None? then (f.(lock := Some(LockFile([], now, p))), Locking) else (f, Stat)
    case Stat =>
      if f.lock.None? then (f, Stopped)
      else if now - f.lock.value.mtime < STALE_LOCK_SECONDS then (f, Stopped)
      else (f, StaleSeen)
    case StaleSeen =>
      if f.lock.Some? && c.bindingOk(f.lock.value.content, req.projectId) then (f, StaleBound) else (f, Stopped)
    case StaleBound =>
      if f.lock.None? then (f, Stopped) else (f.(lock := None), Recreate)
    case Recreate =>
      if f.lock.None? then (f.(lock := Some(LockFile([], now, p))), Locking) else (f, Stopped)
    case Locking =>
      var content := if complete then c.lockPayload(req.projectId) else scribble;
      var f' := if f.lock.Some? && f.lock.value.owner == p then f.(lock := Some(f.lock.value.(content := content)))
          else f;
      (f', if complete then ReadTemp else Locking)
    case ReadTemp =>
      if f.temp.None? then (f, ReadTarget)
      else (match Normalize(c, f.temp.value)
            case Bad(_) => (f, CleanTemp)
            case Ok(payload) => (f, if c.sha256(payload) == c.sha256(req.candidate) then CheckAbsent else RemoveTemp))
    case CheckAbsent =>
      (f, if f.target.None? && req.decision.Write? then Recover else RemoveTemp)
    case Recover =>
      if f.temp.None? then (f, CleanTemp) else (f.(target := f.temp, temp := None), CleanTemp)
    case RemoveTemp => (f.(temp := None), ReadTarget)
    case ReadTarget =>
      (match f.target
       case Some(raw) =>
         (match Validate(c, raw, if req.decision.RetainExisting? then Some(req.configHash) else None)
          case Bad(_) => (f, CleanTemp)
          case Ok(current) =>
            (f, if req.decision.RetainExisting? || c.sha256(current) == c.sha256(req.candidate) then CleanTemp
             else OpenTemp))
       case None => (f, if req.decision.RetainExisting? then CleanTemp else OpenTemp))
    case OpenTemp => (f.(temp := Some([])), Writing)
    case Writing =>
      if complete then (f.(temp := Some(req.candidate + [NEWLINE])), Replace) else (f.(temp := Some(scribble)), Writing)
    case Replace =>
      if f.temp.None? then (f, CleanTemp) else (f.(target := f.temp, temp := None), Verify)
    case Verify => (f, CleanTemp)
    case CleanTemp => (f.(temp := None), CleanLock)
    case CleanLock => (f.(lock := None), Stopped)
    case Stopped => (f, Stopped)
  }

  function Next(c: Codec, s: System, e: Event): System {
    match e
    case Step(p, scribble, complete) =>
      if p !in s.procs then s
      else
        var (files, pc) := StepOf(c, s.files, s.now, p, s.procs[p], scribble, complete);
        s.(files := files, procs := s.procs[p := s.procs[p].(pc := pc)])
    case Crash(p) => if p !in s.procs then s else s.(procs := s.procs[p := s.procs[p].(pc := Stopped)])
    case Tick(to) => if to < s.now then s else s.(now := to)
  }

  function Run(c: Codec, s: System, events: seq<Event>): System {
    if events == [] then s else Next(c, Run(c, s, events[..|events| - 1]), events[|events| - 1])
  }

  /** No lock is ever as old as the takeover threshold. */
  ghost predicate LocksStayFresh(c: Codec, s: System, events: seq<Event>) {
    forall k :: 0 <= k <= |events| ==>
      var lock := Run(c, s, events[..k]).files.lock;
      lock.Some? ==> Run(c, s, events[..k]).now - lock.value.mtime < STALE_LOCK_SECONDS
  }

  ghost predicate Initial(c: Codec, s: System) {
    && (forall p :: p in s.procs ==> s.procs[p].pc == Begin && WellFormed(c, s.procs[p].req))
  }

  ghost predicate HoldsSome(c: Codec, s: System, target: Option<Bytes>) {
    exists p :: p in s.procs && s.procs[p].req.decision.Write? && HoldsCandidate(c, s.procs[p].req, target)
  }

  /** What a process may rely on at its position, given that it alone is inside. */
  ghost predicate Prepared(c: Codec, f: Files, proc: Process) {
    && (proc.pc.CheckAbsent? ==> HoldsCandidate(c, proc.req, f.temp))
    && (proc.pc.Recover? ==> HoldsCandidate(c, proc.req, f.temp) && proc.req.decision.Write?)
    && (proc.pc.OpenTemp? || proc.pc.Writing? ==> proc.req.decision.Write?)
    && (proc.pc.Replace? ==> f.temp == Some(proc.req.candidate + [NEWLINE]) && proc.req.decision.Write?)
  }

  ghost predicate Inv(c: Codec, start: Option<Bytes>, s: System) {
    && (forall p :: p in s.procs ==> WellFormed(c, s.procs[p].req) && !TakingOver(s.procs[p].pc))
    && (forall p :: p in s.procs && Inside(s.procs[p].pc) ==> s.files.lock.Some? && s.files.lock.value.owner == p)
    && (forall p :: p in s.procs && Inside(s.procs[p].pc) ==> Prepared(c, s.files, s.procs[p]))
    && (s.files.target == start || HoldsSome(c, s, s.files.target))
  }

  ghost predicate Exclusive(s: System) {
    forall p, q :: p in s.procs && q in s.procs && Inside(s.procs[p].pc) && Inside(s.procs[q].pc) ==> p == q
  }

  lemma ExclusiveFromInv(c: Codec, start: Option<Bytes>, s: System)
    requires Inv(c, start, s)
    ensures Exclusive(s)
  {
  }

  lemma HoldsSomeKept(c: Codec, s: System, s': System, target: Option<Bytes>)
    requires HoldsSome(c, s, target)
    requires forall p :: p in s.procs ==> p in s'.procs && s'.procs[p].req == s.procs[p].req
    ensures HoldsSome(c, s', target)
  {
    var p :| p in s.procs && s.procs[p].req.decision.Write? && HoldsCandidate(c, s.procs[p].req, target);
    assert HoldsCandidate(c, s'.procs[p].req, target);
  }

  /** The moving process, judged alone: it stays within its rights, and moves the target only to its own candidate. */
  lemma StepAlone(c: Codec, f: Files, now: int, p: Pid, proc: Process, scribble: Bytes, complete: bool)
    requires WellFormed(c, proc.req) && !TakingOver(proc.pc)
    requires Inside(proc.pc) ==> f.lock.Some? && f.lock.value.owner == p && Prepared(c, f, proc)
    requires f.lock.Some? ==> now - f.lock.value.mtime < STALE_LOCK_SECONDS
    ensures var (f', pc) := StepOf(c, f, now, p, proc, scribble, complete);
            && !TakingOver(pc)
            && (Inside(pc) ==> f'.lock.Some? && f'.lock.value.owner == p && Prepared(c, f', proc.(pc := pc)))
            && (f'.target == f.target || (proc.req.decision.Write? && HoldsCandidate(c, proc.req, f'.target)))
            && (f' == f || Inside(proc.pc) || f.lock.None?)
  {
    CandidateNormalizes(c, proc.req);
  }

  lemma InvStep(c: Codec, start: Option<Bytes>, s: System, p: Pid, scribble: Bytes, complete: bool)
    requires Inv(c, start, s) && p in s.procs
    requires s.files.lock.Some? ==> s.now - s.files.lock.value.mtime < STALE_LOCK_SECONDS
    ensures Inv(c, start, Next(c, s, Step(p, scribble, complete)))
  {
    hide WellFormed, StepOf, Prepared, HoldsCandidate, HoldsSome;
    var s' := Next(c, s, Step(p, scribble, complete));
    StepAlone(c, s.files, s.now, p, s.procs[p], scribble, complete);
    if s'.files.target != s.files.target {
      OwnCandidate(c, s', p);
    } else if s.files.target != start {
      HoldsSomeKept(c, s, s', s.files.target);
    }
  }

  lemma OwnCandidate(c: Codec, s: System, p: Pid)
    requires p in s.procs && s.procs[p].req.decision.Write? && HoldsCandidate(c, s.procs[p].req, s.files.target)
    ensures HoldsSome(c, s, s.files.target)
  {
  }

  lemma InvNext(c: Codec, start: Option<Bytes>, s: System, e: Event)
    requires Inv(c, start, s)
    requires s.files.lock.Some? ==> s.now - s.files.lock.value.mtime < STALE_LOCK_SECONDS
    ensures Inv(c, start, Next(c, s, e))
  {
    hide WellFormed, StepOf, HoldsSome;
    match e
    case Step(p, scribble, complete) => if p in s.procs { InvStep(c, start, s, p, scribble, complete); }
    case Crash(p) =>
      if p in s.procs && s.files.target != start { HoldsSomeKept(c, s, Next(c, s, e), s.files.target); }
    case Tick(to) =>
      if s.files.target != start { HoldsSomeKept(c, s, Next(c, s, e), s.files.target); }
  }

  lemma {:induction false} InvRun(c: Codec, s: System, events: seq<Event>)
    requires Initial(c, s) && LocksStayFresh(c, s, events)
    ensures Inv(c, s.files.target, Run(c, s, events))
  {
    hide Inv, Next, Initial;
    if events == [] {
      InitialInv(c, s);
    } else {
      var n := |events| - 1;
      ShorterRun(c, s, events);
      InvRun(c, s, events[..n]);
      InvNext(c, s.files.target, Run(c, s, events[..n]), events[n]);
    }
  }

  lemma InitialInv(c: Codec, s: System)
    requires Initial(c, s)
    ensures Inv(c, s.files.target, s)
  {
  }

  lemma ShorterRun(c: Codec, s: System, events: seq<Event>)
    requires LocksStayFresh(c, s, events) && events != []
    ensures LocksStayFresh(c, s, events[..|events| - 1])
    ensures var before := Run(c, s, events[..|events| - 1]);
            before.files.lock.Some? ==> before.now - before.files.lock.value.mtime < STALE_LOCK_SECONDS
  {
    hide Run;
    var n := |events| - 1;
    forall k | 0 <= k <= n ensures events[..n][..k] == events[..k] {}
  }

  /** Whatever the interleaving, the crashes and the partial writes: as long as no lock reaches the takeover age,
      at most one process is between creating and removing the lock, and the target is the one found at the start
      or a whole snapshot some writer asked for. */
  lemma SafeUnderInterleaving(c: Codec, s: System, events: seq<Event>)
    requires Initial(c, s) && LocksStayFresh(c, s, events)
    ensures Exclusive(Run(c, s, events))
    ensures Run(c, s, events).files.target == s.files.target
            || HoldsSome(c, Run(c, s, events), Run(c, s, events).files.target)
  {
    hide Run;
    InvRun(c, s, events);
    ExclusiveFromInv(c, s.files.target, Run(c, s, events));
  }

  /** Two processes with the same request, both at the same position. */
  function Pair(f: Files, now: int, req: Request, pc0: Pc, pc1: Pc): System {
    System(f, map[0 := Process(pc0, req), 1 := Process(pc1, req)], now)
  }

  /** Both perform an operation that changes no file. */
  lemma BothLook(c: Codec, f: Files, now: int, req: Request, pc: Pc, pc': Pc)
    requires StepOf(c, f, now, 0, Process(pc, req), [], false) == (f, pc')
    requires StepOf(c, f, now, 1, Process(pc, req), [], false) == (f, pc')
    ensures Next(c, Next(c, Pair(f, now, req, pc, pc), Step(0, [], false)), Step(1, [], false))
         == Pair(f, now, req, pc', pc')
  {
    hide StepOf;
  }

  /** One of the two removes the lock it judged stale and creates its own. */
  lemma TakeOver(c: Codec, f: Files, now: int, req: Request, other: Pc)
    requires f.lock.Some?
    ensures Next(c, Next(c, Pair(f, now, req, StaleBound, other), Step(0, [], false)), Step(0, [], false))
         == Pair(f.(lock := Some(LockFile([], now, 0))), now, req, Locking, other)
    ensures Next(c, Next(c, Pair(f, now, req, other, StaleBound), Step(1, [], false)), Step(1, [], false))
         == Pair(f.(lock := Some(LockFile([], now, 1))), now, req, other, Locking)
  {
    TakeOverAs(c, f, now, req, 0);
    TakeOverAs(c, f, now, req, 1);
    hide StepOf;
  }

  /** The two operations themselves: remove, then create. */
  lemma TakeOverAs(c: Codec, f: Files, now: int, req: Request, p: Pid)
    requires f.lock.Some?
    ensures var (g, pc) := StepOf(c, f, now, p, Process(StaleBound, req), [], false);
            var (h, pc') := StepOf(c, g, now, p, Process(pc, req), [], false);
            h == f.(lock := Some(LockFile([], now, p))) && pc' == Locking
  {
  }

  /** Four rounds in which both processes look and both conclude that the stale lock is theirs to take over. */
  lemma BothJudgeStale(c: Codec, req: Request, f: Files, now: int) returns (events: seq<Event>)
    requires f.lock.Some? && now - f.lock.value.mtime >= STALE_LOCK_SECONDS
    requires c.bindingOk(f.lock.value.content, req.projectId)
    requires f.target.Some? || req.decision.Write?
    ensures Run(c, Pair(f, now, req, Begin, Begin), events) == Pair(f, now, req, StaleBound, StaleBound)
  {
    var a, b := Step(0, [], false), Step(1, [], false);
    var s := Pair(f, now, req, Begin, Begin);
    BothLook(c, f, now, req, Begin, Ready);
    BothLook(c, f, now, req, Ready, Stat);
    BothLook(c, f, now, req, Stat, StaleSeen);
    BothLook(c, f, now, req, StaleSeen, StaleBound);
    hide StepOf, Next, Run, Pair;
    events := [a, b];
    TwoMore(c, s, [], a, b);
    TwoMore(c, s, events, a, b);
    events := events + [a, b];
    TwoMore(c, s, events, a, b);
    events := events + [a, b];
    TwoMore(c, s, events, a, b);
    events := events + [a, b];
  }

  /** The age condition is needed: two processes that both judge the same stale lock end up inside together. */
  lemma StaleTakeoverCanOverlap(c: Codec, req: Request, f: Files, now: int) returns (events: seq<Event>)
    requires f.lock.Some? && now - f.lock.value.mtime >= STALE_LOCK_SECONDS
    requires c.bindingOk(f.lock.value.content, req.projectId)
    requires f.target.Some? || req.decision.Write?
    ensures !Exclusive(Run(c, Pair(f, now, req, Begin, Begin), events))
  {
    var a, b := Step(0, [], false), Step(1, [], false);
    var s := Pair(f, now, req, Begin, Begin);
    events := BothJudgeStale(c, req, f, now);
    var f' := f.(lock := Some(LockFile([], now, 0)));
    TakeOver(c, f, now, req, StaleBound);
    TakeOver(c, f', now, req, Locking);
    BothInside(f'.(lock := Some(LockFile([], now, 1))), now, req);
    hide StepOf, Next, Run, Pair, Exclusive;
    TwoMore(c, s, events, a, a);
    events := events + [a, a];
    TwoMore(c, s, events, b, b);
    events := events + [b, b];
  }

  lemma BothInside(f: Files, now: int, req: Request)
    ensures !Exclusive(Pair(f, now, req, Locking, Locking))
  {
    var s := Pair(f, now, req, Locking, Locking);
    assert Inside(s.procs[0].pc) && Inside(s.procs[1].pc);
  }

  lemma TwoMore(c: Codec, s: System, events: seq<Event>, a: Event, b: Event)
    ensures Run(c, s, events + [a, b]) == Next(c, Next(c, Run(c, s, events), a), b)
    ensures events == [] ==> events + [a, b] == [a, b] && Run(c, s, events) == s
  {
    hide Next;
    var all := events + [a, b];
    assert all[..|all| - 1] == events + [a];
    assert (events + [a])[..|events|] == events;
  }

  /** How many operations a process still has ahead of it when every write completes at once. */
  function Ahead(pc: Pc): nat {
    match pc
    case Begin => 17 case Ready => 16 case Stat => 15 case StaleSeen => 14 case StaleBound => 13 case Recreate => 12
    case Locking => 11 case ReadTemp => 10 case CheckAbsent => 9 case Recover => 8 case RemoveTemp => 8
    case ReadTarget => 7
    case OpenTemp => 6 case Writing => 5 case Replace => 4 case Verify => 3 case CleanTemp => 2 case CleanLock => 1
    case Stopped => 0
  }

  /** One process left to itself until it stops. */
  function Solo(c: Codec, f: Files, now: int, p: Pid, proc: Process): Files
    decreases Ahead(proc.pc)
  {
    if proc.pc.Stopped? then f
    else
      var (f', pc) := StepOf(c, f, now, p, proc, [], true);
      Solo(c, f', now, p, proc.(pc := pc))
  }

  function Plain(f: Files): Disk {
    Disk(f.target, f.temp, match f.lock case None => None case Some(l) => Some(Lock(l.content, l.mtime)))
  }

  lemma SoloCleans(c: Codec, f: Files, now: int, p: Pid, req: Request)
    ensures Solo(c, f, now, p, Process(CleanTemp, req)) == f.(temp := None, lock := None)
    ensures Solo(c, f, now, p, Process(Verify, req)) == f.(temp := None, lock := None)
  {
    var f1 := f.(temp := None);
    assert Solo(c, f, now, p, Process(CleanTemp, req)) == Solo(c, f1, now, p, Process(CleanLock, req));
    assert Solo(c, f1, now, p, Process(CleanLock, req)) == Solo(c, f1.(lock := None), now, p, Process(Stopped, req));
    assert Solo(c, f, now, p, Process(Verify, req)) == Solo(c, f, now, p, Process(CleanTemp, req));
  }

  lemma SoloInstalls(c: Codec, f: Files, now: int, p: Pid, req: Request)
    ensures Solo(c, f, now, p, Process(OpenTemp, req)) == Files(Some(req.candidate + [NEWLINE]), None, None)
  {
    var content := req.candidate + [NEWLINE];
    var f1 := f.(temp := Some([]));
    var f2 := f.(temp := Some(content));
    var f3 := f.(target := Some(content), temp := None);
    assert Solo(c, f, now, p, Process(OpenTemp, req)) == Solo(c, f1, now, p, Process(Writing, req));
    assert Solo(c, f1, now, p, Process(Writing, req)) == Solo(c, f2, now, p, Process(Replace, req));
    assert Solo(c, f2, now, p, Process(Replace, req)) == Solo(c, f3, now, p, Process(Verify, req));
    SoloCleans(c, f3, now, p, req);
  }

  lemma SoloUpdates(c: Codec, f: Files, now: int, p: Pid, req: Request)
    ensures Plain(Solo(c, f, now, p, Process(ReadTarget, req)))
         == Update(c, req, Plain(f), false, None).1.(temp := None, lock := None)
  {
    SoloCleans(c, f, now, p, req);
    SoloInstalls(c, f, now, p, req);
    hide Validate;
    var (f', pc) := StepOf(c, f, now, p, Process(ReadTarget, req), [], true);
    assert Solo(c, f, now, p, Process(ReadTarget, req)) == Solo(c, f', now, p, Process(pc, req));
  }

  lemma SoloStep(c: Codec, f: Files, now: int, p: Pid, req: Request, pc: Pc)
    requires !pc.Stopped?
    ensures var (f', pc') := StepOf(c, f, now, p, Process(pc, req), [], true);
            Solo(c, f, now, p, Process(pc, req)) == Solo(c, f', now, p, Process(pc', req))
  {
    hide StepOf;
  }

  lemma SoloRemoves(c: Codec, f: Files, now: int, p: Pid, req: Request)
    ensures Solo(c, f, now, p, Process(RemoveTemp, req)) == Solo(c, f.(temp := None), now, p, Process(ReadTarget, req))
  {
    SoloStep(c, f, now, p, req, RemoveTemp);
    hide Solo;
  }

  /** What the two operations after a matching temporary file do. */
  lemma CheckSteps(c: Codec, f: Files, now: int, p: Pid, req: Request)
    requires f.temp.Some?
    ensures StepOf(c, f, now, p, Process(CheckAbsent, req), [], true)
         == (f, if f.target.None? && req.decision.Write? then Recover else RemoveTemp)
    ensures StepOf(c, f, now, p, Process(Recover, req), [], true) == (f.(target := f.temp, temp := None), CleanTemp)
  {
  }

  lemma SoloChecks(c: Codec, f: Files, now: int, p: Pid, req: Request)
    requires f.temp.Some?
    ensures Solo(c, f, now, p, Process(CheckAbsent, req))
         == if f.target.None? && req.decision.Write? then f.(target := f.temp, temp := None, lock := None)
            else Solo(c, f.(temp := None), now, p, Process(ReadTarget, req))
  {
    hide Solo, StepOf;
    CheckSteps(c, f, now, p, req);
    SoloStep(c, f, now, p, req, CheckAbsent);
    SoloStep(c, f, now, p, req, Recover);
    SoloRemoves(c, f, now, p, req);
    SoloCleans(c, f.(target := f.temp, temp := None), now, p, req);
  }

  lemma SoloCommits(c: Codec, f: Files, now: int, p: Pid, req: Request)
    ensures Plain(Solo(c, f, now, p, Process(ReadTemp, req)))
         == Commit(c, req, Plain(f), false, None).1.(temp := None, lock := None)
  {
    SoloUpdates(c, f, now, p, req);
    SoloUpdates(c, f.(temp := None), now, p, req);
    SoloCleans(c, f, now, p, req);
    SoloRemoves(c, f, now, p, req);
    if f.temp.Some? { SoloChecks(c, f, now, p, req); }
    SoloStep(c, f, now, p, req, ReadTemp);
    hide Solo, Update, Validate, Normalize;
  }

  lemma SoloLocks(c: Codec, f: Files, now: int, p: Pid, req: Request)
    requires f.lock == Some(LockFile([], now, p))
    ensures Solo(c, f, now, p, Process(Locking, req))
         == Solo(c, f.(lock := Some(LockFile(c.lockPayload(req.projectId), now, p))), now, p, Process(ReadTemp, req))
  {
    var (f', pc) := StepOf(c, f, now, p, Process(Locking, req), [], true);
    assert f' == f.(lock := Some(LockFile(c.lockPayload(req.projectId), now, p)));
    assert Solo(c, f, now, p, Process(Locking, req)) == Solo(c, f', now, p, Process(pc, req));
  }

  /** A process that runs undisturbed does what the sequential transaction does. */
  lemma SoloIsApply(c: Codec, f: Files, now: int, p: Pid, req: Request)
    ensures Plain(Solo(c, f, now, p, Process(Begin, req))) == Apply(c, req, Plain(f), now, now, None).1
  {
    hide Commit, Normalize, Validate;
    var held := f.(lock := Some(LockFile([], now, p)));
    var locked := f.(lock := Some(LockFile(c.lockPayload(req.projectId), now, p)));
    SoloLocks(c, held, now, p, req);
    SoloCommits(c, locked, now, p, req);
    CommitIgnoresStale(c, req, Plain(locked), true);
    CommitIgnoresStale(c, req, Plain(locked), false);
    assert Plain(locked) == Plain(f).(lock := Some(Lock(c.lockPayload(req.projectId), now)));
    SoloEnters(c, f, now, p, req);
    hide Solo, StepOf;
  }

  lemma SoloEnters(c: Codec, f: Files, now: int, p: Pid, req: Request)
    ensures Solo(c, f, now, p, Process(Begin, req)) ==
      if req.decision.RetainExisting? && f.target.None? then f
      else if Acquire(c, req, Plain(f).lock, now).Refused? then f
      else Solo(c, f.(lock := Some(LockFile([], now, p))), now, p, Process(Locking, req))
  {
    var held := f.(lock := Some(LockFile([], now, p)));
    assert Solo(c, f, now, p, Process(Stopped, req)) == f;
    if req.decision.RetainExisting? && f.target.None? {
      assert Solo(c, f, now, p, Process(Begin, req)) == Solo(c, f, now, p, Process(Stopped, req));
    } else {
      assert Solo(c, f, now, p, Process(Begin, req)) == Solo(c, f, now, p, Process(Ready, req));
      if f.lock.None? {
        assert Solo(c, f, now, p, Process(Ready, req)) == Solo(c, held, now, p, Process(Locking, req));
      } else {
        assert Solo(c, f, now, p, Process(Ready, req)) == Solo(c, f, now, p, Process(Stat, req));
        SoloTakesOver(c, f, now, p, req);
      }
    }
  }

  lemma SoloTakesOver(c: Codec, f: Files, now: int, p: Pid, req: Request)
    requires f.lock.Some?
    ensures Solo(c, f, now, p, Process(Stat, req)) ==
      if Acquire(c, req, Plain(f).lock, now).Refused? then f
      else Solo(c, f.(lock := Some(LockFile([], now, p))), now, p, Process(Locking, req))
  {
    var held := f.(lock := Some(LockFile([], now, p)));
    var free := f.(lock := None);
    assert Solo(c, f, now, p, Process(Stopped, req)) == f;
    if now - f.lock.value.mtime < STALE_LOCK_SECONDS {
      assert Solo(c, f, now, p, Process(Stat, req)) == Solo(c, f, now, p, Process(Stopped, req));
    } else {
      assert Solo(c, f, now, p, Process(Stat, req)) == Solo(c, f, now, p, Process(StaleSeen, req));
      if c.bindingOk(f.lock.value.content, req.projectId) {
        assert Solo(c, f, now, p, Process(StaleSeen, req)) == Solo(c, f, now, p, Process(StaleBound, req));
        assert Solo(c, f, now, p, Process(StaleBound, req)) == Solo(c, free, now, p, Process(Recreate, req));
        assert free.(lock := Some(LockFile([], now, p))) == held;
        assert Solo(c, free, now, p, Process(Recreate, req)) == Solo(c, held, now, p, Process(Locking, req));
      } else {
        assert Solo(c, f, now, p, Process(StaleSeen, req)) == Solo(c, f, now, p, Process(Stopped, req));
      }
    }
  }

  lemma CommitIgnoresStale(c: Codec, req: Request, d: Disk, stale: bool)
    ensures Commit(c, req, d, stale, None).1 == Commit(c, req, d, false, None).1
    ensures !Commit(c, req, d, stale, None).0.CrashSimulated()
  {
  }
}
