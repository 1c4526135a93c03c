/** The last-good transaction: lock, recover or write the temporary file, replace the target, release. */
module ConfigApply {
  import opened Bytes

  const STALE_LOCK_SECONDS: int := 300
  const NEWLINE: Byte := 10

  type Digest = string

  /** The parts of the environment the protocol relies on but does not define: JSON, SHA-256 and the lock's own
      content. */
  datatype Codec = Codec(
    canonical: Bytes -> Option<Bytes>,        // parse a JSON object and print it canonically
    schemaOk: Bytes -> bool,                  // required keys present, schema_version 1
    configHash: Bytes -> string,
    sha256: Bytes -> Digest,
    lockPayload: string -> Bytes,
    bindingOk: (Bytes, string) -> bool        // the lock names this contract version, project and target
  )

  datatype Decision = Write | RetainExisting

  datatype Request = Request(projectId: string, candidate: Bytes, configHash: string, decision: Decision)

  datatype Lock = Lock(content: Bytes, mtime: int)
  datatype Disk = Disk(target: Option<Bytes>, temp: Option<Bytes>, lock: Option<Lock>)

  datatype Fault = AfterLock | AfterTempSync | AfterReplace

  datatype Code =
    | LockHeld | StaleLockInvalid | RetainTargetMissing
    | EncodingInvalid | JsonInvalid | SchemaInvalid | HashMismatch | PostWriteVerifyFailed
    | FaultInjected(fault: Fault)

  datatype Action = RecoverTemp | RetainedExisting | AlreadyCurrent | Written

  datatype Outcome =
    | Done(action: Action, stored: Bytes, staleRecovered: bool, mutated: bool)
    | Failed(code: Code)
  {
    predicate CrashSimulated() { Failed? && code.FaultInjected? }
  }

  datatype Checked = Ok(payload: Bytes) | Bad(code: Code)

  function EndsWithNewline(raw: Bytes): bool { |raw| > 0 && raw[|raw| - 1] == NEWLINE }

  /** `_normalized_json_payload`: one trailing newline is dropped; what remains must be a JSON object. */
  function Normalize(c: Codec, raw: Bytes): (r: Checked)
    ensures r.Bad? ==> r.code.EncodingInvalid? || r.code.JsonInvalid?
  {
    var payload := if EndsWithNewline(raw) then raw[..|raw| - 1] else raw;
    if payload == [] || EndsWithNewline(payload) then Bad(EncodingInvalid)
    else match c.canonical(payload)
      case None => Bad(JsonInvalid)
      case Some(canonical) => Ok(canonical)
  }

  /** `_validate_target_snapshot` */
  function Validate(c: Codec, raw: Bytes, expected: Option<string>): (r: Checked)
    ensures r.Bad? ==> r.code.EncodingInvalid? || r.code.JsonInvalid? || r.code.SchemaInvalid? || r.code.HashMismatch?
  {
    match Normalize(c, raw)
    case Bad(code) => Bad(code)
    case Ok(canonical) =>
      if !c.schemaOk(canonical) then Bad(SchemaInvalid)
      else if expected.Some? && c.configHash(canonical) != expected.value then Bad(HashMismatch)
      else Ok(canonical)
  }

  datatype Acquired = Held(staleRecovered: bool) | Refused(code: Code)

  /** `_acquire_lock`: a fresh lock is respected, a stale one is taken over only when it is bound to this project. */
  function Acquire(c: Codec, req: Request, lock: Option<Lock>, now: int): Acquired {
    match lock
    case None => Held(false)
    case Some(l) =>
      if now - l.mtime < STALE_LOCK_SECONDS then Refused(LockHeld)
      else if !c.bindingOk(l.content, req.projectId) then Refused(StaleLockInvalid)
      else Held(true)
  }

  /** The body of the `try`: what happens between acquiring the lock and the cleanup. */
  function Commit(c: Codec, req: Request, d: Disk, stale: bool, fault: Option<Fault>): (Outcome, Disk) {
    if fault == Some(AfterLock) then (Failed(FaultInjected(AfterLock)), d)
    else if d.temp.Some? then
      match Normalize(c, d.temp.value)
      case Bad(code) => (Failed(code), d)
      case Ok(payload) =>
        if c.sha256(payload) == c.sha256(req.candidate) && d.target.None? && req.decision.Write? then
          var d' := d.(target := d.temp, temp := None);
          match Validate(c, d.temp.value, Some(req.configHash))
          case Bad(code) => (Failed(code), d')
          case Ok(stored) => (Done(RecoverTemp, stored, stale, true), d')
        else
          Update(c, req, d.(temp := None), stale, fault)
    else
      Update(c, req, d, stale, fault)
  }

  function Update(c: Codec, req: Request, d: Disk, stale: bool, fault: Option<Fault>): (Outcome, Disk) {
    match d.target
    case Some(raw) =>
      (match Validate(c, raw, if req.decision.RetainExisting? then Some(req.configHash) else None)
       case Bad(code) => (Failed(code), d)
       case Ok(current) =>
         if req.decision.RetainExisting? then (Done(RetainedExisting, current, stale, false), d)
         else if c.sha256(current) == c.sha256(req.candidate) then (Done(AlreadyCurrent, current, stale, false), d)
         else Install(c, req, d, stale, fault))
    case None =>
      if req.decision.RetainExisting? then (Failed(RetainTargetMissing), d)
      else Install(c, req, d, stale, fault)
  }

  function Install(c: Codec, req: Request, d: Disk, stale: bool, fault: Option<Fault>): (Outcome, Disk) {
    var content := req.candidate + [NEWLINE];
    if fault == Some(AfterTempSync) then (Failed(FaultInjected(AfterTempSync)), d.(temp := Some(content)))
    else
      var d' := d.(target := Some(content), temp := None);
      if fault == Some(AfterReplace) then (Failed(FaultInjected(AfterReplace)), d')
      else match Validate(c, content, Some(req.configHash))
        case Bad(code) => (Failed(code), d')
        case Ok(stored) =>
          if c.sha256(stored) != c.sha256(req.candidate) then (Failed(PostWriteVerifyFailed), d')
          else (Done(Written, stored, stale, true), d')
  }

  /** The disk once the lock has been written. */
  function Locked(c: Codec, req: Request, d: Disk, clock: int): Disk {
    d.(lock := Some(Lock(c.lockPayload(req.projectId), clock)))
  }

  /** The whole run, as a function of the disk it finds. */
  function Apply(c: Codec, req: Request, d: Disk, now: int, clock: int, fault: Option<Fault>): (Outcome, Disk) {
    if req.decision.RetainExisting? && d.target.None? then (Failed(RetainTargetMissing), d)
    else match Acquire(c, req, d.lock, now)
      case Refused(code) => (Failed(code), d)
      case Held(stale) =>
        var (outcome, d') := Commit(c, req, Locked(c, req, d, clock), stale, fault);
        (outcome, if outcome.CrashSimulated() then d' else d'.(temp := None, lock := None))
  }

  /** The target holds a whole snapshot carrying the candidate's digest. */
  ghost predicate HoldsCandidate(c: Codec, req: Request, target: Option<Bytes>) {
    target.Some? && Normalize(c, target.value).Ok?
        && c.sha256(Normalize(c, target.value).payload) == c.sha256(req.candidate)
  }

  /** ... or exactly the bytes this run writes, which are such a snapshot when the request is well formed. */
  ghost predicate CarriesCandidate(c: Codec, req: Request, target: Option<Bytes>) {
    HoldsCandidate(c, req, target) || target == Some(req.candidate + [NEWLINE])
  }

  /** A completely written lock is recognised as this project's. */
  ghost predicate LockBinds(c: Codec, req: Request) {
    c.bindingOk(c.lockPayload(req.projectId), req.projectId)
  }

  /** What may be found on disk if a run from `d0` stops at any point. */
  ghost predicate Interrupted(c: Codec, req: Request, d0: Disk, d: Disk) {
    && (d.target == d0.target || (req.decision.Write? && CarriesCandidate(c, req, d.target)))
    && (d.lock == d0.lock || d.lock.None? || c.bindingOk(d.lock.value.content, req.projectId)
        || (d.target == d0.target && d.temp == d0.temp))
  }

  /** The candidate is its own canonical form, a valid snapshot with the planned hash; a complete lock is recognised. */
  ghost predicate WellFormed(c: Codec, req: Request) {
    && req.candidate != [] && !EndsWithNewline(req.candidate)
    && c.canonical(req.candidate) == Some(req.candidate)
    && c.schemaOk(req.candidate) && c.configHash(req.candidate) == req.configHash
    && LockBinds(c, req)
  }

  class StateDirectory {
    var target: Option<Bytes>
    var temp: Option<Bytes>
    var lock: Option<Lock>
    ghost var visited: seq<Disk>   // every state the disk has passed through

    ghost function View(): Disk
      reads this
    {
      Disk(target, temp, lock)
    }

    constructor (d: Disk)
      ensures View() == d && visited == [d]
    {
      target, temp, lock := d.target, d.temp, d.lock;
      visited := [d];
    }

    /** Everything visited since position n may be what an interrupted run leaves. */
    ghost predicate Since(c: Codec, req: Request, d0: Disk, n: nat)
      reads this
    {
      n <= |visited| && forall i :: n <= i < |visited| ==> Interrupted(c, req, d0, visited[i])
    }

    /** Create the lock exclusively and write it; `torn` are the partial contents it may pass through. */
    method AcquireLock(c: Codec, req: Request, now: int, clock: int, ghost torn: seq<Bytes>) returns (r: Acquired)
      requires LockBinds(c, req)
      modifies this`lock, this`visited
      ensures r == Acquire(c, req, old(lock), now)
      ensures r.Refused? ==> lock == old(lock) && visited == old(visited)
      ensures r.Held? ==> lock == Some(Lock(c.lockPayload(req.projectId), clock))
      ensures old(visited) <= visited
      ensures Since(c, req, old(View()), |old(visited)|)
      ensures r.Held? ==> old(View()).(lock := Some(Lock([], clock))) in visited
    {
      var stale := false;
      if lock.Some? {
        if now - lock.value.mtime < STALE_LOCK_SECONDS {
          return Refused(LockHeld);
        }
        if !c.bindingOk(lock.value.content, req.projectId) {
          return Refused(StaleLockInvalid);
        }
        lock := None;
        visited := visited + [View()];
        stale := true;
      }
      lock := Some(Lock([], clock));
      ghost var view := View();
      ghost var partial := seq(|torn|, i requires 0 <= i < |torn| => view.(lock := Some(Lock(torn[i], clock))));
      visited := visited + [View()] + partial;
      lock := Some(Lock(c.lockPayload(req.projectId), clock));
      visited := visited + [View()];
      r := Held(stale);
    }

    /** Truncate and write the temporary file; `torn` are the partial contents it may pass through. */
    method WriteTemp(c: Codec, req: Request, content: Bytes, ghost d0: Disk, ghost n: nat, ghost torn: seq<Bytes>)
      requires n <= |visited| && Since(c, req, d0, n) && Interrupted(c, req, d0, View())
      requires lock.Some? && c.bindingOk(lock.value.content, req.projectId)
      modifies this`temp, this`visited
      ensures temp == Some(content)
      ensures old(visited) <= visited && Since(c, req, d0, n)
    {
      temp := Some([]);
      ghost var view := View();
      ghost var partial := seq(|torn|, i requires 0 <= i < |torn| => view.(temp := Some(torn[i])));
      visited := visited + [View()] + partial;
      temp := Some(content);
      visited := visited + [View()];
    }

    /** `os.replace(temp, target)` */
    method Replace(c: Codec, req: Request, ghost d0: Disk, ghost n: nat)
      requires n <= |visited| && Since(c, req, d0, n)
      requires temp.Some? && req.decision.Write? && CarriesCandidate(c, req, temp)
      requires lock.Some? && c.bindingOk(lock.value.content, req.projectId)
      modifies this`temp, this`target, this`visited
      ensures temp == None && target == old(temp)
      ensures old(visited) <= visited && Since(c, req, d0, n)
    {
      target, temp := temp, None;
      visited := visited + [View()];
    }

    method UnlinkTemp(c: Codec, req: Request, ghost d0: Disk, ghost n: nat)
      requires n <= |visited| && Since(c, req, d0, n)
      requires target == d0.target || (req.decision.Write? && CarriesCandidate(c, req, target))
      requires lock.Some? && c.bindingOk(lock.value.content, req.projectId)
      modifies this`temp, this`visited
      ensures temp == None
      ensures old(visited) <= visited && Since(c, req, d0, n)
    {
      temp := None;
      visited := visited + [View()];
    }

    method UnlinkLock(c: Codec, req: Request, ghost d0: Disk, ghost n: nat)
      requires n <= |visited| && Since(c, req, d0, n)
      requires target == d0.target || (req.decision.Write? && CarriesCandidate(c, req, target))
      modifies this`lock, this`visited
      ensures lock == None
      ensures old(visited) <= visited && Since(c, req, d0, n)
    {
      lock := None;
      visited := visited + [View()];
    }

    /** The body of the `try` block, with the lock held. */
    method Transact(c: Codec, req: Request, stale: bool, fault: Option<Fault>, ghost d0: Disk, ghost n: nat,
                    ghost torn: seq<Bytes>)
      returns (outcome: Outcome)
      requires LockBinds(c, req) && n <= |visited| && Since(c, req, d0, n)
      requires target == d0.target && lock.Some? && c.bindingOk(lock.value.content, req.projectId)
      modifies this`target, this`temp, this`visited
      ensures (outcome, View()) == Commit(c, req, old(View()), stale, fault)
      ensures old(visited) <= visited && Since(c, req, d0, n)
      ensures target == d0.target || (req.decision.Write? && CarriesCandidate(c, req, target))
    {
      if fault == Some(AfterLock) {
        return Failed(FaultInjected(AfterLock));
      }
      if temp.Some? {
        var checked := Normalize(c, temp.value);
        if checked.Bad? {
          return Failed(checked.code);
        }
        if c.sha256(checked.payload) == c.sha256(req.candidate) && target.None? && req.decision.Write? {
          Replace(c, req, d0, n);
          var stored := Validate(c, target.value, Some(req.configHash));
          if stored.Bad? {
            return Failed(stored.code);
          }
          return Done(RecoverTemp, stored.payload, stale, true);
        }
        UnlinkTemp(c, req, d0, n);
      }
      if target.Some? {
        var current := Validate(c, target.value, if req.decision.RetainExisting? then Some(req.configHash) else None);
        if current.Bad? {
          return Failed(current.code);
        }
        if req.decision.RetainExisting? {
          return Done(RetainedExisting, current.payload, stale, false);
        }
        if c.sha256(current.payload) == c.sha256(req.candidate) {
          return Done(AlreadyCurrent, current.payload, stale, false);
        }
      } else if req.decision.RetainExisting? {
        return Failed(RetainTargetMissing);
      }
      WriteTemp(c, req, req.candidate + [NEWLINE], d0, n, torn);
      if fault == Some(AfterTempSync) {
        return Failed(FaultInjected(AfterTempSync));
      }
      Replace(c, req, d0, n);
      if fault == Some(AfterReplace) {
        return Failed(FaultInjected(AfterReplace));
      }
      var stored := Validate(c, target.value, Some(req.configHash));
      if stored.Bad? {
        return Failed(stored.code);
      }
      if c.sha256(stored.payload) != c.sha256(req.candidate) {
        return Failed(PostWriteVerifyFailed);
      }
      outcome := Done(Written, stored.payload, stale, true);
    }

    /** `apply_config_last_good`, from the plan's decision on. */
    method ApplyLastGood(c: Codec, req: Request, now: int, clock: int, fault: Option<Fault>,
                         ghost tornLock: seq<Bytes>, ghost tornTemp: seq<Bytes>)
      returns (outcome: Outcome)
      requires LockBinds(c, req)
      modifies this
      ensures (outcome, View()) == Apply(c, req, old(View()), now, clock, fault)
      ensures old(visited) <= visited
      ensures forall i :: |old(visited)| <= i < |visited| ==> Interrupted(c, req, old(View()), visited[i])
      ensures (!(req.decision.RetainExisting? && old(target).None?) && Acquire(c, req, old(lock), now).Held?)
                ==> old(View()).(lock := Some(Lock([], clock))) in visited
    {
      ghost var d0, n := View(), |visited|;
      if req.decision.RetainExisting? && target.None? {
        return Failed(RetainTargetMissing);
      }
      var acquired := AcquireLock(c, req, now, clock, tornLock);
      if acquired.Refused? {
        return Failed(acquired.code);
      }
      outcome := Transact(c, req, acquired.staleRecovered, fault, d0, n, tornTemp);
      if !outcome.CrashSimulated() {
        UnlinkTemp(c, req, d0, n);
        UnlinkLock(c, req, d0, n);
      }
    }
  }

  lemma CandidateNormalizes(c: Codec, req: Request)
    requires WellFormed(c, req)
    ensures Normalize(c, req.candidate + [NEWLINE]) == Ok(req.candidate)
    ensures Validate(c, req.candidate + [NEWLINE], Some(req.configHash)) == Ok(req.candidate)
    ensures HoldsCandidate(c, req, Some(req.candidate + [NEWLINE]))
    ensures forall target :: CarriesCandidate(c, req, target) <==> HoldsCandidate(c, req, target)
  {
    var raw := req.candidate + [NEWLINE];
    assert raw[..|raw| - 1] == req.candidate;
  }

  /** Another byte string with the candidate's digest. */
  ghost predicate Collides(c: Codec, req: Request, x: Bytes) {
    x != req.candidate && c.sha256(x) == c.sha256(req.candidate)
  }

  ghost predicate CollidesOn(c: Codec, req: Request, file: Option<Bytes>) {
    file.Some? && Normalize(c, file.value).Ok? && Collides(c, req, Normalize(c, file.value).payload)
  }

  /** The temp or the target on the disk is a snapshot whose digest a run would mistake for the candidate's. */
  ghost predicate HoldsCollision(c: Codec, req: Request, d: Disk) {
    CollidesOn(c, req, d.temp) || CollidesOn(c, req, d.target)
  }

  ghost predicate Installed(c: Codec, req: Request, d: Disk) {
    d.target.Some? && Normalize(c, d.target.value) == Ok(req.candidate)
  }

  ghost predicate AbsentOrValid(c: Codec, target: Option<Bytes>) {
    target.None? || Validate(c, target.value, None).Ok?
  }

  /** The lock does not stand in the way: absent, or stale and bound to this project. */
  ghost predicate Available(c: Codec, req: Request, lock: Option<Lock>, now: int) {
    lock.None? || (now - lock.value.mtime >= STALE_LOCK_SECONDS && c.bindingOk(lock.value.content, req.projectId))
  }

  ghost predicate TornTemp(c: Codec, temp: Option<Bytes>) {
    temp.Some? && Normalize(c, temp.value).Bad?
  }

  lemma InstallEffect(c: Codec, req: Request, d: Disk, stale: bool, fault: Option<Fault>)
    ensures var (outcome, d') := Install(c, req, d, stale, fault);
            && d'.lock == d.lock && (d'.target == d.target || CarriesCandidate(c, req, d'.target))
            && (outcome.Failed? ==> !outcome.code.LockHeld? && !outcome.code.StaleLockInvalid?)
            && (fault.None? ==> !outcome.CrashSimulated())
  {
    hide Normalize;
  }

  lemma UpdateEffect(c: Codec, req: Request, d: Disk, stale: bool, fault: Option<Fault>)
    ensures var (outcome, d') := Update(c, req, d, stale, fault);
            && d'.lock == d.lock
               && (d'.target == d.target || (req.decision.Write? && CarriesCandidate(c, req, d'.target)))
            && (outcome.Failed? ==> !outcome.code.LockHeld? && !outcome.code.StaleLockInvalid?)
            && (fault.None? ==> !outcome.CrashSimulated())
  {
    hide Install, Normalize;
    InstallEffect(c, req, d, stale, fault);
  }

  /** The transaction keeps the lock, touches the target only to install the candidate, and fails for reasons of its
      own. */
  lemma CommitEffect(c: Codec, req: Request, d: Disk, stale: bool, fault: Option<Fault>)
    ensures var (outcome, d') := Commit(c, req, d, stale, fault);
            && d'.lock == d.lock
               && (d'.target == d.target || (req.decision.Write? && CarriesCandidate(c, req, d'.target)))
            && (outcome.Failed? ==> !outcome.code.LockHeld? && !outcome.code.StaleLockInvalid?)
            && (fault.None? ==> !outcome.CrashSimulated())
  {
    hide Update;
    UpdateEffect(c, req, d, stale, fault);
    UpdateEffect(c, req, d.(temp := None), stale, fault);
  }

  /** A refused run leaves lock and temp alone; every other run without an injected fault removes both. */
  lemma LockDiscipline(c: Codec, req: Request, d: Disk, now: int, clock: int)
    ensures var (outcome, d') := Apply(c, req, d, now, clock, None);
            && ((outcome.Failed? && (outcome.code.LockHeld? || outcome.code.StaleLockInvalid?))
                  <==> (!Available(c, req, d.lock, now) && !(req.decision.RetainExisting? && d.target.None?)))
            && (!Available(c, req, d.lock, now) || (req.decision.RetainExisting? && d.target.None?) ==> d' == d)
            && (Available(c, req, d.lock, now) && !(req.decision.RetainExisting? && d.target.None?) ==>
                d'.lock.None? && d'.temp.None?)
  {
    hide Commit;
    CommitEffect(c, req, Locked(c, req, d, clock), false, None);
    CommitEffect(c, req, Locked(c, req, d, clock), true, None);
  }

  /** A retain-existing run never changes the target, whatever fault strikes. */
  lemma RetainKeepsTarget(c: Codec, req: Request, d: Disk, now: int, clock: int, fault: Option<Fault>)
    requires req.decision.RetainExisting?
    ensures Apply(c, req, d, now, clock, fault).1.target == d.target
  {
    hide Commit;
    CommitEffect(c, req, Locked(c, req, d, clock), false, fault);
    CommitEffect(c, req, Locked(c, req, d, clock), true, fault);
  }

  /** The state a run ends in is among those an interrupted run may leave: the target is never anything but old or
      candidate. */
  lemma RunIsSafe(c: Codec, req: Request, d: Disk, now: int, clock: int, fault: Option<Fault>)
    requires LockBinds(c, req)
    ensures Interrupted(c, req, d, Apply(c, req, d, now, clock, fault).1)
  {
    hide Commit;
    CommitEffect(c, req, Locked(c, req, d, clock), false, fault);
    CommitEffect(c, req, Locked(c, req, d, clock), true, fault);
  }

  /** One run from a lock that is out of the way, with an absent or valid target; or else the disk holds a snapshot
      that collides with the candidate. */
  lemma OneRun(c: Codec, req: Request, d: Disk, now: int, clock: int)
    requires WellFormed(c, req) && req.decision.Write?
    requires AbsentOrValid(c, d.target) && Available(c, req, d.lock, now)
    ensures var (outcome, d') := Apply(c, req, d, now, clock, None);
            || (&& d'.temp.None? && d'.lock.None?
                && (outcome.Failed? <==> TornTemp(c, d.temp))
                && (if outcome.Failed? then d'.target == d.target else Installed(c, req, d')))
            || HoldsCollision(c, req, d)
    ensures !HoldsCollision(c, req, d) ==> !HoldsCollision(c, req, Apply(c, req, d, now, clock, None).1)
  {
    CandidateNormalizes(c, req);
  }

  /** Two runs reach the candidate with lock and temp gone exactly when the lock was out of the way and the target
      absent or valid; the first of them fails only over a torn temp. Otherwise the disk holds a snapshot that
      collides with the candidate. */
  lemma Recovery(c: Codec, req: Request, d: Disk, now: int, clock: int, clock': int)
    requires WellFormed(c, req) && req.decision.Write?
    ensures var d1 := Apply(c, req, d, now, clock, None).1;
            var (outcome, d2) := Apply(c, req, d1, now, clock', None);
            || ((outcome.Done? && Installed(c, req, d2) && d2.temp.None? && d2.lock.None?)
                  <==> Available(c, req, d.lock, now) && AbsentOrValid(c, d.target))
            || HoldsCollision(c, req, d)
  {
    hide Apply, HoldsCollision;
    var d1 := Apply(c, req, d, now, clock, None).1;
    if Available(c, req, d.lock, now) && AbsentOrValid(c, d.target) {
      TwoRuns(c, req, d, now, clock, clock');
    } else if !Available(c, req, d.lock, now) {
      LockDiscipline(c, req, d, now, clock);
      LockDiscipline(c, req, d1, now, clock');
    } else {
      InvalidStays(c, req, d, now, clock);
      InvalidStays(c, req, d1, now, clock');
    }
  }

  /** Two runs from a lock that is out of the way, with an absent or valid target. */
  lemma TwoRuns(c: Codec, req: Request, d: Disk, now: int, clock: int, clock': int)
    requires WellFormed(c, req) && req.decision.Write?
    requires AbsentOrValid(c, d.target) && Available(c, req, d.lock, now)
    ensures var d1 := Apply(c, req, d, now, clock, None).1;
            var (outcome, d2) := Apply(c, req, d1, now, clock', None);
            (outcome.Done? && Installed(c, req, d2) && d2.temp.None? && d2.lock.None?) || HoldsCollision(c, req, d)
  {
    hide Apply, HoldsCollision;
    OneRun(c, req, d, now, clock);
    if !HoldsCollision(c, req, d) {
      var d1 := Apply(c, req, d, now, clock, None).1;
      InstalledIsValid(c, req, d1);
      OneRun(c, req, d1, now, clock');
    }
  }

  lemma InstalledIsValid(c: Codec, req: Request, d: Disk)
    requires WellFormed(c, req)
    ensures Installed(c, req, d) ==> AbsentOrValid(c, d.target)
  {
  }

  lemma InvalidStays(c: Codec, req: Request, d: Disk, now: int, clock: int)
    requires WellFormed(c, req) && req.decision.Write? && !AbsentOrValid(c, d.target)
    ensures var (outcome, d') := Apply(c, req, d, now, clock, None); outcome.Failed? && d'.target == d.target
  {
  }

  /** A lock that is not bound to this project, such as one whose write was interrupted, blocks every later run,
      however old it is. */
  lemma TornLockBlocksForever(c: Codec, req: Request, d: Disk, now: int, clock: int, fault: Option<Fault>)
    requires req.decision.Write? && d.lock.Some? && !c.bindingOk(d.lock.value.content, req.projectId)
    ensures Apply(c, req, d, now, clock, fault).1 == d && Apply(c, req, d, now, clock, fault).0.Failed?
  {
  }

  /** After a crash at any point of a first run, which may have been taking over a stale lock of this project, once
      the lock is stale: either two reruns install the candidate, or the crash struck while the lock itself was being
      written, and then nothing else had changed. Otherwise the disk holds a snapshot that collides with the
      candidate. */
  lemma CrashRecovery(c: Codec, req: Request, d0: Disk, d: Disk, now: int, clock: int, clock': int)
    requires WellFormed(c, req) && req.decision.Write?
    requires AbsentOrValid(c, d0.target) && Interrupted(c, req, d0, d)
    requires d0.lock.Some? ==> c.bindingOk(d0.lock.value.content, req.projectId)
    requires d.lock.Some? ==> now - d.lock.value.mtime >= STALE_LOCK_SECONDS
    ensures var d1 := Apply(c, req, d, now, clock, None).1;
            var (outcome, d2) := Apply(c, req, d1, now, clock', None);
            || (outcome.Done? && Installed(c, req, d2) && d2.temp.None? && d2.lock.None?)
            || (d.lock.Some? && !c.bindingOk(d.lock.value.content, req.projectId) && d == d0.(lock := d.lock))
            || HoldsCollision(c, req, d)
  {
    hide Apply, HoldsCollision;
    if Available(c, req, d.lock, now) {
      InterruptedTarget(c, req, d0, d);
      if AbsentOrValid(c, d.target) { TwoRuns(c, req, d, now, clock, clock'); }
    }
  }

  lemma InterruptedTarget(c: Codec, req: Request, d0: Disk, d: Disk)
    requires WellFormed(c, req)
    requires AbsentOrValid(c, d0.target) && Interrupted(c, req, d0, d)
    ensures AbsentOrValid(c, d.target) || HoldsCollision(c, req, d)
  {
    CandidateNormalizes(c, req);
  }

  /** Once the candidate is installed, running again reports it current and leaves the disk as it was. */
  lemma SecondRunIsCurrent(c: Codec, req: Request, d: Disk, now: int, clock: int)
    requires WellFormed(c, req) && req.decision.Write?
    requires Installed(c, req, d) && d.temp.None? && d.lock.None?
    ensures Apply(c, req, d, now, clock, None) == (Done(AlreadyCurrent, req.candidate, false, false), d)
  {
  }

  /** Serial history: each state follows its predecessor by a run that ended or was interrupted, for that step's own
      request. */
  ghost predicate History(c: Codec, reqs: seq<Request>, disks: seq<Disk>) {
    |disks| == |reqs| + 1 && forall i :: 0 <= i < |reqs| ==>
        WellFormed(c, reqs[i]) && Interrupted(c, reqs[i], disks[i], disks[i + 1])
  }

  /** Over any serial history, the target is the original one or a whole snapshot some write request asked for. */
  lemma {:induction false} TargetAlwaysWhole(c: Codec, reqs: seq<Request>, disks: seq<Disk>)
    requires History(c, reqs, disks)
    ensures disks[|reqs|].target == disks[0].target
         || exists i :: 0 <= i < |reqs| && reqs[i].decision.Write? && HoldsCandidate(c, reqs[i], disks[|reqs|].target)
  {
    if reqs != [] {
      var n := |reqs| - 1;
      var reqs', disks' := reqs[..n], disks[..n + 1];
      assert Interrupted(c, reqs[n], disks[n], disks[n + 1]);
      TargetAlwaysWhole(c, reqs', disks');
      if disks[n + 1].target == disks[n].target {
        if i :| 0 <= i < n && reqs'[i].decision.Write? && HoldsCandidate(c, reqs'[i], disks'[n].target) {
          assert reqs[i] == reqs'[i];
        }
      } else {
        CandidateNormalizes(c, reqs[n]);
        assert HoldsCandidate(c, reqs[n], disks[|reqs|].target);
      }
    }
  }
}
