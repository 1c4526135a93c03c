/** Which outcome a run of the last-good transaction has, read off the files and the lock it finds. */
module ConfigApplyOutcomes {
  import opened Bytes
  import opened ConfigApply

  // ---- What the files on the disk hold ----

  /** The bytes without one final line feed. */
  ghost function Trimmed(raw: Bytes): Bytes {
    if |raw| > 0 && raw[|raw| - 1] == 10 then raw[..|raw| - 1] else raw
  }

  /** The file is a JSON object whose canonical form is x, with at most one line feed at its end. */
  ghost predicate Holds(c: Codec, file: Option<Bytes>, x: Bytes) {
    file.Some? && Trimmed(file.value) != [] && Trimmed(Trimmed(file.value)) == Trimmed(file.value)
    && c.canonical(Trimmed(file.value)) == Some(x)
  }

  ghost predicate Unreadable(c: Codec, file: Option<Bytes>) {
    file.Some? && forall x :: !Holds(c, file, x)
  }

  /** There is no lock, or one at least 300 seconds old that is bound to this project. */
  ghost predicate LockFree(c: Codec, req: Request, lock: Option<Lock>, now: int) {
    lock.None? || (now - lock.value.mtime >= 300 && c.bindingOk(lock.value.content, req.projectId))
  }

  /** The digest of x is the candidate's. */
  ghost predicate Matches(c: Codec, req: Request, x: Bytes) { c.sha256(x) == c.sha256(req.candidate) }

  lemma HoldsIff(c: Codec, file: Option<Bytes>, x: Bytes)
    ensures Holds(c, file, x) <==> file.Some? && Normalize(c, file.value) == Ok(x)
  {
  }

  lemma UnreadableIff(c: Codec, file: Option<Bytes>)
    ensures Unreadable(c, file) <==> file.Some? && Normalize(c, file.value).Bad?
  {
    forall x ensures Holds(c, file, x) <==> file.Some? && Normalize(c, file.value) == Ok(x) { HoldsIff(c, file, x); }
    if file.Some? && Normalize(c, file.value).Ok? { assert Holds(c, file, Normalize(c, file.value).payload); }
  }

  // ---- Retain-existing runs ----

  /** A retained target: readable as x, of the right form, and carrying the planned configuration hash. */
  ghost predicate Retains(c: Codec, req: Request, d: Disk, now: int, x: Bytes) {
    && LockFree(c, req, d.lock, now) && !Unreadable(c, d.temp)
    && Holds(c, d.target, x) && c.schemaOk(x) && c.configHash(x) == req.configHash
  }

  /** A retain-existing run without fault ends well exactly when the lock is free, the temp is not torn, and the
      target is a snapshot with the planned configuration hash, which it then reports. */
  lemma RetainIff(c: Codec, req: Request, d: Disk, now: int, clock: int)
    requires req.decision.RetainExisting?
    ensures var outcome := Apply(c, req, d, now, clock, None).0;
            && (outcome.Done? <==> exists x :: Retains(c, req, d, now, x))
            && (forall x :: Retains(c, req, d, now, x) ==> outcome == Done(RetainedExisting, x, d.lock.Some?, false))
  {
    hide Normalize, Unreadable, Holds;
    UnreadableIff(c, d.temp);
    forall x ensures Holds(c, d.target, x) <==> d.target.Some? && Normalize(c, d.target.value) == Ok(x) {
      HoldsIff(c, d.target, x);
    }
    if Apply(c, req, d, now, clock, None).0.Done? {
      assert Retains(c, req, d, now, Normalize(c, d.target.value).payload);
    }
  }

  // ---- Write runs ----

  /** The temp of an interrupted run is moved into place. */
  ghost predicate Recovers(c: Codec, req: Request, d: Disk, now: int, x: Bytes) {
    LockFree(c, req, d.lock, now) && d.target.None? && Holds(c, d.temp, x) && Matches(c, req, x)
  }

  /** The target is already a snapshot with the candidate's digest. */
  ghost predicate Current(c: Codec, req: Request, d: Disk, now: int, x: Bytes) {
    && LockFree(c, req, d.lock, now) && !Unreadable(c, d.temp)
    && Holds(c, d.target, x) && c.schemaOk(x) && Matches(c, req, x)
  }

  /** The candidate has to be written: over nothing, or over a snapshot with another digest. */
  ghost predicate Writes(c: Codec, req: Request, d: Disk, now: int) {
    && LockFree(c, req, d.lock, now) && !Unreadable(c, d.temp)
    && (if d.target.None? then forall x :: Holds(c, d.temp, x) ==> !Matches(c, req, x)
        else exists x :: Holds(c, d.target, x) && c.schemaOk(x) && !Matches(c, req, x))
  }

  /** Which write run does what, and what it leaves: exactly these three succeed. */
  lemma WriteIff(c: Codec, req: Request, d: Disk, now: int, clock: int)
    requires WellFormed(c, req) && req.decision.Write?
    ensures var (outcome, d') := Apply(c, req, d, now, clock, None);
            && (outcome.Done? <==>
                  || (exists x :: Recovers(c, req, d, now, x) && c.schemaOk(x) && c.configHash(x) == req.configHash)
                  || (exists x :: Current(c, req, d, now, x))
                  || Writes(c, req, d, now))
            && (forall x :: Recovers(c, req, d, now, x) && outcome.Done? ==>
                  (outcome, d') == (Done(RecoverTemp, x, d.lock.Some?, true), Disk(d.temp, None, None)))
            && (forall x :: Current(c, req, d, now, x) ==>
                  (outcome, d') == (Done(AlreadyCurrent, x, d.lock.Some?, false), Disk(d.target, None, None)))
            && (Writes(c, req, d, now) ==>
                  (outcome, d') == (Done(Written, req.candidate, d.lock.Some?, true),
                                    Disk(Some(req.candidate + [10]), None, None)))
  {
    CandidateNormalizes(c, req);
    hide Normalize, Unreadable, Holds, WellFormed;
    UnreadableIff(c, d.temp);
    forall x ensures Holds(c, d.target, x) <==> d.target.Some? && Normalize(c, d.target.value) == Ok(x) {
      HoldsIff(c, d.target, x);
    }
    forall x ensures Holds(c, d.temp, x) <==> d.temp.Some? && Normalize(c, d.temp.value) == Ok(x) {
      HoldsIff(c, d.temp, x);
    }
    if d.target.Some? && Normalize(c, d.target.value).Ok? {
      assert Holds(c, d.target, Normalize(c, d.target.value).payload);
    }
    if d.temp.Some? && Normalize(c, d.temp.value).Ok? {
      assert Holds(c, d.temp, Normalize(c, d.temp.value).payload);
    }
    if d.target.Some? && Normalize(c, d.target.value).Ok? && Apply(c, req, d, now, clock, None).0.Done? {
      var x := Normalize(c, d.target.value).payload;
      assert Current(c, req, d, now, x) || Writes(c, req, d, now);
    }
    if d.target.None? && d.temp.Some? && Normalize(c, d.temp.value).Ok? {
      var x := Normalize(c, d.temp.value).payload;
      assert Matches(c, req, x) && LockFree(c, req, d.lock, now) ==> Recovers(c, req, d, now, x);
    }
  }

  /** The refusals of the lock: too young, or old but not this project's. A retain run looks for a target first. */
  lemma RefusedIff(c: Codec, req: Request, d: Disk, now: int, clock: int, fault: Option<Fault>)
    ensures var (outcome, d') := Apply(c, req, d, now, clock, fault);
            var looks := req.decision.Write? || d.target.Some?;
            && (outcome == Failed(LockHeld) <==> looks && d.lock.Some? && now - d.lock.value.mtime < 300)
            && (outcome == Failed(StaleLockInvalid)
                <==> looks && d.lock.Some? && now - d.lock.value.mtime >= 300
                     && !c.bindingOk(d.lock.value.content, req.projectId))
            && (!(looks && LockFree(c, req, d.lock, now)) ==> d' == d && outcome.Failed?)
            && (!looks ==> outcome == Failed(RetainTargetMissing))
  {
    hide Commit;
    CommitEffect(c, req, Locked(c, req, d, clock), false, fault);
    CommitEffect(c, req, Locked(c, req, d, clock), true, fault);
  }

  /** What an injected fault leaves: the own lock, and the candidate nowhere, in the temp, or in the target. */
  lemma FaultIff(c: Codec, req: Request, d: Disk, now: int, clock: int, fault: Fault)
    requires req.decision.Write? && LockFree(c, req, d.lock, now)
    ensures var (outcome, d') := Apply(c, req, d, now, clock, Some(fault));
            var mine, content := Some(Lock(c.lockPayload(req.projectId), clock)), Some(req.candidate + [10]);
            && (fault.AfterLock? ==> (outcome, d') == (Failed(FaultInjected(AfterLock)), d.(lock := mine)))
            && (fault.AfterTempSync? && Writes(c, req, d, now) ==>
                  (outcome, d') == (Failed(FaultInjected(AfterTempSync)), Disk(d.target, content, mine)))
            && (fault.AfterReplace? && Writes(c, req, d, now) ==>
                  (outcome, d') == (Failed(FaultInjected(AfterReplace)), Disk(content, None, mine)))
            && (!fault.AfterLock? && !Writes(c, req, d, now) ==>
                  (outcome, d') == Apply(c, req, d, now, clock, None))
  {
    hide Normalize, Unreadable, Holds;
    UnreadableIff(c, d.temp);
    forall x ensures Holds(c, d.target, x) <==> d.target.Some? && Normalize(c, d.target.value) == Ok(x) {
      HoldsIff(c, d.target, x);
    }
    forall x ensures Holds(c, d.temp, x) <==> d.temp.Some? && Normalize(c, d.temp.value) == Ok(x) {
      HoldsIff(c, d.temp, x);
    }
    if d.target.Some? && Normalize(c, d.target.value).Ok? {
      assert Holds(c, d.target, Normalize(c, d.target.value).payload);
    }
    if d.temp.Some? && Normalize(c, d.temp.value).Ok? {
      assert Holds(c, d.temp, Normalize(c, d.temp.value).payload);
    }
  }
}
