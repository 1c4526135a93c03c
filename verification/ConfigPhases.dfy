/** Resolving phases with fallback to the last good one, and the plan that the apply transaction follows. */
module ConfigPhases {
  import opened ConfigTree
  import W = ConfigWire
  import R = ConfigRoundTrip
  import opened ConfigLayers
  import A = ConfigApply
  import B = Bytes
  import WireText

  // ---- One phase on its own ----

  /** Defaults, and the validator: None accepts, otherwise the kind of exception it raises. */
  datatype Schema = Schema(defaults: Entries, validate: Entries -> Option<string>)

  datatype Attempt = Resolved(values: Entries) | Failed(kind: string)

  function ResolvePhase(p: W.Prims, schema: Schema, phase: W.Phase): Attempt {
    match NormalizedLayers(p, phase)
    case None => Failed("ConfigError")
    case Some(layers) =>
      var values := MergeAll(schema.defaults, layers);
      if schema.validate(values).Some? then Failed(schema.validate(values).value) else Resolved(values)
  }

  // ---- The fold over the phases ----

  datatype Snapshot = Snapshot(values: Entries, warnings: seq<string>)

  datatype Outcome = NoPhases | FirstInvalid(kind: string) | Projected(snapshot: Snapshot)

  function Fallback(kind: string): string { "invalid-current-config-fell-back:" + kind }

  /** Phase k is the last one that is valid on its own. */
  ghost predicate LastValid(p: W.Prims, schema: Schema, phases: seq<W.Phase>, k: nat) {
    && k < |phases| && ResolvePhase(p, schema, phases[k]).Resolved?
    && forall j :: k < j < |phases| ==> ResolvePhase(p, schema, phases[j]).Failed?
  }

  /** The fold: a valid phase replaces what came before, an invalid one falls back to the last good values, an invalid
      first one fails. */
  function ResolveAll(p: W.Prims, schema: Schema, phases: seq<W.Phase>): Outcome {
    if phases == [] then NoPhases
    else
      match (ResolveAll(p, schema, phases[..|phases| - 1]), ResolvePhase(p, schema, phases[|phases| - 1]))
      case (FirstInvalid(kind), _) => FirstInvalid(kind)
      case (_, Resolved(values)) => Projected(Snapshot(values, []))
      case (NoPhases, Failed(kind)) => FirstInvalid(kind)
      case (Projected(s), Failed(kind)) => Projected(Snapshot(s.values, [Fallback(kind)]))
  }

  /** What the fold means: it fails exactly without phases or on an invalid first one; otherwise the values are those
      of the last valid phase, with a warning exactly when that is not the final one. */
  lemma {:induction false} ResolveMeaning(p: W.Prims, schema: Schema, phases: seq<W.Phase>) returns (k: nat)
    ensures var r := ResolveAll(p, schema, phases);
            && (r.NoPhases? <==> phases == [])
            && (r.FirstInvalid? <==> phases != [] && ResolvePhase(p, schema, phases[0]).Failed?)
            && (r.FirstInvalid? ==> r.kind == ResolvePhase(p, schema, phases[0]).kind)
            && (r.Projected? ==>
                  && LastValid(p, schema, phases, k) && r.snapshot.values == ResolvePhase(p, schema, phases[k]).values
                  && r.snapshot.warnings
                     == if k == |phases| - 1 then []
                         else ["invalid-current-config-fell-back:"
                               + ResolvePhase(p, schema, phases[|phases| - 1]).kind])
  {
    hide ResolvePhase;
    k := 0;
    if phases != [] {
      var n := |phases| - 1;
      k := ResolveMeaning(p, schema, phases[..n]);
      if ResolvePhase(p, schema, phases[n]).Resolved? { k := n; }
    }
  }

  method ResolveConfigPhases(p: W.Prims, schema: Schema, phases: seq<W.Phase>) returns (r: Outcome)
    ensures r == ResolveAll(p, schema, phases)
  {
    hide ResolvePhase;
    var lastGood: Option<Snapshot> := None;
    var current: Option<Snapshot> := None;
    for i := 0 to |phases|
      invariant current.None? ==> i == 0 && lastGood.None?
      invariant current.Some? ==> i > 0 && lastGood.Some? && lastGood.value == current.value.(warnings := [])
      invariant ResolveAll(p, schema, phases[..i]) == if current.None? then NoPhases else Projected(current.value)
    {
      assert phases[..i + 1][..i] == phases[..i];
      var attempt := ResolvePhase(p, schema, phases[i]);
      if attempt.Resolved? {
        current := Some(Snapshot(attempt.values, []));
        lastGood := current;
      } else {
        if lastGood.None? {
          FirstDecides(p, schema, phases, i + 1);
          return FirstInvalid(attempt.kind);
        }
        current := Some(Snapshot(lastGood.value.values, [Fallback(attempt.kind)]));
      }
    }
    assert phases[..|phases|] == phases;
    r := if current.None? then NoPhases else Projected(current.value);
  }

  /** An invalid first phase decides the whole, whatever follows. */
  lemma {:induction false} FirstDecides(p: W.Prims, schema: Schema, phases: seq<W.Phase>, n: nat)
    requires n <= |phases| && ResolveAll(p, schema, phases[..n]).FirstInvalid?
    ensures ResolveAll(p, schema, phases) == ResolveAll(p, schema, phases[..n])
  {
    hide ResolvePhase;
    if n == |phases| {
      assert phases[..n] == phases;
    } else {
      var last := |phases| - 1;
      assert phases[..last][..n] == phases[..n];
      FirstDecides(p, schema, phases[..last], n);
    }
  }

  // ---- The plan ----

  datatype PlanError =
    | ExpectedProjectInvalid | WireTooLarge | RootUnusable(code: string) | ProjectMismatch
    | WireInvalid | EphemeralScope | ConfigInvalid

  /** What `project_id_for_root` makes of the project root. */
  datatype Root = Identified(project: string) | Unusable(code: string)

  /** [0-9a-f]{64} */
  predicate LowerHex64(s: string) { |s| == 64 && forall c :: c in s ==> c in WireText.DIGITS }

  /** The candidate of a plan is the canonical text of the snapshot; its hash covers the values alone. */
  datatype Output = Output(payload: Snapshot -> B.Bytes, valuesHash: Entries -> string)

  datatype Plan = Planned(request: A.Request) | Rejected(error: PlanError)

  const MAX_WIRE := 262144

  predicate Ephemeral(phase: W.Phase) { phase.session != [] || phase.task != [] }

  predicate AnyEphemeral(phases: seq<W.Phase>) { exists i :: 0 <= i < |phases| && Ephemeral(phases[i]) }

  function RequestFor(out: Output, project: string, s: Snapshot): A.Request {
    A.Request(project, out.payload(s), out.valuesHash(s.values), if s.warnings != [] then A.RetainExisting else A.Write)
  }

  /** The decision as a function of the inputs. */
  function PlanOf(p: W.Prims, schema: Schema, out: Output, expectedProject: string, root: Root, wire: B.Bytes): Plan {
    if !LowerHex64(expectedProject) then Rejected(ExpectedProjectInvalid)
    else if |wire| > MAX_WIRE then Rejected(WireTooLarge)
    else if root.Unusable? then Rejected(RootUnusable(root.code))
    else if root.project != expectedProject then Rejected(ProjectMismatch)
    else
      var decoded := W.Decode(p, wire, MAX_WIRE);
      if decoded.Err? then Rejected(WireInvalid)
      else if AnyEphemeral(decoded.value) then Rejected(EphemeralScope)
      else
        var outcome := ResolveAll(p, schema, decoded.value);
        if outcome.Projected? then Planned(RequestFor(out, expectedProject, outcome.snapshot))
        else Rejected(ConfigInvalid)
  }

  /** `config_last_good_plan` */
  method MakePlan(p: W.Prims, schema: Schema, out: Output, expectedProject: string, root: Root, wire: B.Bytes)
    returns (plan: Plan)
    ensures plan == PlanOf(p, schema, out, expectedProject, root, wire)
  {
    hide ResolveAll, W.Decode, LowerHex64;
    if !LowerHex64(expectedProject) {
      return Rejected(ExpectedProjectInvalid);
    }
    if |wire| > MAX_WIRE {
      return Rejected(WireTooLarge);
    }
    if root.Unusable? {
      return Rejected(RootUnusable(root.code));
    }
    if root.project != expectedProject {
      return Rejected(ProjectMismatch);
    }
    var decoded := R.DecodeConfigWire(p, wire, MAX_WIRE);
    if decoded.Err? {
      return Rejected(WireInvalid);
    }
    if AnyEphemeral(decoded.value) {
      return Rejected(EphemeralScope);
    }
    var outcome := ResolveConfigPhases(p, schema, decoded.value);
    if !outcome.Projected? {
      return Rejected(ConfigInvalid);
    }
    plan := Planned(RequestFor(out, expectedProject, outcome.snapshot));
  }

  /** What a plan decides: it retains what exists exactly when the final phase is invalid on its own, and the
      candidate always carries the last valid phase. */
  lemma PlanDecides(p: W.Prims, schema: Schema, out: Output, expectedProject: string, root: Root, wire: B.Bytes)
    returns (phases: seq<W.Phase>, k: nat)
    requires PlanOf(p, schema, out, expectedProject, root, wire).Planned?
    ensures root == Identified(expectedProject) && LowerHex64(expectedProject)
    ensures W.Decode(p, wire, MAX_WIRE) == W.Ok(phases) && LastValid(p, schema, phases, k)
    ensures forall i :: 0 <= i < |phases| ==> phases[i].session == [] && phases[i].task == []
    ensures var request := PlanOf(p, schema, out, expectedProject, root, wire).request;
            var values, final := ResolvePhase(p, schema, phases[k]).values,
                ResolvePhase(p, schema, phases[|phases| - 1]);
            && (request.decision.RetainExisting? <==> final.Failed?)
            && request.projectId == expectedProject && request.configHash == out.valuesHash(values)
            && request.candidate == out.payload(Snapshot(values, if final.Failed? then [Fallback(final.kind)] else []))
  {
    hide ResolvePhase, ResolveAll, W.Decode;
    phases := W.Decode(p, wire, MAX_WIRE).value;
    k := ResolveMeaning(p, schema, phases);
  }

  datatype Run = NotPlanned(error: PlanError) | Ran(outcome: A.Outcome)

  /** Planning, then the transaction that the plan asks for. */
  function PlannedRun(codec: A.Codec, plan: Plan, d: A.Disk, now: int, clock: int, fault: B.Option<A.Fault>)
    : (Run, A.Disk)
  {
    match plan
    case Rejected(error) => (NotPlanned(error), d)
    case Planned(request) => var (outcome, after) := A.Apply(codec, request, d, now, clock, fault);
      (Ran(outcome), after)
  }

  /** A wire that cannot be planned, or whose final phase is invalid, never changes the target, whatever the disk
      holds and whatever fault strikes. */
  lemma InvalidFinalPhaseIsHarmless(p: W.Prims, schema: Schema, out: Output, codec: A.Codec, expectedProject: string,
                                    root: Root,
                                    wire: B.Bytes, d: A.Disk, now: int, clock: int, fault: B.Option<A.Fault>)
    requires var phases := W.Decode(p, wire, MAX_WIRE);
             phases.Ok? && phases.value != [] ==> ResolvePhase(p, schema, phases.value[|phases.value| - 1]).Failed?
    ensures var plan := PlanOf(p, schema, out, expectedProject, root, wire);
            PlannedRun(codec, plan, d, now, clock, fault).1.target == d.target
  {
    var plan := PlanOf(p, schema, out, expectedProject, root, wire);
    if plan.Planned? {
      var phases, k := PlanDecides(p, schema, out, expectedProject, root, wire);
      hide ResolvePhase, A.Apply, W.Decode, PlanOf;
      A.RetainKeepsTarget(codec, plan.request, d, now, clock, fault);
    }
  }
}
