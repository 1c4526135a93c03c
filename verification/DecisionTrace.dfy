/** The hash-chained trace of context decisions. */
module DecisionTrace {
  import opened Ordering

  datatype Option<T> = None | Some(value: T)

  datatype Decision = Include | Omit | Compress | Retrieve | Reset | Abstain | Branch

  datatype Scope = Item | Session | Retrieval

  /** Everything an event hash covers. */
  datatype Body = Body(sequence: int, scope: Scope, identity: string, recommendedDecision: Decision,
                       effectiveDecision: Decision,
                       recommendedAction: string, effectiveAction: string, reasons: seq<string>, refs: seq<string>,
                       namespaceUri: string, itemId: string, inputTokens: int, visibleTokens: int, previous: string)

  datatype Event = Event(body: Body, hash: string)

  type Counts = map<Decision, nat>

  /** Everything a trace hash covers. */
  datatype Basis = Basis(receiptHash: string, events: seq<Event>, count: int, counts: Counts)

  datatype Trace = Trace(schemaVersion: int, receiptHash: string, events: seq<Event>, count: int, counts: Counts,
                         traceHash: string)

  /** A JSON value: mappings, lists and everything else. */
  datatype Json = Atom(text: string) | List(items: seq<Json>) | Object(fields: seq<Field>)
  datatype Field = Field(key: string, value: Json)

  /** A policy receipt without its hash, as far as the trace reads it. */
  datatype Row = Row(identity: string, recommendedAction: string, effectiveAction: string, reasons: seq<string>,
                     refs: seq<string>,
                     namespaceUri: string, itemId: string, inputTokens: int, visibleTokens: int)
  datatype Receipt = Receipt(rows: seq<Row>, sessionRecommended: string, sessionEffective: string,
                             sessionReasons: seq<string>, signals: Json)
  datatype PolicyResult = PolicyResult(receipt: Receipt, receiptHash: string, inputTokens: int, visibleTokens: int)

  // ---- Hashes ----

  /** SHA-256 over the canonical JSON of each kind of record, and Unicode case folding. */
  datatype Hashes = Hashes(event: Body -> string, trace: Basis -> string, receipt: Receipt -> string,
                           fold: string -> string)

  const HEX: string := "0123456789abcdef"

  predicate IsSha(s: string) { |s| == 64 && forall i :: 0 <= i < |s| ==> s[i] in HEX }

  function Zeros(n: nat): (r: string)
    ensures |r| == n && forall i :: 0 <= i < n ==> r[i] == '0'
  {
    if n == 0 then "" else Zeros(n - 1) + "0"
  }

  const ZERO_HASH: string := Zeros(64)

  /** `_require_sha256`: the folded value, if that is a hash. */
  function RequireSha(h: Hashes, value: string): Option<string> {
    if IsSha(h.fold(value)) then Some(h.fold(value)) else None
  }

  ghost predicate Lawful(h: Hashes) {
    && (forall b {:trigger h.event(b)} :: IsSha(h.event(b)))
    && (forall b {:trigger h.trace(b)} :: IsSha(h.trace(b)))
    && (forall s {:trigger h.fold(s)} :: IsSha(s) ==> h.fold(s) == s)
  }

  lemma ZeroIsSha()
    ensures IsSha(ZERO_HASH)
  {
    assert '0' in HEX;
  }

  // ---- Sealing ----

  function DecisionOf(action: string): Option<Decision> {
    if action == "KEEP" then Some(Include)
    else if action == "SUMMARIZE" || action == "COMPRESS" then Some(Compress)
    else if action == "EXTERNALIZE" then Some(Omit)
    else if action == "RESET" then Some(Reset)
    else if action == "ABSTAIN" then Some(Abstain)
    else if action == "BRANCH" then Some(Branch)
    else if action == "RETRIEVE" then Some(Retrieve)
    else None
  }

  datatype Error = UnsupportedAction | IdentityRequired | BadHash | ReceiptMismatch | CarriesPayload | NotVerified

  datatype Result<T> = Ok(value: T) | Err(error: Error)

  function NonEmpty(s: seq<string>): seq<string> {
    if s == [] then [] else (if s[0] == "" then [] else [s[0]]) + NonEmpty(s[1..])
  }

  function SortedRefs(refs: seq<string>): seq<string> { Sort(StringLe, Deduped(NonEmpty(refs))) }

  function Max0(n: int): int { if n < 0 then 0 else n }

  /** The fields of an event before they are normalized. */
  datatype Draft = Draft(sequence: int, scope: Scope, row: Row)

  /** `_seal_event` */
  function SealEvent(h: Hashes, d: Draft, previous: string): Result<Event> {
    var r := d.row;
    var recommended, effective := DecisionOf(r.recommendedAction), DecisionOf(r.effectiveAction);
    if recommended.None? || effective.None? then Err(UnsupportedAction)
    else if RequireSha(h, previous).None? then Err(BadHash)
    else
      var body := Body(d.sequence, d.scope, r.identity, recommended.value, effective.value, r.recommendedAction,
                       r.effectiveAction,
                       Deduped(NonEmpty(r.reasons)), SortedRefs(r.refs), r.namespaceUri, r.itemId,
                       Max0(r.inputTokens), Max0(r.visibleTokens), RequireSha(h, previous).value);
      if r.identity == "" then Err(IdentityRequired) else Ok(Event(body, h.event(body)))
  }

  function CountOf(events: seq<Event>, d: Decision): nat {
    if events == [] then 0
    else CountOf(events[..|events| - 1], d) + if events[|events| - 1].body.recommendedDecision == d then 1 else 0
  }

  const DECISIONS: set<Decision> := {Include, Omit, Compress, Retrieve, Reset, Abstain, Branch}

  function CountsOf(events: seq<Event>): Counts {
    map d | d in DECISIONS && CountOf(events, d) > 0 :: CountOf(events, d)
  }

  function BasisOf(receiptHash: string, events: seq<Event>): Basis
  {
    Basis(receiptHash, events, |events|, CountsOf(events))
  }

  /** `_seal_trace` */
  function SealTrace(h: Hashes, receiptHash: string, events: seq<Event>): Result<Trace> {
    var normalized := RequireSha(h, receiptHash);
    if normalized.None? then Err(BadHash)
    else
      var b := BasisOf(normalized.value, events);
      Ok(Trace(1, b.receiptHash, events, b.count, b.counts, h.trace(b)))
  }

  // ---- Verification ----

  /** What the constructor of an event insists on. */
  predicate ProperEvent(h: Hashes, e: Event) {
    && e.body.sequence >= 1 && e.body.identity != "" && e.body.inputTokens >= 0 && e.body.visibleTokens >= 0
    && RequireSha(h, e.body.previous).Some? && RequireSha(h, e.hash).Some?
  }

  function PreviousOf(events: seq<Event>, i: nat): string
    requires i <= |events|
  {
    if i == 0 then ZERO_HASH else events[i - 1].hash
  }

  predicate Linked(h: Hashes, events: seq<Event>, i: nat)
    requires i < |events|
  {
    && events[i].body.sequence == i + 1
    && events[i].body.previous == PreviousOf(events, i)
    && events[i].hash == h.event(events[i].body)
    && ProperEvent(h, events[i])
  }

  /** The chain: numbered from one, each event holding the hash of the one before and its own. */
  predicate Chained(h: Hashes, events: seq<Event>) {
    forall i :: 0 <= i < |events| ==> Linked(h, events, i)
  }

  predicate Verifies(h: Hashes, t: Trace) {
    && t.schemaVersion == 1
    && RequireSha(h, t.receiptHash).Some?
    && t.events != [] && t.count == |t.events|
    && Chained(h, t.events)
    && t.counts == CountsOf(t.events)
    && t.traceHash == h.trace(BasisOf(RequireSha(h, t.receiptHash).value, t.events))
  }

  /** `verify`: the loop that follows the chain. */
  method Verify(h: Hashes, t: Trace) returns (ok: bool)
    ensures ok <==> Verifies(h, t)
  {
    hide ProperEvent, IsSha, CountsOf;
    if t.schemaVersion != 1 || RequireSha(h, t.receiptHash).None? || t.events == [] || t.count != |t.events| {
      return false;
    }
    var previous := ZERO_HASH;
    for i := 0 to |t.events|
      invariant previous == PreviousOf(t.events, i) && forall j :: 0 <= j < i ==> Linked(h, t.events, j)
    {
      var e := t.events[i];
      if e.body.sequence != i + 1 || e.body.previous != previous || e.hash != h.event(e.body) || !ProperEvent(h, e) {
        assert !Linked(h, t.events, i);
        return false;
      }
      assert Linked(h, t.events, i);
      previous := e.hash;
    }
    ok := t.counts == CountsOf(t.events)
        && t.traceHash == h.trace(BasisOf(RequireSha(h, t.receiptHash).value, t.events));
  }

  // ---- Sealing extends a chain ----

  lemma SealedExtends(h: Hashes, events: seq<Event>, scope: Scope, row: Row)
    requires Lawful(h) && Chained(h, events)
    ensures var r := SealEvent(h, Draft(|events| + 1, scope, row), PreviousOf(events, |events|));
            && (r.Ok? <==> Recordable(row))
            && (r.Ok? ==> Chained(h, events + [r.value]))
  {
    hide IsSha, Deduped, SortedRefs, DecisionOf, NonEmpty;
    ZeroIsSha();
    var r := SealEvent(h, Draft(|events| + 1, scope, row), PreviousOf(events, |events|));
    if |events| > 0 { assert Linked(h, events, |events| - 1); }
    if r.Ok? {
      var more := events + [r.value];
      forall i | 0 <= i < |more| ensures Linked(h, more, i) {
        if i < |events| { assert Linked(h, events, i); assert PreviousOf(more, i) == PreviousOf(events, i); }
      }
    }
  }

  lemma SealedVerifies(h: Hashes, receiptHash: string, events: seq<Event>)
    requires Lawful(h) && Chained(h, events) && events != [] && RequireSha(h, receiptHash).Some?
    ensures SealTrace(h, receiptHash, events).Ok? && Verifies(h, SealTrace(h, receiptHash, events).value)
  {
    hide Chained, CountsOf;
  }

  // ---- References only ----

  const FORBIDDEN_KEYS: set<string> := {"content", "payload", "raw_text", "body", "secret", "text"}

  /** The key names a field of the value at some depth. */
  ghost predicate HasKey(v: Json, key: string) {
    match v
    case Atom(_) => false
    case List(items) => exists i :: 0 <= i < |items| && HasKey(items[i], key)
    case Object(fields) => exists i :: 0 <= i < |fields| && (fields[i].key == key || HasKey(fields[i].value, key))
  }

  /** No field at any depth is named by a forbidden key, however it is written. */
  ghost predicate ReferenceOnly(h: Hashes, v: Json) {
    forall key :: HasKey(v, key) ==> h.fold(key) !in FORBIDDEN_KEYS
  }

  /** `_reference_only`: the walk stops at the first forbidden key. */
  method CheckReferences(h: Hashes, v: Json) returns (ok: bool)
    ensures ok <==> ReferenceOnly(h, v)
    decreases v
  {
    match v
    case Atom(_) =>
      ok := true;
    case List(items) =>
      for i := 0 to |items|
        invariant forall j :: 0 <= j < i ==> ReferenceOnly(h, items[j])
      {
        ok := CheckReferences(h, items[i]);
        if !ok {
          ItemCounts(h, items, i);
          return;
        }
      }
      ok := true;
    case Object(fields) =>
      for i := 0 to |fields|
        invariant forall j :: 0 <= j < i ==>
                  h.fold(fields[j].key) !in FORBIDDEN_KEYS && ReferenceOnly(h, fields[j].value)
      {
        if h.fold(fields[i].key) in FORBIDDEN_KEYS {
          assert HasKey(v, fields[i].key);
          return false;
        }
        ok := CheckReferences(h, fields[i].value);
        if !ok {
          FieldCounts(h, fields, i);
          return;
        }
      }
      ok := true;
  }

  lemma ItemCounts(h: Hashes, items: seq<Json>, i: nat)
    requires i < |items|
    ensures ReferenceOnly(h, List(items)) ==> ReferenceOnly(h, items[i])
  {
    forall key | HasKey(items[i], key) ensures HasKey(List(items), key) {}
  }

  lemma FieldCounts(h: Hashes, fields: seq<Field>, i: nat)
    requires i < |fields|
    ensures ReferenceOnly(h, Object(fields)) ==> ReferenceOnly(h, fields[i].value)
  {
    forall key | HasKey(fields[i].value, key) ensures HasKey(Object(fields), key) {}
  }

  // ---- Building a trace ----

  function SessionRow(p: PolicyResult): Row {
    Row("session", p.receipt.sessionRecommended, p.receipt.sessionEffective, p.receipt.sessionReasons, [], "", "",
        p.inputTokens, p.visibleTokens)
  }

  /** A row that can be recorded: supported actions and an identity. */
  predicate Recordable(r: Row) {
    DecisionOf(r.recommendedAction).Some? && DecisionOf(r.effectiveAction).Some? && r.identity != ""
  }

  /** The receipt carries its own hash, and signals that refer without quoting. */
  ghost predicate Authentic(h: Hashes, p: PolicyResult) {
    RequireSha(h, p.receiptHash).Some? && p.receiptHash == h.receipt(p.receipt) && ReferenceOnly(h, p.receipt.signals)
  }

  /** Event i records row i: same identity and actions, the decisions these stand for. */
  ghost predicate Records(e: Event, scope: Scope, r: Row) {
    && e.body.scope == scope && e.body.identity == r.identity
    && e.body.recommendedAction == r.recommendedAction && e.body.effectiveAction == r.effectiveAction
    && DecisionOf(r.recommendedAction) == Some(e.body.recommendedDecision)
       && DecisionOf(r.effectiveAction) == Some(e.body.effectiveDecision)
    && Elements(e.body.refs) == Elements(NonEmpty(r.refs)) && e.body.refs == SortedRefs(r.refs)
       && e.body.reasons == Deduped(NonEmpty(r.reasons))
    && e.body.namespaceUri == r.namespaceUri && e.body.itemId == r.itemId
    && e.body.inputTokens == Max0(r.inputTokens) && e.body.visibleTokens == Max0(r.visibleTokens)
  }

  lemma SealRecords(h: Hashes, d: Draft, previous: string)
    requires SealEvent(h, d, previous).Ok?
    ensures Records(SealEvent(h, d, previous).value, d.scope, d.row)
  {
    hide IsSha, DecisionOf, NonEmpty, Deduped, SortedRefs, RequireSha, Max0;
    SortedRefsMembers(d.row.refs);
  }

  lemma SortedRefsMembers(refs: seq<string>)
    ensures Elements(SortedRefs(refs)) == Elements(NonEmpty(refs))
  {
    hide NonEmpty;
    SortMembers(StringLe, Deduped(NonEmpty(refs)));
  }

  /** `from_policy_result`: succeeds exactly on an authentic receipt whose rows can all be recorded; the trace then
      verifies and records every decision in order and the session last. */
  method FromPolicyResult(h: Hashes, p: PolicyResult) returns (r: Result<Trace>)
    requires Lawful(h)
    ensures r.Ok? <==> Authentic(h, p) && Recordable(SessionRow(p)) && forall i :: 0 <= i < |p.receipt.rows| ==>
              Recordable(p.receipt.rows[i])
    ensures r.Ok? ==> Verifies(h, r.value) && |r.value.events| == |p.receipt.rows| + 1
    ensures r.Ok? ==> forall i :: 0 <= i < |p.receipt.rows| ==> Records(r.value.events[i], Item, p.receipt.rows[i])
    ensures r.Ok? ==> Records(r.value.events[|p.receipt.rows|], Session, SessionRow(p))
  {
    hide IsSha, DecisionOf, Records, Chained, SealEvent, CountsOf, Lawful, ReferenceOnly;
    if RequireSha(h, p.receiptHash).None? {
      return Err(BadHash);
    }
    if p.receiptHash != h.receipt(p.receipt) {
      return Err(ReceiptMismatch);
    }
    var references := CheckReferences(h, p.receipt.signals);
    if !references {
      return Err(CarriesPayload);
    }
    var events: seq<Event> := [];
    var previous := ZERO_HASH;
    NothingChained(h);
    for i := 0 to |p.receipt.rows|
      invariant |events| == i && Chained(h, events) && previous == PreviousOf(events, i)
      invariant forall j :: 0 <= j < i ==> Recordable(p.receipt.rows[j]) && Records(events[j], Item, p.receipt.rows[j])
    {
      SealedExtends(h, events, Item, p.receipt.rows[i]);
      var sealed := SealEvent(h, Draft(i + 1, Item, p.receipt.rows[i]), previous);
      if sealed.Err? {
        return Err(sealed.error);
      }
      SealRecords(h, Draft(i + 1, Item, p.receipt.rows[i]), previous);
      events := events + [sealed.value];
      previous := sealed.value.hash;
    }
    SealedExtends(h, events, Session, SessionRow(p));
    var session := SealEvent(h, Draft(|events| + 1, Session, SessionRow(p)), previous);
    if session.Err? {
      return Err(session.error);
    }
    SealRecords(h, Draft(|events| + 1, Session, SessionRow(p)), previous);
    events := events + [session.value];
    SealedVerifies(h, p.receiptHash, events);
    r := SealTrace(h, p.receiptHash, events);
  }

  lemma NothingChained(h: Hashes)
    ensures Chained(h, [])
  {
  }

  // ---- Appending ----

  datatype Request = Request(identity: string, refs: seq<string>, namespaceUri: string, itemId: string,
                             reasons: seq<string>, visibleTokens: int)

  function RetrievalRow(q: Request): Row {
    Row(q.identity, "RETRIEVE", "RETRIEVE", q.reasons, q.refs, q.namespaceUri, q.itemId, 0, q.visibleTokens)
  }

  /** `append_retrieval` */
  function Append(h: Hashes, t: Trace, q: Request): Result<Trace> {
    if !Verifies(h, t) then Err(NotVerified)
    else
      var e := SealEvent(h, Draft(|t.events| + 1, Retrieval, RetrievalRow(q)), PreviousOf(t.events, |t.events|));
      if e.Err? then Err(e.error)
      else
        var next := SealTrace(h, t.receiptHash, t.events + [e.value]);
        if next.Err? then next else if Verifies(h, next.value) then next else Err(NotVerified)
  }

  /** Appending to a verifying trace succeeds for every request with an identity, keeps the history, and verifies
      again. */
  lemma AppendKeeps(h: Hashes, t: Trace, q: Request)
    requires Lawful(h) && Verifies(h, t)
    ensures Append(h, t, q).Ok? <==> q.identity != ""
    ensures Append(h, t, q).Ok? ==>
              var t' := Append(h, t, q).value;
              && Verifies(h, t') && |t'.events| == |t.events| + 1 && t.events <= t'.events
              && Records(t'.events[|t.events|], Retrieval, RetrievalRow(q))
              && t'.receiptHash == h.fold(t.receiptHash)
  {
    hide IsSha, SealEvent, CountsOf, Records, SortedRefs;
    SealedExtends(h, t.events, Retrieval, RetrievalRow(q));
    var e := SealEvent(h, Draft(|t.events| + 1, Retrieval, RetrievalRow(q)), PreviousOf(t.events, |t.events|));
    if e.Ok? {
      SealRecords(h, Draft(|t.events| + 1, Retrieval, RetrievalRow(q)), PreviousOf(t.events, |t.events|));
      SealedVerifies(h, t.receiptHash, t.events + [e.value]);
    }
  }

  function AppendAll(h: Hashes, t: Trace, qs: seq<Request>): Result<Trace> {
    if qs == [] then Ok(t)
    else
      var before := AppendAll(h, t, qs[..|qs| - 1]);
      if before.Err? then before else Append(h, before.value, qs[|qs| - 1])
  }

  /** Over any number of retrievals the trace keeps verifying and the earlier events stay its beginning. */
  lemma {:induction false} AppendAllKeeps(h: Hashes, t: Trace, qs: seq<Request>)
    requires Lawful(h) && Verifies(h, t) && forall i :: 0 <= i < |qs| ==> qs[i].identity != ""
    ensures AppendAll(h, t, qs).Ok?
    ensures var t' := AppendAll(h, t, qs).value;
            Verifies(h, t') && |t'.events| == |t.events| + |qs| && t.events <= t'.events
  {
    hide Verifies, Append, Lawful, Records;
    if qs != [] {
      var n := |qs| - 1;
      AppendAllKeeps(h, t, qs[..n]);
      AppendKeeps(h, AppendAll(h, t, qs[..n]).value, qs[n]);
    }
  }

  // ---- The chain commits to the history ----

  /** Two bodies that hash alike without being alike. */
  ghost predicate Collision(h: Hashes, a: Body, b: Body) { a != b && h.event(a) == h.event(b) }

  /** The last k events agree, and the bodies of the events before these collide. */
  ghost predicate PartAt(h: Hashes, s: seq<Event>, t: seq<Event>, k: nat) {
    && k < |s| && k < |t| && s[|s| - k..] == t[|t| - k..]
    && Collision(h, s[|s| - 1 - k].body, t[|t| - 1 - k].body)
  }

  /** The last event hash stands for the whole history: two chains that end in the same hash are the same chain, or
      going back from the end the first bodies in which they differ collide. */
  lemma {:induction false} LastHashCommits(h: Hashes, s: seq<Event>, t: seq<Event>) returns (k: nat)
    requires Chained(h, s) && Chained(h, t) && s != [] && t != [] && s[|s| - 1].hash == t[|t| - 1].hash
    ensures s == t || PartAt(h, s, t, k)
    decreases |s|
  {
    hide ProperEvent;
    var m, n := |s| - 1, |t| - 1;
    assert Linked(h, s, m) && Linked(h, t, n);
    k := 0;
    if s[m].body == t[n].body {
      assert s == s[..m] + [s[m]] && t == t[..n] + [t[n]];
      if m > 0 {
        PrefixChained(h, s, m);
        PrefixChained(h, t, n);
        k := LastHashCommits(h, s[..m], t[..n]);
        if s[..m] != t[..n] { PartLater(h, s, t, k); }
        k := k + 1;
      } else {
        assert s[..m] == t[..n];
      }
    }
  }

  lemma PartLater(h: Hashes, s: seq<Event>, t: seq<Event>, k: nat)
    requires s != [] && t != [] && s[|s| - 1] == t[|t| - 1] && PartAt(h, s[..|s| - 1], t[..|t| - 1], k)
    ensures PartAt(h, s, t, k + 1)
  {
    var m, n := |s| - 1, |t| - 1;
    assert s[m - k..] == s[..m][m - k..] + [s[m]];
    assert t[n - k..] == t[..n][n - k..] + [t[n]];
  }

  lemma PrefixChained(h: Hashes, s: seq<Event>, n: nat)
    requires Chained(h, s) && n <= |s|
    ensures Chained(h, s[..n])
  {
    hide ProperEvent;
    forall i | 0 <= i < n ensures Linked(h, s[..n], i) {
      assert Linked(h, s, i);
      assert PreviousOf(s[..n], i) == PreviousOf(s, i);
    }
  }

  /** The trace hash additionally fixes the receipt: equal trace hashes mean equal contents, or what the two hashes
      were taken over collides. */
  lemma TraceHashCommits(h: Hashes, s: Trace, t: Trace) returns (a: Basis, b: Basis)
    requires Verifies(h, s) && Verifies(h, t) && s.traceHash == t.traceHash
    ensures a == BasisOf(h.fold(s.receiptHash), s.events) && b == BasisOf(h.fold(t.receiptHash), t.events)
    ensures (s.events == t.events && s.counts == t.counts && h.fold(s.receiptHash) == h.fold(t.receiptHash))
            || (a != b && h.trace(a) == h.trace(b))
  {
    hide Chained, CountsOf, IsSha;
    a, b := BasisOf(RequireSha(h, s.receiptHash).value, s.events),
        BasisOf(RequireSha(h, t.receiptHash).value, t.events);
  }

  // ---- Spelled out ----

  /** 64 lower-case hexadecimal digits. */
  predicate Hash64(s: string) { |s| == 64 && forall c :: c in s ==> '0' <= c <= '9' || 'a' <= c <= 'f' }

  lemma HexDigitIff(c: char)
    ensures c in HEX <==> '0' <= c <= '9' || 'a' <= c <= 'f'
  {
    assert HEX[0] == '0' && HEX[1] == '1' && HEX[2] == '2' && HEX[3] == '3' && HEX[4] == '4' && HEX[5] == '5';
    assert HEX[6] == '6' && HEX[7] == '7' && HEX[8] == '8' && HEX[9] == '9' && HEX[10] == 'a' && HEX[11] == 'b';
    assert HEX[12] == 'c' && HEX[13] == 'd' && HEX[14] == 'e' && HEX[15] == 'f' && |HEX| == 16;
    if '0' <= c <= '9' { assert c == HEX[c as int - '0' as int]; }
    if 'a' <= c <= 'f' { assert c == HEX[c as int - 'a' as int + 10]; }
  }

  lemma ShaIff(s: string)
    ensures IsSha(s) <==> Hash64(s)
  {
    forall c ensures c in HEX <==> '0' <= c <= '9' || 'a' <= c <= 'f' { HexDigitIff(c); }
    if IsSha(s) {
      forall c | c in s ensures '0' <= c <= '9' || 'a' <= c <= 'f' { var i := IndexOf(s, c); }
    }
    if Hash64(s) {
      forall i | 0 <= i < |s| ensures s[i] in HEX { assert s[i] in s; }
    }
  }

  ghost function Decisions(events: seq<Event>): seq<Decision> {
    seq(|events|, i requires 0 <= i < |events| => events[i].body.recommendedDecision)
  }

  lemma {:induction false} CountIs(events: seq<Event>, d: Decision)
    ensures CountOf(events, d) == multiset(Decisions(events))[d]
  {
    if events != [] {
      var n := |events| - 1;
      CountIs(events[..n], d);
      assert Decisions(events) == Decisions(events[..n]) + [events[n].body.recommendedDecision];
    }
  }

  lemma CountsAre(events: seq<Event>, counts: Counts)
    ensures counts == CountsOf(events)
       <==> forall d :: if d in Decisions(events) then d in counts && counts[d] == multiset(Decisions(events))[d]
                        else d !in counts
  {
    hide CountOf;
    forall d ensures CountOf(events, d) == multiset(Decisions(events))[d] && d in DECISIONS {
      CountIs(events, d);
      EveryDecision(d);
    }
    forall d ensures d in Decisions(events) <==> multiset(Decisions(events))[d] > 0 {}
  }

  lemma EveryDecision(d: Decision)
    ensures d in DECISIONS
  {
    match d
    case Include => case Omit => case Compress => case Retrieve => case Reset => case Abstain => case Branch =>
  }

  /** An event with fields the constructor accepts. */
  ghost predicate IsEvent(h: Hashes, e: Event) {
    && e.body.identity != "" && e.body.inputTokens >= 0 && e.body.visibleTokens >= 0
    && Hash64(h.fold(e.body.previous)) && Hash64(h.fold(e.hash)) && e.hash == h.event(e.body)
  }

  /** Verification accepts exactly the traces of version one whose events are numbered from one, start from the hash of
      64 zeros, each name the hash of the one before, and whose count, tally of decisions and hash fit. */
  lemma VerifiesIff(h: Hashes, t: Trace)
    ensures Verifies(h, t)
       <==> (&& t.schemaVersion == 1 && Hash64(h.fold(t.receiptHash)) && t.count == |t.events| && |t.events| > 0
             && (forall i :: 0 <= i < |t.events| ==> t.events[i].body.sequence == i + 1 && IsEvent(h, t.events[i]))
             && |t.events[0].body.previous| == 64 && (forall c :: c in t.events[0].body.previous ==> c == '0')
             && (forall i :: 0 < i < |t.events| ==> t.events[i].body.previous == t.events[i - 1].hash)
             && (forall d :: if d in Decisions(t.events)
                             then d in t.counts && t.counts[d] == multiset(Decisions(t.events))[d] else d !in t.counts)
             && t.traceHash == h.trace(Basis(h.fold(t.receiptHash), t.events, |t.events|, t.counts)))
  {
    hide CountsOf, IsSha, Hash64;
    ShaIff(h.fold(t.receiptHash));
    CountsAre(t.events, t.counts);
    forall i | 0 <= i < |t.events|
      ensures Linked(h, t.events, i)
         <==> t.events[i].body.sequence == i + 1 && IsEvent(h, t.events[i])
              && t.events[i].body.previous == PreviousOf(t.events, i)
    {
      ShaIff(h.fold(t.events[i].body.previous));
      ShaIff(h.fold(t.events[i].hash));
    }
    hide Linked;
    if t.events != [] { OnlyZeros(t.events[0].body.previous); }
  }

  lemma OnlyZeros(s: string)
    ensures s == ZERO_HASH <==> |s| == 64 && forall c :: c in s ==> c == '0'
  {
    if |s| == 64 && forall c :: c in s ==> c == '0' {
      forall i | 0 <= i < 64 ensures s[i] == ZERO_HASH[i] { assert s[i] in s; }
    }
    if s == ZERO_HASH {
      forall c | c in s ensures c == '0' { var i := IndexOf(s, c); }
    }
  }

  /** Which decision an action stands for, and which actions stand for none. */
  lemma DecisionTable(action: string)
    ensures DecisionOf("KEEP") == Some(Include) && DecisionOf("SUMMARIZE") == DecisionOf("COMPRESS") == Some(Compress)
    ensures DecisionOf("EXTERNALIZE") == Some(Omit) && DecisionOf("RETRIEVE") == Some(Retrieve)
    ensures DecisionOf("RESET") == Some(Reset) && DecisionOf("ABSTAIN") == Some(Abstain)
    ensures DecisionOf("BRANCH") == Some(Branch)
    ensures DecisionOf(action).Some? ==>
              action in ["KEEP", "SUMMARIZE", "COMPRESS", "EXTERNALIZE", "RETRIEVE", "RESET", "ABSTAIN", "BRANCH"]
  {
    assert "KEEP"[0] == 'K' && "SUMMARIZE"[0] == 'S' && "COMPRESS"[0] == 'C' && "EXTERNALIZE"[0] == 'E';
    assert "RETRIEVE"[2] == 'T' && "RESET"[2] == 'S' && "ABSTAIN"[0] == 'A' && "BRANCH"[0] == 'B';
    var all := ["KEEP", "SUMMARIZE", "COMPRESS", "EXTERNALIZE", "RETRIEVE", "RESET", "ABSTAIN", "BRANCH"];
    assert all[0] == "KEEP" && all[1] == "SUMMARIZE" && all[2] == "COMPRESS" && all[3] == "EXTERNALIZE";
    assert all[4] == "RETRIEVE" && all[5] == "RESET" && all[6] == "ABSTAIN" && all[7] == "BRANCH";
  }

  lemma {:induction false} NonEmptyIs(s: seq<string>)
    ensures forall x :: x in NonEmpty(s) <==> x in s && x != ""
  {
    if s != [] {
      NonEmptyIs(s[1..]);
      assert s == [s[0]] + s[1..];
    }
  }

  /** A recorded row: its references once each and in order, its reasons once each, empty ones left out, and token
      counts not below zero. */
  lemma RecordMeaning(e: Event, scope: Scope, r: Row)
    requires Records(e, scope, r)
    ensures forall x :: x in e.body.refs <==> x in r.refs && x != ""
    ensures forall i, j :: 0 <= i < j < |e.body.refs| ==>
              e.body.refs[i] != e.body.refs[j] && StringLe(e.body.refs[i], e.body.refs[j])
    ensures forall x :: x in e.body.reasons <==> x in r.reasons && x != ""
    ensures NoDuplicates(e.body.reasons)
    ensures e.body.inputTokens == (if r.inputTokens < 0 then 0 else r.inputTokens)
    ensures e.body.visibleTokens == (if r.visibleTokens < 0 then 0 else r.visibleTokens)
  {
    hide StringLe, NonEmpty, Deduped, LinearOrder, TotalOrder;
    NonEmptyIs(r.refs);
    NonEmptyIs(r.reasons);
    forall x ensures x in e.body.refs <==> x in Elements(e.body.refs) {}
    forall x ensures x in e.body.reasons <==> x in Elements(e.body.reasons) {}
    var distinct := Deduped(NonEmpty(r.refs));
    StringLeIsLinear();
    LinearIsTotal(StringLe);
    SortIsSorted(StringLe, distinct);
    SortKeepsNoDuplicates(StringLe, distinct);
  }

  /** The keys no signal may carry, at any depth and in any case. */
  lemma ForbiddenIff(h: Hashes, v: Json)
    ensures ReferenceOnly(h, v)
       <==> forall key :: HasKey(v, key) ==>
              h.fold(key) !in ["content", "payload", "raw_text", "body", "secret", "text"]
  {
    hide HasKey;
    forall s ensures s in FORBIDDEN_KEYS <==> s in ["content", "payload", "raw_text", "body", "secret", "text"] {
      SixKeys(s);
    }
  }

  lemma SixKeys(s: string)
    ensures s in FORBIDDEN_KEYS <==> s in ["content", "payload", "raw_text", "body", "secret", "text"]
  {
    var all := ["content", "payload", "raw_text", "body", "secret", "text"];
    assert all[0] == "content" && all[1] == "payload" && all[2] == "raw_text" && all[3] == "body";
    assert all[4] == "secret" && all[5] == "text";
  }
}
