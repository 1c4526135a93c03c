/** The canonical wire format of configuration phases: encoder and strict decoder. */
module ConfigWire {
  import B = Bytes
  import opened WireText
  import opened ConfigTree

  // ---- What is taken as given ----

  /** Text and number conversions of the runtime. */
  datatype Prims = Prims(utf8: string -> B.Bytes, fromUtf8: B.Bytes -> Option<string>,
                         intText: int -> Option<string>, parseInt: string -> Option<int>,
                         floatText: FloatBits -> string, parseFloat: string -> Option<FloatBits>,
                             finite: FloatBits -> bool,
                         casefold: string -> string, upper: string -> string)

  /** Strict UTF-8 is a bijection with the strings it can decode; integers and finite floats parse back from their text.
      `intText` is None beyond the runtime's digit limit, and its text fits into a field. */
  ghost predicate Lawful(p: Prims) {
    && (forall s {:trigger p.utf8(s)} :: p.fromUtf8(p.utf8(s)) == Some(s))
    && (forall b {:trigger p.fromUtf8(b)} :: p.fromUtf8(b).Some? ==> p.utf8(p.fromUtf8(b).value) == b)
    && (forall n {:trigger p.intText(n)} :: p.intText(n).Some?
          ==> p.parseInt(p.intText(n).value) == Some(n) && '\t' !in p.intText(n).value && NoBreak(p.intText(n).value))
    && (forall x {:trigger p.floatText(x)} :: p.finite(x) ==> p.parseFloat(p.floatText(x)) == Some(x))
  }

  datatype Error = NonFinite | ValueNotScalar | TooManyDigits
                 | TooLarge | NotUtf8 | NotTerminated | BadHeader | EmptyLine | BadPhaseIndex | PhaseOrder | BadLine
                 | NoPhaseYet
                 | BadScope | ScopeOrder | BadHex | FieldNotUtf8 | BadPath | Duplicate | BadInteger | BadFloat
                 | FloatNotFinite
                 | BadType | BadEnvironmentSource | BadSource | PathCollision | NoPhases | NotCanonical

  datatype Result<T> = Ok(value: T) | Err(error: Error) {
    predicate IsFailure() { Err? }
    function PropagateFailure<U>(): Result<U>
      requires Err?
    {
      Err(error)
    }
    function Extract(): T
      requires Ok?
    {
      value
    }
  }

  // ---- Scopes and phases ----

  datatype Scope = User | Project | Environment | Session | Task

  const LAYER_ORDER: seq<Scope> := [User, Project, Environment, Session, Task]

  function RankOf(s: Scope): nat {
    match s case User => 0 case Project => 1 case Environment => 2 case Session => 3 case Task => 4
  }

  function ScopeName(s: Scope): string {
    match s case User => "user" case Project => "project" case Environment => "environment" case Session => "session"
    case Task => "task"
  }

  function ParseScope(name: string): Option<Scope> {
    if name == "user" then Some(User) else if name == "project" then Some(Project)
    else if name == "environment" then Some(Environment) else if name == "session" then Some(Session)
    else if name == "task" then Some(Task) else None
  }

  function SourceName(s: Scope): string {
    match s
    case User => "user-config"
    case Project => "project-config"
    case Session => "session-override"
    case Task => "task-override"
    case Environment => ""
  }

  /** A phase by its layers; a missing layer is an empty one. */
  datatype Phase = Phase(user: Entries, project: Entries, environment: Entries, session: Entries, task: Entries)

  function EmptyPhase(): Phase { Phase([], [], [], [], []) }

  function Layer(p: Phase, s: Scope): Entries {
    match s case User => p.user case Project => p.project case Environment => p.environment case Session => p.session
    case Task => p.task
  }

  function WithLayer(p: Phase, s: Scope, es: Entries): Phase {
    match s
    case User => p.(user := es)
    case Project => p.(project := es)
    case Environment => p.(environment := es)
    case Session => p.(session := es)
    case Task => p.(task := es)
  }

  // ---- Environment names ----

  const PREFIX := "SYNTAVRA_CFG__"

  predicate HasPrefix(name: string) { PREFIX <= name }

  /** `s.replace("__", ".")`, from left to right without overlap. */
  function DotsForUnderscores(s: string): string {
    if |s| < 2 then s
    else if s[0] == '_' && s[1] == '_' then "." + DotsForUnderscores(s[2..])
    else [s[0]] + DotsForUnderscores(s[1..])
  }

  function UnderscoresForDots(s: string): string {
    if s == "" then "" else (if s[0] == '.' then "__" else [s[0]]) + UnderscoresForDots(s[1..])
  }

  function EnvironmentPath(p: Prims, name: string): string {
    if HasPrefix(name) then DotsForUnderscores(p.casefold(name[|PREFIX|..])) else name
  }

  function EnvironmentSource(p: Prims, name: string): string {
    if HasPrefix(name) then name else PREFIX + UnderscoresForDots(p.upper(EnvironmentPath(p, name)))
  }

  // ---- Encoding ----

  datatype WireRow = WireRow(scope: Scope, source: string, path: string, value: Scalar)

  datatype Flat = Flat(path: string, value: Scalar)

  function PathOf(prefix: string, key: string): string { if prefix != "" then prefix + "." + key else key }

  /** `result[path] = value` on the ordered mapping of flattened paths. */
  function PutFlat(d: seq<Flat>, x: Flat): seq<Flat> {
    if d == [] then [x] else if d[0].path == x.path then [x] + d[1..] else [d[0]] + PutFlat(d[1..], x)
  }

  function UpdateFlat(d: seq<Flat>, more: seq<Flat>): seq<Flat> {
    if more == [] then d else PutFlat(UpdateFlat(d, more[..|more| - 1]), more[|more| - 1])
  }

  /** `_flatten`: later values win on the path that an earlier one already has. */
  function Flatten(es: Entries, prefix: string): seq<Flat>
    decreases es
  {
    if es == [] then []
    else
      var last := es[|es| - 1];
      var before := Flatten(es[..|es| - 1], prefix);
      match last.tree
      case Leaf(v) => PutFlat(before, Flat(PathOf(prefix, last.key), v))
      case Dict(entries) => UpdateFlat(before, Flatten(entries, PathOf(prefix, last.key)))
  }

  function EnvironmentValue(t: Tree): Scalar { if t.Leaf? then t.value else NotScalar }

  function RowsOfLayer(p: Prims, scope: Scope, es: Entries): seq<WireRow> {
    if scope == Environment then
      seq(|es|, i requires 0 <= i < |es| =>
        WireRow(scope, EnvironmentSource(p, es[i].key), EnvironmentPath(p, es[i].key), EnvironmentValue(es[i].tree)))
    else
      var flat := Flatten(es, "");
      seq(|flat|, i requires 0 <= i < |flat| => WireRow(scope, SourceName(scope), flat[i].path, flat[i].value))
  }

  function EncodeScalar(p: Prims, v: Scalar): Result<(string, string)> {
    match v
    case Null => Ok(("n", ""))
    case Bool(b) => Ok(("b", if b then "true" else "false"))
    case Int(n) => if p.intText(n).Some? then Ok(("i", p.intText(n).value)) else Err(TooManyDigits)
    case Float(bits) => if p.finite(bits) then Ok(("f", p.floatText(bits))) else Err(NonFinite)
    case Str(s) => Ok(("s", s))
    case NotScalar => Err(ValueNotScalar)
  }

  function HexText(p: Prims, s: string): string { HexOf(p.utf8(s)) }

  function Fields(p: Prims, row: WireRow, code: string, raw: string): seq<string> {
    ["a", ScopeName(row.scope), HexText(p, row.source), HexText(p, row.path), code, HexText(p, raw)]
  }

  function EncodeRow(p: Prims, row: WireRow): Result<string> {
    var v :- EncodeScalar(p, row.value);
    Ok(Join(Fields(p, row, v.0, v.1), '\t'))
  }

  function EncodeRows(p: Prims, rows: seq<WireRow>): Result<seq<string>> {
    if rows == [] then Ok([])
    else
      var init :- EncodeRows(p, rows[..|rows| - 1]);
      var line :- EncodeRow(p, rows[|rows| - 1]);
      Ok(init + [line])
  }

  function EncodeLayers(p: Prims, phase: Phase, scopes: seq<Scope>): Result<seq<string>> {
    if scopes == [] then Ok([])
    else
      var init :- EncodeLayers(p, phase, scopes[..|scopes| - 1]);
      var scope := scopes[|scopes| - 1];
      var lines :- EncodeRows(p, RowsOfLayer(p, scope, Layer(phase, scope)));
      Ok(init + lines)
  }

  function PhaseLine(p: Prims, i: nat): Result<string> {
    if p.intText(i).Some? then Ok("phase\t" + p.intText(i).value) else Err(TooManyDigits)
  }

  function EncodePhases(p: Prims, phases: seq<Phase>): Result<seq<string>> {
    if phases == [] then Ok([])
    else
      var n := |phases| - 1;
      var init :- EncodePhases(p, phases[..n]);
      var head :- PhaseLine(p, n);
      var lines :- EncodeLayers(p, phases[n], LAYER_ORDER);
      Ok(init + [head] + lines)
  }

  const HEADER := "R6CFG1"

  /** `encode_config_wire` */
  function Encode(p: Prims, phases: seq<Phase>): Result<B.Bytes> {
    var lines :- EncodePhases(p, phases);
    Ok(p.utf8(Terminated([HEADER] + lines)))
  }

  // ---- Decoding ----

  function DecodeText(p: Prims, field: string): Result<string> {
    var b := Unhex(field);
    if b.None? then Err(BadHex)
    else
      var s := p.fromUtf8(b.value);
      if s.None? then Err(FieldNotUtf8) else Ok(s.value)
  }

  function DecodeScalar(p: Prims, code: string, field: string): Result<Scalar> {
    var raw :- DecodeText(p, field);
    if code == "n" && raw == "" then Ok(Null)
    else if code == "b" && (raw == "true" || raw == "false") then Ok(Bool(raw == "true"))
    else if code == "i" then if p.parseInt(raw).Some? then Ok(Int(p.parseInt(raw).value)) else Err(BadInteger)
    else if code == "f" then
      if p.parseFloat(raw).None? then Err(BadFloat)
      else if p.finite(p.parseFloat(raw).value) then Ok(Float(p.parseFloat(raw).value)) else Err(FloatNotFinite)
    else if code == "s" then Ok(Str(raw))
    else Err(BadType)
  }

  datatype State = State(phases: seq<Phase>, current: Option<Phase>, seen: set<(Scope, string)>, expected: nat,
                         lastRank: int)

  predicate ValidPath(path: string) { "" !in Split(path, '.') }

  function Finished(s: State): seq<Phase> { s.phases + if s.current.Some? then [s.current.value] else [] }

  /** A decoded assignment enters the current phase if its source is the right one. */
  function Assign(p: Prims, s: State, row: WireRow): Result<State>
    requires s.current.Some? && ValidPath(row.path)
  {
    var layer := Layer(s.current.value, row.scope);
    var seen, rank := s.seen + {(row.scope, row.path)}, RankOf(row.scope);
    if row.scope == Environment then
      if !HasPrefix(row.source) || EnvironmentPath(p, row.source) != row.path then Err(BadEnvironmentSource)
      else Ok(s.(current := Some(WithLayer(s.current.value, row.scope, Put(layer, row.source, Leaf(row.value)))),
                 seen := seen, lastRank := rank))
    else if row.source != SourceName(row.scope) then Err(BadSource)
    else
      var set' := SetDotted(layer, Split(row.path, '.'), row.value);
      if set'.None? then Err(PathCollision)
      else Ok(s.(current := Some(WithLayer(s.current.value, row.scope, set'.value)), seen := seen, lastRank := rank))
  }

  function DecodeLine(p: Prims, s: State, line: string): Result<State> {
    if line == "" then Err(EmptyLine)
    else
      var fields := Split(line, '\t');
      if |fields| == 2 && fields[0] == "phase" then
        var index := p.parseInt(fields[1]);
        if index.None? then Err(BadPhaseIndex)
        else if index.value != s.expected then Err(PhaseOrder)
        else Ok(State(Finished(s), Some(EmptyPhase()), {}, s.expected + 1, -1))
      else if |fields| != 6 || fields[0] != "a" then Err(BadLine)
      else if s.current.None? then Err(NoPhaseYet)
      else DecodeAssignment(p, s, fields)
  }

  function DecodeAssignment(p: Prims, s: State, fields: seq<string>): Result<State>
    requires |fields| == 6 && s.current.Some?
  {
    var scope := ParseScope(fields[1]);
    if scope.None? then Err(BadScope)
    else if RankOf(scope.value) < s.lastRank then Err(ScopeOrder)
    else
      var source :- DecodeText(p, fields[2]);
      var path :- DecodeText(p, fields[3]);
      if !ValidPath(path) then Err(BadPath)
      else if (scope.value, path) in s.seen then Err(Duplicate)
      else
        var value :- DecodeScalar(p, fields[4], fields[5]);
        Assign(p, s, WireRow(scope.value, source, path, value))
  }

  function DecodeLines(p: Prims, s: State, lines: seq<string>): Result<State> {
    if lines == [] then Ok(s)
    else
      var init :- DecodeLines(p, s, lines[..|lines| - 1]);
      DecodeLine(p, init, lines[|lines| - 1])
  }

  function Start(): State { State([], None, {}, 0, -1) }

  /** What the lines say, before the canonicality test. */
  function Parse(p: Prims, raw: B.Bytes, maximum: int): Result<seq<Phase>> {
    if |raw| > maximum then Err(TooLarge)
    else
      var text := p.fromUtf8(raw);
      if text.None? then Err(NotUtf8)
      else if !EndsWithNewline(text.value) then Err(NotTerminated)
      else
        var lines := SplitLines(text.value);
        if lines == [] || lines[0] != HEADER then Err(BadHeader)
        else
          var s :- DecodeLines(p, Start(), lines[1..]);
          if Finished(s) == [] then Err(NoPhases) else Ok(Finished(s))
  }

  /** `decode_config_wire` */
  function Decode(p: Prims, raw: B.Bytes, maximum: int): Result<seq<Phase>> {
    var phases :- Parse(p, raw, maximum);
    var again :- Encode(p, phases);
    if again != raw then Err(NotCanonical) else Ok(phases)
  }
}
