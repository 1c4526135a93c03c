/** The evidence key ring: which keys are made, kept and found again over a run of operations. */
module KeyRing {
  import opened Bytes

  const KEY_BYTES := 32

  /** Names of keys: the environment's, the numbered local ones, and whatever else a caller may ask for. */
  datatype KeyId = Environment | Local(n: nat) | Other(text: string)

  /** The environment variable as it is read at a call. */
  datatype Variable = Unset | Malformed | Holds(key: Bytes)

  datatype Registry = Registry(active: KeyId, keys: seq<KeyId>)

  datatype Code = BadEnvironmentKey | ManagedKeyRequired | EnvironmentManaged | EnvironmentKeyMissing
                | KeyUnavailable | BadKeyLength | Crashed

  datatype Found = Key(id: KeyId, raw: Bytes) | Failed(code: Code)

  /** `_load_registry`: without a registry file the first local key is taken to be active. */
  function Loaded(registry: Option<Registry>): Registry {
    if registry.Some? then registry.value else Registry(Local(1), [Local(1)])
  }

  /** [local-v1, ..., local-vn] */
  function Numbered(n: nat): (r: seq<KeyId>)
    ensures |r| == n && forall i :: 0 <= i < n ==> r[i] == Local(i + 1)
  {
    if n == 0 then [] else Numbered(n - 1) + [Local(n)]
  }

  /** `dict.fromkeys([*keys, id])` */
  function WithKey(keys: seq<KeyId>, id: KeyId): seq<KeyId> { if id in keys then keys else keys + [id] }

  type Files = map<KeyId, Bytes>

  /** The local keys are numbered without gaps up to the active one. */
  ghost predicate InNumbers(reg: Registry) {
    |reg.keys| >= 1 && reg.keys == Numbered(|reg.keys|) && reg.active == Local(|reg.keys|)
  }

  /** Keys are numbered, whole, and none that was handed out has changed. */
  ghost predicate Orderly(files: Files, registry: Option<Registry>, issued: Files) {
    && InNumbers(Loaded(registry))
    && (registry.Some? ==> Loaded(registry).active in files)
    && (forall k :: k in files ==> |files[k]| == KEY_BYTES)
    && (forall k :: k in issued ==> k in Loaded(registry).keys && k in files && files[k] == issued[k])
  }

  lemma NoRegistry(registry: Option<Registry>)
    ensures InNumbers(Loaded(None)) && Loaded(None).active == Local(1)
  {
  }

  /** Rotation takes the next number, which nothing handed out can have. */
  lemma NextNumber(reg: Registry)
    requires InNumbers(reg)
    ensures var id := Local(|reg.keys| + 1);
            id !in reg.keys && InNumbers(Registry(id, WithKey(reg.keys, id)))
                && WithKey(reg.keys, id) == reg.keys + [id]
    ensures reg.active in reg.keys
  {
    var n := |reg.keys|;
    forall i | 0 <= i < n ensures reg.keys[i] != Local(n + 1) { assert reg.keys[i] == Local(i + 1); }
    assert Numbered(n + 1)[..n] == Numbered(n);
    assert reg.keys[n - 1] == Local(n);
  }

  lemma OrderlyFresh(files: Files, issued: Files, secret: Bytes)
    requires Orderly(files, None, issued) && Local(1) !in files && |secret| == KEY_BYTES
    ensures Orderly(files[Local(1) := secret], None, issued)
    ensures Orderly(files[Local(1) := secret], Some(Registry(Local(1), [Local(1)])), issued)
  {
    NoRegistry(None);
  }

  lemma OrderlyIssued(files: Files, registry: Option<Registry>, issued: Files)
    requires Orderly(files, registry, issued) && Loaded(registry).active in files
    ensures Orderly(files, registry, issued[Loaded(registry).active := files[Loaded(registry).active]])
    ensures Loaded(registry).active in issued ==> issued[Loaded(registry).active] == files[Loaded(registry).active]
  {
    NextNumber(Loaded(registry));
  }

  lemma OrderlyRotated(files: Files, registry: Option<Registry>, issued: Files, secret: Bytes)
    requires Orderly(files, registry, issued) && |secret| == KEY_BYTES
    ensures var reg := Loaded(registry);
            var id := Local(|reg.keys| + 1);
            && id !in issued
            && Orderly(files[id := secret], registry, issued)
            && Orderly(files[id := secret], Some(Registry(id, WithKey(reg.keys, id))), issued)
            && WithKey(reg.keys, id) == reg.keys + [id]
            && (forall k :: k in issued ==> k in files[id := secret] && files[id := secret][k] == files[k])
  {
    NextNumber(Loaded(registry));
    hide InNumbers;
  }

  class Ring {
    const allowLocal: bool
    var files: map<KeyId, Bytes>
    var registry: Option<Registry>
    /** Every local key that `Active` has handed out. */
    ghost var issued: map<KeyId, Bytes>

    ghost predicate Valid()
      reads this
    {
      Orderly(files, registry, issued)
    }

    constructor (allowLocal: bool)
      ensures Valid() && files == map[] && registry == None && issued == map[]
    {
      this.allowLocal := allowLocal;
      files, registry, issued := map[], None, map[];
    }

    /** `active`, with `secret` the random bytes drawn if a key has to be made; a crash may strike between its two
        writes. */
    method Active(env: Variable, secret: Bytes, crash: bool) returns (r: Found)
      requires Valid() && |secret| == KEY_BYTES
      modifies this
      ensures Valid()
      ensures forall k :: k in old(issued) ==> k in issued && issued[k] == old(issued)[k]
      ensures r.Key? && r.id.Local? ==> r.id in issued && issued[r.id] == r.raw
      ensures env.Holds? ==>
                r == (if |env.key| == KEY_BYTES then Key(Environment, env.key) else Failed(BadEnvironmentKey))
      ensures env.Unset? && allowLocal && !crash ==> r.Key? && r.id == Loaded(old(registry)).active
      ensures forall k :: k in old(files) ==> k in files && files[k] == old(files)[k]
    {
      if env.Malformed? || (env.Holds? && |env.key| != KEY_BYTES) {
        return Failed(BadEnvironmentKey);
      }
      if env.Holds? {
        return Key(Environment, env.key);
      }
      if !allowLocal {
        return Failed(ManagedKeyRequired);
      }
      hide Orderly, InNumbers;
      var id := Loaded(registry).active;
      MissingMeansFresh(files, registry, issued);
      if id !in files {
        OrderlyFresh(files, issued, secret);
        files := files[id := secret];
        if crash {
          return Failed(Crashed);
        }
        registry := Some(Registry(id, [id]));
      }
      OrderlyIssued(files, registry, issued);
      issued := issued[id := files[id]];
      r := Key(id, files[id]);
    }

    /** `rotate`: the next number, its key, then the registry. */
    method Rotate(env: Variable, secret: Bytes, crash: bool) returns (r: Found)
      requires Valid() && |secret| == KEY_BYTES
      modifies this`files, this`registry
      ensures Valid()
      ensures r.Key? ==>
                r.id !in old(issued) && Loaded(registry).active == r.id && r.id in files && files[r.id] == secret
      ensures r.Key? ==> Loaded(registry).keys == Loaded(old(registry)).keys + [r.id]
      ensures r.Key? <==> env.Unset? && !crash
      ensures forall k :: k in old(issued) ==> k in files && files[k] == old(files)[k]
    {
      if !env.Unset? {
        return Failed(EnvironmentManaged);
      }
      hide Orderly, WithKey;
      var reg := Loaded(registry);
      var id := Local(|reg.keys| + 1);
      OrderlyParts(files, registry, issued);
      OrderlyRotated(files, registry, issued, secret);
      files := files[id := secret];
      if crash {
        return Failed(Crashed);
      }
      registry := Some(Registry(id, WithKey(reg.keys, id)));
      r := Key(id, secret);
    }

    /** `get`: every key that was ever handed out is found again, with the bytes it was handed out with. */
    method Get(env: Variable, id: KeyId) returns (r: Found)
      requires Valid()
      ensures id in issued && id.Local? ==> r == Key(id, issued[id])
      ensures id.Environment? ==> (r.Key? <==> env.Holds? && |env.key| == KEY_BYTES)
      ensures !id.Environment? ==> r == if id in files then Key(id, files[id]) else Failed(KeyUnavailable)
    {
      if id.Environment? {
        return if env.Unset? then Failed(EnvironmentKeyMissing)
               else if env.Malformed? || |env.key| != KEY_BYTES then Failed(BadEnvironmentKey)
               else Key(Environment, env.key);
      }
      if id !in files {
        return Failed(KeyUnavailable);
      }
      if |files[id]| != KEY_BYTES {
        return Failed(BadKeyLength);
      }
      r := Key(id, files[id]);
    }
  }

  lemma MissingMeansFresh(files: Files, registry: Option<Registry>, issued: Files)
    requires Orderly(files, registry, issued)
    ensures Loaded(registry).active !in files ==> registry == None && Loaded(registry).active == Local(1)
  {
  }

  lemma OrderlyParts(files: Files, registry: Option<Registry>, issued: Files)
    requires Orderly(files, registry, issued)
    ensures InNumbers(Loaded(registry)) && forall k :: k in issued ==> k in files && files[k] == issued[k]
  {
  }

  /** The number that rotation picks already has a file. */
  ghost predicate RotationOverwrites(files: Files, registry: Option<Registry>) {
    Local(|Loaded(registry).keys| + 1) in files
  }

  /** What `active` leaves when the file of the active key is missing. */
  function Recreated(files: Files, registry: Option<Registry>, secret: Bytes): (Files, Option<Registry>) {
    var id := Loaded(registry).active;
    (files[id := secret], Some(Registry(id, [id])))
  }

  /** Outside the runs above: if the file of the active key local-vn has been removed, recreating it makes the
      registry forget the earlier keys, and the next rotation overwrites local-v2 exactly when that is the key just
      recreated or is still there. */
  lemma ForgottenKeyIsOverwritten(files: Files, n: nat, secret: Bytes)
    requires n >= 1 && Local(n) !in files
    ensures var (files', registry') := Recreated(files, Some(Registry(Local(n), Numbered(n))), secret);
            RotationOverwrites(files', registry') <==> n == 2 || Local(2) in files
  {
    var (files', registry') := Recreated(files, Some(Registry(Local(n), Numbered(n))), secret);
    assert Loaded(registry').keys == [Local(n)];
  }
}
