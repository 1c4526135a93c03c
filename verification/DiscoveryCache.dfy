/** The cached stage one: least recently used eviction, and answers that are never stale. */
module DiscoveryCache {
  import opened Ordering
  import opened DiscoveryAnswer

  // ---- Order of use ----

  function Without(s: seq<string>, key: string): seq<string> {
    if s == [] then [] else (if s[0] == key then [] else [s[0]]) + Without(s[1..], key)
  }

  /** `move_to_end` */
  function Touch(s: seq<string>, key: string): seq<string> { Without(s, key) + [key] }

  function LastN(n: nat, s: seq<string>): seq<string> { if |s| <= n then s else s[|s| - n..] }

  /** Every key used, in the order of its last use. */
  function LastUses(history: seq<string>): seq<string> {
    if history == [] then [] else Touch(LastUses(history[..|history| - 1]), history[|history| - 1])
  }

  lemma {:induction false} WithoutMembers(s: seq<string>, key: string)
    ensures forall x :: x in Without(s, key) <==> x in s && x != key
    ensures NoDuplicates(s) ==> NoDuplicates(Without(s, key))
    ensures key !in s ==> Without(s, key) == s
    ensures NoDuplicates(s) && key in s ==> |Without(s, key)| == |s| - 1
  {
    if s != [] {
      assert s == [s[0]] + s[1..];
      WithoutMembers(s[1..], key);
      if NoDuplicates(s) {
        assert s[0] !in s[1..];
        var r := Without(s[1..], key);
        assert NoDuplicates([s[0]] + r);
      }
    }
  }

  lemma TouchMembers(s: seq<string>, key: string)
    ensures Elements(Touch(s, key)) == Elements(s) + {key}
    ensures NoDuplicates(s) ==> NoDuplicates(Touch(s, key)) && |Touch(s, key)| == |s| + if key in s then 0 else 1
  {
    WithoutMembers(s, key);
    forall x ensures x in Touch(s, key) <==> x in s || x == key {}
  }

  lemma {:induction false} WithoutConcat(a: seq<string>, b: seq<string>, key: string)
    ensures Without(a + b, key) == Without(a, key) + Without(b, key)
  {
    if a == [] {
      assert a + b == b;
    } else {
      assert (a + b)[1..] == a[1..] + b;
      WithoutConcat(a[1..], b, key);
    }
  }

  lemma LastNOfConcat(n: nat, a: seq<string>, b: seq<string>)
    requires |b| >= n
    ensures LastN(n, a + b) == LastN(n, b)
  {
  }

  lemma SuffixDistinct(s: seq<string>, i: nat)
    requires NoDuplicates(s) && i <= |s|
    ensures NoDuplicates(s[i..]) && s == s[..i] + s[i..]
  {
  }

  /** Dropping the oldest entries early does not change which are kept. */
  lemma LastNTouch(n: nat, s: seq<string>, key: string)
    requires n >= 1 && NoDuplicates(s)
    ensures LastN(n, Touch(LastN(n, s), key)) == LastN(n, Touch(s, key))
  {
    if |s| > n {
      var a, b := s[..|s| - n], s[|s| - n..];
      SuffixDistinct(s, |s| - n);
      WithoutConcat(a, b, key);
      WithoutMembers(b, key);
      hide Without, NoDuplicates, LastN;
      LastNIsSuffix(n, s);
      assert Touch(s, key) == Without(a, key) + Touch(b, key);
      LastNOfConcat(n, Without(a, key), Touch(b, key));
    } else {
      hide Without;
    }
  }

  lemma LastNIsSuffix(n: nat, s: seq<string>)
    requires |s| > n
    ensures LastN(n, s) == s[|s| - n..]
  {
  }

  ghost predicate LastAt(history: seq<string>, key: string, i: nat) {
    i < |history| && history[i] == key && forall j :: i < j < |history| ==> history[j] != key
  }

  /** An earlier key was last used earlier. */
  ghost predicate InUseOrder(history: seq<string>, uses: seq<string>) {
    forall a, b, i, j ::
      0 <= a < b < |uses| && LastAt(history, uses[a], i) && LastAt(history, uses[b], j) ==> i < j
  }

  /** What `LastUses` means: every key of the history once, an earlier one last used earlier. */
  lemma {:induction false} LastUsesMeaning(history: seq<string>)
    ensures NoDuplicates(LastUses(history)) && Elements(LastUses(history)) == Elements(history)
    ensures InUseOrder(history, LastUses(history))
  {
    if history != [] {
      var n := |history| - 1;
      var init, key := history[..n], history[n];
      assert history == init + [key];
      LastUsesMeaning(init);
      TouchMembers(LastUses(init), key);
      WithoutMembers(LastUses(init), key);
      ElementsConcat(init, [key]);
      var uses := LastUses(history);
      forall a, b, i, j | 0 <= a < b < |uses| && LastAt(history, uses[a], i) && LastAt(history, uses[b], j)
          ensures i < j {
        LaterUse(history, a, b, i, j);
      }
    }
  }

  lemma {:induction false} WithoutOrder(s: seq<string>, key: string, a: nat, b: nat) returns (c: nat, d: nat)
    requires a < b < |Without(s, key)|
    ensures c < d < |s| && s[c] == Without(s, key)[a] && s[d] == Without(s, key)[b]
  {
    if s[0] == key {
      c, d := WithoutOrder(s[1..], key, a, b);
      c, d := c + 1, d + 1;
    } else if a == 0 {
      assert Without(s, key)[b] == Without(s[1..], key)[b - 1];
      WithoutMembers(s[1..], key);
      assert Without(s[1..], key)[b - 1] in Without(s[1..], key);
      var e := IndexOf(s[1..], Without(s, key)[b]);
      c, d := 0, e + 1;
    } else {
      c, d := WithoutOrder(s[1..], key, a - 1, b - 1);
      c, d := c + 1, d + 1;
    }
  }

  lemma LaterUse(history: seq<string>, a: nat, b: nat, i: nat, j: nat)
    requires history != [] && a < b < |LastUses(history)|
    requires LastAt(history, LastUses(history)[a], i) && LastAt(history, LastUses(history)[b], j)
    requires InUseOrder(history[..|history| - 1], LastUses(history[..|history| - 1]))
    ensures i < j
  {
    var n := |history| - 1;
    var init, key := history[..n], history[n];
    var uses := LastUses(init);
    var kept := Without(uses, key);
    WithoutMembers(uses, key);
    assert LastUses(history) == kept + [key];
    assert InUseOrder(init, uses);
    hide LastUses, Without, Touch, NoDuplicates;
    assert kept[a] in kept;
    UseBefore(history, kept[a], i);
    if b == |kept| {
      UseAtEnd(history, j);
    } else {
      assert kept[b] in kept;
      UseBefore(history, kept[b], j);
      var c, d := WithoutOrder(uses, key, a, b);
      assert LastAt(init, uses[c], i) && LastAt(init, uses[d], j);
    }
  }

  lemma UseBefore(history: seq<string>, x: string, i: nat)
    requires history != [] && x != history[|history| - 1] && LastAt(history, x, i)
    ensures i < |history| - 1 && LastAt(history[..|history| - 1], x, i)
  {
  }

  lemma UseAtEnd(history: seq<string>, j: nat)
    requires history != [] && LastAt(history, history[|history| - 1], j)
    ensures j == |history| - 1
  {
  }

  // ---- The cache ----

  class Cache {
    const capacity: nat
    var order: seq<string>
    var store: map<string, Answer>

    ghost predicate Valid()
      reads this
    {
      capacity >= 1 && NoDuplicates(order) && Elements(order) == store.Keys && |order| <= capacity
    }

    /** `max(1, min(4096, int(cache_entries)))` */
    constructor (entries: int)
      ensures Valid() && order == [] && store == map[]
      ensures capacity == if entries < 1 then 1 else if entries > 4096 then 4096 else entries
    {
      capacity := if entries < 1 then 1 else if entries > 4096 then 4096 else entries;
      order, store := [], map[];
    }

    /** `_cache_get` */
    method Get(key: string) returns (r: Option<Answer>)
      requires Valid()
      modifies this`order
      ensures Valid()
      ensures r == if key in store then Some(store[key]) else None
      ensures order == if key in store then Touch(old(order), key) else old(order)
    {
      if key !in store {
        return None;
      }
      TouchMembers(order, key);
      assert key in Elements(order);
      order := Touch(order, key);
      r := Some(store[key]);
    }

    /** `_cache_put`: stores under the newest key and drops the oldest entries beyond the capacity. */
    method Put(key: string, value: Answer)
      requires Valid()
      modifies this`order, this`store
      ensures Valid()
      ensures order == LastN(capacity, Touch(old(order), key))
      ensures forall k :: k in store <==> k in order
      ensures forall k :: k in store ==> store[k] == if k == key then value
          else if k in old(store) then old(store)[k] else value
      ensures key in store && forall k :: k in store && k != key ==> k in old(store)
    {
      TouchMembers(order, key);
      ghost var all := Touch(order, key);
      ghost var before := store;
      order := Touch(order, key);
      store := store[key := value];
      while |order| > capacity
        invariant NoDuplicates(order) && Elements(order) == store.Keys
        invariant |order| >= 1 && order == LastN(|order|, all) && |order| <= |all|
        invariant |order| >= capacity || order == all
        invariant forall k :: k in store ==> store[k] == if k == key then value else if k in before then before[k]
            else value
        invariant forall k :: k in store && k != key ==> k in before
      {
        DropOldest(order);
        store := store - {order[0]};
        order := order[1..];
      }
      assert all[|all| - 1] == key && order[|order| - 1] == key;
      assert key in Elements(order);
      forall k ensures k in store <==> k in order { assert k in Elements(order) <==> k in order; }
    }
  }

  lemma DropOldest(s: seq<string>)
    requires NoDuplicates(s) && s != []
    ensures NoDuplicates(s[1..]) && Elements(s[1..]) == Elements(s) - {s[0]}
  {
    assert s == [s[0]] + s[1..];
  }

  // ---- Keys ----

  function KeyBasisOf(lex: Lexicon, health: HealthMap, req: Request): KeyBasis {
    KeyBasis(req.query, lex.catalogHash(Stable(req.catalog)), lex.hostHash(req.host), health, req.familyLimit)
  }

  function KeyOf(lex: Lexicon, health: HealthMap, req: Request): string { lex.keyHash(KeyBasisOf(lex, health, req)) }

  /** The two requests, each under its health, are told apart neither by the key hash nor by the hashes it is taken
      over, although what went into one of these differs. */
  ghost predicate Clash(lex: Lexicon, health: HealthMap, req: Request, health': HealthMap, req': Request) {
    var k, l := KeyBasisOf(lex, health, req), KeyBasisOf(lex, health', req');
    var rows, rows' := Stable(req.catalog), Stable(req'.catalog);
    || (k != l && lex.keyHash(k) == lex.keyHash(l))
    || (rows != rows' && lex.catalogHash(rows) == lex.catalogHash(rows'))
    || (req.host != req'.host && lex.hostHash(req.host) == lex.hostHash(req'.host))
  }

  /** The key determines the answer: equal keys mean the same answers are right, or the two requests clash. */
  lemma SameKeySameAnswer(lex: Lexicon, health: HealthMap, req: Request, health': HealthMap, req': Request, a: Answer)
    requires KeyOf(lex, health, req) == KeyOf(lex, health', req') && IsAnswer(lex, health, req, a)
    ensures IsAnswer(lex, health', req', a) || Clash(lex, health, req, health', req')
  {
    hide AnswerWith, Ranked, Ranks, Matching, VisibleTo;
    if !Clash(lex, health, req, health', req') {
      var order :| Ranked(Ranks(lex, lex.tokens(req.query),
                                Matching(lex, lex.tokens(req.query), VisibleTo(lex, health, req))), order)
                   && a == AnswerWith(lex, health, req, order);
      SameStableSameAnswer(lex, health, req, req', order);
    }
  }

  // ---- The engine ----

  class Engine {
    const lex: Lexicon
    const cache: Cache
    var health: HealthMap
    /** The keys asked for so far, and for every cached key the request and the health it was computed from. */
    ghost var history: seq<string>
    ghost var origins: map<string, (Request, HealthMap)>

    ghost predicate Valid()
      reads this, cache
    {
      && cache.Valid()
      && cache.order == LastN(cache.capacity, LastUses(history))
      && (forall k :: k in cache.store ==> k in origins && Sound(k))
    }

    /** A cached answer is the answer to the request it was computed for, and is filed under that request's key. */
    ghost predicate Sound(k: string)
      requires k in cache.store && k in origins
      reads this, cache
    {
      KeyOf(lex, origins[k].1, origins[k].0) == k && IsAnswer(lex, origins[k].1, origins[k].0, cache.store[k])
    }

    constructor (lex: Lexicon, entries: int)
      ensures Valid() && history == [] && health == map[] && origins == map[] && this.lex == lex && fresh(cache)
      ensures cache.capacity == if entries < 1 then 1 else if entries > 4096 then 4096 else entries
    {
      this.lex := lex;
      cache := new Cache(entries);
      health := map[];
      history := [];
      origins := map[];
    }

    /** A health update only changes what later requests are keyed by. */
    method SetHealth(name: string, h: Health)
      requires Valid()
      modifies this`health
      ensures Valid() && health == old(health)[name := h] && history == old(history)
    {
      health := health[name := h];
    }

    /** `stage1`: whatever was asked and updated before, the answer is the one that would be computed now, unless the
        request clashes with the one its cached answer was computed for; and afterwards the cache holds exactly the
        most recently used keys. */
    method Stage1(req: Request) returns (a: Answer, hit: bool)
      requires Valid()
      modifies this`history, this`origins, cache`order, cache`store
      ensures Valid()
      ensures hit <==> KeyOf(lex, health, req) in old(cache.store)
      ensures hit ==> KeyOf(lex, health, req) in old(origins)
      ensures || IsAnswer(lex, health, req, a)
              || (hit && var (req0, health0) := old(origins)[KeyOf(lex, health, req)];
                  Clash(lex, health0, req0, health, req))
      ensures origins == if hit then old(origins) else old(origins)[KeyOf(lex, health, req) := (req, health)]
      ensures history == old(history) + [KeyOf(lex, health, req)]
      ensures KeyOf(lex, health, req) in cache.store && cache.store[KeyOf(lex, health, req)] == a
    {
      hide IsAnswer, KeyOf, Clash, LastUses, LastN, Touch, Elements;
      var key := KeyOf(lex, health, req);
      UseOnce(cache.capacity, history, key);
      ghost var uses := cache.order;
      var cached := cache.Get(key);
      history := history + [key];
      if cached.Some? {
        HitFits(cache.capacity, uses, key);
        a, hit := cached.value, true;
        SameKeySameAnswer(lex, origins[key].1, origins[key].0, health, req, a);
        return;
      }
      hit := false;
      a := ComputeAnswer(lex, health, req);
      ghost var before := cache.store;
      cache.Put(key, a);
      origins := origins[key := (req, health)];
      forall k | k in cache.store ensures k in origins && Sound(k) {
        if k != key { assert k in before && cache.store[k] == before[k]; }
      }
    }
  }

  lemma UseOnce(n: nat, history: seq<string>, key: string)
    requires n >= 1
    ensures LastN(n, LastUses(history + [key])) == LastN(n, Touch(LastN(n, LastUses(history)), key))
  {
    assert (history + [key])[..|history|] == history;
    LastUsesMeaning(history);
    LastNTouch(n, LastUses(history), key);
  }

  /** Touching a key that is already there drops nothing. */
  lemma HitFits(n: nat, s: seq<string>, key: string)
    requires NoDuplicates(s) && |s| <= n && key in Elements(s)
    ensures LastN(n, Touch(s, key)) == Touch(s, key)
  {
    TouchMembers(s, key);
  }
}
