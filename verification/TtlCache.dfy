/** The caches of `Text2SQL`: entries with a time to live, evicted lazily on a failed lookup
    and by a sweep when a cache is full. */
module TtlCache {
  import opened Common

  /** `get_from_cache` and `set_cache` choose the cache by the type of the value. Three types
      are in use; the SQL cache is swept but never chosen. */
  datatype Kind = Schema | SampleData | Vector | Sql

  datatype Entry<V> = Entry(data: V, timestamp: int)

  datatype Config = Config(enabled: bool, ttlSeconds: int, maxSize: int)

  type Cache<V> = map<string, Entry<V>>

  datatype Caches<V> = Caches(schema: Cache<V>, sampleData: Cache<V>, vector: Cache<V>, sql: Cache<V>) {
    function At(kind: Kind): Cache<V> {
      match kind
      case Schema => schema
      case SampleData => sampleData
      case Vector => vector
      case Sql => sql
    }

    function With(kind: Kind, cache: Cache<V>): Caches<V> {
      match kind
      case Schema => this.(schema := cache)
      case SampleData => this.(sampleData := cache)
      case Vector => this.(vector := cache)
      case Sql => this.(sql := cache)
    }
  }

  const NANOS: int := 1_000_000_000

  /** `duration_cast<seconds>`, which truncates toward zero. */
  function TruncatedSeconds(d: int): int {
    if d >= 0 then d / NANOS else -((-d) / NANOS)
  }

  predicate Fresh<V>(cfg: Config, entry: Entry<V>, now: int) {
    TruncatedSeconds(now - entry.timestamp) < cfg.ttlSeconds
  }

  /** Truncation does not matter for an entry that is not from the future: the truncated age is
      below the limit exactly when the exact age is. The age of one from the future is rounded up,
      and it has to be a whole second below. */
  lemma FreshMeansYoung<V>(cfg: Config, entry: Entry<V>, now: int)
    ensures entry.timestamp <= now ==>
              (Fresh(cfg, entry, now) <==> now - entry.timestamp < cfg.ttlSeconds * 1_000_000_000)
    ensures entry.timestamp > now ==>
              (Fresh(cfg, entry, now) <==> now - entry.timestamp <= (cfg.ttlSeconds - 1) * 1_000_000_000)
  {
    var age := now - entry.timestamp;
    assert age >= 0 ==> age == age / NANOS * NANOS + age % NANOS;
    assert age < 0 ==> -age == (-age) / NANOS * NANOS + (-age) % NANOS;
  }

  function Lookup<V>(cfg: Config, c: Caches<V>, kind: Kind, key: string, now: int): Option<V> {
    if cfg.enabled && key in c.At(kind) && Fresh(cfg, c.At(kind)[key], now) then Some(c.At(kind)[key].data) else None
  }

  function AfterLookup<V>(cfg: Config, c: Caches<V>, kind: Kind, key: string, now: int): Caches<V> {
    if cfg.enabled && key in c.At(kind) && !Fresh(cfg, c.At(kind)[key], now) then c.With(kind, c.At(kind) - {key}) else c
  }

  function SweepOne<V>(cfg: Config, m: Cache<V>, now: int): Cache<V> {
    map key | key in m && Fresh(cfg, m[key], now) :: m[key]
  }

  function SweepAll<V>(cfg: Config, c: Caches<V>, now: int): Caches<V> {
    Caches(SweepOne(cfg, c.schema, now), SweepOne(cfg, c.sampleData, now),
           SweepOne(cfg, c.vector, now), SweepOne(cfg, c.sql, now))
  }

  /** `cache->size() >= static_cast<size_t>(max_cache_size)`: a negative limit becomes huge. */
  predicate Full<V>(cfg: Config, m: Cache<V>) {
    cfg.maxSize >= 0 && |m| >= cfg.maxSize
  }

  function AfterStore<V>(cfg: Config, c: Caches<V>, kind: Kind, key: string, value: V, sweepNow: int, now: int): Caches<V> {
    if !cfg.enabled then c
    else
      var swept := if Full(cfg, c.At(kind)) then SweepAll(cfg, c, sweepNow) else c;
      swept.With(kind, swept.At(kind)[key := Entry(value, now)])
  }

  /** What a store does to every entry: its own is written; the others all stay, or, exactly when
      the chosen cache has reached a limit that is not negative, the fresh ones of all four caches
      stay. */
  lemma StoreKeeps<V>(cfg: Config, c: Caches<V>, kind: Kind, key: string, value: V, sweepNow: int, now: int, k: Kind, other: string)
    requires cfg.enabled
    ensures var after := AfterStore(cfg, c, kind, key, value, sweepNow, now);
            && key in after.At(kind) && after.At(kind)[key] == Entry(value, now)
            && ((k, other) != (kind, key) ==>
                  && (other in after.At(k) <==>
                        other in c.At(k) && (0 <= cfg.maxSize <= |c.At(kind)| ==> Fresh(cfg, c.At(k)[other], sweepNow)))
                  && (other in after.At(k) ==> after.At(k)[other] == c.At(k)[other]))
  {
  }

  lemma InsertSize<K, V>(m: map<K, V>, key: K, value: V)
    ensures |m[key := value]| <= |m| + 1
  {
    assert m[key := value].Keys == m.Keys + {key};
  }

  /** A cache outgrows its limit only with entries that were all fresh. */
  lemma StoreBound<V>(cfg: Config, c: Caches<V>, kind: Kind, key: string, value: V, sweepNow: int, now: int)
    requires cfg.enabled && cfg.maxSize >= 0
    ensures var cache := AfterStore(cfg, c, kind, key, value, sweepNow, now).At(kind);
            |cache| <= cfg.maxSize || forall other :: other in cache && other != key ==> Fresh(cfg, cache[other], sweepNow)
  {
    InsertSize(c.At(kind), key, Entry(value, now));
  }

  // ---------- Runs ----------

  /** `Set` reads the clock twice: for a sweep, if there is one, and for the entry. */
  datatype Op<V> =
    | Get(kind: Kind, key: string, now: int)
    | Set(kind: Kind, key: string, value: V, sweepNow: int, now: int)
    | Sweep(now: int)

  function Start<V>(): Caches<V> {
    Caches(map[], map[], map[], map[])
  }

  function Step<V>(cfg: Config, c: Caches<V>, op: Op<V>): Caches<V> {
    match op
    case Get(kind, key, now) => AfterLookup(cfg, c, kind, key, now)
    case Set(kind, key, value, sweepNow, now) => AfterStore(cfg, c, kind, key, value, sweepNow, now)
    case Sweep(now) => SweepAll(cfg, c, now)
  }

  function Run<V>(cfg: Config, ops: seq<Op<V>>): Caches<V> {
    if ops == [] then Start() else Step(cfg, Run(cfg, ops[..|ops| - 1]), ops[|ops| - 1])
  }

  /** Disabled caches are not looked into and not written. */
  lemma DisabledStep<V>(cfg: Config, c: Caches<V>, op: Op<V>)
    requires !cfg.enabled
    ensures op.Get? ==> Step(cfg, c, op) == c && Lookup(cfg, c, op.kind, op.key, op.now) == None
    ensures op.Set? ==> Step(cfg, c, op) == c
  {
  }

  /** They stay empty over every run. */
  lemma {:induction false} DisabledStaysEmpty<V>(cfg: Config, ops: seq<Op<V>>)
    requires !cfg.enabled
    ensures Run(cfg, ops) == Start()
    decreases |ops|
  {
    if ops != [] {
      DisabledStaysEmpty(cfg, ops[..|ops| - 1]);
    }
  }

  /** No clock reading is later than `clock` or earlier than one before it. */
  predicate Timely<V>(ops: seq<Op<V>>, clock: int) {
    ops != [] ==>
      var last := ops[|ops| - 1];
      && last.now <= clock
      && (if last.Set? then last.sweepNow <= last.now && Timely(ops[..|ops| - 1], last.sweepNow)
          else Timely(ops[..|ops| - 1], last.now))
  }

  /** The latest write of a key, whatever happened to it since. */
  function LastWrite<V>(ops: seq<Op<V>>, kind: Kind, key: string): Option<Entry<V>> {
    if ops == [] then None
    else
      var last := ops[|ops| - 1];
      if last.Set? && last.kind == kind && last.key == key then Some(Entry(last.value, last.now))
      else LastWrite(ops[..|ops| - 1], kind, key)
  }

  /** What a lookup should say: the last write, if it is young enough. */
  function Expected<V>(cfg: Config, ops: seq<Op<V>>, kind: Kind, key: string, now: int): Option<V> {
    match LastWrite(ops, kind, key)
    case None => None
    case Some(e) => if cfg.enabled && Fresh(cfg, e, now) then Some(e.data) else None
  }

  /** Operation `op`, done on the caches `c`, compares the entry `e` of this key with a clock
      reading at which `e` is stale: a lookup of the key, a sweep, or a store into a full cache. */
  predicate SeesStale<V>(cfg: Config, c: Caches<V>, op: Op<V>, kind: Kind, key: string, e: Entry<V>) {
    match op
    case Get(queriedKind, queried, now) => queriedKind == kind && queried == key && !Fresh(cfg, e, now)
    case Set(storedKind, _, _, sweepNow, _) => Full(cfg, c.At(storedKind)) && !Fresh(cfg, e, sweepNow)
    case Sweep(now) => !Fresh(cfg, e, now)
  }

  /** No operation since the latest write of the key saw that write stale, in the state it met. */
  predicate Survives<V>(cfg: Config, ops: seq<Op<V>>, kind: Kind, key: string) {
    ops != [] ==>
      var init, last := ops[..|ops| - 1], ops[|ops| - 1];
      || (last.Set? && last.kind == kind && last.key == key)
      || (&& Survives(cfg, init, kind, key)
          && match LastWrite(init, kind, key)
             case None => true
             case Some(e) => !SeesStale(cfg, Run(cfg, init), last, kind, key, e))
  }

  lemma StoreAt<V>(cfg: Config, c: Caches<V>, op: Op<V>, kind: Kind)
    requires cfg.enabled && op.Set?
    ensures var swept := if Full(cfg, c.At(op.kind)) then SweepOne(cfg, c.At(kind), op.sweepNow) else c.At(kind);
            Step(cfg, c, op).At(kind) == if op.kind == kind then swept[op.key := Entry(op.value, op.now)] else swept
  {
  }

  lemma LookupAt<V>(cfg: Config, c: Caches<V>, op: Op<V>, kind: Kind)
    requires cfg.enabled && op.Get?
    ensures var cache := c.At(kind);
            Step(cfg, c, op).At(kind)
            == if op.kind == kind && op.key in cache && !Fresh(cfg, cache[op.key], op.now) then cache - {op.key} else cache
  {
  }

  /** The key is stored exactly when its latest write survives, and then with that write. */
  ghost predicate Holds<V>(cache: Cache<V>, key: string, last: Option<Entry<V>>, survives: bool) {
    match last
    case None => key !in cache
    case Some(e) => (key in cache <==> survives) && (key in cache ==> cache[key] == e)
  }

  /** An operation other than a write of the key removes it exactly when it sees it stale. */
  lemma StepHolds<V>(cfg: Config, c: Caches<V>, op: Op<V>, kind: Kind, key: string, last: Option<Entry<V>>, survives: bool)
    requires cfg.enabled && !(op.Set? && op.kind == kind && op.key == key)
    requires Holds(c.At(kind), key, last, survives)
    ensures Holds(Step(cfg, c, op).At(kind), key, last,
                  survives && (last.Some? ==> !SeesStale(cfg, c, op, kind, key, last.value)))
  {
    if op.Set? {
      StoreAt(cfg, c, op, kind);
    } else if op.Get? {
      LookupAt(cfg, c, op, kind);
    }
  }

  lemma {:induction false} RunHolds<V>(cfg: Config, ops: seq<Op<V>>, kind: Kind, key: string)
    requires cfg.enabled
    ensures Holds(Run(cfg, ops).At(kind), key, LastWrite(ops, kind, key), Survives(cfg, ops, kind, key))
    decreases |ops|
  {
    if ops != [] {
      var init, last := ops[..|ops| - 1], ops[|ops| - 1];
      if last.Set? && last.kind == kind && last.key == key {
        StoreAt(cfg, Run(cfg, init), last, kind);
      } else {
        RunHolds(cfg, init, kind, key);
        StepHolds(cfg, Run(cfg, init), last, kind, key, LastWrite(init, kind, key), Survives(cfg, init, kind, key));
      }
    }
  }

  /** After every run, whatever its clock readings: a lookup says what it should exactly when the
      caches are off, the key was never written, its latest write survives, or that write is stale
      now anyway. */
  lemma {:induction false} TransparentIff<V>(cfg: Config, ops: seq<Op<V>>, kind: Kind, key: string, now: int)
    ensures Lookup(cfg, Run(cfg, ops), kind, key, now) == Expected(cfg, ops, kind, key, now)
       <==> || !cfg.enabled
            || LastWrite(ops, kind, key).None?
            || Survives(cfg, ops, kind, key)
            || !Fresh(cfg, LastWrite(ops, kind, key).value, now)
  {
    if cfg.enabled {
      RunHolds(cfg, ops, kind, key);
    }
  }

  lemma FreshnessOnlyFades<V>(cfg: Config, e: Entry<V>, earlier: int, later: int)
    requires e.timestamp <= earlier <= later && Fresh(cfg, e, later)
    ensures Fresh(cfg, e, earlier)
  {
  }

  /** Under a clock that does not step back, what was seen stale once is stale ever after. */
  lemma {:induction false} FreshWritesSurvive<V>(cfg: Config, ops: seq<Op<V>>, kind: Kind, key: string, clock: int)
    requires Timely(ops, clock) && LastWrite(ops, kind, key).Some?
    ensures LastWrite(ops, kind, key).value.timestamp <= clock
    ensures Fresh(cfg, LastWrite(ops, kind, key).value, clock) ==> Survives(cfg, ops, kind, key)
    decreases |ops|
  {
    var init, last := ops[..|ops| - 1], ops[|ops| - 1];
    if !(last.Set? && last.kind == kind && last.key == key) {
      var e, before := LastWrite(ops, kind, key).value, if last.Set? then last.sweepNow else last.now;
      FreshWritesSurvive(cfg, init, kind, key, before);
      if Fresh(cfg, e, clock) {
        FreshnessOnlyFades(cfg, e, before, clock);
      }
    }
  }

  /** After every timely run, a lookup hits with `v` exactly when the latest write of its key
      wrote `v` and the truncated age is below the time to live. */
  lemma {:induction false} CacheTransparency<V>(cfg: Config, ops: seq<Op<V>>, kind: Kind, key: string, now: int)
    requires Timely(ops, now)
    ensures Lookup(cfg, Run(cfg, ops), kind, key, now) == Expected(cfg, ops, kind, key, now)
  {
    TransparentIff(cfg, ops, kind, key, now);
    if LastWrite(ops, kind, key).Some? {
      FreshWritesSurvive(cfg, ops, kind, key, now);
    }
  }

  function OnlySets<V>(ops: seq<Op<V>>): seq<Op<V>> {
    if ops == [] then []
    else OnlySets(ops[..|ops| - 1]) + (if ops[|ops| - 1].Set? then [ops[|ops| - 1]] else [])
  }

  lemma OnlySetsPush<V>(ops: seq<Op<V>>)
    requires ops != []
    ensures var init, last := ops[..|ops| - 1], ops[|ops| - 1];
            OnlySets(ops) == if last.Set? then OnlySets(init) + [last] else OnlySets(init)
  {
  }

  lemma PushOp<V>(ops: seq<Op<V>>, last: Op<V>, kind: Kind, key: string, clock: int)
    ensures LastWrite(ops + [last], kind, key)
         == if last.Set? && last.kind == kind && last.key == key then Some(Entry(last.value, last.now))
            else LastWrite(ops, kind, key)
    ensures Timely(ops + [last], clock)
       <==> last.now <= clock && (if last.Set? then last.sweepNow <= last.now && Timely(ops, last.sweepNow) else Timely(ops, last.now))
  {
    assert (ops + [last])[..|ops|] == ops;
  }

  lemma {:induction false} OnlySetsSameWrites<V>(ops: seq<Op<V>>, kind: Kind, key: string)
    ensures LastWrite(OnlySets(ops), kind, key) == LastWrite(ops, kind, key)
    decreases |ops|
  {
    if ops != [] {
      var init, last := ops[..|ops| - 1], ops[|ops| - 1];
      OnlySetsSameWrites(init, kind, key);
      OnlySetsPush(ops);
      PushOp(OnlySets(init), last, kind, key, 0);
    }
  }

  lemma {:induction false} OnlySetsTimely<V>(ops: seq<Op<V>>, clock: int)
    requires Timely(ops, clock)
    ensures Timely(OnlySets(ops), clock)
    decreases |ops|
  {
    if ops != [] {
      var init, last := ops[..|ops| - 1], ops[|ops| - 1];
      OnlySetsPush(ops);
      OnlySetsTimely(init, if last.Set? then last.sweepNow else last.now);
      if last.Set? {
        PushOp(OnlySets(init), last, last.kind, last.key, clock);
      } else {
        TimelyLater(OnlySets(init), last.now, clock);
      }
    }
  }

  lemma TimelyLater<V>(ops: seq<Op<V>>, clock: int, later: int)
    requires Timely(ops, clock) && clock <= later
    ensures Timely(ops, later)
  {
  }

  /** Lookups, sweeps and the size limit leave no trace: erase every lookup and sweep from the
      past and change the limit, and the next lookup still answers the same. */
  lemma EvictionIsUnobservable<V>(cfg: Config, other: Config, ops: seq<Op<V>>, kind: Kind, key: string, now: int)
    requires Timely(ops, now)
    requires other.enabled == cfg.enabled && other.ttlSeconds == cfg.ttlSeconds
    ensures Lookup(cfg, Run(cfg, ops), kind, key, now)
         == Lookup(other, Run(other, OnlySets(ops)), kind, key, now)
  {
    OnlySetsSameWrites(ops, kind, key);
    OnlySetsTimely(ops, now);
    CacheTransparency(cfg, ops, kind, key, now);
    CacheTransparency(other, OnlySets(ops), kind, key, now);
  }

  /** An instance of the failing half: a lookup at a later time evicts an entry that a lookup at
      an earlier time would still have found. */
  lemma EvictionShowsWhenClockStepsBack<V>(value: V, key: string)
    ensures var cfg := Config(true, 1, 1000);
            var ops := [Set(Schema, key, value, 0, 0), Get(Schema, key, NANOS)];
            && !Survives(cfg, ops, Schema, key)
            && Expected(cfg, ops, Schema, key, 0) == Some(value)
            && Lookup(cfg, Run(cfg, ops), Schema, key, 0) == None
  {
    var cfg := Config(true, 1, 1000);
    var set_: Op<V> := Set(Schema, key, value, 0, 0);
    var ops := [set_, Get(Schema, key, NANOS)];
    assert ops[..1] == [set_] && [set_][..0] == [];
    assert LastWrite([set_], Schema, key) == LastWrite(ops, Schema, key) == Some(Entry(value, 0));
    assert SeesStale(cfg, Run(cfg, [set_]), ops[1], Schema, key, Entry(value, 0));
    TransparentIff(cfg, ops, Schema, key, 0);
    RunHolds(cfg, ops, Schema, key);
  }

  // ---------- The object ----------

  class CacheStore<V> {
    const cfg: Config
    var caches: Caches<V>

    constructor (cfg: Config)
      ensures this.cfg == cfg && caches == Start<V>()
    {
      this.cfg := cfg;
      caches := Start();
    }

    method GetFromCache(kind: Kind, key: string, now: int) returns (value: Option<V>)
      requires kind != Sql
      modifies this
      ensures value == Lookup(cfg, old(caches), kind, key, now)
      ensures caches == AfterLookup(cfg, old(caches), kind, key, now)
    {
      if !cfg.enabled { return None; }
      var cache := caches.At(kind);
      if key in cache {
        var entry := cache[key];
        var age := TruncatedSeconds(now - entry.timestamp);
        if age < cfg.ttlSeconds {
          return Some(entry.data);
        }
        caches := caches.With(kind, cache - {key});
      }
      value := None;
    }

    method SetCache(kind: Kind, key: string, value: V, sweepNow: int, now: int)
      requires kind != Sql
      modifies this
      ensures caches == AfterStore(cfg, old(caches), kind, key, value, sweepNow, now)
    {
      if !cfg.enabled { return; }
      if cfg.maxSize >= 0 && |caches.At(kind)| >= cfg.maxSize {
        CleanupCache(sweepNow);
      }
      caches := caches.With(kind, caches.At(kind)[key := Entry(value, now)]);
    }

    method CleanupCache(now: int)
      modifies this
      ensures caches == SweepAll(cfg, old(caches), now)
    {
      CleanupOne(Schema, now);
      CleanupOne(SampleData, now);
      CleanupOne(Vector, now);
      CleanupOne(Sql, now);
    }

    method CleanupOne(kind: Kind, now: int)
      modifies this
      ensures caches == old(caches).With(kind, SweepOne(cfg, old(caches).At(kind), now))
    {
      var cache := caches.At(kind);
      var todo := cache.Keys;
      while todo != {}
        invariant caches == old(caches)
        invariant todo <= cache.Keys <= old(caches).At(kind).Keys
        invariant forall key :: key in cache ==> cache[key] == old(caches).At(kind)[key]
        invariant forall key :: key in old(caches).At(kind) ==>
                    (key in cache <==> key in todo || Fresh(cfg, old(caches).At(kind)[key], now))
        decreases todo
      {
        var key :| key in todo;
        todo := todo - {key};
        var age := TruncatedSeconds(now - cache[key].timestamp);
        if age >= cfg.ttlSeconds {
          cache := cache - {key};
        }
      }
      assert cache == SweepOne(cfg, old(caches).At(kind), now);
      caches := caches.With(kind, cache);
    }
  }
}
