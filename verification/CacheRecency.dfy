// Recency, expiry and counters of the cache over whole runs, stated from the operations.
module CacheRecency {
  import opened Options
  import opened Orders
  import opened ResponseCache
  import opened CacheRuns
  import Text

  /** When the entry under `k` was last put, read by an exact lookup, or found by a semantic search. */
  ghost function LastUse(cfg: Config, ops: seq<Op>, k: string): Option<nat> {
    if ops == [] then None
    else
      var init, op := ops[..|ops| - 1], ops[|ops| - 1];
      if Uses(cfg, init, op, k) then Some(op.now) else LastUse(cfg, init, k)
  }

  /** Whether an operation after the run `init` uses the entry under `k`. */
  ghost predicate Uses(cfg: Config, init: seq<Op>, op: Op, k: string) {
    match op
    case Put(key, _, _, _) => Normalize(cfg.lower, key) == k
    case Get(key, now) => Normalize(cfg.lower, key) == k && Lookup(cfg, Run(cfg, init), key, now).Some?
    case Purge(_) => false
    case Search(sim, now) => FoundKey(cfg, Run(cfg, init), sim, now) == Some(k)
  }

  ghost predicate UsedAsRecorded(cfg: Config, ops: seq<Op>, entries: Entries) {
    forall k :: k in entries ==> LastUse(cfg, ops, k) == Some(entries[k].lastUsed)
  }

  /** The tick every live entry carries is that of its last use. */
  lemma {:induction false} LastUsedIs(cfg: Config, ops: seq<Op>)
    ensures UsedAsRecorded(cfg, ops, Run(cfg, ops).entries)
  {
    hide Step, Uses;
    if ops != [] {
      var init, op := ops[..|ops| - 1], ops[|ops| - 1];
      LastUsedIs(cfg, init);
      forall k | k in Run(cfg, ops).entries
        ensures LastUse(cfg, ops, k) == Some(Run(cfg, ops).entries[k].lastUsed)
      {
        if op.Put? { PutUses(cfg, init, op, k); } else { OtherUses(cfg, init, op, k); }
      }
    }
  }

  lemma PutUses(cfg: Config, init: seq<Op>, op: Op, k: string)
    requires op.Put? && k in Step(cfg, Run(cfg, init), op).entries
    ensures var (before, after) := (Run(cfg, init).entries, Step(cfg, Run(cfg, init), op).entries);
      && (Uses(cfg, init, op, k) ==> after[k].lastUsed == op.now)
      && (!Uses(cfg, init, op, k) ==> k in before && after[k] == before[k])
  {
    hide Evict, Run, Normalize;
    if cfg.capacity > 0 {
      var s := Run(cfg, init);
      var key := Normalize(cfg.lower, op.key);
      EvictOnlyRemoves(cfg.capacity, s.(entries := s.entries[key := Entry(op.value, op.embedding, op.now, op.now)]));
    } else {
      NothingStored(cfg, init);
    }
  }

  lemma NothingStored(cfg: Config, init: seq<Op>)
    requires cfg.capacity == 0
    ensures Run(cfg, init).entries == map[]
  {
    WithinCapacity(cfg, init);
    var entries := Run(cfg, init).entries;
    assert |entries.Keys| == |entries| == 0;
  }

  lemma OtherUses(cfg: Config, init: seq<Op>, op: Op, k: string)
    requires !op.Put? && k in Step(cfg, Run(cfg, init), op).entries
    ensures var (before, after) := (Run(cfg, init).entries, Step(cfg, Run(cfg, init), op).entries);
      && k in before
      && after[k] == if Uses(cfg, init, op, k) then before[k].(lastUsed := op.now) else before[k]
  {
    hide Run, Normalize, Nearest;
  }

  function Tick(use: Option<nat>): nat { if use.Some? then use.value else 0 }

  ghost function Least(cfg: Config, ops: seq<Op>, keys: set<string>): set<string> {
    set k | k in keys && forall j :: j in keys ==> LowThenLex((Tick(LastUse(cfg, ops, k)), k), (Tick(LastUse(cfg, ops, j)), j))
  }

  /**
   * Least recently used: a put stores its key, and if that is one too many, exactly the entry whose last use is the
   * earliest leaves, ties to the lesser key.
   */
  lemma PutEvictsLeastRecent(cfg: Config, ops: seq<Op>, op: Op)
    requires op.Put? && cfg.capacity > 0
    ensures var (keys, after) := (Run(cfg, ops).entries.Keys + {Normalize(cfg.lower, op.key)}, Run(cfg, ops + [op]).entries.Keys);
      && after == (if |keys| <= cfg.capacity then keys else keys - Least(cfg, ops + [op], keys))
      && (|keys| > cfg.capacity ==> |Least(cfg, ops + [op], keys)| == 1 && Least(cfg, ops + [op], keys) <= keys)
  {
    hide Run, LastUse, Least, Step, Victim, Normalize;
    var entries := Run(cfg, ops).entries;
    var key := Normalize(cfg.lower, op.key);
    var full := entries[key := Entry(op.value, op.embedding, op.now, op.now)];
    assert full.Keys == entries.Keys + {key};
    WithinCapacity(cfg, ops);
    RunAppend(cfg, ops, op);
    PutLeaves(cfg, Run(cfg, ops), op);
    forall k | k in full ensures LastUse(cfg, ops + [op], k) == Some(full[k].lastUsed) { UseAfterPut(cfg, ops, op, k); }
    OneLeast(cfg, ops + [op], full);
  }

  /** The keys a put leaves. */
  lemma PutLeaves(cfg: Config, s: State, op: Op)
    requires op.Put? && |s.entries| <= cfg.capacity && cfg.capacity > 0
    ensures var full := s.entries[Normalize(cfg.lower, op.key) := Entry(op.value, op.embedding, op.now, op.now)];
      Step(cfg, s, op).entries.Keys == if |full.Keys| <= cfg.capacity then full.Keys else full.Keys - {Victim(full)}
  {
    hide Evict, Normalize;
    var key := Normalize(cfg.lower, op.key);
    var full := s.(entries := s.entries[key := Entry(op.value, op.embedding, op.now, op.now)]);
    InsertSize(s.entries, key, full.entries[key]);
    EvictOne(cfg.capacity, full);
    assert |full.entries| == |full.entries.Keys|;
    assert (full.entries - {Victim(full.entries)}).Keys == full.entries.Keys - {Victim(full.entries)};
  }

  lemma UseAfterPut(cfg: Config, ops: seq<Op>, op: Op, k: string)
    requires op.Put? && k in Run(cfg, ops).entries.Keys + {Normalize(cfg.lower, op.key)}
    ensures LastUse(cfg, ops + [op], k) ==
      Some(if k == Normalize(cfg.lower, op.key) then op.now else Run(cfg, ops).entries[k].lastUsed)
  {
    hide Run, Normalize;
    LastUsedIs(cfg, ops);
    assert (ops + [op])[..|ops|] == ops;
  }

  lemma OneLeast(cfg: Config, ops: seq<Op>, entries: Entries)
    requires entries.Keys != {}
    requires forall k :: k in entries ==> LastUse(cfg, ops, k) == Some(entries[k].lastUsed)
    ensures Least(cfg, ops, entries.Keys) == {Victim(entries)}
  {
    hide LastUse, LexLe;
    var v := Victim(entries);
    forall j | j in entries
      ensures LowThenLex((entries[v].lastUsed, v), (entries[j].lastUsed, j))
    {
      assert (entries[j].lastUsed, j) in Ages(entries);
    }
    forall k | k in Least(cfg, ops, entries.Keys)
      ensures k == v
    {
      assert forall j :: j in entries.Keys ==> LowThenLex((Tick(LastUse(cfg, ops, k)), k), (Tick(LastUse(cfg, ops, j)), j));
      forall j | j in entries ensures LowThenLex((entries[k].lastUsed, k), (entries[j].lastUsed, j)) {
        assert LowThenLex((Tick(LastUse(cfg, ops, k)), k), (Tick(LastUse(cfg, ops, j)), j));
      }
      VictimIs(entries, k);
    }
  }

  // ---- Expiry ----

  /** Apart from puts, exactly the expired entries leave: all of them, or at a lookup the one looked up. */
  lemma LeavesIff(cfg: Config, s: State, op: Op, k: string)
    requires !op.Put? && k in s.entries
    ensures k !in Step(cfg, s, op).entries <==> Expired(cfg.ttl, s.entries[k], op.now) && (op.Get? ==> Normalize(cfg.lower, op.key) == k)
  {
    hide Nearest, Normalize, Expired;
  }

  // ---- Semantic search ----

  /** A live entry whose similarity is `x` and reaches the threshold. */
  ghost predicate Matches(cfg: Config, s: State, sim: Similarity, now: nat, k: string, x: real) {
    && k in s.entries && now <= (if s.entries[k].created + cfg.ttl > U64_MAX then U64_MAX else s.entries[k].created + cfg.ttl)
    && s.entries[k].embedding.Some? && sim(s.entries[k].embedding.value) == Some(x) && x + 0.000000000001 >= cfg.threshold
  }

  /** Nothing matches better, or as well with a lesser key. */
  ghost predicate Best(cfg: Config, s: State, sim: Similarity, now: nat, k: string, x: real) {
    && Matches(cfg, s, sim, now, k, x)
    && forall j, y :: Matches(cfg, s, sim, now, j, y) ==> x > y || (x == y && LexLe(k, j))
  }

  /** A search finds `k` exactly when it matches best, ties to the lesser key. */
  lemma FoundIff(cfg: Config, s: State, sim: Similarity, now: nat, k: string)
    ensures FoundKey(cfg, s, sim, now) == Some(k) <==>
      exists x :: Best(cfg, s, sim, now, k, x)
  {
    hide LexLe;
    var kept := Fresh(cfg.ttl, s.entries, now);
    var candidates := Candidates(kept, sim, cfg.threshold);
    forall j, y
      ensures Matches(cfg, s, sim, now, j, y) <==> (y, j) in candidates
    {
      assert (y, j) in candidates <==> j in kept && Score(kept, sim, cfg.threshold, j) == Some(y);
    }
    if x :| Best(cfg, s, sim, now, k, x) {
      forall j | j in kept && Score(kept, sim, cfg.threshold, j).Some?
        ensures HighThenLex((x, k), (Score(kept, sim, cfg.threshold, j).value, j))
      {
        assert (Score(kept, sim, cfg.threshold, j).value, j) in candidates;
        assert Matches(cfg, s, sim, now, j, Score(kept, sim, cfg.threshold, j).value);
      }
      assert (x, k) in candidates;
      NearestIs(kept, sim, cfg.threshold, Some((x, k)));
    }
    if FoundKey(cfg, s, sim, now) == Some(k) {
      var (x, _) := Nearest(kept, sim, cfg.threshold).value;
      assert Matches(cfg, s, sim, now, k, x);
      forall j, y | Matches(cfg, s, sim, now, j, y)
        ensures x > y || (x == y && LexLe(k, j))
      {
        assert HighThenLex((x, k), (y, j));
      }
      assert Best(cfg, s, sim, now, k, x);
    }
  }

  /** A search finds nothing exactly when nothing matches. */
  lemma MissIff(cfg: Config, s: State, sim: Similarity, now: nat)
    ensures FoundKey(cfg, s, sim, now).None? <==> forall k, x :: !Matches(cfg, s, sim, now, k, x)
  {
    var kept := Fresh(cfg.ttl, s.entries, now);
    forall j, y
      ensures Matches(cfg, s, sim, now, j, y) <==> (y, j) in Candidates(kept, sim, cfg.threshold)
    {
      assert (y, j) in Candidates(kept, sim, cfg.threshold) <==> j in kept && Score(kept, sim, cfg.threshold, j) == Some(y);
    }
    if Nearest(kept, sim, cfg.threshold).Some? {
      var (x, k) := Nearest(kept, sim, cfg.threshold).value;
      assert Matches(cfg, s, sim, now, k, x);
    }
  }

  // ---- Counters ----

  function One(b: bool): nat { if b then 1 else 0 }

  /** How many fewer `after` is. */
  function Lost(before: nat, after: nat): nat { if after < before then before - after else 0 }

  /** What one operation adds to each counter. */
  ghost function Counted(cfg: Config, init: seq<Op>, op: Op, stats: Stats): Stats {
    var (before, after) := (Run(cfg, init), Run(cfg, init + [op]));
    match op
    case Put(key, _, _, _) =>
      var added := One(cfg.capacity > 0 && Normalize(cfg.lower, key) !in before.entries);
      stats.(evictions := stats.evictions + Lost(|before.entries| + added, |after.entries|))
    case Get(key, now) =>
      var answered := Lookup(cfg, before, key, now).Some?;
      stats.(exactHits := stats.exactHits + One(answered), exactMisses := stats.exactMisses + One(!answered),
             expirations := stats.expirations + Lost(|before.entries|, |after.entries|))
    case Purge(_) => stats.(expirations := stats.expirations + Lost(|before.entries|, |after.entries|))
    case Search(sim, now) =>
      var found := FoundKey(cfg, before, sim, now).Some?;
      stats.(semanticHits := stats.semanticHits + One(found), semanticMisses := stats.semanticMisses + One(!found),
             expirations := stats.expirations + Lost(|before.entries|, |after.entries|))
  }

  ghost function CountsOf(cfg: Config, ops: seq<Op>): Stats {
    if ops == [] then Stats(0, 0, 0, 0, 0, 0)
    else Counted(cfg, ops[..|ops| - 1], ops[|ops| - 1], CountsOf(cfg, ops[..|ops| - 1]))
  }

  /** The counters count lookups answered and not, searches that found something and not, and entries that left. */
  lemma {:induction false} StatsAre(cfg: Config, ops: seq<Op>)
    ensures Run(cfg, ops).stats == CountsOf(cfg, ops)
  {
    hide Counted, Step;
    if ops != [] {
      StatsAre(cfg, ops[..|ops| - 1]);
      StepCounts(cfg, ops[..|ops| - 1], ops[|ops| - 1]);
      assert ops[..|ops| - 1] + [ops[|ops| - 1]] == ops;
    }
  }

  lemma StepCounts(cfg: Config, init: seq<Op>, op: Op)
    ensures Step(cfg, Run(cfg, init), op).stats == Counted(cfg, init, op, Run(cfg, init).stats)
  {
    hide Run, Normalize, FoundKey, Lookup, PutStep, GetStep, SweepStep, SearchStep;
    RunAppend(cfg, init, op);
    var s := Run(cfg, init);
    match op
    case Put(key, value, embedding, now) => PutCounts(cfg, s, key, value, embedding, now);
    case Get(key, now) => GetCounts(cfg, s, key, now);
    case Purge(now) => SweepCounts(cfg, s, now);
    case Search(sim, now) =>
      SearchConserves(cfg, s, sim, now);
      SearchCounts(cfg, s, sim, now);
      SweepCounts(cfg, s, now);
      SearchSize(cfg, s, sim, now);
  }

  lemma GetCounts(cfg: Config, s: State, key: string, now: nat)
    ensures var (t, answered) := (GetStep(cfg, s, key, now), Lookup(cfg, s, key, now).Some?);
      t.stats == s.stats.(exactHits := s.stats.exactHits + One(answered), exactMisses := s.stats.exactMisses + One(!answered),
                          expirations := s.stats.expirations + Lost(|s.entries|, |t.entries|))
  {
    hide Normalize, Expired;
    GetConserves(cfg, s, key, now);
  }

  lemma SweepCounts(cfg: Config, s: State, now: nat)
    ensures var t := SweepStep(cfg, s, now);
      |t.entries| <= |s.entries| && t.stats == s.stats.(expirations := s.stats.expirations + Lost(|s.entries|, |t.entries|))
  {
    FreshSize(cfg.ttl, s.entries, now);
  }

  lemma PutCounts(cfg: Config, s: State, key: string, value: string, embedding: Option<Embedding>, now: nat)
    ensures var t := PutStep(cfg, s, key, value, embedding, now);
      && t.stats == s.stats.(evictions := t.stats.evictions)
      && t.stats.evictions >= s.stats.evictions
      && t.stats.evictions == s.stats.evictions + One(cfg.capacity > 0 && Normalize(cfg.lower, key) !in s.entries) + |s.entries| - |t.entries|
  {
    hide Evict, Normalize;
    if cfg.capacity > 0 {
      PutConserves(cfg, s, key, value, embedding, now);
      EvictCounts(cfg.capacity, s.(entries := s.entries[Normalize(cfg.lower, key) := Entry(value, embedding, now, now)]));
    }
  }

  lemma {:induction false} EvictCounts(capacity: nat, s: State)
    ensures Evict(capacity, s).stats == s.stats.(evictions := Evict(capacity, s).stats.evictions)
    ensures Evict(capacity, s).stats.evictions >= s.stats.evictions
    decreases |s.entries|
  {
    if |s.entries| > capacity {
      NonEmpty(s.entries);
      var v := Victim(s.entries);
      RemoveSize(s.entries, v);
      EvictCounts(capacity, State(s.entries - {v}, s.stats.(evictions := s.stats.evictions + 1)));
    }
  }

  lemma SearchCounts(cfg: Config, s: State, sim: Similarity, now: nat)
    ensures var (t, found) := (SearchStep(cfg, s, sim, now), FoundKey(cfg, s, sim, now).Some?);
      t.stats == s.stats.(semanticHits := s.stats.semanticHits + One(found), semanticMisses := s.stats.semanticMisses + One(!found),
                          expirations := t.stats.expirations)
  {
    hide Nearest;
  }
}
