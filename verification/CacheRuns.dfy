// Properties of the response cache over whole runs: LRU inclusion, agreement with an unbounded
// TTL map, capacity and conservation of entries.
module CacheRuns {
  import opened Options
  import opened Orders
  import opened ResponseCache

  datatype Op =
    | Put(key: string, value: string, embedding: Option<Embedding>, now: nat)
    | Get(key: string, now: nat)
    | Purge(now: nat)
    | Search(sim: Similarity, now: nat)

  ghost function Step(cfg: Config, s: State, op: Op): State {
    match op
    case Put(key, value, embedding, now) => PutStep(cfg, s, key, value, embedding, now)
    case Get(key, now) => GetStep(cfg, s, key, now)
    case Purge(now) => SweepStep(cfg, s, now)
    case Search(sim, now) => SearchStep(cfg, s, sim, now)
  }

  ghost function Run(cfg: Config, ops: seq<Op>): State {
    if ops == [] then EMPTY else Step(cfg, Run(cfg, ops[..|ops| - 1]), ops[|ops| - 1])
  }

  // ---- Eviction removes at most one entry per insertion ----

  lemma EvictOne(capacity: nat, s: State)
    requires |s.entries| <= capacity + 1
    ensures Evict(capacity, s) ==
      if |s.entries| <= capacity then s
      else State(s.entries - {Victim(s.entries)}, s.stats.(evictions := s.stats.evictions + 1))
    ensures |Evict(capacity, s).entries| <= capacity
  {
    if |s.entries| > capacity {
      NonEmpty(s.entries);
      RemoveSize(s.entries, Victim(s.entries));
    }
  }

  lemma {:induction false} WithinCapacity(cfg: Config, ops: seq<Op>)
    ensures |Run(cfg, ops).entries| <= cfg.capacity
  {
    hide Evict;
    if ops != [] {
      WithinCapacity(cfg, ops[..|ops| - 1]);
      StepKeepsCapacity(cfg, Run(cfg, ops[..|ops| - 1]), ops[|ops| - 1]);
    }
  }

  lemma StepKeepsCapacity(cfg: Config, s: State, op: Op)
    requires |s.entries| <= cfg.capacity
    ensures |Step(cfg, s, op).entries| <= cfg.capacity
  {
    hide PutStep, GetStep, SearchStep;
    match op
    case Put(key, value, embedding, now) => PutKeepsCapacity(cfg, s, key, value, embedding, now);
    case Get(key, now) => GetConserves(cfg, s, key, now);
    case Purge(now) => FreshSize(cfg.ttl, s.entries, now);
    case Search(sim, now) => SearchSize(cfg, s, sim, now);
  }

  lemma PutKeepsCapacity(cfg: Config, s: State, key: string, value: string, embedding: Option<Embedding>, now: nat)
    requires |s.entries| <= cfg.capacity
    ensures |PutStep(cfg, s, key, value, embedding, now).entries| <= cfg.capacity
  {
    hide Evict;
    if cfg.capacity > 0 {
      var k, e := Normalize(cfg.lower, key), Entry(value, embedding, now, now);
      InsertSize(s.entries, k, e);
      EvictOne(cfg.capacity, s.(entries := s.entries[k := e]));
    }
  }

  /** A lookup drops at most an expired entry, and counts it. */
  lemma GetConserves(cfg: Config, s: State, key: string, now: nat)
    ensures var t := GetStep(cfg, s, key, now);
      && |t.entries| + t.stats.expirations == |s.entries| + s.stats.expirations
      && t.stats.evictions == s.stats.evictions && |t.entries| <= |s.entries|
  {
    hide Normalize, Expired;
    var k := Normalize(cfg.lower, key);
    RemoveSize(s.entries, k);
    if k in s.entries {
      var touched := s.entries[k].(lastUsed := now);
      InsertSize(s.entries, k, touched);
    }
  }

  lemma SearchSize(cfg: Config, s: State, sim: Similarity, now: nat)
    ensures |SearchStep(cfg, s, sim, now).entries| == |SweepStep(cfg, s, now).entries| <= |s.entries|
  {
    FreshSize(cfg.ttl, s.entries, now);
    var kept := SweepStep(cfg, s, now).entries;
    var n := Nearest(kept, sim, cfg.threshold);
    if n.Some? { InsertSize(kept, n.value.1, kept[n.value.1].(lastUsed := now)); }
  }

  // ---- LRU inclusion: a larger cache contains the smaller one ----

  /** Every entry of `small` is in `large`, unchanged. */
  ghost predicate Contains(large: Entries, small: Entries) {
    forall k :: k in small ==> k in large && large[k] == small[k]
  }

  /** What the larger cache keeps over the smaller one after every operation. */
  ghost predicate Includes(small: Config, large: Config, s: State, l: State) {
    && Contains(l.entries, s.entries)
    && |s.entries| <= small.capacity
    && |l.entries| <= large.capacity
    && |l.entries| - |s.entries| <= large.capacity - small.capacity
    && s.stats.exactHits <= l.stats.exactHits
    && s.stats.exactHits + s.stats.exactMisses == l.stats.exactHits + l.stats.exactMisses
  }

  ghost predicate Comparable(small: Config, large: Config) {
    small.capacity <= large.capacity && small.ttl == large.ttl && small.lower == large.lower
  }

  lemma EvictionKeepsContents(s: Entries, l: Entries)
    requires Contains(l, s) && s.Keys != {} && l.Keys != {}
    ensures Victim(l) in s ==> Victim(l) == Victim(s)
  {
    var v, w := Victim(s), Victim(l);
    if w in s {
      LowThenLexIsTotal();
      assert (s[w].lastUsed, w) in Ages(s) && (l[v].lastUsed, v) in Ages(l);
      assert LowThenLex((s[v].lastUsed, v), (s[w].lastUsed, w));
      assert LowThenLex((l[w].lastUsed, w), (l[v].lastUsed, v));
    }
  }

  lemma PutKeepsInclusion(small: Config, large: Config, s: State, l: State, k: string, e: Entry)
    requires Comparable(small, large) && Includes(small, large, s, l) && small.capacity > 0
    ensures Includes(small, large, Evict(small.capacity, s.(entries := s.entries[k := e])),
                     Evict(large.capacity, l.(entries := l.entries[k := e])))
  {
    hide Evict;
    var s1, l1 := s.(entries := s.entries[k := e]), l.(entries := l.entries[k := e]);
    InsertSize(s.entries, k, e);
    InsertSize(l.entries, k, e);
    EvictOne(small.capacity, s1);
    EvictOne(large.capacity, l1);
    EvictionKeepsContents(s1.entries, l1.entries);
    RemoveSize(s1.entries, Victim(s1.entries));
    RemoveSize(l1.entries, Victim(l1.entries));
    ContainedSize(l.entries, s.entries);
  }

  lemma ContainedSize(l: Entries, s: Entries)
    requires Contains(l, s)
    ensures |s| <= |l|
  {
    SubsetSize(s.Keys, l.Keys);
    assert |s| == |s.Keys| && |l| == |l.Keys|;
  }

  lemma PutWithoutStore(small: Config, large: Config, s: State, l: State, k: string, e: Entry)
    requires Includes(small, large, s, l) && small.capacity == 0
    ensures Includes(small, large, s, Evict(large.capacity, l.(entries := l.entries[k := e])))
  {
    hide Evict;
    InsertSize(l.entries, k, e);
    EvictOne(large.capacity, l.(entries := l.entries[k := e]));
    assert |s.entries.Keys| == |s.entries| == 0;
  }

  lemma GetKeepsInclusion(small: Config, large: Config, s: State, l: State, key: string, now: nat)
    requires Comparable(small, large) && Includes(small, large, s, l)
    ensures Includes(small, large, GetStep(small, s, key, now), GetStep(large, l, key, now))
  {
    hide Normalize, Expired;
    var k := Normalize(small.lower, key);
    if k in s.entries {
      assert k in l.entries && l.entries[k] == s.entries[k];
      var e := s.entries[k].(lastUsed := now);
      if Expired(small.ttl, s.entries[k], now) {
        RemovedFromBoth(s.entries, l.entries, k);
      } else {
        TouchedInBoth(s.entries, l.entries, k, e);
      }
    } else if k in l.entries {
      ChangedInLarge(s.entries, l.entries, k, l.entries[k].(lastUsed := now));
    }
  }

  lemma RemovedFromBoth(s: Entries, l: Entries, k: string)
    requires Contains(l, s) && k in s
    ensures Contains(l - {k}, s - {k}) && |s - {k}| == |s| - 1 && |l - {k}| == |l| - 1
  {
    RemoveSize(s, k);
    RemoveSize(l, k);
  }

  lemma TouchedInBoth(s: Entries, l: Entries, k: string, e: Entry)
    requires Contains(l, s) && k in s
    ensures Contains(l[k := e], s[k := e]) && |s[k := e]| == |s| && |l[k := e]| == |l|
  {
    InsertSize(s, k, e);
    InsertSize(l, k, e);
  }

  lemma ChangedInLarge(s: Entries, l: Entries, k: string, e: Entry)
    requires Contains(l, s) && k !in s && k in l
    ensures Contains(l[k := e], s) && |l[k := e]| == |l|
    ensures Contains(l - {k}, s) && |l - {k}| == |l| - 1
  {
    InsertSize(l, k, e);
    RemoveSize(l, k);
  }

  /** The entries only the larger cache holds are at most as many after a sweep. */
  lemma {:induction false} SweepNarrows(ttl: nat, l: Entries, s: Entries, now: nat)
    requires Contains(l, s)
    ensures |Fresh(ttl, l, now)| - |Fresh(ttl, s, now)| <= |l| - |s|
  {
    var fl, fs := Fresh(ttl, l, now), Fresh(ttl, s, now);
    SplitSize(l.Keys, s.Keys);
    SplitSize(fl.Keys, fs.Keys);
    SubsetSize(fl.Keys - fs.Keys, l.Keys - s.Keys);
    assert |l| == |l.Keys| && |s| == |s.Keys| && |fl| == |fl.Keys| && |fs| == |fs.Keys|;
  }

  lemma SplitSize<T>(a: set<T>, b: set<T>)
    requires b <= a
    ensures |a| == |b| + |a - b|
  {
    assert a == b + (a - b);
  }

  lemma PurgeKeepsInclusion(small: Config, large: Config, s: State, l: State, now: nat)
    requires Comparable(small, large) && Includes(small, large, s, l)
    ensures Includes(small, large, SweepStep(small, s, now), SweepStep(large, l, now))
  {
    FreshSize(small.ttl, s.entries, now);
    FreshSize(large.ttl, l.entries, now);
    SweepNarrows(small.ttl, l.entries, s.entries, now);
  }

  lemma OthersKeepInclusion(small: Config, large: Config, s: State, l: State, op: Op)
    requires Comparable(small, large) && Includes(small, large, s, l) && !op.Search?
    ensures Includes(small, large, Step(small, s, op), Step(large, l, op))
  {
    hide Evict, GetStep, SweepStep;
    match op
    case Put(key, value, embedding, now) =>
      var k, e := Normalize(small.lower, key), Entry(value, embedding, now, now);
      if small.capacity > 0 {
        PutKeepsInclusion(small, large, s, l, k, e);
      } else if large.capacity > 0 {
        PutWithoutStore(small, large, s, l, k, e);
      }
    case Get(key, now) => GetKeepsInclusion(small, large, s, l, key, now);
    case Purge(now) => PurgeKeepsInclusion(small, large, s, l, now);
  }

  /** The key of the entry a semantic search finds. */
  ghost function FoundKey(cfg: Config, s: State, sim: Similarity, now: nat): Option<string> {
    match Nearest(Fresh(cfg.ttl, s.entries, now), sim, cfg.threshold)
    case None => None
    case Some((_, k)) => Some(k)
  }

  /** Of the entries the smaller cache keeps, only those already used at `now` are found by one cache and not the other. */
  ghost predicate Agree(small: Config, large: Config, s: State, l: State, sim: Similarity, now: nat) {
    forall k :: k in Fresh(small.ttl, s.entries, now) && s.entries[k].lastUsed != now ==>
      (FoundKey(small, s, sim, now) == Some(k) <==> FoundKey(large, l, sim, now) == Some(k))
  }

  /** What a search leaves: the unexpired entries, the found one used at `now`. */
  lemma SearchedEntries(cfg: Config, s: State, sim: Similarity, now: nat)
    ensures var (kept, found) := (Fresh(cfg.ttl, s.entries, now), FoundKey(cfg, s, sim, now));
      && (found.Some? ==> found.value in kept)
      && SearchStep(cfg, s, sim, now).entries ==
        if found.Some? then kept[found.value := kept[found.value].(lastUsed := now)] else kept
    ensures SearchStep(cfg, s, sim, now).stats.exactHits == s.stats.exactHits
    ensures SearchStep(cfg, s, sim, now).stats.exactMisses == s.stats.exactMisses
  {}

  lemma TouchedContained(large: Entries, small: Entries, a: Option<string>, b: Option<string>, now: nat)
    requires Contains(large, small) && (a.Some? ==> a.value in small) && (b.Some? ==> b.value in large)
    ensures var s := if a.Some? then small[a.value := small[a.value].(lastUsed := now)] else small;
      var l := if b.Some? then large[b.value := large[b.value].(lastUsed := now)] else large;
      Contains(l, s) <==> forall k :: k in small && small[k].lastUsed != now ==> (a == Some(k) <==> b == Some(k))
  {
    var s := if a.Some? then small[a.value := small[a.value].(lastUsed := now)] else small;
    var l := if b.Some? then large[b.value := large[b.value].(lastUsed := now)] else large;
    forall k | k in small
      ensures l[k] == s[k] <==> (small[k].lastUsed != now ==> (a == Some(k) <==> b == Some(k)))
    {
      assert s[k] == if a == Some(k) then small[k].(lastUsed := now) else small[k];
      assert l[k] == if b == Some(k) then small[k].(lastUsed := now) else small[k];
    }
  }

  /** A semantic search keeps the inclusion exactly when the two caches agree. */
  lemma SearchKeepsInclusionIff(small: Config, large: Config, s: State, l: State, sim: Similarity, now: nat)
    requires Comparable(small, large) && Includes(small, large, s, l)
    ensures Includes(small, large, SearchStep(small, s, sim, now), SearchStep(large, l, sim, now)) <==>
      Agree(small, large, s, l, sim, now)
  {
    hide SearchStep, FoundKey, Contains;
    SearchedEntries(small, s, sim, now);
    SearchedEntries(large, l, sim, now);
    SearchSize(small, s, sim, now);
    SearchSize(large, l, sim, now);
    FreshContained(small.ttl, l.entries, s.entries, now);
    SweepNarrows(small.ttl, l.entries, s.entries, now);
    TouchedContained(Fresh(small.ttl, l.entries, now), Fresh(small.ttl, s.entries, now),
                     FoundKey(small, s, sim, now), FoundKey(large, l, sim, now), now);
  }

  lemma FreshContained(ttl: nat, l: Entries, s: Entries, now: nat)
    requires Contains(l, s)
    ensures Contains(Fresh(ttl, l, now), Fresh(ttl, s, now))
  {}

  /** With one threshold, agreeing means that the smaller cache finds nothing, the same entry, or one used at `now`. */
  lemma AgreeIff(small: Config, large: Config, s: State, l: State, sim: Similarity, now: nat)
    requires Comparable(small, large) && Includes(small, large, s, l) && small.threshold == large.threshold
    ensures Agree(small, large, s, l, sim, now) <==>
      var found := FoundKey(small, s, sim, now);
      found.None? || found == FoundKey(large, l, sim, now) || s.entries[found.value].lastUsed == now
  {
    hide Expired;
    var a, b := FoundKey(small, s, sim, now), FoundKey(large, l, sim, now);
    if b.Some? && b.value in Fresh(small.ttl, s.entries, now) {
      FoundInBoth(small.ttl, small.threshold, s.entries, l.entries, sim, now, b.value);
    }
  }

  /** What the larger cache finds is what the smaller one finds, if it holds it. */
  lemma FoundInBoth(ttl: nat, threshold: real, s: Entries, l: Entries, sim: Similarity, now: nat, k: string)
    requires Contains(l, s) && k in Fresh(ttl, s, now)
    requires Nearest(Fresh(ttl, l, now), sim, threshold).Some? && Nearest(Fresh(ttl, l, now), sim, threshold).value.1 == k
    ensures Nearest(Fresh(ttl, s, now), sim, threshold) == Nearest(Fresh(ttl, l, now), sim, threshold)
  {
    hide Expired;
    var fs, fl := Fresh(ttl, s, now), Fresh(ttl, l, now);
    var best := Nearest(fl, sim, threshold);
    assert best.value in Candidates(fl, sim, threshold);
    forall j | j in fs && Score(fs, sim, threshold, j).Some?
      ensures HighThenLex(best.value, (Score(fs, sim, threshold, j).value, j))
    {
      assert (Score(fl, sim, threshold, j).value, j) in Candidates(fl, sim, threshold);
    }
    NearestIs(fs, sim, threshold, best);
  }

  /** The inclusion holds after every step of the run. */
  ghost predicate AlwaysIncludes(small: Config, large: Config, ops: seq<Op>) {
    forall n: nat :: n <= |ops| ==> Includes(small, large, Run(small, ops[..n]), Run(large, ops[..n]))
  }

  /** The caches agree at every semantic search of the run. */
  ghost predicate SearchesAgree(small: Config, large: Config, ops: seq<Op>) {
    forall n: nat :: n < |ops| && ops[n].Search? ==>
      Agree(small, large, Run(small, ops[..n]), Run(large, ops[..n]), ops[n].sim, ops[n].now)
  }

  lemma RunPrefix(cfg: Config, ops: seq<Op>, n: nat)
    requires n < |ops|
    ensures Run(cfg, ops[..n + 1]) == Step(cfg, Run(cfg, ops[..n]), ops[n])
  {
    assert ops[..n + 1][..n] == ops[..n];
  }

  lemma StepKeepsInclusionIff(small: Config, large: Config, ops: seq<Op>, n: nat)
    requires Comparable(small, large) && n < |ops|
    requires Includes(small, large, Run(small, ops[..n]), Run(large, ops[..n]))
    ensures Includes(small, large, Run(small, ops[..n + 1]), Run(large, ops[..n + 1])) <==>
      (ops[n].Search? ==> Agree(small, large, Run(small, ops[..n]), Run(large, ops[..n]), ops[n].sim, ops[n].now))
  {
    hide Run, Includes, Agree;
    RunPrefix(small, ops, n);
    RunPrefix(large, ops, n);
    if ops[n].Search? {
      SearchKeepsInclusionIff(small, large, Run(small, ops[..n]), Run(large, ops[..n]), ops[n].sim, ops[n].now);
    } else {
      OthersKeepInclusion(small, large, Run(small, ops[..n]), Run(large, ops[..n]), ops[n]);
    }
  }

  lemma {:induction false} AgreeingIncludes(small: Config, large: Config, ops: seq<Op>, n: nat)
    requires Comparable(small, large) && SearchesAgree(small, large, ops) && n <= |ops|
    ensures Includes(small, large, Run(small, ops[..n]), Run(large, ops[..n]))
  {
    hide Agree;
    if n > 0 {
      AgreeingIncludes(small, large, ops, n - 1);
      StepKeepsInclusionIff(small, large, ops, n - 1);
    }
  }

  /** Over any common run the larger cache always includes the smaller exactly when every semantic search agrees. */
  lemma InclusionIff(small: Config, large: Config, ops: seq<Op>)
    requires Comparable(small, large)
    ensures AlwaysIncludes(small, large, ops) <==> SearchesAgree(small, large, ops)
  {
    hide Run, Includes, Agree;
    if SearchesAgree(small, large, ops) {
      forall n: nat | n <= |ops|
        ensures Includes(small, large, Run(small, ops[..n]), Run(large, ops[..n]))
      {
        AgreeingIncludes(small, large, ops, n);
      }
    } else {
      var n: nat :| n < |ops| && ops[n].Search?
        && !Agree(small, large, Run(small, ops[..n]), Run(large, ops[..n]), ops[n].sim, ops[n].now);
      if AlwaysIncludes(small, large, ops) {
        StepKeepsInclusionIff(small, large, ops, n);
        assert false;
      }
    }
  }

  /**
   * LRU is a stack algorithm: over any common run of puts, exact lookups and purges with arbitrary
   * ticks, the larger cache always holds every entry of the smaller one unchanged, so exact hits
   * never decrease with capacity.
   */
  lemma LargerCacheIncludes(small: Config, large: Config, ops: seq<Op>)
    requires Comparable(small, large)
    requires forall i :: 0 <= i < |ops| ==> !ops[i].Search?
    ensures Includes(small, large, Run(small, ops), Run(large, ops))
  {
    hide Run, Includes;
    AgreeingIncludes(small, large, ops, |ops|);
    assert ops[..|ops|] == ops;
  }

  // ---- The unbounded TTL map ----

  /** What the latest put under the normalized key `k` stored. */
  function Latest(cfg: Config, ops: seq<Op>, k: string): Option<Entry> {
    if ops == [] then None
    else
      var op := ops[|ops| - 1];
      if op.Put? && Normalize(cfg.lower, op.key) == k then Some(Entry(op.value, op.embedding, op.now, op.now))
      else Latest(cfg, ops[..|ops| - 1], k)
  }

  /** What a map without a capacity answers. */
  function TtlMapLookup(cfg: Config, ops: seq<Op>, key: string, now: nat): Option<string> {
    match Latest(cfg, ops, Normalize(cfg.lower, key))
    case None => None
    case Some(e) => if Expired(cfg.ttl, e, now) then None else Some(e.value)
  }

  /** Every live entry is the latest put under its key, but for when it was last used. */
  ghost predicate AreLatest(cfg: Config, ops: seq<Op>, entries: Entries) {
    forall k :: k in entries ==> Latest(cfg, ops, k) == Some(entries[k].(lastUsed := entries[k].created))
  }

  lemma {:induction false} EvictOnlyRemoves(capacity: nat, s: State)
    ensures Contains(s.entries, Evict(capacity, s).entries)
    decreases |s.entries|
  {
    if |s.entries| > capacity {
      NonEmpty(s.entries);
      var v := Victim(s.entries);
      RemoveSize(s.entries, v);
      EvictOnlyRemoves(capacity, State(s.entries - {v}, s.stats.(evictions := s.stats.evictions + 1)));
    }
  }

  lemma {:induction false} EntriesAreLatest(cfg: Config, ops: seq<Op>)
    ensures AreLatest(cfg, ops, Run(cfg, ops).entries)
  {
    hide Evict, Nearest, Normalize;
    if ops != [] {
      var init, op := ops[..|ops| - 1], ops[|ops| - 1];
      EntriesAreLatest(cfg, init);
      var s := Run(cfg, init);
      if op.Put? && cfg.capacity > 0 {
        var k := Normalize(cfg.lower, op.key);
        EvictOnlyRemoves(cfg.capacity, s.(entries := s.entries[k := Entry(op.value, op.embedding, op.now, op.now)]));
      } else if op.Put? {
        WithinCapacity(cfg, init);
        assert |s.entries.Keys| == |s.entries| == 0;
      }
    }
  }

  /** An exact hit is never stale and never another key's value: the unbounded map answers the same. */
  lemma HitAgreesWithTtlMap(cfg: Config, ops: seq<Op>, key: string, now: nat)
    requires Lookup(cfg, Run(cfg, ops), key, now).Some?
    ensures Lookup(cfg, Run(cfg, ops), key, now) == TtlMapLookup(cfg, ops, key, now)
  {
    hide Run, Latest;
    EntriesAreLatest(cfg, ops);
  }

  /** The keys ever put. */
  function PutKeys(cfg: Config, ops: seq<Op>): set<string> {
    if ops == [] then {}
    else
      PutKeys(cfg, ops[..|ops| - 1]) +
        if ops[|ops| - 1].Put? then {Normalize(cfg.lower, ops[|ops| - 1].key)} else {}
  }

  ghost predicate Nondecreasing(ops: seq<Op>) {
    forall i, j :: 0 <= i <= j < |ops| ==> ops[i].now <= ops[j].now
  }

  /** Whatever the run has put is live, or had expired by `now`. */
  ghost predicate LiveUntilExpired(cfg: Config, ops: seq<Op>, entries: Entries, now: nat) {
    && entries.Keys <= PutKeys(cfg, ops)
    && forall k :: Latest(cfg, ops, k).Some? && k !in entries ==> Expired(cfg.ttl, Latest(cfg, ops, k).value, now)
  }

  lemma {:induction false} NothingEvicted(cfg: Config, ops: seq<Op>, now: nat)
    requires Nondecreasing(ops) && |PutKeys(cfg, ops)| <= cfg.capacity
    requires ops != [] ==> ops[|ops| - 1].now <= now
    ensures LiveUntilExpired(cfg, ops, Run(cfg, ops).entries, now)
  {
    hide Step, AreLatest, LiveUntilExpired, Normalize;
    if ops == [] {
      NothingPut(cfg, now);
    } else {
      var init, op := ops[..|ops| - 1], ops[|ops| - 1];
      SubsetSize(PutKeys(cfg, init), PutKeys(cfg, ops));
      NothingEvicted(cfg, init, op.now);
      EntriesAreLatest(cfg, init);
      assert init + [op] == ops;
      if op.Put? {
        PutKeepsLive(cfg, init, Run(cfg, init), op, now);
      } else {
        OthersKeepLive(cfg, init, Run(cfg, init), op, now);
      }
    }
  }

  lemma NothingPut(cfg: Config, now: nat)
    ensures LiveUntilExpired(cfg, [], Run(cfg, []).entries, now)
  {}

  lemma PutKeepsLive(cfg: Config, init: seq<Op>, s: State, op: Op, now: nat)
    requires op.Put? && op.now <= now && |PutKeys(cfg, init + [op])| <= cfg.capacity
    requires LiveUntilExpired(cfg, init, s.entries, op.now)
    ensures LiveUntilExpired(cfg, init + [op], Step(cfg, s, op).entries, now)
  {
    hide Evict, Normalize;
    var ops, k := init + [op], Normalize(cfg.lower, op.key);
    assert ops[..|ops| - 1] == init && ops[|ops| - 1] == op;
    var entries := s.entries[k := Entry(op.value, op.embedding, op.now, op.now)];
    assert k in PutKeys(cfg, ops) && entries.Keys <= PutKeys(cfg, ops);
    SubsetSize(entries.Keys, PutKeys(cfg, ops));
    SubsetSize({k}, PutKeys(cfg, ops));
    assert |entries| == |entries.Keys|;
    EvictOne(cfg.capacity, s.(entries := entries));
    assert Step(cfg, s, op).entries == entries;
  }

  lemma OthersKeepLive(cfg: Config, init: seq<Op>, s: State, op: Op, now: nat)
    requires !op.Put? && op.now <= now
    requires LiveUntilExpired(cfg, init, s.entries, op.now) && AreLatest(cfg, init, s.entries)
    ensures LiveUntilExpired(cfg, init + [op], Step(cfg, s, op).entries, now)
  {
    hide Step, Latest, Normalize;
    var ops, after := init + [op], Step(cfg, s, op).entries;
    assert ops[..|ops| - 1] == init && ops[|ops| - 1] == op;
    OnlyExpiredRemoved(cfg, s, op);
    assert PutKeys(cfg, ops) == PutKeys(cfg, init);
    forall k | Latest(cfg, ops, k).Some? && k !in after
      ensures Expired(cfg.ttl, Latest(cfg, ops, k).value, now)
    {
      LatestUnchanged(cfg, init, op, k);
      if k in s.entries {
        assert Expired(cfg.ttl, s.entries[k], op.now);
      } else {
        assert Expired(cfg.ttl, Latest(cfg, init, k).value, op.now);
      }
    }
  }

  /** Apart from a put, an operation removes nothing but expired entries. */
  lemma OnlyExpiredRemoved(cfg: Config, s: State, op: Op)
    requires !op.Put?
    ensures Step(cfg, s, op).entries.Keys <= s.entries.Keys
    ensures forall k :: k in s.entries && k !in Step(cfg, s, op).entries ==> Expired(cfg.ttl, s.entries[k], op.now)
  {
    hide Nearest, Normalize;
  }

  lemma LatestUnchanged(cfg: Config, init: seq<Op>, op: Op, k: string)
    requires !op.Put?
    ensures Latest(cfg, init + [op], k) == Latest(cfg, init, k)
  {
    assert (init + [op])[..|init + [op]| - 1] == init;
  }

  /** With nondecreasing ticks and no more distinct keys than the capacity, the cache is the unbounded map. */
  lemma LookupIsTtlMap(cfg: Config, ops: seq<Op>, key: string, now: nat)
    requires Nondecreasing(ops) && |PutKeys(cfg, ops)| <= cfg.capacity
    requires ops != [] ==> ops[|ops| - 1].now <= now
    ensures Lookup(cfg, Run(cfg, ops), key, now) == TtlMapLookup(cfg, ops, key, now)
  {
    hide Run, Latest, PutKeys, Normalize;
    EntriesAreLatest(cfg, ops);
    NothingEvicted(cfg, ops, now);
  }

  /** The entry is the latest put under some key, unexpired, and `sim` of its embedding is `x`. */
  ghost predicate LatestWith(cfg: Config, ops: seq<Op>, sim: Similarity, now: nat, value: string, x: real) {
    exists k, e :: Latest(cfg, ops, k) == Some(e) && !Expired(cfg.ttl, e, now) && e.value == value
      && e.embedding.Some? && sim(e.embedding.value) == Some(x)
  }

  /**
   * A semantic hit is an unexpired latest put whose embedding has the reported similarity, which reaches the threshold
   * and which no other live entry exceeds.
   */
  lemma SemanticHitAgreesWithTtlMap(cfg: Config, ops: seq<Op>, sim: Similarity, now: nat)
    requires Found(cfg, Run(cfg, ops), sim, now).Some?
    ensures var (v, x) := Found(cfg, Run(cfg, ops), sim, now).value;
      && x + 0.000000000001 >= cfg.threshold && LatestWith(cfg, ops, sim, now, v, x)
      && forall k :: k in Run(cfg, ops).entries && !Expired(cfg.ttl, Run(cfg, ops).entries[k], now)
           && Run(cfg, ops).entries[k].embedding.Some? && sim(Run(cfg, ops).entries[k].embedding.value).Some?
           ==> sim(Run(cfg, ops).entries[k].embedding.value).value <= x
  {
    hide Run, Latest, Expired;
    EntriesAreLatest(cfg, ops);
    var entries := Run(cfg, ops).entries;
    var kept := Fresh(cfg.ttl, entries, now);
    var (x, k) := Nearest(kept, sim, cfg.threshold).value;
    assert (x, k) in Candidates(kept, sim, cfg.threshold);
    AgeOnly(cfg.ttl, kept[k], now);
    assert Latest(cfg, ops, k) == Some(kept[k].(lastUsed := kept[k].created));
    forall j | j in entries && !Expired(cfg.ttl, entries[j], now)
        && entries[j].embedding.Some? && sim(entries[j].embedding.value).Some?
      ensures sim(entries[j].embedding.value).value <= x
    {
      NearestIsHighest(kept, sim, cfg.threshold, j, sim(entries[j].embedding.value).value);
    }
  }

  lemma NearestIsHighest(entries: Entries, sim: Similarity, threshold: real, j: string, y: real)
    requires Nearest(entries, sim, threshold).Some?
    requires j in entries && entries[j].embedding.Some? && sim(entries[j].embedding.value) == Some(y)
    ensures y <= Nearest(entries, sim, threshold).value.0
  {
    var (x, k) := Nearest(entries, sim, threshold).value;
    assert (x, k) in Candidates(entries, sim, threshold);
    assert y > x ==> (y, j) in Candidates(entries, sim, threshold);
  }

  /** Expiry does not depend on when an entry was last used. */
  lemma AgeOnly(ttl: nat, e: Entry, now: nat)
    ensures Expired(ttl, e.(lastUsed := e.created), now) == Expired(ttl, e, now)
  {}

  /** The operations a tiered lookup amounts to: an exact lookup, and a search on a miss with a query. */
  function TieredOps(cfg: Config, s: State, key: string, sim: Option<Similarity>, now: nat): seq<Op> {
    [Get(key, now)] + if Lookup(cfg, s, key, now).None? && sim.Some? then [Search(sim.value, now)] else []
  }

  /** A tiered lookup after a run is one or two more operations of that run. */
  lemma TieredIsRun(cfg: Config, ops: seq<Op>, key: string, sim: Option<Similarity>, now: nat)
    ensures TieredStep(cfg, Run(cfg, ops), key, sim, now) == Run(cfg, ops + TieredOps(cfg, Run(cfg, ops), key, sim, now))
  {
    hide GetStep, SearchStep, Lookup;
    var tail := TieredOps(cfg, Run(cfg, ops), key, sim, now);
    assert (ops + [Get(key, now)])[..|ops|] == ops;
    if |tail| == 2 {
      assert (ops + tail)[..|ops| + 1] == ops + [Get(key, now)];
    }
  }

  /** A tiered hit is the unbounded map's answer, or an unexpired latest put with the reported similarity. */
  lemma TieredHitAgreesWithTtlMap(cfg: Config, ops: seq<Op>, key: string, sim: Option<Similarity>, now: nat)
    requires TieredHit(cfg, Run(cfg, ops), key, sim, now).Some?
    ensures var hit := TieredHit(cfg, Run(cfg, ops), key, sim, now).value;
      match hit.tier
      case Exact => hit.similarity == None && TtlMapLookup(cfg, ops, key, now) == Some(hit.value)
      case Semantic =>
        && Lookup(cfg, Run(cfg, ops), key, now).None? && sim.Some? && hit.similarity.Some?
        && hit.similarity.value + 0.000000000001 >= cfg.threshold
        && LatestWith(cfg, ops, sim.value, now, hit.value, hit.similarity.value)
  {
    hide Run, Lookup, TtlMapLookup, Found, LatestWith;
    if Lookup(cfg, Run(cfg, ops), key, now).Some? {
      HitAgreesWithTtlMap(cfg, ops, key, now);
    } else {
      RunAppend(cfg, ops, Get(key, now));
      SemanticHitAgreesWithTtlMap(cfg, ops + [Get(key, now)], sim.value, now);
      var (v, x) := Found(cfg, Run(cfg, ops + [Get(key, now)]), sim.value, now).value;
      LatestWithUnchanged(cfg, ops, Get(key, now), sim.value, now, v, x);
    }
  }

  lemma RunAppend(cfg: Config, ops: seq<Op>, op: Op)
    ensures Run(cfg, ops + [op]) == Step(cfg, Run(cfg, ops), op)
  {
    assert (ops + [op])[..|ops|] == ops;
  }

  lemma LatestWithUnchanged(cfg: Config, ops: seq<Op>, op: Op, sim: Similarity, now: nat, v: string, x: real)
    requires !op.Put?
    ensures LatestWith(cfg, ops + [op], sim, now, v, x) == LatestWith(cfg, ops, sim, now, v, x)
  {
    hide Latest, Expired;
    forall k ensures Latest(cfg, ops + [op], k) == Latest(cfg, ops, k) { LatestUnchanged(cfg, ops, op, k); }
  }

  // ---- Conservation ----

  /** How many puts of the run found their key absent. */
  ghost function AbsentPuts(cfg: Config, ops: seq<Op>): nat {
    if ops == [] then 0
    else
      var init, op := ops[..|ops| - 1], ops[|ops| - 1];
      AbsentPuts(cfg, init) +
        if op.Put? && Normalize(cfg.lower, op.key) !in Run(cfg, init).entries then 1 else 0
  }

  lemma {:induction false} EvictConserves(capacity: nat, s: State)
    ensures var t := Evict(capacity, s);
      && |t.entries| + t.stats.evictions == |s.entries| + s.stats.evictions
      && t.stats.expirations == s.stats.expirations
    decreases |s.entries|
  {
    if |s.entries| > capacity {
      NonEmpty(s.entries);
      var v := Victim(s.entries);
      RemoveSize(s.entries, v);
      EvictConserves(capacity, State(s.entries - {v}, s.stats.(evictions := s.stats.evictions + 1)));
    }
  }

  /** Entries are conserved: what was put under an absent key is live, was evicted, or expired. */
  lemma {:induction false} EntriesConserved(cfg: Config, ops: seq<Op>)
    requires cfg.capacity > 0
    ensures var s := Run(cfg, ops);
      AbsentPuts(cfg, ops) == |s.entries| + s.stats.evictions + s.stats.expirations
  {
    hide PutStep, GetStep, SearchStep, Normalize;
    if ops != [] {
      var init, op := ops[..|ops| - 1], ops[|ops| - 1];
      EntriesConserved(cfg, init);
      var s := Run(cfg, init);
      match op
      case Put(key, value, embedding, now) => PutConserves(cfg, s, key, value, embedding, now);
      case Get(key, now) => GetConserves(cfg, s, key, now);
      case Purge(now) => FreshSize(cfg.ttl, s.entries, now);
      case Search(sim, now) => SearchConserves(cfg, s, sim, now);
    }
  }

  lemma PutConserves(cfg: Config, s: State, key: string, value: string, embedding: Option<Embedding>, now: nat)
    requires cfg.capacity > 0
    ensures var t := PutStep(cfg, s, key, value, embedding, now);
      && t.stats.expirations == s.stats.expirations
      && |t.entries| + t.stats.evictions ==
        |s.entries| + s.stats.evictions + if Normalize(cfg.lower, key) in s.entries then 0 else 1
  {
    hide Evict, Normalize;
    var k, e := Normalize(cfg.lower, key), Entry(value, embedding, now, now);
    InsertSize(s.entries, k, e);
    EvictConserves(cfg.capacity, s.(entries := s.entries[k := e]));
  }

  lemma SearchConserves(cfg: Config, s: State, sim: Similarity, now: nat)
    ensures var t := SearchStep(cfg, s, sim, now);
      && |t.entries| + t.stats.expirations == |s.entries| + s.stats.expirations
      && t.stats.evictions == s.stats.evictions
  {
    hide Nearest;
    FreshSize(cfg.ttl, s.entries, now);
    SearchSize(cfg, s, sim, now);
  }

  // ---- Partitions ----

  datatype PartOp = On(part: string, op: Op) | Drop(part: string) | Erase(matches: string -> bool)

  type Parts = map<string, State>

  /** A put creates its partition on first use; lookups in an unknown partition touch nothing. */
  ghost function PartStep(cfg: Config, parts: Parts, op: PartOp): Parts {
    match op
    case On(p, o) =>
      if p in parts then parts[p := Step(cfg, parts[p], o)]
      else if o.Put? then parts[p := Step(cfg, EMPTY, o)]
      else parts
    case Drop(p) => parts - {p}
    case Erase(matches) => map p | p in parts && !matches(p) :: parts[p]
  }

  ghost function PartRun(cfg: Config, ops: seq<PartOp>): Parts {
    if ops == [] then map[] else PartStep(cfg, PartRun(cfg, ops[..|ops| - 1]), ops[|ops| - 1])
  }

  /** The operations on `p` since it was last dropped or erased, from its first put on. */
  function OwnOps(ops: seq<PartOp>, p: string): Option<seq<Op>> {
    if ops == [] then None
    else
      var own := OwnOps(ops[..|ops| - 1], p);
      match ops[|ops| - 1]
      case On(q, o) =>
        if q != p then own
        else if own.Some? then Some(own.value + [o])
        else if o.Put? then Some([o])
        else None
      case Drop(q) => if q == p then None else own
      case Erase(matches) => if matches(p) then None else own
  }

  /** A partition is exactly the cache its own operations build: no other partition leaves a trace in it. */
  lemma {:induction false} PartitionsIsolated(cfg: Config, ops: seq<PartOp>, p: string)
    ensures p in PartRun(cfg, ops) <==> OwnOps(ops, p).Some?
    ensures p in PartRun(cfg, ops) ==> PartRun(cfg, ops)[p] == Run(cfg, OwnOps(ops, p).value)
  {
    hide Step;
    if ops != [] {
      var init := ops[..|ops| - 1];
      PartitionsIsolated(cfg, init, p);
      if ops[|ops| - 1].On? {
        var own, o := OwnOps(init, p), ops[|ops| - 1].op;
        if own.Some? { assert (own.value + [o])[..|own.value|] == own.value; }
        assert [o][..0] == [];
      }
    }
  }
}
