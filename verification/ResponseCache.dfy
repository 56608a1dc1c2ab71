// The response cache: exact and semantic lookup over one store, LRU eviction, TTL expiry on a
// caller-supplied tick.
module ResponseCache {
  import opened Options
  import opened Orders
  import Text

  const U64_MAX: nat := 0xFFFF_FFFF_FFFF_FFFF

  type Embedding = seq<real>

  /** The similarity of a cached embedding to a query; none when the two are incomparable. */
  type Similarity = Embedding -> Option<real>

  datatype Entry = Entry(value: string, embedding: Option<Embedding>, created: nat, lastUsed: nat)

  datatype Stats = Stats(exactHits: nat, exactMisses: nat, semanticHits: nat, semanticMisses: nat,
                         evictions: nat, expirations: nat)

  /** `lower` is Unicode lower-casing. */
  datatype Config = Config(capacity: nat, ttl: nat, threshold: real, lower: string -> string)

  type Entries = map<string, Entry>

  datatype State = State(entries: Entries, stats: Stats)

  const EMPTY: State := State(map[], Stats(0, 0, 0, 0, 0, 0))

  /** Collapse white space runs to single spaces and lower-case. */
  function Normalize(lower: string -> string, key: string): string {
    lower(Text.Join(Text.Words(key), " "))
  }

  predicate Expired(ttl: nat, e: Entry, now: nat) {
    now > if e.created + ttl > U64_MAX then U64_MAX else e.created + ttl
  }

  // ---- Specification of each operation on the state ----

  ghost function Ages(entries: Entries): set<(nat, string)> {
    set k | k in entries :: (entries[k].lastUsed, k)
  }

  /** The least recently used key, ties to the smaller key. */
  ghost function Victim(entries: Entries): (k: string)
    requires entries.Keys != {}
    ensures k in entries
    ensures IsLeast(LowThenLex, Ages(entries), (entries[k].lastUsed, k))
  {
    LowThenLexIsTotal();
    var k :| k in entries;
    assert (entries[k].lastUsed, k) in Ages(entries);
    Least(LowThenLex, Ages(entries)).1
  }

  ghost function Evict(capacity: nat, s: State): State
    decreases |s.entries|
  {
    if |s.entries| <= capacity then s
    else
      NonEmpty(s.entries);
      var v := Victim(s.entries);
      RemoveSize(s.entries, v);
      Evict(capacity, State(s.entries - {v}, s.stats.(evictions := s.stats.evictions + 1)))
  }

  lemma NonEmpty(m: Entries)
    requires |m| > 0
    ensures m.Keys != {}
  {
    assert |m.Keys| == |m|;
  }

  lemma RemoveSize(m: Entries, k: string)
    ensures |m - {k}| == if k in m then |m| - 1 else |m|
  {
    assert (m - {k}).Keys == m.Keys - {k};
    assert |m| == |m.Keys| && |m - {k}| == |(m - {k}).Keys|;
  }

  lemma InsertSize(m: Entries, k: string, e: Entry)
    ensures |m[k := e]| == if k in m then |m| else |m| + 1
  {
    assert m[k := e].Keys == m.Keys + {k};
    assert |m| == |m.Keys| && |m[k := e]| == |m[k := e].Keys|;
  }

  ghost function PutStep(cfg: Config, s: State, key: string, value: string, embedding: Option<Embedding>, now: nat): State {
    if cfg.capacity == 0 then s
    else Evict(cfg.capacity, s.(entries := s.entries[Normalize(cfg.lower, key) := Entry(value, embedding, now, now)]))
  }

  /** What an exact lookup returns. */
  function Lookup(cfg: Config, s: State, key: string, now: nat): Option<string> {
    var k := Normalize(cfg.lower, key);
    if k in s.entries && !Expired(cfg.ttl, s.entries[k], now) then Some(s.entries[k].value) else None
  }

  function GetStep(cfg: Config, s: State, key: string, now: nat): State {
    var k := Normalize(cfg.lower, key);
    if k !in s.entries then
      s.(stats := s.stats.(exactMisses := s.stats.exactMisses + 1))
    else if Expired(cfg.ttl, s.entries[k], now) then
      State(s.entries - {k}, s.stats.(expirations := s.stats.expirations + 1, exactMisses := s.stats.exactMisses + 1))
    else
      State(s.entries[k := s.entries[k].(lastUsed := now)], s.stats.(exactHits := s.stats.exactHits + 1))
  }

  function Fresh(ttl: nat, entries: Entries, now: nat): (m: Entries)
    ensures m.Keys <= entries.Keys
  {
    map k | k in entries && !Expired(ttl, entries[k], now) :: entries[k]
  }

  lemma FreshSize(ttl: nat, entries: Entries, now: nat)
    ensures |Fresh(ttl, entries, now)| <= |entries|
  {
    var m := Fresh(ttl, entries, now);
    assert |entries| == |entries.Keys| && |m| == |m.Keys|;
    SubsetSize(m.Keys, entries.Keys);
  }

  lemma {:induction false} SubsetSize<T>(a: set<T>, b: set<T>)
    requires a <= b
    ensures |a| <= |b|
  {
    if a != {} {
      var x :| x in a;
      SubsetSize(a - {x}, b - {x});
    }
  }

  function SweepStep(cfg: Config, s: State, now: nat): State {
    var kept := Fresh(cfg.ttl, s.entries, now);
    FreshSize(cfg.ttl, s.entries, now);
    State(kept, s.stats.(expirations := s.stats.expirations + (|s.entries| - |kept|)))
  }

  /** The similarity of the entry under `k`, when it has an embedding that reaches the threshold. */
  function Score(entries: Entries, sim: Similarity, threshold: real, k: string): Option<real>
    requires k in entries
  {
    match entries[k].embedding
    case None => None
    case Some(e) =>
      match sim(e)
      case None => None
      case Some(x) => if x + 0.000000000001 < threshold then None else Some(x)
  }

  ghost function Candidates(entries: Entries, sim: Similarity, threshold: real): set<(real, string)> {
    set k | k in entries && Score(entries, sim, threshold, k).Some? :: (Score(entries, sim, threshold, k).value, k)
  }

  /** The nearest candidate, ties to the smaller key. */
  ghost function Nearest(entries: Entries, sim: Similarity, threshold: real): (r: Option<(real, string)>)
    ensures r.None? <==> Candidates(entries, sim, threshold) == {}
    ensures r.Some? ==> IsLeast(HighThenLex, Candidates(entries, sim, threshold), r.value) && r.value.1 in entries
  {
    if Candidates(entries, sim, threshold) == {} then None
    else
      HighThenLexIsTotal();
      Some(Least(HighThenLex, Candidates(entries, sim, threshold)))
  }

  ghost function SearchStep(cfg: Config, s: State, sim: Similarity, now: nat): State {
    var swept := SweepStep(cfg, s, now);
    match Nearest(swept.entries, sim, cfg.threshold)
    case None => swept.(stats := swept.stats.(semanticMisses := swept.stats.semanticMisses + 1))
    case Some((_, k)) =>
      State(swept.entries[k := swept.entries[k].(lastUsed := now)],
            swept.stats.(semanticHits := swept.stats.semanticHits + 1))
  }

  ghost function Found(cfg: Config, s: State, sim: Similarity, now: nat): Option<(string, real)> {
    var swept := SweepStep(cfg, s, now);
    match Nearest(swept.entries, sim, cfg.threshold)
    case None => None
    case Some((x, k)) => Some((swept.entries[k].value, x))
  }

  datatype Tier = Exact | Semantic

  datatype Hit = Hit(value: string, tier: Tier, similarity: Option<real>)

  class Cache {
    const cfg: Config
    var entries: Entries
    var stats: Stats

    constructor (cfg: Config)
      ensures this.cfg == cfg && Now() == EMPTY
    {
      this.cfg := cfg;
      entries := map[];
      stats := Stats(0, 0, 0, 0, 0, 0);
    }

    function Now(): State
      reads this
    {
      State(entries, stats)
    }

    method Put(key: string, value: string, embedding: Option<Embedding>, now: nat)
      modifies this
      ensures Now() == PutStep(cfg, old(Now()), key, value, embedding, now)
    {
      if cfg.capacity == 0 {
        return;
      }
      var k := Normalize(cfg.lower, key);
      entries := entries[k := Entry(value, embedding, now, now)];
      EvictToCapacity();
    }

    method GetExact(key: string, now: nat) returns (r: Option<string>)
      modifies this
      ensures r == Lookup(cfg, old(Now()), key, now)
      ensures Now() == GetStep(cfg, old(Now()), key, now)
    {
      var k := Normalize(cfg.lower, key);
      if k !in entries {
        stats := stats.(exactMisses := stats.exactMisses + 1);
        r := None;
      } else if Expired(cfg.ttl, entries[k], now) {
        entries := entries - {k};
        stats := stats.(expirations := stats.expirations + 1);
        stats := stats.(exactMisses := stats.exactMisses + 1);
        r := None;
      } else {
        r := Some(entries[k].value);
        entries := entries[k := entries[k].(lastUsed := now)];
        stats := stats.(exactHits := stats.exactHits + 1);
      }
    }

    method SweepExpired(now: nat) returns (removed: nat)
      modifies this
      ensures Now() == SweepStep(cfg, old(Now()), now)
      ensures removed == |old(entries)| - |entries|
    {
      FreshSize(cfg.ttl, entries, now);
      var before := |entries|;
      entries := Fresh(cfg.ttl, entries, now);
      removed := before - |entries|;
      stats := stats.(expirations := stats.expirations + removed);
    }

    /** Visits the entries in any order; the result does not depend on it. */
    method GetSemantic(sim: Similarity, now: nat) returns (r: Option<(string, real)>)
      modifies this
      ensures r == Found(cfg, old(Now()), sim, now)
      ensures Now() == SearchStep(cfg, old(Now()), sim, now)
    {
      var _ := SweepExpired(now);
      var best: Option<(real, string)> := None;
      var rest := entries.Keys;
      while rest != {}
        invariant Now() == SweepStep(cfg, old(Now()), now)
        invariant rest <= entries.Keys
        invariant best.None? ==> forall k :: k in entries && k !in rest ==> Score(entries, sim, cfg.threshold, k).None?
        invariant best.Some? ==> best.value.1 in entries.Keys - rest && Score(entries, sim, cfg.threshold, best.value.1) == Some(best.value.0)
        invariant best.Some? ==> forall k :: k in entries && k !in rest && Score(entries, sim, cfg.threshold, k).Some? ==>
          HighThenLex(best.value, (Score(entries, sim, cfg.threshold, k).value, k))
        decreases rest
      {
        var k :| k in rest;
        rest := rest - {k};
        match Score(entries, sim, cfg.threshold, k)
        case None =>
        case Some(x) =>
          HighThenLexIsTotal();
          if best.None? || !HighThenLex(best.value, (x, k)) {
            best := Some((x, k));
          }
      }
      NearestIs(entries, sim, cfg.threshold, best);
      match best
      case None =>
        stats := stats.(semanticMisses := stats.semanticMisses + 1);
        r := None;
      case Some((x, k)) =>
        r := Some((entries[k].value, x));
        entries := entries[k := entries[k].(lastUsed := now)];
        stats := stats.(semanticHits := stats.semanticHits + 1);
    }

    method EvictToCapacity()
      modifies this
      ensures Now() == Evict(cfg.capacity, old(Now()))
    {
      while |entries| > cfg.capacity
        invariant Evict(cfg.capacity, Now()) == Evict(cfg.capacity, old(Now()))
        decreases |entries|
      {
        NonEmpty(entries);
        var k := FindVictim();
        RemoveSize(entries, k);
        entries := entries - {k};
        stats := stats.(evictions := stats.evictions + 1);
      }
    }

    /** The minimum over the entries in any order. */
    method FindVictim() returns (victim: string)
      requires entries.Keys != {}
      ensures victim == Victim(entries)
    {
      victim :| victim in entries.Keys;
      LowThenLexIsTotal();
      assert LowThenLex((entries[victim].lastUsed, victim), (entries[victim].lastUsed, victim));
      var rest := entries.Keys - {victim};
      while rest != {}
        invariant rest <= entries.Keys && victim in entries.Keys - rest
        invariant forall k :: k in entries && k !in rest ==> LowThenLex((entries[victim].lastUsed, victim), (entries[k].lastUsed, k))
        decreases rest
      {
        var k :| k in rest;
        rest := rest - {k};
        LowThenLexIsTotal();
        if !LowThenLex((entries[victim].lastUsed, victim), (entries[k].lastUsed, k)) {
          victim := k;
        }
      }
      VictimIs(entries, victim);
    }

    method GetTiered(key: string, sim: Option<Similarity>, now: nat) returns (r: Option<Hit>)
      modifies this
      ensures r == TieredHit(cfg, old(Now()), key, sim, now)
      ensures Now() == TieredStep(cfg, old(Now()), key, sim, now)
    {
      var v := GetExact(key, now);
      if v.Some? {
        return Some(Hit(v.value, Exact, None));
      }
      if sim.None? {
        return None;
      }
      var f := GetSemantic(sim.value, now);
      r := if f.None? then None else Some(Hit(f.value.0, Semantic, Some(f.value.1)));
    }
  }

  ghost function TieredHit(cfg: Config, s: State, key: string, sim: Option<Similarity>, now: nat): Option<Hit> {
    match Lookup(cfg, s, key, now)
    case Some(v) => Some(Hit(v, Exact, None))
    case None =>
      if sim.None? then None
      else
        match Found(cfg, GetStep(cfg, s, key, now), sim.value, now)
        case None => None
        case Some((v, x)) => Some(Hit(v, Semantic, Some(x)))
  }

  ghost function TieredStep(cfg: Config, s: State, key: string, sim: Option<Similarity>, now: nat): State {
    var after := GetStep(cfg, s, key, now);
    if Lookup(cfg, s, key, now).Some? || sim.None? then after else SearchStep(cfg, after, sim.value, now)
  }

  lemma VictimIs(entries: Entries, k: string)
    requires k in entries
    requires forall j :: j in entries ==> LowThenLex((entries[k].lastUsed, k), (entries[j].lastUsed, j))
    ensures entries.Keys != {} && k == Victim(entries)
  {
    LowThenLexIsTotal();
    var v := Victim(entries);
    LeastUnique(LowThenLex, Ages(entries), (entries[k].lastUsed, k), (entries[v].lastUsed, v));
  }

  lemma NearestIs(entries: Entries, sim: Similarity, threshold: real, best: Option<(real, string)>)
    requires best.None? ==> forall k :: k in entries ==> Score(entries, sim, threshold, k).None?
    requires best.Some? ==> best.value.1 in entries && Score(entries, sim, threshold, best.value.1) == Some(best.value.0)
    requires best.Some? ==> forall k :: k in entries && Score(entries, sim, threshold, k).Some? ==>
      HighThenLex(best.value, (Score(entries, sim, threshold, k).value, k))
    ensures Nearest(entries, sim, threshold) == best
  {
    HighThenLexIsTotal();
    if best.Some? {
      assert best.value in Candidates(entries, sim, threshold);
      LeastUnique(HighThenLex, Candidates(entries, sim, threshold), best.value, Nearest(entries, sim, threshold).value);
    }
  }
}
