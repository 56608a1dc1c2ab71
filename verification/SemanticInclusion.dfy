// A run with a semantic search after which a smaller cache answers what a larger one cannot: an instance of
// `CacheRuns.InclusionIff` where the caches do not agree.
module SemanticInclusion {
  import opened Options
  import opened Orders
  import opened ResponseCache
  import opened CacheRuns
  import Text

  const NEAR: Embedding := [1.0]
  const FAR: Embedding := [2.0]

  /** The query is nearest to `NEAR`. */
  function Query(e: Embedding): Option<real> {
    if e == NEAR then Some(1.0) else if e == FAR then Some(0.95) else None
  }

  /** Lower-casing, on keys in lower case. */
  function Same(s: string): string { s }

  function Sized(capacity: nat): Config {
    Config(capacity, 100, 0.9, Same)
  }

  function PutOf(key: string, embedding: Option<Embedding>, now: nat): Op { Put(key, "v", embedding, now) }

  function Stored(embedding: Option<Embedding>, created: nat, lastUsed: nat): Entry { Entry("v", embedding, created, lastUsed) }

  const OPS := [PutOf("a", Some(NEAR), 0), PutOf("b", Some(FAR), 1), PutOf("c", None, 2), Search(Query, 3), PutOf("d", None, 4)]

  lemma OneWord(key: string)
    requires |key| == 1 && !Text.IsWhitespace(key[0])
    ensures Text.Words(key) == [key]
  {
    hide Text.IsWhitespace;
    assert key[..1] == key && key[1..] == "";
    assert Text.WordLength(key) == 1;
    assert Text.TrimStart(key) == key;
    assert Text.Words("") == [];
  }

  lemma Normalized(capacity: nat, key: string)
    requires |key| == 1 && !Text.IsWhitespace(key[0])
    ensures Normalize(Sized(capacity).lower, key) == key
  {
    hide Text.Words;
    OneWord(key);
  }

  lemma PutRoom(capacity: nat, s: State, key: string, embedding: Option<Embedding>, now: nat)
    requires |key| == 1 && !Text.IsWhitespace(key[0]) && key !in s.entries && |s.entries| < capacity
    ensures Step(Sized(capacity), s, PutOf(key, embedding, now)) == s.(entries := s.entries[key := Stored(embedding, now, now)])
  {
    Normalized(capacity, key);
  }

  /** A put into a full cache removes the entry used longest ago. */
  lemma PutFull(capacity: nat, s: State, key: string, embedding: Option<Embedding>, now: nat, victim: string)
    requires |key| == 1 && !Text.IsWhitespace(key[0]) && key !in s.entries && |s.entries| == capacity > 0
    requires victim in s.entries && s.entries[victim].lastUsed < now
    requires forall j :: j in s.entries && j != victim ==> s.entries[victim].lastUsed < s.entries[j].lastUsed
    ensures Step(Sized(capacity), s, PutOf(key, embedding, now)).entries ==
      s.entries[key := Stored(embedding, now, now)] - {victim}
  {
    hide Evict;
    Normalized(capacity, key);
    var full := s.(entries := s.entries[key := Stored(embedding, now, now)]);
    InsertSize(s.entries, key, Stored(embedding, now, now));
    LowThenLexIsTotal();
    VictimIs(full.entries, victim);
    EvictOne(capacity, full);
  }

  /** A search touches the entry whose similarity exceeds all others'. */
  lemma SearchTouches(capacity: nat, s: State, now: nat, k: string, x: real)
    requires now <= 100 && k in s.entries && Score(s.entries, Query, 0.9, k) == Some(x)
    requires forall j :: j in s.entries && j != k && Score(s.entries, Query, 0.9, j).Some? ==>
      Score(s.entries, Query, 0.9, j).value < x
    ensures Step(Sized(capacity), s, Search(Query, now)).entries == s.entries[k := s.entries[k].(lastUsed := now)]
  {
    hide Score;
    HighThenLexIsTotal();
    assert Fresh(100, s.entries, now) == s.entries;
    NearestIs(s.entries, Query, 0.9, Some((x, k)));
  }

  lemma RunGrows(cfg: Config, n: nat)
    requires n < |OPS|
    ensures Run(cfg, OPS[..n + 1]) == Step(cfg, Run(cfg, OPS[..n]), OPS[n])
  {
    hide OPS;
    assert OPS[..n + 1][..n] == OPS[..n];
  }

  ghost function After(capacity: nat, n: nat): Entries
    requires n <= |OPS|
  {
    Run(Sized(capacity), OPS[..n]).entries
  }

  const A := Stored(Some(NEAR), 0, 0)
  const B := Stored(Some(FAR), 1, 1)
  const C := Stored(None, 2, 2)
  const D := Stored(None, 4, 4)

  lemma Start(capacity: nat)
    ensures Run(Sized(capacity), OPS[..0]) == EMPTY
  {}

  lemma LargePuts()
    ensures After(3, 3) == map["a" := A, "b" := B, "c" := C]
  {
    hide Step, Run;
    RunGrows(Sized(3), 0);
    RunGrows(Sized(3), 1);
    RunGrows(Sized(3), 2);
    Start(3);
    PutRoom(3, Run(Sized(3), OPS[..0]), "a", Some(NEAR), 0);
    PutRoom(3, Run(Sized(3), OPS[..1]), "b", Some(FAR), 1);
    PutRoom(3, Run(Sized(3), OPS[..2]), "c", None, 2);
  }

  lemma SmallPuts()
    ensures After(2, 3) == map["b" := B, "c" := C]
  {
    hide Step, Run;
    RunGrows(Sized(2), 0);
    RunGrows(Sized(2), 1);
    RunGrows(Sized(2), 2);
    Start(2);
    PutRoom(2, Run(Sized(2), OPS[..0]), "a", Some(NEAR), 0);
    PutRoom(2, Run(Sized(2), OPS[..1]), "b", Some(FAR), 1);
    PutFull(2, Run(Sized(2), OPS[..2]), "c", None, 2, "a");
  }

  /** The larger cache finds `a`. */
  lemma LargeFinds()
    ensures After(3, 4) == map["a" := A.(lastUsed := 3), "b" := B, "c" := C]
  {
    hide Step, Run;
    LargePuts();
    RunGrows(Sized(3), 3);
    SearchTouches(3, Run(Sized(3), OPS[..3]), 3, "a", 1.0);
  }

  /** So it later gives up `b`. */
  lemma LargeEnds()
    ensures After(3, 5) == map["a" := A.(lastUsed := 3), "c" := C, "d" := D]
  {
    hide Step, Run;
    LargeFinds();
    RunGrows(Sized(3), 4);
    PutFull(3, Run(Sized(3), OPS[..4]), "d", None, 4, "b");
  }

  /** The smaller cache no longer holds `a`, and finds `b`. */
  lemma SmallFinds()
    ensures After(2, 4) == map["b" := B.(lastUsed := 3), "c" := C]
  {
    hide Step, Run;
    SmallPuts();
    RunGrows(Sized(2), 3);
    SearchTouches(2, Run(Sized(2), OPS[..3]), 3, "b", 0.95);
  }

  /** So it later gives up `c`. */
  lemma SmallEnds()
    ensures After(2, 5) == map["b" := B.(lastUsed := 3), "d" := D]
  {
    hide Step, Run;
    SmallFinds();
    RunGrows(Sized(2), 4);
    PutFull(2, Run(Sized(2), OPS[..4]), "d", None, 4, "c");
  }

  lemma Whole()
    ensures |OPS| == 5 && OPS[..5] == OPS
  {}

  /** After the same run a cache of two entries answers `b`, and a cache of three does not. */
  lemma SearchBreaksInclusion()
    ensures Comparable(Sized(2), Sized(3))
    ensures Lookup(Sized(2), Run(Sized(2), OPS), "b", 5) == Some("v")
    ensures Lookup(Sized(3), Run(Sized(3), OPS), "b", 5) == None
    ensures !Includes(Sized(2), Sized(3), Run(Sized(2), OPS), Run(Sized(3), OPS)) && !SearchesAgree(Sized(2), Sized(3), OPS)
  {
    hide Run, Normalize, OPS, SearchesAgree;
    Whole();
    SmallEnds();
    LargeEnds();
    Normalized(2, "b");
    Normalized(3, "b");
    InclusionIff(Sized(2), Sized(3), OPS);
  }
}
