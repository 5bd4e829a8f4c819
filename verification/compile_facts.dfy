/** Properties of the compile chain: more fuel never changes a finished
    chain, a two-document cycle never finishes as written, and the guarded
    chain stops such a cycle while agreeing with the unguarded one
    everywhere else. They hold for any one-step decision, `CompileStep`
    among them. */
module CompileFacts {
  import opened Cache
  import opened CacheFacts
  import opened Compiler

  /** A chain that ends within `fuel` steps ends the same way with more. */
  lemma {:induction false} FuelMonotone(decide: (string, string) -> Step, fuel: nat, more: nat,
                                        cache: seq<Entry>, workspaceId: string, path: string, doc: string,
                                        now: int, store: map<string, Fetch>)
    requires fuel <= more
    requires RunChain(decide, fuel, cache, workspaceId, path, doc, now, store).outcome != OutOfFuel
    ensures RunChain(decide, more, cache, workspaceId, path, doc, now, store) ==
            RunChain(decide, fuel, cache, workspaceId, path, doc, now, store)
    decreases fuel
  {
    if Continues(decide, cache, workspaceId, path, doc, store) {
      var dest := decide(path, doc).dest;
      var l := GetCache(cache, workspaceId, dest, now, FetchOf(store, dest, now));
      ChainStep(decide, fuel, cache, workspaceId, path, doc, now, store);
      ChainStep(decide, more, cache, workspaceId, path, doc, now, store);
      FuelMonotone(decide, fuel - 1, more - 1, l.cache, workspaceId, dest, l.data, now, store);
    }
  }

  /** Looking up `x` in the workspace gives the text `d`: from the cache
      when it holds `x`, otherwise from the store. */
  predicate Served(cache: seq<Entry>, workspaceId: string, x: string, d: string, store: map<string, Fetch>) {
    if CacheExists(cache, workspaceId, x).Some? then CacheExists(cache, workspaceId, x).value.data == d
    else x in store && ReplyText(store[x].reply) == d
  }

  /** A lookup of a served document hands over its text, and afterwards
      both it and any other served document are still served the same. */
  lemma ServedLookup(cache: seq<Entry>, workspaceId: string, x: string, d: string, y: string, e: string,
                     now: int, store: map<string, Fetch>)
    requires x != y
    requires Served(cache, workspaceId, x, d, store) && Served(cache, workspaceId, y, e, store)
    ensures var l := GetCache(cache, workspaceId, x, now, FetchOf(store, x, now));
            l.data == d && Served(l.cache, workspaceId, x, d, store) && Served(l.cache, workspaceId, y, e, store)
  {
    var f := FetchOf(store, x, now);
    var l := GetCache(cache, workspaceId, x, now, f);
    SecondLookupHits(cache, workspaceId, x, now, f, now, f);
    GetCacheLeavesOtherKeys(cache, workspaceId, x, now, f, workspaceId, y);
  }

  /** `p` and `q` are two different documents, served with the texts
      `dp` and `dq`, whose steps chain each to the other. */
  predicate TwoCycle(decide: (string, string) -> Step, cache: seq<Entry>, workspaceId: string,
                     p: string, dp: string, q: string, dq: string, store: map<string, Fetch>) {
    p != q && decide(p, dp) == Chain(q) && decide(q, dq) == Chain(p) &&
    Served(cache, workspaceId, p, dp, store) && Served(cache, workspaceId, q, dq, store)
  }

  /** One step of a two-document cycle: with no fuel the chain has not
      ended, and otherwise it passes to the other document, and the two
      still form a cycle over the cache its lookup leaves. */
  lemma CycleStep(decide: (string, string) -> Step, fuel: nat, cache: seq<Entry>,
                  workspaceId: string, p: string, dp: string, q: string, dq: string,
                  now: int, store: map<string, Fetch>)
    ensures TwoCycle(decide, cache, workspaceId, p, dp, q, dq, store) && fuel == 0 ==>
            RunChain(decide, fuel, cache, workspaceId, p, dp, now, store).outcome == OutOfFuel
    ensures TwoCycle(decide, cache, workspaceId, p, dp, q, dq, store) && fuel > 0 ==>
            var l := GetCache(cache, workspaceId, q, now, FetchOf(store, q, now));
            TwoCycle(decide, l.cache, workspaceId, q, dq, p, dp, store) &&
            RunChain(decide, fuel, cache, workspaceId, p, dp, now, store).outcome ==
            RunChain(decide, fuel - 1, l.cache, workspaceId, q, dq, now, store).outcome
  {
    if fuel > 0 && TwoCycle(decide, cache, workspaceId, p, dp, q, dq, store) {
      ServedLookup(cache, workspaceId, q, dq, p, dp, now, store);
    }
  }

  /** The induction behind `CycleNeverEnds`, with the cycle as a
      hypothesis of the conclusion. */
  lemma {:induction false} CycleRuns(decide: (string, string) -> Step, fuel: nat, cache: seq<Entry>,
                                     workspaceId: string, p: string, dp: string, q: string, dq: string,
                                     now: int, store: map<string, Fetch>)
    ensures TwoCycle(decide, cache, workspaceId, p, dp, q, dq, store) ==>
            RunChain(decide, fuel, cache, workspaceId, p, dp, now, store).outcome == OutOfFuel
    decreases fuel
  {
    CycleStep(decide, fuel, cache, workspaceId, p, dp, q, dq, now, store);
    if fuel > 0 {
      var l := GetCache(cache, workspaceId, q, now, FetchOf(store, q, now));
      CycleRuns(decide, fuel - 1, l.cache, workspaceId, q, dq, p, dp, now, store);
    }
  }

  /** As written, two documents whose `out` point at each other recurse
      without bound: no amount of fuel reaches an end. */
  lemma CycleNeverEnds(decide: (string, string) -> Step, fuel: nat, cache: seq<Entry>,
                       workspaceId: string, p: string, dp: string, q: string, dq: string,
                       now: int, store: map<string, Fetch>)
    requires TwoCycle(decide, cache, workspaceId, p, dp, q, dq, store)
    ensures RunChain(decide, fuel, cache, workspaceId, p, dp, now, store).outcome == OutOfFuel
  {
    CycleRuns(decide, fuel, cache, workspaceId, p, dp, q, dq, now, store);
  }

  /** With the guard, the same cycle stops on its second step. */
  lemma GuardStopsCycle(decide: (string, string) -> Step, cache: seq<Entry>, workspaceId: string,
                        p: string, dp: string, q: string, dq: string, now: int, store: map<string, Fetch>)
    requires TwoCycle(decide, cache, workspaceId, p, dp, q, dq, store)
    ensures RunGuarded(decide, {p}, cache, workspaceId, p, dp, now, store).outcome == CycleDetected
  {
    var l := GetCache(cache, workspaceId, q, now, FetchOf(store, q, now));
    ServedLookup(cache, workspaceId, q, dq, p, dp, now, store);
    assert RunGuarded(decide, {p} + {q}, l.cache, workspaceId, q, dq, now, store).outcome == CycleDetected;
  }

  /** A guarded chain that ends at its first step without reporting a
      cycle ends there in one unguarded step too. */
  lemma GuardedLastStep(decide: (string, string) -> Step, visited: set<string>, cache: seq<Entry>,
                        workspaceId: string, path: string, doc: string, now: int, store: map<string, Fetch>)
    requires !(Continues(decide, cache, workspaceId, path, doc, store) && decide(path, doc).dest !in visited)
    requires RunGuarded(decide, visited, cache, workspaceId, path, doc, now, store).outcome != CycleDetected
    ensures RunChain(decide, 1, cache, workspaceId, path, doc, now, store) ==
            RunGuarded(decide, visited, cache, workspaceId, path, doc, now, store)
  {
  }

  /** The guard changes nothing but cycles: a guarded chain that does not
      report one is an unguarded chain with enough fuel. */
  lemma GuardAgrees(decide: (string, string) -> Step, visited: set<string>, cache: seq<Entry>,
                    workspaceId: string, path: string, doc: string, now: int, store: map<string, Fetch>)
    returns (fuel: nat)
    requires RunGuarded(decide, visited, cache, workspaceId, path, doc, now, store).outcome != CycleDetected
    ensures RunChain(decide, fuel, cache, workspaceId, path, doc, now, store) ==
            RunGuarded(decide, visited, cache, workspaceId, path, doc, now, store)
    decreases |Known(cache, workspaceId, store) - visited|
  {
    if Continues(decide, cache, workspaceId, path, doc, store) && decide(path, doc).dest !in visited {
      var dest := decide(path, doc).dest;
      var l := GetCache(cache, workspaceId, dest, now, FetchOf(store, dest, now));
      KnownAfterLookup(cache, workspaceId, dest, now, store);
      RemainingShrinks(Known(l.cache, workspaceId, store), Known(cache, workspaceId, store), visited, dest);
      GuardedChainStep(decide, visited, cache, workspaceId, path, doc, now, store);
      var f := GuardAgrees(decide, visited + {dest}, l.cache, workspaceId, dest, l.data, now, store);
      fuel := f + 1;
      ChainStep(decide, fuel, cache, workspaceId, path, doc, now, store);
    } else {
      GuardedLastStep(decide, visited, cache, workspaceId, path, doc, now, store);
      fuel := 1;
    }
  }

  /** A chain through one source document: the render happens once, for
      the second document's destination and with the second document's
      text, never for the first. */
  lemma ChainThenRender(decide: (string, string) -> Step, fuel: nat, cache: seq<Entry>, workspaceId: string,
                        a: string, da: string, b: string, db: string, c: string, now: int, store: map<string, Fetch>)
    requires fuel >= 2
    requires decide(a, da) == Chain(b) && decide(b, db) == Render(c)
    requires Served(cache, workspaceId, b, db, store)
    ensures RunChain(decide, fuel, cache, workspaceId, a, da, now, store).outcome == Rendered(b, db, c)
  {
    var l := GetCache(cache, workspaceId, b, now, FetchOf(store, b, now));
    SecondLookupHits(cache, workspaceId, b, now, FetchOf(store, b, now), now, FetchOf(store, b, now));
  }
}
