/** The cycle of `compile` on real documents: `/a.scss` whose first line
    is `// out: b.scss`, and `/b.scss` whose first line is
    `// out: a.scss`. */
module CycleExample {
  import opened Options
  import opened OptionExamples
  import opened PathExamples
  import opened Cache
  import opened Compiler
  import opened CompileFacts

  /** A document whose first line is `// out: target`. */
  function OutDoc(target: string): string {
    "// " + Item("out", target) + "\n"
  }

  /** A name that can stand as the `out` of a chain: a plain name, written
      as a token, that spells no literal and ends in `.scss` or `.sass`. */
  predicate SourceName(y: string) {
    Name(y) && Token(y) && !IsLiteral(y) && IsSourceFile("/" + y)
  }

  /** `compile` on `/x` whose directive names the Sass document `y` chains
      to `/y`. */
  lemma OutDocChains(x: string, y: string)
    requires Name(x) && SourceName(y) && x != y
    ensures CompileStep("/" + x, OutDoc(y)) == Chain("/" + y)
  {
    assert Token("out") by {
      var k := "out";
      forall i | 0 <= i < |k| ensures k[i] != ',' && k[i] != ':' && !IsLineTerminator(k[i]) {
        assert k[i] == 'o' || k[i] == 'u' || k[i] == 't';
      }
    }
    assert OutDoc(y) == "// " + Item("out", y) + "\n" + "";
    OneDirective("out", y, "");
    ResolveSibling(x, y, true);
  }

  /** As written, two such documents that name each other, fetched from
      the workspace, recurse without bound: no fuel is enough. */
  lemma MutualOutNeverEnds(fuel: nat, workspaceId: string, x: string, y: string, now: int,
                           store: map<string, Fetch>)
    requires SourceName(x) && SourceName(y) && x != y
    requires "/" + x in store && ReplyText(store["/" + x].reply) == OutDoc(y)
    requires "/" + y in store && ReplyText(store["/" + y].reply) == OutDoc(x)
    ensures Compile(fuel, [], workspaceId, "/" + x, OutDoc(y), now, store).outcome == OutOfFuel
  {
    OutDocChains(x, y);
    OutDocChains(y, x);
    assert TwoCycle(CompileStep, [], workspaceId, "/" + x, OutDoc(y), "/" + y, OutDoc(x), store);
    CycleNeverEnds(CompileStep, fuel, [], workspaceId, "/" + x, OutDoc(y), "/" + y, OutDoc(x), now, store);
  }

  /** The same two documents with the guard: the chain stops with
      `CycleDetected`. */
  lemma MutualOutDetected(workspaceId: string, x: string, y: string, now: int, store: map<string, Fetch>)
    requires SourceName(x) && SourceName(y) && x != y
    requires "/" + x in store && ReplyText(store["/" + x].reply) == OutDoc(y)
    requires "/" + y in store && ReplyText(store["/" + y].reply) == OutDoc(x)
    ensures CompileChecked([], workspaceId, "/" + x, OutDoc(y), now, store).outcome == CycleDetected
  {
    OutDocChains(x, y);
    OutDocChains(y, x);
    assert TwoCycle(CompileStep, [], workspaceId, "/" + x, OutDoc(y), "/" + y, OutDoc(x), store);
    GuardStopsCycle(CompileStep, [], workspaceId, "/" + x, OutDoc(y), "/" + y, OutDoc(x), now, store);
  }

  /** `a.scss` and `b.scss` are such names. */
  lemma ExampleNames()
    ensures SourceName("a.scss") && SourceName("b.scss")
  {
    var a, b := "a.scss", "b.scss";
    forall i | 0 <= i < |a| ensures a[i] != '/' && a[i] != ',' && a[i] != ':' && !IsLineTerminator(a[i]) {
      assert a[i] in "as.c";
    }
    forall i | 0 <= i < |b| ensures b[i] != '/' && b[i] != ',' && b[i] != ':' && !IsLineTerminator(b[i]) {
      assert b[i] in "bs.c";
    }
    assert !AllDigits(a) by { assert !IsDigit(a[0]); }
    assert !AllDigits(b) by { assert !IsDigit(b[0]); }
    assert ("/" + a)[2..] == ".scss";
    assert ("/" + b)[2..] == ".scss";
  }

  /** The finding on literal documents: `/a.scss` reading `// out: b.scss`
      and `/b.scss` reading `// out: a.scss`, both in the workspace,
      recurse without bound as written and stop with the guard. */
  lemma ABCycle(fuel: nat, workspaceId: string, now: int)
    ensures var store := map["/a.scss" := Fetch(Stream([OutDoc("b.scss")]), now),
                             "/b.scss" := Fetch(Stream([OutDoc("a.scss")]), now)];
            Compile(fuel, [], workspaceId, "/a.scss", OutDoc("b.scss"), now, store).outcome == OutOfFuel &&
            CompileChecked([], workspaceId, "/a.scss", OutDoc("b.scss"), now, store).outcome == CycleDetected
  {
    var store := map["/a.scss" := Fetch(Stream([OutDoc("b.scss")]), now),
                     "/b.scss" := Fetch(Stream([OutDoc("a.scss")]), now)];
    ExampleNames();
    assert "/" + "a.scss" == "/a.scss" && "/" + "b.scss" == "/b.scss";
    assert Concat([OutDoc("b.scss")]) == OutDoc("b.scss") by { assert [OutDoc("b.scss")][..0] == []; }
    assert Concat([OutDoc("a.scss")]) == OutDoc("a.scss") by { assert [OutDoc("a.scss")][..0] == []; }
    MutualOutNeverEnds(fuel, workspaceId, "a.scss", "b.scss", now, store);
    MutualOutDetected(workspaceId, "a.scss", "b.scss", now, store);
  }
}
