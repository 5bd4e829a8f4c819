# Sass compiler extension: a Dafny model of its core

The extension compiles a Sass or SCSS document when it is saved. The first
line of the document may carry a build directive such as
`// out: ../css/style.css, minify: true`. The extension reads that directive
(`getOptions`) and resolves `out` against the document's path (`parsePath`).
If the destination is itself a Sass document, the extension fetches that
document through a small in-memory cache (`getCache`, `cacheExists`,
`addCache`, `checkCache`) and compiles it in turn. Otherwise it renders the
document to the destination.

This project models those five pieces as pure functions over immutable data:

- `Optional`: the optional value that stands for the source's `false`
  answers.
- `Text`: JavaScript's one-character `split` and `join`, with their
  round trips.
- `Paths`: `parsePath`. It builds the destination, then normalises it in
  three passes: the `/./` rewrite, the `..` walk and the slash collapse.
- `PathFacts`: the normalisation checked against an independent reference.
  The reference is a directory stack: a name pushes, `..` pops, and an
  empty segment does nothing.
- `PathClean`: paths already in normal form pass through unchanged.
- `PathExamples`: each shape of `out` resolved for arbitrary segment names.
  The shapes are a sibling, a bare name, the source itself, a parent hop,
  and a `..` above the root.
- `Options`: `getOptions`. This covers the first line, the pattern
  `^\s*\/\/\s*(.+)` (including its backtracking case), the split on `,`,
  the cut at the first `:`, `trim`, and the literal coercion that `eval`
  performs.
- `OptionFacts`: which keys a directive defines, which value wins, which
  line is read, and the round trips of `trim` and of the coercion.
- `OptionExamples`: the common one-item and two-item directives, parsed
  end to end for keys and values written as tokens.
- `Cache`: the cache as a sequence of entries, with first-match lookup, a
  recency refresh on a hit, append on a miss, and the time-threshold sweep.
- `CacheFacts`: lookups, appends and sweeps, related to each other.
- `Compiler`: one `compile` decision, and the chain of compiles it starts.
  The chain is modelled as written (with fuel) and corrected (with a cycle
  guard).
- `CompileFacts`: the properties of both chains, including the cycle
  finding below.
- `CycleExample`: that finding on two literal documents.

The clock (`new Date().getTime()`) becomes a `now` parameter. A workspace
fetch becomes a `Fetch` value: the reply, and the clock reading when it
completes. The workspace's files become a `store` map.

## Model

| member | source | states |
|---|---|---|
| `Text.JoinSplit` | extension.js:170-172 | Joining the pieces of `split('/')` with `/` gives back the original path. |
| `Paths.DirnameBasename` | extension.js:170-173 | A slash-free path has an empty directory part. Any other path is its directory part, one slash, and a slash-free last segment. |
| `Paths.Destination` | extension.js:163-174 | The three rules for building the destination, taken in order. With out `.` and `canBeSame`, the extension is swapped. An `out` starting with `/` is used as it is. Otherwise `out` goes after the source's directory and one slash, and a slash-free source gets a leading `/`. |
| `Paths.DropDotSegmentsChanges` | extension.js:176 | The `/./` pass changes a path exactly when the path holds a `/./`. |
| `PathExamples.DotPassSingleScan` | extension.js:176 | The `/./` pass is one non-overlapping scan, so `/././` becomes `/./`. |
| `Paths.NearestNonEmptyBefore` | extension.js:181-184 | The backward search stops at the nearest non-empty earlier segment. It gives -1 when every earlier segment is empty. |
| `Paths.CancelAt` | extension.js:179-187 | Visiting a `..` blanks it and the nearest non-empty segment before it, and blanks nothing else. Any other segment is left alone. |
| `Paths.CollapseSlashesChanges` | extension.js:192 | The slash collapse changes a string exactly when it holds `//`, so it is idempotent. |
| `Paths.ParsePath` | extension.js:162-199 | The answer is `false` exactly when the normalised destination equals the source path, and that normalised destination otherwise. Any other answer differs from the source path and has no `//`. |
| `PathFacts.CancelParentsResolves` | extension.js:178-190 | The non-empty segments the `..` walk leaves are exactly the contents of the directory stack. An unmatched `..` is ignored. |
| `PathFacts.NormaliseResolvesParents` | extension.js:176-192 | The normalised destination has no `//` and no `..` segment. Its non-empty segments are what the directory stack makes of the segments left after the `/./` pass. |
| `PathFacts.ParsePathResolves` | extension.js:162-199 | Every path `parsePath` answers has no `//` and no `..` segment, and its non-empty segments are what the directory stack makes of the destination after the `/./` pass. |
| `PathClean.NormaliseClean` | extension.js:176-192 | A path whose later segments are all plain names comes out of normalisation unchanged. |
| `PathClean.ParsePathClean` | extension.js:192-198 | For a destination already in normal form, the answer is that destination, or `false` exactly when it equals the source path. |
| `PathExamples.ResolveSameDirectory` | extension.js:165-166 | With out `.` and `canBeSame`, a slash-free `name.scss` resolves to `name.css`. |
| `PathExamples.ResolveBareSource` | extension.js:169-198 | A slash-free source resolves any plain-name `out` to `/` plus `out`, with or without `canBeSame`, even when `out` names the source itself. |
| `PathExamples.ResolveSibling` | extension.js:169-198 | A source one level below the root resolves a plain `out` to its sibling: `/a.scss` with out `b.scss` gives `/b.scss`. |
| `PathExamples.ResolveOntoSelf` | extension.js:194-196 | An `out` naming the source's own file resolves back onto the source and gives `false`. |
| `PathExamples.ResolveParentOut` | extension.js:169-192 | `/a/b/c` with out `../o` resolves to `/a/o`, for any plain names. |
| `PathExamples.UnmatchedParentDropped` | extension.js:178-192 | A `..` with nothing before it vanishes without error: `/../x` normalises to `/x`. |
| `Options.FirstLine` | extension.js:140 | Only the text before the first newline is read. A document with no newline yields the empty line. |
| `Options.DirectiveBody` | extension.js:141 | A capture is non-empty and holds no line terminator, and there is one only when the line is whitespace followed by `//`. |
| `OptionFacts.DirectiveRoundTrip` | extension.js:141 | Whitespace, then `//`, then whitespace, then a body starting with a non-space, captures exactly that body. |
| `OptionFacts.BlankDirectiveHasNoOptions` | extension.js:141-159 | A first line of only `//` and whitespace defines no option, although the pattern may capture one blank. |
| `OptionFacts.NotDirectiveHasNoOptions` | extension.js:139-145 | A first line that is not whitespace followed by `//` defines no options, whatever text follows it. |
| `OptionFacts.OnlyFirstLineRead` | extension.js:140 | Text after the first newline never changes the options. |
| `OptionFacts.TrimRoundTrip` | extension.js:153-154 | `trim` strips exactly the surrounding whitespace and returns the text inside. |
| `Options.ParseItem` | extension.js:149-152 | An item yields a binding exactly when it holds a `:`. |
| `OptionFacts.ParseItemAtFirstColon` | extension.js:149-154 | An item is cut at its first `:`. The key is the trimmed text before it, and the value is the coerced trimmed text after it, whatever further `:` it holds. |
| `Options.Coerce` | extension.js:155-157 | A value stays text exactly when it is not one of `true`, `false`, `undefined`, `null` or a digit run. Text is kept as written. |
| `OptionFacts.DecimalRoundTrip` | extension.js:155-156 | A number written in decimal reads back as itself. |
| `OptionFacts.CoerceShowRoundTrip` | extension.js:155-157 | Writing any value and reading it back gives the value, unless it is text that spells a literal. |
| `OptionFacts.FoldDefines` | extension.js:148-159 | The options object defines exactly the keys some parsed item assigns. |
| `OptionFacts.FoldLastWins` | extension.js:158 | A key keeps the value of the last item that assigns it. |
| `OptionFacts.BindDefines` | extension.js:148-159 | A key is defined exactly when some item with a `:` names it. |
| `OptionFacts.BindLastWins` | extension.js:148-159 | The value of a key comes from the last item that names it. |
| `Options.GetOptions` | extension.js:139-145 | A document with no newline has no options. |
| `OptionExamples.PairDirective` | extension.js:139-161 | `// k1: v1, k2: v2` binds `k1` and `k2` to their coerced values, and the second wins when the keys coincide. |
| `OptionExamples.OneDirective` | extension.js:139-161 | `// k: v` binds `k` to the coerced `v` and nothing else. |
| `Cache.FindFirst` | extension.js:63-74 | The scan stops at the first entry matching both the workspace and the path. |
| `Cache.CacheExists` | extension.js:101-116 | A result is found exactly when some entry matches. The result is the first entry matching both the workspace and the path. |
| `Cache.AddCache` | extension.js:117-124 | The cache gains one entry at the end, stamped with the clock. Nothing is removed, duplicates included. |
| `CacheFacts.AddCacheShadowed` | extension.js:101-124 | After an append, a lookup still finds the old first match. It finds the new entry only when there was none. |
| `Cache.GetCache` | extension.js:59-100 | A workspace fetch happens exactly when no entry matches. A hit hands over the cached text and refreshes only that entry's stamp. A miss caches the streamed text, or the empty string for a plain reply, and hands it over. |
| `CacheFacts.ConcatAppend` | extension.js:84-92 | The accumulated file is the chunks in arrival order. Reading a stream in two parts gives the two texts one after the other. |
| `CacheFacts.SecondLookupHits` | extension.js:59-100 | Once a document is looked up, a second lookup does not fetch and hands over the same text, whatever the workspace would reply now. |
| `CacheFacts.GetCacheLeavesOtherKeys` | extension.js:59-100 | A lookup of one document leaves what every other (workspace, path) lookup finds unchanged. |
| `Cache.Sweep` | extension.js:125-133 | The sweep keeps exactly the entries used within the last 180 seconds, and nothing else. |
| `CacheFacts.SweepKeepsAll` | extension.js:128-133 | A sweep removes nothing exactly when every entry is still fresh. |
| `CacheFacts.SweepIdempotent` | extension.js:128-133 | A second sweep at the same time removes nothing more. |
| `CacheFacts.SweepLater` | extension.js:128-137 | A sweep at an earlier time followed by one at a later time equals the later sweep alone. |
| `CacheFacts.FreshKeySurvivesSweep` | extension.js:101-133 | A document whose first entry is still fresh is found after the sweep, with the same entry. |
| `CacheFacts.LookedUpSurvivesSweep` | extension.js:59-133 | A looked-up document stays cached with the text the lookup handed over, through every sweep within 180 seconds of its stamp. |
| `Compiler.Decide` | extension.js:202-218 | Nothing happens for a missing or falsy `out`, and a truthy non-string throws. Otherwise the result is the resolved non-empty destination, never the source path. It is compiled next exactly when it ends in `.scss` or `.sass`, and rendered to otherwise. |
| `Compiler.LookupExtends` | extension.js:59-100 | A lookup only refreshes timestamps and appends entries of its own workspace. |
| `Compiler.RunChainExtends` | extension.js:218-221 | A chain of compiles loses and alters nothing cached except timestamps. |
| `Compiler.RunChain` | extension.js:200-222 | The chain as written never reports a cycle. A render is of a document that `compile` decides to render. With fuel left, a first step that renders gives that render of the starting document and its text, a stop gives `Stopped`, a throw gives `Threw`, and none of them touches the cache. |
| `Compiler.Compile` | extension.js:200-222 | A render is of a document whose own directive points at a destination other than itself, and that destination is not a Sass document. The chain preserves the cache as above. With fuel left, a document whose `out` is not a Sass document is rendered to it directly, one with no usable `out` stops, one with a truthy non-string `out` throws, and none of them touches the cache. |
| `Compiler.RunGuarded` | extension.js:200-222 | The guarded chain never runs out of fuel. A render is as `compile` decides, of the starting document or of one not yet visited. A first step that renders gives that render of the starting document, a stop gives `Stopped`, a throw gives `Threw`, and none of them touches the cache. |
| `Compiler.RunGuardedExtends` | extension.js:218-221 | The guarded chain, too, loses and alters nothing cached. |
| `Compiler.CompileChecked` | extension.js:200-222 | The corrected chain always ends, with no fuel, and renders only as `compile` decides. It preserves the cache. A document whose `out` is not a Sass document is rendered to it directly, and a stop or a throw ends the chain as such; none of them touches the cache. |
| `CompileFacts.FuelMonotone` | extension.js:218-221 | A chain that ends within some number of steps ends the same way, with the same cache, given more. |
| `CompileFacts.ChainThenRender` | extension.js:216-221 | When a document chains to a second document that renders, the render is of the second document's fetched text, to its destination. |
| `CompileFacts.CycleNeverEnds` | extension.js:218-221 | As written, two documents whose `out` point at each other recurse without bound: no amount of fuel reaches an end. |
| `CompileFacts.CycleStep` | extension.js:218-221 | On a two-document cycle, a chain with no fuel has not ended, and one step passes to the other document, with the pair still a cycle over the new cache. |
| `CompileFacts.GuardStopsCycle` | extension.js:218-221 | With the guard, the same two documents stop on the second step with `CycleDetected`. |
| `CycleExample.OutDocChains` | extension.js:202-221 | A document at `/x` whose first line is `// out: y`, for a Sass name `y`, makes `compile` fetch and compile `/y`. |
| `CycleExample.MutualOutNeverEnds` | extension.js:218-221 | As written, two such documents naming each other recurse without bound from an empty cache. |
| `CycleExample.MutualOutDetected` | extension.js:218-221 | With the guard, the same two documents stop with `CycleDetected`. |
| `CycleExample.ABCycle` | extension.js:200-222 | `/a.scss` reading `// out: b.scss` and `/b.scss` reading `// out: a.scss` exhaust every fuel bound as written, and end with `CycleDetected` when guarded. |
| `CompileFacts.GuardAgrees` | extension.js:218-221 | The guard changes nothing but cycles. A guarded chain that reports no cycle equals the unguarded chain run with enough fuel. |

## Left out

- The transport is not modelled: the socket, notifications, the Sass worker
  and the editor session (extension.js:41-52, 77-98, 224-243). A workspace
  reply is an input `Fetch`.
- The save handler that calls `compile` (extension.js:44-51) is not
  modelled. `Compile` starts from a path and a document.
- The save handler's write of the saved text into the entry that
  `cacheExists` returns (extension.js:46-48) is not modelled. The source
  returns the cached object itself, so the write updates the cache in
  place; `Cache.CacheExists` returns an entry value, and nothing writes
  through it.
- The custom importer (extension.js:21-39) and `render` itself are not
  modelled. A render is an outcome naming the document and its destination.
- `setTimeout` and the repeating schedule of `checkCache` are not modelled.
  `Sweep` is one run of its filter at a given clock reading.
- The clock is a parameter. A whole chain of compiles uses one reading
  `now`, and a fetch completes at its own `at`.
- Concurrency is not modelled: replies that interleave, and two fetches of
  the same document in flight at once. Each lookup completes before the
  next begins.
- What the workspace replies for a document it does not hold lies outside
  extension.js. The model assumes no reply comes and ends the chain with
  `Unanswered`.
- `eval` is modelled only on the literals the pattern admits. Digit runs
  are read as decimal, so legacy octal (`010`) is not modelled. The float
  precision of very large numbers is not modelled either.
- Keys such as `__proto__` that a plain JavaScript object treats specially
  are not modelled. Options are a map from strings to values.
- A non-string `out` can only be one of the coerced literals. A truthy one
  makes `out.substr` fail, which the model records as `Throw`.
- Strings are sequences of characters. JavaScript's UTF-16 code units are
  not modelled separately; every character the code matches lies in the
  Basic Multilingual Plane.
- `Compile`: the chain as written has no termination argument, so it takes
  a fuel bound. `OutOfFuel` only says that the chain had not ended within
  that many steps.
- The JavaScript engine's call-stack limit is not modelled. Once both
  documents of a cycle are cached, each `compile` calls the next
  synchronously, so the source ends in a stack overflow (`RangeError`);
  `OutOfFuel` stands for that end.
- `Compiler.RunChainExtends`: the appended entries are stated to belong to
  the chain's workspace, not to be Sass documents.

Three behaviours a reader might not expect follow the code as it is:

- `parsePath("a.scss", "a.scss", false)` gives `/a.scss`, not `false`.
  The directory part of a slash-free path is empty, and a slash is added
  in front of `out` (`PathExamples.ResolveBareSource`).
- A `..` with nothing before it is dropped silently. The source writes to
  index -1, which no array element has (`PathExamples.UnmatchedParentDropped`).
- A reply that is not a stream is cached and handed over as the empty
  string, because the reply's own data is never read (extension.js:94-97).

## Findings

| source | as written | input that shows it | evidently intended | confidence | as-written member | corrected member |
|---|---|---|---|---|---|---|
| extension.js:218-221 | A chained destination that is a Sass document is fetched and compiled with no record of the documents already in the chain. | `/a.scss` whose first line is `// out: b.scss`, and `/b.scss` whose first line is `// out: a.scss`, in one workspace. | A chain that returns to a document it has already compiled stops, instead of recursing without bound until the call stack overflows. | not executed | `CycleExample.ABCycle` | `Compiler.CompileChecked` |

`CompileFacts.CycleNeverEnds` proves that every fuel bound runs out on any
pair of documents that chain to each other, for the chain as written.
`CycleExample.ABCycle` applies it to the two documents in the table. `Compiler.CompileChecked`
keeps the set of visited documents and needs no fuel. It ends on every
input. `CompileFacts.GuardStopsCycle` shows it stopping this pair with
`CycleDetected`, and `CompileFacts.GuardAgrees` shows that it agrees with
the unguarded chain on every chain that has no cycle.
