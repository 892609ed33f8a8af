# Detective Quest, modelled in Dafny

A model of the text-adventure demo in `algoritmos_avancados.c`. The player walks a
fixed binary tree of rooms (the mansion). Clues found on the way go into a binary
search tree ordered by `strcmp`. A chained hash table of 13 buckets maps each clue to a
suspect. At the end, an in-order walk of the clue tree counts one mention per clue for
the suspect it maps to, and a strictly-greater running maximum names the most cited
suspect.

Modules, one per component of the program:

- `Wrappers`: `Option`, for the C code's NULL results.
- `Text`: `Compare`, the sign of `strcmp`, with the facts that make it a strict total order.
- `ClueTree`: the clue search tree (`NoPista`). Covers `inserirPista` as a recursive
  function on a datatype, and `mostrarPistasEmOrdem` as the in-order sequence.
- `SuspectTable`: the hash and the table. The table's contents are a value
  (13 chains, each head first), with `Get` and `Put` specifying `buscarNaHash` and
  `inserirNaHash`. The class `HashTable` holds the chains in an array. Its methods are
  the C loops (`hash`, `inicializarTabelaHash`, `inserirNaHash`, `buscarNaHash`,
  `liberarMemoriaHash`), proved against `Get` and `Put`.
- `Analysis`: `contarSuspeitos` as a recursive method that adds to the counter array
  in place, and `analisarSuspeitos` with its argmax loop. Both are proved against the
  specification functions `Occurrences`, `Tallies` and `FirstMax`.
- `Mansion`: the map and `explorarSalas`. Rooms sit in an arena: a room's exits are
  indices of other rooms. The per-room "clue collected" flags are an array that the walk
  updates in place. The console input becomes a sequence of command characters, and
  `Walk` is the command-driven transition function that `Manor.Explore` is proved against.
- `Game`: `main`'s wiring (the seed pairs, the start state), the session as a whole, and
  the concrete scenarios.

Text is Dafny `string`. Each character stands for one byte of the C string, so its code
is in 0..255. `Compare` orders strings by character code, with a proper prefix first.
That is `strcmp` on unsigned chars.

The hash follows the code, not the plain formula `(Σ c_i·31^(n-1-i)) mod 13`. The
accumulator is an `unsigned int`, so every step wraps modulo 2^32 before the final `% 13`.
`AccumulatorIsPolynomial` shows that the wrapped fold equals the unbounded polynomial
reduced modulo 2^32.

## Model

| member | source | states |
|---|---|---|
| `Text.Compare` | algoritmos_avancados.c:214 | strcmp's sign is Equal exactly when the two texts are equal |
| `Text.CompareFlip` | algoritmos_avancados.c:214-216 | a < b under strcmp exactly when b > a, so the two descents in inserirPista are mirror images |
| `Text.PrecedesAsymmetric` | algoritmos_avancados.c:214-216 | a < b and b < a never hold together |
| `Text.PrecedesTotal` | algoritmos_avancados.c:214-216 | any two texts compare as less, equal or greater: the three branches of inserirPista cover every case |
| `Text.PrecedesTransitive` | algoritmos_avancados.c:214-216 | the strcmp order is transitive |
| `ClueTree.Insert` | algoritmos_avancados.c:204-218 | after inserting, the tree's clue set is the old set plus the new clue, and a search tree stays a search tree |
| `ClueTree.InsertPresent` | algoritmos_avancados.c:214-217 | inserting a clue already in a search tree returns the tree unchanged (equal key dropped) |
| `ClueTree.InsertSize` | algoritmos_avancados.c:204-217 | insertion adds one node for a new clue and none for a known one |
| `ClueTree.InsertTwice` | algoritmos_avancados.c:214-217 | inserting the same clue twice is the same as inserting it once, and the node count does not change |
| `ClueTree.InOrder` | algoritmos_avancados.c:220-225 | the listing left-node-right: `InOrderContents` shows it lists exactly the tree's clues, one per node, and `InOrderAscending` that a search tree lists them in strcmp order |
| `ClueTree.InOrderContents` | algoritmos_avancados.c:220-225 | the in-order listing has one entry per node and lists exactly the tree's clues |
| `ClueTree.InOrderAscending` | algoritmos_avancados.c:220-225 | in a search tree the in-order listing is strictly ascending under strcmp, so it has no duplicates |
| `ClueTree.AscendingInOrderIsBst` | algoritmos_avancados.c:220-225 | conversely, a tree whose in-order listing ascends is a search tree |
| `ClueTree.Build` | algoritmos_avancados.c:204-218 | any sequence of insertions into the empty tree yields a search tree holding exactly the inserted clues |
| `ClueTree.BuildListsSorted` | algoritmos_avancados.c:204-225 | whatever the insertion order, the in-order listing is strictly ascending and lists exactly the inserted clues |
| `SuspectTable.Accumulator` | algoritmos_avancados.c:237-240 | the accumulator after the loop fits in 32 unsigned bits |
| `SuspectTable.HashOf` | algoritmos_avancados.c:236-242 | the bucket index is in [0, 13) |
| `SuspectTable.AccumulatorIsPolynomial` | algoritmos_avancados.c:236-242 | the wrapped fold acc*31+c equals the base-31 polynomial of the key reduced modulo 2^32 |
| `SuspectTable.Find` | algoritmos_avancados.c:275-282 | the chain scan finds nothing exactly when no entry has the clue, and otherwise returns the suspect of an entry with that clue |
| `SuspectTable.Position` | algoritmos_avancados.c:254-262 | the insert scan stops at the first entry with the clue, or reports that there is none |
| `SuspectTable.EmptyTable` | algoritmos_avancados.c:244-248 | the table with all 13 buckets NULL satisfies the table invariant |
| `SuspectTable.Get` | algoritmos_avancados.c:273-283 | a found suspect is paired with the clue in the clue's bucket; in a well-formed table the lookup finds nothing exactly when no bucket holds the clue, so scanning one chain suffices |
| `SuspectTable.Put` | algoritmos_avancados.c:250-271 | insertion changes no bucket other than hash(clue) |
| `SuspectTable.GetEmpty` | algoritmos_avancados.c:273-283 | in the empty table every lookup is not-found, and there are no entries |
| `SuspectTable.GetPutSame` | algoritmos_avancados.c:250-283 | after inserting (clue, suspect), looking up the clue returns that suspect |
| `SuspectTable.GetPutOther` | algoritmos_avancados.c:250-283 | inserting one clue leaves the lookup of every other clue unchanged |
| `SuspectTable.PutWellFormed` | algoritmos_avancados.c:253-270 | insertion keeps every entry in bucket hash(clue) and the clues of each chain unique |
| `SuspectTable.PutTotal` | algoritmos_avancados.c:253-270 | overwriting a known clue keeps the total entry count, and a new clue raises it by exactly one |
| `SuspectTable.Seed` | algoritmos_avancados.c:83-88 | a table built by successive insertions satisfies the table invariant |
| `SuspectTable.LastPairedNone` | algoritmos_avancados.c:250-283 | a clue has no last pairing exactly when no inserted pair names it, so with `SeedGet` a clue never inserted is not found |
| `SuspectTable.SeedGet` | algoritmos_avancados.c:250-283 | after any sequence of insertions, lookup returns the suspect inserted last for the clue, and not-found for a clue never inserted |
| `SuspectTable.HashTable.constructor` | algoritmos_avancados.c:244-248 | a fresh table has all 13 buckets empty |
| `SuspectTable.HashTable.Hash` | algoritmos_avancados.c:236-242 | the loop computes the bucket index HashOf(key) |
| `SuspectTable.HashTable.Insert` | algoritmos_avancados.c:250-271 | the chain scan and in-place overwrite or head insertion leave the buckets equal to Put of the old buckets, and keep the invariant |
| `SuspectTable.HashTable.Lookup` | algoritmos_avancados.c:273-283 | the scan returns Get of the buckets: the suspect, or None where the C returns NULL |
| `SuspectTable.HashTable.Release` | algoritmos_avancados.c:298-308 | afterwards every one of the 13 buckets is empty |
| `Analysis.IndexOf` | algoritmos_avancados.c:320-325 | the counting loop picks the first declared index holding the suspect's name, or none if the name is not declared |
| `Analysis.Mention` | algoritmos_avancados.c:318-325 | a clue counts for declared suspect i only when the table maps it to names[i]; it counts for none when the lookup fails or names an undeclared suspect |
| `Analysis.Occurrences` | algoritmos_avancados.c:316-328 | the counter of suspect i never exceeds the number of clues, and an index past the declared suspects is never counted |
| `Analysis.Tallies` | algoritmos_avancados.c:336-343 | there is one counter per declared suspect |
| `Analysis.FirstMax` | algoritmos_avancados.c:346-355 | the running strictly-greater maximum ends on an index whose counter is maximal and greater than every counter before it, so the first declared suspect wins ties |
| `Analysis.OccurrencesConcat` | algoritmos_avancados.c:316-328 | the counts of left subtree, node and right subtree add up |
| `Analysis.OccurrencesAreCitations` | algoritmos_avancados.c:313-329 | a suspect's counter is the number of clues the table maps to that suspect's name; a repeated declaration of a name is never counted |
| `Analysis.TalliesBounded` | algoritmos_avancados.c:313-329 | unmapped clues and undeclared suspects are skipped, so the counters sum to at most the number of clues |
| `Analysis.NoCluesVerdict` | algoritmos_avancados.c:338-357 | with no clue collected every counter is 0 and the first declared suspect is reported, with 0 mentions |
| `Analysis.CountSuspects` | algoritmos_avancados.c:313-329 | the in-order walk adds to each counter the number of clues of the tree that count for it |
| `Analysis.AnalyzeSuspects` | algoritmos_avancados.c:332-358 | the counters are the tallies of the in-order clues; the verdict is the first maximal counter and its suspect, or "Nenhum" and -1 with no declared suspect |
| `Mansion.CreateRoom` | algoritmos_avancados.c:125-133 | a new room has the given name and no exits |
| `Mansion.ClueOf` | algoritmos_avancados.c:143-161 | exactly the five named rooms hold a clue; the hall and the dining room hold none |
| `Mansion.FixedMap` | algoritmos_avancados.c:65-73 | main's seven-room map is well formed: every exit leads to an existing room further down |
| `Mansion.Collect` | algoritmos_avancados.c:142-163 | entering a room keeps the explorer in that room and within the map |
| `Mansion.Parse` | algoritmos_avancados.c:180-191 | each character is read as left, right, leave or unknown; `UnknownCommandIgnored` shows an unknown one changes nothing |
| `Mansion.Walk` | algoritmos_avancados.c:135-193 | the exploration always ends in an existing room with one flag per room |
| `Mansion.CollectIdempotent` | algoritmos_avancados.c:143-163 | entering the same room again inserts nothing and sets nothing |
| `Mansion.UnknownCommandIgnored` | algoritmos_avancados.c:189-191 | a command other than e/E/d/D/s/S leaves the outcome of the walk as if it had not been typed |
| `Mansion.MissingExitIgnored` | algoritmos_avancados.c:180-185 | a move towards a missing exit leaves the outcome of the walk as if it had not been typed |
| `Mansion.WalkReaches` | algoritmos_avancados.c:180-185 | moves only follow exits, so the room where the walk ends is reachable from its start through left and right exits |
| `Mansion.ReachesDescends` | algoritmos_avancados.c:65-73 | exits lead only further down the map, so a walk never returns to an ancestor |
| `Mansion.WalkHaltsAtLeaf` | algoritmos_avancados.c:166-169 | the walk stops with a dead end exactly when it ends in a room with no exits: every leaf halts it, and input running out or the player leaving happens only in rooms with an exit |
| `Mansion.WalkKeepsBst` | algoritmos_avancados.c:143-161 | exploring keeps the clue tree a search tree |
| `Mansion.CollectGains` | algoritmos_avancados.c:143-163 | entering a room sets at most its own flag, only if it holds a clue, and gains exactly that room's clue |
| `Mansion.WalkCollects` | algoritmos_avancados.c:135-193 | over a walk, flags are only ever set and only on clue rooms, and the clues gained are exactly those of the rooms whose flag was set, so each room's clue goes in at most once |
| `Mansion.Manor.constructor` | algoritmos_avancados.c:65-73 | the manor holds main's map with no room searched |
| `Mansion.Manor.Explore` | algoritmos_avancados.c:135-193 | the loop ends with the room, flags and clue tree that Walk gives for the same commands, and for the same reason |
| `Game.Start` | algoritmos_avancados.c:94-95 | exploration starts in the hall with nothing searched and no clue |
| `Game.LeftLeftReachesStudy` | algoritmos_avancados.c:143-169 | going left twice from the hall ends at the study (a dead end) with the library's and the study's clues; a mistyped command on the way changes nothing |
| `Game.SeedPairings` | algoritmos_avancados.c:83-88 | main's seed list pairs the torn note and the broken glass with the butler, and the golden key with the gardener |
| `Game.ThreeCluesInOrder` | algoritmos_avancados.c:204-225 | inserting the note, the glass and the key lists them in strcmp order |
| `Game.VerdictFromLookups` | algoritmos_avancados.c:313-357 | for any table that maps the three clues as main's seeds do, the tallies are 2, 1, 0 and the butler wins |
| `Game.SeededVerdict` | algoritmos_avancados.c:332-357 | with main's seeds and those three clues collected, the butler is cited twice, the gardener once, the lady of the house never, and the butler is most cited |
| `Game.Session` | algoritmos_avancados.c:63-121 | a session's clues are those of the walk from the hall and form a search tree; its tallies and verdict are those of the seeded table |

## Left out

- Console output: every `printf`, including `exibirTabelaHash` (lines 285-296), the in-order
  clue listing and the analysis report. These print values that the model returns instead.
- The `scanf(" %c")` read at line 178 becomes a sequence of command characters. The blank
  characters that `scanf` skips need not be removed from it: `Mansion.UnknownCommandIgnored`
  shows that any unrecognised character leaves the walk unchanged.
- `Mansion.Walk`: at end of input the model stops with `InputExhausted`. The C program's
  `scanf` would fail and the loop would go on reusing the last `escolha`, which is not
  modelled.
- Allocation failure followed by `exit(1)` (lines 127, 207, 266): an environment failure, not logic.
- `liberarMemoriaSalas` and `liberarMemoriaPistas` (lines 195-200, 227-232), and the `free`
  calls in `liberarMemoriaHash`. Memory is garbage-collected in Dafny. `Release` models only
  the buckets being reset to NULL, and the number of release operations is not counted.
- The fixed `char[50]`/`char[100]` buffers and any `strcpy` overflow. Texts are unbounded.
- Characters outside 0..255, and strings with an embedded NUL, have no C counterpart. The
  implementation-defined signedness of plain `char` in `hash` (line 239) is not modelled:
  characters are read as unsigned.
- Analysis.CountSuspects: the `int` counters are unbounded, with no overflow.
- Analysis.AnalyzeSuspects: it takes the suspect list as a parameter. The C hard-codes it at
  line 334, and `Analysis.Suspects` holds that list.
- Game.Session: the six `inserirNaHash` calls of lines 83-88 are a loop over the seed list,
  and main passes `Game.SeedPairs`.
- Pointers: clue nodes are datatype values rather than re-linked nodes, and rooms are arena
  indices rather than pointers. Aliasing between nodes is therefore not modelled.
