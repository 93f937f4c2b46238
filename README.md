# LL(1) parsing-table generator, modelled in Dafny

The program reads a context-free grammar, one rule per line, into a global
array. Each symbol is one character:

- an upper-case letter is a nonterminal;
- `~` is the empty string;
- every other character is a terminal.

The program then runs these passes in order:

1. Left factoring. It repeatedly finds the first pair of alternatives
   that can be factored: two alternatives of one nonterminal that share a
   non-empty prefix, in a row whose fresh name `'X' + row` is an unused
   upper-case letter. Pairs in other rows are skipped and the scan goes
   on. The two suffixes move under the fresh nonterminal.
2. Removal of immediate left recursion. Every row, including rows the pass
   appends, is visited once. A recursive row `A` is split into `A` and a
   tail nonterminal named `'Z' - row`.
3. FIRST sets. `computeFirst` recurses through the grammar itself.
4. FOLLOW sets. The pass iterates to a fixpoint.
5. The predictive table. Its columns are the terminals in order of first
   use, then `$`, unless a production already uses it. Cells are written
   without any conflict check.

The model keeps the program's own representation. Symbols are `char`s and
productions are strings. Sets are strings with insertion order and no
repeats.

Each pass is modelled twice:

- a pure specification function over values (`LeftFactored`,
  `LeftRecursionRemoved`, `FirstSetsAfter`, `FollowSetsAfter`,
  `BuildTable`);
- an imperative method of class `Pipeline.Workspace`, whose fields are the
  program's global arrays. Its loops follow the source's loops, and each
  method is proved to leave exactly the state the specification function
  gives.

The lemmas state what the passes promise:

- the factoring scan finds the first factorable pair, and factoring ends
  with none left;
- left recursion leaves the visited row without a production that starts
  with its head, unless the tail name equals the head, or the head is `E`
  and has no beta (then the row is `EPSILON` followed by the tail name);
- FIRST of a production is what the textbook definition gives;
- at the FOLLOW fixpoint both FOLLOW rules hold;
- each table cell holds the *last* production of its row that claims the
  cell by the LL(1) rule.

The model follows the code, including these behaviours of the code:

- The factoring and recursion passes write an empty alternative as the
  literal `EPSILON`. To every later pass that is seven nonterminals, not
  the empty string. Only `~` is the empty string.
- Fresh names can collide with existing heads. A factoring whose name is
  taken, or whose name is not an upper-case letter, is skipped. Only rows 0–2 can
  ever be factored. A left-recursion tail whose name is taken overwrites
  the productions of the row that has that name.
- `containsSymbol(s, '\0')` is true, because `strchr` finds the
  terminator. `getTerminalIndex('\0')` is the length of the terminal list.
- `computeFirst` has no memo and no visited set. It does not return on
  input where a nonterminal derives itself through leading nullable
  symbols, such as a production that starts with its own head. A cycle
  that passes a terminal first, such as `A -> aB`, `B -> bA`, is harmless.
  The model bounds nested expansions by `fuel` and reports running out
  instead: running out means only that `fuel` was too small, and the
  source diverges exactly when it runs out for every `fuel`.

Modules, one per file:

- `Symbols` (symbols.dfy): how characters are classified.
- `CharSets` (char_sets.dfy): `addToSet`, `containsSymbol` and `strchr`
  on set-strings.
- `Grammars` (grammar.dfy): rules, the sets table and the lookups.
- `LeftFactoring` (left_factoring.dfy)
- `LeftRecursion` (left_recursion.dfy)
- `FirstSets` (first_sets.dfy)
- `FollowSets` (follow_sets.dfy)
- `LL1Tables` (ll1_table.dfy)
- `Pipeline` (workspace.dfy): the class `Workspace` and the loop-level
  methods.

## Model

| member | source | states |
|---|---|---|
| Symbols.Classify | main.c:110-116 | a character is a nonterminal iff it is in 'A'..'Z', a terminal iff it is none of an upper-case letter, '~' and '\0'; exactly one class applies |
| Symbols.EpsilonWordIsNonTerminals | main.c:198-199 | the literal "EPSILON" the rewrites insert is seven nonterminals and never the epsilon symbol '~'; '$' is an ordinary terminal |
| CharSets.Strchr | main.c:106-108 | offset of the first `c` in the buffer, -1 when absent; searching for '\0' finds the terminator just past the end |
| CharSets.ContainsSymbolIsStrchr | main.c:106-108 | `containsSymbol` is true exactly when strchr finds the character, so it is true for '\0' |
| CharSets.AddToSet | main.c:98-104 | afterwards the buffer contains `c`; it grew by one exactly when `c` was not contained; the old contents are kept as a prefix; members are the old ones plus `c` unless `c` is '\0' |
| CharSets.AddAll | main.c:313-317 | a run of `addToSet` keeps the old buffer as a prefix and its members are the old ones plus the non-'\0' characters added |
| CharSets.AddToSetKeepsSet | main.c:98-104 | `addToSet` never stores a character twice |
| CharSets.AddAllKeepsSet | main.c:313-317 | a run of `addToSet` calls never stores a character twice |
| CharSets.AddAllIdempotent | main.c:98-104 | adding the same characters a second time changes nothing |
| CharSets.AddAllDedup | main.c:370-380 | copying the non-'~' members of a de-duplicated scratch buffer adds the same characters in the same order as copying the ones computed |
| Grammars.FindNonTermIndex | main.c:81-88 | the first row whose head is `c`, and -1 exactly when no row has that head |
| Grammars.FindSetsIndex | main.c:343-348 | the first sets-table row for `c`, and -1 exactly when there is none |
| Grammars.AlignedLookup | main.c:90-96 | when the sets table rows match the grammar rows, the sets-table lookup and `findNonTermIndex` agree |
| Pipeline.Workspace.constructor | main.c:24-26 | the state once the grammar is read: the grammar, with the sets table, terminals and table empty |
| Pipeline.Workspace.InitSetsTable | main.c:90-96 | one sets-table row per grammar row, with the row's head and empty FIRST and FOLLOW; nothing else changes |
| LeftFactoring.CommonPrefix | main.c:166-173 | the result is a prefix of both strings, and stops where they differ or one ends |
| LeftFactoring.CommonPrefixIsLongest | main.c:166-173 | every common prefix of the two strings is a prefix of CommonPrefix |
| Pipeline.CommonPrefixOf | main.c:166-173 | the copying loop computes CommonPrefix |
| LeftFactoring.OnlyFirstRowsFactor | main.c:186-187 | with at most MAX_NONTERMS rows, a factoring is possible only in rows 0, 1 and 2 |
| LeftFactoring.ScanFromSound | main.c:179-187 | what the scan finds from a position is a factorable pair, not earlier than that position |
| LeftFactoring.ScanFromComplete | main.c:179-187 | the scan misses no factorable pair at or after its starting position |
| LeftFactoring.FirstFactorSite | main.c:179-187 | the scan finds a factorable pair with no factorable pair before it in loop order, and finds none exactly when none exists |
| LeftFactoring.FactorStep | main.c:186-209 | one row is added, named `'X'+i`, with the two leftovers ("EPSILON" when empty), each of which gives back its original production after the prefix; production p1 becomes the prefix plus the new name; p2 is removed and the later productions shift down; other rows are unchanged |
| LeftFactoring.FactorStepHeads | main.c:186-190 | a factoring adds exactly the new name to the heads and keeps the heads distinct |
| LeftFactoring.FactorStepBytes | main.c:192-204 | a factoring writes only characters of the grammar and "EPSILON" |
| LeftFactoring.FactorStepUsesLetter | main.c:186-188 | every factoring uses up one unused upper-case letter, so the loop ends |
| LeftFactoring.LeftFactored | main.c:175-220 | the result has no factorable pair; it has at most one new row per free letter; old heads keep their rows; distinct heads and byte contents are preserved |
| LeftFactoring.LeftFactoredIdempotent | main.c:175-220 | factoring an already factored grammar changes nothing |
| Pipeline.Workspace.LeftFactorGrammar | main.c:175-220 | the grammar becomes LeftFactored of the old grammar; nothing else changes |
| Pipeline.Workspace.FactorAt | main.c:186-209 | one factoring, in place, including the shift-down loop, leaves FactorStep of the old grammar |
| Pipeline.FindFactorSite | main.c:179-217 | the three nested loops find the pair the scan specification finds |
| Pipeline.ScanPartners | main.c:181-215 | the innermost loop finds the first factorable partner of production p1, or hands the scan on to p1 + 1 |
| LeftRecursion.PartitionKeepsOrder | main.c:232-240 | the alpha and beta lists keep the order of the productions |
| LeftRecursion.PartitionSizes | main.c:232-240 | every production lands in exactly one of the two lists |
| LeftRecursion.NoAlphas | main.c:232-242 | a row has no alpha exactly when none of its productions starts with its head |
| LeftRecursion.EliminateAt | main.c:224-273 | a row without an alpha is unchanged; otherwise the tail row is reused or appended, and it gets the alphas followed by the tail name, then "EPSILON"; the row gets the betas followed by the tail name ("EPSILON" plus the name when there is no beta), unless the two rows are the same row; no other row changes |
| LeftRecursion.EliminateAtHeads | main.c:246-251 | a visit adds at most the tail name to the heads, only when it appends a row, and keeps the heads distinct |
| LeftRecursion.EliminateAtBytes | main.c:253-272 | a visit writes only characters of the row, the tail name and "EPSILON" |
| LeftRecursion.NoResidualLeftRecursion | main.c:253-264 | when the tail name differs from the head, no production of the visited row starts with its head, except the "EPSILON"+tail row of a head 'E' with no beta |
| LeftRecursion.EliminateAtMeasure | main.c:246-251 | a visit either keeps the row count and free names, or appends one row and uses up a free name |
| LeftRecursion.EliminateFrom | main.c:223-274 | the pass from row i keeps old heads in place and keeps distinct heads and byte contents |
| LeftRecursion.LeftRecursionRemoved | main.c:222-275 | the whole pass never removes rows, keeps old heads in their rows, and keeps distinct heads and byte contents |
| LeftRecursion.NonRecursiveUnchanged | main.c:232-242 | a grammar where no production starts with its own head passes through unchanged |
| Pipeline.Workspace.RemoveLeftRecursion | main.c:222-275 | the loop, which also visits the rows it appends, leaves LeftRecursionRemoved of the old grammar; nothing else changes |
| Pipeline.Workspace.EliminateRow | main.c:224-273 | one visit in place leaves EliminateAt of the old grammar |
| Pipeline.WithTail | main.c:254-258 | the `b` and `a` loops append the tail name to each list entry |
| FirstSets.FirstInto | main.c:296-330 | `computeFirst` only appends to `result`, and it returns exactly when the expansion fits in `fuel` |
| FirstSets.FirstIntoCases | main.c:296-303 | a terminal or '~' adds itself; a character without a row adds nothing; a nonterminal with a row adds what its productions give |
| FirstSets.FirstOfSymbol | main.c:297-303 | FIRST of a terminal or '~' is itself; FIRST of an undefined nonterminal is empty |
| FirstSets.TerminatesEverywhere | main.c:296-330 | when `computeFirst` returns for every head, it returns for every character |
| FirstSets.ProductionsStall | main.c:305-328 | when the walk over one production runs out of fuel, so does the loop over the row's productions |
| FirstSets.SelfLeadingNeverEnds | main.c:302-311 | a nonterminal with a row holding a production that starts with that nonterminal gets no FIRST for any `fuel`, so the first pass never ends |
| FirstSets.WalkReachesEnd | main.c:308-328 | a production's walk yields '~' exactly when every symbol of it has '~' in its FIRST |
| FirstSets.WalkCollects | main.c:308-324 | a non-'~' character is in the walk exactly when some symbol has it in its FIRST and every earlier symbol has '~' in its FIRST |
| FirstSets.ProductionsCollect | main.c:305-329 | FIRST of a nonterminal is the union of what the walks over its productions yield |
| FirstSets.FirstOfRule | main.c:305-329 | the FIRST of a row's head holds exactly the members of FIRST of its productions |
| FirstSets.EmittedKinds | main.c:296-330 | FIRST sets hold only terminals and '~', and only bytes in a byte grammar |
| FirstSets.EmittedFuelMonotone | main.c:296-330 | once `computeFirst` returns within some bound, a larger bound gives the same answer |
| FirstSets.FirstOfProduction | main.c:460-481 | `firstP` holds only terminals and '~' |
| FirstSets.FirstSetsAfter | main.c:279-294 | after `computeFirstSets` each row's FIRST buffer is its old one with its head's FIRST added; nonterminals and FOLLOW are unchanged |
| FirstSets.FirstSetsStable | main.c:279-294 | a second round changes nothing, so the `while(!done)` loop ends after two rounds |
| Pipeline.ComputeFirst | main.c:296-330 | the recursive procedure leaves FirstInto, or None when out of fuel |
| Pipeline.ExpandProductions | main.c:305-329 | the production loop adds what the productions give |
| Pipeline.WalkProduction | main.c:308-328 | the walk with its scratch buffer adds what the walk gives, then '~' when it reaches the end |
| Pipeline.AddNonEpsilon | main.c:313-317 | the copy loop adds the non-'~' characters, and reports growth exactly when the buffer changed |
| Pipeline.Workspace.ComputeFirstSets | main.c:279-294 | the sets become FirstSetsAfter of the old ones exactly when every head's FIRST fits in `fuel`; the grammar is unchanged |
| Pipeline.Workspace.FirstRound | main.c:283-292 | one round fills every FIRST buffer, and `changed` is true exactly when some buffer differs |
| FollowSets.Beta | main.c:366-397 | the `q` loop only appends to the FOLLOW buffers |
| FollowSets.BetaScratchStep | main.c:370-386 | one pass through `computeFirst`'s scratch buffer is the specified step of the `q` loop |
| FollowSets.BetaClean | main.c:366-397 | FOLLOW buffers stay duplicate-free and hold only bytes other than '~' and '\0' |
| FollowSets.BetaSettled | main.c:366-397 | a `q` loop that adds nothing finds already present every FIRST character it reaches and, past the end, FOLLOW of the head |
| FollowSets.Occurrence | main.c:355-398 | one position only appends to buffers; a symbol that is not an upper-case letter with a row is skipped |
| FollowSets.Round | main.c:339-401 | a round only appends to FOLLOW buffers |
| FollowSets.RowsClean | main.c:339-401 | a round keeps every FOLLOW buffer a set of bytes other than '~' and '\0' |
| FollowSets.TotalFollowBounded | main.c:332-403 | clean buffers hold at most one copy of each byte, which bounds how far the loop can run |
| FollowSets.FollowStart | main.c:333-335 | '$' is added to FOLLOW of row 0 when the grammar is not empty |
| FollowSets.FollowFixpoint | main.c:337-402 | the `while(changed)` loop ends in a column that one more round leaves unchanged, grown from the start and still clean |
| FollowSets.FollowSetsAfter | main.c:332-403 | FOLLOW buffers only grow and stay clean; FOLLOW of the start symbol has '$'; the final column is a fixpoint of a round; nonterminals and FIRST are untouched |
| FollowSets.RoundFixedAt | main.c:339-401 | at a fixpoint, no single occurrence changes anything |
| FollowSets.FollowRules | main.c:354-397 | at the fixpoint, for B at a position of a production of A: FIRST of each later symbol reached through nullable symbols (without '~') is in FOLLOW(B), and FOLLOW(A) is in FOLLOW(B) when all later symbols are nullable |
| Pipeline.FollowRound | main.c:339-401 | one round leaves Round of the column, and `changed` is false only when nothing changed |
| Pipeline.FollowRow | main.c:350-400 | the `p` loop over one row does the specified sweep and reports growth |
| Pipeline.FollowProduction | main.c:354-399 | the `pos` loop over one production does the specified sweep and reports growth |
| Pipeline.FollowOccurrence | main.c:355-398 | one position does the specified step, and reports growth exactly when the column changed |
| Pipeline.FollowBeta | main.c:366-397 | the `q` loop and the `allEpsilon` copy change only FOLLOW(B), as specified |
| Pipeline.BetaPass | main.c:370-386 | one pass adds FIRST of the symbol without '~' to FOLLOW(B) and goes on exactly when that FIRST has '~' |
| Pipeline.AddMembers | main.c:390-396 | copying FOLLOW(A) into FOLLOW(B) adds its members in order and reports growth exactly when the buffer changed |
| Pipeline.Workspace.ComputeFollowSets | main.c:332-403 | the sets table becomes FollowSetsAfter of the old one; the grammar is unchanged |
| LL1Tables.ScanRowsMembers | main.c:412-427 | the gathered list holds exactly the terminals used by some production |
| LL1Tables.TerminalsFacts | main.c:408-435 | the columns are the used terminals plus '$', each once, with no '~' or '\0', and '$' last when no production uses it |
| LL1Tables.ScanRowsFlat | main.c:412-426 | the three nested loops add the same terminals as one pass over every symbol, row by row, production by production, position by position |
| LL1Tables.ScanRowsOrder | main.c:412-426 | the gathered terminals stand in the order of their first use in that pass |
| LL1Tables.TerminalsOrder | main.c:408-435 | of two used terminals, the one the productions use first (by row, then production, then position) has the smaller column |
| LL1Tables.TerminalIndex | main.c:437-441 | the column of `c`, or -1 exactly when `c` is not '\0' and not listed |
| Pipeline.GetTerminalIndex | main.c:437-441 | the strchr search returns TerminalIndex |
| Pipeline.Workspace.GatherTerminals | main.c:408-435 | the terminal list becomes Terminals of the grammar; nothing else changes |
| Pipeline.GatherRow | main.c:413-426 | the `j` loop gathers the terminals of one row's productions |
| Pipeline.GatherProduction | main.c:415-425 | the `k` loop gathers the new terminals of one production in order |
| LL1Tables.ProductionStringInjective | main.c:483-484 | the text written into a cell determines the head and the production |
| LL1Tables.WriteCellsAt | main.c:486-494 | with each terminal in one column, a cell is written exactly when its terminal is in the list |
| LL1Tables.ProductionCellsAt | main.c:457-511 | a production writes exactly the cells it claims by the LL(1) rule |
| LL1Tables.RowCellsAt | main.c:456-512 | after a row's productions, each cell holds the last one that claims it |
| LL1Tables.TableCell | main.c:443-514 | each cell of the built table is empty when no production of its row claims it, and otherwise holds the last production that does; earlier claimants are overwritten without a conflict report |
| LL1Tables.ClaimsMeaning | main.c:460-511 | a production claims column `a` exactly when `a` is reached in the FIRST of its symbols through nullable ones, or all its symbols are nullable and `a` is in FOLLOW of the head |
| Pipeline.ProductionFirst | main.c:460-481 | the `firstP` block computes FirstOfProduction |
| Pipeline.FillRow | main.c:456-512 | the `p` loop fills a row as specified |
| Pipeline.ProductionIntoRow | main.c:457-511 | one production's writes into its row, through FIRST and, when `firstP` has '~', FOLLOW |
| Pipeline.WriteFirstColumns | main.c:486-494 | the production is written into the column of each non-'~' member of `firstP` that has one |
| Pipeline.WriteColumns | main.c:505-510 | the production is written into the column of each member of FOLLOW that has one |
| Pipeline.Workspace.BuildLL1Table | main.c:443-514 | the terminals become Terminals of the grammar and the table becomes BuildTable; the grammar and sets are unchanged |
| Pipeline.Workspace.Generate | main.c:58-76 | the passes in `main`'s order: the grammar is factored and then rid of left recursion; when FIRST terminates, the sets are FOLLOW over FIRST over fresh sets, and the terminals and table are built from them |

## Left out

- Reading the grammar file (`readGrammarFromFile`) is not modelled. Nor are
  the printing procedures (`displayGrammar`, `displaySets`,
  `displayLL1Table`) or the file handling in `main`. The model starts from
  a `Grammar` value and ends with the state the program would print.
- The fixed capacities (`MAX_NONTERMS`, `MAX_PRODS`, `MAX_SYMBOLS`,
  `MAX_CHAR`) and the buffer overflows past them are not modelled.
  Strings and tables are unbounded sequences. `MaxNonTerms` appears only
  in the lemma about which rows can be factored.
- C's `char` is modelled as a `char` below 256 (`IsByte`). The fresh names
  `'X' + i` and `'Z' - i` are computed modulo 256. Whether `char` is
  signed is not modelled.
- Pipeline.Workspace.ComputeFirstSets: the model stops after `fuel` nested
  expansions and returns `ok == false`. That is the source's divergence
  only when it happens for every `fuel`; the model proves this for a row
  with a production that starts with its own head
  (FirstSets.SelfLeadingNeverEnds), not for longer cycles through
  nullable symbols.
- Pipeline.Workspace.ComputeFollowSets requires `AllTerminate(grammar,
  fuel)`. `Generate` calls it only after `ComputeFirstSets` returned ok,
  which implies it (`FirstSets.TerminatesEverywhere`), so the requirement
  excludes nothing the source reaches.
- Pipeline.Workspace.BuildLL1Table requires `AllTerminate(grammar, fuel)`
  as well. `Generate` calls it only after `ComputeFirstSets` returned ok,
  which implies it (`FirstSets.TerminatesEverywhere`), so the requirement
  excludes nothing the source reaches.
- Pipeline.Workspace.ComputeFollowSets works on the FOLLOW column as a
  sequence of buffers and writes it back at the end. The source writes
  into `setsTable` in place. No other column is written, so the final
  state is the same.
- FOLLOW rows are found with the grammar lookup. The sets-table lookup is
  proved to agree with it whenever the two tables are aligned
  (`Grammars.AlignedLookup`).
- Pipeline.Workspace.BuildLL1Table models the table as one row per grammar
  row and one column per gathered terminal. Two behaviours fall outside
  that shape and are not modelled:
  - the clearing of the whole `MAX_NONTERMS` × `MAX_SYMBOLS` array;
  - a write into column `terminalCount`. It would happen only if a '\0'
    reached `getTerminalIndex`, and FIRST and FOLLOW buffers never hold
    '\0'.
- `leftFactorGrammar` jumps out of its three loops with `goto` after
  factoring. The model scans for the first site (`FindFactorSite`) and
  then factors it (`FactorAt`). These are the same steps in the same
  order.
- A production that starts with a head equal to '\0' is not modelled.
  C compares the terminator of an empty production with the head.
  Heads are never '\0' in a grammar read from a file, and the model
  requires a non-empty production to start with the head.
- The recursion in `computeFirst` uses stack-allocated scratch buffers.
  The model computes the same characters in the same order
  (`CharSets.AddAllDedup`), but not the buffers' stack lifetime.
