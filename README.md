# kmer-collapse in Dafny

kmer-collapse takes a set of DNA kmers. Every kmer has the same length k and uses only the bases
A, C, G and T. The program collapses the set into a shorter set of encodings over the IUPAC
degenerate alphabet. For example, `W` stands for A or T, so `WAAAAAAAAA` stands for both
`AAAAAAAAAA` and `TAAAAAAAAA`. It works in three passes over the input:

1. **Column encoder.** For every column it finds the degenerate symbols whose bases were all
   observed in that column. Each observed base gets a list of the symbols that may stand in for it.
   Each symbol appears once, and the base itself comes last.
2. **Candidate builder.** For every kmer it grows candidate encodings column by column. A candidate
   is kept only when every kmer it expands to is a prefix of some input kmer.
3. **Conflict resolver.** It walks the kmers in order and greedily picks candidates. The first
   candidate seen is always taken. After that, a candidate is taken only when none of its
   expansions has been claimed yet.

The project has five modules:

- `Substitutions` holds the forward table, the reverse table and their agreement. It includes the
  proof that the reverse table is a bijection between symbols and non-empty sets of bases.
- `Subsets` holds `powerset`.
- `EncodedCandidates` holds `expand_encoded_candidate`, `test_encoded_candidate` and `Expansion`,
  the set-valued meaning of a code that they are proved against.
- `Collapse` holds the three loops of `main`, each proved against a specification predicate.
- `Scenarios` is the two-kmer example from the commented-out inputs of `main`. On that input the
  model's output is exactly `WAAAAAAAAA`.

The end-to-end contract of `Collapse.Collapse` is:

- every chosen encoding has length k and expands only to input kmers;
- no kmer is claimed by two chosen encodings;
- for k ≥ 2, the expansions of the chosen encodings are exactly the input set;
- every chosen encoding is a candidate the builder kept, at most one per kmer row, and the first
  candidate of the first kmer is always chosen;
- the choice is the greedy one: row by row, the result is `ResolveRows`, which gives each row its
  `RowChoice` (the first candidate alone when nothing is chosen yet, otherwise every candidate of
  the row in order whose expansions are all still unclaimed).

Two behaviours are modelled as the code has them:

- A code of length one expands to no kmers at all. `expand_encoded_candidate` breaks out of its
  loop before it assigns a result. The consequence is that the output for k ≤ 1 is empty.
- `kmer_available` starts out holding the input kmers only. The model proves that no lookup can
  miss: every full-length candidate that survives pruning expands only to input kmers.

## Model

| member | source | states |
|---|---|---|
| Substitutions.PlainBase | kmer-collapse.py:61-65 | in `Reverse` (reverse_substitutions), each plain base A, C, G, T stands for itself only |
| Substitutions.RawForwardAgrees | kmer-collapse.py:37-76 | every `RawForward` key is exactly the reverse list of its degenerate symbol, has at least two distinct bases, and its symbol is not a plain base |
| Substitutions.DegenerateIsRaw | kmer-collapse.py:37-76 | every degenerate reverse symbol has a raw forward entry |
| Substitutions.SymbolOfMembers | kmer-collapse.py:57-77 | the symbol for a symbol's base set is that symbol |
| Substitutions.MembersOfSymbol | kmer-collapse.py:57-77 | every non-empty set of bases has a symbol whose base set is exactly that set |
| Substitutions.SymbolBijection | kmer-collapse.py:57-77 | `Reverse` is a bijection between its 15 symbols and the non-empty subsets of ACGT |
| Substitutions.PermutationsSpec | kmer-collapse.py:52 | for a key without repeats, the orderings `Permutations` (it.permutations) produces are exactly the repeat-free sequences with the same length and the same bases |
| Substitutions.OwnOrdering | kmer-collapse.py:52-54 | a key is one of its own orderings (`Permutations`), so each raw key is itself a forward key |
| Substitutions.ForwardFromKeys | kmer-collapse.py:51-54 | after n raw entries, the keys of `ForwardFrom` are exactly the orderings of those n raw keys |
| Substitutions.RawOrderingsDisjoint | kmer-collapse.py:37-49 | no ordering belongs to two `RawForward` keys, so no later entry overwrites an earlier one |
| Substitutions.ForwardFromValue | kmer-collapse.py:51-54 | in `ForwardFrom`, each ordering of raw key i maps to raw value i |
| Substitutions.ForwardKeyIsMultiBase | kmer-collapse.py:32-55 | every forward key has at least two distinct bases, and it maps to the degenerate symbol standing for exactly those bases |
| Substitutions.MultiBaseIsForwardKey | kmer-collapse.py:32-55 | every repeat-free base sequence of length two or more is a forward key |
| Substitutions.ForwardTableSpec | kmer-collapse.py:32-55 | key iff multi-base sequence, and the value's base set equals the key's |
| Substitutions.CanonicalOrderings | kmer-collapse.py:37-54 | every ordering of a raw key maps to that key's symbol, which stands for the key's bases |
| Substitutions.NoSingleBaseKey | kmer-collapse.py:37-55 | no key of length zero or one is in the forward table, so singletons and the empty subset never match |
| Substitutions.InsertOrderings | kmer-collapse.py:52-54 | the inner loop adds every ordering of one key with its value |
| Substitutions.InsertAll | kmer-collapse.py:51-54 | the outer loop builds the table from all raw entries in order |
| Substitutions.ForwardSubstitutions | kmer-collapse.py:32-55 | the result's keys are exactly the multi-base sequences, and each maps to the non-plain symbol for its bases |
| Substitutions.ForwardTableIsForward | kmer-collapse.py:79 | `ForwardTable`, the module-level forward_subs, satisfies the forward-table characterisation the column encoder relies on |
| Subsets.Spread | kmer-collapse.py:23-25 | one recursion step doubles the list; each subset appears both with and without the head |
| Subsets.PowersetLength | kmer-collapse.py:18-25 | `Powerset` of a non-empty list of n items yields 2^n subsets |
| Subsets.PowersetSublists | kmer-collapse.py:18-25 | the lists `Powerset` yields are exactly the order-preserving sublists of the input |
| Subsets.SublistElems | kmer-collapse.py:18-25 | a sublist uses only the input's items |
| Subsets.SpreadNoDup | kmer-collapse.py:23-25 | a recursion step yields no list twice when the head is absent from the smaller subsets |
| Subsets.PowersetNoDup | kmer-collapse.py:18-25 | for repeat-free input, no subset is yielded twice |
| Subsets.Powerset | kmer-collapse.py:15-25 | `powerset` yields the whole input and the empty list among its subsets |
| EncodedCandidates.InExpansion | kmer-collapse.py:82-104 | e is an expansion of a code iff it has the code's length and each position holds a base of that position's symbol |
| EncodedCandidates.ExpansionSound | kmer-collapse.py:82-104 | every expansion has the code's length, with a member base at each position |
| EncodedCandidates.ExpansionComplete | kmer-collapse.py:82-104 | every such string is an expansion |
| EncodedCandidates.LiteralExpansion | kmer-collapse.py:82-104 | a plain kmer expands to itself only |
| EncodedCandidates.ExpansionNonEmpty | kmer-collapse.py:82-104 | every valid code stands for at least one kmer |
| EncodedCandidates.ExpansionOfWW | kmer-collapse.py:85 | WW expands to AA, AT, TA and TT |
| EncodedCandidates.Product | kmer-collapse.py:97 | the product holds exactly the concatenations of a string from the first list with one from the second |
| EncodedCandidates.ExpansionStep | kmer-collapse.py:97-102 | extending the expansions of a prefix by the next column's bases gives the expansions of the longer prefix |
| EncodedCandidates.InExpansion1 | kmer-collapse.py:89-91 | the first column's `Singletons` list expands the one-symbol prefix |
| EncodedCandidates.SingletonsMembers | kmer-collapse.py:89-91 | `Singletons` holds one one-character string per listed base and nothing else |
| EncodedCandidates.ExpandEncodedCandidate | kmer-collapse.py:82-104 | for codes of length at least two, the result is exactly the set of expansions; for length one, the result is empty |
| EncodedCandidates.TestEncodedCandidate | kmer-collapse.py:106-115 | for codes of length at least two, it returns true iff every expansion is a prefix of some input kmer (`HasPrefixIn`, the trie lookup of line 113); for length one, it returns true |
| EncodedCandidates.HasPrefixIn | kmer-collapse.py:113 | the trie lookup finds a whole input kmer as its own prefix, and finds nothing in an empty input |
| Collapse.ObservedBases | kmer-collapse.py:137 | the column's distinct bases, each once |
| Collapse.AppendPair | kmer-collapse.py:146-147 | appending v to b's list adds exactly the pair (b, v) |
| Collapse.ContributionsStep | kmer-collapse.py:140-147 | one more subset adds its bases paired with its symbol, if it is a forward key |
| Collapse.RecordMerges | kmer-collapse.py:140-147 | the recorded (base, symbol) pairs are exactly those contributed by the subsets that are forward keys, and no list repeats a symbol |
| Collapse.RecordKey | kmer-collapse.py:143-147 | one forward key records its symbol for each of its bases, without repeats |
| Collapse.RecordPair | kmer-collapse.py:144-147 | creates b's list if missing and adds the symbol unless it is already listed |
| Collapse.AppendSelves | kmer-collapse.py:148-151 | each observed base is appended to its own list, creating the list if needed; nothing else changes |
| Collapse.DegenerateHasTwo | kmer-collapse.py:66-76 | a degenerate symbol stands for at least two bases |
| Collapse.ColumnContributions | kmer-collapse.py:138-147 | the powerset of a column contributes (b, s) iff s is degenerate, stands for b, and all its bases were observed |
| Collapse.ContributionSound | kmer-collapse.py:138-147 | only such pairs are contributed |
| Collapse.ContributionComplete | kmer-collapse.py:138-147 | every such pair is contributed |
| Collapse.ColumnEncodings | kmer-collapse.py:136-151 | the lists' keys are the observed bases; each list is repeat-free and ends with its own base; s is in b's list iff s stands for b and only for observed bases |
| Collapse.SelvesAppended | kmer-collapse.py:148-151 | appending the bases themselves completes the column characterisation |
| Collapse.SelfAppended | kmer-collapse.py:148-151 | a plain symbol may stand in for b only if it is b itself |
| Collapse.FilteredMembers | kmer-collapse.py:166-176 | extending one old candidate keeps exactly the one-symbol extensions by a listed symbol that pass the prefix test |
| Collapse.ExtensionsMembers | kmer-collapse.py:163-177 | a new candidate is kept iff its prefix is an old candidate, its last symbol is listed, and it passes the prefix test |
| Collapse.ExtensionsLast | kmer-collapse.py:165-177 | the extension of the last old candidate by the last listed symbol stays last when it passes |
| Collapse.ExtendCandidate | kmer-collapse.py:166-176 | the inner loop's output for one old candidate |
| Collapse.ExtendRow | kmer-collapse.py:163-177 | the rebuilt row is the pruned extension of the old row, in order |
| Collapse.LiteralPrefixValid | kmer-collapse.py:113 | a kmer's own prefix always passes the prefix test |
| Collapse.EncodedSymbols | kmer-collapse.py:148-151 | every listed symbol may stand in for its base, and the list ends with the base |
| Collapse.InitialRowShape | kmer-collapse.py:159-161 | column 0 seeds each row with exactly the valid one-letter candidates, each once, the literal last |
| Collapse.InitialCandidate | kmer-collapse.py:159-161 | each one-letter seed is a valid candidate for its row |
| Collapse.ExtendedRowShape | kmer-collapse.py:162-177 | extending a row keeps it exactly the repeat-free list of valid candidates one column longer, the literal prefix last |
| Collapse.ExtendedComplete | kmer-collapse.py:163-177 | every valid candidate one column longer is kept: its prefix is an old candidate and its last symbol is listed |
| Collapse.PrefixValidInit | kmer-collapse.py:106-115 | a code that passes the prefix test still passes it without its last symbol |
| Collapse.FilteredNoDup | kmer-collapse.py:166-176 | extending one old candidate by a repeat-free substitute list yields no candidate twice |
| Collapse.ExtensionsNoDup | kmer-collapse.py:163-177 | repeat-free old candidates and substitutes yield no new candidate twice |
| Collapse.ExtendedCandidates | kmer-collapse.py:163-177 | every kept extension is a valid candidate one column longer |
| Collapse.ExtendedCandidate | kmer-collapse.py:167-176 | one kept extension is a valid candidate |
| Collapse.NextRow | kmer-collapse.py:156-177 | one row's update keeps the row exactly the valid candidates of one more column, each once, the literal last |
| Collapse.ExtendKmerRow | kmer-collapse.py:156-177 | the row computed is `NextRow`: the singletons of the first base's list at column 0, the pruned extension of the old row afterwards |
| Collapse.ExtendRows | kmer-collapse.py:156-177 | each row r becomes exactly `NextRow` of the old row r, so every row keeps its shape |
| Collapse.ExtendNextRow | kmer-collapse.py:156-177 | one pass of that loop: row r is replaced by its `NextRow`, the rows after it are untouched |
| Collapse.ProcessColumn | kmer-collapse.py:136-177 | one column pass: the column's lists are `ColumnEncoded`, and each row becomes its `NextRow` under them |
| Collapse.BuildCandidates | kmer-collapse.py:135-177 | after k columns, each row holds, once each, exactly the codes of length k that substitute only allowed symbols and pass the prefix test, its own kmer last |
| Collapse.FinalCandidates | kmer-collapse.py:153-177 | full-length candidates expand only to input kmers and include their row's kmer, and the literal kmer survives |
| Collapse.FinalCandidate | kmer-collapse.py:175 | a full-length candidate that passes the prefix test expands only to input kmers, its own kmer among them |
| Collapse.MarkAllAvailable | kmer-collapse.py:182-185 | kmer_available holds every input kmer, all true |
| Collapse.AllAvailable | kmer-collapse.py:208-211 | the test passes iff every expansion is still available |
| Collapse.Claim | kmer-collapse.py:213-215 | claimed kmers become unavailable and nothing else changes; the encoding is added iff it has expansions |
| Collapse.CoveredAdd | kmer-collapse.py:213-215 | adding an encoding covers exactly its expansions in addition |
| Collapse.InCovered | kmer-collapse.py:213-215 | a chosen encoding's expansions are covered |
| Collapse.StaysCovered | kmer-collapse.py:186-215 | encodings are never removed, so coverage only grows |
| Collapse.DisjointAdd | kmer-collapse.py:201-215 | an encoding whose expansions are all unclaimed is new and keeps the encodings pairwise disjoint |
| Collapse.ClaimKeepsState | kmer-collapse.py:195-215 | claiming keeps "available iff uncovered" and disjointness |
| Collapse.ClaimOutcome | kmer-collapse.py:195-215 | a claim keeps the resolver state and grows coverage by the encoding's expansions |
| Collapse.ClaimFirst | kmer-collapse.py:195-199 | priming with the first candidate selects it alone and keeps the state |
| Collapse.ClaimIfAvailable | kmer-collapse.py:208-215 | for k ≥ 2 the candidate is added if and only if all its expansions are available, and nothing else is added; a literal kmer is covered afterwards either way |
| Collapse.AvailableIffUncovered | kmer-collapse.py:182-215 | all of a candidate's expansions are available iff none is covered by the chosen encodings |
| Collapse.ConsiderCandidate | kmer-collapse.py:190-215 | one candidate step keeps the state, primes iff nothing was chosen yet, covers the row's kmer when it primes or is the literal, and otherwise applies the greedy rule `Accept`: chosen iff none of its expansions is covered |
| Collapse.ResolveRow | kmer-collapse.py:188-215 | for k ≥ 2 a row's result is `RowChoice`: its first candidate alone when nothing was chosen, else the greedy rule over its candidates in order; its kmer is covered and encodings only grow |
| Collapse.ResolveNextCandidate | kmer-collapse.py:190-215 | one candidate of the row loop: priming ends the row with that candidate alone and the row's kmer covered; otherwise the greedy trace moves on by one candidate |
| Collapse.TracedGreedy | kmer-collapse.py:190-215 | a step-by-step trace of the greedy rule ends where `Greedy` ends |
| Collapse.GreedySettles | kmer-collapse.py:201-215 | the greedy rule only adds encodings and leaves every candidate it passed chosen or overlapping a chosen one |
| Collapse.SettledGrows | kmer-collapse.py:201-215 | a candidate settled against fewer encodings stays settled against more |
| Collapse.StartResolving | kmer-collapse.py:182-186 | before the first row every kmer is available, nothing is chosen, and the row trace is empty |
| Collapse.ResolveNextRow | kmer-collapse.py:187-215 | one pass of the row loop adds exactly the row's `RowChoice`, keeps the resolver state, coverage of the rows so far and the first candidate chosen, and extends the row trace |
| Collapse.TraceExtend | kmer-collapse.py:187-215 | appending one row's choice extends the row trace by that row |
| Collapse.TracedRows | kmer-collapse.py:187-215 | a row trace starting from nothing chosen ends at `ResolveRows`, the greedy run over those rows |
| Collapse.Resolved | kmer-collapse.py:179-216 | after the last row, the chosen encodings are candidates, full-length codes within the input, pairwise disjoint, and at most one per row |
| Collapse.ResolvedCover | kmer-collapse.py:179-216 | after the last row, for k ≥ 2 they cover exactly the input and include the first candidate; for k ≤ 1 nothing is chosen |
| Collapse.ResolvedTrace | kmer-collapse.py:179-216 | after the last row, the row trace ends at the result, which for k ≥ 2 is `ResolveRows` over all rows |
| Collapse.CoverPrefix | kmer-collapse.py:187-215 | the kmers of rows handled so far stay covered |
| Collapse.ChosenFacts | kmer-collapse.py:186-216 | chosen encodings are full-length codes expanding only to input kmers |
| Collapse.AllCovered | kmer-collapse.py:186-216 | covering every row's kmer with encodings inside the input covers exactly the input |
| Collapse.OnePerRow | kmer-collapse.py:201-215 | no two different candidates of one row are both chosen |
| Collapse.ResolveConflicts | kmer-collapse.py:179-216 | for k ≥ 2 the result is exactly `ResolveRows` over all rows, the greedy rule applied row by row, with the trace `hist` recording each row's `RowChoice`; the chosen encodings are candidates, pairwise disjoint, at most one per row, cover exactly the input and include the first candidate; for k ≤ 1 nothing is chosen |
| Collapse.Collapse | kmer-collapse.py:117-216 | the encoded output is drawn from the built candidate rows and, for k ≥ 2, is exactly the greedy run `ResolveRows` over them; it stands for exactly the input kmers, with no kmer claimed twice, at most one encoding per row and the first candidate of the first kmer; it is empty for k ≤ 1 |
| Scenarios.SubstitutesOfAT | kmer-collapse.py:41 | in a column observing A and T, only W and the base itself may stand in |
| Scenarios.SubstitutesOfA | kmer-collapse.py:136-151 | in a column observing A only, only A may stand in for A |
| Scenarios.TwoElementList | kmer-collapse.py:148-151 | a repeat-free list with exactly two members, b last, is the other member followed by b |
| Scenarios.TwoKmersObserved | kmer-collapse.py:121 | the two-kmer input is well formed, k = 10, column 0 observes A and T, and every later column A only |
| Scenarios.TwoKmersColumnZero | kmer-collapse.py:136-151 | for that input, column 0 encodes to A → WA and T → WT |
| Scenarios.StandsForTwoKmers | kmer-collapse.py:121 | the strings WAAAAAAAAA stands for are exactly the two input kmers |
| Scenarios.ExpansionOfWAAAAAAAAA | kmer-collapse.py:121 | WAAAAAAAAA expands to exactly the two-kmer input |
| Scenarios.SoleEncoding | kmer-collapse.py:201-215 | once a disjoint result contains an encoding covering the whole input, it is the only one |
| Scenarios.ShapedFirstCandidate | kmer-collapse.py:153-177 | for that input, a full-length candidate of the first kmer is WAAAAAAAAA or AAAAAAAAAA |
| Scenarios.WShaped | kmer-collapse.py:153-177 | WAAAAAAAAA is a full-length candidate of the first kmer |
| Scenarios.LiteralShaped | kmer-collapse.py:153-177 | so is the first kmer itself |
| Scenarios.FirstKmerCandidates | kmer-collapse.py:153-177 | the first kmer's full-length candidates are exactly those two |
| Scenarios.FirstKmerRow | kmer-collapse.py:153-177 | after the candidate builder, the first kmer's row is WAAAAAAAAA then AAAAAAAAAA |
| Scenarios.CollapseTwoKmers | kmer-collapse.py:117-216 | main on that input outputs exactly {WAAAAAAAAA} |

## Left out

- The JSON report written to standard output (kmer-collapse.py:221-225) is not modelled. `Collapse.Collapse` returns the encodings as a set.
- The hard-coded input list in `main` becomes a parameter. `WellFormed` states what the code silently expects of it: at least one kmer, all of one length, only A, C, G and T. The code never checks these and misbehaves or crashes without them.
- The marisa trie is replaced by the predicate `HasPrefixIn`, meaning some input kmer starts with the string. Trie construction and its internals are not modelled.
- The iteration orders of Python sets and dicts are not modelled.
  - `list(set(...))` and the order of the expanded candidates are chosen arbitrarily (`:|`). `ObservedBases` returns the column's bases in an arbitrary order.
  - Which encodings the resolver picks depends on candidate order, so the exact output list is not determined. The contracts hold for every order.
- EncodedCandidates.ExpandEncodedCandidate: an empty code is excluded by `requires |code| >= 1`. The code would pop from an empty list and crash.
- Collapse.ResolveConflicts: the coverage promise holds only for k ≥ 2. For k ≤ 1 the expansions are empty, as written, and nothing is chosen.
