# Verified kernels of z3rs

z3rs is a Rust port of parts of Z3. This project models seven of its self-contained kernels in Dafny and proves what they
are for, over every input, every run and every random draw.

* **The simplex kernel** (`src/math/lar.rs`): a sparse tableau whose row and column cells point at each other, pivoting,
  bounds in pairs `x + y * delta`, the set of infeasible basic columns, and the extraction of rational values. The class
  `Simplex.Lar` updates the same fields in place. Two ghost fields record the history, the terms added (`defs`) and the
  bounds accepted (`asserted`), so that the verdicts of `Solve` and the result of `Values` are statements about whole
  runs: a positive verdict is an assignment that satisfies every row and bound, a negative one means that no assignment
  does, whatever the tie-breaking draws are. `SimplexRuns` says what each exchange of a run does; only a run that
  spends its whole budget ends without a verdict.
* **The regex rewriter** (`src/cmd_context/regex_simp.rs`) **and its length domain** (`src/cmd_context/len_abs.rs`).
  `RegexTerms` gives each regex the language that the SMT-LIB theory of Unicode strings gives it, under an assignment of
  its variables. The class `RegexRewriter.ReSimp` is the hash-consed arena; every rewriting constructor is proved to
  return a term with the language of the plain operator, under every assignment. On top of it: the span-matrix matcher,
  derivatives, the bisimulation test for equivalence, and the rewriting of membership constraints.
* **Bounded word equations** (`src/cmd_context/word_eq.rs`): union-find over character positions and the enumeration of
  length vectors. Both directions are proved: what is found is a solution, what is dismissed has none.
* **Open-addressing tables** (`src/cmd_context/decl_table.rs`, `src/cmd_context/ast_hash.rs` and `umap_order` in
  `src/math/lar.rs`): the declaration table refines a map from names to counts under tombstones, purges, growth and
  shrinking, and three independent replicas of the slot layout agree.
* **The printer with `let` aliases** (`src/cmd_context/smt2_pp.rs`): from the nodes of a shared term to laid-out text.
  `PrintTerms.Expr` is what the text says, with its `let`s and aliases; expanding them is proved to give back the term,
  except that unshared nested applications of an associative operator are flattened, exactly where `Shown` says so.
* **The hash-consed term manager** (`src/ast/manager.rs`, `src/ast/query.rs`, `src/ast/translation.rs`): interning with
  maximal sharing, the traversals that run on explicit stacks, and the translation of a term into another manager, which
  keeps the unfolded term, families by name, and gives a term back its own id when it is translated back.
* **Exact arithmetic**: intervals with open, closed and infinite ends (`src/math/interval.rs`) and decimals cut off after
  some places (`format_trunc` in `src/cmd_context/algebraic_pp.rs`).

## How the files fit

`Options`, `Products` and `Divisors` are helpers. `DeltaRationals`, `Tableau`, `SimplexState`, `WorkRow`, `SimplexRuns`
and `Simplex` are the simplex kernel, from values to the class. `Languages` holds the laws of regular operators; `RegexTerms`,
`RegexInfo`, `RegexSubset`, `CharRanges`, `RegexLaws` and `RegexSets` speak about terms; `RegexArena`, `RegexOrder` and
`RegexRewriter` about the arena; `SpanMatrix`, `RegexMembership`, `RegexDerivatives`, `RegexEquivalence` and
`RegexQueries` use it.
`LengthAbs` is the length domain on values and `LengthLoops` its loops. `WordEquations`, `CharClasses` and `WordSearch`
are the word-equation procedure, `SlotTables` and `DeclTables` the tables. `PrintDocs` is the layout, `PrintTerms` the
meaning of printed expressions, `PrintReading` their meaning when names are all there is, `TermPrinter` the printer.
`AstNodes` and `AstManagers` are the term manager, `Traversals` and `AstQueries` its walks, `AstTranslation` the
translation. `Intervals` and `TruncatedDecimals` stand by themselves.

## Conventions

* Rationals are `real`; a 64-bit residue mask is the set of its bits; unsigned arithmetic that the source saturates or
  truncates is written out (`AddTruncate`, `MulTruncate`, the length of a literal modulo 2^32).
* Characters of regexes are `0..196607`. The claims of the length domain are about words no longer than `u32::MAX`.
* The random draws of the simplex kernel, the hash functions, and the length oracle of the word search are arbitrary.
* In a printed expression an alias (`Ref`) is told from a symbol (`Leaf`). `PrintReading.Read` forgets the difference and
  looks both up by name; that it comes to the same is proved for terms whose constants and bound variables are not named
  `a!1`, `a!2` and so on (`Unreserved`), which the source takes for granted.
* The ids and family ids handed to the term manager are its own, and its bucket counts, powers of two, make the mask a
  remainder. A parameter of a declaration is a node or any other value, the other values told apart by kind and text.
* `Same(r, t)` says that two regexes denote the same language under every assignment.
* Every lemma carries `{:induction false}`: each induction is the one its body spells out.
* A rewriting constructor that may call the simplifier within itself takes a `fuel`: how deep such calls may nest. The
  language claims hold at every fuel, so they hold of every run of the code that ends.

## What the proofs brought out

* `info` calls a loop with crossed bounds nullable although it accepts nothing (`RegexInfo.CrossedLoopUnsound`). Its
  answer for a loop is right if and only if the bounds are not crossed or the body does not count as nullable
  (`RegexInfo.LoopNullableIff`). The rewriter is right for any input, because `mk_loop` turns a crossed loop into
  `re.none`; that no crossed loop is handed to `info` is the invariant `LoopsOk`, which `Simplify` establishes.
* `derivative` treats a range whose bounds are not both literals as empty (`RegexDerivatives.OpenRangeMissed`). That is
  the quotient by the character if and only if one literal bound keeps the character out by itself
  (`RegexDerivatives.RangeQuotIff`). For any other term the answer is the quotient when this holds of each range it looks
  at (`RangesKnown`). `equivalent` is right for all terms it answers for, because it asks the matcher first, and the
  matcher answers exactly for terms without variables (`RegexMembership.FindSpans`).
* `add_term` relies on distinct columns and nonzero coefficients (`WorkRow.TermOk`). A column that is listed with
  coefficient 0 is listed again as soon as a substitution touches it (`WorkRow.BumpRepeatsIff`), and then gets two cells.
* The product of intervals is documented as the image of all products, but `(0, oo) * (0, oo)` is `[0, oo)`
  (`Intervals.NotTheImage`), and `(0, 1) * (0, 1)` is `[0, 1)`. It contains the image and nothing else but perhaps 0. It
  gains 0, and is then not the image, if and only if neither factor contains 0 and an end 0 of one of them meets an end of
  the other that is 0 or infinite (`Intervals.GainsZero`, `Intervals.Mul`).
* The `?` of a decimal that was cut off is missing when no places are asked for and the number is no integer; with at
  least one place it is there if and only if the decimal is not exact (`TruncatedDecimals.TextTells`).
* A constant named `a!1` would be captured by the `let` that binds the alias of that name (`PrintReading.Captured`), such
  as that of an application printed twice beside the constant.

## Model

| member | source | states |
|---|---|---|
| DeltaRationals.KindAsPair | src/math/lar.rs:359-366 | a real value meets a strict or non-strict bound if and only if, as a pair without infinitesimal part, it is on the right side of the pair the code makes of the bound |
| DeltaRationals.AtMostAt | src/math/lar.rs:580-597 | shrinking delta as `values` does keeps every ordered pair of bound and value ordered when the infinitesimal gets a value |
| DeltaRationals.MeetOnce | src/math/lar.rs:598-606 | two different pairs take the same value for at most one positive delta |
| DeltaRationals.CollisionsShrink | src/math/lar.rs:598-606 | halving delta strictly shrinks the set of colliding pairs, which is why the halving loop ends |
| Tableau.EvalShift | src/math/lar.rs:435-440 | changing a non-basic column and correcting a basic one by its coefficient leaves the row's value unchanged |
| Tableau.RemovedLinked | src/math/lar.rs:264-281 | after a swap-with-last deletion in row and column, every cell still points at its partner |
| Tableau.RemovedEntries | src/math/lar.rs:264-281 | the deletion drops exactly the one entry: every other row keeps its entries |
| Tableau.SwappedLinked | src/math/lar.rs:343-349 | swapping a cell to the head of its column keeps every link |
| Tableau.AddedEval | src/math/lar.rs:300-317 | adding a multiple of one cell changes the row's linear form by exactly that monomial |
| Tableau.EliminatedBy | src/math/lar.rs:285-326 | the new row is the old row plus the multiple of the pivot row that cancels the pivot column |
| Tableau.PivotedBy | src/math/lar.rs:329-354 | scaling and eliminating row by row amounts to one pivot |
| SimplexState.PivotedSpace | src/math/lar.rs:329-354 | a pivot keeps the set of solutions of all rows |
| SimplexState.PivotedBasis | src/math/lar.rs:485-491 | after the pivot each basic column occurs in its own row alone, with coefficient 1 |
| SimplexState.ShiftedHold | src/math/lar.rs:475-484 | correcting the basic columns after moving a non-basic one keeps every row satisfied |
| SimplexState.BlockedRow | src/math/lar.rs:504-514 | in a row where no cell can move, the basic column cannot reach its bound: the row is a Farkas certificate |
| SimplexState.Blocked | src/math/lar.rs:462-464 | a blocked row rules out every assignment of pairs that satisfies rows and bounds |
| SimplexState.NoModel | src/math/lar.rs:462-464 | hence no real assignment satisfies the added terms and the accepted bounds |
| SimplexState.BoundCrosses | src/math/lar.rs:367-378 | a bound that crosses the opposite one contradicts the bounds accepted before |
| SimplexState.Exchanged | src/math/lar.rs:465-491 | exchanging leaving and entering column keeps the whole state invariant |
| SimplexState.ValuesModel | src/math/lar.rs:580-608 | real values at a small enough delta satisfy every row and every strict or non-strict bound |
| SimplexRuns.NearestWithin | src/math/lar.rs:416-426 | the new value is within the bounds, and none within them lies strictly between it and the old one |
| SimplexRuns.StateDetermined | src/math/lar.rs:475-492 | the rows and the non-basic values settle all other values and which columns are infeasible |
| SimplexRuns.RunGoesOn | src/math/lar.rs:444-493 | an exchange of the least infeasible column continues a run |
| WorkRow.SubstitutedSum | src/math/lar.rs:206-228 | eliminating a basic column from the work vector subtracts its row's form and nothing else |
| WorkRow.TermRowBy | src/math/lar.rs:230-239 | the row written back defines the term on the solutions of the other rows and mentions no other basic column |
| WorkRow.TermAdded | src/math/lar.rs:191-249 | adding the term's column and row keeps the whole state invariant |
| Simplex.Lar.constructor | src/math/lar.rs:156-170 | a new kernel is valid, with no terms and no bounds |
| Simplex.Lar.AddVar | src/math/lar.rs:182-187 | adds one free non-basic column at zero and changes no other |
| Simplex.Lar.AddTerm | src/math/lar.rs:191-249 | adds a free basic column defined by the term and records the definition; old columns keep their values |
| Simplex.Lar.AddBound | src/math/lar.rs:359-385 | an accepted bound is recorded; a refused one contradicts the accepted ones and changes nothing |
| Simplex.Lar.AddNewElement | src/math/lar.rs:251-260 | appends one linked cell to row and column |
| Simplex.Lar.RemoveElement | src/math/lar.rs:264-281 | removes one cell of row and column, keeping the links |
| Simplex.Lar.PivotRowToRow | src/math/lar.rs:285-326 | eliminates the pivot column from one row, cancelled cells included, and keeps the sparse form |
| Simplex.Lar.PivotColumn | src/math/lar.rs:329-354 | ends, keeps the sparse form without zeros, and pivots the tableau on the column |
| Simplex.Lar.Track | src/math/lar.rs:406-412 | puts the column in the infeasible set if and only if it violates a bound |
| Simplex.Lar.MakeColumnFeasible | src/math/lar.rs:416-426 | moves a non-basic column to the value within its bounds nearest to its own and says by how much |
| Simplex.Lar.TakeChanged | src/math/lar.rs:431-443 | every non-basic column moves to the value within its bounds nearest to its own; afterwards the infeasible set is exact, and nothing but values and that set has changed |
| Simplex.Lar.NotFreeCount | src/math/lar.rs:518-534 | counts the non-free basic columns that depend on the column, or stops past the cap |
| Simplex.Lar.FindEntering | src/math/lar.rs:537-577 | returns a movable cell if there is one, the least column under Bland's rule, else one of the best ranked, whatever is drawn |
| Simplex.Lar.Repair | src/math/lar.rs:461-492 | the leaving column goes onto the bound it violates, out of the basis, and the chosen cell's column takes its place by one pivot; or no cell of its row can move, and nothing satisfies the rows and bounds |
| Simplex.Lar.RepairAll | src/math/lar.rs:444-498 | a run of exchanges, each of the least infeasible column, Bland's rule once columns have left again a thousand times; no answer only after exactly `budget` exchanges, yes only when nothing is infeasible, no only when the next column is stuck |
| Simplex.Lar.Solve | src/math/lar.rs:430-499 | such a run from the state after the changed columns are taken; `Some(true)` leaves an assignment within all bounds on all rows, `Some(false)` means that none exists, `None` that exactly `budget` exchanges were made and a column is still infeasible |
| Simplex.Lar.LargestDelta | src/math/lar.rs:581-597 | the largest delta up to 1 at which no value is on the wrong side of its bound |
| Simplex.Lar.Separate | src/math/lar.rs:598-606 | ends with delta halved as often as needed: distinct pairs have distinct values there, and after each of fewer halvings two coincide |
| Simplex.Lar.Values | src/math/lar.rs:580-608 | the values at the largest delta up to 1 that suits every bound, halved just until distinct pairs get distinct values; after a feasible solve they are a model |
| WordEquations.UnbalancedUnsolvable | src/cmd_context/word_eq.rs:239-246 | an equation whose sides differ in length has no solution of those lengths |
| WordEquations.FlatSolvesIff | src/cmd_context/word_eq.rs:80-123 | values of the given lengths solve the problem if and only if their concatenation satisfies every pair of positions |
| CharClasses.Classes.Find | src/cmd_context/word_eq.rs:71-78 | path halving returns the root and keeps every class |
| CharClasses.Classes.Equate | src/cmd_context/word_eq.rs:122-149 | merging two positions or pinning one keeps exactly the assignments that agree, or shows a conflict |
| CharClasses.JoinedConsistent | src/cmd_context/word_eq.rs:124-134 | an assignment is consistent after joining two classes if and only if it was before and gives both one character |
| CharClasses.PinnedConsistent | src/cmd_context/word_eq.rs:135-141 | the same for pinning a class to a character |
| WordSearch.ForcedUnsolvable | src/cmd_context/word_eq.rs:151-179 | a disequation whose sides are forced equal has no solution |
| WordSearch.BuiltGeneric | src/cmd_context/word_eq.rs:180-205 | a fresh character for every unpinned class keeps apart whatever is not forced together |
| WordSearch.SolveAt | src/cmd_context/word_eq.rs:104-206 | returns a solution of the given lengths if and only if there is one, given enough fresh characters |
| WordSearch.PrunedUnsolvable | src/cmd_context/word_eq.rs:293-302 | a prefix pruned by an unbalanced equation extends to no solution |
| WordSearch.Walk.Enumerate | src/cmd_context/word_eq.rs:276-308 | visits every vector of the total within the bounds, or stops with an answer, within the count of such vectors |
| WordSearch.Walk.Visit | src/cmd_context/word_eq.rs:233-258 | dismisses a vector only if it is unsolvable or the oracle refuses it, and counts it |
| WordSearch.Search | src/cmd_context/word_eq.rs:210-271 | `Found` is a solution of least total length among those the oracle accepts; `Exhausted` means that none is left; `Incomplete` only when the budget or the oracle leaves something open |
| LengthAbs.ResiduesModSound | src/cmd_context/len_abs.rs:106-143 | every allowed length has its residue in the coarser or finer mask |
| LengthAbs.GcdOfSound | src/cmd_context/len_abs.rs:146-174 | the gcd divides every allowed length, although only two periods are looked at |
| LengthAbs.GcdOfGreatest | src/cmd_context/len_abs.rs:146-174 | whatever divides all allowed lengths divides the gcd |
| LengthAbs.EmptyIff | src/cmd_context/len_abs.rs:92-103 | the abstraction is empty if and only if it allows no length |
| LengthAbs.ConcatSound | src/cmd_context/len_abs.rs:182-205 | sums of allowed lengths are allowed |
| LengthAbs.UniteSound | src/cmd_context/len_abs.rs:208-216 | lengths allowed by either are allowed |
| LengthAbs.MeetSound | src/cmd_context/len_abs.rs:219-227 | lengths allowed by both are allowed |
| LengthAbs.RepeatSound | src/cmd_context/len_abs.rs:230-248 | sums of any number of allowed lengths are allowed by star and plus |
| LengthAbs.OptSound | src/cmd_context/len_abs.rs:251-258 | zero and every allowed length are allowed |
| LengthAbs.RepeatRangeSound | src/cmd_context/len_abs.rs:261-300 | sums of `lower` to `upper` allowed lengths are allowed |
| LengthAbs.ResiduesModIff | src/cmd_context/len_abs.rs:106-143 | where the division loses nothing, a residue is in the mask if and only if an allowed length leaves it |
| LengthAbs.ConcatTight | src/cmd_context/len_abs.rs:182-205 | every residue allowed is that of a sum of allowed lengths, for periods below 64 and bounds below the saturation |
| LengthAbs.UniteTight | src/cmd_context/len_abs.rs:208-216 | a residue is allowed if and only if a length of either side leaves it, for the same periods |
| LengthAbs.MeetIff | src/cmd_context/len_abs.rs:219-227 | when the common period is a multiple of both and neither side is empty, exactly the lengths of both are allowed |
| LengthAbs.RepeatRangeTight | src/cmd_context/len_abs.rs:261-300 | every residue that a bounded repetition allows is that of a sum of so many allowed lengths |
| LengthAbs.ResidueReachableIff | src/cmd_context/len_abs.rs:303-318 | the test holds if and only if some `cst + g * k` has an allowed residue, by Bezout |
| LengthLoops.ComputeResiduesMod | src/cmd_context/len_abs.rs:106-143 | the mask loops compute the specified residues |
| LengthLoops.ComputeGcd | src/cmd_context/len_abs.rs:146-174 | the loop computes the specified gcd |
| LengthLoops.ComputeConcat | src/cmd_context/len_abs.rs:182-205 | the double loop computes the specified sums |
| LengthLoops.ComputeRepeatRange | src/cmd_context/len_abs.rs:261-300 | the rounds of summing compute the specified repetition |
| RegexInfo.NullableSound | src/cmd_context/regex_simp.rs:336-482 | a definite nullability is right under every assignment |
| RegexInfo.LengthsSound | src/cmd_context/regex_simp.rs:336-482 | every word of the language has a length the abstraction allows |
| RegexInfo.MinLengthSound | src/cmd_context/regex_simp.rs:336-482 | no word is shorter than the minimum length |
| RegexInfo.LoopNullableIff | src/cmd_context/regex_simp.rs:336-482 | the nullability of a loop is right under every assignment if and only if its bounds are not crossed or its body does not count as nullable |
| RegexInfo.CrossedLoopUnsound | src/cmd_context/regex_simp.rs:336-482 | a loop with crossed bounds that counts as nullable and accepts nothing |
| RegexSubset.IsSubsetSound | src/cmd_context/regex_simp.rs:1650-1777 | a positive answer of the depth-bounded test is an inclusion of languages |
| RegexSubset.EndsWithMeans | src/cmd_context/regex_simp.rs:1788-1796 | a flattened suffix match is an inclusion in everything followed by the suffix |
| CharRanges.UnionOf | src/cmd_context/regex_simp.rs:139-150 | the merged ranges are canonical and hold exactly the characters of either |
| CharRanges.InterOf | src/cmd_context/regex_simp.rs:152-171 | exactly the characters of both |
| CharRanges.ComplementOf | src/cmd_context/regex_simp.rs:173-186 | exactly the other characters of the alphabet |
| CharRanges.DiffOf | src/cmd_context/regex_simp.rs:188-190 | exactly the characters of the first and not the second |
| CharRanges.RangePred | src/cmd_context/regex_simp.rs:1402-1433 | the ranges, if any, are the language of the regex under every assignment |
| RegexArena.MaximalSharing | src/cmd_context/regex_simp.rs:201-209 | two ids are equal if and only if they unfold to the same term |
| RegexRewriter.ReSimp.MkNode | src/cmd_context/regex_simp.rs:201-209 | finds the node or appends it; old ids keep their nodes and terms |
| RegexLaws.AbsorbingSideMeans | src/cmd_context/regex_simp.rs:1279-1293 | the side kept when everything absorbs the other has the language of the concatenation |
| RegexLaws.IdealConcat | src/cmd_context/regex_simp.rs:1303-1308 | intersections of arms that end with everything absorb it |
| RegexLaws.RepeatsConcat | src/cmd_context/regex_simp.rs:1349-1389 | neighbouring repetitions of one regex add up, in either order |
| RegexLaws.StarOfStarConcat | src/cmd_context/regex_simp.rs:1884-1888 | the star of a concatenation of stars is the star of a union |
| RegexLaws.StarOfLeftIdeal | src/cmd_context/regex_simp.rs:1889-1893 | the star of a concatenation that starts with everything adds only the empty word |
| RegexLaws.LoopOfLoop | src/cmd_context/regex_simp.rs:1939-1943 | an unbounded loop of an unbounded loop is one loop with the product of the bounds |
| RegexLaws.LoopOfPower | src/cmd_context/regex_simp.rs:1944-1949 | an exact loop of an exact loop is one exact loop |
| RegexSets.ComplementsWin | src/cmd_context/regex_simp.rs:1586-1598 | complementary arms anywhere on the two spines make the unit of the whole |
| RegexSets.RemainsPop | src/cmd_context/regex_simp.rs:1638-1642 | putting one arm back keeps the language of the whole |
| RegexOrder.LineMore | src/cmd_context/regex_simp.rs:1599-1613 | moving the lesser first arm to the prefix keeps the arms ascending |
| RegexOrder.LinePop | src/cmd_context/regex_simp.rs:1638-1642 | putting one arm back, or dropping either side, keeps the arms ascending |
| RegexRewriter.ReSimp.MergeSpines | src/cmd_context/regex_simp.rs:1572-1636 | walking two right-nested sets in the order of the ids keeps the language of the whole and, of sorted sets, the order, or finds the unit |
| RegexRewriter.ReSimp.MergeRegexSets | src/cmd_context/regex_simp.rs:1572-1643 | the merged set has the language of the union (or intersection) and no more stars, and is sorted by id if both sets are |
| RegexRewriter.ReSimp.ComposeSet | src/cmd_context/regex_simp.rs:1552-1568 | dropping a subsumed arm keeps the language |
| RegexRewriter.ReSimp.RangesToRegex | src/cmd_context/regex_simp.rs:1452-1466 | the plain union of ranges denotes the class and is sorted by id |
| RegexRewriter.ReSimp.UnionNormalize | src/cmd_context/regex_simp.rs:1497-1518 | the normal form denotes the union; it is one side where the other is the same, empty or everything |
| RegexRewriter.ReSimp.InterNormalize | src/cmd_context/regex_simp.rs:1521-1549 | the normal form denotes the intersection; empty absorbs, and everything leaves the other side as it is |
| RegexRewriter.ReSimp.MkUnion | src/cmd_context/regex_simp.rs:1481-1486 | denotes the union; of sorted unions it makes a sorted one |
| RegexRewriter.ReSimp.MkInter | src/cmd_context/regex_simp.rs:1489-1494 | denotes the intersection; of sorted intersections it makes a sorted one |
| RegexRewriter.ReSimp.MkComplement | src/cmd_context/regex_simp.rs:1799-1829 | denotes the complement; the complement of a complement is its body, nothing and everything swap |
| RegexRewriter.ReSimp.MkDiff | src/cmd_context/regex_simp.rs:1839-1845 | denotes the difference |
| RegexRewriter.ReSimp.MkStar | src/cmd_context/regex_simp.rs:1848-1901 | ends, because each rewriting removes a star or shrinks the term, and denotes the star; a star or everything stays as it is, nothing becomes the empty word |
| RegexRewriter.ReSimp.MkPlus | src/cmd_context/regex_simp.rs:1904-1918 | denotes one or more repetitions |
| RegexRewriter.ReSimp.MkOpt | src/cmd_context/regex_simp.rs:1921-1925 | denotes the language with the empty word |
| RegexRewriter.ReSimp.MkLoop | src/cmd_context/regex_simp.rs:1928-1951 | denotes the bounded or unbounded repetition; crossed bounds make nothing, none the empty word, one the body itself |
| RegexRewriter.ReSimp.MkRange | src/cmd_context/regex_simp.rs:1954-1970 | denotes the range, whatever its bounds |
| RegexRewriter.ReSimp.MkReConcat | src/cmd_context/regex_simp.rs:1278-1395 | every rule that applies denotes the concatenation; nothing on either side makes nothing, and the empty word leaves the other side as it is |
| RegexRewriter.ReSimp.MkReAppend | src/cmd_context/regex_simp.rs:1240-1243 | denotes the concatenation, with the same laws for nothing and the empty word |
| RegexRewriter.ReSimp.Simplify | src/cmd_context/regex_simp.rs:512-526 | any term, crossed loops included, is rewritten to one of the same language without crossed loops; the memo stays right |
| SpanMatrix.ComposeSpans | src/cmd_context/regex_simp.rs:2061-2076 | the relational composition spans the concatenation |
| SpanMatrix.Powers | src/cmd_context/regex_simp.rs:1202-1231 | accumulating powers spans the repetitions between the bounds |
| SpanMatrix.CutOffSpans | src/cmd_context/regex_simp.rs:1216-1231 | cutting an unbounded repetition off after `lo + n + 1` powers loses nothing |
| RegexMembership.FindSpans | src/cmd_context/regex_simp.rs:1127-1237 | answers exactly for terms without variables and conditionals, with the spans of the language |
| RegexMembership.GroundMember | src/cmd_context/regex_simp.rs:1121-1125 | the answer is whether the literal is in the language |
| RegexDerivatives.Derivative | src/cmd_context/regex_simp.rs:877-949 | the derivative denotes the left quotient by the character, for every term whose ranges, where it looks at them, have bounds that tell; there is one for every term the matcher answers for |
| RegexDerivatives.RangeQuotIff | src/cmd_context/regex_simp.rs:894-897 | the derivative of a range is its quotient if and only if both bounds are literals, or one literal bound keeps the character out |
| RegexDerivatives.RepeatQuotRight | src/cmd_context/regex_simp.rs:930-944 | the quotient of a repetition is the quotient of its body followed by one repetition less |
| RegexEquivalence.RegexStable | src/cmd_context/regex_simp.rs:828-848 | no ground regex tells a character from the representative of its class |
| RegexEquivalence.BisimilarSame | src/cmd_context/regex_simp.rs:849-872 | a closed set of pairs that agree on the empty word holds only equal languages |
| RegexEquivalence.CollectPoints | src/cmd_context/regex_simp.rs:828-848 | the walk finds a representative character for every class of both regexes |
| RegexEquivalence.Equivalent | src/cmd_context/regex_simp.rs:826-873 | `Some(true)` means equal languages, `Some(false)` that some word is in only one of them; no answer only if 2000 different pairs were visited or a word leads to a pair that the matcher has no answer for |
| RegexEquivalence.EmptyWordDecides | src/cmd_context/regex_simp.rs:861-863 | two regexes the matcher answers for that differ on the empty word are told apart |
| RegexQueries.CannotBeMember | src/cmd_context/regex_simp.rs:486-498 | a length of no reachable residue is no length of the language |
| RegexQueries.MkInRe | src/cmd_context/regex_simp.rs:1062-1117 | the formula holds if and only if the string is in the language; of a literal and a regex that the matcher answers for it is true or false |
| SlotTables.LayoutPermutes | src/math/lar.rs:86-107 | the slot order is a permutation of the keys inserted |
| SlotTables.UmapOrder | src/math/lar.rs:86-107 | computes the slot order of the layout for keys that are their own hashes |
| SlotTables.ObjMapSlotOrder | src/cmd_context/ast_hash.rs:197-228 | computes the slot order of the layout for indices with the given hashes, and the regrown one after a lookup |
| SlotTables.LayoutRenamed | src/cmd_context/ast_hash.rs:197-228 | keys with the same hashes lie in the same slots |
| SlotTables.ReplicasAgree | src/cmd_context/ast_hash.rs:197-228 | the layout of the keys and the layout of their indices list them in the same order |
| DeclTables.DeclTable.Insert | src/cmd_context/decl_table.rs:78-115 | counts one more declaration, doubling a crowded table first; a new name goes into the last tombstone before the first free slot, or that slot, and no other slot changes; without tombstones it lands where the layout of the run puts it |
| DeclTables.DeclTable.Erase | src/cmd_context/decl_table.rs:119-148 | counts one declaration less; the slot of a name that leaves becomes free if the next one is, else a tombstone, and too many tombstones are purged by moving the table; an absent name changes nothing |
| DeclTables.DeclTable.Reset | src/cmd_context/decl_table.rs:151-169 | empties the table; it keeps its capacity, and halves it if and only if it was large and mostly free |
| DeclTables.DeclTable.Names | src/cmd_context/decl_table.rs:172-178 | lists each declared name once, in the order of the slots |
| DeclTables.MoveTable | src/cmd_context/decl_table.rs:62-74 | the moved table holds the same entries, each found from its home, in the layout of their slot order |
| DeclTables.FoundFreed | src/cmd_context/decl_table.rs:130-134 | freeing a slot whose successor is free hides no other name |
| DeclTables.FreeMeansAbsent | src/cmd_context/decl_table.rs:87-113 | a probe that meets a free slot has shown that the name is absent |
| DeclTables.FreeRemains | src/cmd_context/decl_table.rs:78-115 | a free slot always remains, so that every probe ends |
| DeclTables.InsertRun | src/cmd_context/decl_table.rs:78-115 | any distinct names inserted one by one into a new table are listed, each once, in the slot order that `obj_map_slot_order` gives their indices and `umap_order` their hashes |
| PrintDocs.FlatWidthIsLength | src/cmd_context/smt2_pp.rs:86-93 | the flat width is the length of the text in one line |
| PrintDocs.Layout | src/cmd_context/smt2_pp.rs:97-133 | the work list prints what the recursive layout prints, and so keeps every string, breaks lines as indentation and groups say, and prints a group on one line if and only if it fits |
| PrintDocs.LayReflows | src/cmd_context/smt2_pp.rs:97-133 | the layout keeps every string; a line break is a space in a group printed flat, else a new line with exactly the spaces of the indentations around it |
| PrintDocs.LayFitted | src/cmd_context/smt2_pp.rs:114-117 | which groups are flat can be read off the text: those that fit from the column where the text stands, if no string holds a line end |
| PrintDocs.Seq1Broken | src/cmd_context/smt2_pp.rs:60-70 | too wide for its line, the elements are each on a line of their own, aligned after the header |
| PrintDocs.Seq5Broken | src/cmd_context/smt2_pp.rs:73-83 | too wide for its line, the elements are each on a line of their own, aligned after the parenthesis |
| PrintDocs.GroupFits | src/cmd_context/smt2_pp.rs:114-117 | a group is printed in one line if it fits within the width, and as its content otherwise |
| PrintDocs.Seq1Text | src/cmd_context/smt2_pp.rs:60-70 | in one line, the header and the elements, if any, in parentheses, separated by spaces |
| PrintDocs.Seq5Text | src/cmd_context/smt2_pp.rs:73-83 | in one line, the elements in parentheses, separated by spaces |
| PrintTerms.AliasNameInjective | src/cmd_context/smt2_pp.rs:282-284 | different aliases have different names |
| PrintTerms.EntriesPush | src/cmd_context/smt2_pp.rs:282-285 | a new alias, defined from aliases of lower level alone, keeps every alias standing for its node |
| PrintTerms.NestExpands | src/cmd_context/smt2_pp.rs:372-400 | one `let` a level, the lowest outermost, is well scoped, and expanding it gives the body its aliases' values |
| PrintTerms.NestSizes | src/cmd_context/smt2_pp.rs:400 | the `let`s weigh eight for each alias and do not deepen the term |
| PrintTerms.ShownFlattens | src/cmd_context/smt2_pp.rs:210-215 | merging unshared nested applications changes a term by flattening alone |
| TermPrinter.ApplyText | src/cmd_context/smt2_pp.rs:216-243 | the document of an application says, in one line, the head and its arguments in parentheses, whichever way it is indented |
| TermPrinter.ApplyAligned | src/cmd_context/smt2_pp.rs:235-243 | too wide for its line, an application with a short head has its arguments aligned after it |
| TermPrinter.ApplyIndented | src/cmd_context/smt2_pp.rs:235-243 | with a long or an indexed head, each argument is on a line of its own, indented by two |
| TermPrinter.QuantText | src/cmd_context/smt2_pp.rs:252-266 | the document of a quantifier says the binder, its variables and its body |
| TermPrinter.Printer.Visit | src/cmd_context/smt2_pp.rs:176-245 | the documents print expressions that expand to what is shown of the node there; none but the root's is too deep, or shared and heavy |
| TermPrinter.Printer.VisitArgs | src/cmd_context/smt2_pp.rs:205-209 | the arguments are printed in order, merging ones as their own arguments, later aliases leaving earlier documents right |
| TermPrinter.Printer.Summary | src/cmd_context/smt2_pp.rs:223-234 | level, weight and depth are those of the printed expression |
| TermPrinter.Printer.Quantifier | src/cmd_context/smt2_pp.rs:249-273 | the quantifier's body is printed in a scope of its own, without free aliases, with its weight and depth |
| TermPrinter.Printer.Store | src/cmd_context/smt2_pp.rs:277-297 | the document, or an alias that stands for it if and only if it is too deep, or shared and heavy, and not the root |
| TermPrinter.WrapLets | src/cmd_context/smt2_pp.rs:372-400 | the text of the nested `let`s around the body, levels without aliases left out |
| TermPrinter.LetDoc | src/cmd_context/smt2_pp.rs:344-401 | the document prints a closed expression that expands to what is shown of the node |
| TermPrinter.SharedNodes | src/cmd_context/smt2_pp.rs:302-317 | exactly the nodes with arguments that more than one edge from a reachable node leads to |
| TermPrinter.SharesSharing | src/cmd_context/smt2_pp.rs:302-317 | an unshared node is an argument of one reachable node only |
| PrintReading.ReadExpands | src/cmd_context/smt2_pp.rs:282-291 | read by name, an expression is what expanding its aliases gives, if no constant or bound variable is named as an alias |
| PrintReading.SameName | src/cmd_context/smt2_pp.rs:282-291 | an alias and a symbol of its name print and read alike |
| PrintReading.Captured | src/cmd_context/smt2_pp.rs:282-291 | beside two uses of alias 1, for whatever application, a constant `a!1` is read as that application |
| TermPrinter.PrintTerm | src/cmd_context/smt2_pp.rs:329-339 | the text is the layout of a document that says a closed expression; expanding its aliases, or reading it by name when no symbol is named as an alias, gives the term, up to flattening unshared nested associative applications |
| AstNodes.SameNode | src/ast/node.rs:177-188 | label, family and children make up a node |
| AstNodes.MaximalSharing | src/ast/manager.rs:213-229 | in every reachable manager two ids are equal if and only if their unfolded terms are |
| AstNodes.NodePushed | src/ast/manager.rs:222-224 | appending a new well-formed node keeps the graph's invariant |
| AstManagers.VisitMarks.Fresh | src/ast/manager.rs:138-157 | a traversal starts with no node marked, also when the epoch wraps around |
| AstManagers.AstManager.Intern | src/ast/manager.rs:213-229 | finds the node or appends it; it is appended if and only if it is nowhere; old ids keep their content |
| AstManagers.AstManager.Grow | src/ast/manager.rs:232-241 | every node is in its bucket of the doubled table |
| AstManagers.AstManager.MkFamilyId | src/ast/manager.rs:168-175 | a registered name keeps its id, a new one gets the next; names stay distinct |
| AstManagers.AstManager.MkArraySort | src/ast/array.rs:49-57 | the sort unfolds to the array sort of its parts |
| AstManagers.AstManager.GetSort | src/ast/manager.rs:447-457 | the sort unfolds to the sort of the expression |
| AstManagers.AstManager.MkQuantifier | src/ast/manager.rs:324-358 | the node carries the sort that kind, variables and body call for |
| Traversals.FinishOrdered | src/ast/query.rs:80-105 | children come before parents, each node once |
| Traversals.FinishReaches | src/ast/query.rs:80-105 | exactly the nodes reached are added |
| Traversals.FinishFlat | src/ast/query.rs:80-105 | skipping marked nodes only drops repeats from the traversal that never looks back |
| Traversals.AddedLess | src/ast/query.rs:75-79 | from a larger closed start the traversal adds the same nodes in the same order, but for those it has |
| Traversals.ManyRoots | src/ast/query.rs:75-79 | one traversal of many roots is that of each in turn with repeats dropped |
| AstQueries.FramesRun | src/ast/query.rs:96-101 | running the frames of the unmarked children finishes all children, the last one first |
| AstQueries.PostorderMany | src/ast/query.rs:80-105 | the stack with marks lists what the recursive traversal lists, and ends; listed are exactly the expressions within the roots' unfolded terms, and unfolded the list is the order of those terms, last argument first, with repeats dropped |
| AstQueries.PostorderLists | src/ast/query.rs:75-105 | each reachable expression once, children before parents, and root by root with repeats dropped |
| AstQueries.ReachesWithin | src/ast/query.rs:18-27 | what an expression reaches are the expressions within its unfolded term: below an application's arguments or a quantifier's body |
| AstQueries.PostorderTerms | src/ast/query.rs:75-105 | listed are exactly the expressions within some root's term, and what is within an expression comes no later |
| AstQueries.PostorderOrder | src/ast/query.rs:75-105 | unfolded, the list is the post-order of the roots' terms with repeats dropped |
| AstQueries.PostorderLtr | src/ast/query.rs:42-72 | the stack lists the nodes in the order a recursive left-to-right traversal finishes them, and ends |
| AstQueries.LtrLists | src/ast/query.rs:32-41 | each node reached through entered applications once, arguments first, the root last |
| AstQueries.LtrTerms | src/ast/query.rs:32-72 | unfolded, the list is the left-to-right post-order of the root's term through the applications entered, with repeats dropped |
| AstQueries.GetDepth | src/ast/query.rs:121-133 | the depth over a post-order is the height of the unfolded expression |
| AstQueries.DepthIsHeight | src/ast/query.rs:121-133 | one more than the greatest depth of the children is the height of the term |
| AstTranslation.TranslateFamily | src/ast/translation.rs:122-131 | the target's family has the same name; null and unregistered families become null |
| AstTranslation.TranslateInfo | src/ast/translation.rs:98-118 | the info has the same label, and its nodes are copies |
| AstTranslation.TranslateMemo | src/ast/translation.rs:32-94 | the result has the source's term; the target only grows and the memo stays right; recursion ends because children have smaller ids |
| AstTranslation.TranslateQuantifier | src/ast/translation.rs:78-90 | the sort derived anew in the target is the copy of the source's |
| AstTranslation.Translate | src/ast/translation.rs:27-30 | the result has the source's term, and every id of the target keeps its own |
| AstTranslation.TranslationInjective | src/ast/translation.rs:24-30 | copies are the same node if and only if the originals are |
| AstTranslation.ThereAndBack | src/ast/translation.rs:24-30 | translated back, a term gets its old id, whatever its manager has become |
| Intervals.NewContains | src/math/interval.rs:70-81 | the normalised interval contains what is within both bounds |
| Intervals.EmptyIff | src/math/interval.rs:66-81 | an interval is empty if and only if it contains nothing |
| Intervals.NegExact | src/math/interval.rs:135-140 | contains exactly the negated members |
| Intervals.AddExact | src/math/interval.rs:144-159 | contains exactly the sums of members, infinite and open ends included |
| Intervals.SubExact | src/math/interval.rs:162-164 | contains exactly the differences of members |
| Intervals.IntersectExact | src/math/interval.rs:199-215 | contains exactly the common members |
| Intervals.Extreme | src/math/interval.rs:332-353 | the least or greatest corner, closed if and only if some corner of its value is |
| Intervals.CornerBelow | src/math/interval.rs:303-326 | some corner is at most the product of two members, openness included |
| Intervals.NearCorner | src/math/interval.rs:303-326 | near a corner below a number there is a product below it |
| Intervals.Mul | src/math/interval.rs:169-196 | contains every product of members and nothing else but perhaps 0; it is the image unless neither factor contains 0 and an end 0 of one meets an end of the other that is 0 or infinite, and only then it is not |
| Intervals.PinnedIff | src/math/interval.rs:303-326 | of factors without 0, a corner is a closed 0 if and only if an end 0 meets an end that is 0 or infinite |
| Intervals.ZeroGained | src/math/interval.rs:187-196 | of factors without 0, the least and greatest corner admit 0 between them if and only if some corner is pinned to it |
| Intervals.NotTheImage | src/math/interval.rs:169-196 | the product of two open positive half-lines starts at a closed 0, which is no product |
| TruncatedDecimals.SaysOne | src/cmd_context/algebraic_pp.rs:805-833 | a text says one number, one count of places, and a mark or none |
| TruncatedDecimals.FormatTrunc | src/cmd_context/algebraic_pp.rs:805-833 | the text says the number cut off after at most `precision` places, by long division, and is marked if something is left and there are places |
| TruncatedDecimals.TextTells | src/cmd_context/algebraic_pp.rs:805-833 | what is said is at most the number, by less than one in the last place; the mark is there if and only if it is less, exactly when there are places or the number is an integer |
| TruncatedDecimals.UnmarkedCut | src/cmd_context/algebraic_pp.rs:818-831 | one half without places is cut off although there is no mark |

## Left out

- WorkRow.TermOk: not a contract of the source's types but what `add_term` needs of its callers; with a zero coefficient the same column could enter the row twice.
- Simplex.Lar.Solve: that a run ends without spending its budget, and which vertex it ends on, are not claimed.
- RegexInfo.LengthsSound: is about words of at most `u32::MAX` characters, because the domain saturates there.
- LengthAbs.ResiduesModIff: a period of 64, or one that neither divides the modulus nor is divided by it, is over-approximated by the code, as are bounds that saturate.
- RegexQueries.MkInRe: is about values of at most `u32::MAX` characters, for the same reason; the order of disjuncts, which only affects printing, is not modelled.
- RegexRewriter.ReSimp.MkReConcat: the nesting of simplifier calls is bounded by a fuel; past it the term is left as it is, and that the code's own nesting ends is not claimed.
- RegexRewriter.ReSimp.Simplify: the same fuel.
- RegexDerivatives.RangeQuotIff: is the exact condition for a range; for a compound term the condition on its ranges is sufficient, because another part can make up for a range that is missed.
- PrintReading.ReadExpands: names are resolved in the expression; splitting a text into symbols is not modelled.
- RegexDerivatives.Derivative: that derivatives of a ground regex are ground is not claimed; equivalence does not rely on it.
- DeclTables.DeclTable.Insert: the bit mask of a capacity that is a power of two is the remainder, and the hash is any function.
- Loop bounds of regexes are unbounded naturals; overflow of their sums and products is not modelled.
- String terms and conditions are parts of the arena's nodes instead of nodes of their own; the relative order of regex ids is the same.
- The Boolean layer of `regex_simp.rs` (`mk_eq`, `mk_and`, `mk_or`, `mk_ite` on Booleans, `ast_lt`, emptiness of regexes as a formula) beyond what membership needs, and printing.
- AstManagers.AstManager.MkSort: takes a family id that is null or registered; what a dangling one would mean once its number is registered is not modelled.
- WordSearch.Search: the length oracle is a function of the lengths, while the source's may change its answers from call to call.
- AstQueries.PostorderLtr: `enter` is a function of the node; the code asks it once for each node.
- The other constructors and recognizers of `src/ast/` (arithmetic, bit-vectors, arrays, parameters), the resource limit, and the printing of `src/ast/pp.rs`.
- TermPrinter.Printer.Summary: the summaries are unbounded naturals, not 32 bits wide.
- Printing of function interpretations and of value texts (`pp_func_interp`, `pp_value` in `src/cmd_context/smt2_pp.rs`), which build the same documents.
- TruncatedDecimals.FormatTrunc: the number is given by numerator and denominator; lowest terms play no part.
- Polynomials: pseudo-division and factoring (`src/math/factor.rs`), whose polynomial ring is in a separate library, and the algebraic numbers of `src/cmd_context/algebraic_pp.rs`.
- The C interface, the API layer, process input and output, and the solver engines.
