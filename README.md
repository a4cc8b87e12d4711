# MDSL membrane simulator, modelled in Dafny

The simulator runs reaction networks written in MDSL inside a tree of nested
compartments called membranes. Each membrane instance has a type, a generated
unique tag `<type>_<n>` and any user tags. It holds three species-count
multisets: `on`, `under` and `contained`. An `around X` reference stands for
the `contained` pool of the parent of an `X` membrane.

Reactions consume and produce located species. Each has a rate modifier
equation and an optional delay before its products appear. The engine is
Gillespie's direct method:

- a dense table of propensities, one row per reaction and one column per membrane;
- a static dependency map that says which entries to recompute after a firing;
- a selection walk driven by two uniform draws;
- a queue of delayed product releases that competes with the stochastic choice at every step.

The modules follow the program's packages:

| module | file | models |
|---|---|---|
| `Wrappers` | wrappers.dfy | `Option`/`Result` for the program's nulls and exceptions |
| `Text` | text.dfy | integer printing and parsing, `trim`, lower-casing, Java `int` wrap-around |
| `Collections` | collections.dfy | listing a set once per member, in an order the model leaves open |
| `Species` | species.dfy | `Location`, `LocatedSpecies`, `StoichiometrySpecies`: equality, ordering, printing |
| `Values` | values.dfy | `ReactionRateIndex`, `LocatedReaction`, `PossibleReaction`, `ChosenReaction` |
| `Equations` | equations.dfy | the rate-equation tree, its evaluation in one membrane, its printing |
| `Simplification` | simplify.dfy | constant folding with parameter substitution (`simplifyEquation*`) |
| `Reactions` | reactions.dfy | `Reaction`: anchor membrane type, rate equation, delay, modified and dependent species |
| `ReactionBuilding` | reaction_builder.dfy | `ReactionBuilder` |
| `Models` | model.dfy | `MembraneModel`: tag and parameter lookups, reaction dependencies |
| `Membranes` | membranes.dfy | the membrane tree as an arena class: tags, matching, adding and counting species, rates |
| `FullState` | full_state.dfy | `toFullStateString`: the tree and the species lines that restart a run |
| `MembraneBuilding` | membrane_builder.dfy | `MembraneBuilder` and the membrane part of `SimulationFactory` |
| `Factory` | factory.dfy | the rest of the `SimulationFactory` rules: stoichiometry tokens, reverse reactions, initial seeding, semantic checks |
| `RateTables` | rate_table.dfy | `ReactionRateTableSimulation` |
| `Simulations` | simulation.dfy | `Simulation`: the event queue, `step`, `runForSeconds`, `runSeconds` |
| `Diagrams`, `DiagramBuilding`, `DiagramReading` | graph.dfy, graph_create.dfy, graph_read.dfy | `Graph`: nodes and edges, clusters, `create`, `readFromGraphFile` |
| `Logging` | logging.dfy | the log-level registry |
| `Driver` | driver.dfy | run-length and print-interval defaults, the print list, include lines, the Python command |

## Representation choices

- **Identity.** Membranes are indices into the tree's arena, in creation order, so a parent always comes before its children. Reactions are positions in the model's list. Java object identity becomes equality of these numbers.
- **Numbers.** Doubles are `real`s. `Math.log` is a function parameter `ln`, assumed non-negative above 1 where the proofs need it. `Math.round(x)` is floor(x + 0.5).
- **Random draws.** The random generator is a stream of draws `rand(0), rand(1), ...` strictly between 0 and 1.
- **Unique-tag counter.** The process-wide counter is a map field of the tree, threaded through construction.

## Model

| member | source | states |
|---|---|---|
| Species.Ordinal | simulator/src/main/java/com/simomics/leishsim/model/Location.java:6-19 | the four locations take the distinct positions 0 to 3 in declaration order on, under, contained, around |
| Species.ParseLocation | simulator/src/main/java/com/simomics/leishsim/parsing/SimulationFactory.java:266 | `Location.valueOf` accepts only a location's exact printed name and then yields that location |
| Species.ParseLocationName | simulator/src/main/java/com/simomics/leishsim/parsing/SimulationFactory.java:286-288 | the printed name of every location parses back to that location |
| Species.CompareZeroIffEqual | simulator/src/main/java/com/simomics/leishsim/model/LocatedSpecies.java:60-85 | `compareTo` is 0 exactly when `equals` holds: membrane name, location and species name all equal |
| Species.CompareAntisymmetric | simulator/src/main/java/com/simomics/leishsim/model/LocatedSpecies.java:72-84 | swapping the operands of `compareTo` negates the result |
| Species.CompareTransitive | simulator/src/main/java/com/simomics/leishsim/model/LocatedSpecies.java:72-84 | membrane name, then location order, then species name is a transitive order |
| Species.SpeciesTextInjective | simulator/src/main/java/com/simomics/leishsim/model/LocatedSpecies.java:41-50 | for names without spaces, the printed form "species location membrane" determines the located species |
| Values.Int32 | simulator/src/main/java/com/simomics/leishsim/simulation/ReactionRateIndex.java:38-43 | Java `int` arithmetic: the result lies in the 32-bit range and is the value itself when that already does |
| Values.HashPair | simulator/src/main/java/com/simomics/leishsim/simulation/ReactionRateIndex.java:37-43 | the hash of a (reaction id, membrane id) pair is a 32-bit value computed from the two ids only, so equal indexes hash alike |
| Values.LocatedReactionHashConsistent | simulator/src/main/java/com/simomics/leishsim/simulation/LocatedReaction.java:39-54 | located reactions that are equal (same reaction and membrane) hash alike, and equality ignores the rate |
| Values.SumRatesRemove | simulator/src/main/java/com/simomics/leishsim/simulation/PossibleReaction.java:34-40 | the total of the per-membrane rates does not depend on the order the map hands them out |
| Values.SumRatesNonNegative | simulator/src/main/java/com/simomics/leishsim/simulation/PossibleReaction.java:34-40 | non-negative rates sum to a non-negative total, which is 0 exactly when every rate is 0 |
| Values.GetRate | simulator/src/main/java/com/simomics/leishsim/simulation/PossibleReaction.java:34-40 | the loop returns the sum of every per-membrane rate of the reaction |
| Collections.Enumerate | simulator/src/main/java/com/simomics/leishsim/Driver.java:270-272 | listing the species names visits each name exactly once; the order is left open |
| Text.DigitChar | simulator/src/main/java/com/simomics/leishsim/simulation/Membrane.java:96-107 | the character written for a decimal digit is a digit character of that value |
| Text.NatToStringNumeric | simulator/src/main/java/com/simomics/leishsim/simulation/Membrane.java:112-120 | a number written in decimal passes `StringUtils.isNumeric`, the test generated tags are recognised by |
| Text.NatToStringRoundTrip | simulator/src/main/java/com/simomics/leishsim/simulation/Membrane.java:96-120 | writing a number in decimal and reading the digits back gives the number |
| Text.NatToStringInjective | simulator/src/main/java/com/simomics/leishsim/simulation/Membrane.java:96-107 | distinct counters are written as distinct digit strings |
| Text.TrimLeft | simulator/src/main/java/com/simomics/leishsim/Driver.java:191-193 | `trim` drops a prefix of characters up to U+0020 and stops at the first other character |
| Text.TrimRight | simulator/src/main/java/com/simomics/leishsim/Driver.java:191-193 | `trim` drops a suffix of characters up to U+0020 and stops at the last other character |
| Text.ToLower | simulator/src/main/java/com/simomics/leishsim/Driver.java:191 | lower-casing keeps the length and maps each character on its own |
| Text.CompareZeroIffEqual | simulator/src/main/java/com/simomics/leishsim/model/LocatedSpecies.java:74 | `String.compareTo` is 0 exactly for equal strings |
| Text.CompareAntisymmetric | simulator/src/main/java/com/simomics/leishsim/model/LocatedSpecies.java:74 | swapping the strings negates `String.compareTo` |
| Text.CompareTransitive | simulator/src/main/java/com/simomics/leishsim/model/LocatedSpecies.java:82 | `String.compareTo` orders strings transitively |
| Text.SpaceSeparatedInjective | simulator/src/main/java/com/simomics/leishsim/model/LocatedSpecies.java:43-48 | a space-free word followed by a space splits off uniquely |
| Text.ToInt | simulator/src/main/java/com/simomics/leishsim/Driver.java:235 | Java `int` arithmetic: the result is in range, congruent to the exact value modulo 2^32, and equal to it when no overflow occurs |
| Text.ParseInt | simulator/src/main/java/com/simomics/leishsim/parsing/SimulationFactory.java:413 | `Integer.valueOf` succeeds only on a signed run of digits within the int range and otherwise fails with the NumberFormatException message |
| Text.ParseIntRoundTrip | simulator/src/main/java/com/simomics/leishsim/parsing/SimulationFactory.java:413 | every int written in decimal reads back as itself |
| Text.Pieces | simulator/src/main/java/com/simomics/leishsim/diagramming/Graph.java:253 | cutting at a separator gives one more piece than there are separators |
| Text.PiecesJoin | simulator/src/main/java/com/simomics/leishsim/diagramming/Graph.java:253 | the pieces glued back with the separator give the line again, and no piece holds the separator |
| Text.PiecesOfPlain | simulator/src/main/java/com/simomics/leishsim/diagramming/Graph.java:253 | a line without the separator is a single piece |
| Text.PiecesAfter | simulator/src/main/java/com/simomics/leishsim/diagramming/Graph.java:253 | a leading part without the separator splits off at the first separator |
| Text.DropTrailingEmpty | simulator/src/main/java/com/simomics/leishsim/diagramming/Graph.java:253 | `split` drops exactly the trailing empty pieces and keeps the rest in order |
| Text.Repeat | simulator/src/main/java/com/simomics/leishsim/diagramming/Graph.java:253 | n copies of one character |
| Text.SplitKeyValue | simulator/src/main/java/com/simomics/leishsim/diagramming/Graph.java:253-258 | `key:value` followed by any number of colons splits into exactly the key and the value |
| Text.PiecesOfRepeat | simulator/src/main/java/com/simomics/leishsim/diagramming/Graph.java:253 | a piece followed by n separators cuts into the piece and n empty pieces |
| Text.SplitIntoTwo | simulator/src/main/java/com/simomics/leishsim/diagramming/Graph.java:253-258 | conversely, a line that splits into two parts is `key:value` followed only by separators, with a non-empty value |
| Text.JoinEmpties | simulator/src/main/java/com/simomics/leishsim/diagramming/Graph.java:253 | a piece followed by n empty pieces joins into the piece followed by n separators |
| Equations.LeafOf | simulator/src/main/java/com/simomics/leishsim/model/equations/LocatedSpeciesExpression.java:14-17 | a species named in an equation is a leaf of that species with stoichiometry 1 |
| Equations.StoichiometryLeafOf | simulator/src/main/java/com/simomics/leishsim/model/equations/LocatedSpeciesExpression.java:19-22 | a reactant of a reaction becomes a leaf keeping its species and its stoichiometry |
| Equations.RoundHalfUp | simulator/src/main/java/com/simomics/leishsim/model/equations/RoundExpression.java:17-20 | `Math.round` gives the integer nearest to x, ties going up: within half a unit below-exclusive, above-inclusive |
| Equations.ApplyBinary | simulator/src/main/java/com/simomics/leishsim/model/equations/DivideExpression.java:17-23 | applying an operator fails exactly for a division by zero, with the message "Divide by zero"; add, subtract and multiply never fail |
| Equations.ChooseOne | simulator/src/main/java/com/simomics/leishsim/model/equations/LocatedSpeciesExpression.java:37-39 | choosing one copy out of n can be done n ways |
| Equations.ChooseTwo | simulator/src/main/java/com/simomics/leishsim/model/equations/LocatedSpeciesExpression.java:40-41 | twice the number of pairs out of n is n(n-1) |
| Equations.ChooseAbsorption | simulator/src/main/java/com/simomics/leishsim/model/equations/LocatedSpeciesExpression.java:42-43 | the absorption identity k·C(n,k) = n·C(n-1,k-1) holds for the binomial used for higher stoichiometries |
| Equations.ChooseValues | simulator/src/test/java/com/simomics/leishsim/test/simulation/ReactionRatesTests.java:52-59 | the binomials the expected rates of the rate test are built from: C(11,2)=55, C(11,5)=462, C(13,7)=1716, C(13,3)=286 |
| Equations.ChooseAbove | simulator/src/main/java/com/simomics/leishsim/model/equations/LocatedSpeciesExpression.java:42-43 | there is no way to pick more copies than are present |
| Equations.PairFormula | simulator/src/main/java/com/simomics/leishsim/model/equations/LocatedSpeciesExpression.java:40-41 | the stoichiometry-2 term is the integer n(n-1)/2 of the source |
| Equations.MassActionIsBinomial | simulator/src/main/java/com/simomics/leishsim/model/equations/LocatedSpeciesExpression.java:33-45 | for every stoichiometry s from 1 up to the count n, the species term is the number of ways C(n,s) to pick the reacting copies |
| Equations.MassActionOrderOne | simulator/src/main/java/com/simomics/leishsim/model/equations/LocatedSpeciesExpression.java:37-39 | genes and catalysts (stoichiometry 0) count with order 1, like stoichiometry 1: the term is n |
| Equations.OperandFailure | simulator/src/main/java/com/simomics/leishsim/model/equations/OperationExpression.java:21-24 | a binary operation fails exactly when an operand fails or it divides by zero; a failing left operand's error wins, then the right one's |
| Equations.UnaryFailure | simulator/src/main/java/com/simomics/leishsim/model/equations/UnaryOperationExpression.java:20-23 | round and ln fail exactly when their operand does, and otherwise apply to its value |
| Equations.ConstantEvalIndependent | simulator/src/main/java/com/simomics/leishsim/model/equations/NumberExpression.java:27-30 | an equation without species has the same value in every membrane, which is why the source may evaluate it with no membrane |
| Equations.TotalEvalSucceeds | simulator/src/main/java/com/simomics/leishsim/model/equations/Equation.java:16-26 | an equation of numbers, order-1 or order-2 species, add, subtract, multiply, round and ln never raises; only division, parameters and larger binomials can |
| Equations.ExprTextBalanced | simulator/src/main/java/com/simomics/leishsim/model/equations/OperationExpression.java:8-50 | the printed form of every equation has balanced parentheses and ends with a closing one, so each operand prints as one bracketed unit |
| Equations.SpeciesDepth | simulator/src/main/java/com/simomics/leishsim/model/equations/LocatedSpeciesExpression.java:28-31 | a species' printed name holds no parenthesis |
| Equations.NumberDepth | simulator/src/main/java/com/simomics/leishsim/model/equations/NumberExpression.java:16-25 | a number prints as a single bracketed unit |
| Equations.BinaryWrapped | simulator/src/main/java/com/simomics/leishsim/model/equations/AddExpression.java:12-15 | "(left op right)" of balanced operands is balanced and ends with ")" |
| Equations.UnaryWrapped | simulator/src/main/java/com/simomics/leishsim/model/equations/RoundExpression.java:12-15 | "round(x)" and "ln(x)" of a balanced operand are balanced and end with ")" |
| Simplification.SimplifySound | simulator/src/main/java/com/simomics/leishsim/parsing/SimulationFactory.java:603-686 | when simplification succeeds, the simplified equation has, in every membrane, the value of the original with each parameter replaced by its value |
| Simplification.SimplifyNoneFails | simulator/src/main/java/com/simomics/leishsim/parsing/SimulationFactory.java:603-686 | when simplification gives null (an undefined parameter, a constant division by zero), evaluating the equation fails in every membrane |
| Simplification.SimplifyNormal | simulator/src/main/java/com/simomics/leishsim/parsing/SimulationFactory.java:603-686 | a simplified equation mentions no parameter and has no operation left whose operands are all numbers |
| Simplification.SimplifyFixpoint | simulator/src/main/java/com/simomics/leishsim/parsing/SimulationFactory.java:603-686 | an equation already free of parameters and foldable operations is left as it is |
| Simplification.SimplifyIdempotent | simulator/src/main/java/com/simomics/leishsim/parsing/SimulationFactory.java:603-686 | simplifying twice gives the same as simplifying once |
| Simplification.ConstantFoldsToNumber | simulator/src/main/java/com/simomics/leishsim/parsing/SimulationFactory.java:603-686 | an equation without species simplifies to a single number whenever it simplifies at all |
| Simplification.SimplifyToRealIsValue | simulator/src/main/java/com/simomics/leishsim/parsing/SimulationFactory.java:693-706 | the number `simplifyEquationToDouble` gives is the equation's value in any membrane |
| Simplification.JavaIntCast | simulator/src/main/java/com/simomics/leishsim/parsing/SimulationFactory.java:718 | Java's `(int)` cast truncates toward zero and saturates, so its result is always in the int range |
| Simplification.SimplifyToIntIff | simulator/src/main/java/com/simomics/leishsim/parsing/SimulationFactory.java:713-724 | `simplifyEquationToInteger` gives i exactly when the equation's number is the whole number i within the int range, and null otherwise |
| Factory.StoichiometryOf | simulator/src/main/java/com/simomics/leishsim/parsing/SimulationFactory.java:406-415 | no token means stoichiometry 1, "gene" and "catalyst" mean 0, any other token is read as a Java int, and a token that is not one fails |
| Factory.StoichiometryTokenRoundTrip | simulator/src/main/java/com/simomics/leishsim/parsing/SimulationFactory.java:406-415 | every int written in decimal is read back as that stoichiometry and never taken for a keyword |
| Factory.ConsistentSwap | simulator/src/main/java/com/simomics/leishsim/model/Reaction.java:160-204 | whether the membrane types of a reaction's species conflict does not depend on their order, so swapping reactants and products keeps a valid reaction valid |
| Factory.AnchorUnique | simulator/src/main/java/com/simomics/leishsim/model/Reaction.java:160-204 | a consistent reaction has at most one anchor type: the on/under type when there is one, else the contained/around type |
| Factory.AnchorTypeSwap | simulator/src/main/java/com/simomics/leishsim/model/Reaction.java:160-204 | the anchor type is the same when reactants and products are swapped |
| Factory.ReverseReaction | simulator/src/main/java/com/simomics/leishsim/parsing/SimulationFactory.java:472-488 | the reverse of a reversible reaction consumes the forward's products and produces its reactants, with the reverse modifier and delay and the same MDSL line; it is created whenever the forward one was, and has the same membrane type |
| Factory.MatchingKeptByShape | simulator/src/main/java/com/simomics/leishsim/simulation/Membrane.java:164-184 | which membranes a name and location pick depends only on the tree's shape, types and tags, not on its counts |
| Factory.SeedOneShape | simulator/src/main/java/com/simomics/leishsim/parsing/SimulationFactory.java:954-956 | adding an initial species to membranes changes only their counts |
| Factory.SeededShape | simulator/src/main/java/com/simomics/leishsim/parsing/SimulationFactory.java:947-957 | seeding every initial species leaves the tree's membranes, types, tags and links as they were |
| Factory.SeedSingleCount | simulator/src/main/java/com/simomics/leishsim/parsing/SimulationFactory.java:955 | a membrane picked once gains exactly the entry's count of the species at that location |
| Factory.SeedInitialSpecies | simulator/src/main/java/com/simomics/leishsim/parsing/SimulationFactory.java:947-957 | each initial entry is added, with its count, once to each membrane its membrane name and location pick in the tree as built, and the tree stays well formed |
| Factory.SeedMatching | simulator/src/main/java/com/simomics/leishsim/parsing/SimulationFactory.java:954-956 | the inner loop visits each matching membrane exactly once and adds the count to each |
| Factory.SemanticChecks | simulator/src/main/java/com/simomics/leishsim/parsing/SimulationFactory.java:760-833 | the four warnings list exactly the located species used but not listed, those listed but not used, the parameters used but not defined, and those defined but not used; each pair partitions the union |
| Factory.CheckModel | simulator/src/main/java/com/simomics/leishsim/parsing/SimulationFactory.java:801-803 | the model is refused, with the "model is not valid" message, exactly when a parameter is used without being defined; unlisted or unused species only warn |
| Factory.AllSpeciesNames | simulator/src/main/java/com/simomics/leishsim/parsing/SimulationFactory.java:938-940 | the model's species names are exactly the names of the listed and the inferred located species |
| Membranes.AddCount | simulator/src/main/java/com/simomics/leishsim/simulation/Membrane.java:287-292 | `Multiset.add` for a positive amount and `remove` otherwise: the species' count becomes the sum clamped at 0 and no other species changes |
| Membranes.AddRemoveRoundTrip | simulator/src/main/java/com/simomics/leishsim/simulation/Membrane.java:287-292 | adding n copies and then removing n copies restores every count |
| Membranes.GeneratedTagIsUnique | simulator/src/main/java/com/simomics/leishsim/simulation/Membrane.java:103-120 | every generated tag "type_k" passes `isUniqueTag`, so a tag copied back from an earlier run's output is recognised and dropped |
| Membranes.SplitAtUnderscore | simulator/src/main/java/com/simomics/leishsim/simulation/Membrane.java:103-107 | a type followed by "_" and digits splits in one way only |
| Membranes.UniqueTagInjective | simulator/src/main/java/com/simomics/leishsim/simulation/Membrane.java:103-107 | generated tags are equal exactly when the types and the counters are |
| Membranes.KeptTagsSpec | simulator/src/main/java/com/simomics/leishsim/simulation/Membrane.java:77-82 | the constructor keeps exactly the supplied tags that are not of the unique-tag form for the membrane's type, each once |
| Membranes.WithLocalCounts | simulator/src/main/java/com/simomics/leishsim/simulation/Membrane.java:264-275 | the multiset of the chosen location is replaced and the membrane's other locations, type, tags and links are untouched |
| Membranes.AddedAtCounts | simulator/src/main/java/com/simomics/leishsim/simulation/Membrane.java:264-293 | adding n of a species at a location of a membrane makes its count there the clamped sum, leaves the other species there unchanged and keeps the tree's shape |
| Membranes.AddedAtFrame | simulator/src/main/java/com/simomics/leishsim/simulation/Membrane.java:264-293 | every membrane other than the target, and for `around` its parent, keeps all its counts |
| Membranes.AroundAtRootIsNoOp | simulator/src/main/java/com/simomics/leishsim/simulation/Membrane.java:276-280 | an addition to `around` of the outermost membrane is refused and changes nothing |
| Membranes.ResolveNumAgreesWithAdd | simulator/src/main/java/com/simomics/leishsim/simulation/Membrane.java:224-259 | where no tag is involved, `numSpecies` looks up the same membrane and location that `addSpecies` writes to |
| Membranes.TagOnlyCountsZero | simulator/src/main/java/com/simomics/leishsim/simulation/Membrane.java:228 | a species naming a membrane by a tag only is added to that membrane, but `numSpecies` reads 0 for it |
| Membranes.AddedLocatedCount | simulator/src/main/java/com/simomics/leishsim/simulation/Membrane.java:224-259 | adding a located species and counting it back gives the clamped sum |
| Membranes.StoichiometryMatches | simulator/src/main/java/com/simomics/leishsim/simulation/Membrane.java:336-345 | a reaction can fire in a membrane exactly when every consumed species is present there at least as often as its stoichiometry |
| Membranes.ComputeRate | simulator/src/main/java/com/simomics/leishsim/simulation/Membrane.java:318-328 | the rate is the rate equation's value in that membrane when that evaluates and is not negative; otherwise it fails with "could not evaluate" or "negative rate" |
| Membranes.ComputeRateLocal | simulator/src/main/java/com/simomics/leishsim/simulation/Membrane.java:318-328 | a rate reads only the counts the membrane sees, so trees that agree on them give the same rate |
| Membranes.MatchingMembranes | simulator/src/main/java/com/simomics/leishsim/simulation/Membrane.java:164-184 | the membranes of the subtree whose type is the name, or, when none has that type, those carrying it as a tag; for `around` their parents instead |
| Membranes.OrdinaryMatchingByType | simulator/src/main/java/com/simomics/leishsim/simulation/Membrane.java:204-211 | for a reaction that is not an around reaction, every matching membrane exists and has the reaction's membrane type |
| Membranes.AroundMatchesParents | simulator/src/main/java/com/simomics/leishsim/simulation/Membrane.java:175-180 | the parent of every membrane of the named type is matched by an `around` location |
| Membranes.MatchingIgnoresCounts | simulator/src/main/java/com/simomics/leishsim/simulation/Membrane.java:204-211 | which membranes a reaction matches does not depend on species counts |
| Membranes.CountTypeMonotone | simulator/src/main/java/com/simomics/leishsim/simulation/Membrane.java:103-107 | the per-type counter never goes down and goes up with each membrane of that type |
| Membranes.CountTypeFrame | simulator/src/main/java/com/simomics/leishsim/simulation/Membrane.java:103-107 | the counter reads only membrane types |
| Membranes.TagsDistinct | simulator/src/main/java/com/simomics/leishsim/simulation/Membrane.java:96-107 | all membranes created since the last reset of the counters have pairwise distinct unique tags |
| Membranes.ListIsStack | simulator/src/main/java/com/simomics/leishsim/simulation/Membrane.java:154-156 | walking the children recursively visits the same membranes as the explicit stack walk |
| Membranes.ReachAddChild | simulator/src/main/java/com/simomics/leishsim/simulation/Membrane.java:299-310 | after a membrane is put inside p, the membranes below p are those below p before plus those below the new child |
| Membranes.TagInvariantAppend | simulator/src/main/java/com/simomics/leishsim/simulation/Membrane.java:72-90 | creating a membrane with the next counter value for its type keeps every generated tag in step with its counter |
| Membranes.ShapeAppend | simulator/src/main/java/com/simomics/leishsim/simulation/Membrane.java:72-90 | creating a membrane keeps the tree well formed: links, tags and counters |
| Membranes.AddChildShape | simulator/src/main/java/com/simomics/leishsim/simulation/Membrane.java:299-310 | putting a fresh membrane inside another keeps the tree well formed |
| Membranes.WalkSubtree | simulator/src/main/java/com/simomics/leishsim/simulation/Membrane.java:304-309 | the walk adds to the ancestor's list every membrane of the new child's subtree, each once, keeping what was listed before |
| Membranes.KeepTags | simulator/src/main/java/com/simomics/leishsim/simulation/Membrane.java:77-82 | the constructor's loop keeps exactly the tags `KeptTags` describes |
| Membranes.Tree.constructor | simulator/src/main/java/com/simomics/leishsim/simulation/Membrane.java:36 | an empty tree with all per-type counters at 0 and an empty match cache |
| Membranes.Tree.ResetUniqueTags | simulator/src/main/java/com/simomics/leishsim/simulation/Membrane.java:96-98 | every per-type counter goes back to 0, the tag numbering restarts at the next membrane created, and the membranes stay as they were |
| Membranes.Tree.NewMembrane | simulator/src/main/java/com/simomics/leishsim/simulation/Membrane.java:72-90 | the new membrane has the kept tags, the unique tag "type_k" with k one more than the type's counter, the given parent, no species and no children, and the counter goes up by one; the tag numbering keeps its starting point |
| Membranes.Tree.AddMembrane | simulator/src/main/java/com/simomics/leishsim/simulation/Membrane.java:299-310 | the child joins p's list of contained membranes, p's list of all membranes gains the child's subtree, and nothing else changes, the tag numbering included |
| Membranes.Tree.AddSpeciesAt | simulator/src/main/java/com/simomics/leishsim/simulation/Membrane.java:264-293 | the tree becomes `AddedAt` of the old one |
| Membranes.Tree.AddLocatedSpecies | simulator/src/main/java/com/simomics/leishsim/simulation/Membrane.java:224-259 | the tree becomes `AddedLocated` of the old one |
| Membranes.Tree.StoichiometryMatches | simulator/src/main/java/com/simomics/leishsim/simulation/Membrane.java:336-345 | the loop answers whether every consumed species is present in the stoichiometry it needs |
| Membranes.Tree.AllSpeciesOf | simulator/src/main/java/com/simomics/leishsim/simulation/Membrane.java:420-429 | the loop returns the total count of the species over every location of every membrane of the subtree |
| Membranes.Tree.MatchingMembranesOf | simulator/src/main/java/com/simomics/leishsim/simulation/Membrane.java:164-184 | the loop returns `MatchingMembranes` |
| Membranes.Tree.MatchingFor | simulator/src/main/java/com/simomics/leishsim/simulation/Membrane.java:189-211 | a cached answer is returned as it is; otherwise it is computed and stored; with a coherent cache the answer is always the computed one |
| Membranes.Tree.OfTypeOf | simulator/src/main/java/com/simomics/leishsim/simulation/Membrane.java:165 | the loop returns the membranes of the tree, by the membrane's own index of all membranes, that have the given type |
| Membranes.CacheSurvivesCounts | simulator/src/main/java/com/simomics/leishsim/simulation/Membrane.java:189-202 | a match cache that was right stays right when only species counts change |
| FullState.OwnEntriesRecord | simulator/src/main/java/com/simomics/leishsim/simulation/Membrane.java:535-548 | the species lines of one membrane are exactly its non-zero counts at on, under and contained, each named by the membrane's unique tag |
| FullState.EntriesRecordCounts | simulator/src/main/java/com/simomics/leishsim/simulation/Membrane.java:489-533 | the species lines of the full state are exactly the non-zero counts of all membranes of the subtree, each under its membrane's unique tag |
| FullState.TreeTextBraces | simulator/src/main/java/com/simomics/leishsim/simulation/Membrane.java:507-533 | the initial-tree text of a subtree holds one opening and one closing brace per membrane of it |
| FullState.ReparsedTags | simulator/src/main/java/com/simomics/leishsim/simulation/Membrane.java:77-82 | reading a membrane's tag list back from the output drops the generated tag written first and gives back exactly the kept tags |
| MembraneBuilding.Find | simulator/src/main/java/com/simomics/leishsim/parsing/MembraneBuilder.java:73-74 | the position of a child builder's entry in the multiset of children, or -1 exactly when it has none |
| MembraneBuilding.AddChild | simulator/src/main/java/com/simomics/leishsim/parsing/MembraneBuilder.java:73-74 | `Multiset.add(child, k)`: the child's multiplicity grows by k and every other builder's stays the same |
| MembraneBuilding.MultiplicityUpdate | simulator/src/main/java/com/simomics/leishsim/parsing/MembraneBuilder.java:73-74 | replacing one entry moves the multiplicities of the old and the new builder and of no other |
| MembraneBuilding.BuilderWithSpecies | simulator/src/main/java/com/simomics/leishsim/parsing/MembraneBuilder.java:53-71 | one more copy of the species at its location; the type, tags and children are untouched and counts stay positive |
| MembraneBuilding.BuilderSpeciesCount | simulator/src/main/java/com/simomics/leishsim/parsing/MembraneBuilder.java:53-71 | a species at on, under or contained gains exactly one copy there, and one at `around` is ignored |
| MembraneBuilding.Builders.constructor | simulator/src/main/java/com/simomics/leishsim/parsing/SimulationFactory.java:195 | no builders yet |
| MembraneBuilding.Builders.NewBuilder | simulator/src/main/java/com/simomics/leishsim/parsing/MembraneBuilder.java:33-39 | a new builder with no type, no tags, no species and no children is added after the existing ones |
| MembraneBuilding.Builders.SetType | simulator/src/main/java/com/simomics/leishsim/parsing/MembraneBuilder.java:41-43 | only the builder's type changes |
| MembraneBuilding.Builders.AddTag | simulator/src/main/java/com/simomics/leishsim/parsing/MembraneBuilder.java:49-51 | the tag is appended to the builder's tag list, duplicates included |
| MembraneBuilding.Builders.AddSpecies | simulator/src/main/java/com/simomics/leishsim/parsing/MembraneBuilder.java:53-71 | the builder becomes `BuilderWithSpecies` of itself and the arena stays well formed |
| MembraneBuilding.Builders.AddMembrane | simulator/src/main/java/com/simomics/leishsim/parsing/MembraneBuilder.java:73-74 | a negative number of copies is refused and changes nothing; otherwise the child's multiplicity in the builder grows by that number |
| MembraneBuilding.Builders.Create | simulator/src/main/java/com/simomics/leishsim/parsing/MembraneBuilder.java:77-96 | the builder expands into as many new membranes as its copy count says, after every earlier membrane, which is untouched. The first has the builder's type, kept tags, parent, species and the next unique tag of its type. Its whole subtree is the builder's expansion (`Expanded`): one child per copy of each child builder, in the multiset's order, each with the new membrane as parent and each in turn the expansion of its builder. The tag numbering keeps its starting point, so the tree's tag invariant gives every new membrane the tag `type_k` of the k-th membrane of its type since the last reset |
| MembraneBuilding.Builders.CreateCopies | simulator/src/main/java/com/simomics/leishsim/parsing/MembraneBuilder.java:91-94 | the k copies of one child builder: the parent keeps its earlier children and gains exactly k more, each a new membrane whose parent it is and which is the expansion of the child builder; only the parent's child lists change among the existing membranes, and the arena grows by k times the child's expansion |
| MembraneBuilding.Builders.CreateChildren | simulator/src/main/java/com/simomics/leishsim/parsing/MembraneBuilder.java:90-94 | the loop over the child builders: entry by entry, the membrane's children become exactly the expansions of the occurrences of its child builders, and the arena grows by their total expansion |
| MembraneBuilding.Builders.CreateCopy | simulator/src/main/java/com/simomics/leishsim/parsing/MembraneBuilder.java:92-93 | one `childMembrane.create()` under p followed by `addMembrane`: the new membrane, the expansion of the child builder, becomes p's last child and no other existing membrane changes |
| MembraneBuilding.CopySpecies | simulator/src/main/java/com/simomics/leishsim/parsing/MembraneBuilder.java:80-89 | the three species loops give the new membrane exactly the builder's multisets at on, under and contained, and change nothing else |
| MembraneBuilding.Occurrences | simulator/src/main/java/com/simomics/leishsim/parsing/MembraneBuilder.java:91 | iterating the `LinkedHashMultiset` of children visits only child builders that have an entry |
| MembraneBuilding.OccurrencesCount | simulator/src/main/java/com/simomics/leishsim/parsing/MembraneBuilder.java:91 | the iteration visits each child builder exactly as many times as `addMembrane` added it |
| MembraneBuilding.ExpandedTwoCells | simulator/src/main/java/com/simomics/leishsim/parsing/MembraneBuilder.java:91-94 | a root builder holding two copies of a `cell` builder expands to a root with two cell children whose parent it is |
| MembraneBuilding.NewFromBuilder | simulator/src/main/java/com/simomics/leishsim/parsing/MembraneBuilder.java:79-89 | the new membrane is built from the builder's type and tags with the given parent, then given the builder's species at on, under and contained |
| MembraneBuilding.CopyCounts | simulator/src/main/java/com/simomics/leishsim/parsing/MembraneBuilder.java:81-89 | adding each entry of a builder multiset in turn gives the membrane exactly that multiset at the location |
| MembraneBuilding.RestrictAdd | simulator/src/main/java/com/simomics/leishsim/parsing/MembraneBuilder.java:81-89 | adding the next entry extends the copied part of the multiset by that entry |
| MembraneBuilding.BuildInitialTree | simulator/src/main/java/com/simomics/leishsim/parsing/SimulationFactory.java:255-257 | after the counters are reset, the root builder expands into the whole tree: the root comes first with no parent, the root's type, kept tags and species and the tag "type_1", every membrane is in its subtree and its list of all membranes, and the tree is the root builder's expansion. The k-th membrane of each type carries the tag `type_k`, so every generated tag differs from all the others |
| MembraneBuilding.Unquote | simulator/src/main/java/com/simomics/leishsim/parsing/SimulationFactory.java:222-224 | a tag in single quotes loses exactly them, any other tag is kept, and the lone quote "'" is the one tag on which `substring` throws |
| MembraneBuilding.UnquoteQuoted | simulator/src/main/java/com/simomics/leishsim/parsing/SimulationFactory.java:250-252 | quoting a tag and unquoting it gives the tag back |
| MembraneBuilding.EnterMembraneDefinition | simulator/src/main/java/com/simomics/leishsim/parsing/SimulationFactory.java:199-205 | a new empty builder is opened and added to the enclosing one exactly once as a placeholder; the multiplicities of the enclosing builder's other children, its own type, tags and species, and every other builder are unchanged |
| MembraneBuilding.ExitMembraneDefinition | simulator/src/main/java/com/simomics/leishsim/parsing/SimulationFactory.java:208-229 | the type is set and, on success, each tag is appended in order after unquoting, and the child ends up with the requested number of copies (1 when none is given); it fails exactly for a count of 0, which asks for -1 more copies, or a lone-quote tag, and then the child keeps its single copy. Only the child's type and tags and the enclosing builder's count of it change |
| Reactions.ComputeMembraneType | simulator/src/main/java/com/simomics/leishsim/model/Reaction.java:160-204 | the type is found exactly when there is a species and no two on/under species, nor two contained/around species, name different membranes; it is then the on/under type if any, else the contained/around type, and the reaction is an around reaction exactly when every species is at `around`; otherwise the error names the first conflict, or the missing left-hand side |
| Reactions.ConsumedInRateEquation | simulator/src/main/java/com/simomics/leishsim/model/Reaction.java:81-88 | every consumed species is a leaf of the rate equation |
| Reactions.WriteRateEquation | simulator/src/main/java/com/simomics/leishsim/model/Reaction.java:81-88 | the loop builds the rate equation: each consumed species, with its stoichiometry, multiplied onto the simplified modifier |
| Reactions.EvalMultiply | simulator/src/main/java/com/simomics/leishsim/model/equations/MultiplyExpression.java:17-20 | a product evaluates exactly when both factors do, to the product of their values |
| Reactions.RateEquationValue | simulator/src/main/java/com/simomics/leishsim/model/Reaction.java:73-88 | the rate equation evaluates exactly when every consumed species' mass-action term is defined, and its value is the product of those terms times the modifier's value |
| Reactions.RateEquationSucceeds | simulator/src/main/java/com/simomics/leishsim/model/Reaction.java:81-88 | the rate equation fails only through a consumed species' binomial |
| Reactions.RateEquationScaled | simulator/src/main/java/com/simomics/leishsim/model/Reaction.java:73-88 | when the modifier evaluates and every term is defined, the rate is the product of the terms times the modifier |
| Reactions.MassActionDefinedSplit | simulator/src/main/java/com/simomics/leishsim/model/Reaction.java:83-86 | the terms are defined for all consumed species exactly when they are for all but the last and for the last |
| Reactions.PoolTerms | simulator/src/test/java/com/simomics/leishsim/test/simulation/ReactionRatesTests.java:52-59 | with 11 copies of a and 13 of b, the mass-action terms at stoichiometries 2, 3, 5 and 7 are 55, 286, 462 and 1716, the factors of the expected rates |
| Reactions.SingleSpeciesRates | simulator/src/test/java/com/simomics/leishsim/test/simulation/ReactionRatesTests.java:52-59 | with 11 copies and stoichiometry 2 the rate is 55, and with 13 copies and stoichiometry 3 it is 286, for modifier 1 |
| Reactions.TwoSpeciesRate | simulator/src/test/java/com/simomics/leishsim/test/simulation/ReactionRatesTests.java:52-59 | with 11 copies at stoichiometry 5 and 13 at stoichiometry 7 the rate is 462 × 1716, for modifier 1 |
| Reactions.ModifiedAreInvolved | simulator/src/main/java/com/simomics/leishsim/model/Reaction.java:209-244 | every species a reaction modifies is one it involves |
| Reactions.EvalDependsOnlyOnRateSpecies | simulator/src/main/java/com/simomics/leishsim/model/equations/Equation.java:16 | an equation's value depends only on the counts of the species that occur in it |
| Reactions.UnaryLeavesMissed | simulator/src/main/java/com/simomics/leishsim/model/Reaction.java:249-264 | the source's worklist, which descends through binary operations only, finds no species in round(a), yet the value of round(a) changes with the count of a |
| Reactions.BinaryReachableInRateSpecies | simulator/src/main/java/com/simomics/leishsim/model/Reaction.java:249-264 | every species the source's worklist finds does occur in the equation |
| Reactions.BinaryWalkComplete | simulator/src/main/java/com/simomics/leishsim/model/Reaction.java:249-264 | where no species sits below round or ln, the source's binary-only walk finds exactly the equation's species, so it agrees with the corrected walk |
| Reactions.RateEquationUnderUnary | simulator/src/main/java/com/simomics/leishsim/model/Reaction.java:81-88 | a rate equation has a species below round or ln exactly when its modifier does, since the reactant leaves sit below Multiply only |
| Reactions.DependentLocatedSpecies | simulator/src/main/java/com/simomics/leishsim/model/Reaction.java:249-264 | the corrected counterpart of the walk at these lines (see Findings): a stack walk that returns exactly the species occurring in the rate equation, those under round and ln included; the source's own walk, which pushes only the operands of binary operations, is `BinaryReachableSpecies` |
| Reactions.DelaySeconds | simulator/src/main/java/com/simomics/leishsim/model/Reaction.java:122-124 | the delay in seconds is positive, or zero, exactly when the delay in hours is |
| Reactions.NewReaction | simulator/src/main/java/com/simomics/leishsim/model/Reaction.java:60-71 | a reaction is created exactly when the membrane type is found; it keeps the given species, modifier, delay and MDSL line, and its rate equation is built from the simplified modifier and holds every consumed species |
| ReactionBuilding.SetAdd | simulator/src/main/java/com/simomics/leishsim/parsing/ReactionBuilder.java:42-52 | `LinkedHashSet.add` keeps every element and adds at most one |
| ReactionBuilding.SetAddProperties | simulator/src/main/java/com/simomics/leishsim/parsing/ReactionBuilder.java:42-52 | after the add, the set has no two entries for the same located species, and holds exactly the old entries and the new one; it is unchanged exactly when the species was already there |
| ReactionBuilding.SetAddKeepsFirst | simulator/src/main/java/com/simomics/leishsim/parsing/ReactionBuilder.java:42-52 | a second entry for the same located species with another stoichiometry is dropped, and the first stays in place |
| ReactionBuilding.AddAllKeepsAll | simulator/src/main/java/com/simomics/leishsim/parsing/ReactionBuilder.java:58-65 | adding a side's species in turn leaves exactly those species on it, each once |
| ReactionBuilding.ReactionBuilder.constructor | simulator/src/main/java/com/simomics/leishsim/parsing/ReactionBuilder.java:31-37 | no species, no modifier, delay 0, on the left-hand side |
| ReactionBuilding.ReactionBuilder.AddConsumedSpecies | simulator/src/main/java/com/simomics/leishsim/parsing/ReactionBuilder.java:42-44 | only the consumed set changes, by `SetAdd` |
| ReactionBuilding.ReactionBuilder.AddProducedSpecies | simulator/src/main/java/com/simomics/leishsim/parsing/ReactionBuilder.java:50-52 | only the produced set changes, by `SetAdd` |
| ReactionBuilding.ReactionBuilder.AddSpecies | simulator/src/main/java/com/simomics/leishsim/parsing/ReactionBuilder.java:58-65 | the species goes to the consumed side before the arrow and to the produced side after it, and nothing else changes |
| ReactionBuilding.ReactionBuilder.SwitchToRightHandSide | simulator/src/main/java/com/simomics/leishsim/parsing/ReactionBuilder.java:71-73 | later species go to the produced side, and nothing else changes |
| ReactionBuilding.ReactionBuilder.SetRateModifier | simulator/src/main/java/com/simomics/leishsim/parsing/ReactionBuilder.java:75-78 | both modifiers are set and nothing else changes |
| ReactionBuilding.ReactionBuilder.SetDelayHours | simulator/src/main/java/com/simomics/leishsim/parsing/ReactionBuilder.java:80-82 | only the delay changes |
| ReactionBuilding.ReactionBuilder.SetMdslLine | simulator/src/main/java/com/simomics/leishsim/parsing/ReactionBuilder.java:84-87 | only the line and its number change |
| ReactionBuilding.ReactionBuilder.Create | simulator/src/main/java/com/simomics/leishsim/parsing/ReactionBuilder.java:89-91 | the reaction gets the builder's species, modifier, delay and line, and is created exactly when its membrane type can be found |
| Models.AllIndices | simulator/src/main/java/com/simomics/leishsim/model/MembraneModel.java:88-91 | with no reaction fired yet, every reaction is returned |
| Models.MembraneModel.SpeciesForTag | simulator/src/main/java/com/simomics/leishsim/model/MembraneModel.java:56-58 | the species carrying the tag, and none for an unknown tag |
| Models.MembraneModel.ParameterValue | simulator/src/main/java/com/simomics/leishsim/model/MembraneModel.java:79-81 | the value of a defined parameter, and null exactly for an undefined one |
| Models.MembraneModel.DependentReactions | simulator/src/main/java/com/simomics/leishsim/model/MembraneModel.java:88-93 | with nothing fired, all reactions; after a reaction fires, exactly the reactions whose rate equation has a leaf, round and ln operands included, whose species name the fired reaction modifies (the corrected table; see Left out) |
| Models.IndependentRateUnchanged | simulator/src/main/java/com/simomics/leishsim/model/MembraneModel.java:95-125 | a reaction left out of the fired reaction's dependents keeps its rate whenever only the species the fired reaction modifies change, so skipping its recomputation is safe |
| Models.AsWrittenDependsOn | simulator/src/main/java/com/simomics/leishsim/model/MembraneModel.java:99-125 | every dependency the source's binary-only worklist records is a real one, and it records every real one when the checked rate equation has no species below round or ln |
| Models.AsWrittenTableComplete | simulator/src/main/java/com/simomics/leishsim/model/MembraneModel.java:99-125 | for a model with no species below round or ln in any rate equation, the source's table is the complete and exact table the recomputation contracts are proved against |
| Models.AsWrittenDependencyMissed | simulator/src/main/java/com/simomics/leishsim/model/MembraneModel.java:111-119 | the source's table misses a dependency: after a reaction consuming a fires, a reaction with rate round(a) is not listed, though its rate changes when only a's count changes |
| Models.UsesAnyOf | simulator/src/main/java/com/simomics/leishsim/model/MembraneModel.java:105-120 | the corrected counterpart of the worklist at these lines (see Findings): it answers whether some leaf of the equation, round and ln operands included, has one of the given species names; the source's worklist pushes only the operands of binary operations, which `DependsOnAsWritten` describes |
| Models.CalculateReactionDependencies | simulator/src/main/java/com/simomics/leishsim/model/MembraneModel.java:99-125 | the corrected table (see Findings): an entry for every reaction, holding exactly the reactions whose rate equation, round and ln operands included, names a species it modifies |
| Models.NewMembraneModel | simulator/src/main/java/com/simomics/leishsim/model/MembraneModel.java:35-46 | the model keeps every given part and its dependency table is the corrected one, complete and exact (see Left out) |
| Models.ReactionsForSpeciesTag | simulator/src/main/java/com/simomics/leishsim/model/MembraneModel.java:130-139 | exactly the reactions that involve a species carrying the tag |
| Reactions.SingleRate | simulator/src/main/java/com/simomics/leishsim/model/Reaction.java:81-88 | a reaction with one consumed species has as rate its mass-action term times the modifier's value |
| Reactions.LeafProduct | simulator/src/main/java/com/simomics/leishsim/model/Reaction.java:83-86 | a consumed species' leaf times the rest of the equation evaluates to its mass-action term times the rest's value |
| Reactions.RateEquationSnoc | simulator/src/main/java/com/simomics/leishsim/model/Reaction.java:81-88 | each further consumed species puts its leaf in front of the equation built so far |
| RateTables.AgreeNumLocated | simulator/src/main/java/com/simomics/leishsim/simulation/Membrane.java:351-388 | two trees that agree on all species outside a set give the same count of any species outside it, wherever it is looked up |
| RateTables.AgreeAddedAt | simulator/src/main/java/com/simomics/leishsim/simulation/Membrane.java:264-293 | adding a species changes no count of any other species |
| RateTables.AgreeAddedLocated | simulator/src/main/java/com/simomics/leishsim/simulation/Membrane.java:224-259 | adding a located species changes no count of any other species |
| RateTables.Recomputed | simulator/src/main/java/com/simomics/leishsim/simulation/ReactionRateTableSimulation.java:143-150 | a recomputed entry is the membrane's rate when the stoichiometry matches and 0 otherwise, and is never negative |
| RateTables.Entry | simulator/src/main/java/com/simomics/leishsim/simulation/ReactionRateTableSimulation.java:65-74 | a table entry is 0 unless the membrane matches the reaction, and is never negative |
| RateTables.EntryPositive | simulator/src/main/java/com/simomics/leishsim/simulation/ReactionRateTableSimulation.java:65-74 | a positive entry is a place where the reaction can fire: the membrane matches, every consumed species is there in the needed number, and the entry is the rate equation's value |
| RateTables.EntryUnchanged | simulator/src/main/java/com/simomics/leishsim/simulation/ReactionRateTableSimulation.java:89-124 | the entry of a reaction that does not depend on the fired one is the same before and after it fires |
| RateTables.NumberMembranes | simulator/src/main/java/com/simomics/leishsim/simulation/ReactionRateTableSimulation.java:57-61 | membrane numbers and membranes are in one-to-one correspondence, each membrane numbered by its position in the root's list |
| RateTables.SharesName | simulator/src/main/java/com/simomics/leishsim/simulation/ReactionRateTableSimulation.java:107-118 | the labelled loop answers whether some dependent species has the name of a modified species |
| RateTables.SharedNames | simulator/src/main/java/com/simomics/leishsim/simulation/ReactionRateTableSimulation.java:107-118 | comparing names species by species is the same as intersecting the name sets |
| RateTables.DependentsOf | simulator/src/main/java/com/simomics/leishsim/simulation/ReactionRateTableSimulation.java:101-119 | the pairs recorded for one fired pair are exactly the model-dependent reactions in each membrane they match whose rate equation names a species the fired reaction modifies |
| RateTables.MembraneDependencies | simulator/src/main/java/com/simomics/leishsim/simulation/ReactionRateTableSimulation.java:89-124 | the dependency table maps every fired pair to exactly the pairs that depend on it |
| RateTables.RowSumBounds | simulator/src/main/java/com/simomics/leishsim/simulation/ReactionRateTableSimulation.java:236-243 | a sum of non-negative rates is non-negative, and 0 exactly when every rate is 0 |
| RateTables.TableSumBounds | simulator/src/main/java/com/simomics/leishsim/simulation/ReactionRateTableSimulation.java:170-179 | the total rate is non-negative, and 0, ending the run, exactly when every entry is 0 |
| RateTables.PrefixMonotone | simulator/src/main/java/com/simomics/leishsim/simulation/ReactionRateTableSimulation.java:185-197 | the running total of the selection walk never goes down |
| RateTables.FirstReachingInterval | simulator/src/main/java/com/simomics/leishsim/simulation/ReactionRateTableSimulation.java:184-197 | the chosen pair owns the part of the total just above the rates walked before it, as wide as its own rate, and its rate is positive; a uniform target so picks each pair with probability proportional to its rate |
| RateTables.IntervalIsFirstReaching | simulator/src/main/java/com/simomics/leishsim/simulation/ReactionRateTableSimulation.java:184-197 | a pair whose interval holds the target is the one the walk stops at |
| RateTables.FirstReachingUnique | simulator/src/main/java/com/simomics/leishsim/simulation/ReactionRateTableSimulation.java:184-197 | at most one pair is the first to reach the target |
| RateTables.ScaledInside | simulator/src/main/java/com/simomics/leishsim/simulation/ReactionRateTableSimulation.java:184 | a draw strictly inside (0, 1) scales a positive total to a target strictly inside it, so the walk always stops at some pair |
| RateTables.TotalRate | simulator/src/main/java/com/simomics/leishsim/simulation/ReactionRateTableSimulation.java:170-175 | the loop computes the sum of every entry |
| RateTables.Gillespie | simulator/src/main/java/com/simomics/leishsim/simulation/ReactionRateTableSimulation.java:165-209 | with a zero total no reaction is chosen; otherwise the pair chosen is the first whose running total reaches omega × u2, its rate is positive, and the wait is ln(1/u1)/omega hours in seconds |
| RateTables.SelectPair | simulator/src/main/java/com/simomics/leishsim/simulation/ReactionRateTableSimulation.java:185-197 | the walk returns the first pair whose running total reaches the target, and returns none only when the total falls short of it |
| RateTables.RecomputeEntries | simulator/src/main/java/com/simomics/leishsim/simulation/ReactionRateTableSimulation.java:137-151 | every listed pair gets its recomputed rate and no other entry changes; the loop fails exactly when some listed rate cannot be computed |
| RateTables.FillRates | simulator/src/main/java/com/simomics/leishsim/simulation/ReactionRateTableSimulation.java:62-76 | the initial table holds the correct entry for every pair, and building it fails exactly when some entry cannot be computed |
| RateTables.RateTable.CoherentNonNegative | simulator/src/main/java/com/simomics/leishsim/simulation/ReactionRateTableSimulation.java:30-31 | a table whose entries are all correct holds no negative rate |
| RateTables.RateTable.constructor | simulator/src/main/java/com/simomics/leishsim/simulation/ReactionRateTableSimulation.java:46-83 | the table keeps the given reactions, membrane numbering, rates and dependencies, with no pair pending |
| RateTables.RateTable.UpdateViableReactions | simulator/src/main/java/com/simomics/leishsim/simulation/ReactionRateTableSimulation.java:131-156 | with no pair pending nothing changes; otherwise exactly the pairs depending on the pending one are recomputed, and afterwards every entry is correct for the current state |
| RateTables.RateTable.ChooseRandomReaction | simulator/src/main/java/com/simomics/leishsim/simulation/ReactionRateTableSimulation.java:164-210 | after the update the entries are all correct; with a zero total nothing is chosen and no draw is used; otherwise two draws choose the pair that is then pending, by `Gillespie` |
| RateTables.RateTable.DrawPending | simulator/src/main/java/com/simomics/leishsim/simulation/ReactionRateTableSimulation.java:169-209 | from a correct table, the Gillespie choice is made and the chosen pair becomes pending |
| RateTables.RateTable.ChosenIsPending | simulator/src/main/java/com/simomics/leishsim/simulation/ReactionRateTableSimulation.java:202-205 | the pending pair is a place its reaction matches, and the state differs from the one the table is correct for only in species that reaction modifies |
| RateTables.RateTable.GetReactionPropensity | simulator/src/main/java/com/simomics/leishsim/simulation/ReactionRateTableSimulation.java:235-243 | the propensity is the sum of the reaction's row |
| RateTables.RateTable.PropensityZeroIffNowhere | simulator/src/main/java/com/simomics/leishsim/simulation/ReactionRateTableSimulation.java:235-243 | a reaction's propensity is non-negative, and 0 exactly when its entry is 0 in every membrane |
| RateTables.RateTable.RecalculatePropensitiesFrom | simulator/src/main/java/com/simomics/leishsim/simulation/ReactionRateTableSimulation.java:245-256 | the pairs depending on the given one are recomputed, nothing else changes, no pair is left pending, and a table that was correct before the reaction fired there is correct again |
| RateTables.NewRateTable | simulator/src/main/java/com/simomics/leishsim/simulation/ReactionRateTableSimulation.java:46-83 | the table is built for the tree with one row per reaction and one column per membrane of the root's list, and is created exactly when every initial entry can be computed |
| RateTables.RowSumMonotone | simulator/src/main/java/com/simomics/leishsim/simulation/ReactionRateTableSimulation.java:236-243 | with non-negative rates, summing more of a row never gives less |
| RateTables.TableSumMonotone | simulator/src/main/java/com/simomics/leishsim/simulation/ReactionRateTableSimulation.java:170-175 | with non-negative rates, summing more rows never gives less |
| Simulations.Insert | simulator/src/main/java/com/simomics/leishsim/simulation/Simulation.java:39 | `eventQueue.add`: the queue gains exactly the new event and loses none |
| Simulations.InsertSorted | simulator/src/main/java/com/simomics/leishsim/simulation/Simulation.java:108-113 | adding keeps the queue in `compareTo` order, by execution time |
| Simulations.InsertBounded | simulator/src/main/java/com/simomics/leishsim/simulation/Simulation.java:108-113 | adding an event due no earlier than a time to a queue of such events gives a queue of such events |
| Simulations.ConsSorted | simulator/src/main/java/com/simomics/leishsim/simulation/Simulation.java:108-113 | an event no later than every event of an ordered queue can go at its head |
| Simulations.HeadIsEarliest | simulator/src/main/java/com/simomics/leishsim/simulation/Simulation.java:548 | `eventQueue.remove` takes an event due no later than any other queued event |
| Simulations.AppliedSameShape | simulator/src/main/java/com/simomics/leishsim/simulation/Simulation.java:521-525 | adding species never changes the membrane tree's shape, types or tags |
| Simulations.AppliedAgree | simulator/src/main/java/com/simomics/leishsim/simulation/Simulation.java:521-525 | adding a list of species changes no count of a species whose name is not in the list |
| Simulations.AppliedZero | simulator/src/main/java/com/simomics/leishsim/simulation/Simulation.java:141 | entries with stoichiometry 0 are skipped, so a list of them changes nothing |
| Simulations.ModifiedCovers | simulator/src/main/java/com/simomics/leishsim/model/Reaction.java:209-226 | every consumed and every produced species of a reaction is among its modified species |
| Simulations.AppliedStep | simulator/src/main/java/com/simomics/leishsim/simulation/Simulation.java:139-145 | one more entry adds its stoichiometry with the given sign when it is non-zero and does nothing otherwise |
| Simulations.ApplySpecies | simulator/src/main/java/com/simomics/leishsim/simulation/Simulation.java:139-145 | the loop adds every entry with a non-zero stoichiometry, in order, and leaves the tree's shape and tag counters alone |
| Simulations.WaitNonNegative | simulator/src/main/java/com/simomics/leishsim/simulation/ReactionRateTableSimulation.java:180-181 | the waiting time ln(1/u1)/omega is never negative |
| Simulations.AsWrittenEventPrecedesFiring | simulator/src/main/java/com/simomics/leishsim/simulation/Simulation.java:96-98 | as written, after a firing whose delay is shorter than its wait the release heads the queue, due before the clock the firing leaves; the next step cannot fire whatever its draw, so it runs the release and reports delay − wait seconds, which is negative |
| Simulations.EnqueueTime | simulator/src/main/java/com/simomics/leishsim/simulation/Simulation.java:96-98 | the corrected time (see Findings): a product release is due exactly the delay after the firing, so never before it |
| Simulations.FiredEventFollowsFiring | simulator/src/main/java/com/simomics/leishsim/simulation/Simulation.java:514-544 | with the corrected time, the queue after a firing stays ordered and every event in it is due no earlier than the clock the firing leaves, so the next event step reports a time that is not negative |
| Simulations.CeilDiv | simulator/src/main/java/com/simomics/leishsim/simulation/Simulation.java:242 | the ceiling of the quotient, the least c with c × p at least n for positive p |
| Simulations.ClampInt | simulator/src/main/java/com/simomics/leishsim/simulation/Simulation.java:242 | the `(int)` cast saturates at the 32-bit bounds and keeps values inside them |
| Simulations.NumUpdates | simulator/src/main/java/com/simomics/leishsim/simulation/Simulation.java:242 | the number of chunks is the ceiling of numSeconds / secondsBeforePrint cast to int; with a zero chunk size it is the saturated infinity, 0 or the saturated minus infinity |
| Simulations.ChunksCover | simulator/src/main/java/com/simomics/leishsim/simulation/Simulation.java:242 | for a positive chunk size and a number of seconds in range, the chunks cover the requested time and one fewer would not |
| Simulations.Chunks | simulator/src/main/java/com/simomics/leishsim/simulation/Simulation.java:243 | the loop runs no chunk or all of them, and covers the requested time when it runs them |
| Simulations.ChunkTotalIsProduct | simulator/src/main/java/com/simomics/leishsim/simulation/Simulation.java:243-261 | running c chunks of p seconds moves the nominal time by c × p |
| Simulations.Simulation.QueueInsert | simulator/src/main/java/com/simomics/leishsim/simulation/Simulation.java:528-529 | a well-formed event due no earlier than the clock keeps the queue well formed |
| Simulations.Simulation.QueueLater | simulator/src/main/java/com/simomics/leishsim/simulation/Simulation.java:514-516 | when the reaction fires before the head of the queue, every queued event is due after it |
| Simulations.Simulation.QueueTail | simulator/src/main/java/com/simomics/leishsim/simulation/Simulation.java:548 | after the head is taken, the rest of the queue is due no earlier than the head |
| Simulations.Simulation.constructor | simulator/src/main/java/com/simomics/leishsim/simulation/Simulation.java:176-190 | an empty queue; the random stream is a parameter |
| Simulations.Simulation.KnownMembrane | simulator/src/main/java/com/simomics/leishsim/simulation/ReactionRateTableSimulation.java:57-61 | every membrane the table numbers lies in the tree |
| Simulations.Simulation.AddAt | simulator/src/main/java/com/simomics/leishsim/simulation/Simulation.java:521-525 | adding species keeps the table's fixed facts and changes only counts of the named species |
| Simulations.Simulation.InsertMembers | simulator/src/main/java/com/simomics/leishsim/simulation/Simulation.java:528-529 | the queue after adding holds only the old events and the new one |
| Simulations.Simulation.FireReaction | simulator/src/main/java/com/simomics/leishsim/simulation/Simulation.java:514-544 | the consumed species are removed; the products are added at once when there is no delay, and otherwise queued at the corrected time, the delay after the firing (the source times them from the clock before the wait; see Findings) |
| Simulations.Simulation.FireAt | simulator/src/main/java/com/simomics/leishsim/simulation/Simulation.java:518-537 | firing changes the counts as `FiredNodes` says, and the table still tracks the state |
| Simulations.Simulation.RunHeadEvent | simulator/src/main/java/com/simomics/leishsim/simulation/Simulation.java:546-555 | the head event is taken off, its products added at its membrane, and the entries depending on its reaction there recomputed, leaving a correct table; the elapsed time is its due time minus the clock |
| Simulations.Simulation.ChooseNext | simulator/src/main/java/com/simomics/leishsim/simulation/ReactionRateTableSimulation.java:165-210 | the choice with a correct table: none, with no draw, exactly when the total is 0; otherwise the pair first reaching omega × u2, with the wait ln(1/u1)/omega |
| Simulations.Simulation.Step | simulator/src/main/java/com/simomics/leishsim/simulation/Simulation.java:509-561 | a step fires the chosen reaction when it comes before the head of the queue, runs the head event when the queue is not empty otherwise, and stops only when no reaction is viable and the queue is empty; with the corrected enqueue time the time it reports is never negative (see Left out) |
| Simulations.Simulation.Dispatch | simulator/src/main/java/com/simomics/leishsim/simulation/Simulation.java:514-560 | the branch of `step` after the choice: fire, run the head event, or stop, with the same conditions as in `step` |
| Simulations.Simulation.Advance | simulator/src/main/java/com/simomics/leishsim/simulation/Simulation.java:488-494 | a step moves the clock forward by what it reports, and reports stopping only with an empty queue and a zero total rate |
| Simulations.Simulation.RunForSeconds | simulator/src/main/java/com/simomics/leishsim/simulation/Simulation.java:486-502 | the nominal time grows by the chunk; the run ends with the clock at it or past it, or stops early with no viable reaction and an empty queue |
| Simulations.Simulation.RunSeconds | simulator/src/main/java/com/simomics/leishsim/simulation/Simulation.java:224-266 | a run that is not stopped early reaches the nominal time of all chunks, which covers the requested seconds; one stopped early ends with an empty queue and a zero total rate |
| Simulations.Simulation.CurrentHours | simulator/src/main/java/com/simomics/leishsim/simulation/Simulation.java:207-209 | the clock in hours is the clock in seconds divided by 3600 |
| Simulations.Simulation.ResolveAroundSpecies | simulator/src/main/java/com/simomics/leishsim/simulation/Simulation.java:431-442 | a species not `around` stands for itself; an `around X` species stands for the `contained` species of the type of each parent of an X membrane, one entry per parent |
| Diagrams.ChainedInClosed | simulator/src/main/java/com/simomics/leishsim/diagramming/Graph.java:456-468 | a set closed under edges that holds the start of a walk holds every node the walk reaches |
| Diagrams.ComplementClosed | simulator/src/main/java/com/simomics/leishsim/diagramming/Graph.java:456-468 | the nodes outside a set closed under edges, taken either way, form a closed set too |
| Diagrams.ClustersDisjoint | simulator/src/main/java/com/simomics/leishsim/diagramming/Graph.java:446-472 | two clusters built by the walk are equal or share no node |
| Diagrams.AllClustersAdd | simulator/src/main/java/com/simomics/leishsim/diagramming/Graph.java:469 | adding a cluster built by the walk keeps every listed set a cluster |
| Diagrams.ClustersPartition | simulator/src/main/java/com/simomics/leishsim/diagramming/Graph.java:446-472 | clusters built by the walk are non-empty, closed under edges and pairwise equal or disjoint |
| Diagrams.ClusterHoldsSeed | simulator/src/main/java/com/simomics/leishsim/diagramming/Graph.java:446-472 | a cluster that meets another walk's cluster holds that walk's seed |
| Diagrams.Graph.constructor | simulator/src/main/java/com/simomics/leishsim/diagramming/Graph.java:47-52 | an empty graph: no nodes, no edges, no inverse edges |
| Diagrams.Graph.AddNode | simulator/src/main/java/com/simomics/leishsim/diagramming/Graph.java:69 | the node is added and the edges are unchanged |
| Diagrams.Graph.AddEdge | simulator/src/main/java/com/simomics/leishsim/diagramming/Graph.java:332-335 | the edge goes into `edges` and its reverse into `inverseEdges`, so each stays the other turned round |
| Diagrams.Graph.Subgraph | simulator/src/main/java/com/simomics/leishsim/diagramming/Graph.java:431-440 | the new graph holds exactly the given nodes of the graph, and exactly the edges whose source is one of them |
| Diagrams.Graph.Neighbours | simulator/src/main/java/com/simomics/leishsim/diagramming/Graph.java:460-462 | the neighbours of a node are exactly the nodes an edge joins to it in either direction |
| Diagrams.Graph.ClusterOf | simulator/src/main/java/com/simomics/leishsim/diagramming/Graph.java:451-468 | the walk from a node collects a set closed under edges both ways, every member reached from the node by a chain of edges |
| Diagrams.Graph.Skip | simulator/src/main/java/com/simomics/leishsim/diagramming/Graph.java:463-465 | taking a node already in the cluster off the open list keeps the walk's invariant |
| Diagrams.Graph.Expand | simulator/src/main/java/com/simomics/leishsim/diagramming/Graph.java:457-467 | the first open node joins the cluster and its unvisited neighbours go to the end of the open list, keeping the walk's invariant |
| Diagrams.Graph.ExpandStep | simulator/src/main/java/com/simomics/leishsim/diagramming/Graph.java:457-467 | the cluster stays a chain from the seed and every edge out of it still ends in it or at an open node |
| Diagrams.Graph.Clusters | simulator/src/main/java/com/simomics/leishsim/diagramming/Graph.java:446-472 | every node is in some cluster, and the clusters partition the nodes into sets closed under edges |
| Diagrams.ChainExtend | simulator/src/main/java/com/simomics/leishsim/diagramming/Graph.java:458 | a walk grows by any node adjacent to it, and what it reached before stays reached |
| Diagrams.AddEdgesFrom | simulator/src/main/java/com/simomics/leishsim/diagramming/Graph.java:435-437 | the edges gained are exactly those from the source to each target, and the nodes are unchanged |
| Diagrams.Push | simulator/src/main/java/com/simomics/leishsim/diagramming/Graph.java:463-467 | the open list keeps its front and gains exactly the new nodes, one each, at its end |
| DiagramBuilding.AllRefsMembers | simulator/src/main/java/com/simomics/leishsim/diagramming/Graph.java:85-95 | the mentions the edge loop visits are exactly the consumed and produced species of each listed reaction, on their side |
| DiagramBuilding.ReactionRefsMembers | simulator/src/main/java/com/simomics/leishsim/diagramming/Graph.java:87-94 | a reaction's mentions are exactly its consumed species, then its produced ones |
| DiagramBuilding.WireKnown | simulator/src/main/java/com/simomics/leishsim/diagramming/Graph.java:85-95 | without duplicates no node is added and the edges added are exactly those of the mentions whose species has a node |
| DiagramBuilding.StandInsStep | simulator/src/main/java/com/simomics/leishsim/diagramming/Graph.java:139-156 | a stand-in node made for a mention keeps only its mention's edge as later mentions are wired |
| DiagramBuilding.KnownEdgesStep | simulator/src/main/java/com/simomics/leishsim/diagramming/Graph.java:139-156 | between existing nodes, one more mention adds exactly its own edge when its species has a node |
| DiagramBuilding.WireFreshStep | simulator/src/main/java/com/simomics/leishsim/diagramming/Graph.java:139-156 | wiring one more mention keeps the account of stand-ins and known edges |
| DiagramBuilding.WireFresh | simulator/src/main/java/com/simomics/leishsim/diagramming/Graph.java:137-157 | with duplicates every mention of a species without a node adds one group-3 node with the next id, joined only to its reaction |
| DiagramBuilding.AddSpeciesNodes | simulator/src/main/java/com/simomics/leishsim/diagramming/Graph.java:65-70 | one group-1 node per species name, ids counting up from 0, each name numbered once |
| DiagramBuilding.AddReactionNodes | simulator/src/main/java/com/simomics/leishsim/diagramming/Graph.java:74-81 | one group-2 node per reaction, with ids after the species, carrying the reaction's MDSL line and line number |
| DiagramBuilding.WireReference | simulator/src/main/java/com/simomics/leishsim/diagramming/Graph.java:139-147 | one mention through `addEdge`, with a new group-3 node first when duplicates are asked for and its species has no node |
| DiagramBuilding.WireReferences | simulator/src/main/java/com/simomics/leishsim/diagramming/Graph.java:137-157 | the edge loop wires every mention in order |
| DiagramBuilding.AllRefsMentions | simulator/src/main/java/com/simomics/leishsim/diagramming/Graph.java:85-95 | the mentions listed are those of the listed reactions |
| DiagramBuilding.KnownEdgeIsDiagramEdge | simulator/src/main/java/com/simomics/leishsim/diagramming/Graph.java:85-95 | every edge drawn for a known species runs from a consumed species to its reaction or from a reaction to a produced species |
| DiagramBuilding.ConsumedIsKnownEdge | simulator/src/main/java/com/simomics/leishsim/diagramming/Graph.java:87-90 | every consumed species with a node has an edge to its reaction |
| DiagramBuilding.ProducedIsKnownEdge | simulator/src/main/java/com/simomics/leishsim/diagramming/Graph.java:91-94 | every produced species with a node has an edge from its reaction |
| DiagramBuilding.DiagramEdgeIsKnownEdge | simulator/src/main/java/com/simomics/leishsim/diagramming/Graph.java:85-95 | every edge of the diagram is drawn |
| DiagramBuilding.KnownEdgeIff | simulator/src/main/java/com/simomics/leishsim/diagramming/Graph.java:85-95 | between species and reaction nodes, an edge is drawn exactly when it is one of the diagram's edges |
| DiagramBuilding.RefsBelow | simulator/src/main/java/com/simomics/leishsim/diagramming/Graph.java:62-81 | every id used before wiring is below the next free id |
| DiagramBuilding.WiredNodes | simulator/src/main/java/com/simomics/leishsim/diagramming/Graph.java:62-157 | wiring keeps the species and reaction nodes and adds stand-ins only with duplicates, one per mention of an unknown species |
| DiagramBuilding.WiredEdges | simulator/src/main/java/com/simomics/leishsim/diagramming/Graph.java:85-95 | between species and reaction nodes the wired edges are exactly the diagram's |
| DiagramBuilding.WiredClosed | simulator/src/main/java/com/simomics/leishsim/diagramming/Graph.java:332-335 | every wired edge joins two nodes of the graph |
| DiagramBuilding.Wired | simulator/src/main/java/com/simomics/leishsim/diagramming/Graph.java:57-97 | wiring the species and reaction nodes gives the graph `create` describes |
| DiagramBuilding.AddNodes | simulator/src/main/java/com/simomics/leishsim/diagramming/Graph.java:64-81 | the node loops make the species and reaction nodes and no edge |
| DiagramBuilding.NumberedDistinct | simulator/src/main/java/com/simomics/leishsim/diagramming/Graph.java:60-70 | a name table that numbers the names one to one lists each name once |
| DiagramBuilding.Build | simulator/src/main/java/com/simomics/leishsim/diagramming/Graph.java:57-159 | species nodes, then reaction nodes, then exactly the diagram's edges, with stand-ins only when duplicates are asked for |
| DiagramBuilding.DiagramIdsAndGroups | simulator/src/main/java/com/simomics/leishsim/diagramming/Graph.java:66-75 | each node's id is its handle, so ids are distinct; groups are 1 for species, 2 for reactions and 3 for stand-ins |
| DiagramBuilding.Indices | simulator/src/main/java/com/simomics/leishsim/diagramming/Graph.java:73-74 | the reactions in the model's own order, each once |
| DiagramBuilding.Create | simulator/src/main/java/com/simomics/leishsim/diagramming/Graph.java:57-97 | `create(model)`: a node for every species name and every reaction, with the diagram's edges between them |
| DiagramBuilding.TaggedSpecies | simulator/src/main/java/com/simomics/leishsim/diagramming/Graph.java:110-113 | exactly the species names that carry one of the tags |
| DiagramBuilding.TaggedReactions | simulator/src/main/java/com/simomics/leishsim/model/MembraneModel.java:130-139 | exactly the reactions involving a species that carries one of the tags |
| DiagramBuilding.CreateForTags | simulator/src/main/java/com/simomics/leishsim/diagramming/Graph.java:102-159 | `create(model, tags)`: the tagged species, the reactions involving them, each once, the diagram's edges, and a stand-in node for each mention of an untagged species |
| DiagramReading.AddNodeOk | simulator/src/main/java/com/simomics/leishsim/diagramming/Graph.java:194-205 | adding a node block keeps the reader's bookkeeping: the id names the new node and every edge joins nodes read |
| DiagramReading.CommitOk | simulator/src/main/java/com/simomics/leishsim/diagramming/Graph.java:191-221 | closing a block keeps the bookkeeping |
| DiagramReading.StepOk | simulator/src/main/java/com/simomics/leishsim/diagramming/Graph.java:187-308 | every line keeps the bookkeeping |
| DiagramReading.ResumeOk | simulator/src/main/java/com/simomics/leishsim/diagramming/Graph.java:187-309 | reading any lines keeps the bookkeeping |
| DiagramReading.ReadOk | simulator/src/main/java/com/simomics/leishsim/diagramming/Graph.java:164-318 | the graph read from any file has edges between nodes read, and each id names the latest node read with it |
| DiagramReading.EndIsFinal | simulator/src/main/java/com/simomics/leishsim/diagramming/Graph.java:225-229 | once the reading stops or raises an exception, later lines change nothing |
| DiagramReading.SeparatorAddsNode | simulator/src/main/java/com/simomics/leishsim/diagramming/Graph.java:191-206 | a separator after a node block with an id adds that node under the next handle and records it under its id |
| DiagramReading.IdlessNodeFails | simulator/src/main/java/com/simomics/leishsim/diagramming/Graph.java:194 | a separator after a node block that never gave an id raises an exception |
| DiagramReading.SeparatorAddsEdge | simulator/src/main/java/com/simomics/leishsim/diagramming/Graph.java:207-229 | a separator after an edge block adds the edge when both ends are known and otherwise sets the error flag; a `node` line then stops the reading |
| DiagramReading.NodeLineDefaults | simulator/src/main/java/com/simomics/leishsim/diagramming/Graph.java:223-237 | a `node` line outside an edge block opens a node block with group 1 and nothing else known |
| DiagramReading.DataLineKeepsGraph | simulator/src/main/java/com/simomics/leishsim/diagramming/Graph.java:251-308 | a line that is not a separator never changes the nodes, edges or ids |
| DiagramReading.MalformedLine | simulator/src/main/java/com/simomics/leishsim/diagramming/Graph.java:253-258 | a line that does not split into two parts, or any line outside a block, sets the error flag and changes nothing else |
| DiagramReading.UnknownNodeKey | simulator/src/main/java/com/simomics/leishsim/diagramming/Graph.java:278-280 | in a node block an unknown key is kept as data with its value |
| DiagramReading.NodeIdLine | simulator/src/main/java/com/simomics/leishsim/diagramming/Graph.java:263-265 | an `id` line sets the id when the value parses as an int and raises the parser's exception otherwise |
| DiagramReading.UnknownEdgeKey | simulator/src/main/java/com/simomics/leishsim/diagramming/Graph.java:295-302 | in an edge block any key but `source` and `dest` is ignored |
| DiagramReading.BlankLinesRepeatNode | simulator/src/main/java/com/simomics/leishsim/diagramming/Graph.java:191-206 | a node block followed by two blank lines is added twice, and its id then names the second copy |
| DiagramReading.LastBlockDropped | simulator/src/main/java/com/simomics/leishsim/diagramming/Graph.java:309-317 | the block still open when the file ends never reaches the graph |
| DiagramReading.CommitBlock | simulator/src/main/java/com/simomics/leishsim/diagramming/Graph.java:192-220 | closing the open block in the graph fails exactly when `Commit` does, and otherwise leaves the graph `Commit` describes |
| DiagramReading.ReadSeparator | simulator/src/main/java/com/simomics/leishsim/diagramming/Graph.java:191-250 | a separator line as `SeparatorStep` describes |
| DiagramReading.ReadLine | simulator/src/main/java/com/simomics/leishsim/diagramming/Graph.java:188-308 | one line of the loop as `Step` describes |
| DiagramReading.ReadGraph | simulator/src/main/java/com/simomics/leishsim/diagramming/Graph.java:164-318 | reading a file gives the graph and ending `Read` describes, and an exception when `Read` fails |
| DiagramReading.StopOrFail | simulator/src/main/java/com/simomics/leishsim/diagramming/Graph.java:225-229 | a line that stops or fails the reading decides the result for the whole file |
| Logging.Ordinal | simulator/src/main/java/com/simomics/leishsim/Logging.java:15-57 | each of the fourteen kinds has its declaration position, 0 to 13 |
| Logging.OrdinalInjective | simulator/src/main/java/com/simomics/leishsim/Logging.java:15-57 | two kinds at the same position are the same kind |
| Logging.FromName | simulator/src/main/java/com/simomics/leishsim/Logging.java:151-153 | a kind found from a name has exactly that name |
| Logging.FromNameOfName | simulator/src/main/java/com/simomics/leishsim/Logging.java:159-161 | every kind is found again from its name, so the registry's names identify the kinds |
| Logging.Lookup | simulator/src/main/java/com/simomics/leishsim/Logging.java:151-153 | a name gives a logger exactly when it is the name of an enabled kind, and the discarding logger otherwise |
| Logging.LoggableIff | simulator/src/main/java/com/simomics/leishsim/Logging.java:93-144 | after a level is set, a kind has a logger exactly when it is declared no later than the level, and that logger is the one its case installs |
| Logging.ErrorAlwaysLogged | simulator/src/main/java/com/simomics/leishsim/Logging.java:133-139 | at every level errors go to "Errors" and to standard error, timestamped and prefixed "ERROR: " |
| Logging.LevelsNest | simulator/src/main/java/com/simomics/leishsim/Logging.java:96-140 | a level declared earlier enables a subset of the loggers of a later one, with the same loggers |
| Logging.EnabledForUnique | simulator/src/main/java/com/simomics/leishsim/Logging.java:95 | the registry after setting a level does not depend on what was enabled before |
| Logging.DefaultLevel | simulator/src/main/java/com/simomics/leishsim/Logging.java:80-82 | the default level enables exactly the eight kinds from errors to the printed species |
| Logging.KindAt | simulator/src/main/java/com/simomics/leishsim/Logging.java:15-57 | the kind declared at a given position |
| Logging.InstalledHolds | simulator/src/main/java/com/simomics/leishsim/Logging.java:96-140 | the fall-through from a position down installs exactly the kinds from there to the level, each with its logger |
| Logging.Logs.constructor | simulator/src/main/java/com/simomics/leishsim/Logging.java:80-82 | the class initialiser sets the level to the printed species |
| Logging.Logs.SetLogLevel | simulator/src/main/java/com/simomics/leishsim/Logging.java:93-144 | the registry is cleared and then holds exactly the kinds up to the level, each with its case's logger |
| Logging.Logs.DetailCases | simulator/src/main/java/com/simomics/leishsim/Logging.java:97-115 | the cases from `FULL` down to `PRINTED_SPECIES` install the kinds at those positions up to the level |
| Logging.Logs.BasicCases | simulator/src/main/java/com/simomics/leishsim/Logging.java:116-140 | the cases from `FULL_STATE_AT_END` down to `ERROR` install the rest, `ERROR` always |
| Driver.ToIntShift | simulator/src/main/java/com/simomics/leishsim/Driver.java:235 | a multiple of 2^32 added to a value does not change its 32-bit wrap |
| Driver.HoursToSecondsIsProduct | simulator/src/main/java/com/simomics/leishsim/Driver.java:235 | `numHours * 60 * 60` is the 32-bit wrap of hours × 3600, and the exact product for hours up to 596523 |
| Driver.HoursOverflow | simulator/src/main/java/com/simomics/leishsim/Driver.java:239 | 596524 hours overflow to -2147480896 seconds |
| Driver.DefaultRunLength | simulator/src/main/java/com/simomics/leishsim/Driver.java:232-237 | with neither length given the run is 30 hours, 108000 seconds, counted in hours |
| Driver.RunLengthFromHours | simulator/src/main/java/com/simomics/leishsim/Driver.java:238-241 | hours alone give the seconds as hours × 3600, counted in hours |
| Driver.RunLengthFromSeconds | simulator/src/main/java/com/simomics/leishsim/Driver.java:226-241 | seconds alone are kept and the run is counted in seconds |
| Driver.BothRunLengths | simulator/src/main/java/com/simomics/leishsim/Driver.java:228-231 | giving both lengths is an error that stops the tidying with nothing else changed |
| Driver.DefaultPrintInterval | simulator/src/main/java/com/simomics/leishsim/Driver.java:248-258 | with neither interval given, a run in hours prints every hour, and one in seconds every 5 seconds |
| Driver.PrintIntervalFromHours | simulator/src/main/java/com/simomics/leishsim/Driver.java:259-262 | an interval in hours alone gives the seconds as hours × 3600, printed in hours |
| Driver.BothPrintIntervals | simulator/src/main/java/com/simomics/leishsim/Driver.java:244-247 | giving both intervals is an error that keeps both as given, printed in seconds |
| Driver.TidySettles | simulator/src/main/java/com/simomics/leishsim/Driver.java:226-263 | after tidying, unless both forms of a setting were given, the run length and print interval are known in seconds, hours are used exactly when seconds were not given |
| Driver.PrintsAllSpellings | simulator/src/main/java/com/simomics/leishsim/Driver.java:270 | only a print list of the single word `all`, in any case, means every species |
| Driver.PreprocessedName | simulator/src/main/java/com/simomics/leishsim/Driver.java:170-176 | the preprocessed file's name always ends in `preprocessed.mdsl` |
| Driver.PreprocessedNameOfModel | simulator/src/main/java/com/simomics/leishsim/Driver.java:171-173 | a model file `x.mdsl` is preprocessed into `x.preprocessed.mdsl` |
| Driver.PreprocessedNameOfOther | simulator/src/main/java/com/simomics/leishsim/Driver.java:174-176 | any other name is preprocessed into `preprocessed.mdsl` |
| Driver.TrimBlanks | simulator/src/main/java/com/simomics/leishsim/Driver.java:191 | blanks before a string with no blanks at its ends are all that trimming removes |
| Driver.KeywordStarts | simulator/src/main/java/com/simomics/leishsim/Driver.java:191 | a line starting with `include` in any case is recognised as a directive |
| Driver.IncludeBody | simulator/src/main/java/com/simomics/leishsim/Driver.java:191-193 | an `include` keyword followed by the name after blanks names that file |
| Driver.IncludeLine | simulator/src/main/java/com/simomics/leishsim/Driver.java:191-193 | a line of blanks, the keyword in any case, blanks and a name is an `include` of exactly that name |
| Driver.KeywordThenName | simulator/src/main/java/com/simomics/leishsim/Driver.java:193 | the keyword followed by a name has no blanks at its ends and is at least seven characters long |
| Driver.DropKeyword | simulator/src/main/java/com/simomics/leishsim/Driver.java:193 | dropping the seven characters of the keyword leaves the rest of the line |
| Driver.NotIncludeLine | simulator/src/main/java/com/simomics/leishsim/Driver.java:212-216 | a line whose trimmed, lower-cased text does not start with `include` is copied, not included |
| Driver.SpacePieces | simulator/src/main/java/com/simomics/leishsim/Driver.java:339 | splitting at whitespace gives at least one piece and no piece holds whitespace |
| Driver.Kept | simulator/src/main/java/com/simomics/leishsim/Driver.java:340-343 | the pieces kept after trimming are all non-empty |
| Driver.WordPieces | simulator/src/main/java/com/simomics/leishsim/Driver.java:339 | a word followed by more text starts the first piece and leaves the rest as they were |
| Driver.SpacedPieces | simulator/src/main/java/com/simomics/leishsim/Driver.java:339 | words joined by single spaces split back into exactly those words |
| Driver.TrimmedTrim | simulator/src/main/java/com/simomics/leishsim/Driver.java:340 | trimming a string without blanks at its ends changes nothing |
| Driver.KeptWords | simulator/src/main/java/com/simomics/leishsim/Driver.java:340-343 | non-empty words are all kept, unchanged |
| Driver.WordsRoundTrip | simulator/src/main/java/com/simomics/leishsim/Driver.java:338-345 | a line of words joined by spaces gives back exactly those words |
| Driver.TrimWord | simulator/src/main/java/com/simomics/leishsim/Driver.java:340 | a trimmed piece of a split holds no whitespace |
| Driver.KeptAreWords | simulator/src/main/java/com/simomics/leishsim/Driver.java:340-343 | every piece kept is a word: non-empty and without whitespace |
| Driver.WordsAreWords | simulator/src/main/java/com/simomics/leishsim/Driver.java:337-345 | every part of the command is a word |
| Driver.KeptStep | simulator/src/main/java/com/simomics/leishsim/Driver.java:340-343 | one more piece adds its trimmed text when that is non-empty, and nothing otherwise |
| Driver.AppendWords | simulator/src/main/java/com/simomics/leishsim/Driver.java:339-344 | the inner loop appends the words of the line to the command |
| Driver.WordsStep | simulator/src/main/java/com/simomics/leishsim/Driver.java:338 | one more line appends its words |
| Driver.PythonCommand | simulator/src/main/java/com/simomics/leishsim/Driver.java:326-350 | a file that cannot be read gives `python` alone; otherwise the command is the words of its lines, in order |
| Driver.Driver.constructor | simulator/src/main/java/com/simomics/leishsim/Driver.java:34-66 | no lengths or intervals given, printing LD, INFg and IL10, logging at the printed species into `logs`, no analysis |
| Driver.Driver.TidyInputParameters | simulator/src/main/java/com/simomics/leishsim/Driver.java:226-263 | the settings become those `Tidy` describes, and the print list, log level, logs directory and analysis flag are unchanged |
| Driver.Driver.TidySimulationParameters | simulator/src/main/java/com/simomics/leishsim/Driver.java:268-274 | a print list of just `all` becomes every species name of the model, each once; any other list is kept; the timing settings, log level, logs directory and analysis flag are unchanged |

## Left out

- Parsing MDSL (the ANTLR grammar and listener callbacks of `SimulationFactory`) is not modelled. The builders and factory rules start from what the parser would hand them.
- Random number generation (`MersenneTwisterFast`, its seeding) is not modelled. The draws are a parameter, so runs are not bit-for-bit reproducible in the model.
- Floating point is not modelled: rounding, overflow to infinity, NaN from `Math.log` of a non-positive number, and the `chosenReaction == null` branch of `chooseRandomReaction`, which only rounding can reach. With exact reals the selection walk always stops at a pair, because the target is strictly below the total.
- All output is left out: the printing methods of `Simulation` (`printHeadings*`, `printSpecies*`, `printPropensities`, `computeSpeciesPerMembrane`), `Membrane.toString`, `printReactionRatesTable`, the text-file loggers and `Logging.resetLogging`, and the JSON and GraphML writers and layout of `Graph`. These are I/O.
- File and process I/O in `Driver` is left out: `main`, reading and writing files in `includeMdslFile`/`preprocessMdslFile`, and `runAnalysisScript`. Only the rules inside them are modelled.
- Insertion order of the source's linked collections is not kept. In the source these iterate in insertion order: the species pools of a membrane and the initial species (`LinkedHashMultiset`), the subtree index `allMembranes` (`LinkedHashMultimap`), and the species-name set (`LinkedHashSet`). The model keeps them as `set`s and `map`s, which record no order. So the model leaves open four orders the source fixes: the species lines of the full state, the numbering of diagram nodes in `Graph.create(model)`, the print list `tidySimulationParameters` builds for `all`, and the order in which one initial species is added to its matching membranes. The children of a builder are the exception: `MembraneBuilding.Occurrences` keeps their insertion order.
- Only two places iterate a collection with no fixed order in the source: the `HashSet`s of `Graph.create(model, tags)`, and the `HashSet` built by the tag branch of `getMatchingMembranes`. The model leaves these orders open too.
- Equal-time events in the priority queue: the source's `PriorityQueue` leaves their order unspecified, and the model puts a new event after every event due at the same time.
- Membranes.NumLocated: `numSpecies` of a `contained` species asked at the outermost membrane dereferences a null parent in the source. The model answers 0.
- Equations.MassAction: for stoichiometry 3 or more above the count, the source's binomial routine throws an unchecked exception. The model fails the evaluation.
- Equations.Eval: evaluating a parameter node gives minus infinity in the source (with a logged error). The model fails the evaluation instead, because minus infinity is not a real. Semantic checks reject models with undefined parameters before any evaluation.
- Simplification.Simplify: an undefined parameter becomes the number minus infinity in the source, and a child that simplifies to null is wrapped unchanged into its parent. The model makes the whole simplification fail in both cases.
- ReactionBuilding.ReactionBuilder.Create: fails when the rate modifier was never set, where the source would build a reaction holding null and fail later.
- MembraneBuilding.Builders.AddMembrane: a negative number of copies returns a failure, where Guava's `Multiset.add` throws. The exception's message is not modelled.
- 32-bit overflow (`Text.ToInt`) is modelled for the hours-to-seconds products of `Driver` and for hash codes. It is not modelled for species counts, for n(n-1)/2 of `LocatedSpeciesExpression`, or for stoichiometries; these are unbounded `nat`s.
- Models.DependsOn: the dependency relation uses the corrected dependency walk, which also descends into round and ln (Findings 1 and 3). The source's walk misses a species that occurs only below round or ln, so after a firing that changes it the source leaves that entry stale. For models with no species below round or ln in any rate equation the two walks agree (`Models.AsWrittenTableComplete`, `Reactions.BinaryWalkComplete`), and the contract holds of the source.
- Models.UsesAnyOf: models the corrected dependency walk, which also descends into round and ln (Findings 1 and 3). The source's walk misses a species that occurs only below round or ln, so after a firing that changes it the source leaves that entry stale. For models with no species below round or ln in any rate equation the two walks agree (`Models.AsWrittenTableComplete`, `Reactions.BinaryWalkComplete`), and the contract holds of the source.
- Models.MembraneModel.DependentReactions: returns the table built with the corrected dependency walk, which also descends into round and ln (Findings 1 and 3). The source's walk misses a species that occurs only below round or ln, so after a firing that changes it the source leaves that entry stale. For models with no species below round or ln in any rate equation the two walks agree (`Models.AsWrittenTableComplete`, `Reactions.BinaryWalkComplete`), and the contract holds of the source.
- Models.IndependentRateUnchanged: is proved of the table built with the corrected dependency walk, which also descends into round and ln (Findings 1 and 3). The source's walk misses a species that occurs only below round or ln, so after a firing that changes it the source leaves that entry stale. For models with no species below round or ln in any rate equation the two walks agree (`Models.AsWrittenTableComplete`, `Reactions.BinaryWalkComplete`), and the contract holds of the source.
- Models.CalculateReactionDependencies: builds the table with the corrected dependency walk, which also descends into round and ln (Findings 1 and 3). The source's walk misses a species that occurs only below round or ln, so after a firing that changes it the source leaves that entry stale. For models with no species below round or ln in any rate equation the two walks agree (`Models.AsWrittenTableComplete`, `Reactions.BinaryWalkComplete`), and the contract holds of the source.
- Models.NewMembraneModel: stores the table built with the corrected dependency walk, which also descends into round and ln (Findings 1 and 3). The source's walk misses a species that occurs only below round or ln, so after a firing that changes it the source leaves that entry stale. For models with no species below round or ln in any rate equation the two walks agree (`Models.AsWrittenTableComplete`, `Reactions.BinaryWalkComplete`), and the contract holds of the source.
- RateTables.DependentsOf: calls `Reactions.DependentLocatedSpecies`, the corrected dependency walk, which also descends into round and ln (Findings 1 and 3). The source's walk misses a species that occurs only below round or ln, so after a firing that changes it the source leaves that entry stale. For models with no species below round or ln in any rate equation the two walks agree (`Models.AsWrittenTableComplete`, `Reactions.BinaryWalkComplete`), and the contract holds of the source.
- RateTables.MembraneDependencies: maps each fired pair to its dependents under the corrected dependency walk, which also descends into round and ln (Findings 1 and 3). The source's walk misses a species that occurs only below round or ln, so after a firing that changes it the source leaves that entry stale. For models with no species below round or ln in any rate equation the two walks agree (`Models.AsWrittenTableComplete`, `Reactions.BinaryWalkComplete`), and the contract holds of the source.
- RateTables.EntryUnchanged: holds for the dependency table built with the corrected dependency walk, which also descends into round and ln (Findings 1 and 3). The source's walk misses a species that occurs only below round or ln, so after a firing that changes it the source leaves that entry stale. For models with no species below round or ln in any rate equation the two walks agree (`Models.AsWrittenTableComplete`, `Reactions.BinaryWalkComplete`), and the contract holds of the source.
- RateTables.NewRateTable: builds its dependency table with the corrected dependency walk, which also descends into round and ln (Findings 1 and 3). The source's walk misses a species that occurs only below round or ln, so after a firing that changes it the source leaves that entry stale. For models with no species below round or ln in any rate equation the two walks agree (`Models.AsWrittenTableComplete`, `Reactions.BinaryWalkComplete`), and the contract holds of the source.
- RateTables.RateTable.UpdateViableReactions: promises every entry correct afterwards because it recomputes under the corrected dependency walk, which also descends into round and ln (Findings 1 and 3). The source's walk misses a species that occurs only below round or ln, so after a firing that changes it the source leaves that entry stale. For models with no species below round or ln in any rate equation the two walks agree (`Models.AsWrittenTableComplete`, `Reactions.BinaryWalkComplete`), and the contract holds of the source.
- RateTables.RateTable.RecalculatePropensitiesFrom: promises a correct table again because it recomputes under the corrected dependency walk, which also descends into round and ln (Findings 1 and 3). The source's walk misses a species that occurs only below round or ln, so after a firing that changes it the source leaves that entry stale. For models with no species below round or ln in any rate equation the two walks agree (`Models.AsWrittenTableComplete`, `Reactions.BinaryWalkComplete`), and the contract holds of the source.
- Simulations.Simulation.RunHeadEvent: leaves a correct table because it recomputes under the corrected dependency walk, which also descends into round and ln (Findings 1 and 3). The source's walk misses a species that occurs only below round or ln, so after a firing that changes it the source leaves that entry stale. For models with no species below round or ln in any rate equation the two walks agree (`Models.AsWrittenTableComplete`, `Reactions.BinaryWalkComplete`), and the contract holds of the source.
- Simulations.Simulation.FireReaction: queues the release at the corrected enqueue time, the delay after the firing (Finding 2). In the source a release whose delay is shorter than the wait is due before the firing, and the next step reports a negative time and moves the clock back (`Simulations.AsWrittenEventPrecedesFiring`). For models whose delays are never shorter than a wait this does not arise.
- Simulations.Simulation.Dispatch: reports a time that is never negative because the queue uses the corrected enqueue time, the delay after the firing (Finding 2). In the source a release whose delay is shorter than the wait is due before the firing, and the next step reports a negative time and moves the clock back (`Simulations.AsWrittenEventPrecedesFiring`). For models whose delays are never shorter than a wait this does not arise. Its table stays correct by the corrected dependency walk, which also descends into round and ln (Findings 1 and 3). The source's walk misses a species that occurs only below round or ln, so after a firing that changes it the source leaves that entry stale. For models with no species below round or ln in any rate equation the two walks agree (`Models.AsWrittenTableComplete`, `Reactions.BinaryWalkComplete`), and the contract holds of the source.
- Simulations.Simulation.Step: reports a time that is never negative because the queue uses the corrected enqueue time, the delay after the firing (Finding 2). In the source a release whose delay is shorter than the wait is due before the firing, and the next step reports a negative time and moves the clock back (`Simulations.AsWrittenEventPrecedesFiring`). For models whose delays are never shorter than a wait this does not arise. Its table stays correct by the corrected dependency walk, which also descends into round and ln (Findings 1 and 3). The source's walk misses a species that occurs only below round or ln, so after a firing that changes it the source leaves that entry stale. For models with no species below round or ln in any rate equation the two walks agree (`Models.AsWrittenTableComplete`, `Reactions.BinaryWalkComplete`), and the contract holds of the source.
- Simulations.Simulation.Advance: moves the clock forward only because the queue uses the corrected enqueue time, the delay after the firing (Finding 2). In the source a release whose delay is shorter than the wait is due before the firing, and the next step reports a negative time and moves the clock back (`Simulations.AsWrittenEventPrecedesFiring`). For models whose delays are never shorter than a wait this does not arise.
- Simulations.Simulation.RunForSeconds: a `fuel` bound on the number of steps replaces the source's unbounded loop; running out of fuel is the outcome `OutOfSteps`, about which only the clock being short of the target is stated. Its clock never goes back and its table stays correct only because of the two corrections above (Findings 1 and 2).
- Simulations.Simulation.RunSeconds: inherits the same step bound for each chunk, and the same two corrections.
- Simulations.Simulation.ChooseNext: requires every draw strictly between 0 and 1. `nextDouble` can return 0, which gives an infinite wait in the source. The correct table it promises rests on the corrected dependency walk (Findings 1 and 3).
- RateTables.RateTable.ChooseRandomReaction: the same restriction on the draws, and its entries are correct after the update only under the corrected dependency walk (Findings 1 and 3).
- Text.ParseInt: accepts ASCII decimal digits only, where `Integer.valueOf` accepts every Unicode decimal digit. Text outside ASCII is not modelled.
- Text.ToLower: lowers ASCII letters only, where Java's `toLowerCase` lowers every Unicode letter and can change a string's length. Text outside ASCII is not modelled.
- Membranes.IsUniqueTag: recognises ASCII digits only after the underscore, where `StringUtils.isNumeric` accepts any Unicode digit, so a user tag such as `cell_` followed by a non-ASCII digit is kept here but dropped by the source.
- DiagramReading.Commit: an edge block naming an unknown node only sets the error flag. The source also adds an edge with a null end.
- DiagramBuilding.Create: a reaction mentioning a species the model does not list draws no edge, where the source would add an edge to a null node. The model's species list includes every species of every reaction, so this does not arise for parsed models.
- Driver.PythonCommand: models only the tokenising. That the default list returned when the file cannot be read is fixed-size, so appending the script path to it would throw, belongs to `runAnalysisScript`, which is left out.
- Collections.Enumerate: leaves the listing order open. For `tidySimulationParameters` the source lists the species names in insertion order (a `LinkedHashSet`), which the model's `set` does not record. For `Graph.create` with a tag list, the source's `HashSet` fixes no order.

## Findings

| source | as written | input that shows it | evidently intended | confidence | as-written member | corrected member |
|---|---|---|---|---|---|---|
| simulator/src/main/java/com/simomics/leishsim/model/Reaction.java:249-264 | the dependent-species worklist descends only through binary operations, so a species that appears only under `round` or `ln` is not a dependency, and firing a reaction that changes it leaves that rate stale | the rate equation `round(a)`: its value changes from 0 to 1 when the count of a goes from 0 to 1, yet the walk finds no species | descend into unary operations too, so every species leaf whose count the value depends on is a dependency | high for the stale rate, not executed | Reactions.UnaryLeavesMissed | Reactions.DependentLocatedSpecies |
| simulator/src/main/java/com/simomics/leishsim/simulation/Simulation.java:96-98 | a delayed product release is due at the delay after the clock as it was before the step, not after the moment the reaction fires | any firing whose delay is shorter than its wait: with a wait of 10 hours and a delay of 1 hour at time 0, the products are due at 3600 s while the clock reaches 36000 s, so the next step, which must run that release, reports −32400 s and moves the clock back | products are due the delay after the firing, so the clock never goes back | medium, not executed | Simulations.AsWrittenEventPrecedesFiring | Simulations.EnqueueTime |
| simulator/src/main/java/com/simomics/leishsim/model/MembraneModel.java:105-120 | the reaction-dependency worklist, a second copy of the walk of Finding 1, also pushes only the operands of binary operations, so a reaction whose rate reads a species only below `round` or `ln` is not recomputed after a reaction that changes that species fires | a reaction consuming a, and a reaction producing a at rate `round(a)`: the second is not listed as dependent on the first, though firing the first changes the second's rate | every reaction whose rate equation names a modified species, at any depth, is dependent | high for the stale rate, not executed | Models.AsWrittenDependencyMissed | Models.CalculateReactionDependencies |
