# Peak traffic and friends networks, modelled in Dafny

This project models two small programs from a collection of Python puzzle
solutions. It proves what each one computes.

**peaktraffic.py** holds an undirected graph as an adjacency map, where every
vertex maps to the set of its neighbours. Its `max_cliques` lists the maximal
cliques of the graph with the Bron–Kerbosch algorithm, without pivoting. The top
level visits the vertices in order of degree. The model has three modules:

- `Adjacency`: the map itself, and what adding one edge does to it.
- `CliqueTheory`: cliques, maximal cliques, and the search frame (R, P, X) the
  recursion works on. R is the clique being grown, P the candidates that may still
  extend it, X the vertices already tried. The module proves what one frame must
  report and how a frame's report splits across its branches.
- `PeakTraffic`: the `Graph` class. Its `adj` field is the adjacency map, which
  `AddPair` updates. `BronKerbosch` is a recursive method that threads the shared
  output list and appends to it. `MaxCliques` is proved to return every non-empty
  maximal clique exactly once and nothing else. Its loop is `MaxCliquesInOrder`,
  which is proved for every ordering of the vertices. So the ordering changes the
  cost of the search and the order of the returned list, never the set of cliques found.

**levdist.py** generates every string at Levenshtein distance one from a word
(module `LevDist`). Its `network` grows the friends network of a word inside a
corpus, round by round, until a round adds nothing. Module `Closure` holds the
theory of connected components under a generator of candidate friends:

- The generator is a function returning the yielded strings in order, with
  repetitions. Each of its loops is a recursive function with its own lemmas.
- The model proves how many strings it yields, that each one is a single edit of
  the lower-cased word, and that every single edit is among them.
- `Network` is a method with the source's `while` loop. It is proved equal to the
  set of words reachable from the start word by chains of generated variants
  through the corpus. That set is the ghost function `FriendsNetwork`, the
  `Closure.Component` of the word under the generator.
- A component is proved closed under the generator inside the corpus, and the
  least closed set containing the start word.

Outside effects are parameters: the vertices are an arbitrary type `V`, and the
corpus is a set argument.

## Model

| member | source | states |
|---|---|---|
| Adjacency.AddEdge | peaktraffic.py:36-47 | recording u--v makes u and v keys, puts v among u's neighbours and u among v's, and leaves every other neighbour set as it was |
| Adjacency.AddEdgeIdempotent | peaktraffic.py:37-45 | adding the same pair twice gives the same map as adding it once |
| Adjacency.AddEdgeSymmetric | peaktraffic.py:36-45 | add_pair(u, v) and add_pair(v, u) produce the same map |
| Adjacency.AddEdgeWellFormed | peaktraffic.py:36-45 | with u != v, adding an edge keeps the map symmetric and irreflexive, with no key lacking a neighbour |
| Adjacency.DegreeBounds | peaktraffic.py:52-53 | in a well-formed map every vertex has at least one and fewer neighbours than there are vertices |
| Adjacency.MinimumDegreeExists | peaktraffic.py:69 | every non-empty set of vertices has one of least degree, the next vertex in the sorted order |
| CliqueTheory.MaximalIffNoLargerClique | peaktraffic.py:74-78 | maximality by one-vertex extension is the same as having no strictly larger clique containing it |
| CliqueTheory.CommonNeighborOutside | peaktraffic.py:101-111 | in an irreflexive graph a common neighbour of R is never in R |
| CliqueTheory.ExtendFrame | peaktraffic.py:104-109 | adding a common neighbour v to clique R gives a clique whose common neighbours are R's intersected with neighbors(v) |
| CliqueTheory.ExtensionIffCommonNeighbor | peaktraffic.py:101-111 | an outside vertex extends R to a clique if and only if it is a common neighbour of R |
| CliqueTheory.MaximalIffNoCommonNeighbor | peaktraffic.py:101-102 | a clique is maximal if and only if no vertex is adjacent to all of it, so P and X both empty means R is maximal |
| CliqueTheory.ChildFrame | peaktraffic.py:103-111 | branching on v in P gives the frame (R + {v}, P * N(v), X * N(v)); moving v from P to X keeps (R, P, X) a frame |
| CliqueTheory.ClosedFrameReportsItself | peaktraffic.py:101-102 | when P and X are empty, R is the one maximal clique the frame must report |
| CliqueTheory.OpenFrameSkipsItself | peaktraffic.py:101-102 | when P or X is non-empty, no maximal clique the frame reports lies inside R, so R is rightly not appended |
| CliqueTheory.FinishFrame | peaktraffic.py:101-111 | the frame's own report followed by its branches' reports lists, once each, exactly the maximal cliques between R and R + P |
| CliqueTheory.BranchReports | peaktraffic.py:103-109 | the branch on v reports exactly the frame's maximal cliques that contain v |
| CliqueTheory.AppendBranch | peaktraffic.py:103-111 | appending the branch on v keeps the list free of duplicates and moves v's cliques from "to report" to "reported" |
| CliqueTheory.ExtendToMaximal | peaktraffic.py:74-78 | every clique lies inside some maximal clique |
| CliqueTheory.VertexInMaximalClique | peaktraffic.py:74-93 | every vertex lies in some maximal clique, so in some clique max_cliques returns |
| PeakTraffic.Graph.constructor | peaktraffic.py:33-34 | a new graph has an empty, well-formed adjacency map |
| PeakTraffic.Graph.AddPair | peaktraffic.py:36-47 | the map becomes AddEdge of the old map, stays well formed, and the pair (u, v) is returned |
| PeakTraffic.Graph.Neighbors | peaktraffic.py:49-50 | KeyError exactly for a non-vertex; otherwise the recorded neighbour set |
| PeakTraffic.Graph.NeighborsSymmetric | peaktraffic.py:49-50 | w is a neighbour of u if and only if u is a neighbour of w, and no vertex is its own neighbour |
| PeakTraffic.Graph.Degree | peaktraffic.py:52-53 | KeyError exactly when neighbors raises it; otherwise the size of the neighbour set |
| PeakTraffic.Graph.DegreeRange | peaktraffic.py:52-53 | every vertex's degree is between 1 and the number of vertices minus one |
| PeakTraffic.Graph.Vertices | peaktraffic.py:71-72 | the vertices are exactly the keys for which neighbors succeeds |
| PeakTraffic.Graph.DegeneracyOrdering | peaktraffic.py:55-69 | every vertex exactly once, in non-decreasing order of degree |
| PeakTraffic.Graph.MaxCliques | peaktraffic.py:74-93 | no clique listed twice; a set is listed if and only if it is a non-empty maximal clique; an empty graph gives [] |
| PeakTraffic.Graph.MaxCliquesInOrder | peaktraffic.py:79-93 | for any ordering of the vertices used by the outer loop: no clique listed twice, a set is listed if and only if it is a non-empty maximal clique, and an empty graph gives [] |
| PeakTraffic.Graph.BronKerbosch | peaktraffic.py:95-111 | keeps the list it was given as a prefix and appends, once each, exactly the maximal cliques between acc and acc + possible |
| LevDist.LowerChar | levdist.py:27 | 'A' to 'Z' become the letter at the same place in a to z, every other character is kept; the result is a letter a to z exactly when the input is a letter of either case |
| LevDist.Lower | levdist.py:27 | same length as the input, each character lower-cased on its own |
| LevDist.LowerIdempotent | levdist.py:26-27 | lower-casing a lower-cased copy changes nothing |
| LevDist.Letter | levdist.py:30 | the k-th letter of string.ascii_lowercase is a letter, k places after 'a' |
| LevDist.NoNonLetters | levdist.py:29-40 | a word has no character outside a to z exactly when its non-letter count is zero |
| LevDist.Substitute | levdist.py:33 | same length, the new letter at position i, every other position unchanged |
| LevDist.InsertAt | levdist.py:35 | one longer, the new letter at position i, the word's prefix before it and the rest after it |
| LevDist.DeleteAt | levdist.py:37 | one shorter, the prefix before i kept, and the remainder after i shifted down by one |
| LevDist.OneEditChanges | levdist.py:21-24 | no edit gives back the word itself |
| LevDist.LetterVariants | levdist.py:30-35 | the inner loop at position i as a recursion over the letters; what it yields is stated by LetterVariantsCount, LetterVariantsSound and LetterVariantsComplete |
| LevDist.LetterVariantsCount | levdist.py:30-35 | the inner loop yields two strings per letter, except none for the letter equal to word[i] |
| LevDist.LetterVariantsSound | levdist.py:30-35 | every string of the inner loop is the substitution at i, or the insertion before i, of a letter other than word[i]; so each is a substitution or an insertion |
| LevDist.LetterVariantsComplete | levdist.py:30-35 | for every letter other than word[i], its substitution at i and its insertion before i are yielded |
| LevDist.PositionVariants | levdist.py:29-37 | the outer loop as a recursion over the positions; what it yields is stated by PositionVariantsCount, PositionVariantsSound, PositionVariantsComplete and DeletionsGenerated |
| LevDist.PositionVariantsCount | levdist.py:29-37 | the outer loop yields 51 strings per position, two more where the character is not a letter a to z |
| LevDist.PositionVariantsSound | levdist.py:29-37 | every string of the outer loop is a single edit of the word |
| LevDist.PositionVariantsComplete | levdist.py:29-35 | every substitution by a different letter and every insertion before a different letter is yielded |
| LevDist.DeletionsGenerated | levdist.py:29-37 | the deletion of every position is yielded |
| LevDist.AppendVariants | levdist.py:39-40 | the final loop as a recursion over the letters; what it yields is stated by AppendVariantsSound and AppendVariantsComplete |
| LevDist.AppendVariantsSound | levdist.py:39-40 | the final loop yields 26 strings, the j-th being the word followed by the j-th letter of a to z; each is an insertion |
| LevDist.AppendVariantsComplete | levdist.py:39-40 | the word with any letter appended is yielded |
| LevDist.DistOneWordVariants | levdist.py:21-40 | the generator's yields in order: the outer loop over the lower-cased word, then the final loop; what it yields is stated by VariantCount, VariantsSound, VariantsComplete and VariantsExact |
| LevDist.VariantCount | levdist.py:29-40 | 51 * n + 26 strings for a word of n characters, plus two per character that is not a letter after lower-casing |
| LevDist.LowerAllLetters | levdist.py:27 | a word of letters a to z or A to Z has only letters a to z after lower-casing |
| LevDist.VariantCountLetters | levdist.py:29-40 | for a word of n letters exactly 2 * 25 * n + n + 26 = 51 * n + 26 strings are yielded |
| LevDist.VariantsSound | levdist.py:21-40 | every yielded string is a single edit of the lower-cased input |
| LevDist.VariantLength | levdist.py:31-40 | every yielded string is one character shorter than the word, as long, or one longer |
| LevDist.InsertionGenerated | levdist.py:29-40 | any insertion of a letter is yielded, either before a different letter or, past a run of equal letters, as an append |
| LevDist.OneEditGenerated | levdist.py:29-40 | every single edit of the word is yielded |
| LevDist.VariantsComplete | levdist.py:21-40 | every single edit of the lower-cased input is yielded |
| LevDist.VariantsExact | levdist.py:21-40 | a string is yielded if and only if it is a single edit of the lower-cased input |
| Closure.Component | levdist.py:43-67 | the component of a word contains the word and lies inside the corpus plus the word |
| Closure.ExtendChain | levdist.py:57-65 | a chain extended by one more step is still a chain |
| Closure.ReachableStep | levdist.py:57-65 | a step from a reachable word reaches a word again |
| Closure.ComponentClosed | levdist.py:57-65 | every corpus word generated from a member of the component is itself a member |
| Closure.ChainStaysInside | levdist.py:57-65 | a chain from a member of a closed set never leaves it |
| Closure.ComponentLeast | levdist.py:57-65 | the component lies inside every closed set containing its start word |
| Closure.RemoveSubsetCardinality | levdist.py:64 | removing the matches from the corpus copy takes away exactly as many words as there are matches, so the loop terminates |
| LevDist.FriendsNetwork | levdist.py:8-10 | the friends network of a word: it contains the word, lies within the corpus plus the word, and is closed under generated variants in the corpus |
| LevDist.RoundMatches | levdist.py:58-62 | a round's matches lie in the corpus copy; they contain every copy word generated from a component word, and each comes from one |
| LevDist.RoundStaysInNetwork | levdist.py:58-65 | a round started inside the friends network adds only network words |
| LevDist.EmptyRoundClosed | levdist.py:57-62 | when a round finds nothing, the component is closed within the corpus |
| LevDist.Network | levdist.py:43-67 | the result is the friends network: it contains the test word, stays within the corpus plus the test word, and is closed |
| LevDist.NetworkSize | levdist.py:70-76 | the size of the friends network |

## Left out

- `main` of peaktraffic.py (lines 114-155) and of levdist.py (lines 79-105): file reading, line splitting, the reciprocal-pair filter, the size-3 filter and printing are input and output glue around the modelled core.
- Self-loops: `PeakTraffic.Graph.AddPair` requires u != v. The source does not guard against `add_pair(u, u)`, which would make u its own neighbour and break the irreflexivity the clique search relies on. The source then never finishes `max_cliques`: u is its own neighbour, so every branch on u passes u among the candidates again (peaktraffic.py:103-109), and `_bron_kerbosch` calls itself without end until Python's recursion limit raises an error. The precondition is what makes `decreases possible` hold in `BronKerbosch`.
- PeakTraffic.Graph.DegeneracyOrdering: leaves open the order among vertices of equal degree. Python's stable `sorted` keeps dictionary order there, and the model does not track dictionary order. The source is a single `sorted` expression. The model is a method that repeatedly selects a vertex of least degree, because a compiled Dafny function cannot choose an element of a set. The result is a sorted ordering in both cases.
- The doc-comment of `degeneracy_ordering` (lines 56-64) describes peeling, where each vertex has minimum degree among the vertices still remaining. Line 69 sorts by degree in the whole graph instead, and the model follows line 69. Correctness of `max_cliques` does not depend on the order, so the difference only affects the number of recursive calls.
- PeakTraffic.Graph.MaxCliques: states the contents of the returned list and that it has no duplicates, not its order. The order depends on Python's set iteration order, which `BronKerbosch` models as an arbitrary choice of the next candidate.
- `vertices()` returns a list copy of the dictionary keys. The model returns the key set, because the list's order is never used: `max_cliques` wraps it in a `frozenset` at line 79.
- Frozensets and sets are both Dafny `set` values. The generator is a finite sequence rather than a lazy iterator.
- `str.lower()` is modelled as mapping 'A' to 'Z' to 'a' to 'z' and keeping every other character. The program is written for Python 2 and reads its words from a file as byte strings (levdist.py:93, 100). For those, `lower()` does exactly this under the default locale, so the model is exact for the strings the program processes. The Unicode case mappings that can change a string's length apply only to Python 3 text strings, which the program does not use.
- The Levenshtein distance itself, a dynamic-programming quantity, is not defined. Distance one is defined directly as one substitution by a different letter a to z, one insertion of a letter a to z, or one deletion. These are the edits the generator produces, and the alphabet it uses.
- LevDist.Network: the copy `set(corpus)` protects the caller's corpus from mutation. Dafny sets are values, so the model has nothing to protect, and it makes no statement about it.
