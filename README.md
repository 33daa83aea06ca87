# Suffix structures, a linked list and small algorithms, modelled in Dafny

This project models the core of a collection of Java programs and proves what they
compute.

- **Suffix array and LCP array** (`Algorithms/SuffixArrayLCP.java`).
  - `buildSA` builds the suffix array by prefix doubling. Each round sorts the
    positions on the pair (rank at `i`, rank at `i + K` or −1), re-ranks them
    densely, and stops early once every rank is distinct.
  - `buildLCP` is Kasai's algorithm.
  - `countDistinctSubstrings` returns `n(n+1)/2 − Σ lcp`.
  - The model proves:
    - the result of `buildSA` is *the* suffix array: a permutation listing the
      suffixes in strictly increasing order, and unique;
    - every LCP entry is the longest common prefix of two neighbouring suffixes;
    - the count is the number of different non-empty substrings.
- **Suffix automaton** (`Algorithms/SuffixAutomation.java`).
  - The automaton is an object whose arena of states (`len`, `link`, a `next` map)
    and `last` state are updated in place by `extend`. Two queries read it:
    `distinctSubstringsCount` and `longestCommonSubstring`.
  - The text read so far and one end position per state are kept as ghost fields.
    The class invariant `Automaton` says what every state means: its end-position
    class, its suffix link, and its transitions.
  - `extend` is proved to keep that invariant.
  - The second walk of `extend` never meets a state without a transition on `c`, so
    Java's `next.get(c) == q` never unboxes a `null`.
  - The automaton accepts exactly the substrings of the text.
  - The count equals the number of different non-empty substrings. It therefore
    agrees with the suffix-array count (`CountsAgree`).
  - The matching walk returns the length of a longest common substring.
- **Doubly linked list** (`DataStructures/DoublyLinkedList.java`): a class over heap
  nodes. Its ghost sequence of nodes and of values is tied to the `next` and `prev`
  pointers. Insertion, deletion of the first node holding a key, search, and both
  traversals are stated on that sequence.
- **Minimum and maximum**:
  - the iterative pair-wise method (`Algorithms/MinMaxIterative.java`), including its
    three comparisons per pair;
  - the divide-and-conquer method (`Algorithms/MinMaxRecursive.java`), proved to give
    the same pair.
- **Jump search** (`Algorithms/Jump_Search.java`): on an ascending array it returns
  the first index holding the key, or −1 exactly when the key is absent.
- **Bellman-Ford** (`Algorithms/BellmanFord.java`):
  - Every finite distance is the weight of a walk.
  - A negative cycle is reported exactly when one is reachable.
  - Otherwise, the distances are the exact shortest-walk weights, and `INF` marks
    exactly the unreachable vertices.
  - The last two facts hold under a weight bound (`NoOverflow`). That bound also keeps
    every sum Java's `int` arithmetic computes from wrapping around.
- **Grade rule** (`Beginner/GradeCalculator.java`): the if/else-if chain as written,
  and the rule as the program's prompt and error message describe it. See
  "## Findings".

Modules follow the programs:
- `Strings`: common prefix, lexicographic order and substring sets.
- Suffix array: `SuffixArrayTheory`, `SubstringCounting` and `SuffixArrayLcp`.
- Suffix automaton: `SuffixAutomatonTheory`, `SuffixAutomatonExtend`,
  `SuffixAutomatonGrow`, `SuffixAutomatonInvariant`, `SuffixAutomatonKept`,
  `SuffixAutomatonQueries` and `SuffixAutomation`.
- `CountsAgree`.
- `DoublyLinkedList`, `MinMaxRecursive`, `MinMaxIterative`, `JumpSearch`,
  `BellmanFord` and `GradeCalculator`.
- `Outcomes`: the `Option` and `Result` types that stand for Java's `null` and its
  exceptions.

## Model

| member | source | states |
|---|---|---|
| SuffixArrayTheory.CharRanks | Algorithms/SuffixArrayLCP.java:10-13 | the character codes rank the prefixes of length 1: equal exactly for equal characters, and in their order |
| SuffixArrayTheory.Compare | Algorithms/SuffixArrayLCP.java:17-22 | the comparator is negative, zero or positive exactly when the pair (rank at `a`, rank at `a + K` or −1) is below, equal to or above that of `b` |
| SuffixArrayTheory.PrefixOrderIsSuffixOrder | Algorithms/SuffixArrayLCP.java:17-22 | prefixes of one length that are strictly ordered order their suffixes the same way; a prefix cut short by the end of the text comes first |
| SuffixArrayLcp.InsertAt | Algorithms/SuffixArrayLCP.java:17-22 | one insertion step keeps the same elements and extends the comparator-sorted prefix by one |
| SuffixArrayLcp.SortByKey | Algorithms/SuffixArrayLCP.java:17-22 | `sa` ends as a permutation of itself sorted by the comparator |
| SuffixArrayLcp.Rerank | Algorithms/SuffixArrayLCP.java:24-35 | new ranks along `sa` start at 0, and go up by one exactly where the comparator's pairs of neighbours differ |
| SuffixArrayTheory.RerankCorrect | Algorithms/SuffixArrayLCP.java:24-36 | dense ranks after sorting on (rank at `i`, rank at `i + K`) rank the prefixes of length `2K` |
| SuffixArrayTheory.AllRanksDistinct | Algorithms/SuffixArrayLCP.java:37 | a last rank of `n − 1` means every rank along `sa` is its own index, so all ranks are distinct |
| SuffixArrayTheory.RoundResult | Algorithms/SuffixArrayLCP.java:24-37 | after a round the ranks rank the prefixes of length `2K`; the early exit is taken only when `sa` is already the suffix array |
| SuffixArrayLcp.DoublingRound | Algorithms/SuffixArrayLCP.java:15-37 | one round keeps `sa` a permutation and makes the ranks rank the prefixes of length `2k`; on early exit `sa` is the suffix array |
| SuffixArrayTheory.FinalOrder | Algorithms/SuffixArrayLCP.java:15 | once `k >= n`, ranked prefixes are whole suffixes, so a permutation ordered by those ranks is the suffix array |
| SuffixArrayLcp.BuildSA | Algorithms/SuffixArrayLCP.java:4-40 | the result is a permutation of `0..n−1` listing the suffixes in strictly increasing lexicographic order; this covers `n = 0` and `n = 1` |
| SuffixArrayTheory.SuffixArrayUnique | Algorithms/SuffixArrayLCP.java:4-40 | two suffix arrays of the same text are equal, so the result of `buildSA` is fully determined |
| SuffixArrayTheory.NeighboursSorted | Algorithms/SuffixArrayLCP.java:4-40 | neighbours in strictly increasing order give an order that is strictly increasing throughout |
| SuffixArrayLcp.RankOfSuffixes | Algorithms/SuffixArrayLCP.java:44-45 | `rank` is the inverse permutation of `sa` |
| SuffixArrayLcp.ExtendMatch | Algorithms/SuffixArrayLCP.java:52 | started at most at the common prefix length of the two suffixes, the matching loop ends exactly at it |
| SuffixArrayTheory.KasaiStep | Algorithms/SuffixArrayLCP.java:54 | after `h--`, the carried length still bounds the next suffix's common prefix with its predecessor from below |
| SuffixArrayLcp.KasaiVisit | Algorithms/SuffixArrayLCP.java:49-55 | visiting position `i` fills the entry at its rank correctly. The carried `h` stays a lower bound and is 0 at rank 0, so the missing reset there does no harm |
| SuffixArrayLcp.KasaiLoop | Algorithms/SuffixArrayLCP.java:46-56 | after visiting every position, every entry of `lcp` is right |
| SuffixArrayLcp.BuildLCP | Algorithms/SuffixArrayLCP.java:42-58 | `lcp[0] == 0`, and for `r > 0`, `lcp[r]` is the longest common prefix of the suffixes at ranks `r − 1` and `r` |
| SubstringCounting.LcpArrayUnique | Algorithms/SuffixArrayLCP.java:42-58 | two LCP arrays of one suffix array are equal |
| SubstringCounting.DistinctSubstrings | Algorithms/SuffixArrayLCP.java:64-67 | `n(n+1)/2` minus the sum of the LCP array is the number of different non-empty substrings |
| SuffixArrayLcp.CountDistinctSubstrings | Algorithms/SuffixArrayLCP.java:60-68 | the result is the number of different non-empty substrings of `s` |
| SuffixArrayLcp.BananaSuffixArray | Algorithms/SuffixArrayLCP.java:71-73 | `[5, 3, 1, 0, 4, 2]` is the suffix array of "banana" |
| SuffixArrayLcp.BananaLcp | Algorithms/SuffixArrayLCP.java:71-74 | `[0, 1, 3, 0, 0, 2]` is its LCP array |
| SuffixArrayLcp.BananaCount | Algorithms/SuffixArrayLCP.java:81 | "banana" has 15 different non-empty substrings |
| SuffixArrayLcp.BananaExample | Algorithms/SuffixArrayLCP.java:70-81 | running the three operations on "banana" gives SA `[5,3,1,0,4,2]`, LCP `[0,1,3,0,0,2]` and count 15 |
| SuffixArrayLcp.AbabaCount | Algorithms/SuffixAutomation.java:95-100 | "ababa" has 9 different non-empty substrings, shown through its suffix array `[4,2,0,3,1]` and LCP array `[0,1,3,0,2]` |
| SuffixAutomation.Initial | Algorithms/SuffixAutomation.java:27-30 | the single state with `len` 0, link −1 and no transitions is the automaton of the empty text |
| SuffixAutomation.SuffixAutomation.constructor | Algorithms/SuffixAutomation.java:27-32 | extending once per character of `s` leaves the automaton of `s` |
| SuffixAutomatonExtend.AddTransition | Algorithms/SuffixAutomation.java:39 | `put` changes the transitions of `p` only; lengths, links and every other state stay the same |
| SuffixAutomatonExtend.AddWalk | Algorithms/SuffixAutomation.java:37-41 | the first walk as a function: it keeps the number of states and stops at −1 or at a state of the arena; `AddWalkKeeps` proves what it preserves |
| SuffixAutomatonExtend.AddWalkKeeps | Algorithms/SuffixAutomation.java:37-41 | the first walk keeps links strictly shorter and transitions in range, and stops at −1 or at a state with a transition on `c` |
| SuffixAutomatonGrow.SecondWalkHas | Algorithms/SuffixAutomation.java:54-57 | every state on the suffix-link chain from where the first walk stopped has a transition on `c`, so line 54 never unboxes a missing value |
| SuffixAutomatonGrow.ChainBelowTop | Algorithms/SuffixAutomation.java:54-57 | every suffix state no longer than `p`, and its chain, keeps a transition on `c` after the first walk |
| SuffixAutomatonExtend.ChainHasAdd | Algorithms/SuffixAutomation.java:55 | redirecting a transition keeps every state on the chain holding a transition on `c` |
| SuffixAutomatonExtend.ChainHasAppend | Algorithms/SuffixAutomation.java:53 | appending the clone keeps every state on the chain holding a transition on `c` |
| SuffixAutomation.RedirectStep | Algorithms/SuffixAutomation.java:54-56 | one step of the second walk keeps its invariant: the rest of the chain has transitions on `c`, and what remains to redirect is unchanged |
| SuffixAutomatonExtend.Redirect | Algorithms/SuffixAutomation.java:54-57 | the second walk as a function: it keeps the number of states; `RedirectKeeps` and `CloneAndRedirect` say what it preserves and that Java's loop computes it |
| SuffixAutomatonExtend.RedirectKeeps | Algorithms/SuffixAutomation.java:54-57 | redirecting keeps links strictly shorter and transitions in range |
| SuffixAutomation.CloneAndRedirect | Algorithms/SuffixAutomation.java:49-57 | with Java's own loop test, appending the clone and redirecting the chain's transitions into `q` gives the arena `Redirected` describes |
| SuffixAutomation.ExtendArena | Algorithms/SuffixAutomation.java:35-60 | the two walks, the cloning and the new links leave the arena and new state that `Extended` describes |
| SuffixAutomatonExtend.Appended | Algorithms/SuffixAutomation.java:35-36 | the arena with the new state appended: one longer than `last`, no link and no transitions; links stay shorter and transitions in range |
| SuffixAutomatonExtend.Walked | Algorithms/SuffixAutomation.java:35-41 | after appending and the first walk, the arena is one state longer, links stay shorter, transitions stay in range, and the stop state is −1 or has a transition on `c` |
| SuffixAutomatonExtend.CloneOf | Algorithms/SuffixAutomation.java:49-53 | the clone of `q` only has transitions to states already in the arena |
| SuffixAutomatonExtend.Redirected | Algorithms/SuffixAutomation.java:53-57 | appending the clone and then running the second walk gives an arena one state longer |
| SuffixAutomatonExtend.Extended | Algorithms/SuffixAutomation.java:34-62 | `extend(c)` as a function: the new state sits at the old size, behind it at most a clone. What the result means is proved by `SuffixAutomatonGrow.ExtendedIsGrown` (the arena's shape) and `SuffixAutomatonKept.ExtendKeeps` (it is the automaton of the extended text); `ExtendArena` and `Extend` are proved to compute it |
| SuffixAutomatonGrow.ExtendedIsGrown | Algorithms/SuffixAutomation.java:34-62 | `extend` appends one state, or two when it clones. Old states keep their lengths; `q` is linked to the clone. The new state has length `|T| + 1`; the clone has `len(p) + 1`, `q`'s link and `q`'s transitions |
| SuffixAutomatonKept.ExtendKeeps | Algorithms/SuffixAutomation.java:34-62 | the automaton of `T` extended by `c` is the automaton of `T + [c]`, with the new state as its last |
| SuffixAutomation.ExtendedAutomaton | Algorithms/SuffixAutomation.java:34-62 | the arena and state `ExtendArena` returns for `c` form the automaton of the text extended by `c`, with that state as its last |
| SuffixAutomation.SuffixAutomation.Extend | Algorithms/SuffixAutomation.java:34-62 | the object stays the automaton of its text, which grows by `c`; arena and `last` are the ones `Extended` describes |
| SuffixAutomatonQueries.FollowOccurs | Algorithms/SuffixAutomation.java:34-62 | the transitions spelling `w` exist from state 0 if and only if `w` occurs in the text, and they lead to the class of `w` |
| SuffixAutomatonQueries.Count | Algorithms/SuffixAutomation.java:65-71 | the sum of `len(v) − len(link(v))` over the states `1..n−1` is at least `n − 1`, each state being longer than its link; `CountIsDistinct` proves what it counts |
| SuffixAutomatonQueries.CountIsDistinct | Algorithms/SuffixAutomation.java:65-71 | the sum of `len(v) − len(link(v))` over the states `1..size−1` is the number of different non-empty substrings |
| SuffixAutomation.SuffixAutomation.DistinctSubstringsCount | Algorithms/SuffixAutomation.java:65-71 | the result is the number of different non-empty substrings of the text |
| CountsAgree.CountBothWays | Algorithms/SuffixAutomation.java:65-71 | this count and the one of `countDistinctSubstrings` match each other and the number of different non-empty substrings |
| SuffixAutomation.Fall | Algorithms/SuffixAutomation.java:81-86 | the link walk stops at −1 when no suffix of the scanned part of `t` occurs followed by `c`. Otherwise it stops at the state of the longest such suffix, and `l` becomes that length plus one |
| SuffixAutomation.Feed | Algorithms/SuffixAutomation.java:77-87 | after one character, `v` is the state and `l` the length of the longest suffix of the scanned part of `t` that occurs in the text |
| SuffixAutomatonQueries.LcsOf | Algorithms/SuffixAutomation.java:88-90 | the best match length over all prefixes of `t`, if reached by a common substring, is the longest common substring length |
| SuffixAutomatonQueries.LcsUnique | Algorithms/SuffixAutomation.java:74-91 | the longest common substring length is unique |
| SuffixAutomation.Lcs | Algorithms/SuffixAutomation.java:74-91 | the walk returns the length of a longest common substring of the text and `t` |
| SuffixAutomation.SuffixAutomation.LongestCommonSubstring | Algorithms/SuffixAutomation.java:74-91 | the result is the length of a longest common substring of the text and `t` |
| SuffixAutomation.CountExample | Algorithms/SuffixAutomation.java:95-100 | the automaton of "ababa" counts 9 different substrings |
| SuffixAutomation.ExampleLcs | Algorithms/SuffixAutomation.java:103-104 | 4 is the longest common substring length of "ababa" and "baba" |
| SuffixAutomation.LcsExample | Algorithms/SuffixAutomation.java:103-104 | the automaton of "ababa" answers 4 for "baba" |
| DoublyLinkedList.Node.constructor | DataStructures/DoublyLinkedList.java:26-28 | a new node holds `data` and has no neighbours |
| DoublyLinkedList.List.constructor | DataStructures/DoublyLinkedList.java:31 | a new list is empty and well formed |
| DoublyLinkedList.List.Insert | DataStructures/DoublyLinkedList.java:34-44 | the contents become the old contents followed by `d`. The chain stays finite and acyclic, with `prev` mirroring `next` |
| DoublyLinkedList.RemoveFirst | DataStructures/DoublyLinkedList.java:47-62 | removing the first occurrence shortens the list by one exactly when the key occurs |
| DoublyLinkedList.RemoveFirstAt | DataStructures/DoublyLinkedList.java:50-61 | with `i` the first index holding the key, exactly that element goes and the order of the others is kept |
| DoublyLinkedList.RemoveFirstAbsent | DataStructures/DoublyLinkedList.java:57-58 | an absent key leaves the contents unchanged |
| DoublyLinkedList.List.Unlink | DataStructures/DoublyLinkedList.java:60-61 | linking the neighbours of a non-head node to each other drops exactly that node and keeps the list well formed |
| DoublyLinkedList.List.Delete | DataStructures/DoublyLinkedList.java:47-62 | the contents lose their first occurrence of `key` (none if absent, covering the empty list), and the list stays well formed |
| DoublyLinkedList.List.Search | DataStructures/DoublyLinkedList.java:65-72 | true exactly when `key` is in the contents; nothing is modified |
| DoublyLinkedList.List.Forward | DataStructures/DoublyLinkedList.java:75-81 | following `next` from `head` visits the contents in order |
| DoublyLinkedList.Reverse | DataStructures/DoublyLinkedList.java:85-93 | element `i` of the reverse is element `n − 1 − i` of the original |
| DoublyLinkedList.List.Backward | DataStructures/DoublyLinkedList.java:85-93 | going to the last node and following `prev` visits the contents in reverse |
| DoublyLinkedList.Example | DataStructures/DoublyLinkedList.java:97-118 | after inserting 10, 20, 30 and deleting 20 the list shows `[10, 30]` forward and `[30, 10]` backward; 30 is found and 50 is not |
| MinMaxIterative.Comparisons | Algorithms/MinMaxIterative.java:13 | the comparison count is at most `3n/2`, and exactly `3(n−1)/2` for odd `n` |
| MinMaxIterative.ComparisonsCount | Algorithms/MinMaxIterative.java:39-72 | three comparisons per pair and two for a leftover element |
| MinMaxIterative.FindMinMax | Algorithms/MinMaxIterative.java:30-75 | a failure exactly for a null or empty array; otherwise `min` and `max` occur in the array and bound every element. The array is not written, and the comparisons number `Comparisons(n)` |
| MinMaxIterative.AgreesWithRecursive | Algorithms/MinMaxIterative.java:30-75 | on every non-empty array the pair-wise result equals the divide-and-conquer result for the whole array |
| MinMaxRecursive.MinMaxUnique | Algorithms/MinMaxRecursive.java:29-62 | any two pairs that satisfy the min-max specification are equal |
| MinMaxRecursive.FindMinMax | Algorithms/MinMaxRecursive.java:29-62 | the result is the least and the greatest of `arr[low..high]`, both ends included, both occurring there |
| MinMaxRecursive.FindMinMaxBaseCases | Algorithms/MinMaxRecursive.java:35-46 | one element gives `(arr[low], arr[low])`; two come back ordered, and on a tie as `(arr[high], arr[low])` |
| MinMaxRecursive.ExampleMixed | Algorithms/MinMaxRecursive.java:66-69 | `[5, −2, 8, 1, −10, 3]` gives `(−10, 8)` |
| MinMaxRecursive.ExampleShort | Algorithms/MinMaxRecursive.java:72-81 | `[42]` gives `(42, 42)` and `[100, −50]` gives `(−50, 100)` |
| MinMaxRecursive.ExampleNegative | Algorithms/MinMaxRecursive.java:90-93 | `[−5, −2, −8, −1]` gives `(−8, −1)` |
| JumpSearch.Isqrt | Algorithms/Jump_Search.java:18 | the block size is `floor(sqrt(n))`, at least 1 when `n >= 1` |
| JumpSearch.JumpSearch | Algorithms/Jump_Search.java:14-46 | −1 exactly when `x` does not occur; otherwise the first index holding `x` |
| BellmanFord.FirstRound | Algorithms/BellmanFord.java:19-21 | with `dist[source] = 0` no walk of no edges is lighter than the distance at its end |
| BellmanFord.Relaxable | Algorithms/BellmanFord.java:26 | the test both passes make (line 26, and again line 34): `u` is reached and the way through the edge is strictly shorter than `dist[v]`. `RelaxEdge` changes `dist[v]` only when it holds, and `FindRelaxable` returns whether it holds for some edge |
| BellmanFord.RelaxEdge | Algorithms/BellmanFord.java:26-27 | relaxing an edge never raises a distance, and leaves `dist[v]` at most `dist[u] + weight` when `u` is reached |
| BellmanFord.RelaxOne | Algorithms/BellmanFord.java:26-28 | the relaxation test and update in place give `RelaxEdge` of the old distances |
| BellmanFord.RelaxWitnessed | Algorithms/BellmanFord.java:26-27 | every finite distance stays the weight of a walk from the source, now at most one edge longer |
| BellmanFord.RelaxStep | Algorithms/BellmanFord.java:25-29 | after relaxing edge `j` of round `i`, no walk of fewer than `i` edges, or of `i` edges ending in one of the first `j + 1`, whose every prefix weighs less than `INF`, is lighter than the distance at its end |
| BellmanFord.NextRound | Algorithms/BellmanFord.java:24 | a finished round `i` bounds the distances by every walk of at most `i` edges whose every prefix weighs less than `INF` |
| BellmanFord.WitnessedFits | Algorithms/BellmanFord.java:26 | under `NoOverflow`, distances witnessed by walks of at most `(V−1)·|E|` edges keep `dist[u] + weight` within Java's `int` range |
| BellmanFord.WrappingExampleExcluded | Algorithms/BellmanFord.java:26 | the two-edge graph with weights −10^9 on which Java's sums wrap is outside `NoOverflow` |
| BellmanFord.RoundStep | Algorithms/BellmanFord.java:25-29 | one relaxation keeps walks witnessing every distance, the round's walk bound and, under `NoOverflow`, the sums in range |
| BellmanFord.Round | Algorithms/BellmanFord.java:25-29 | one round keeps the distances witnessed and bounds them by every walk of at most `i` edges whose every prefix weighs less than `INF` |
| BellmanFord.Relax | Algorithms/BellmanFord.java:18-30 | after `V − 1` rounds, every finite distance is a walk's weight and bounds every walk of fewer than `V` edges whose every prefix weighs less than `INF`. Under `NoOverflow` every sum stays in `int` range |
| BellmanFord.FindRelaxable | Algorithms/BellmanFord.java:33-38 | true exactly when some edge passes the relaxation test |
| BellmanFord.RelaxableMeansNegativeCycle | Algorithms/BellmanFord.java:33-37 | under `NoOverflow`, an edge still relaxable after `V − 1` rounds means a reachable negative cycle |
| BellmanFord.NegativeCycleIsRelaxable | Algorithms/BellmanFord.java:33-38 | under `NoOverflow`, when no edge is relaxable after `V − 1` rounds, no reachable cycle has negative weight |
| BellmanFord.ReachedFinite | Algorithms/BellmanFord.java:43 | under `NoOverflow`, every reachable vertex has a finite distance after `V − 1` rounds |
| BellmanFord.ExactDistances | Algorithms/BellmanFord.java:40-44 | under `NoOverflow` and without a reachable negative cycle, `INF` marks exactly the unreachable vertices and every other distance is the least weight of a walk |
| BellmanFord.Run | Algorithms/BellmanFord.java:17-45 | finite distances are walk weights. Under `NoOverflow`: a negative cycle is reported exactly when a reachable one exists, and the distances are otherwise exact |
| BellmanFord.SentinelHidesCycle | Algorithms/BellmanFord.java:24-38 | on edges 0→1 of weight `MAX_VALUE` and 1↔2 of weight −5, the distances `[0, INF, INF]` are a fixpoint of every relaxation and fail every second-pass test, yet vertex 1 is reachable, the cycle through it is negative, and `NoOverflow` does not hold |
| BellmanFord.ExampleInRange | Algorithms/BellmanFord.java:49-63 | the program's graph has its endpoints in `0..5` and satisfies `NoOverflow` |
| BellmanFord.ExampleCycle | Algorithms/BellmanFord.java:49-63 | the program's graph has a negative cycle (4 → 5 → 4, weight −1) reachable from 0 |
| BellmanFord.Example | Algorithms/BellmanFord.java:47-67 | on the program's graph the algorithm reports a negative cycle |
| GradeCalculator.GradeAsWritten | Beginner/GradeCalculator.java:26-39 | the chain as written gives no grade exactly for negative scores |
| GradeCalculator.AsWrittenGradesAbove100 | Beginner/GradeCalculator.java:26-29 | as written, every score above 100 is graded 'B' |
| GradeCalculator.AsWrittenNotMonotone | Beginner/GradeCalculator.java:26-29 | as written, 101 earns a worse letter than 100 |
| GradeCalculator.Grade | Beginner/GradeCalculator.java:21 | only scores in `0..100` are graded, exactly as the chain grades them; every other score is invalid |
| GradeCalculator.GradeBands | Beginner/GradeCalculator.java:26-38 | 'A' exactly for 90..100, 'B' for 80..89, 'C' for 70..79, 'D' for 60..69 and 'F' for 0..59; no grade exactly outside 0..100 |
| GradeCalculator.GradeMonotone | Beginner/GradeCalculator.java:26-36 | on `0..100` a higher score never earns a worse letter |

## Left out

- SuffixArrayLcp.SortByKey: a proved insertion sort stands in for `Arrays.sort` with its comparator. Both give a permutation sorted by the comparator. Ties may come out in another order than TimSort's, but tied positions get equal ranks, so every round ranks the same prefixes. The final suffix array is the same by `SuffixArrayTheory.SuffixArrayUnique`.
- SuffixArrayLcp.BuildSA: Java's `int` index arithmetic is not modelled. For texts of more than 2^30 characters, `a + K` and `k <<= 1` could wrap. The `long` sums of both counts are unbounded integers here.
- SuffixArrayLcp.BuildLCP: required to get a suffix array, which is what its caller passes. Java accepts any `Integer[]`.
- Characters: a Dafny `char` is a Unicode scalar value, a Java `char` a UTF-16 code unit. Both suffix structures agree with Java only on Basic Multilingual Plane text without surrogates. Outside it, one character here is two in Java, and the order of some characters differs.
- Suffix automaton representation:
  - The `ArrayList<State>` is a sequence of `State` values, and `HashMap` is a `map`.
  - An update through `st.get(p)` becomes a replacement of that element. State objects are never shared, so nothing is lost.
  - The "Number of states" print (Algorithms/SuffixAutomation.java:99) is not modelled. `SuffixAutomatonGrow.ExtendedIsGrown` states how many states each `extend` appends.
- BellmanFord.Run: distances are unbounded integers.
  - Under `NoOverflow` (`V·W < 2^31 − 1` and `((V−1)·|E| + 1)·W < 2^31 − 1`, with `W` the largest absolute weight), every sum Java computes is in range, so both agree.
  - Outside it, Java's wrap-around is not modelled, and only the soundness of finite distances is promised.
- BellmanFord.Run: the `INF` sentinel (`Integer.MAX_VALUE`) hides a vertex, and a negative cycle, that can only be reached through a walk with a prefix weighing `INF` or more. Java leaves such a vertex at `INF` and reports no cycle (Algorithms/BellmanFord.java:26, 34). For example, with edges 0→1 of weight `MAX_VALUE` and 1→2, 2→1 of weight −5, the cycle through 1 and 2 is never seen (`BellmanFord.SentinelHidesCycle`). `NoOverflow` excludes these graphs, and the walk bounds (`BoundedWalks`) cover only walks whose every prefix weighs less than `INF`.
- BellmanFord.Run: requires the source and every edge endpoint to be in `0..V−1`. Java throws `ArrayIndexOutOfBoundsException` otherwise (Algorithms/BellmanFord.java:21, 26).
- JumpSearch.JumpSearch: requires a non-empty array. For `n = 0` Java reads `arr[-1]` (Algorithms/Jump_Search.java:23) and throws.
- JumpSearch.JumpSearch: requires ascending order. The program's documentation asks for it.
- JumpSearch.JumpSearch: the 32-bit wrap-around of `step += sqrt(n)` (Algorithms/Jump_Search.java:25) is not modelled. It can happen only when `n − 1 + 2·floor(sqrt(n))` exceeds 2^31 − 1, that is for arrays of more than about 2^31 − 92 680 elements.
- JumpSearch.JumpSearch: `(int) Math.floor(Math.sqrt(n))` is the exact integer square root `Isqrt`, which equals it for every `int`.
- MinMaxRecursive.FindMinMax: requires `0 <= low <= high < arr.length`. Java throws `IllegalArgumentException` for a null or empty array (Algorithms/MinMaxRecursive.java:30-32), and an index exception for other bounds. The model has neither. The iterative model does keep its exception as a `Failure`.
- MinMaxIterative.FindMinMax: the comparison count is a ghost out-parameter, since the Java code does not count.
- GradeCalculator: reading the score with `Scanner` and the message for non-numeric input (Beginner/GradeCalculator.java:20-22, 42-44) are input handling and are not modelled. The model takes the score as a parameter.
- Printing: the `main` methods, `displayForward`, `displayBackward` and Bellman-Ford's step 4 are not modelled as output. What `displayForward` and `displayBackward` visit is returned by `Forward` and `Backward`; Bellman-Ford's distances are returned in `Report`. Replacing the demo strings from `args[0]` is not modelled either.

## Findings

| source | as written | input that shows it | evidently intended | confidence | as-written member | corrected member |
|---|---|---|---|---|---|---|
| Beginner/GradeCalculator.java:26-29 | only the 'A' branch checks `score <= 100`, so every larger score falls through to `score >= 80` | score 101 is graded 'B'; it also earns less than 100's 'A' | the prompt asks for a score between 0 and 100 (line 21), and the message calls anything else invalid (line 37). So scores above 100 should be rejected like negative ones | not executed | GradeCalculator.GradeAsWritten, GradeCalculator.AsWrittenGradesAbove100 | GradeCalculator.Grade, GradeCalculator.GradeBands, GradeCalculator.GradeMonotone |
