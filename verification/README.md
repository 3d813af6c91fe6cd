# aaps21 algorithms library in Dafny

This project models the integer algorithms of the aaps21 exercise library:
- union-find and Kruskal's spanning tree;
- Dijkstra, Bellman-Ford and Floyd-Warshall shortest paths;
- Edmonds-Karp maximum flow, minimum cut and minimum-cost maximum flow;
- Hierholzer's Euler path;
- a Fenwick tree;
- extended Euclid, modular inverse and the Chinese remainder theorem;
- canonical rational numbers;
- Knuth-Morris-Pratt matching and the sieve of Eratosthenes;
- 0/1 knapsack and longest increasing subsequence;
- modular matrix powers.

The source's classes and vectors are modelled as immutable datatypes and sequences. Loops that do real work are methods with invariants. Everything else is a pure function. Most operations are proved against an independent reference definition; where a proof covers less than the source promises, "## Left out" says so. The reference definitions include:
- reachability, or the lightest weight of a walk;
- divisibility and exact rational values;
- prefix sums;
- the exact matrix power;
- the set of all occurrences.

Modules, one per file:
- `Common`: `Option`, and a pigeonhole lemma.
- `CArith`: C++'s truncating `/` and `%`, and the repository's `Mod`.
- `Graphs`: walks, weights, connectivity and negative cycles.
- `DisjointSets`, `Kruskal`, `Dijkstra`, `BellmanFord`, `FloydWarshall`.
- `FlowNetwork`: paired edges, pushing flow, and residual reachability.
- `FlowCost`, `EdmondsKarp`, `MinCut`, `MinCostFlow`.
- `EulerPath`, `Fenwick`, `NumberTheory`, `Rational`, `StringMatching`, `Sieve`, `Knapsack`, `Lis`, `MatrixPower`.

Integers are unbounded throughout. The sentinels `kInfinity` and `-kInfinity` keep the source's values. Where a result is only right while sums stay clear of those sentinels, the contract says so with the `Moderate` hypothesis.

## Model

| member | source | states |
|---|---|---|
| `CArith.Mod` | Lab4/task4.10/linearrecurrence.cc:34-40 | For m > 0 the result lies in [0, m) and is congruent to `a`. For m <= 0 the result is 0. |
| `DisjointSets.New` | Lab1/task1.4/disjoint_sets.cc:22-26 | A fresh structure is valid and has n elements, each its own root. |
| `DisjointSets.NewSame` | Lab1/task1.4/disjoint_sets.cc:22-26 | In a fresh structure two elements are in the same set iff they are equal. |
| `DisjointSets.Find` | Lab1/task1.4/disjoint_sets.cc:69-75 | Following parents terminates at an element that is its own parent; a root finds itself. |
| `DisjointSets.SameIsFind` | Lab1/task1.4/disjoint_sets.cc:60-66 | `Same` holds iff both elements find the same root; the `a == b` shortcut agrees. |
| `DisjointSets.SameEquivalence` | Lab1/task1.4/disjoint_sets.cc:60-66 | `Same` is reflexive, symmetric and transitive. |
| `DisjointSets.Union` | Lab1/task1.4/disjoint_sets.cc:34-52 | Union keeps the structure valid. Already-joined elements leave it unchanged. Otherwise the smaller root (`b`'s on a tie) hangs under the other, whose size becomes the sum. |
| `DisjointSets.FindAfterLink` | Lab1/task1.4/disjoint_sets.cc:45-51 | After linking root `small` under `large`, elements that found `small` find `large`; all others find what they found before. |
| `DisjointSets.UnionSame` | Lab1/task1.4/disjoint_sets.cc:34-52 | After `Union(a, b)`, x and y are together iff they were before, or one was with `a` and the other with `b`. So the union joins a and b and separates nothing. |
| `DisjointSets.FindsAreRoots` | Lab2/task2.5/minspantree.cc:84-91 | The roots reached by `Find` are exactly the elements that are their own parent. |
| `DisjointSets.CountIsRoots` | Lab2/task2.5/minspantree.cc:84-91 | `Count` is the number of roots, between 1 and n when n >= 1. |
| `DisjointSets.CountNew` | Lab2/task2.5/minspantree.cc:84-91 | A fresh structure of n elements has n sets. |
| `DisjointSets.CountUnion` | Lab1/task1.4/disjoint_sets.cc:41-51 | Joining two different sets lowers the count by one; joining one set with itself leaves it unchanged. |
| `DisjointSets.CountOne` | Lab2/task2.5/minspantree.cc:166 | The count is 1 iff there are elements and all of them are in one set. |
| `Kruskal.SortByWeight` | Lab2/task2.5/minspantree.cc:152 | The edges come out as a permutation of the input, in nondecreasing weight order. |
| `Kruskal.TakeKeeps` | Lab2/task2.5/minspantree.cc:159-163 | Taking an edge whose ends are in different sets keeps the loop invariant: the union-find matches connectivity of the chosen edges, the chosen edges stay acyclic, the cost is their weight, and chosen edges plus sets equal n. |
| `Kruskal.SkipKeeps` | Lab2/task2.5/minspantree.cc:158-159 | Skipping an edge whose ends are already joined keeps the same invariant. |
| `Kruskal.Select` | Lab2/task2.5/minspantree.cc:154-164 | The selection loop ends with the invariant over all edges. |
| `Kruskal.Mst` | Lab2/task2.5/minspantree.cc:144-171 | The chosen edges come from the graph, are sorted by weight and form a forest. They connect exactly what the graph connects, and there are at most n - 1 of them. On a connected graph there are n - 1 and the cost is their weight; otherwise the cost is `-kInfinity`. |
| `Dijkstra.Initial` | Lab2/task2.1/shortestpath1.cc:46-60 | Only the start is reached, at distance 0 with itself as parent. Every other vertex has `kInfinity` and `kInvalidNode`. |
| `Dijkstra.FindMin` | Lab2/task2.1/shortestpath1.cc:63-64 | Returns the position of a smallest heap entry. |
| `Dijkstra.PopStale` | Lab2/task2.1/shortestpath1.cc:69-71 | Dropping an entry whose distance exceeds the vertex's current distance keeps the invariant. |
| `Dijkstra.PopOptimal` | Lab2/task2.1/shortestpath1.cc:63-73 | A smallest entry that is not stale carries the least weight of any walk to its vertex. |
| `Dijkstra.Relax` | Lab2/task2.1/shortestpath1.cc:76-80 | Relaxing an edge only lowers distances; afterwards an unfound target is no farther than through the edge. Only the target's distance and parent can change, and a change sets the parent to the found vertex and queues the new entry. |
| `Dijkstra.RelaxInv` | Lab2/task2.1/shortestpath1.cc:75-82 | Relaxing the next edge of a found vertex keeps the invariant: witnessed distances, valid parents and queued improvements. |
| `Dijkstra.RelaxEdges` | Lab2/task2.1/shortestpath1.cc:75-82 | Scanning all edges of the found vertex keeps the invariant and never raises a distance. |
| `Dijkstra.FinalOptimal` | Lab2/task2.1/shortestpath1.cc:62-83 | Once the heap is empty, no walk to any vertex is lighter than its distance. |
| `Dijkstra.ShortestPath` | Lab2/task2.1/shortestpath1.cc:45-86 | With non-negative weights: the start has distance 0 and is its own parent, and every distance is the least weight of a walk. Unreached vertices keep `kInfinity` and `kInvalidNode`. A reached vertex's distance is its parent's plus an edge weight. |
| `BellmanFord.RelaxRound` | Lab2/task2.3/shortestpath3.cc:58-72 | One round keeps every finite distance witnessed by a walk and only lowers distances. It relaxes every edge against the round's starting distances; no update means nothing changed. |
| `BellmanFord.RoundBound` | Lab2/task2.3/shortestpath3.cc:60-72 | After round i, no walk of at most i + 1 edges is lighter than the distance of its end. |
| `BellmanFord.Relaxation` | Lab2/task2.3/shortestpath3.cc:51-77 | The main loop runs between 1 and n rounds and stops early only when a round changes nothing. Afterwards no walk of fewer than n edges beats a distance. |
| `BellmanFord.ReachedFinite` | Lab2/task2.3/shortestpath3.cc:57-77 | Every vertex reachable from the start ends the relaxation phase with a finite distance. |
| `BellmanFord.NoCycleRelaxed` | Lab2/task2.3/shortestpath3.cc:88-89 | An edge still relaxable after the main loop leads to a vertex behind a negative cycle. |
| `BellmanFord.MarkRound` | Lab2/task2.3/shortestpath3.cc:83-94 | One marking round sets to `-kInfinity` the target of every relaxable edge and of every edge out of a flagged vertex, and marks only such vertices. |
| `BellmanFord.MarkNegative` | Lab2/task2.3/shortestpath3.cc:81-95 | After n rounds, marks have spread n - 1 edges past every relaxable edge. |
| `BellmanFord.CycleMarked` | Lab2/task2.3/shortestpath3.cc:81-95 | Every vertex a reachable negative cycle leads to ends up marked. |
| `BellmanFord.ShortestPath` | Lab2/task2.3/shortestpath3.cc:48-98 | Unreachable vertices keep `kInfinity` and `kInvalidNode`. A finite distance is the weight of a walk, and parents are edges. With moderate weights, `-kInfinity` marks exactly the vertices behind a negative cycle and every other finite distance is the least walk weight. |
| `FloydWarshall.Adj` | Lab2/task2.4/allpairspath.cc:26 | The matrix read as a graph: one edge per finite entry, of that weight. |
| `FloydWarshall.RelaxEntry` | Lab2/task2.4/allpairspath.cc:31-33 | Tightening entry (i, j) through k never raises it, and when both legs are below `kInfinity` it ends at most their sum. The new value is the old one or that sum of finite legs, so a leg equal to `kInfinity` is skipped. Every other entry is unchanged. |
| `FloydWarshall.EntrySound` | Lab2/task2.4/allpairspath.cc:31-33 | A tightening step never raises an entry, and a finite entry remains the weight of a walk. |
| `FloydWarshall.RoundBound` | Lab2/task2.4/allpairspath.cc:28-36 | The round through k bounds every simple walk whose inner vertices are at most k. |
| `FloydWarshall.TightenSound` | Lab2/task2.4/allpairspath.cc:28-36 | After the first phase, a finite entry is the weight of a walk. With moderate weights, every simple walk weighs at least its ends' entry. |
| `FloydWarshall.MarkNegative` | Lab2/task2.4/allpairspath.cc:41-55 | The corrected second phase: an entry becomes `-kInfinity` when some vertex k with a negative diagonal has finite entries from i and to j, and a `-kInfinity` result has such a k unless the entry already was `-kInfinity`; every other entry is unchanged. Read on walks, `FloydWarshall.AllPairsCorrect` turns this into "a negative cycle lies between i and j". |
| `FloydWarshall.AllPairs` | Lab2/task2.4/allpairspath.cc:23-58 | The result is an n x n matrix. |
| `FloydWarshall.AllPairsCorrect` | Lab2/task2.4/allpairspath.cc:23-58 | `kInfinity` marks exactly the unlinked pairs and `-kInfinity` exactly the pairs joined through a negative cycle; any other entry is the least walk weight (needs moderate weights). |
| `FloydWarshall.MarkEntryAsWritten` | Lab2/task2.4/allpairspath.cc:44-52 | The program's marking step changes at most the one entry, and only to `-kInfinity`. |
| `FloydWarshall.AllPairsAsWritten` | Lab2/task2.4/allpairspath.cc:23-58 | The program's own result is an n x n matrix. |
| `FloydWarshall.AsWrittenMarksUnreached` | Lab2/task2.4/allpairspath.cc:48-51 | On a two-vertex graph, the program marks entry (1, 1) with `-kInfinity` though no negative cycle is reachable from vertex 1; the corrected marking gives 0. |
| `FloydWarshall.AsWrittenMissesCycle` | Lab2/task2.4/allpairspath.cc:41-55 | The program's marking also misses entries: for arcs 0->1 and 1->0 of weight 1 and a loop of weight -1 at 1, a negative cycle lies between 0 and itself and the corrected marking gives `-kInfinity` for entry (0, 0), but the program leaves it at 0. |
| `EulerPath.DegreeSums` | Lab2/task2.9/eulerianpath.cc:44-55 | The out-degrees and the in-degrees each sum to the number of edges, so the degree differences sum to 0. |
| `EulerPath.Start` | Lab2/task2.9/eulerianpath.cc:43-61 | The start is a vertex of the graph. |
| `EulerPath.FirstPass` | Lab2/task2.9/eulerianpath.cc:44-49 | The first pass picks the last vertex with outgoing edges, if any. |
| `EulerPath.SecondPass` | Lab2/task2.9/eulerianpath.cc:58-61 | The second pass overrides the start with the last vertex whose out-degree exceeds its in-degree by one, if any. |
| `EulerPath.TakeArc` | Lab2/task2.9/eulerianpath.cc:73-76 | Taking the first head of a vertex's list removes exactly that arc from the graph's multiset of arcs. |
| `EulerPath.TraverseSound` | Lab2/task2.9/eulerianpath.cc:68-81 | The stack walk accounts for every arc: the arcs left plus the steps of the reversed popped vertices make up the original multiset. |
| `EulerPath.Hierholzer` | Lab2/task2.9/eulerianpath.cc:68-81 | The popped vertices lie in the graph and end with the start. Their number is one plus the number of arcs taken. |
| `EulerPath.EulerianPath` | Lab2/task2.9/eulerianpath.cc:83-96 | The program with the corrected degree test (`DegreesAllow`: with two unbalanced vertices the start must have one more outgoing than incoming arc). When found, the path has edges_num + 1 vertices and starts at the chosen start; otherwise the popped vertices come back unchanged. |
| `EulerPath.EulerianPathSound` | Lab2/task2.9/eulerianpath.cc:90-93 | A path reported as found uses every arc of the graph exactly once, in forward order. |
| `EulerPath.EulerianPathComplete` | Lab2/task2.9/eulerianpath.cc:37-96 | A graph that has an Euler path makes both the corrected and the as-written program report one. |
| `EulerPath.EulerianPathCorrect` | Lab2/task2.9/eulerianpath.cc:37-96 | The corrected program finds a path iff the graph has an Euler path, and the path it reports is one. |
| `EulerPath.EulerianPathAsWritten` | Lab2/task2.9/eulerianpath.cc:90-91 | The program as written answers exactly like the corrected one wherever that finds a path. Its found paths have edges_num + 1 vertices and begin at the chosen start, and on failure the popped vertices come back; `EulerPath.AsWrittenAcceptsNonPath` shows a found path that walks no Euler path. |
| `EulerPath.AsWrittenAcceptsNonPath` | Lab2/task2.9/eulerianpath.cc:90-91 | For the graph of two arcs 0->1, the as-written test reports the path 0, 1, 1, which is no Euler path. The corrected test reports none, and none exists. |
| `Fenwick.Create` | Lab1/task1.5/predix_sums.cc:20 | A new tree represents n zeros. |
| `Fenwick.CreateSumsZero` | Lab1/task1.5/predix_sums.cc:20 | Every prefix sum of a new tree is 0. |
| `Fenwick.SumIsPrefix` | Lab1/task1.5/predix_sums.cc:43-51 | `Sum(index)` is the total of the first index values. So `Sum(0)` is 0. |
| `Fenwick.Add` | Lab1/task1.5/predix_sums.cc:28-35 | The corrected `Add` raises by delta exactly the entries whose range covers the index, and writes only inside `arr_`. |
| `Fenwick.AddKeeps` | Lab1/task1.5/predix_sums.cc:28-35 | After `Add(k, d)` the tree represents the array with d added at k. `Sum(j)` grows by d for j > k and stays put for j <= k. |
| `Fenwick.AddAsWritten` | Lab1/task1.5/predix_sums.cc:31-34 | The loop as written, with `None` for a write at index `n_`, outside `arr_`. |
| `Fenwick.AsWrittenOverruns` | Lab1/task1.5/predix_sums.cc:31-34 | On the tree of one value, adding at index 0 writes at index 2 of a two-entry array; the corrected loop stops after entry 1. |
| `NumberTheory.Add` | Lab3/task3.7/generalchineseremainder.cc:42-44 | The modular sum lies in [0, m) and is congruent to a + b. |
| `NumberTheory.Subtract` | Lab3/task3.7/generalchineseremainder.cc:55-57 | The modular difference lies in [0, m) and is congruent to a - b. |
| `NumberTheory.Multiply` | Lab3/task3.7/generalchineseremainder.cc:68-70 | The modular product lies in [0, m) and is congruent to a * b. |
| `NumberTheory.ExtendedGcd` | Lab3/task3.7/generalchineseremainder.cc:140-153 | Returns d with a*x + b*y == d, and d divides both a and b. |
| `NumberTheory.GcdIsGreatest` | Lab3/task3.7/generalchineseremainder.cc:140-153 | Every common divisor of a and b divides d, so d is a greatest common divisor. |
| `NumberTheory.ModularInverse` | Lab3/task3.7/generalchineseremainder.cc:116-126 | On success the result is in [0, m) and a times it is 1 mod m. Failure with a >= 0 and m > 0 means no inverse exists. |
| `NumberTheory.NoInverseWhenGcdNotOne` | Lab3/task3.7/generalchineseremainder.cc:118-125 | When the gcd is not 1, a has no inverse modulo m. |
| `NumberTheory.Divide` | Lab3/task3.7/generalchineseremainder.cc:82-89 | A result other than -1 is a quotient mod m: a residue r with b * r congruent to a. For m > 0, -1 comes back whenever b has no inverse, and for b >= 0 only then. |
| `NumberTheory.ChineseRemainder` | Lab3/task3.7/generalchineseremainder.cc:165-179 | For coprime n and m, the result lies in [0, n*m) and solves both congruences. |
| `NumberTheory.GeneralChineseRemainder` | Lab3/task3.7/generalchineseremainder.cc:194-215 | Failure means the system has no solution. On success, K is the least common multiple of n and m, 0 <= x < K, x solves both congruences, and every solution is x mod K. |
| `NumberTheory.UnsolvableSystem` | Lab3/task3.7/generalchineseremainder.cc:203-206 | If the gcd does not divide b - a, no x solves both congruences. |
| `NumberTheory.NegativeDivisorRejected` | Lab3/task3.7/generalchineseremainder.cc:82-89 | For a negative divisor -1 can come back although an inverse exists: Divide(1, -1, 3) is -1, while 2 is an inverse of -1 modulo 3. |
| `NumberTheory.LcmDividesCommonMultiple` | Lab3/task3.7/generalchineseremainder.cc:211 | K = n*m/d divides every common multiple of n and m. |
| `Rational.Zero` | Lab3/task3.4/rationalarithmetic.cc:35 | The default number 0/1 is canonical and has value 0. |
| `Rational.Gcd` | Lab3/task3.4/rationalarithmetic.cc:114-120 | Euclid's recursion returns a common divisor that every common divisor divides; it is 0 only for two zeros. |
| `Rational.Convert` | Lab3/task3.4/rationalarithmetic.cc:122-147 | The result has a positive denominator and a numerator coprime to it. A zero numerator or denominator gives 0/1; otherwise the value num/den, sign included, is kept. |
| `Rational.Add` | Lab3/task3.4/rationalarithmetic.cc:48-53 | The result is canonical and its value is the sum. |
| `Rational.Subtract` | Lab3/task3.4/rationalarithmetic.cc:55-60 | The result is canonical and its value is the difference. |
| `Rational.Multiply` | Lab3/task3.4/rationalarithmetic.cc:62-66 | The result is canonical and its value is the product. |
| `Rational.Divide` | Lab3/task3.4/rationalarithmetic.cc:68-72 | The result is canonical: the quotient for a nonzero divisor, and 0/1 when dividing by zero. |
| `Rational.Less` | Lab3/task3.4/rationalarithmetic.cc:74-77 | True iff the first value is smaller. |
| `Rational.Greater` | Lab3/task3.4/rationalarithmetic.cc:79-82 | True iff the first value is larger. |
| `Rational.LessOrEqual` | Lab3/task3.4/rationalarithmetic.cc:84-87 | True iff the first value is at most the second. |
| `Rational.GreaterOrEqual` | Lab3/task3.4/rationalarithmetic.cc:89-92 | True iff the first value is at least the second. |
| `Rational.Equal` | Lab3/task3.4/rationalarithmetic.cc:94-97 | On canonical numbers, structural equality holds iff the values are equal. |
| `Rational.NotEqual` | Lab3/task3.4/rationalarithmetic.cc:99 | On canonical numbers, true iff the values differ. |
| `Rational.CanonicalUnique` | Lab3/task3.4/rationalarithmetic.cc:94-97 | Two canonical numbers of equal value are the same pair. |
| `StringMatching.PrefixFunction` | Lab3/task3.1/stringmatching.cc:30-44 | pi[i] is the length of the longest proper prefix of pattern[0..i] that is also its suffix. |
| `StringMatching.BorderOfBorder` | Lab3/task3.1/stringmatching.cc:33-35 | The borders shorter than a border are exactly that border's own borders, which justifies the `pi[j - 1]` fall-back. |
| `StringMatching.Find` | Lab3/task3.1/stringmatching.cc:55-88 | For a non-empty pattern the result lists exactly the positions where the pattern occurs, in strictly increasing order; so it is empty when the pattern is longer than the text. An empty pattern gets the empty result. |
| `StringMatching.CompleteMatch` | Lab3/task3.1/stringmatching.cc:74-77 | A completed match reports its start and resumes from the longest border. |
| `StringMatching.FallBack` | Lab3/task3.1/stringmatching.cc:78-83 | On a mismatch, falling back to `pi[k - 1]` skips no occurrence. |
| `Sieve.TrialDivision` | Lab3/task3.8/primesieve.cc:41-48 | Once b*b > v, having no factor below b with square at most v is the same as v being prime. |
| `Sieve.PrimeStep` | Lab3/task3.8/primesieve.cc:42-46 | Crossing out the multiples of i from i*i on removes exactly the numbers with a factor i whose square they reach. |
| `Sieve.NewPrimeSieve` | Lab3/task3.8/primesieve.cc:35-55 | The table says "prime" exactly for the primes in 0..n, and the count is the number of primes up to n. |
| `Sieve.IsPrime` | Lab3/task3.8/primesieve.cc:63-69 | True iff 0 <= value <= n and value is prime; so false for negatives, for values past n, and for 0 and 1. |
| `Sieve.PrimeCountIsCardinality` | Lab3/task3.8/primesieve.cc:70-75 | The count equals the size of the set of primes up to n. |
| `Knapsack.TableOptimal` | Lab1/task1.2/knapsack.cc:24-34 | With weights at least 1, no choice of distinct items among the first i that fits in c is worth more than dp[i][c]. |
| `Knapsack.Knapsack` | Lab1/task1.2/knapsack.cc:18-49 | The indices are distinct, in [0, n) and decreasing. Their weight is at most the capacity and their value is dp[n][capacity]. With weights at least 1, no fitting choice is worth more. |
| `Lis.FindPile` | Lab1/task1.3/longincsubseq.cc:26-35 | The binary search returns the leftmost pile whose top value is not below x. |
| `Lis.PlaceKeepsTops` | Lab1/task1.3/longincsubseq.cc:37-46 | Placing an element keeps the pile tops strictly increasing in value. |
| `Lis.PlaceKeepsPredecessors` | Lab1/task1.3/longincsubseq.cc:38-42 | Each predecessor is the top of the previous pile, an earlier and smaller element. |
| `Lis.Reconstruct` | Lab1/task1.3/longincsubseq.cc:49-55 | Following predecessors from the last pile's top gives an increasing subsequence with one index per pile. |
| `Lis.Lis` | Lab1/task1.3/longincsubseq.cc:17-58 | For a non-empty sequence, the indices and their values are strictly increasing, and no increasing subsequence is longer. |
| `MatrixPower.VectorProduct` | Lab4/task4.10/linearrecurrence.cc:52-60 | The result is the dot product reduced into [0, m), or 0 when m <= 0. |
| `MatrixPower.MatrixVectorProduct` | Lab4/task4.10/linearrecurrence.cc:72-81 | One entry per row of a, each the reduced dot product of that row with b. |
| `MatrixPower.MatrixProduct` | Lab4/task4.10/linearrecurrence.cc:92-107 | A rows(a) x cols(b) matrix whose entries are the reduced sums of products. |
| `MatrixPower.Identity` | Lab4/task4.10/linearrecurrence.cc:123-135 | The n x n identity. |
| `MatrixPower.ReducedProduct` | Lab4/task4.10/linearrecurrence.cc:92-107 | Multiplying already-reduced factors gives the reduced exact product. |
| `MatrixPower.PowerAdd` | Lab4/task4.10/linearrecurrence.cc:147-151 | a^(s+t) == a^s * a^t for the exact power, which justifies repeated squaring. |
| `MatrixPower.PowIsPower` | Lab4/task4.10/linearrecurrence.cc:118-154 | `Pow(a, 0)` is the identity, `Pow(a, e)` for e >= 1 is a^e reduced mod m, and a negative exponent gives the identity reduced mod m. |
| `FlowNetwork.AddEdge` | Lab2/task2.6/maxflow.cc:130-131 | Adding an edge appends to u's list the forward edge `u -> v` (capacity c, no flow, mate index the position its reverse edge takes in v's list, one further on for a self-loop) and to v's list the reverse edge `v -> u` (capacity 0, no flow, mate index the forward edge's position), and changes nothing else. |
| `FlowNetwork.AddEdgeUnused` | Lab2/task2.6/maxflow.cc:130-131 | The corrected construction pairs each edge with a capacity-0 reverse edge whose `rev` points back, all flows 0. |
| `FlowNetwork.AddEdgeAsWritten` | Lab2/task2.6/maxflow.cc:130-131 | The construction as written appends the forward edge `u -> v` (capacity c, no flow, mate index the old size of v's list) and then the reverse edge `v -> u` (capacity 0, mate index the forward edge's position); all earlier entries and all other lists are unchanged. |
| `FlowNetwork.AsWrittenSelfLoop` | Lab2/task2.6/maxflow.cc:130-131 | For a self-loop the as-written forward edge names itself as its mate, so the graph is not paired; the corrected construction pairs it. |
| `FlowNetwork.Push` | Lab2/task2.6/maxflow.cc:106-107 | Pushing f along an edge adds f to it and subtracts f from its mate. Nothing else changes: edges, capacities and mates stay. |
| `FlowNetwork.PushNetOut` | Lab2/task2.6/maxflow.cc:106-107 | A push raises the net outflow of the edge's tail by f and lowers its head's by f. |
| `FlowNetwork.NetOutBound` | Lab2/task2.6/maxflow.cc:100-106 | Under the capacity bounds, a vertex's net outflow is at most the capacity of its edges. |
| `FlowNetwork.Bottleneck` | Lab2/task2.6/maxflow.cc:98-101 | `path_flow` is at most `kInfinity` and at most every spare capacity on the path, and equals one of them or `kInfinity`. |
| `FlowNetwork.Augment` | Lab2/task2.6/maxflow.cc:105-108 | Augmenting along a path keeps the network and the pairing. |
| `FlowNetwork.AugmentNetOut` | Lab2/task2.6/maxflow.cc:103-108 | Augmenting by f along a path from a to b raises a's net outflow by f and lowers b's by f; all other vertices are unchanged. |
| `FlowNetwork.AugmentFeasible` | Lab2/task2.6/maxflow.cc:100-107 | Augmenting by at most the bottleneck keeps the capacity bounds and skew symmetry. |
| `FlowNetwork.ClosedReach` | Lab2/task2.7/mincut.cc:134-139 | A vertex set closed under residual edges and holding s holds everything reachable from s. |
| `EdmondsKarp.Bfs` | Lab2/task2.6/maxflow.cc:52-76 | Parents form a tree of residual edges rooted at s. True means t != s and t has a parent; false means t is unreachable by residual edges. |
| `EdmondsKarp.Trace` | Lab2/task2.6/maxflow.cc:99 | Walking the parents back from v gives a residual path from s to v that visits no tail twice. |
| `EdmondsKarp.BottleneckPositive` | Lab2/task2.6/maxflow.cc:98-101 | On a residual path, `path_flow` is at least 1. |
| `EdmondsKarp.AugmentStep` | Lab2/task2.6/maxflow.cc:97-108 | One augmentation keeps the flow valid, conserved away from s and t, and raises its value, the net outflow of s, by `path_flow`. |
| `EdmondsKarp.MaxFlow` | Lab2/task2.6/maxflow.cc:90-112 | The flow graph is the input with new flows, within capacities and skew-symmetric. `max_flow` is the net outflow gained at s and lost at t, other vertices are conserved, and at the end t is unreachable by residual edges. |
| `MinCut.Visit` | Lab2/task2.7/mincut.cc:123-141 | A vertex is visited iff it is reachable from s by residual edges. |
| `MinCut.MinCut` | Lab2/task2.7/mincut.cc:157-172 | The vertices are strictly increasing and are exactly those reachable from s in the maximum flow's residual graph. They hold s and, when s != t, not t. Every edge leaving them is saturated. |
| `FlowCost.AddCostEdgeKeeps` | Lab2/task2.8/mincostmaxflow.cc:167-168 | The reverse edge gets capacity 0 and the negated cost, and every edge's mate keeps the negated cost. |
| `FlowCost.CostsSame` | Lab2/task2.8/mincostmaxflow.cc:141-144 | Changing flows keeps the cost pairing. |
| `FlowCost.PushCost` | Lab2/task2.8/mincostmaxflow.cc:142-145 | Pushing f along an edge of cost c raises the summed cost times flow, over all edges, by 2*f*c. |
| `FlowCost.AugmentCost` | Lab2/task2.8/mincostmaxflow.cc:141-145 | Augmenting by f raises that sum by 2*f times the path's cost. |
| `MinCostFlow.Top` | Lab2/task2.8/mincostmaxflow.cc:79-80 | The top entry has no entry before it in the heap's order. |
| `MinCostFlow.PopTop` | Lab2/task2.8/mincostmaxflow.cc:79-87 | Popping the top, stale or not, keeps every improved vertex queued. |
| `MinCostFlow.Relax` | Lab2/task2.8/mincostmaxflow.cc:89-96 | Relaxing a residual edge sets the target's distance and parent and pushes it. Labels stay walk costs, and no distance rises. |
| `MinCostFlow.ShortestPath` | Lab2/task2.8/mincostmaxflow.cc:62-108 | Distances are reduced costs of parent chains, and only vertices reachable from s by residual edges get a finite one. Given a potential phi that certifies the graph, every finite distance is at least phi. Here phi certifies the graph (`MinCostFlow.Certified`) when it is 0 at s, never negative, and every residual edge's reduced cost plus phi at its tail minus phi at its head is non-negative. A finished search leaves no residual edge improvable. It returns true iff it finished and t's distance is finite; then each potential becomes the minimum of potential + distance and `kInfinity`; otherwise the potentials are unchanged. |
| `MinCostFlow.ChainEnough` | Lab2/task2.8/mincostmaxflow.cc:135 | A parent chain back from a vertex that reaches s with any step budget reaches it within n steps and gives the same path, so bounding the walk back from t by n steps loses no chain that ends. |
| `MinCostFlow.Telescope` | Lab2/task2.8/mincostmaxflow.cc:91-92 | A path's reduced cost is its cost plus the potential of its start minus that of its end. |
| `MinCostFlow.ChainCost` | Lab2/task2.8/mincostmaxflow.cc:99-107 | After a finished search, the parent chain to v is a residual path from s whose reduced cost is v's distance minus s's. Every edge on it is tight: both ends are finite, and the tail's distance plus the edge's reduced cost equals the head's. |
| `MinCostFlow.Cheapest` | Lab2/task2.8/mincostmaxflow.cc:78-97 | After a finished search, no residual path from s is cheaper than its end's distance, as long as its prefixes stay below `kInfinity`. |
| `MinCostFlow.AugmentingPath` | Lab2/task2.8/mincostmaxflow.cc:133-137 | A found path is a residual s-t path of least cost among paths whose reduced prefixes stay below `kInfinity`. When none is found, potentials are unchanged and every residual s-t path has such a prefix at `kInfinity`. Starting from all-`kInfinity` potentials: a certificate keeps them all `kInfinity`; with moderate costs, "no path" means t is unreachable; and a found path yields a certificate for the graph after pushing `path_flow` along it. |
| `MinCostFlow.MaxFlowMinCost` | Lab2/task2.8/mincostmaxflow.cc:124-150 | The flow is valid with value `max_flow`. `min_cost` is the sum of cost times flow over the forward edges; in the model, twice it is the change of that sum over all edges. At the end no residual s-t path stays below `kInfinity`. If some potential certifies the input and the costs are moderate, the potentials stay `kInfinity` and at the end t is unreachable from s by residual edges. |
| `MinCostFlow.RelaxAbove` | Lab2/task2.8/mincostmaxflow.cc:90-92 | Under a certificate, lowering a distance through a residual edge keeps every finite distance at least phi. |
| `MinCostFlow.PotentialsKept` | Lab2/task2.8/mincostmaxflow.cc:99-102 | When phi certifies the graph and the distances are at least phi, updating all-`kInfinity` potentials to min(potential + distance, `kInfinity`) leaves them all `kInfinity`. |
| `MinCostFlow.WalkBound` | Lab2/task2.8/mincostmaxflow.cc:89-97 | Under all-`kInfinity` potentials, after a finished search the end of a residual walk from s is at most (walk length) times the largest absolute cost away. |
| `MinCostFlow.ReachFinite` | Lab2/task2.8/mincostmaxflow.cc:89-99 | With moderate costs, every vertex reachable from s ends the search at distance at most (n - 1) times the largest cost, and one more edge still stays below `kInfinity`. |
| `MinCostFlow.NoPathUnreachable` | Lab2/task2.8/mincostmaxflow.cc:99-107 | With moderate costs and all-`kInfinity` potentials, a finished search that leaves t at `kInfinity` means t is unreachable from s by residual edges. |
| `MinCostFlow.NextCertified` | Lab2/task2.8/mincostmaxflow.cc:141-146 | Pushing any non-negative amount along a tight residual path gives a graph that the next potential certifies: the distance at finite vertices, and elsewhere phi raised above every finite distance. |
| `MinCostFlow.FoundPath` | Lab2/task2.8/mincostmaxflow.cc:133-146 | The parent chain to a finite t is a cheapest residual s-t path without repeated tails. Under a certificate with moderate costs, the graph after pushing `path_flow` along it is certified again. |
| `MinCostFlow.UnusedCertified` | Lab2/task2.8/mincostmaxflow.cc:165-169 | A graph with no flow whose edges of positive capacity have non-negative costs is certified by the zero potential. |
| `EdmondsKarp.AugmentRaises` | Lab2/task2.8/mincostmaxflow.cc:141-143 | Pushing a non-negative amount along a path lowers the flow of no edge except the mates of the path's edges. |

## Left out

- The `main` functions: reading input and printing results.
- Integer width: 32-bit `int` and 64-bit `long long` overflow is not modelled; all integers are unbounded.
- `DisjointSets.Find`: the source finds roots without path compression, and so does the model. Running time is not modelled.
- `Kruskal.Mst`: minimality of the spanning tree's weight is not proved. The contract states the forest, sorting, connectivity and cost facts only.
- `Dijkstra.ShortestPath`: the binary heap is modelled as a sequence searched for a smallest entry. Running time is not modelled.
- `BellmanFord.ShortestPath`: the classification into `kInfinity`, `-kInfinity` and least weights is proved only for `Moderate` weights, where no walk of at most n edges weighs as much as a sentinel. `parent[start] == start` is stated only when no negative cycle reaches the start, because the source overwrites it otherwise.
- `FloydWarshall.AllPairsCorrect`: the least-weight and negative-cycle statements need `Moderate` weights, for the same reason as Bellman-Ford.
- `Knapsack.Knapsack`: optimality needs weights of at least 1. The table's column c = 0 is never filled (the loop starts at c = 1), so a zero-weight item is not added on top of a choice that fills the knapsack: with capacity 1 and items (value 5, weight 0) and (value 1, weight 1) the source returns value 5, though both items fit for 6.
- `NumberTheory.ModularInverse`: the "no inverse" direction is stated for a >= 0, since C++'s `%` on a negative `a` makes the returned gcd negative.
- `NumberTheory.Divide`: the "-1 only when there is no inverse" direction is stated for b >= 0. For a negative b the gcd comes out negative and -1 is returned although an inverse may exist (`NumberTheory.NegativeDivisorRejected`).
- `NumberTheory.ChineseRemainder`: n and m are required to be positive and coprime, which the source's comment assumes.
- `MatrixPower.PowIsPower`: an empty matrix is admitted only for exponents 0 and 1, because the source reads `a[0]` in every product.
- `StringMatching.Find`: an empty pattern is read by the source as its terminating NUL character. With no NUL in the text before its last character nothing matches and the result is empty, although every position is an occurrence of the empty pattern; the model returns the same empty result. A NUL earlier in the text makes the source read `pattern[1]` of the empty string, which is undefined, so that input is excluded.
- `Lis.Lis`: requires a non-empty sequence, since the source reads the top of pile -1 otherwise.
- `Sieve.NewPrimeSieve`: requires n >= 1, since the source writes `is_prime_[1]`.
- `MinCostFlow.ShortestPath`: the heap search gets a `fuel` budget of heap steps. A run that exhausts it reports `finished == false`, and `MaxFlowMinCost` then returns `None`; the model does not bound the search's running time.
- `MinCostFlow.MaxFlowMinCost`: requires s != t. With s == t the source's path is empty, `path_flow` stays `kInfinity` and the loop never ends.
- `MinCostFlow.MaxFlowMinCost`: minimality of the final cost is not proved. What is proved: each augmenting path is cheapest among residual paths whose reduced prefixes stay below `kInfinity`. At the end, no residual s-t path has every reduced prefix below `kInfinity` under the final potentials. Maximality of the flow (t unreachable) is proved only under two hypotheses: some potential certifies the input (`MinCostFlow.Certified`: no negative residual cycle and no negative residual walk from s), and n times the largest absolute cost is below `kInfinity` (`MinCostFlow.ModerateCosts`). `MinCostFlow.UnusedCertified` covers the program's usual input: no flow and non-negative costs.
- `MinCostFlow.MaxFlowMinCost`: the costs live in a table parallel to the edge lists (`costs[u][k]`) rather than inside `Edge`, so the flow modules share one `Edge` type.
- Potentials: they start at `kInfinity` (mincostmaxflow.cc:127), so their differences are 0 until some distance goes negative. The search never assumes reduced costs are non-negative: it re-queues on every improvement, which is what keeps it right with negative costs.
- `MinCostFlow.ChainEnough`: that the parent chain from t always reaches s is not proved. A chain caught in a cycle of parents makes `MinCostFlow.AugmentingPath` report that its budget ran out, and `MaxFlowMinCost` then returns `None`.
- `MinCut.MinCut`: the equality of the crossing capacity and the maximum flow value is not proved; the saturation of every leaving edge, from which it follows, is.
- `EdmondsKarp.MaxFlow`: maximality beyond "no residual s-t path is left" is not proved, and neither is the bound on the number of rounds.
- `EdmondsKarp.MaxFlow`, `MinCut.MinCut` and `MinCostFlow.MaxFlowMinCost` require every edge to be paired with its mate (`FlowNetwork.Feasible`). The source's own construction leaves a self-loop unpaired (`FlowNetwork.AsWrittenSelfLoop`), so inputs with a self-loop built that way are outside these contracts. The breadth-first searches of the maximum-flow and minimum-cut programs never follow a self-loop, so those programs handle such inputs. The minimum-cost program handles a self-loop of non-negative cost, whose relaxation never lowers a distance. A residual self-loop of negative cost lowers its vertex's distance each time the vertex is popped and pushes it again, so the source's `ShortestPath` never empties its heap; the model's fuel bound makes `MinCostFlow.ShortestPath` report that case as unfinished.
- Edge addresses: the source's `Edge*` parents are modelled as (vertex, index) pairs.

## Findings

| source | as written | input that shows it | evidently intended | confidence | as-written member | corrected member |
|---|---|---|---|---|---|---|
| Lab2/task2.4/allpairspath.cc:48-51 | the flag set for column j is later read as a row flag, so any entry in a row whose vertex was ever a marked column becomes `-kInfinity` | matrix [[-1, 0], [inf, 0]]: entry (1, 1) becomes `-kInfinity`, though vertex 1 only has a zero loop | (i, j) is `-kInfinity` iff some k with a negative diagonal lies between i and j | high (not executed) | `FloydWarshall.AsWrittenMarksUnreached` | `FloydWarshall.AllPairsCorrect` |
| Lab2/task2.4/allpairspath.cc:44-51 | an entry is marked only when its row was flagged earlier or the route through k is shorter, so an entry read before the flag is raised keeps its value | arcs 0->1 and 1->0 of weight 1 and a loop of weight -1 at 1: the tightened matrix is [[0, 0], [0, -2]] and entry (0, 0) stays 0 | (i, j) is `-kInfinity` iff some k with a negative diagonal lies between i and j | high (not executed) | `FloydWarshall.AsWrittenMissesCycle` | `FloydWarshall.AllPairsCorrect` |
| Lab2/task2.9/eulerianpath.cc:90-91 | any two unbalanced vertices pass the degree test | arcs 0->1, 0->1: reported as found with path 0, 1, 1, and 1->1 is no arc | with two unbalanced vertices the start must have out = in + 1 | high (not executed) | `EulerPath.AsWrittenAcceptsNonPath` | `EulerPath.EulerianPathCorrect` |
| Lab1/task1.5/predix_sums.cc:31 | the loop guard `i <= n_` lets `Add` write `arr_[n_]`, one past the end of the `n_`-entry vector | n = 1, Add(0, d): writes index 1, then index 2 | `i < n_` | high (not executed) | `Fenwick.AsWrittenOverruns` | `Fenwick.AddKeeps` |
| Lab2/task2.6/maxflow.cc:130-131 | for u == v the forward edge's `rev` is its own index, so it is its own mate | a self-loop edge 0->0 in a one-vertex graph | `rev` of the forward edge is the reverse edge's index, one more than `graph[v].size()` when u == v | medium: no search follows a self-loop in the maximum-flow programs (not executed) | `FlowNetwork.AsWrittenSelfLoop` | `FlowNetwork.AddEdgeUnused` |
