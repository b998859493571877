# HELIOS-NET, modelled in Dafny

HELIOS-NET is a reconnaissance platform built around a set of classical algorithms, several of them
written two or three times (C, Rust, Python, Go) with the claim that the fast form and the simple form
agree. This project models those algorithms and proves the claims, together with the guarantees of the
protocols around them.

`dafny verify dfyconfig.toml` covers the whole project.

| modules | component |
|---|---|
| `Options`, `Bytes`, `Sequences` | shared vocabulary |
| `Trie`, `EdgeTable`, `Aho` | the Rust multi-pattern automaton |
| `CAutomaton` | the C automaton, including repeated builds |
| `Utf8`, `Matchers`, `MatcherParity` | the matching contract, and the Rust core against the Python fallback |
| `Horspool`, `Bits`, `Crc`, `JsonText`, `MatchList` | single-pattern search, CRC-32, JSON escaping and the match record list |
| `Graphs`, `DijkstraHops`, `ShortestPath`, `LexRoutes`, `RustPath`, `Components` | the asset graph, hop distances, the two route searches, the two component searches |
| `Sums`, `PathCount`, `Dependency`, `Brandes` | betweenness centrality |
| `AttackPath` | the least-resistance path |
| `Loads`, `Lpt`, `Balancing`, `Brute` | load balancing: the greedy bound and the pruned search |
| `Raft` | the AppendEntries handler and runs of a cluster |
| `WalFormat`, `Wal`, `WalRuns` | the transactional write-ahead log |
| `PlanSteps`, `Waves`, `Planner` | campaign plans and their schedule |
| `WorkerPool`, `Decimals`, `Ports` | the Go scanner's pool and its port argument |
| `Assets` | the budgeted asset walk |

Loops, in-place updates and objects are methods and classes; each is proved against a specification
function or predicate, and the promises are proved about that.

Where the code and its own words differ, the model follows the code:

- `aho_corasick.c` never clears inherited outputs before a rebuild; `CAutomaton.Automaton.Build` shows
  that this does no harm.
- `boyer_moore.c` announces the Galil rule; the code does not contain it. Its guard against a zero shift
  is never needed.
- The one-node fallback of the Rust route search and the greedy fallback of `_brute` are unreachable.
- `_brute` calls its result optimal; that holds for one worker or while no weight from the third job on is
  negative, and for no larger choice of places (`Brute.OptimalExact`).
- The AppendEntries handler names a log matching step but accepts messages that leave a gap
  (`Raft.GapExact`, `Raft.GapBreaksMatching`).
- `assets.py` says every loop is bounded by `max_requests`; the count can reach one more, because the
  budget callback does not see requests used within one redirect or document batch. It stays within every
  call's limit if and only if that is at most 2 (`Assets.LimitExact`, `Assets.TakeMost`).
- `_redirect_target` says relative locations stay on the current authority; the port is kept only when it
  is the scheme's own (`Assets.Network.RelativeRedirect`).
- `replay` stops at the first record over 64 MiB, which `append` writes without complaint
  (`WalRuns.RunReplays`, `WalRuns.AllReadExact`).

## Model

| member | source | states |
|---|---|---|
| Trie.FailCarriesSuffixes | rust-core/src/aho.rs:200-206 | the suffixes of a node's word that are in the trie are the word itself and those of its failure node: why `own + output[fail]` loses nothing |
| Trie.ShallowerIsEarlier | rust-core/src/aho.rs:202-206 | in a finished breadth-first queue every strictly shallower node comes strictly earlier, so outputs are merged in a usable order |
| EdgeTable.BinarySearch | rust-core/src/aho.rs:54-60 | over sorted edges: the index of the label, or the place that keeps the list sorted |
| EdgeTable.LookupFinds | rust-core/src/aho.rs:54-60 | a lookup succeeds exactly when the trie holds the word extended by that byte, and leads to that word's node |
| EdgeTable.FailIsProcessed | rust-core/src/aho.rs:172-198 | when a node's turn in the queue comes, its failure node is the root or had its turn before |
| EdgeTable.Arrive | rust-core/src/aho.rs:188-195 | following the edge where the failure walk stopped (or staying at the root) reaches the longest suffix of the extended text that is in the trie |
| EdgeTable.ReadOn | rust-core/src/aho.rs:188-195 | and even with stale failure links it reaches a suffix of the extended text |
| EdgeTable.EndsByFail | rust-core/src/aho.rs:200-215 | a needle ends at a node exactly when it is the node's own or ends at its failure node |
| EdgeTable.EndsByState | rust-core/src/aho.rs:227-241 | at every scan state, a needle ends at the state's node exactly when it is a suffix of the text read so far |
| Aho.AhoCorasick.Add | rust-core/src/aho.rs:98-151 | accepted exactly when not blank and no stored needle is the same after folding; then appended and the automaton no longer counts as built, otherwise nothing changes |
| Aho.AhoCorasick.Walk | rust-core/src/aho.rs:189-191 | the failure walk stops at the root or at a node with an edge for the byte, and never passes a longer suffix |
| Aho.AhoCorasick.LinkAll | rust-core/src/aho.rs:167-198 | after the breadth-first loop every node is queued once, each failure link is the longest proper suffix in the trie, and the trie itself is unchanged |
| Aho.AhoCorasick.MergeOutputs | rust-core/src/aho.rs:200-215 | after the output loop every node lists exactly the patterns that end there, sorted and once each |
| Aho.AhoCorasick.Build | rust-core/src/aho.rs:163-218 | makes the automaton complete (and does nothing when it already is), keeping the patterns |
| Aho.MoreHits | rust-core/src/aho.rs:227-241 | one scan step extends an exact hit list to an exact hit list |
| Aho.MoreSound | rust-core/src/aho.rs:227-241 | one scan step from any node whose word ends the text read so far reports only occurrences, whatever was added since the last build |
| Aho.AhoCorasick.FindAll | rust-core/src/aho.rs:221-243 | at all times reports only occurrences, each once, in end order; once built: (pattern, end) exactly when the folded needle is a suffix of the folded text up to `end` |
| Aho.ScanExact | rust-core/src/aho.rs:246-260 | turning ends into starts and ids into names keeps exactly the occurrences |
| Aho.AhoCorasick.Scan | rust-core/src/aho.rs:263-275 | at all times only (name, start) pairs whose folded name occurs at that byte offset; once built exactly those |
| CAutomaton.EdgeFind | transport/c_core/src/aho_corasick.c:125-142 | the binary search returns the child on that label exactly when there is one |
| CAutomaton.EdgeInsert | transport/c_core/src/aho_corasick.c:144-172 | the linear scan and the two shifts put the edge where the binary search says it belongs, and touch nothing else |
| CAutomaton.OutputsPush | transport/c_core/src/aho_corasick.c:174-186 | adds the pattern unless it is listed; no repeats arise |
| CAutomaton.Automaton.Advance | transport/c_core/src/aho_corasick.c:192-206 | from the state of a text, reaches the state of the text with one more byte |
| CAutomaton.Automaton.Add | transport/c_core/src/aho_corasick.c:243-315 | the exact status for null, empty, duplicate (both fields equal) and accepted; only an accepted pair changes anything |
| CAutomaton.InheritStep | transport/c_core/src/aho_corasick.c:347-351 | inheriting from a complete failure node makes a node complete even if it still holds outputs inherited by an earlier build |
| CAutomaton.FailIsFull | transport/c_core/src/aho_corasick.c:344-361 | a failure node is complete before its own turn comes |
| CAutomaton.Automaton.Build | transport/c_core/src/aho_corasick.c:317-385 | whenever patterns exist, also when repeated after further additions, leaves the automaton complete for all of them |
| CAutomaton.OutputsAreReports | transport/c_core/src/aho_corasick.c:411-422 | the callbacks at one text position are exactly the signatures ending there |
| CAutomaton.Automaton.Scan | transport/c_core/src/aho_corasick.c:395-424 | at all times calls back only for (name, pattern, start) triples whose folded pattern occurs there, each once; after a build with nothing added since, for all of them |
| CAutomaton.MoreSound | transport/c_core/src/aho_corasick.c:411-422 | one scan step from any node whose word ends the text read so far calls back only for occurrences |
| Utf8.SelfSynchronising | core/c_core_bridge.py:779-786 | an encoded text occurs at a byte offset exactly when the text occurs at the character starting there (section 3 of RFC 3629) |
| Utf8.FoldEncode | core/c_core_bridge.py:746-756 | folding characters and folding bytes commute with UTF-8 encoding |
| Utf8.FoldKeepsOffset | core/c_core_bridge.py:779-786 | so a character has the same byte offset in the text and in the folded text |
| Bytes.FoldExact | core/c_core_bridge.py:746-756 | folding identifies the two cases of an ASCII letter and nothing else |
| Utf8.OccursByLetters | core/c_core_bridge.py:746-776 | a folded occurrence is one up to the case of ASCII letters |
| Utf8.CaseChanged | core/c_core_bridge.py:746-756 | changing the case of ASCII letters changes no folded text |
| Utf8.DecodeEncode | rust-core/src/lib.rs:119-121 | strict decoding of an encoded text gives the text |
| Matchers.FindAllOccurrences | core/c_core_bridge.py:759-776 | every character index at which the pattern occurs, overlaps included, ascending; none for the empty pattern |
| Matchers.PythonMatch | core/accel.py:279-291 | reports a (pattern, byte offset) exactly when the non-empty folded pattern occurs at the character with that offset in the original text |
| Matchers.Compile | rust-core/src/lib.rs:113-125 | the lines that decode as UTF-8, are not blank and fold to something new, up to the cap, compiled and built |
| Matchers.RustMatch | rust-core/src/lib.rs:192-215 | what the Rust core reports through its C interface, clipping and NUL termination included |
| MatcherParity.SplitJoined | rust-core/src/lib.rs:115-120 | splitting the joined pattern blob at newlines gives the encoded patterns back |
| MatcherParity.BackendsAgree | core/accel.py:279-291 | within the caps, on distinguishable patterns, both backends report the same set for every Unicode text |
| MatcherParity.BackendsDisagree | rust-core/src/aho.rs:108-114 | for any other pattern list there is a text on which they differ |
| MatcherParity.AgreementExact | core/accel.py:264-291 | the backends agree on all texts if and only if no two different patterns fold together and only the empty pattern is blank |
| MatcherParity.Normalise | core/accel.py:264-276 | sorted by position then signature, without repeats, holding exactly the given hits |
| MatcherParity.OrderedUnique | core/accel.py:264-276 | the normal form depends only on the set of hits |
| MatcherParity.TextOrder | core/accel.py:276 | signatures are ordered by code points: a proper prefix first, else by the first difference |
| MatcherParity.SameAnswer | core/accel.py:264-291 | so both backends give the identical normalised answer |
| Horspool.NoSkip | transport/c_core/src/boyer_moore.c:85-89 | no shift jumps over an occurrence |
| Horspool.BuildShifts | transport/c_core/src/boyer_moore.c:56-62 | each byte's shift is its distance from the end counted from its last place before the last byte, or the pattern length; never zero |
| Horspool.CompareWindow | transport/c_core/src/boyer_moore.c:68-79 | the right-to-left comparison succeeds exactly on an occurrence |
| Horspool.Search | transport/c_core/src/boyer_moore.c:26-92 | the least offset of a case-folded match (cast to a C int), or -1 exactly when there is none; null pointers give the error code |
| Horspool.ContainsCi | transport/c_core/src/hashing.c:102-130 | 1 exactly when the needle occurs somewhere in the C string |
| Horspool.SearchFinds | transport/c_core/src/boyer_moore.c:26-92 | the answer is the least offset if and only if a C int can hold that offset; below 2^31 bytes of text it is negative exactly when there is no match |
| Horspool.Int32Exact | transport/c_core/src/boyer_moore.c:82 | the cast to a C int keeps the low 32 bits |
| Bits.XorAssoc | transport/c_core/src/hashing.c:56-73 | exclusive or, defined bit by bit, is associative |
| Crc.ShiftLinear | transport/c_core/src/hashing.c:56 | one polynomial step is linear over exclusive or |
| Crc.LookupStep | transport/c_core/src/hashing.c:73 | eight steps equal one lookup of the low byte combined with a move by a byte |
| Crc.BuildTable | transport/c_core/src/hashing.c:52-61 | entry i of the table is eight steps of i |
| Crc.Crc32 | transport/c_core/src/hashing.c:63-76 | 0 for a null pointer; otherwise the table-driven checksum is the bit-by-bit checksum, for every byte string, table built or not |
| Crc.Crc32Python | core/c_core_bridge.py:910-917 | the fallback computes the same bit-by-bit checksum |
| Crc.BitByBitBound | transport/c_core/src/hashing.c:71-75 | every intermediate value fits in 32 bits |
| Crc.CrcIsRemainder | transport/c_core/src/hashing.c:50-76 | before its last inversion the checksum is the remainder of the message, its first 32 bits inverted, times x^32, by the CRC-32 generator of IEEE 802.3 over the field of two elements, and the only one |
| JsonText.EscapeBound | transport/c_core/src/helios_batch.c:182-184 | escaping yields between one and six bytes per byte |
| JsonText.EscapeForms | transport/c_core/src/helios_core.c:58-86 | a byte is written as it is unless it is a quote, a backslash or a control character, and as two characters exactly for the seven that have a short form |
| JsonText.EscapeBack | transport/c_core/src/helios_core.c:58-96 | reading an escaped string as a JSON string literal gives the string, whatever follows the closing quote (section 7 of RFC 8259) |
| JsonText.JsonEscape | transport/c_core/src/helios_core.c:38-101 | writes the escape, or the escape of the longest prefix that fits, NUL-terminated and inside the capacity; exact status in every case |
| JsonText.WrittenExact | transport/c_core/src/helios_core.c:87-93 | the call succeeds exactly when the escaped string and its terminator fit |
| JsonText.WrittenBack | transport/c_core/src/helios_core.c:87-100 | even a truncated result reads back as a prefix of the string |
| MatchList.MatchContext.OnMatch | transport/c_core/src/helios_batch.c:126-161 | adds the record when name, record and list all fit; otherwise sets the flag and leaves the list alone |
| MatchList.MatchContext.OnMatches | transport/c_core/src/helios_batch.c:192-193 | after a whole scan: the flag is set exactly when some hit was refused, and unset means one record per hit in order |
| MatchList.ListBack | transport/c_core/src/helios_batch.c:143-160 | the printed list reads back as exactly its records |
| MatchList.UnlessOverflow | transport/c_core/src/helios_batch.c:207-218 | with the flag unset the printed list reads back as the hits themselves |
| Graphs.FromEdges | rust-core/src/graph.rs:55-70 | neighbours ascend without repeats; two nodes are adjacent exactly when the edge list joins them in range and they differ |
| Graphs.LabelsAreDistances | rust-core/src/graph.rs:191-235 | locally consistent hop labels are the distances, and negative ones mark the unreachable nodes |
| DijkstraHops.Settle | rust-core/src/graph.rs:208-212 | the cheapest entry of an unsettled node carries its final distance |
| DijkstraHops.ShortestHopsFrom | rust-core/src/graph.rs:195-235 | the hop distance of every node, `None` exactly for the unreachable ones; an out-of-range source gives all `None` |
| ShortestPath.ShortestPathPython | engine/graph/core.py:343-372 | the chain of predecessors of the breadth-first search, or nothing when the target is unreachable |
| ShortestPath.ChainUnique | engine/graph/core.py:366-369 | a predecessor map that leaves out the source determines the route |
| RustPath.ExpandLevel | rust-core/src/graph.rs:251-264 | one turn of the level loop takes the whole search from one hop distance to the next |
| RustPath.TraceBack | rust-core/src/graph.rs:266-277 | the walk back follows recorded predecessors to the source; the one-node fallback is unreachable |
| RustPath.ShortestPathRust | rust-core/src/graph.rs:238-278 | absent exactly when out of range or unreachable; otherwise the least hop count and a route one node longer |
| RustPath.AnswersUnique | engine/graph/core.py:343-372 | there is only one answer the search can give |
| RustPath.BothEngines | rust-core/src/graph.rs:238-278 | for every graph and pair both engines return the identical node sequence: of all shortest paths the lexicographically first |
| LexRoutes.RunAscends | engine/graph/core.py:343-372 | nodes are discovered in the order of their routes: by length, then lexicographically |
| LexRoutes.RouteIsFirst | engine/graph/core.py:343-372 | in a finished search no path to a node comes before the recorded one |
| LexRoutes.AnswerIsFirst | engine/graph/core.py:343-372 | so the answer is the first of the shortest paths |
| Components.ExploreRust | rust-core/src/graph.rs:173-184 | the depth-first loop collects exactly the nodes reachable from the root, each once |
| Components.ExplorePython | engine/graph/core.py:312-320 | the breadth-first loop collects the same nodes |
| Components.ConnectedComponentsRust | rust-core/src/graph.rs:164-189 | the reachability classes, each ascending, in order of their least members, covering every node |
| Components.ConnectedComponentsPython | engine/graph/core.py:304-321 | the same, found breadth-first |
| Components.BySize | engine/graph/core.py:300-302 | the components reordered largest first, ties by first member, none lost or added |
| Components.ConnectedComponents | engine/graph/core.py:279-323 | what either engine finds, in that order |
| Components.SameComponent | rust-core/src/graph.rs:163-189 | two nodes share a component exactly when one reaches the other |
| Components.ComponentsUnique | engine/graph/core.py:279-323 | there is only one such division |
| Components.BothComponents | engine/graph/core.py:279-323 | both engines return the identical list: every reachability class, ascending, largest first |
| PathCount.PathsExact | rust-core/src/graph.rs:131-139 | the recursively built family holds exactly the paths of each length |
| PathCount.CountLastStep | rust-core/src/graph.rs:136-139 | paths to a node are counted by their last step: the recurrence `sigma` follows |
| PathCount.ViaCount | rust-core/src/graph.rs:108-161 | paths through a node are the paths to it times the paths from it |
| Brandes.CountPaths | rust-core/src/graph.rs:115-141 | the search loop keeps distances, predecessors and counts consistent to its end |
| Brandes.FinishedSigma | rust-core/src/graph.rs:117-141 | at the end `sigma` is the number of shortest paths |
| Dependency.ShareIsFlow | rust-core/src/graph.rs:108-111 | the share of shortest paths through an inner node is `sigma[v]` times the paths onward over `sigma[t]` |
| Dependency.DepRecurrence | rust-core/src/graph.rs:143-149 | the dependency of a source on a node is the sum over its successors of `sigma[v]/sigma[w] * (1 + dependency on w)` |
| Dependency.DepIsShares | rust-core/src/graph.rs:143-153 | that dependency is the sum over all targets of the shares |
| Brandes.TopIsDone | rust-core/src/graph.rs:144 | when a node is popped its dependency is complete |
| Brandes.Serve | rust-core/src/graph.rs:145-149 | serving all predecessors of a popped node adds exactly its term to each |
| Brandes.Accumulate | rust-core/src/graph.rs:114-154 | one source adds exactly its shares to every node |
| Brandes.BetweennessCentrality | rust-core/src/graph.rs:112-161 | for every graph the result for v is half the sum over ordered pairs of the fraction of shortest paths through v |
| AttackPath.StepCost | engine/killchain/pathfinder.py:60-66 | every step costs something |
| AttackPath.LowerBound | engine/killchain/pathfinder.py:47-72 | every walk is matched by the best known cost of its end, or a queued entry is at most as dear |
| AttackPath.Live | engine/killchain/pathfinder.py:53-56 | a popped entry that is not stale belongs to a node not expanded before, at its final cost |
| AttackPath.Expand | engine/killchain/pathfinder.py:56-72 | relaxing the neighbours in any order keeps the search invariant |
| AttackPath.FindAttackPath | engine/killchain/pathfinder.py:36-74 | a real path of least cost over all walks, with that cost; empty exactly when the goal is unknown or unreachable; popped costs never decrease, each node is expanded at most once, and the loop ends |
| Loads.Conservation | engine/algorithms/balancing.py:40-43 | no work is lost: the loads add up to the weights placed |
| Lpt.LightLast | engine/algorithms/balancing.py:32-46 | the bound when the last job is at most a third of any achievable makespan |
| Lpt.HeavyLast | engine/algorithms/balancing.py:32-46 | when it is heavier, the greedy load is within the achievable makespan itself |
| Lpt.GrahamBound | engine/algorithms/balancing.py:32-46 | on descending weights the greedy makespan is at most (4m-1)/(3m) times any makespan that some assignment achieves |
| Balancing.PlaceInOrder | engine/scanner.py:105-108 | the index loop of the scanner's copy is the greedy assignment, buckets and loads |
| Balancing.PlacePairs | engine/algorithms/balancing.py:40-43 | so is the loop over (index, weight) pairs |
| Balancing.SortKeepsLoad | engine/algorithms/balancing.py:37 | sorting the jobs does not change what an assignment puts on a worker |
| Balancing.LptBalance | engine/algorithms/balancing.py:32-46 | the answer divides the jobs: each index below the number of weights is listed exactly once among at most `workers` buckets, none empty, each heaviest first and stable; the makespan is the greatest bucket weight (or 0 if a worker is left out and that is more); the error for a positive number of jobs and no worker |
| Balancing.LptIdx | engine/scanner.py:101-109 | the scanner's own loop returns the same non-empty buckets, which divide the jobs the same way |
| Balancing.LptDivides | engine/algorithms/balancing.py:44-46 | dropping empty buckets loses, repeats and reorders nothing |
| Sequences.PickSelects | engine/algorithms/balancing.py:45 | what a filter keeps are exactly the accepted places, each once, in order |
| Balancing.LptPartitions | engine/algorithms/balancing.py:32-46 | every index is in exactly one bucket, once, and each bucket weighs its worker's load |
| Balancing.LptBound | engine/algorithms/balancing.py:32-46 | for non-negative weights and at least one worker the makespan is at most 4/3 - 1/(3m) times that of every assignment |
| Brute.PruneBeats | engine/algorithms/balancing.py:65-66 | when no weight still to be placed is negative, nothing below a cut is better than an earlier best, or as good and earlier in lexicographic order |
| Brute.BelowBeats | engine/algorithms/balancing.py:58-76 | with one worker, or no negative weight from the third job on, the search from any point it reaches leads every completion: better, or as good and no later in lexicographic order |
| Brute.SkippedIsCovered | engine/algorithms/balancing.py:67-71 | below a skipped worker of equal load there is nothing that is not led by something below the one tried before |
| Brute.Search.Place | engine/algorithms/balancing.py:72-73 | puts the job on the worker |
| Brute.Search.Unplace | engine/algorithms/balancing.py:75-76 | and takes it back exactly |
| Brute.Search.Leaf | engine/algorithms/balancing.py:60-64 | a complete assignment replaces the best only when strictly better |
| Brute.Search.Dfs | engine/algorithms/balancing.py:58-76 | restores buckets and loads, never worsens the best, follows the search function step by step, and beats every completion under that condition |
| Brute.BruteBalance | engine/algorithms/balancing.py:49-81 | buckets that list each index once, ascending, and weigh at most the makespan; under that condition they are those of the lexicographically first of all optimal assignments; the fallback is never taken |
| Brute.NegativeWeightsLose | engine/algorithms/balancing.py:65-66 | for every length, at least two workers and every position from the third on: a list whose only negative weight stands there, on which the search settles for 3 where 2 is possible |
| Brute.OptimalExact | engine/algorithms/balancing.py:49-81 | all lists of a length whose negative weights stand at given positions are solved optimally if and only if there is one worker or those positions are among the first two |
| Raft.RaftNode.Replicate | core/consensus/raft.go:73-84 | the loop keeps the log if it holds every entry, else cuts at the first missing one and appends the rest |
| Raft.RaftNode.HandleAppendEntries | core/consensus/raft.go:53-92 | the whole new state and the reply, for every message the handler does not look up at a negative index |
| Raft.EntrySurvives | core/consensus/raft.go:73-84 | no message removes or changes an entry unless the log differs in term there or before |
| Raft.HeldChangesNothing | core/consensus/raft.go:74-81 | a message all of whose entries are held leaves the log alone |
| Raft.LogExact | core/consensus/raft.go:73-84 | exactly the log an accepted gap-free message leaves: the old entries up to the first that differs, then the message's; longer than the message only if nothing differs |
| Raft.CommitFalls | core/consensus/raft.go:86-89 | the commit index falls if and only if an accepted message announces a later commit and cuts the log below the old one |
| Raft.CommitInLog | core/consensus/raft.go:86-89 | a commit index within the log is left behind its end if and only if the log is cut below it without a later commit being announced |
| Raft.HeardFollows | core/consensus/raft.go:55-64 | a stale term changes nothing; any other makes the node a follower of it, with no vote in a new term |
| Raft.VoteKept | core/consensus/raft.go:60-64 | within a term a vote is kept if and only if the node was a follower already |
| Raft.MergeTwice | core/consensus/raft.go:73-84 | merging the same entries twice is merging them once, if and only if there was no gap |
| Raft.Redelivery | core/consensus/raft.go:53-92 | handling the same gap-free message again changes nothing |
| Raft.MergedSlice | core/consensus/raft.go:73-84 | a gap-free slice of a leader's log leaves the old log or a prefix of the leader's |
| Raft.StepOk | core/consensus/raft.go:53-92 | every step of a cluster keeps all logs anchored in the leaders' logs |
| Raft.LogMatching | core/consensus/raft.go:53-92 | at every point of every run whose messages bring no entry beyond a receiver's log, logs that agree on the term at an index agree up to there, and entries know their positions (section 5.3 of the Raft paper) |
| Raft.TermsGrow | core/consensus/raft.go:59-64 | the number of nodes is fixed and no node's term ever decreases along a run |
| Raft.GapExact | core/consensus/raft.go:66-84 | the handler accepts gaps: a slice of a leader's log keeps the receiver's log sound if and only if it is rejected, brings no entries or leaves no gap |
| Raft.GapBreaksMatching | core/consensus/raft.go:66-84 | one gap is enough to break Log Matching between two nodes |
| WalFormat.SealUnseal | core/wal.py:234-288 | decrypting an encrypted record gives the record |
| WalFormat.FramesConcat | core/wal.py:374-379 | appending frames appends to the stream |
| WalFormat.ParseFrames | core/wal.py:397-418 | replaying a stream of frames gives its records up to the first oversized one |
| WalFormat.ForgedSkipped | core/wal.py:281-288 | a frame whose MAC is wrong contributes nothing, and the frames behind it are still read |
| WalFormat.OpenedExact | core/wal.py:275-288 | a payload gives a record exactly when its MAC is right and its decrypted text decodes to that record |
| WalFormat.ReplayedGenuine | core/wal.py:397-418 | every replayed record stands in the file, in a frame with the right MAC |
| WalFormat.LengthIsNumber | core/wal.py:353 | the length field is in network byte order |
| WalFormat.ParsePrefix | core/wal.py:397-406 | replaying any prefix of any byte stream gives a prefix of its records |
| WalFormat.ParseTorn | core/wal.py:399-406 | a stream cut after its k-th frame gives exactly k frames' records |
| WalFormat.CutSomewhere | core/wal.py:397-406 | every cut is of that kind |
| WalFormat.ReplayedPrefix | core/wal.py:381-419 | cutting a file anywhere past its header leaves a prefix of what it held |
| Wal.TransactionalWal.constructor | core/wal.py:59-73 | opening a file, a torn one included, takes the counter up at the greatest replayed sequence number |
| Wal.TransactionalWal.BeginTxn | core/wal.py:341-344 | opens a transaction, dropping what an open one held |
| Wal.TransactionalWal.AppendRecord | core/wal.py:346-359 | one more sequence number; the record goes to the transaction or to disk; too long for its length field raises and writes nothing |
| Wal.TransactionalWal.CommitTxn | core/wal.py:361-367 | moves the held records to disk in order; outside a transaction nothing happens |
| Wal.TransactionalWal.RollbackTxn | core/wal.py:369-372 | drops the held records and leaves the file alone |
| Wal.TransactionalWal.Replay | core/wal.py:381-419 | what replaying the bytes on disk gives, each record from a frame with the right MAC; for a file that held nothing else, the records written, up to the first oversized one |
| Wal.ReadFrames | core/wal.py:397-419 | the replay loop over any bytes |
| WalRuns.RunReplays | core/wal.py:335-419 | after any history of begins, appends, commits, rollbacks and restarts the disk holds exactly the records appended directly or in committed transactions, in order, and replay gives all of them if and only if each is within 64 MiB |
| WalRuns.ReplayIncreasing | core/wal.py:335-359 | after any history whatever, replayed sequence numbers strictly increase |
| WalRuns.AllReadExact | core/wal.py:401-406 | replay reads all records on disk if and only if each is within 64 MiB |
| WalRuns.TornFile | core/wal.py:381-419 | a file cut anywhere past its header replays exactly its whole frames |
| WalRuns.TornTailSwallows | core/wal.py:404-406 | why restarts need an untorn file: a record written after a torn tail is lost while the torn frame still lacks more bytes than it brings |
| PlanSteps.SortByPriority | core/planner.py:215 | sorted by priority, steps of equal priority in their old order |
| Waves.Schedule | core/planner.py:202-220 | for any dependencies: ends, places every step (the last of each id) exactly once, in waves of 1 to the limit; ready steps first, most urgent first, a cycle broken at the least id only when nothing is ready; each wave is the one the stable sort of what is left gives |
| Waves.DictIds | core/planner.py:206 | the dictionary of steps keeps each id where it first came |
| Waves.NextWaveOk | core/planner.py:209-216 | one turn forms exactly the wave required |
| Waves.NeverBreaksExact | core/planner.py:209-214 | no cycle is ever broken if and only if all dependencies are listed and acyclic |
| Waves.NeverEnds | core/planner.py:208-219 | with a limit below one the loop never ends |
| Planner.PlannerState.Plan | core/planner.py:76-181 | the planned steps in (priority, id) order, each depending on exactly the steps it has to wait for; no step bears a retired name; fails exactly when an item lacks its module name |
| Planner.PlanDepends | core/planner.py:90-178 | stealth and discovery steps depend on nothing, asset steps on exactly those, recon and extra steps on every step before, the collector on every other step |
| Planner.PlanAnswers | core/planner.py:78-178 | every item but collectors gets a step with its module, action and priority or the default ones; every other step is the default discovery or asset step or the collector |
| Planner.PlanSize | core/planner.py:78-178 | and the plan holds no more steps than that |
| Planner.CollectorLast | core/planner.py:202-220 | in every schedule of a plan the last wave is the collector alone |
| Planner.PlanIsSorted | core/planner.py:180 | the order is by priority, then id, without repeated ids |
| Planner.PlanAcyclic | core/planner.py:90-178 | dependencies are listed and have smaller ids |
| Planner.PlansNeverBreak | core/planner.py:202-220 | in every schedule of a plan each step comes after all it depends on and no cycle is broken |
| WorkerPool.MaxWorkersFor | transport/goscan/goscan.go:615-620 | the smaller of the number of ports and 300 |
| WorkerPool.Conserved | transport/goscan/goscan.go:573-611 | no action loses or duplicates a list entry |
| WorkerPool.Safe | transport/goscan/goscan.go:566-611 | in every interleaving no goroutine panics, no send blocks even without a consumer, and live workers stay within the pool size |
| WorkerPool.ClosedComplete | transport/goscan/goscan.go:605-608 | once the result channel is closed every list entry has exactly one result and nothing is still to be sent |
| WorkerPool.ResultsAreAnswers | transport/goscan/goscan.go:510-557 | at all times the results, taken or waiting, are exactly what the dials have answered, in that order |
| WorkerPool.AtMostOneEach | transport/goscan/goscan.go:510-557 | at no time are there more results for a port than list entries |
| WorkerPool.RunsEnd | transport/goscan/goscan.go:573-611 | every run ends within seven steps per list entry and five more |
| WorkerPool.NoDeadlock | transport/goscan/goscan.go:573-611 | until the pool is done something other than the consumer can move |
| WorkerPool.StuckIsComplete | transport/goscan/goscan.go:570-611 | a run that can go no further without the consumer has all results taken or waiting |
| Assets.Network.HopsSafe | modules/discovery/assets.py:361-434 | at most `turns` hops, each exactly one probe, of the place the hop names, at a name and an address in scope; none without budget |
| Assets.Network.FollowRedirects | modules/discovery/assets.py:361-434 | follows exactly the specified hops (the first authorised address of an authorised name, while responses redirect) and records the refused one |
| Assets.Network.DocumentsSafe | modules/discovery/assets.py:437-476 | one probe per document, in scope |
| Assets.Network.ProbeDocuments | modules/discovery/assets.py:437-476 | both documents with budget and none without; reports exactly those that answered |
| Assets.Network.DocumentsAre | modules/discovery/assets.py:451-475 | both documents are asked for in turn, and those that answer are the ones reported |
| Assets.Network.PortSafe | modules/discovery/assets.py:554-636 | probing one port stays in scope, counts its probes exactly and passes the budget by at most one, and not at all when it is at most 2 |
| Assets.Network.PortExact | modules/discovery/assets.py:554-612 | one port passes the budget by one exactly when it is open and either its first of two redirect hops or the first of its two documents takes the last request |
| Assets.Network.PortParts | modules/discovery/assets.py:554-636 | the finding of an open port carries the hops taken and the documents that answered, and its refused redirect is recorded |
| Assets.Network.GoExact | modules/discovery/assets.py:385-415 | a hop is taken exactly on a redirect with budget to a name in scope with an address in scope, to the first such address; what is refused is recorded |
| Assets.Network.RelativeRedirect | modules/discovery/assets.py:328-347 | a location without scheme, host and port keeps the host, and the port if and only if that is the scheme's own |
| Assets.Network.FirstAuthorised | modules/discovery/assets.py:401-416 | the first authorised address is the one before which none is in scope |
| Assets.Network.ProbePort | modules/discovery/assets.py:554-636 | the exact probes, count, finding and refusals of one port |
| Assets.Network.Visit | modules/discovery/assets.py:534-636 | one name: refused, unresolved, or all its authorised addresses probed on all planned ports while the budget lasts |
| Assets.Network.PortPlan | modules/discovery/assets.py:508-524 | the caller's ports, or the web ports the scope allows, first occurrences in order |
| Assets.Network.PlanInOrder | modules/discovery/assets.py:508-524 | planned ports keep the order of their first places |
| Assets.Network.WalkSafe | modules/discovery/assets.py:528-645 | whatever the outside answers, the walk stays in scope and within its limits |
| Assets.Network.DiscoverAssets | modules/discovery/assets.py:479-655 | ends, exactly as the specification of the walk does; at most `max_hosts` names, each once and no deeper than `depth`; every probe in scope; the request count is the probe count, at most `max_requests` when that is at most 2 and else at most `max_requests` + 1; findings were seen open; below the request limit every name taken up is refused, unresolved, or a host with every planned port of every authorised address probed; below both limits every seed is taken up |
| Assets.Network.WalkCovers | modules/discovery/assets.py:528-636 | a walk that ends below its request limit has dealt with every name it took up: each planned port of each authorised address was probed, each open one again for the default host, and has its finding |
| Assets.Network.ChildIsVisited | modules/discovery/assets.py:638-646 | in a walk that stops for want of names every new in-scope name that certificate transparency gives, with depth and room left, is taken up |
| Assets.Network.ChildrenRefused | modules/discovery/assets.py:638-645 | the new names out of scope are recorded as refused |
| Assets.TakeMost | modules/discovery/assets.py:479-655 | for every `max_requests`, with and without `deep`, a network on which a walk counts that many: from 3 on, one too many |
| Assets.LimitExact | modules/discovery/assets.py:528-655 | every call on every network stays within `max_requests` if and only if that is at most 2 |
| Decimals.ValueDecimal | core/accel.py:813 | a printed number reads back as itself |
| Ports.ParsePortToken | transport/goscan/goscan.go:325-381 | the ports a token means, and whether it is a port specification at all |
| Ports.DedupePorts | transport/goscan/goscan.go:247-261 | first occurrences, in order |
| Ports.ParsePorts | transport/goscan/goscan.go:270-308 | what the argument means, presets and fallback included |
| Ports.ParsedSound | transport/goscan/goscan.go:270-308 | for every argument the ports are distinct and within 1 to 65535 |
| Ports.MeaningSound | transport/goscan/goscan.go:356-380 | one token costs at most 65535 ports |
| Ports.MeaningSpec | transport/goscan/goscan.go:356-380 | a printed port or range means the valid ports it names, ascending: none for a reversed range |
| Ports.SpecsParse | transport/goscan/goscan.go:270-308 | any comma-separated list of ports and ranges parses to the ports its parts name, each at its first place; the default sweep if a list of several names none |
| Ports.BadNumber | transport/goscan/goscan.go:332-340 | a number no port can have falls back to the default sweep |
| Ports.Presets | transport/goscan/goscan.go:272-289 | nothing and the preset words, in any letter case |
| Ports.TrimAround | transport/goscan/goscan.go:326 | white space around a token is ignored |
| Sequences.FirstsInOrder | transport/goscan/goscan.go:247-261 | removing repeats keeps the order of the first occurrences |
| Ports.PrintParse | core/accel.py:813 | printing a non-empty list of valid ports and parsing it gives the list with later repeats removed |

## Left out

- Brute.BruteBalance: over reals, so that adding a weight and taking it away again is exact.
- Waves.Schedule: requires a limit of at least one, because below that the loop does not end (Waves.NeverEnds).
- Raft.RaftNode.HandleAppendEntries: requires that no entry is looked up at a negative index; a message of a current term with entries and a previous index below -1 makes the Go code panic.
- Raft.LogMatching: assumes one leader log per term and that accepted entries never land beyond the receiver's log; elections, votes and commit safety are not in the code.
- CAutomaton.Automaton.Scan: between an addition and the next build it does not say which matches are missed.
- Assets.Network.DiscoverAssets: a Location header whose port does not parse raises in the code; here parsing either succeeds or fails as a whole.
- Assets.Network.ProbeDocuments: the contents of documents, TLS metadata and page titles are not modelled.
- WalRuns.RunReplays: restarts within a history find the file as it was left; after a torn tail later records can be lost (WalRuns.TornTailSwallows).
- AttackPath.FindAttackPath: costs are reals, and ties in the heap are broken in any way rather than by name.
- Brandes.BetweennessCentrality: over reals; rounding to six places and the order of the returned pairs are left out.
- Balancing.LptBalance: over reals, with Python's stable sort and first-minimum rule.
- Ports.ParsePorts: the argument is a sequence of Unicode scalars; invalid UTF-8 is not modelled.
- Components.ConnectedComponents: nodes are numbered in the order of their names.
- Cryptography and JSON in the log: keystream, MAC and encoding are functions with the laws they need; key handling, legacy layouts and a torn 20-byte header are left out.
- The log file is used by one object at a time; locks and concurrent writers are left out.
- 32-bit node and pattern indices of the automata are unbounded numbers; the Rust caps keep them far below the limit.
- Allocation failures and the dense table of the C automaton, which no lookup reads.
- A dial ends: each `scanPort` is one action of the pool.
- Pacing callbacks, banners, TLS probing, reports, the command line and file permissions: input and output without an algorithm.
- Backend selection in `accel.py` and the C signature file, whose parser trims patterns.
- FNV hashes, the adaptive rate controller, drift comparison, scope suffix rules and the DNS packet code: they would only add easy members.
