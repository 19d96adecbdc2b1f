# bitanes2 — Brandes betweenness centrality, modelled in Dafny

bitanes2 computes the betweenness centrality of every node of an
undirected, unweighted graph with Brandes' algorithm. It follows U. Brandes,
"A faster algorithm for betweenness centrality", Journal of Mathematical
Sociology 25(2), 2001. It reads a graph (node count, edge count, edge list)
and writes one value per node, `cb[v] / 2.0`, to a file named after the
input with the extension `btw`. The repository has three drivers for the
same per-source pass:

- `bitanes2.c`, a sequential program that runs every source in turn;
- `brandes.c`, a pthread body that runs a static chunk of the sources into
  its own slice of a shared `cb` array;
- `bitanes2b.c`, an MPI master/worker program. The master hands out batches
  of 100 sources on request and then one `-1` to every worker. The workers'
  `cb` arrays are summed by a reduction.

The model has these modules:

- **DenseGraph** (`graph.dfy`): the adjacency-matrix graph (`graph_create`,
  `graph_putEdge`, `graph_getEdge`) as a class over a 2-D array. Its matrix is
  seen as a sequence of rows. Loading an edge list in both directions yields a
  binary, symmetric matrix.
- **LinkedList** (`list.dfy`): the singly linked integer list of `list.c` as a
  class over `Node` objects. It has head, optional tail (the
  `LIST_DISABLE_TAIL` build switch is a constant field) and size. A ghost node
  sequence and a ghost content sequence describe it. Every operation is
  specified against the content sequence.
- **CircularStaq** (`staq.dfy`): the ring-buffer queue/stack of `staq.c` with
  its head/tail/`isEmpty` encoding. It is specified against the sequence of
  held values.
- **Partition** (`partition.dfy`): the static chunking of sources among
  threads in `brandes.c`.
- **Batches** (`batches.dfy`): the MPI batch arithmetic. It covers
  `BATCH_SIZE`, the batch end, the dispatch and sentinel loops, and per-rank
  inboxes and what a worker runs from its inbox.
- **FileNames** (`filenames.dfy`): `swapOrAddExtension`, identical in both
  drivers.
- **BrandesSpec** (`brandes_spec.dfy`): a reference semantics. The
  breadth-first search is written as functions over a value state (d, sigma,
  predecessor lists, visiting order). The dependency recurrence
  `delta[v] = sum over w with v in P[w] of sigma[v]/sigma[w] * (1 + delta[w])`
  follows the visiting order. Lemmas prove what the search establishes:
  levels, path counts, predecessor lists, closure, each node queued once.
- **Brandes** (`brandes.dfy`): the per-source pass as imperative code on
  arrays, each step proved against BrandesSpec. It covers the reset, the
  search with queue Q and stack S, the delta reset, the back-propagation and
  the updates of `cb`. It also covers the thread body and the summation of
  the thread slices.
- **SmallGraphs** (`small_graphs.dfy`): two worked graphs. On the single
  edge both nodes score 0. On the path 0 - 1 - 2 the middle node scores 1
  after halving and the ends score 0.
- **Drivers** (`drivers.dfy`): the sequential `main`, the MPI master and
  worker, and the reduction. Together these prove that every driver writes
  Brandes' betweenness.

The betweenness of w is `Betweenness(m, n, w)`, the sum over all sources s of
`Gain(m, n, s, w)`: the dependency of w on s, and 0 for s itself. Reals stand
for the program's doubles.

## Model

| member | source | states |
|---|---|---|
| DenseGraph.Graph.constructor | src/graph.c:13-23 | a fresh n-by-n matrix whose every cell is 0 |
| DenseGraph.Create | src/graph.c:7-24 | a null slot is left alone; otherwise the slot holds a fresh valid graph of n nodes with no edge, whatever m is |
| DenseGraph.PutEdge | src/graph.c:26-29 | a null graph is a no-op; otherwise exactly the directed cell (orig, dest) becomes 1 |
| DenseGraph.GetEdge | src/graph.c:31-36 | -1 exactly when there is no graph; otherwise the stored cell, which is 0 or 1 |
| DenseGraph.PutCell | src/graph.c:26-29 | defines the matrix after `adj[orig][dest] = 1`: cell (u, v) set to 1, every other cell as before; its requires keeps (u, v) inside the matrix (see "## Left out") |
| DenseGraph.LoadAll | src/bitanes2.c:96-100 | defines the matrix after loading the edge list front to back, both directions of each edge; ensures the result is still n by n |
| DenseGraph.PutCellOnlyChangesOneCell | src/graph.c:26-29 | setting (u, v) makes that cell 1, keeps the matrix square and changes no other cell |
| DenseGraph.PutCellIdempotent | src/graph.c:26-29 | putting the same edge twice equals putting it once |
| DenseGraph.PutCellIsDirected | src/graph.c:26-29 | one put sets orig to dest only, not the reverse cell |
| DenseGraph.LoadEdges | src/bitanes2.c:95-100 | after the loading loop the matrix is the old one with both directions of every listed edge set |
| DenseGraph.LoadAllBinary | src/bitanes2.c:95-100 | loading keeps every cell 0 or 1 |
| DenseGraph.LoadAllSymmetric | src/bitanes2.c:95-100 | loading both directions keeps a symmetric matrix symmetric |
| DenseGraph.LoadAllFromZero | src/bitanes2.c:89-100 | from the empty graph, cell (u, v) is 1 exactly when the edge list names u and v in either order |
| DenseGraph.LoadedGraphIsSymmetric | src/bitanes2.c:89-100 | the loaded graph is undirected (symmetric) and binary |
| LinkedList.List.constructor | src/list.c:42-52 | a new list is empty, with null head and tail and size 0 |
| LinkedList.List.IsEmpty | src/list.c:235-237 | true exactly when the list holds no element |
| LinkedList.List.Size | src/list.c:239-241 | the stored size is the number of elements |
| LinkedList.List.Front | src/list.c:159-161 | the first element |
| LinkedList.List.LastNode | src/list.c:167-172 | the tail-less walk stops at the last node |
| LinkedList.List.Back | src/list.c:163-174 | the last element, with or without the tail pointer |
| LinkedList.List.Get | src/list.c:176-184 | the element at position pos |
| LinkedList.List.PushBack | src/list.c:97-127 | contents become old contents followed by x; size grows by one; the list stays well formed |
| LinkedList.List.PopFront | src/list.c:129-142 | an empty list is unchanged; otherwise the first element is removed; an emptied list has null head and tail |
| LinkedList.List.PushFront | src/list.c:144-157 | contents become x followed by old contents; in a one-element list tail equals head |
| LinkedList.List.Locate | src/list.c:188-195 | the walk stops with curr the node before position pos (null at 0) and next the node at pos (null at the end) |
| LinkedList.List.Insert | src/list.c:186-220 | into an empty list: [x]; otherwise x lands at position pos, the rest keeps its order, and size grows by one |
| LinkedList.List.InsertLinked | src/list.c:187-209 | the non-empty branch splices x in at pos, keeping the chain well formed and the tail correct |
| LinkedList.List.Swap | src/list.c:222-233 | an empty list is unchanged; otherwise only the element at pos is replaced |
| LinkedList.List.CutAfter | src/list.c:70-89 | the walk keeps exactly the first min(n, size) nodes and elements and ends the chain there |
| LinkedList.List.Trim | src/list.c:69-95 | corrected trim: n = 0 destroys the list; n <= size keeps the first n elements; n > size leaves the list as it was |
| LinkedList.List.TrimAsWritten | src/list.c:69-95 | trim as written: for n > size the elements are kept but size is set to n, so the size no longer matches the contents |
| LinkedList.QueueRoundTrip | src/list.c:97-142 | pushBack twice, then front/popFront, yields the values in the order pushed (queue Q) |
| LinkedList.StackRoundTrip | src/list.c:129-161 | pushFront twice, then front/popFront, yields them reversed (stack S) |
| CircularStaq.Count | src/staq.c:74-75 | defines the number of held values, `(tail - head - 1) mod sizeP`, the distance that `dstaq_popFront`'s emptiness test and the push guard compare |
| CircularStaq.Held | src/staq.c:58-60 | defines the held values, front to back: the slots from head + 1 onwards, wrapping at sizeP, Count of them |
| CircularStaq.CountBounds | src/staq.c:56-78 | the ring holds at most size values; head == tail exactly when full; head + 1 == tail (mod sizeP) exactly when empty |
| CircularStaq.HeldPushBack | src/staq.c:56-64 | writing at tail and advancing it appends the value to the held sequence |
| CircularStaq.HeldPopFront | src/staq.c:69-78 | advancing head drops the first held value |
| CircularStaq.HeldPushFront | src/staq.c:83-91 | writing at head and stepping it back, wrapping at 0, prepends the value |
| CircularStaq.FrontSlot | src/staq.c:96-99 | the slot after head holds the first value |
| CircularStaq.BackSlot | src/staq.c:104-107 | the slot before tail, wrapping at 0, holds the last value |
| CircularStaq.Staq.constructor | src/staq.c:28-39 | sizeP = size + 1, head 0, tail 1, empty and not full, holding nothing |
| CircularStaq.Staq.FullIff | src/staq.c:56-62 | the push guard head != tail holds exactly when fewer than size values are held |
| CircularStaq.Staq.IsEmpty | src/staq.c:112-114 | the isEmpty flag is true exactly when nothing is held |
| CircularStaq.Staq.Front | src/staq.c:96-99 | the first held value when there is one |
| CircularStaq.Staq.Back | src/staq.c:104-107 | the last held value when there is one |
| CircularStaq.Staq.PushBack | src/staq.c:56-64 | if not full, x is appended, only slot tail is written and tail advances; if full, nothing changes |
| CircularStaq.Staq.PopFront | src/staq.c:69-78 | if not empty, the first value is dropped; isEmpty is then true exactly when nothing is left |
| CircularStaq.Staq.PushFront | src/staq.c:83-91 | if not full, x is prepended and head steps back with wrap-around; if full, nothing changes |
| CircularStaq.Staq.PushBackAll | src/staq.c:56-64 | pushing values into a ring with room for them all drops none |
| CircularStaq.Staq.PushFrontAll | src/staq.c:83-91 | pushing values onto the front of a ring with room for them all drops none: they sit in front of the old values, last pushed first |
| CircularStaq.QueueAndStackOrder | src/staq.c:56-107 | used as a queue, values come out in push order; used as a stack, reversed |
| Partition.ChunkStart | src/brandes.c:54-59 | defines thread t's first source: t * (chunkSize + 1) when t < chunkSizeRem, else t * chunkSize + chunkSizeRem |
| Partition.ChunkStop | src/brandes.c:54-61 | thread t stops where thread t + 1 starts; its chunk has chunkSize + 1 sources exactly when t < chunkSizeRem, else chunkSize |
| Partition.FirstChunk | src/brandes.c:54-56 | thread 0 starts at source 0 |
| Partition.ChunksAdjacent | src/brandes.c:54-61 | thread t + 1 starts chunkSize + 1 sources after thread t when t < chunkSizeRem, else chunkSize sources after |
| Partition.ChunksOrdered | src/brandes.c:54-61 | later threads start no earlier than earlier threads stop |
| Partition.ChunksDisjoint | src/brandes.c:54-61 | no source belongs to two threads |
| Partition.LastChunk | src/brandes.c:54-61 | with rem <= T the T chunks end at T * chunkSize + rem |
| Partition.OwnerRuns | src/brandes.c:54-61 | every source below T * chunkSize + rem is run by exactly one thread below T |
| Partition.BigChunksCount | src/brandes.c:54-61 | exactly min(T, rem) threads get the extra source |
| Batches.BatchEnd | src/bitanes2b.c:184 | a batch starting below n is non-empty, at most 100 long, ends at or before n, and is exactly 100 long unless it is the last |
| Batches.Starts | src/bitanes2b.c:135-139 | defines the values `taskCount` takes in the dispatch loop, 0, 100, 200, ... below n; ensures there are BatchCount(n) of them |
| Batches.BatchSends | src/bitanes2b.c:134-139 | defines the sends of the dispatch loop: the k-th goes to the rank of the k-th request and carries 100k; ensures one send per batch |
| Batches.Sentinels | src/bitanes2b.c:141-144 | defines the sentinel sends, (i, -1) for i = 1, ..., mpiTotal - 1; ensures mpiTotal - 1 of them, none for a single process |
| Batches.Inbox | src/bitanes2b.c:134-144 | defines what rank r receives at src/bitanes2b.c:173: the values of the sends addressed to r, in send order; ensures no more than were sent |
| Batches.StartsBelow | src/bitanes2b.c:135-139 | the k-th value the dispatch loop sends is 100k and lies below n |
| Batches.StartsTile | src/bitanes2b.c:135-139 | the batches start at 0, each ends where the next starts, and the last ends at n |
| Batches.StartsCover | src/bitanes2b.c:135-139 | every source lies in exactly one batch, batch x / 100 |
| Batches.Dispatch | src/bitanes2b.c:134-139 | the k-th request, from whichever worker asked, is answered with batch start 100k, for every batch below n |
| Batches.SendSentinels | src/bitanes2b.c:141-144 | one -1 goes to each rank 1, ..., mpiTotal - 1, in rank order |
| Batches.InboxAppend | src/bitanes2b.c:134-144 | what a rank receives from two rounds of sends is what it receives from each round, in order |
| Batches.OneSentinelEach | src/bitanes2b.c:141-144 | every worker rank receives exactly one -1 |
| Batches.BatchValuesNonneg | src/bitanes2b.c:135-139 | batch starts are never negative, so never taken for the sentinel |
| Batches.Received | src/bitanes2b.c:169-177 | the starts a worker runs are its messages before the first -1, none of them -1 |
| Batches.ReceivedStopsAtSentinel | src/bitanes2b.c:169-177 | in a well-formed inbox the worker stops at the first -1, having run only non-negative starts |
| Batches.ReceivedBeforeSentinel | src/bitanes2b.c:169-177 | starts followed by -1 are exactly what the worker runs, whatever comes after |
| Batches.WorkerInbox | src/bitanes2b.c:134-177 | each worker receives the batches answered to its own requests and then one -1, and runs exactly those batches |
| FileNames.Strnlen | src/bitanes2.c:31-37 | defines `strnlen(s, MAX_STR_SZ)` with MAX_STR_SZ = 256; ensures it is at most 256 and at most the length, and equals the length when below 256 |
| FileNames.LastDotFrom | src/bitanes2.c:37-44 | defines the backward scan from position i; ensures the result is -1 or a position at or below i holding '.', with no '.' above it up to i |
| FileNames.SwapOrAdd | src/bitanes2.c:33-54 | defines the new name: up to the last dot in range, then the extension; with no such dot, the name cut at strnlen(name, 256), '.', the extension. Its meaning is stated by SwapCase, AddCase, EndsWithExtension and SwapIdempotent |
| FileNames.LastDot | src/bitanes2.c:37-44 | the backward scan from strnlen(name, 256) stops at the last '.' at or below that position, or at -1 when there is none |
| FileNames.SwapCase | src/bitanes2.c:37-44 | with a dot in range, the result is the name through its last such dot followed by the extension |
| FileNames.AddCase | src/bitanes2.c:46-51 | with no dot in range, the result is the name cut at strnlen(name, 256), then '.', then the extension; for a name of at most 256 characters, the whole name |
| FileNames.EndsWithExtension | src/bitanes2.c:33-54 | the new name always ends with '.' and the extension |
| FileNames.SwapIdempotent | src/bitanes2.c:33-54 | swapping in a dot-free extension twice equals swapping once |
| FileNames.NoDotOverflows | src/bitanes2.c:46-51 | a dot-free 300-character name with "btw" gets 261 bytes but has 301 written |
| FileNames.IntendedFits | src/bitanes2.c:39-47 | a buffer sized by the full string lengths always holds the new name and its terminator |
| FileNames.FillSwap | src/bitanes2.c:39-41 | the dot branch's buffer holds the name through the dot, the extension and a terminator |
| FileNames.FillAdd | src/bitanes2.c:47-50 | the no-dot branch's buffer starts with the name up to strnlen(name, 256), '.', the extension and a terminator, with the '.' at strnlen(name, 256) |
| FileNames.SwapOrAddExtension | src/bitanes2.c:33-54 | the returned buffer starts with the new name of either branch followed by NUL (corrected allocation) |
| BrandesSpec.Init | src/brandes.c:68-73 | defines the state before the search: order [s], d[s] = 0 and -1 elsewhere, sigma[s] = 1 and 0 elsewhere, no predecessors; ensures n-long arrays |
| BrandesSpec.Discover | src/brandes.c:87-90 | defines the discovery of w: w appended to the order (queue Q) and d[w] = d[v] + 1; ensures n-long arrays |
| BrandesSpec.Accumulate | src/brandes.c:92-95 | defines the path-count update: sigma[w] gains sigma[v] and v is appended to P[w]; ensures n-long arrays |
| BrandesSpec.ScanFrom | src/bitanes2.c:139-153 | defines the scan of v's row from column w to n; ensures n-long arrays and that the order only grows at its end |
| BrandesSpec.Drive | src/brandes.c:78-97 | defines the queue loop: dequeue order[k], scan its row, go on until the queue is empty; ensures n-long arrays |
| BrandesSpec.Bfs | src/brandes.c:65-97 | defines the search from s: the queue loop from the initial state; ensures n-long arrays. Its meaning is stated by BfsEnqueuedOnce, BfsLevels, BfsCounts, BfsPreds and BfsClosed |
| BrandesSpec.ScanStep | src/bitanes2.c:139-151 | scanning one candidate neighbour only ever appends to the visiting order |
| BrandesSpec.ScanStepInv | src/bitanes2.c:139-151 | one scan step keeps the search invariant: levels, path counts, predecessor lists, and scanned rows closed |
| BrandesSpec.ScanFromInv | src/bitanes2.c:139-153 | scanning the whole row of the dequeued node keeps the search invariant |
| BrandesSpec.DriveInv | src/brandes.c:78-97 | running the queue loop to the end keeps the search invariant |
| BrandesSpec.TraceInv | src/brandes.c:78-97 | the state after k dequeues satisfies the invariant, and running on from it ends in the reference search |
| BrandesSpec.BfsInv | src/brandes.c:65-97 | the finished search satisfies the search invariant |
| BrandesSpec.BfsEnqueuedOnce | src/brandes.c:76-97 | each node is queued at most once, the source first; exactly the queued nodes have a distance; so Q and S never exceed n |
| BrandesSpec.BfsLevels | src/brandes.c:78-97 | the source is at distance 0 and nodes leave Q in nondecreasing distance |
| BrandesSpec.BfsCounts | src/brandes.c:68-95 | sigma[s] = 1; every reached node has sigma >= 1 (no division by zero), equal to the sum over its predecessors; unreached nodes keep d = -1, sigma = 0 and no predecessors |
| BrandesSpec.BfsPreds | src/brandes.c:92-95 | P[t] lists, each once, only neighbours of t one level closer to the source |
| BrandesSpec.BfsClosed | src/brandes.c:85-96 | every neighbour of a reached node is reached, at most one level further, and lists that node as a predecessor when exactly one level further |
| BrandesSpec.PredsEarlier | src/brandes.c:92-95 | every predecessor of a node was dequeued before it |
| BrandesSpec.BfsSettled | src/brandes.c:65-97 | the finished search meets everything the back-propagation relies on |
| BrandesSpec.Dep | src/brandes.c:102-111 | defines the dependency of the i-th visited node: what flows back to it from the nodes visited after it |
| BrandesSpec.DepFrom | src/brandes.c:102-111 | defines the sum, over the nodes visited from position j on, of x's share sigma[x] / sigma[w] * (1 + delta[w]) for each w that lists x as a predecessor; its meaning is stated by DepFromNonneg, DepIsTotal and DepFromUnvisited |
| BrandesSpec.Delta | src/brandes.c:99-115 | defines delta[w] after source s's back-propagation: w's dependency in the search from s |
| BrandesSpec.Portion | src/brandes.c:110 | a share sigma[v] / sigma[w] * (1 + delta[w]) is never negative |
| BrandesSpec.DepFromNonneg | src/brandes.c:102-115 | dependencies are never negative |
| BrandesSpec.DepIsTotal | src/brandes.c:102-115 | the dependency of a node is everything that flows back to it from the whole order, since it precedes all its successors |
| BrandesSpec.DepFromUnvisited | src/brandes.c:102-115 | a node the search never reached gets no dependency |
| BrandesSpec.PartialValues | src/brandes.c:106-111 | after draining c predecessors of w, exactly those predecessors have gained their shares |
| BrandesSpec.DrainStep | src/brandes.c:107-110 | draining one more predecessor adds its share and nothing else |
| BrandesSpec.PartialDone | src/brandes.c:106-111 | draining all of w's predecessors gives the next level of delta |
| BrandesSpec.CreditedValues | src/brandes.c:113-114 | after popping S down to position j, cb holds the dependencies of exactly the popped nodes other than the source |
| BrandesSpec.BackEnd | src/brandes.c:102-115 | once S is empty, every list is empty and cb gains each node's dependency except the source's |
| BrandesSpec.Gain | src/brandes.c:113-114 | defines what source s's pass adds to cb[w]: delta[w], and nothing for w = s |
| BrandesSpec.SumGain | src/brandes.c:64-115 | defines what the passes of sources lo..hi add to cb[w]: the sum of their gains |
| BrandesSpec.Betweenness | src/bitanes2.c:113-172 | defines the betweenness of w, the gain of w summed over every source, which is the cb[w] the sequential loop leaves |
| BrandesSpec.GainFacts | src/brandes.c:113-114 | a pass adds a nonnegative amount, nothing for the source and nothing for unreached nodes |
| BrandesSpec.SumGainStep | src/brandes.c:64 | one more source adds its gain to the running sum |
| BrandesSpec.SumGainNonneg | src/brandes.c:64-125 | accumulated betweenness is never negative |
| BrandesSpec.SumGainSplit | src/brandes.c:64-125 | summing two adjacent source ranges equals summing their union |
| BrandesSpec.SumGainSkipsOwn | src/brandes.c:113-114 | a node's own pass contributes nothing to it |
| Brandes.Rev | src/bitanes2.c:130 | the stack S read from the top: the visiting order reversed, position by position |
| Brandes.SearchPushCounts | src/bitanes2.c:114-150 | one pass pushes between 1 and n values onto Q and S, and at most n onto each P[t] |
| Brandes.QueueFitsStaq | src/bitanes2.c:9-18 | in the USE_STAQ build, a ring of n slots for Q (src/bitanes2.c:123) holds every value the search pushes, in order |
| Brandes.StackFitsStaq | src/bitanes2.c:9-18 | a ring of n slots for S (src/bitanes2.c:114) holds every pushed node, last pushed on top |
| Brandes.PredsFitStaq | src/bitanes2.c:9-18 | a ring of n slots for P[t] (src/bitanes2.c:116) holds every predecessor pushed, in order |
| Brandes.ResetState | src/brandes.c:65-73 | sigma, d and P hold the initial search state for source s |
| Brandes.DiscoverCell | src/brandes.c:87-90 | an undiscovered w is queued at distance d[v] + 1; a discovered one is left alone |
| Brandes.AccumulateCell | src/brandes.c:92-95 | a w one level below v gains sigma[v] paths and v as a predecessor; otherwise nothing changes |
| Brandes.ScanNeighbours | src/bitanes2.c:139-153 | the row scan of v leaves arrays and queue as the reference scan of v does |
| Brandes.Search | src/brandes.c:74-97 | the queue loop leaves sigma, d and P as the reference search, and S holds every reached node, the last dequeued on top |
| Brandes.ResetDelta | src/brandes.c:99-100 | every delta is 0 |
| Brandes.Credit | src/brandes.c:110 | only delta[v] changes, by sigma[v] / sigma[w] * (1 + delta[w]) |
| Brandes.Drain | src/brandes.c:106-111 | emptying P[w] turns delta from the level after w into the level at w, and empties only P[w] |
| Brandes.Pop | src/brandes.c:103-114 | one pop of S moves delta, P and cb one position down the order |
| Brandes.PopAll | src/brandes.c:102-115 | popping S to the end leaves delta at the full dependencies, all lists empty, and cb credited |
| Brandes.BackPropagate | src/brandes.c:102-115 | from zero deltas, delta[x] becomes x's dependency, all lists empty, and cb[base + x] gains it for every x but s; no other cell of cb changes |
| Brandes.Pass | src/brandes.c:65-115 | one source's pass: sigma and d as the reference search, delta the dependencies, every list empty, and cb[base + w] gains Gain(s, w) |
| Brandes.PassRow | src/brandes.c:65-115 | a pass adds the row of gains of s to the slice at base |
| Brandes.PassRows | src/brandes.c:64-125 | consecutive passes add their rows one after another |
| Brandes.RowSums | src/brandes.c:64-125 | adding the rows of sources lo..hi adds each node's summed gain over those sources in the slice, and nothing outside it |
| Brandes.RunSources | src/brandes.c:64-125 | running sources lo..hi adds to cb[base + w] the gain of w summed over those sources; no other cell changes |
| Brandes.BrandesThread | src/brandes.c:31-125 | thread tid adds to its slice cb[tid * n ..] the gains over its own chunk and leaves every other cell alone |
| Brandes.ThreadsCover | src/brandes.c:54-61 | the slices of the first T threads together hold the gains of sources 0..ChunkStart(T) |
| Brandes.ThreadsGiveBetweenness | src/brandes.c:113-114 | when the chunks cover all n sources, the slices sum to the betweenness |
| SmallGraphs.EdgeBetweenness | src/bitanes2.c:113-172 | on the one-edge graph of two nodes, both nodes have betweenness 0 |
| SmallGraphs.PathSearch0 | src/bitanes2.c:117-154 | from an end of the path 0 - 1 - 2 the search visits 0, 1, 2 at levels 0, 1, 2, one shortest path each, each node's predecessor the one before it |
| SmallGraphs.PathSearch1 | src/bitanes2.c:117-154 | from the middle the search visits 1, 0, 2; both ends are at level 1 with predecessor 1 |
| SmallGraphs.PathSearch2 | src/bitanes2.c:117-154 | from the other end the search visits 2, 1, 0 |
| SmallGraphs.PathDepsFrom0 | src/bitanes2.c:159-172 | from node 0, the middle node's dependency is 1 and the far end's is 0 |
| SmallGraphs.PathDepsFrom2 | src/bitanes2.c:159-172 | from node 2, the middle node's dependency is 1 and the far end's is 0 |
| SmallGraphs.PathDepsFromMiddle | src/bitanes2.c:159-172 | from the middle, both ends have dependency 0 |
| SmallGraphs.PathMiddleGains | src/bitanes2.c:170-171 | the middle node gains 1 from each end and nothing from itself |
| SmallGraphs.PathMiddle | src/bitanes2.c:113-172 | the middle node's betweenness is 2 |
| SmallGraphs.PathEnd0 | src/bitanes2.c:113-172 | node 0's betweenness is 0 |
| SmallGraphs.PathEnd2 | src/bitanes2.c:113-172 | node 2's betweenness is 0 |
| SmallGraphs.PathBetweenness | src/bitanes2.c:113-185 | the values written for the path are 0, 1 and 0 |
| Drivers.Loaded | src/bitanes2.c:89-100 | the loaded matrix is square, symmetric and binary |
| Drivers.BuildGraph | src/bitanes2.c:89-100 | creating the graph and putting both directions of each edge gives the loaded matrix |
| Drivers.ReadCString | src/bitanes2.c:79-84 | the output name read back from the buffer swapOrAddExtension returns, which `fopen` opens, stops at its first NUL and contains none |
| Drivers.SwapKeepsNoNul | src/bitanes2.c:33-54 | the new name of a NUL-free name is NUL-free |
| Drivers.OutputName | src/bitanes2.c:79 | the output name, read back as a C string, is the name with its extension swapped or added |
| Drivers.Halves | src/bitanes2.c:184-185 | the written values are the cb values halved |
| Drivers.Totals | src/bitanes2.c:112-182 | after the loop over all sources, cb[w] is the betweenness of w |
| Drivers.AllSources | src/bitanes2.c:89-185 | the values written are half the betweenness of each node of the loaded graph |
| Drivers.Sequential | src/bitanes2.c:56-185 | a wrong argument count gives the usage error; otherwise the output file is named after the input and holds n values, the halved betweenness of every node |
| Drivers.StartsTotal | src/bitanes2b.c:135-139 | summed over all the batches, a per-source quantity gives its total over all sources |
| Drivers.SpreadAll | src/bitanes2b.c:134-139 | what the workers get from the batch sends, added up, is the total over all the batch values sent |
| Drivers.WorkersRunWhatTheyAreSent | src/bitanes2b.c:141-177 | adding the sentinels changes no worker's total: each runs exactly its batches |
| Drivers.ReduceIsBetweenness | src/bitanes2b.c:252-254 | whichever workers asked for which batches, the reduced cb is the betweenness |
| Drivers.RunAllAt | src/bitanes2b.c:169-249 | after running a sequence of batch starts, cb[w] is w's gain summed over those batches |
| Drivers.RunBatch | src/bitanes2b.c:181-248 | a start below n adds the gains of sources start..BatchEnd(start); any other start adds nothing |
| Drivers.ServeBatches | src/bitanes2b.c:169-249 | the request loop runs, from zero, exactly the batches received before the first -1 |
| Drivers.Worker | src/bitanes2b.c:149-249 | a worker's cb[w] is w's gain summed over the batches it received |
| Drivers.Master | src/bitanes2b.c:100-147 | wrong argument count: usage error; one process: error; otherwise the output name, the batch answers then one -1 per worker, and an all-zero cb |

## Left out

- The graph file, `fscanf` parsing and `fprintf` output are not modelled. The node count and edge list are parameters. The written values are a sequence of reals, so `%lf` formatting is left out.
- Floating point is modelled as exact reals. Rounding, and the order dependence of floating-point sums, are not modelled.
- MPI transport is not modelled. The requests the master receives are a given sequence of ranks. A rank's inbox is the subsequence of sends addressed to it, so messages between two ranks keep their order. `MPI_Bcast` of the graph becomes every process loading the same edge list. `MPI_Reduce` is the sum of the workers' totals, and the master adds its all-zero cb.
- Thread creation and joining live in a caller that is not part of this model. The thread body and the summation of slices are modelled; scheduling is not, since the slices are disjoint.
- Allocation and freeing are not modelled: `malloc`, `calloc`, the per-pass list create/destroy, `graph_destroy`, `_list_destroy`, `dstaq_destroy` and the cleanup after `_err`. So the `P` array per batch and the freed-pointer bookkeeping are absent.
- `graph_getAdjacents` is not among the modelled files. Neighbour enumeration is the row scan `for w < n if graph_getEdge(v, w)` of `bitanes2.c`, lines 139-140, in increasing node order.
- The `#if 0` debug print block and the `ASSERT_CALL` error printing are not modelled. The failing `fopen` branches are not modelled either: no file I/O is modelled.
- `list.c` has three element types, the `lflist_*`/`slist_*` variants with string copying (`ASSIGN`, `DEALLOC`, `MAX_STR_SZ`), and debug aliases (`qsdlist_pushBack` and others). Only the integer list is modelled; the others have the same linking logic.
- The Brandes pass keeps Q, S and the predecessor lists as sequences. The List and Staq classes are verified separately. The List contracts equal those sequence operations. A Staq push on a full ring drops the value, so the Staq contracts equal them only while fewer than size values are held. The USE_STAQ build (src/bitanes2.c:9-18) gives each of Q, S and P[w] a ring of n slots (src/bitanes2.c:114, 116, 123). One pass pushes at most n values onto each ring (BrandesSpec.BfsEnqueuedOnce, BrandesSpec.BfsPreds), so nothing is dropped: Brandes.QueueFitsStaq, Brandes.StackFitsStaq and Brandes.PredsFitStaq. The rings are not threaded through the pass itself.
- Integer widths are not modelled: `int`/`unsigned` wrap-around and the signed/unsigned mixing in loop bounds are absent. Counts and path numbers are unbounded.
- DenseGraph.PutEdge, DenseGraph.GetEdge, DenseGraph.EdgesIn: node numbers must be below n. The source reads `orig` and `dest` with `fscanf` (src/bitanes2.c:96-99, src/bitanes2b.c:125-131) or receives them by broadcast (src/bitanes2b.c:156-160), checks neither, and indexes `adj` out of bounds otherwise (src/graph.c:28, 33). So the loaders (DenseGraph.LoadAll, Drivers.BuildGraph and the drivers) take edge lists within range.
- CircularStaq.Staq.constructor: requires size >= 1. `dstaq_create(0)` would give tail 1 in a ring of one slot, out of range.
- CircularStaq.Staq: the `isFull` field is never set by the source. The model keeps it false and uses the push guard `head != tail` as fullness.
- LinkedList.List.Front, LinkedList.List.Back, LinkedList.List.Get: require a non-empty list, and a position below size for Get. The source dereferences a null pointer otherwise.
- LinkedList.List.Insert, LinkedList.List.Swap: on a non-empty list they require pos <= size (Insert) or pos < size (Swap). The source's walk dereferences a null pointer past the end.
- Brandes.Credit: requires sigma[w] != 0. The pass only calls it for reached nodes, where sigma is at least 1 (BrandesSpec.BfsCounts). A C division by zero would give an infinity instead.
- Brandes.BrandesThread: requires ChunkStop(tid) <= n, that is, the caller's chunk sizes fit the graph.
- BrandesSpec.Drive: the reference search carries a guard that stops after n dequeues. That guard exists for termination; BrandesSpec.BfsEnqueuedOnce shows it never fires before the queue is empty.
- FileNames.SwapOrAddExtension: sizes its buffers by the full string lengths (the evidently intended allocation; see Findings). The no-dot branch still writes the '.' at strnlen(name, 256), as the source does, so a name longer than 256 characters is cut there. In the dot branch, `strnlen(extension, 256)` undercounts extensions longer than 256 characters. Both drivers pass "btw", so that case does not arise.
- Drivers.Master: computes the output name before the process-count check, as the source does. The master's file handles are not modelled.
- Drivers.Sequential, Drivers.Master: argv strings are taken as NUL-free sequences, and `argv[0]` appears only in the usage message.

## Findings

| source | as written | input that shows it | evidently intended | confidence | as-written member | corrected member |
|---|---|---|---|---|---|---|
| src/list.c:69-95 | `_list_trim` sets `size = n` after the walk even when n exceeds the number of elements | a list holding one element, trimmed to n = 3: one node remains but size is 3 | the header says that when the list is smaller than n nothing happens | not executed | LinkedList.List.TrimAsWritten | LinkedList.List.Trim |
| src/bitanes2.c:46-51 | the no-dot branch allocates `strnlen(name, 256) + strnlen(ext, 256) + 2` bytes but `strcpy`s the whole name and writes the extension after position strnlen(name, 256); the copy at src/bitanes2b.c:57-62 is the same | a dot-free name of 300 'a' characters with extension "btw": 261 bytes allocated, 301 written | a buffer of the full name length plus the extension plus 2, with the '.' still written at strnlen(name, 256) | not executed | FileNames.NoDotOverflows | FileNames.SwapOrAddExtension |
