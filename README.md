# AlgoVista core, modelled in Dafny

AlgoVista is a practice tracker with algorithm visualisers. This project
models the small deterministic algorithms inside its route handlers and
components. The pages, the network, the database and the animation are left
out. There are four groups.

- **Recommendation rules** (server).
  - `Recommend`: the fixed-priority selector of `GET /recommend`. It picks a
    random unsolved problem, the first open problem of the least practised
    topic, the first bookmark and the first open Hard problem, then keeps one
    entry per id.
  - `PromptRules`: the substring rule table of `POST /ai/recommend`.
- **Practice statistics** (client).
  - `Dashboard`: the current-streak walk and the total-solved count.
  - `ProblemStats`: the status counters.
  - `CalendarHeatmap`: the heat-map values and their intensity classes.
  - `Versions`: the version title filter and the note truncation.
- **Sorting.**
  - `BubbleSortAlgorithm` and `MergeSortAlgorithm`: the in-place sorts on a
    copied array. Both are proved against `SortSpec`, which shows that a
    sorted permutation is unique.
- **Graph and tree traversal.**
  - `Graph`: links, adjacency lists and reachability. Reachability is defined
    both by walks and by balls of growing radius.
  - `BreadthFirst`: the level-by-level BFS.
  - `DepthFirst`: the recursive DFS.
  - `TreeVisualizer`: `addNode`/`insert` on a class holding `root` and
    `counter`, and the three traversals over the first two children.

Shared pieces:

- `Common` holds `Option`, "no repetitions" and first-occurrence order.
- `Text` holds substring search and ASCII lower-casing.

Conventions:

- Dates are integer day numbers, and "today" is a parameter.
- The random index of the unsolved pick is a parameter `choice`.
- JavaScript values that may be missing are `Option`s.
- A handler that throws is modelled as a `None` result.

## Model

| member | source | states |
|---|---|---|
| PromptRules.Suggest | server/routes/ai.js:12-28 | A missing prompt makes `includes` throw, so there is no reply (`None`). Otherwise the graph, dp and tree blocks are concatenated in that order for whichever keywords occur. "LeetCode 1 – Two Sum" appears exactly when no rule fired, and then alone. There are between 1 and 5 entries. |
| PromptRules.CapitalisedKeywordFiresNothing | server/routes/ai.js:14-24 | Matching is case-sensitive: "Graph" and "DP Tree" fire no rule. |
| Text.ContainsIffOccurs | server/routes/ai.js:14 | `includes` holds exactly when the keyword occurs at some position of the prompt. |
| Text.Contains | server/routes/ai.js:14 | `includes` can hold only when the keyword is no longer than the prompt, and the empty keyword is always included. |
| Text.ToLower | client/src/pages/Versions.tsx:51 | Lower-casing keeps the length and maps each character on its own: `A`–`Z` to `a`–`z`, everything else unchanged. |
| Text.ToLowerIdempotent | client/src/pages/Versions.tsx:51 | Lower-casing twice is lower-casing once. |
| Recommend.Filter | server/routes/recommend.js:16-18 | A `filter` never returns more entries than it was given. |
| Recommend.LeastPracticedTopic | server/routes/recommend.js:20-27 | When a least practised topic exists, it is the topic of some solved problem. |
| Recommend.UniqueById | server/routes/recommend.js:59 | The `Map` never has more entries than the list it was built from. |
| Recommend.FilterMembers | server/routes/recommend.js:16-18 | A problem is in a status group exactly when it is in the list and passes the test. |
| Recommend.FindNone | server/routes/recommend.js:40-42 | `find` finds nothing exactly when no problem passes the test. |
| Recommend.FindIsFirst | server/routes/recommend.js:53-55 | What `find` returns is the first problem in input order that passes the test. |
| Recommend.FilterHeadIsFind | server/routes/recommend.js:47-48 | The first entry of a filter is what `find` with the same test returns. So `bookmarked[0]` is the first bookmark. |
| Recommend.CountOf | server/routes/recommend.js:21-24 | A topic's count is at most the number of solved problems, and it is at least one exactly when some solved problem has that topic. |
| Recommend.TopicCountsAreCounts | server/routes/recommend.js:21-24 | The finished `topicCount` has an entry for exactly the topics of the solved problems, a missing topic keyed "undefined". Each entry is the number of solved problems with that topic. |
| Recommend.CountTopics | server/routes/recommend.js:21-24 | The `forEach` loop builds the topic counts and the keys in order of first appearance. |
| Recommend.LeastTopic | server/routes/recommend.js:26-27 | The stable sort's head exists exactly when there are keys. It is a key whose count is no larger than any other. |
| Recommend.LeastTopicIsFirst | server/routes/recommend.js:26-27 | Ties go to the key that comes first. |
| Recommend.LeastPracticedTopicExists | server/routes/recommend.js:20-27 | A least practised topic exists exactly when some problem is solved. |
| Recommend.LeastPracticedTopicIsMinimal | server/routes/recommend.js:20-27 | The least practised topic has at least one solved problem, and its count is the minimum over all topics of solved problems. |
| Recommend.LeastPracticedTopicTiesGoFirst | server/routes/recommend.js:20-27 | Among topics with the minimum count, the one whose first solved problem comes first wins. |
| Recommend.UniqueByIdIds | server/routes/recommend.js:59 | The `Map` keeps each id once, in the order the ids were first set, and has no more entries than its input. |
| Recommend.UniqueByIdFromInputs | server/routes/recommend.js:59 | Every value kept was one of the inputs. |
| Recommend.UniqueByIdKeepsIds | server/routes/recommend.js:59 | Every input id survives, and the first input's id comes first. |
| Recommend.LaterValueWins | server/routes/recommend.js:59 | Setting an id again overwrites its value in place. |
| Recommend.UniqueKeepsEveryPick | server/routes/recommend.js:59 | When equal ids always carry equal problems, every input problem is kept. |
| Recommend.UnsolvedPickIsOpen | server/routes/recommend.js:33-36 | The random pick, when present, is a problem of the list that is not solved. |
| Recommend.LeastTopicPickIsOpen | server/routes/recommend.js:39-44 | The least-topic pick, when present, is a problem of the list that is not solved. |
| Recommend.BookmarkPickIsOpen | server/routes/recommend.js:47-50 | The bookmark pick, when present, is a problem of the list that is not solved. |
| Recommend.BookmarkPickIsFirst | server/routes/recommend.js:47-50 | The bookmark pick is the first bookmark in input order. |
| Recommend.PicksAreOpen | server/routes/recommend.js:30-56 | At most four problems are pushed, each from the list and none solved. |
| Recommend.PickRecommendations | server/routes/recommend.js:30-56 | The pushes build the four picks in priority order. The result has at most 4 entries, none solved. |
| Recommend.PushedIsPicks | server/routes/recommend.js:30-56 | The four conditional pushes give the picks in order. |
| Recommend.Recommend | server/routes/recommend.js:13-59 | An empty list gives `[]`. The result is the picks with repeated ids dropped: at most 4 entries, no id twice, none solved. It starts with the chosen unsolved problem when there is one. The least-topic pick, the first bookmark and the first open Hard problem are present by id whenever they exist. |
| Recommend.SelectionIsOpen | server/routes/recommend.js:30-59 | After de-duplication: at most 4 entries, no id twice, none solved. |
| Recommend.SelectionStartsWithUnsolvedPick | server/routes/recommend.js:33-36 | If any problem is unsolved, the first result is the chosen unsolved problem. |
| Recommend.PickIdsSurvive | server/routes/recommend.js:39-59 | The least-topic, bookmark and Hard picks keep their ids through de-duplication. |
| Recommend.NothingToRecommend | server/routes/recommend.js:13-59 | For any list whose problems are all solved and any random index, no pick is made, so the de-duplicated answer is empty. |
| Dashboard.FindByDate | client/src/pages/Dashboard.tsx:72 | `find` by date returns an entry of the list with that date. It returns nothing exactly when no entry has it. |
| Dashboard.FindByDateIsFirst | client/src/pages/Dashboard.tsx:72 | The entry found is the first one with that date: every entry before it has another date. |
| Dashboard.FirstEntryDecides | client/src/pages/Dashboard.tsx:72-82 | Only the first entry for a day is consulted: entries after it change nothing about that day. |
| Dashboard.ActiveDates | client/src/pages/Dashboard.tsx:79-88 | There are at most as many active dates as entries, and every active day is among them. |
| Dashboard.CountBack | client/src/pages/Dashboard.tsx:76-88 | From an active today, the loop counts back. Every counted day is active, and the first day not counted is missing or has a first entry that solved nothing. The walk ends with 1 ≤ streak ≤ the number of active dates. |
| Dashboard.CurrentStreak | client/src/pages/Dashboard.tsx:69-91 | The streak is the run of active days ending today, stopped at the first day that is not active. It is 0 when today is not active or the stats are absent or empty. It is at most the number of active dates, hence at most the number of entries. |
| Dashboard.SolvedKeysBound | client/src/pages/Dashboard.tsx:59-64 | There are at most as many distinct solved (contest, index) pairs as accepted submissions. |
| Dashboard.CodeforcesSolved | client/src/pages/Dashboard.tsx:59-64 | The `forEach` loop counts the distinct (contest, index) pairs of accepted submissions that name a problem, and the count is at most the number of those submissions. Missing submissions count as none. |
| Dashboard.TotalSolved | client/src/pages/Dashboard.tsx:55-66 | Total = easy + medium + hard, each missing value read as 0, plus the distinct Codeforces count. |
| ProblemStats.CountStatusIsPositions | client/src/components/dashboard/ProblemStats.tsx:15-16 | The `filter(...).length` count is the number of positions whose status is exactly the given string. |
| ProblemStats.DisjointStatusCounts | client/src/components/dashboard/ProblemStats.tsx:15-16 | The counts of two different statuses add up to at most the list length. |
| ProblemStats.Summarize | client/src/components/dashboard/ProblemStats.tsx:10-16 | A non-array input gives all zeros. Otherwise total is the length, and solved and bookmarked count exactly the positions with status "solved" and "bookmark". solved + bookmarked ≤ total. |
| CalendarHeatmap.Values | client/src/components/CalendarHeatmap.tsx:17-20 | There is one value per entry, in order, with the same date and count = solved. |
| CalendarHeatmap.ClassForValue | client/src/components/CalendarHeatmap.tsx:28-34 | The class is `color-empty` exactly when there is no value or its count is 0. |
| CalendarHeatmap.PositiveCountLevel | client/src/components/CalendarHeatmap.tsx:30-33 | For a count ≥ 1 the class is `color-github-` followed by min(count, 4). |
| CalendarHeatmap.NonPositiveCountClass | client/src/components/CalendarHeatmap.tsx:29-33 | A missing value or a count of 0 gives `color-empty`. A negative count gives `color-github-1`. |
| CalendarHeatmap.CellClassesFollowSolved | client/src/components/CalendarHeatmap.tsx:17-34 | The cell for an entry that solved at least one problem takes the class of min(solved, 4). |
| Versions.FilterVersions | client/src/pages/Versions.tsx:50-52 | A version is kept exactly when it is listed and its lower-cased title contains the lower-cased search. The result is no longer than the list. |
| Versions.FilterVersionsAppend | client/src/pages/Versions.tsx:50-52 | Filtering distributes over concatenation, so input order is kept. |
| Versions.EmptySearchKeepsAll | client/src/pages/Versions.tsx:50-52 | An empty search keeps every version. |
| Versions.SearchIgnoresCase | client/src/pages/Versions.tsx:51 | A search and its lower-cased form select the same versions. |
| Versions.ShownNote | client/src/pages/Versions.tsx:101-103 | A missing or empty note shows nothing. A note of at most 80 characters is shown unchanged. A longer note is shown as its first 80 characters plus "...", so a shown note has length ≤ 83. |
| SortSpec.SortedPermutationUnique | client/src/components/visualizers/utils/algorithms/bubbleSort.ts:12-25 | Two sorted sequences with the same multiset are equal. So both sorts return the same array, and a sorted input comes back unchanged. |
| BubbleSortAlgorithm.Swap | client/src/components/visualizers/utils/algorithms/bubbleSort.ts:20 | The swap exchanges positions j and j+1, changes nothing else and keeps the multiset. |
| BubbleSortAlgorithm.BubblePass | client/src/components/visualizers/utils/algorithms/bubbleSort.ts:13-24 | One inner pass permutes the unplaced prefix, leaves the suffix alone and carries the prefix's largest value to its last position. |
| BubbleSortAlgorithm.PassPlacesOneMore | client/src/components/visualizers/utils/algorithms/bubbleSort.ts:12-13 | After outer pass i, one more position at the end holds its final, largest value. |
| BubbleSortAlgorithm.AllPlaced | client/src/components/visualizers/utils/algorithms/bubbleSort.ts:12 | When at most one position is left unplaced, the array is sorted. |
| BubbleSortAlgorithm.BubbleSort | client/src/components/visualizers/utils/algorithms/bubbleSort.ts:9-25 | The result is sorted and is a permutation of the input. A sorted input comes back unchanged. The caller's array is a value and is not modified. |
| MergeSortAlgorithm.MergedPermutes | client/src/components/visualizers/utils/algorithms/mergeSort.ts:10-47 | The merge of two runs holds exactly their elements. |
| MergeSortAlgorithm.MergedSorted | client/src/components/visualizers/utils/algorithms/mergeSort.ts:10-47 | Merging two sorted runs gives a sorted run. |
| MergeSortAlgorithm.HeadStep | client/src/components/visualizers/utils/algorithms/mergeSort.ts:21-27 | On a tie (`<=`) the head of the left run goes first, otherwise the head of the right run. |
| MergeSortAlgorithm.MergeHeads | client/src/components/visualizers/utils/algorithms/mergeSort.ts:14-31 | The first loop writes the merge's prefix at `l..k` until one run is used up, and writes nothing else. |
| MergeSortAlgorithm.Drain | client/src/components/visualizers/utils/algorithms/mergeSort.ts:33-47 | A tail loop copies the rest of one run in order, and writes nothing else. |
| MergeSortAlgorithm.Merge | client/src/components/visualizers/utils/algorithms/mergeSort.ts:10-47 | `arr[l..r]` becomes the merge of the old halves, and every position outside `l..r` is unchanged. |
| MergeSortAlgorithm.Divide | client/src/components/visualizers/utils/algorithms/mergeSort.ts:50-56 | `arr[l..r]` ends sorted and a permutation of what it held, and nothing outside moves. Its termination measure `r - l` shrinks on both halves of the split at ⌊(l+r)/2⌋. |
| MergeSortAlgorithm.MergeHalves | client/src/components/visualizers/utils/algorithms/mergeSort.ts:53-55 | Merging the two sorted halves keeps the numbers of the whole range. |
| MergeSortAlgorithm.MergeSort | client/src/components/visualizers/utils/algorithms/mergeSort.ts:58-59 | The result is sorted and a permutation of the input, which is not modified. A sorted input comes back unchanged. |
| Graph.AddLink | client/src/components/visualizers/utils/bfs.ts:42-46 | Adding a link creates the lists of both endpoints and no other. |
| Graph.AddLinks | client/src/components/visualizers/utils/bfs.ts:31-47 | Adding links keeps every list that was already there. |
| Graph.AddLinksSpec | client/src/components/visualizers/utils/bfs.ts:41-46 | After the links are added, the list of `v` is its old list plus the other ends of the links at `v`, in link order. |
| Graph.AddLinksKeys | client/src/components/visualizers/utils/bfs.ts:42-43 | Adding links creates a list for every endpoint and for nothing else. |
| Graph.LinkedToJoins | client/src/components/visualizers/utils/bfs.ts:45-46 | `w` is listed under `v` exactly when some link joins them, in either direction. |
| Graph.AddLinksSymmetric | client/src/components/visualizers/utils/bfs.ts:45-46 | Starting from lists without edges, `w` is listed under `v` exactly when `v` is listed under `w`. |
| Graph.ReachableInBall | client/src/components/visualizers/utils/bfs.ts:62-100 | A node is reachable by a walk exactly when it lies in some ball around the start. |
| Graph.StableBallHoldsAll | client/src/components/visualizers/utils/bfs.ts:62 | Once a ball stops growing it holds every larger ball. |
| Graph.ClosedHoldsBalls | client/src/components/visualizers/utils/dfs.ts:70-73 | A set holding the start and closed under neighbours holds every ball. |
| BreadthFirst.LinkGraphSpec | client/src/components/visualizers/utils/bfs.ts:29-47 | The adjacency record has a list for exactly the endpoints. The list of `v` holds the other ends of the links at `v` in link order, and the lists are symmetric. |
| BreadthFirst.BuildAdjacency | client/src/components/visualizers/utils/bfs.ts:30-47 | The `forEach` loop with its create-then-push steps builds exactly that record. |
| BreadthFirst.FreshSpec | client/src/components/visualizers/utils/bfs.ts:84-87 | What the inner loop queues has no repetitions. It holds exactly the scanned neighbours not yet visited. |
| BreadthFirst.ExpandIsStep | client/src/components/visualizers/utils/bfs.ts:83-84 | The neighbour lists of a level, one after the other, hold exactly the nodes one step from the level. |
| BreadthFirst.TakeLevel | client/src/components/visualizers/utils/bfs.ts:63-70 | Shifting `levelSize` times moves the whole queue, in order, into the current level and empties the queue. |
| BreadthFirst.Absorb | client/src/components/visualizers/utils/bfs.ts:84-96 | Scanning one parent's list marks and queues each neighbour not yet visited or queued, in list order. |
| BreadthFirst.EnqueueNeighbours | client/src/components/visualizers/utils/bfs.ts:83-97 | The level's unvisited neighbours are queued in parent order, then list order, each once, and are marked visited. |
| BreadthFirst.Batch | client/src/components/visualizers/utils/bfs.ts:63-97 | One turn of the `while` loop: the level is the whole queue, and the new queue is its fresh neighbours. |
| BreadthFirst.ProgressStep | client/src/components/visualizers/utils/bfs.ts:62-100 | One batch preserves the loop invariant. After k batches, visited is the ball of radius k and the queue holds the sphere of radius k without repetition. Each earlier level is its sphere, and each level follows from the one before it. |
| BreadthFirst.BatchShrinks | client/src/components/visualizers/utils/bfs.ts:62 | Each batch marks a new node or empties the queue, so the loop ends. |
| BreadthFirst.Levels | client/src/components/visualizers/utils/bfs.ts:58-100 | The levels dequeued are, in order, the nodes at distance 0, 1, 2, …. No node is dequeued twice. The nodes dequeued are exactly those reachable from the start. Each level lists its nodes in parent order, then adjacency-list order. |
| BreadthFirst.RunBfs | client/src/components/visualizers/utils/bfs.ts:29-100 | No nodes gives no traversal. Otherwise the traversal starts from `nodes[0]` on the adjacency record of the links and has all the properties of `Levels`. |
| BreadthFirst.FinishedLevels | client/src/components/visualizers/utils/bfs.ts:62-100 | With the queue empty, the invariant gives the finished level structure. |
| BreadthFirst.LevelOfDistance | client/src/components/visualizers/utils/bfs.ts:63-70 | A node at distance exactly k is dequeued in level k. So all nodes at distance k come before any at distance k+1. |
| BreadthFirst.NothingBeyond | client/src/components/visualizers/utils/bfs.ts:62 | Once the queue is empty, no ball grows again. |
| DepthFirst.EmptyListsSpec | client/src/components/visualizers/utils/dfs.ts:35-38 | Every node id starts with an empty list, and nothing else has one. |
| DepthFirst.InitLists | client/src/components/visualizers/utils/dfs.ts:36-38 | The first loop builds exactly those empty lists. |
| DepthFirst.PresentEndpoints | client/src/components/visualizers/utils/dfs.ts:50-53 | The links that are not skipped have endpoints among the node ids. |
| DepthFirst.PushLinks | client/src/components/visualizers/utils/dfs.ts:40-54 | The link loop skips the links where an endpoint object has a `null` or `undefined` id, and pushes both directions for the others. |
| DepthFirst.BuildGraph | client/src/components/visualizers/utils/dfs.ts:35-54 | The two loops build the graph of the node ids and the present links. |
| DepthFirst.NodeGraphSpec | client/src/components/visualizers/utils/dfs.ts:35-54 | Every node id has a list and nothing else does. The list of `v` holds the other ends of the present links at `v` in link order, the lists are symmetric, and every neighbour is a node. |
| DepthFirst.NodeGraphKeys | client/src/components/visualizers/utils/dfs.ts:36-38 | The graph has a list for exactly the node ids. |
| DepthFirst.NodeGraphClosed | client/src/components/visualizers/utils/dfs.ts:50-53 | Every listed neighbour has a list of its own. |
| DepthFirst.Dfs | client/src/components/visualizers/utils/dfs.ts:58-76 | The call enters `node` first. It enters no node twice and no node visited before, since it marks a node before exploring and recurses only into unvisited neighbours. It adds exactly the entered nodes to the visited set. Every neighbour of an entered node ends up visited, and every entered node is reachable from `node`. The second node entered, if any, is the first unvisited neighbour in list order. |
| DepthFirst.FirstUnvisitedSnoc | client/src/components/visualizers/utils/dfs.ts:70-71 | Scanning one more neighbour changes the first unvisited neighbour only when there was none. |
| DepthFirst.EnteredAllReachable | client/src/components/visualizers/utils/dfs.ts:58-85 | A search from an empty visited set enters exactly the nodes reachable from the start. |
| DepthFirst.RunDfs | client/src/components/visualizers/utils/dfs.ts:35-85 | No nodes means nothing is visited. Otherwise the visit order starts at `nodes[0]`, repeats no node and holds exactly the nodes reachable from it. This needs every present endpoint to be a node id, because `graph[id].push` throws otherwise. |
| TreeVisualizer.DecimalRoundTrip | client/src/components/visualizers/TreeVisualizer.tsx:27-28 | Reading back the counter's decimal string gives the counter. |
| TreeVisualizer.DecimalInjective | client/src/components/visualizers/TreeVisualizer.tsx:27-28 | Different counters give different ids. |
| TreeVisualizer.FreshId | client/src/components/visualizers/TreeVisualizer.tsx:27-31 | The counter's next id is not among the ids it handed out before. |
| TreeVisualizer.InsertFindsParent | client/src/components/visualizers/TreeVisualizer.tsx:37-47 | `insert` succeeds exactly when a parent id is given and some node carries it. |
| TreeVisualizer.InsertAmongFindsParent | client/src/components/visualizers/TreeVisualizer.tsx:43 | `children.some(insert)` succeeds exactly when some child's subtree carries the parent id. |
| TreeVisualizer.Insert | client/src/components/visualizers/TreeVisualizer.tsx:37-44 | A successful insert needs a parent id, and the root keeps its id and name. |
| TreeVisualizer.InsertAddsOne | client/src/components/visualizers/TreeVisualizer.tsx:37-44 | A successful insert adds the new node's ids and no others: the multiset of ids grows by exactly them. |
| TreeVisualizer.InsertAmongAddsOne | client/src/components/visualizers/TreeVisualizer.tsx:43 | The same holds across a list of children. |
| TreeVisualizer.InsertUnderFirstMatch | client/src/components/visualizers/TreeVisualizer.tsx:37-44 | The node that receives the new node is the first in preorder with the parent id. In the new tree it has the new node as its last child, and its id, name and earlier children are unchanged. |
| TreeVisualizer.InsertUndone | client/src/components/visualizers/TreeVisualizer.tsx:37-44 | Removing the last child of the first node in preorder with the parent id gives back the original tree. So a successful insert appends the new node there, and every other node and every order of children is unchanged. |
| TreeVisualizer.InsertAmongUndone | client/src/components/visualizers/TreeVisualizer.tsx:43 | The same holds across a list of children: only the first subtree holding the parent id changes. |
| TreeVisualizer.FindIsPresent | client/src/components/visualizers/TreeVisualizer.tsx:38 | A node with id `x` is found exactly when `x` is an id of the tree. |
| TreeVisualizer.TreeEditor.constructor | client/src/components/visualizers/TreeVisualizer.tsx:19-21 | The editor starts with no root and the counter at 1. |
| TreeVisualizer.TreeEditor.AddNode | client/src/components/visualizers/TreeVisualizer.tsx:25-52 | The counter moves on by one on every call, even when insertion fails. With no root, the node with id and name equal to the counter becomes the root whatever `parentId` is. Otherwise the root becomes the insertion result, or is unchanged when no node has the parent id. Ids stay distinct and were all handed out by the counter. |
| TreeVisualizer.InsertKeepsIdsIssued | client/src/components/visualizers/TreeVisualizer.tsx:26-48 | Inserting the counter's node keeps the ids distinct, and all of them handed out by the counter. |
| TreeVisualizer.PreorderIsPrunedIds | client/src/components/visualizers/TreeVisualizer.tsx:137-143 | Preorder lists exactly the nodes of the tree pruned to its first two children, parents first. A third or later child is never visited. |
| TreeVisualizer.BinaryKeepsBinary | client/src/components/visualizers/TreeVisualizer.tsx:129-151 | When every node has at most two children, pruning changes nothing, so the traversals visit every node. |
| TreeVisualizer.InorderIds | client/src/components/visualizers/TreeVisualizer.tsx:129-135 | Inorder visits the root. |
| TreeVisualizer.PreorderIds | client/src/components/visualizers/TreeVisualizer.tsx:137-143 | Preorder visits the root first. |
| TreeVisualizer.PostorderIds | client/src/components/visualizers/TreeVisualizer.tsx:145-151 | Postorder visits the root last. |
| TreeVisualizer.OrderOf | client/src/components/visualizers/TreeVisualizer.tsx:152-167 | The lower-cased algorithm name picks inorder or preorder exactly when it is `inorder` or `preorder`. Every other name falls through to postorder. |
| TreeVisualizer.OrderOfIgnoresCase | client/src/components/visualizers/TreeVisualizer.tsx:167 | A name and its lower-cased form pick the same walk. |
| TreeVisualizer.PropNamesPickTheirWalks | client/src/components/visualizers/TreeVisualizer.tsx:13 | The prop values `Inorder`, `Preorder` and `Postorder` pick inorder, preorder and postorder. |
| TreeVisualizer.Traverse | client/src/components/visualizers/TreeVisualizer.tsx:114-156 | Without a root nothing is highlighted. Otherwise the chosen walk visits each node of the tree pruned to two children exactly once, and preorder visits them parents first. |
| TreeVisualizer.InorderVisitsBag | client/src/components/visualizers/TreeVisualizer.tsx:129-135 | Inorder visits each node of the pruned tree exactly as often as it occurs. |
| TreeVisualizer.PreorderVisitsBag | client/src/components/visualizers/TreeVisualizer.tsx:137-143 | Preorder visits each node of the pruned tree exactly as often as it occurs. |
| TreeVisualizer.PostorderVisitsBag | client/src/components/visualizers/TreeVisualizer.tsx:145-151 | Postorder visits each node of the pruned tree exactly as often as it occurs. |
| TreeVisualizer.TraversalsPermute | client/src/components/visualizers/TreeVisualizer.tsx:129-151 | The three traversals are permutations of one another. |
| TreeVisualizer.RootPositions | client/src/components/visualizers/TreeVisualizer.tsx:129-151 | Preorder emits the root first and postorder emits it last. Inorder emits the first child's walk, then the root, then the second child's walk. |
| TreeVisualizer.TraversalsIgnorePruning | client/src/components/visualizers/TreeVisualizer.tsx:129-151 | Pruning to the first two children changes none of the three walks. |

## Left out

- I/O, the database and the clock are not modelled.
  - `Problem.find`, `api.get`, the HTTP status codes, `console` logging and `localStorage` are out of scope.
  - The date is taken as a parameter, so `new Date().toISOString()` and `setDate` stepping, with their timezone and DST behaviour, are not modelled. The previous day is `d - 1`.
- `Math.random` is out. The unsolved pick takes a parameter `choice` below the number of unsolved problems.
- Drawing and timing are out: D3 and p5 drawing, transitions, `delay`/`setTimeout`, highlight colours, log strings, and the `setArray`/`setCurrentIndices`/`setExplanation` callbacks. The sorts return the final array. BFS returns the levels it dequeues, DFS its visit order, and a traversal the ids it highlights.
- The `svgRef` null guards at the start of `runBFS`/`runDFS` are not modelled. They only stop the drawing.
- Layout and floating-point code are out: tree layout and the graph force simulation.
- Deep-copying is not modelled separately. The tree is a value, so `structuredClone` followed by an in-place `push` is modelled as building a new tree. The old tree is unchanged by construction.
- Text is modelled as ASCII characters only. `toLowerCase` changes only `A`–`Z`, and Unicode case mapping and UTF-16 length are not modelled.
- The Codeforces key string `contestId-index` is modelled as the pair it is built from. This is the same as the string when contest ids are numbers.
- `Object.entries` lists integer-like keys first, in numeric order. The model keeps first-seen order for every key.
- Recommend.TopicCounts: `topicCount` is modelled as a map from topic name to count, so names inherited from `Object.prototype` are counted like any other topic. This also affects Recommend.LeastPracticedTopic. In the source, a `__proto__` topic is dropped from `Object.entries`. A topic such as `toString`, `valueOf` or `constructor` stores a string rather than a number, and that string compares as a tie in the sort. `TopicCountsAreCounts`, `LeastPracticedTopicIsMinimal` and `LeastPracticedTopicTiesGoFirst` hold for topic names that are not such inherited members.
- Numbers are mathematical integers. Fractional counts and overflow are not modelled.
- In BFS and DFS, link endpoints are ids. The node-object form d3 substitutes carries the same id.
- `maxStreak` is only read from storage and is not computed anywhere, so it is not modelled.
- BubbleSortAlgorithm.BubbleSort: the number of comparisons, n(n−1)/2, is not stated. Comparisons only pace the animation.
- MergeSortAlgorithm.Merge: stability is stated only as "ties take the left head" (`HeadStep`). The elements are bare numbers, so equal values cannot be told apart.
- DepthFirst.Dfs: the full visit order is stated only partly. It starts at the node, and the second node entered is the first unvisited neighbour. The set visited is exact, but the order after the first descent is not given as a closed form.
- DepthFirst.RunDfs: it requires every present endpoint to be a node id. Otherwise the source throws partway through building the graph, and the model has no partial graph for that case. An endpoint that is itself `null` or `undefined` also throws, when its `id` is read, and is likewise not represented. Only an endpoint object whose `id` is missing reaches the skip.
