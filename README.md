# Probabilistic search for a hidden target in a grid world

This project models, in Dafny, the core of a Python program in which an agent
searches a dim-by-dim maze for a hidden target. The agent does not know the
maze. It keeps a knowledge grid of what it has seen, plans routes on it with
A*, and walks them through the real maze. It keeps a belief, for every cell,
that the target is there, and uses it to choose where to go next. On the
cell it chooses it examines the terrain. Each terrain has its own false
negative rate, so an examination of the target's cell can fail.

The modules follow the source files:

- `Grid` (gridworld.dfy) models `gridworld.py`: cells, their status and
  terrain, row-major indices, the 4- and 8-neighbourhoods and the knowledge
  grid. A `GridWorld` keeps its cells in an `array2<Cell>`, and the setters
  the agents call on grid cells are methods that update that array in place.
- `AStar` (astar.dfy) models `astar_search.py`. Search nodes are copies of
  grid cells kept in an arena (a sequence). A node's parent is the arena
  index of the node it was pushed from. The fringe is a sequence of
  (priority, node) items, and a pop takes an item of least priority.
- `Belief` (belief.dfy) holds the belief arithmetic of the three agents:
  - agent 6's normalised rescaling;
  - `get_scalar`;
  - the one-cell update of agents 7 and 9;
  - the terrain confidences of agent 7.
- `Targeting` (targeting.dfy) holds the target selectors:
  - the breadth-first searches for a nearest cell of maximal belief, from
    `agent_6.py` and `agent_9.py`;
  - `get_potential_target`.
- `AgentSix`, `AgentSeven` and `AgentNine` (agent6.dfy, agent7.dfy,
  agent9.dfy) model the three agents. Each is a class whose methods update
  the knowledge grid, the belief array and, for agent 9, the maze.
  - Agent 7's state is the same as agent 6's, plus the confidence table.
  - Agent 9 holds an agent 7 and adds its examination count.

What is proved, in outline:

- Agent 6's belief stays a probability distribution after every update.
- Its retry loop ends: each unreachable target removes one positive belief.
- Its route so far is a 4-connected trail through open cells.
- A* returns a route exactly when one exists through cells not known to be
  Blocked. The route starts at the start, ends at the goal, repeats no cell
  and carries the scratch fields the source writes.
- Both target searches return a nearest cell of maximal belief.
- The walk of agents 7 and 9 updates exactly the belief entries of the cells
  it stepped on, and stops where the source stops.
- Agent 9's sensing, masking, repeated examination and target moves do
  exactly what the source does to belief, count and maze.
- Its `solve` examines at most five times per round. Each round reports
  'find goal' only with the agent on the target's cell, and between rounds
  the target moves to an open 8-neighbour.

The model follows the code as written, including these details:

- `update_f_g_h` is passed the parent's g unchanged (astar_search.py:43),
  so g stays the start's g and the search is greedy best-first on the
  Manhattan heuristic. The model proves what A* guarantees under that rule:
  it finds a route exactly when one exists, and the route is simple. It
  does not claim the route is shortest. A cell already in the fringe is
  pushed again, not updated.
- In agent 9's `breadth_first_search`, line 60 tests `queue.empty` without
  calling it. The loop that would collect the other nearest matches never
  runs, so the search returns only the first match, which is a nearest one.
  `Targeting.BreadthFirstSearch` returns at most one cell.
- Both breadth-first searches seed `visited` with `set(start)`, which is the
  set of the start's two coordinates, not the start. The start can
  therefore be enqueued again; the model keeps this and proves it harmless.
- Agent 6 compares beliefs with exact equality and agent 9 with
  `math.isclose`. Reals are exact here, so both are equality.

## Model

| member | source | states |
|---|---|---|
| Grid.Terrain.RateIndex | gridworld.py:13-16 | each surface terrain (Flat, Hilly, Forest) indexes one of the three false negative rates |
| Grid.Cell.UpdateFGH | gridworld.py:40-46 | sets g to the value given, h to the Manhattan distance to the goal and f to g + h, and changes nothing else |
| Grid.StatusPredicatesExclusive | gridworld.py:75-85 | each `is_*` test holds exactly for its status, so at most one holds |
| Grid.IndexRowMajor | gridworld.py:32 | the cell index is x * dim + y |
| Grid.IndexInRange | gridworld.py:32 | an in-bounds cell's index lies in [0, dim²) |
| Grid.IndexInjective | gridworld.py:32 | distinct in-bounds cells have distinct indices |
| Grid.PosOfIndex | agent_6.py:80 | the row-major decode that np.argwhere's positions follow: flat index k is the cell (k / dim, k % dim), which is in bounds and has index k, so it inverts the index |
| Grid.Neighbors4 | gridworld.py:157-171 | the neighbours are exactly the in-bounds cells at Manhattan distance 1, at most 4, without repeats, in N, E, S, W order |
| Grid.Diagonals | gridworld.py:176-187 | the extra neighbours are exactly the in-bounds cells one step away diagonally |
| Grid.Neighbors8 | gridworld.py:173-188 | the 4-neighbours come first, then the diagonals; together they are exactly the in-bounds cells at Chebyshev distance 1, without repeats |
| Grid.CheckArgs | gridworld.py:97-99 | fails with the density error exactly when a maze is requested without a density |
| Grid.GridWorld.Knowledge | gridworld.py:133-139 | every knowledge cell sits at its coordinates and is Unconfirmed, of Unknown terrain, unvisited, parentless, with zero g, h and f |
| Grid.GridWorld.GetCell | gridworld.py:150-155 | returns the cell at (x, y) exactly when it is in bounds; otherwise the x error if x is out of range, else the y error |
| Grid.GridWorld.GetNeighbors | gridworld.py:157-171 | returns the grid cells at the 4-neighbour positions, in their order |
| Grid.GridWorld.GetAllNeighbors | gridworld.py:173-188 | returns the grid cells at the 8-neighbour positions, in their order |
| Grid.GridWorld.SetStatus | gridworld.py:57-58 | only the status of cell (x, y) changes |
| Grid.GridWorld.SetTerrain | gridworld.py:63-64 | only the terrain of cell (x, y) changes |
| Grid.GridWorld.MarkVisited | agent_6.py:110 | only cell (x, y) changes, and it becomes visited |
| Grid.GridWorld.SetTarget | gridworld.py:147-148 | the grid names the given target |
| AStar.Chain | astar_search.py:13-18 | the parent chain ends at the node and begins at a parentless node |
| AStar.ChainShape | astar_search.py:13-18 | the chain reads nodes off the arena at increasing indices, each node's parent being the node before it |
| AStar.Backtrack | astar_search.py:13-18 | following parent links and prepending gives the chain, from the parentless start to the node |
| AStar.PopIndex | astar_search.py:27 | the item popped has the least priority in the fringe |
| AStar.Expand | astar_search.py:35-46 | every open neighbour not yet visited is pushed as a copy with the node's g, its heuristic and the node as parent (every new arena entry's parent is exactly the expanded node); what was in arena and fringe stays |
| AStar.ClosedHoldsWalk | astar_search.py:26-48 | when the fringe runs empty, every walk from the start stays in the visited set, so the goal is unreachable |
| AStar.ChainIsPlanned | astar_search.py:32-33 | the chain of the popped goal node is a planned path: from the start, to the goal, through open cells, with no repeated cell |
| AStar.AStarSearch | astar_search.py:20-48 | returns a path exactly when the goal is reachable through cells not Blocked, and the path is then a planned path; the grid is only read |
| Belief.Scale | agent_6.py:29-30 | every entry is multiplied by the scalar |
| Belief.Max | agent_6.py:49 | the maximum is one of the entries and no entry exceeds it |
| Belief.SumScale | agent_6.py:29-30 | scaling multiplies the sum by the scalar |
| Belief.PositiveCountZero | agent_6.py:146-148 | zeroing a positive entry leaves exactly one fewer positive entry |
| Belief.PositiveCountScale | agent_6.py:146-147 | a positive scalar keeps the number of positive entries |
| Belief.UniformSumsToOne | agent_6.py:26-27 | the uniform prior 1/dim² sums to one |
| Belief.MaxPositiveWhenNormalised | agent_6.py:49 | a non-negative belief that sums to one has a positive maximum |
| Belief.GetScalar | agent_6.py:93-99 | succeeds exactly for Blocked or Examine with a belief other than 1; it fails with the status error otherwise; the Blocked factor times (1 - p) is 1; the Examine factor times (1 - p) is 1 - fnr·p |
| Belief.NormalisedBlockedUpdate | agent_6.py:113-115 | rescaling by the Blocked factor and zeroing the cell keeps a distribution non-negative and summing to one |
| Belief.NormalisedExamineUpdate | agent_6.py:125-127 | rescaling by the Examine factor and setting the cell to p·fnr keeps a distribution non-negative and summing to one |
| Belief.Unnormalised | agent_9.py:35-44 | Blocked sets the cell to 0, Empty changes nothing, Examine multiplies it by the rate; any other status is an error; other cells keep their belief |
| Belief.UnnormalisedKeepsBounds | agent_9.py:35-44 | with a rate in [0, 1] the update keeps every belief non-negative, and zeros stay zero |
| Belief.UnnormalisedEntry | agent_9.py:35-44 | the updated entry lies between zero and its old value |
| Belief.UpdateUnnormalised | agent_9.py:35-44 | the array becomes exactly the updated belief; on the status error it is unchanged |
| Belief.Confidences | agent_7.py:12-13 | there is one confidence per rate, (1 - fnr) over the mean of the (1 - fnr); they sum to the number of rates and are non-negative |
| Belief.MeanComplementPositive | agent_7.py:12 | the mean of the (1 - fnr) is positive when every rate is at most 1 |
| Targeting.MaxIsAttained | agent_9.py:76-79 | some cell holds the maximal belief, so the selector's search has something to find |
| Targeting.MaxCells | agent_6.py:80 | the cells with maximal belief, in row-major order |
| Targeting.MaxCellsComplete | agent_6.py:80 | every cell with maximal belief is among them |
| Targeting.MinDist | agent_6.py:84-86 | the least Manhattan distance from the start to a candidate, attained by one of them |
| Targeting.AtDist | agent_6.py:86-87 | exactly the candidates at the given distance |
| Targeting.PotentialTargets | agent_6.py:79-91 | nonempty, and holds exactly the maximal cells nearest to the start |
| Targeting.PushNeighbors | agent_6.py:71-75 | enqueues each unseen neighbour once at distance + 1 and marks all of them seen |
| Targeting.PushNext | agent_6.py:73-75 | enqueues a neighbour at distance + 1 exactly when it is unseen, and marks it seen |
| Targeting.FreshMembers | agent_6.py:71-75 | the neighbours a pop enqueues are exactly those not yet seen |
| Targeting.FreshStep | agent_6.py:71-75 | handling one neighbour leaves the queue that the remaining neighbours will complete unchanged |
| Targeting.PopMin | agent_6.py:57 | pops an entry of least distance |
| Targeting.ExpandMin | agent_6.py:57-75 | popping a non-matching entry and enqueuing its unseen neighbours keeps the search invariant: every cell nearer than the frontier is done, and queued cells are at their true distance |
| Targeting.MatchFacts | agent_6.py:61-62 | the first matching entry popped is at its true distance, and no matching cell is nearer |
| Targeting.LayerMatches | agent_6.py:61-68 | when a popped entry matches, every other match at its distance still waits in the queue at that distance, so the inner loop collects them all |
| Targeting.EmptyMeansNoMatch | agent_9.py:54-72 | when the queue runs empty, no cell matches |
| Targeting.CollectNearestMax | agent_6.py:49-76 | the collected list is nonempty and holds exactly the maximal cells nearest to the start |
| Targeting.CollectLayer | agent_6.py:63-69 | after the first match, the rest of its distance layer adds exactly the other nearest matches |
| Targeting.GetTarget6 | agent_6.py:48-77 | the target returned is a nearest cell of maximal belief, one of `get_potential_target`'s candidates |
| Targeting.SortedAfterPop | agent_9.py:50-55 | the first-in first-out queue stays sorted by distance |
| Targeting.PopSorted | agent_9.py:55-71 | popping the front of the sorted queue and enqueuing the front's neighbours one step further keeps the queue sorted, and what remains of the old queue is its tail |
| Targeting.FirstMatchSpec | agent_9.py:54-66 | the first cell of a visit order that has the value, or none exactly when no cell of it does |
| Targeting.BfsStep | agent_9.py:67-71 | a pop keeps the queue in the grid, and marking its neighbours seen either changes nothing or leaves fewer unvisited cells, so the visit order is finite |
| Targeting.EnqueuedIn | agent_9.py:67-71 | neighbours enqueued from the grid stay in the grid |
| Targeting.FreshShrinks | agent_9.py:69-71 | marking neighbours seen either adds nothing or shrinks the set of unvisited cells |
| Targeting.BfsStart | agent_9.py:49-52 | the initial queue holding the start at distance 0 satisfies the search invariant, and the visit order from it is the whole visit order |
| Targeting.BfsFound | agent_9.py:57-59 | a matching cell at the head of the queue is nearest to the start among all matches |
| Targeting.BfsHit | agent_9.py:55-66 | a matching head of the queue is the first match in the first-in first-out visit order |
| Targeting.BfsVisit | agent_9.py:55-71 | popping a non-matching head and enqueuing its unseen N, E, S, W neighbours at distance + 1 keeps the queue sorted and the search invariant |
| Targeting.VisitShrinks | agent_9.py:69-71 | marking a cell's neighbours visited either changes nothing or leaves fewer unvisited cells, so the search loop ends |
| Targeting.BfsSkip | agent_9.py:55-71 | after such a pop, the rest of the visit order has the same first match |
| Targeting.BfsExhausted | agent_9.py:54-72 | when the queue runs empty, no cell matches and the visit order holds no match |
| Targeting.BreadthFirstSearch | agent_9.py:46-72 | at most one cell; empty exactly when no cell has the value; otherwise the first match in the first-in first-out visit order that expands N, E, S, W and re-enters the start, which is also a match nearest to the start |
| Targeting.GetTarget9 | agent_9.py:75-80 | always succeeds (the logic error is never raised), with the first cell of maximal belief in the breadth-first visit order, a nearest one |
| AgentSix.Slot | agent_6.py:113 | `belief[x][y]` is flat entry x * dim + y, within the array |
| AgentSix.SlotInjective | agent_6.py:113 | different cells have different belief entries |
| AgentSix.AfterBlocked | agent_6.py:113-115 | the Blocked cell's belief becomes 0, and a distribution stays a distribution |
| AgentSix.AfterExamine | agent_6.py:125-127 | the examined cell's belief becomes p·fnr, and a distribution stays a distribution |
| AgentSix.RetryShrinks | agent_6.py:146-148 | ruling out a maximal cell removes exactly one positive belief, so the retry loop ends |
| AgentSix.Visit | agent_6.py:109-118 | an unvisited knowledge cell becomes visited and Blocked or Empty as the maze says; a visited one stays as it is |
| AgentSix.TrailJoin | agent_6.py:153-154 | two 4-connected trails that meet join into one |
| AgentSix.PlannedWalk | agent_6.py:142 | a planned route starts at the agent's cell, is a 4-connected trail, stays in bounds and uses no known-Blocked cell |
| AgentSix.TrailExtend | agent_6.py:153-154 | appending the walked part of a route keeps the total path a trail from the start |
| AgentSix.ExamineCell | agent_6.py:101-102 | the examination only succeeds on the target, and only when its terrain's rate is below 1 |
| AgentSix.Agent6.constructor | agent_6.py:18-27 | a fresh, all-unconfirmed knowledge grid and the uniform belief 1/dim² |
| AgentSix.Agent6.UpdateBeliefState | agent_6.py:29-30 | every belief is multiplied by the scalar |
| AgentSix.Agent6.RuleOut | agent_6.py:113-115 | the belief becomes the Blocked update; it fails with a zero division, unchanged, when that cell's belief is 1 |
| AgentSix.Agent6.Lower | agent_6.py:125-127 | the belief becomes the failed-examine update; it fails with a zero division, unchanged, when that cell's belief is 1 |
| AgentSix.Agent6.StepOn | agent_6.py:107-118 | only the cell stepped on changes, as `Visit` says; it reports a hit exactly when that cell was unvisited and Blocked in the maze |
| AgentSix.Agent6.StepAlong | agent_6.py:106-118 | one turn of the walk loop extends what was walked by one cell |
| AgentSix.Agent6.WalkPath | agent_6.py:106-118 | walks until the first unvisited Blocked cell or the end of the route; the belief is untouched and every cell before the stop is open |
| AgentSix.Agent6.AfterWalk | agent_6.py:120-128 | on a hit, the agent stops on the predecessor and the Blocked update applies; otherwise it is on the last cell and the target was found there, or the failed-examine update applied |
| AgentSix.Agent6.Execute | agent_6.py:105-128 | the walk and its ending together, as `WalkPath` and `AfterWalk` state |
| AgentSix.Agent6.MarkBlocked | agent_6.py:149 | only the unreachable cell changes, and it becomes Blocked |
| AgentSix.Agent6.GiveUp | agent_6.py:146-149 | ruling out an unreachable maximal cell lowers the number of positive beliefs and marks it Blocked |
| AgentSix.Agent6.Route | agent_6.py:142 | a route exists exactly when the goal is reachable on the knowledge grid; it starts at the agent and avoids known-Blocked cells |
| AgentSix.Agent6.Plan | agent_6.py:137-149 | the retry loop ends, with a zero division or a route from the agent that ends at the cell get_target picks: a maximal-belief cell nearest to the agent, one of get_potential_target's candidates |
| AgentSix.Agent6.Round | agent_6.py:137-156 | the agent ends on an open cell of the route, and found means it stands on the target |
| AgentSix.Agent6.Solve | agent_6.py:130-162 | at most one examination per step; the agent stays on open cells; found means it is on the target; the total path is a 4-connected trail from the start through open cells |
| AgentSeven.Reveal | agent_7.py:36-44 | a walked path cell becomes visited, Blocked or Empty as the maze says, and takes the maze terrain when open |
| AgentSeven.Weighed | agent_7.py:25 | weighing the walked entries keeps the belief's length |
| AgentSeven.WeighedElsewhere | agent_7.py:25 | entries not walked keep their belief |
| AgentSeven.WeighedAt | agent_7.py:25 | each walked entry is weighed exactly once by its own confidence |
| AgentSeven.WeighedBounds | agent_7.py:25 | non-negative factors keep the belief non-negative and zeros zero |
| AgentSeven.BelowEndAt | agent_7.py:47-48 | no walked cell's weighed belief reached the route end's belief, cell by cell |
| AgentSeven.Agent7.constructor | agent_7.py:7-18 | belief 1 everywhere, a fresh knowledge grid, and confidences (1 - fnr)/mean summing to 3 |
| AgentSeven.Agent7.Revealed | agent_7.py:34-46 | the belief after walking onto the first n route cells has the belief's length |
| AgentSeven.Agent7.UpdateBeliefState | agent_9.py:35-44 | Blocked zeroes the cell, Empty does nothing, Examine multiplies by the terrain rate, and any other status is an error with nothing changed; only that cell changes |
| AgentSeven.Agent7.UpdateConfidence | agent_7.py:20-26 | the cell's belief is multiplied by its terrain confidence; it returns true, since the confidences are non-negative |
| AgentSeven.Agent7.Step | agent_7.py:36-48 | the copy is revealed; a Blocked cell's belief becomes 0; otherwise it is weighed; the walk stops when that belief is at least the route end's |
| AgentSeven.Agent7.Advance | agent_7.py:34-52 | one pass of the walk loop either ends the walk as `WalkEnded` says or continues with one more cell weighed |
| AgentSeven.Agent7.WalkEnds | agent_7.py:34-52 | where the walk ended, the belief is the walked cells weighed, with a Blocked one zeroed |
| AgentSeven.Agent7.Walk | agent_7.py:34-52 | stops on the first Blocked cell, the first cell whose belief reaches the end's, or the end; the belief is exactly the walked cells weighed, and the cells before are open |
| AgentSeven.Agent7.WalkFrom | agent_7.py:34-52 | the loop of the walk, from the first cell, ends as `WalkEnded` says |
| AgentSeven.Agent7.Inspect | agent_7.py:55-59 | found only on the target, belief untouched; otherwise the cell's belief is multiplied by its terrain's false negative rate |
| AgentSeven.Agent7.Execute | agent_7.py:33-59 | blocked exactly when the walk stopped on a Blocked cell, with the belief zeroed there; otherwise it examines where it stopped, as `Inspect` says |
| AgentNine.Checks | agent_9.py:153-159 | 2, 3 or 4 examinations on Flat, Hilly or Forest, and 1 otherwise |
| AgentNine.KeptIsNear | agent_9.py:136 | the mask keeps exactly the cells at Chebyshev distance at most 1 |
| AgentNine.AnyTarget | agent_9.py:84-87 | true exactly when some cell of the list is the Target |
| AgentNine.OpenCells | agent_9.py:93 | exactly the cells of the list that are not Blocked |
| AgentNine.MaskedTargetNear | agent_9.py:130-142 | the target picked on the masked belief is within one step of the agent |
| AgentNine.NearestMaxPositive | agent_9.py:204-208 | a nearest maximal cell other than the agent's has positive belief, so ruling it out shrinks the positive count |
| AgentNine.PlannedUnvisited | agent_9.py:104 | the route's copies are unvisited when no knowledge cell is visited |
| AgentNine.Agent9.constructor | agent_9.py:18-33 | agent 7's initial state (belief 1 everywhere, the confidences) with a count of zero |
| AgentNine.Agent9.PartialSensing | agent_9.py:82-87 | true exactly when the target is at Chebyshev distance 1 from the cell |
| AgentNine.Agent9.MoveTarget | agent_9.py:89-97 | the old Target cell becomes Empty and an open 8-neighbour becomes the Target, named by the maze; it fails with TargetStuck exactly when every 8-neighbour is Blocked; nothing else changes |
| AgentNine.Agent9.PickOpen | agent_9.py:93 | an open 8-neighbour, or none exactly when all are Blocked |
| AgentNine.Agent9.Vacate | agent_9.py:90-92 | only the Target cell changes, and it becomes Empty |
| AgentNine.Agent9.Occupy | agent_9.py:94-95 | only the new cell changes; it becomes the Target and the maze names it |
| AgentNine.Agent9.MaskedCopy | agent_9.py:130-140 | a fresh copy of the belief, 0 everywhere outside the 3×3 block around the cell and on the cell itself, equal to the belief inside the block |
| AgentNine.Agent9.MaskRow | agent_9.py:134-140 | one more row of the copy is masked |
| AgentNine.Agent9.MaskCell | agent_9.py:136-140 | one more cell of the copy is masked |
| AgentNine.Agent9.PotentialTarget | agent_9.py:130-142 | the potential target is the cell `get_target` picks on the masked belief (the first maximal cell in the breadth-first visit order, a nearest one), within one step |
| AgentNine.Agent9.HeadFor | agent_9.py:127-151 | moves toward the potential target's knowledge cell, with belief and count untouched |
| AgentNine.Agent9.HeadedConcluded | agent_9.py:127-151 | heading for the cell `get_target` picks ends the walk with 'move in potential target direction' on that cell's knowledge cell, with belief and count as they were |
| AgentNine.Agent9.ExamineRepeatedly | agent_9.py:152-174 | found on the target after fewer than `Checks` failures; otherwise `Checks` failures are counted and the cell's belief is multiplied once by its rate |
| AgentNine.Agent9.Conclude | agent_9.py:127-174 | heads for a potential target exactly when the target is sensed; otherwise examines as `ExamineRepeatedly` says |
| AgentNine.Agent9.WalkedOpen | agent_9.py:212 | the route cells added to the total path lie on open cells |
| AgentNine.Agent9.Execute | agent_9.py:99-174 | on a Blocked cell, the agent returns to the predecessor (the route end when there is none), with the walked beliefs weighed and that cell zeroed; otherwise it ends as `Conclude` says |
| AgentNine.Agent9.ExecutedLands | agent_9.py:99-174 | after `execute` the agent is in the grid, the count rose by at most 4, and found means the target is there |
| AgentNine.Agent9.BlockedLands | agent_9.py:104-113 | a walk stopped by a Blocked cell leaves the agent in the grid on open walked cells, with the count unchanged |
| AgentNine.Agent9.ConcludedLands | agent_9.py:114-174 | a walk that ends by heading on or examining leaves the agent in the grid on open walked cells, the count up by at most 4, and found only on the target's cell |
| AgentNine.Agent9.Land | agent_9.py:99-174 | after the walk of a round the state is valid and the outcome lands as `ExecutedLands` states |
| AgentNine.Agent9.RuleOut | agent_9.py:205-207 | the unreachable goal becomes Blocked in the knowledge grid and its belief 0; nothing else changes |
| AgentNine.Agent9.Plan | agent_9.py:183-208 | the retry loop ends, with a route from the agent through cells not known Blocked to the cell `get_target` picks (the first maximal cell in the breadth-first visit order, a nearest one), or with TargetStuck |
| AgentNine.Agent9.Route | agent_9.py:192 | a route exists exactly when the goal is reachable on the knowledge grid; it starts at the agent and ends at the goal |
| AgentNine.Agent9.Retry | agent_9.py:204-208 | ruling out the unreachable goal and moving the target lowers the number of positive beliefs |
| AgentNine.Agent9.Walked | agent_9.py:212 | the route cells 1 to count, none when count is below 1 |
| AgentNine.Agent9.Round | agent_9.py:183-214 | the count rises by at most 5; the cells added are open; found means the agent is on the target |
| AgentNine.Agent9.Take | agent_9.py:210-214 | after walking a planned route and counting an examined cell: the state is valid, the agent is in the grid, the cells added are open, the count rose by at most 5, and found means the agent is on the target |
| AgentNine.Agent9.CountExamined | agent_9.py:213-214 | the count rises by one exactly after 'find goal' or 'examine failed' |
| AgentNine.Agent9.Solve | agent_9.py:176-229 | the count is at most 5 per step and at least 1 when found; the total path lies on open cells; the state stays valid unless a stuck target ends the search |

## Left out

- graph.py, test.py and main_script.py are not part of this model. They hold plotting, experiment drivers and printing.
- `create_maze` (gridworld.py:110-131) is not modelled. It draws blocks, terrains and the target at random. Its guarantees are stated instead as `Grid.GridWorld.IsMaze`: the start is open, blocked terrain matches Blocked status, and exactly one cell is the Target.
- Randomness (`uniform`, `randrange`, `choice`) becomes a free choice (`:|`). The model proves what holds for every outcome, not the distributions.
- Floating point is modelled by exact reals. `math.isclose` and numpy equality are exact equality.
- A belief of 1 met by agent 6's rescale, where numpy would divide by zero and produce inf, becomes the error `ZeroDivision` and the `BeliefUndefined` status.
- Timing, `print`, `print_belief_state`, the debug flag and the `extra_*` counters of agent 9 are left out; they do not affect the search.
- `Agent7.solve` is not modelled. Agent 7 inherits agent 6's `solve`, whose retry rescales an unnormalised belief by 1/(1 - p). Agent 7's `execute` is modelled.
- The unused `density` parameter is kept only as a field.
- The Cell `set_parent` call at agent_9.py:149-150 is left out. It gives a knowledge cell a parent, which a later A* start copy would carry into `backtrack`. The model starts every A* from a parentless knowledge cell.
- AgentNine.Agent9.Route: agent_9.py:192 calls `astar_search` with the start's coordinates and a fourth argument, which the three-parameter function at astar_search.py:20 does not accept. The model calls A* from the agent's knowledge cell, as agent 6 does.
- Agent 7 and 9 call `examine` and `update_belief_state` with argument lists that differ from agent 6's definitions (agent_6.py:29, 101). As written, these calls raise TypeError: agent 7 inherits agent 6's one-argument `update_belief_state` and two-argument `examine`, so agent_7.py:40, 55 and 58 and agent_9.py:163 fail, and agent 7's `execute` never returns normally. The model uses agent 9's three-argument `update_belief_state` and an `examine` that reads the terrain from the maze cell.
- AStar.AStarSearch: does not state that the route is shortest, because the source never increments g and so does not search by path cost.
- AgentSeven.Agent7.constructor: requires rates in [0, 1] with a nonzero mean of 1 - fnr; the source divides by that mean without a check (agent_7.py:7-18).
- AgentNine.Agent9.constructor: requires the same nonzero sum of 1 - fnr, for the same unchecked division at agent_9.py:23-24.
- AgentSeven.Agent7.Walk: requires the route's cells to be distinct and unvisited, as every A* route from a fresh copy is. It does not model a route that revisits a cell.
- AgentSeven.Agent7.ConfAt gives confidence 1 to a cell without a surface terrain. Such a cell is never weighed, because a Blocked cell ends the walk first.
- AgentNine.Agent9.HeadFor: the agent moves to the potential target even when that cell is Blocked in the maze. The next round's route starts on that cell, so its walk finds it Blocked at once and, as agent_9.py:104-113 does, places the agent on the route's last cell with count -1 without walking the route. The model keeps both. Its statements about the agent standing on open cells cover the walked cells only.
- AgentNine.Agent9.MoveTarget: when every 8-neighbour of the target is Blocked, `choice` raises on the empty list. The model returns `TargetStuck` and `Solve` stops with that status.
- AgentNine.Agent9.Solve: does not state that the total path is a 4-connected trail, as agent 6's does. Moves toward a potential target may be diagonal and may skip cells, so the path is only shown to lie on open cells.
- AgentNine.Agent9.Solve: does not state where the agent ends. `solve` returns only the count, the total path and the status string, not the agent's cell. That 'find goal' leaves the agent on the target is proved per round, by `AgentNine.Agent9.Round` about its outcome's end cell. The move of the target after each round is `AgentNine.Agent9.MoveTarget`, which `Solve` calls directly.
