# Adversarial search for multi-agent Pacman, in Dafny

This project models the search layer of `multiAgents.py`: the three
depth-limited game-tree searches that choose Pacman's move against one or
more ghosts.

- **Plain minimax** (`MinimaxAgent.getAction`).
- **Minimax with alpha-beta pruning** (`AlphaBetaAgent.getAction`).
- **Expectimax** with uniformly random ghosts (`ExpectimaxAgent.getAction`).

All three share one recursion skeleton. A node is a leaf when the state is
won or lost, or when `depth` has reached the configured limit; its value is
then the evaluation function. A node whose mover has no legal action is also
a leaf. Pacman (agent 0) maximises and always hands the turn to agent 1 in
the same round. A ghost `i` hands the turn to `i + 1`, or back to Pacman
with `depth + 1` when `i + 1` is the number of agents. The root tries each
of Pacman's legal actions and searches the successor with
`(agent 1, depth 0)`.

The game is abstract. `GameModel.Game` holds the number of agents and four
total functions: legal actions, successor, win test and lose test.
`GameModel.Config` holds the evaluation function (integer valued) and the
depth limit. The searches are pure recursive functions over these.

- Python's `float('-inf')` and `float('inf')` become the extended integers
  of `ExtendedInts`.
- The `for` loops become left folds over the actions not yet visited.
- Expectimax values are exact reals.

Files:

- `ext_int.dfy`: extended integers and Python's two-argument `max`/`min`.
- `game.dfy`: the game interface and the agent rotation.
- `selection.dfy`: Python's `max(pairs, key=...)`.
- `minimax.dfy`, `alphabeta.dfy`, `expectimax.dfy`: the three searches.
- `examples_game.dfy`: a three-state game used as a worked example.

Main results:

- **Fail-soft window.** Alpha-beta's result is exact whenever the minimax
  value lies inside the window. Otherwise it lies between the violated bound
  and the minimax value. This holds for every window with
  `alpha <= beta`, which is wider than the usual `alpha < beta`. The source's
  strict cut tests (`v > beta`, `v < alpha`) let `alpha` climb up to `beta`
  inside a loop, so the induction needs the wider statement.
- **Same root action.** Alpha-beta's root action is exactly plain
  minimax's, and it is `None` exactly when Pacman has no legal action.
- **Expectimax dominates minimax.** Expectimax never values a state below
  minimax.

Two points about the code's behaviour:

- The two root tie-break rules look different but coincide.
  `max(..., key=...)` returns the first maximal pair. The alpha-beta root
  loop replaces its best action only on a strict improvement. Both
  therefore pick the first action with the maximal minimax value, and
  `AlphaBetaSearch.AlphaBetaActionAgrees` proves it.
- A game with a single agent is malformed. The code hard-codes agent 1 as
  the first ghost (multiAgents.py:176, 230, 300), so `Game.Valid` requires
  at least two agents.

## Model

| member | source | states |
|---|---|---|
| GameModel.NextTurn | multiAgents.py:185-188 | the next turn is a valid agent and comes exactly one ply later: `depth * numAgents + agent` goes up by one |
| GameModel.NextTurnWrapsExactlyAtLastGhost | multiAgents.py:242-245 | the depth goes up, and the turn returns to Pacman, exactly when the mover is the last ghost; otherwise the depth is unchanged |
| GameModel.PacmanHandsOffToFirstGhost | multiAgents.py:174-176 | with at least two agents, Pacman's hard-coded hand-off to agent 1 at the same depth is the rotation rule |
| GameModel.NextTurnStaysWithinLimit | multiAgents.py:310-313 | a node below the depth limit never passes a depth beyond the limit to its children |
| ExtendedInts.Max | multiAgents.py:176 | `max(v, x)` is an upper bound of both arguments and equal to one of them |
| ExtendedInts.Min | multiAgents.py:192 | `min(v, x)` is a lower bound of both arguments and equal to one of them |
| Selection.FirstMaxIndex | multiAgents.py:198 | `max(scores, key=...)` on a non-empty list returns the first position whose key is maximal: no key is larger, and every earlier key is strictly smaller |
| Selection.FirstMaxFrom | multiAgents.py:198 | resuming the scan from any prefix whose first maximum is known still ends at the first maximum of the whole list |
| MinimaxSearch.MaxLoop | multiAgents.py:168-177 | the Pacman-node loop yields a finite value once it has visited at least one child |
| MinimaxSearch.MinLoop | multiAgents.py:179-193 | the ghost-node loop yields a finite value once it has visited at least one child |
| MinimaxSearch.MaxLoopBounds | multiAgents.py:174-177 | the loop result is at least the starting value and every child's value, and equals one of them |
| MinimaxSearch.MinLoopBounds | multiAgents.py:190-193 | the loop result is at most the starting value and every child's value, and equals one of them |
| MinimaxSearch.MaxNodeValue | multiAgents.py:168-177 | a Pacman node's value is at least every child's value, and some legal action attains it |
| MinimaxSearch.MinNodeValue | multiAgents.py:179-193 | a ghost node's value is at most every child's value, and some legal action attains it |
| MinimaxSearch.MinimaxLeaf | multiAgents.py:159-172 | at a win, a loss, the depth limit, or a node whose mover has no legal action, the value is the evaluation of the state |
| MinimaxSearch.MinimaxAction | multiAgents.py:195-200 | the result is `None`, standing for the error `max` raises on an empty list, exactly when Pacman has no legal action; otherwise it is the first legal action whose minimax value is maximal |
| AlphaBetaSearch.MaxLoopFailSoft | multiAgents.py:228-234 | the pruned Pacman loop is a fail-soft answer, for its current window, to the unpruned loop |
| AlphaBetaSearch.MinLoopFailSoft | multiAgents.py:247-253 | the pruned ghost loop is a fail-soft answer, for its current window, to the unpruned loop |
| AlphaBetaSearch.AlphaBetaFailSoft | multiAgents.py:213-253 | for `alpha <= beta`: the result is exactly minimax when `alpha < minimax < beta`; it lies in `[minimax, alpha]` when `minimax <= alpha`; it lies in `[beta, minimax]` when `minimax >= beta` |
| AlphaBetaSearch.AlphaBetaIsMinimax | multiAgents.py:256-264 | with the window `(-inf, +inf)`, alpha-beta returns exactly the minimax value |
| AlphaBetaSearch.AlphaBetaLeaf | multiAgents.py:213-226 | at a leaf, or a node whose mover has no legal action, every window yields the evaluation |
| AlphaBetaSearch.AlphaBetaAction | multiAgents.py:255-270 | the root returns `None` exactly when Pacman has no legal action, and otherwise one of Pacman's legal actions |
| AlphaBetaSearch.RootLoopAgrees | multiAgents.py:262-268 | the root loop keeps `alpha` equal to the best value so far, and its best action is the first maximal one among those seen |
| AlphaBetaSearch.AlphaBetaActionAgrees | multiAgents.py:255-270 | pruning never changes the decision: the alpha-beta root returns exactly the action plain minimax returns, and returns `None` exactly where minimax fails for want of a legal action |
| AlphaBetaSearch.MaxStepCut | multiAgents.py:231-232 | a beta cut-off returns a value between beta and the true maximum |
| AlphaBetaSearch.MinStepCut | multiAgents.py:250-251 | an alpha cut-off returns a value between the true minimum and alpha |
| ExpectimaxSearch.ChanceLoopIsWeightedSum | multiAgents.py:315-317 | accumulating `v += p * child` adds `p` times the sum of the children's values |
| ExpectimaxSearch.ChanceNodeIsAverage | multiAgents.py:303-318 | a chance node's value is the sum of its children's values divided by the number of legal actions |
| ExpectimaxSearch.ChanceNodeAtLeast | multiAgents.py:309-318 | a lower bound on all children is a lower bound on the chance node |
| ExpectimaxSearch.ChanceNodeAtMost | multiAgents.py:309-318 | an upper bound on all children is an upper bound on the chance node |
| ExpectimaxSearch.LeastChild | multiAgents.py:315-317 | the smallest ghost child: no child is smaller, and some legal action reaches it |
| ExpectimaxSearch.GreatestChild | multiAgents.py:315-317 | the largest ghost child: no child is larger, and some legal action reaches it |
| ExpectimaxSearch.ChanceNodeBetween | multiAgents.py:303-318 | a chance node's value lies between its smallest and its largest child: some child is at most the value and some child is at least it |
| ExpectimaxSearch.MaxLoopBounds | multiAgents.py:298-301 | the Pacman-node loop's result is at least its start and every child's value, and equals one of them |
| ExpectimaxSearch.MaxNodeValue | multiAgents.py:292-301 | a Pacman node's expectimax value is at least every child's value, and some legal action attains it |
| ExpectimaxSearch.ExpectimaxLeaf | multiAgents.py:283-296 | at a leaf, or a node whose mover has no legal action, the value is the evaluation of the state |
| ExpectimaxSearch.MinimaxBelowExpectimax | multiAgents.py:287-290 | replacing the ghosts' minimum by a uniform average never lowers a state's value: minimax <= expectimax |
| ExpectimaxSearch.ExpectimaxAction | multiAgents.py:320-325 | the result is `None`, standing for the error `max` raises on an empty list, exactly when Pacman has no legal action; otherwise it is the first legal action whose expectimax value is maximal |
| CoinFlipGhost.MinimaxTakesWorstCase | multiAgents.py:179-193 | a ghost with outcomes worth 0 and 10 is valued 0 by minimax |
| CoinFlipGhost.ExpectimaxTakesMean | multiAgents.py:303-318 | the same ghost is valued 5, the mean, by expectimax |
| CoinFlipGhost.CorneredGhostIsLeaf | multiAgents.py:181-183 | a ghost with no legal move makes its node a leaf for all three searches |

## Left out

- `ReflexAgent.getAction` is not modelled: it breaks ties with `random.choice`, which is nondeterministic.
- `ReflexAgent.evaluationFunction`, `betterEvaluationFunction` and `scoreEvaluationFunction` are not modelled. They are floating-point heuristics over grid, food, ghost and capsule accessors that belong to the game module. The evaluation is an arbitrary integer-valued parameter `Config.eval`.
- `MultiAgentSearchAgent.__init__` is not modelled: it looks up the evaluation function by name and parses the depth from a string. The depth limit is a natural-number parameter `Config.limit`.
- `util`, `game.Agent` and `Directions` are not part of this model.
- Floating point is not modelled. Evaluations are integers, and expectimax uses exact reals, so `p = 1.0 / n` and `v += p * child` carry no rounding.
- ExpectimaxSearch.MaxLoop starts its running maximum at the first child's value instead of at `float('-inf')`. The two agree because `max(-inf, x)` is `x`. Minimax and alpha-beta keep the infinite start value.
- MinimaxSearch.MinimaxAction and ExpectimaxSearch.ExpectimaxAction return `None` where the source's `max` raises `ValueError` on an empty list. The model does not distinguish that error from alpha-beta's ordinary `None` return.
- The number of agents is fixed per game rather than read from each state. The source asks every state, but the game keeps it constant.
- A depth above the limit is excluded by precondition. The source would never stop on it, because it only tests `depth == self.depth`.
- The number of nodes each search visits is not modelled, so the model does not state that pruning visits fewer nodes.
