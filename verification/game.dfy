/**
  The abstract turn-based game the search runs over, and the turn
  bookkeeping shared by all three search variants.

  The game state is opaque: the search only asks it for the legal actions
  of an agent, the successor after an action, and whether the game is won
  or lost. Agent 0 is Pacman (the maximiser); agents 1 .. numAgents-1 are
  the ghosts, who move in increasing order. One round (every agent moves
  once) is one unit of search depth.
 */
module GameModel {

  datatype Option<T> = None | Some(value: T)

  datatype Game<!S, !A> = Game(
    numAgents: nat,
    legal: (S, nat) -> seq<A>,
    succ: (S, nat, A) -> S,
    isWin: S -> bool,
    isLose: S -> bool)
  {
    /** Pacman's nodes always hand the turn to agent 1, so a game needs a ghost */
    predicate Valid() {
      numAgents >= 2
    }
  }

  /** What a search agent is configured with: the evaluation function and the depth limit */
  datatype Config<!S> = Config(eval: S -> int, limit: nat)

  /** The leaf test every search variant makes before expanding a node */
  predicate Cutoff<S, A>(g: Game<S, A>, c: Config<S>, depth: nat, s: S) {
    g.isWin(s) || g.isLose(s) || depth == c.limit
  }

  /** Whose turn it is, and how many full rounds have been searched */
  datatype Turn = Turn(agent: nat, depth: nat)

  /** Position of a turn in the global order of plies */
  function Ply<S, A>(g: Game<S, A>, t: Turn): nat {
    t.depth * g.numAgents + t.agent
  }

  /**
    The ghost-node rotation: after agent `agent` comes `agent + 1`, except
    that the last ghost hands back to Pacman and a new round begins.
   */
  function NextTurn<S, A>(g: Game<S, A>, agent: nat, depth: nat): (t: Turn)
    requires agent < g.numAgents
    ensures t.agent < g.numAgents
    ensures Ply(g, t) == Ply(g, Turn(agent, depth)) + 1
  {
    if agent + 1 == g.numAgents then Turn(0, depth + 1) else Turn(agent + 1, depth)
  }

  /**
    A turn is determined by its ply: together with `t.agent < numAgents`,
    the ply equation of NextTurn pins the successor turn down, so the
    depth grows exactly when the rotation wraps back to Pacman.
   */
  lemma NextTurnWrapsExactlyAtLastGhost<S, A>(g: Game<S, A>, agent: nat, depth: nat)
    requires agent < g.numAgents
    ensures NextTurn(g, agent, depth).depth == depth + 1 <==> agent + 1 == g.numAgents
    ensures NextTurn(g, agent, depth).depth == depth <==> agent + 1 < g.numAgents
    ensures NextTurn(g, agent, depth).agent == 0 <==> agent + 1 == g.numAgents
  {
  }

  /** The hard-coded hand-off from Pacman to agent 1 is the rotation rule itself */
  lemma PacmanHandsOffToFirstGhost<S, A>(g: Game<S, A>, depth: nat)
    requires g.Valid()
    ensures NextTurn(g, 0, depth) == Turn(1, depth)
  {
  }

  /** From below the depth limit, one ply never overshoots the limit */
  lemma NextTurnStaysWithinLimit<S, A>(g: Game<S, A>, agent: nat, depth: nat, limit: nat)
    requires agent < g.numAgents && depth < limit
    ensures NextTurn(g, agent, depth).depth <= limit
  {
  }
}
