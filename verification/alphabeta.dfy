/**
  Minimax with alpha-beta pruning (`AlphaBetaAgent.getAction`), with the
  source's strict cut tests: a Pacman node stops as soon as its running
  maximum exceeds beta, a ghost node as soon as its running minimum falls
  below alpha. The main result is that pruning never changes the answer:
  the value is fail-soft with respect to the minimax value, and the root
  picks the same action as plain minimax.
 */
module AlphaBetaSearch {
  import opened ExtendedInts
  import opened GameModel
  import opened Selection
  import M = MinimaxSearch

  /** `alphabeta(agentIndex, depth, gameState, alpha, beta)` */
  function AlphaBeta<S, A>(g: Game<S, A>, c: Config<S>, agent: nat, depth: nat, s: S, alpha: Ext, beta: Ext): int
    requires g.Valid() && agent < g.numAgents && depth <= c.limit
    decreases c.limit - depth, g.numAgents - agent, 1, 0
  {
    if Cutoff(g, c, depth, s) then c.eval(s)
    else if agent == 0 then
      var acts := g.legal(s, 0);
      if acts == [] then c.eval(s) else MaxLoop(g, c, depth, s, acts, alpha, beta, NegInf)
    else
      var acts := g.legal(s, agent);
      if acts == [] then c.eval(s) else MinLoop(g, c, agent, depth, s, acts, alpha, beta, PosInf)
  }

  /** The loop of `max_value`: raise `alpha` to the running maximum, stop once it exceeds `beta` */
  function MaxLoop<S, A>(g: Game<S, A>, c: Config<S>, depth: nat, s: S, rest: seq<A>,
                         alpha: Ext, beta: Ext, v: Ext): int
    requires g.Valid() && depth < c.limit && v != PosInf
    requires rest != [] || v.Fin?
    decreases c.limit - depth, g.numAgents, 0, |rest|
  {
    if rest == [] then v.n
    else
      var v' := Max(v, Fin(AlphaBeta(g, c, 1, depth, g.succ(s, 0, rest[0]), alpha, beta)));
      if beta.Lt(v') then v'.n
      else MaxLoop(g, c, depth, s, rest[1..], Max(alpha, v'), beta, v')
  }

  /** The loop of `min_value`: lower `beta` to the running minimum, stop once it falls below `alpha` */
  function MinLoop<S, A>(g: Game<S, A>, c: Config<S>, agent: nat, depth: nat, s: S, rest: seq<A>,
                         alpha: Ext, beta: Ext, v: Ext): int
    requires g.Valid() && agent < g.numAgents && depth < c.limit && v != NegInf
    requires rest != [] || v.Fin?
    decreases c.limit - depth, g.numAgents - agent, 0, |rest|
  {
    if rest == [] then v.n
    else
      var t := NextTurn(g, agent, depth);
      var v' := Min(v, Fin(AlphaBeta(g, c, t.agent, t.depth, g.succ(s, agent, rest[0]), alpha, beta)));
      if v'.Lt(alpha) then v'.n
      else MinLoop(g, c, agent, depth, s, rest[1..], alpha, Min(beta, v'), v')
  }

  /**
    `r` is a fail-soft answer for the true value `m` searched with window
    [a, b]: exact inside the window, and on the correct side of the
    violated bound (but no further out than `m`) outside it.
   */
  predicate FailSoft(a: Ext, b: Ext, m: Ext, r: Ext) {
    (m.Lt(a) ==> m.Le(r) && r.Le(a)) &&
    (b.Lt(m) ==> b.Le(r) && r.Le(m)) &&
    (a.Le(m) && m.Le(b) ==> r == m)
  }

  /** One child of a Pacman node made the running maximum exceed beta */
  lemma MaxStepCut(al: Ext, b: Ext, v: Ext, m: Ext, r: Ext, rest: Ext)
    requires v.Le(al) && al.Le(b) && m.Fin? && r.Fin?
    requires FailSoft(al, b, m, r)
    requires b.Lt(Max(v, r))
    ensures FailSoft(al, b, Max(Max(v, m), rest), Max(v, r))
  {
  }

  /** One child of a Pacman node left the running maximum within beta */
  lemma MaxStepContinue(al: Ext, b: Ext, v: Ext, m: Ext, r: Ext, rest: Ext, res: Ext)
    requires v.Le(al) && al.Le(b) && m.Fin? && r.Fin?
    requires FailSoft(al, b, m, r)
    requires !b.Lt(Max(v, r))
    requires FailSoft(Max(al, Max(v, r)), b, Max(Max(v, r), rest), res)
    ensures FailSoft(al, b, Max(Max(v, m), rest), res)
  {
  }

  /** One child of a ghost node made the running minimum fall below alpha */
  lemma MinStepCut(a: Ext, be: Ext, v: Ext, m: Ext, r: Ext, rest: Ext)
    requires a.Le(be) && be.Le(v) && m.Fin? && r.Fin?
    requires FailSoft(a, be, m, r)
    requires Min(v, r).Lt(a)
    ensures FailSoft(a, be, Min(Min(v, m), rest), Min(v, r))
  {
  }

  /** One child of a ghost node left the running minimum at or above alpha */
  lemma MinStepContinue(a: Ext, be: Ext, v: Ext, m: Ext, r: Ext, rest: Ext, res: Ext)
    requires a.Le(be) && be.Le(v) && m.Fin? && r.Fin?
    requires FailSoft(a, be, m, r)
    requires !Min(v, r).Lt(a)
    requires FailSoft(a, Min(be, Min(v, r)), Min(Min(v, r), rest), res)
    ensures FailSoft(a, be, Min(Min(v, m), rest), res)
  {
  }

  /** The pruned max loop is a fail-soft answer for the unpruned one, for its current window */
  lemma {:induction false} MaxLoopFailSoft<S, A>(g: Game<S, A>, c: Config<S>, depth: nat, s: S, rest: seq<A>,
                                                 alpha: Ext, beta: Ext, v: Ext)
    requires g.Valid() && depth < c.limit && v != PosInf
    requires rest != [] || v.Fin?
    requires v.Le(alpha) && alpha.Le(beta)
    ensures FailSoft(alpha, beta, M.MaxLoop(g, c, depth, s, rest, v), Fin(MaxLoop(g, c, depth, s, rest, alpha, beta, v)))
    decreases c.limit - depth, g.numAgents, 0, |rest|
  {
    if rest != [] {
      var child := g.succ(s, 0, rest[0]);
      var m := Fin(M.Minimax(g, c, 1, depth, child));
      var r := Fin(AlphaBeta(g, c, 1, depth, child, alpha, beta));
      AlphaBetaFailSoft(g, c, 1, depth, child, alpha, beta);
      var tail := M.MaxLoop(g, c, depth, s, rest[1..], NegInf);
      M.MaxLoopShift(g, c, depth, s, rest[1..], Max(v, m));
      M.MaxLoopShift(g, c, depth, s, rest[1..], Max(v, r));
      var v' := Max(v, r);
      assert M.MaxLoop(g, c, depth, s, rest, v) == M.MaxLoop(g, c, depth, s, rest[1..], Max(v, m));
      if beta.Lt(v') {
        MaxStepCut(alpha, beta, v, m, r, tail);
      } else {
        assert MaxLoop(g, c, depth, s, rest, alpha, beta, v) == MaxLoop(g, c, depth, s, rest[1..], Max(alpha, v'), beta, v');
        MaxLoopFailSoft(g, c, depth, s, rest[1..], Max(alpha, v'), beta, v');
        MaxStepContinue(alpha, beta, v, m, r, tail, Fin(MaxLoop(g, c, depth, s, rest[1..], Max(alpha, v'), beta, v')));
      }
    }
  }

  /** The pruned min loop is a fail-soft answer for the unpruned one, for its current window */
  lemma {:induction false} MinLoopFailSoft<S, A>(g: Game<S, A>, c: Config<S>, agent: nat, depth: nat, s: S, rest: seq<A>,
                                                 alpha: Ext, beta: Ext, v: Ext)
    requires g.Valid() && agent < g.numAgents && depth < c.limit && v != NegInf
    requires rest != [] || v.Fin?
    requires alpha.Le(beta) && beta.Le(v)
    ensures FailSoft(alpha, beta, M.MinLoop(g, c, agent, depth, s, rest, v), Fin(MinLoop(g, c, agent, depth, s, rest, alpha, beta, v)))
    decreases c.limit - depth, g.numAgents - agent, 0, |rest|
  {
    if rest != [] {
      var t := NextTurn(g, agent, depth);
      var child := g.succ(s, agent, rest[0]);
      var m := Fin(M.Minimax(g, c, t.agent, t.depth, child));
      var r := Fin(AlphaBeta(g, c, t.agent, t.depth, child, alpha, beta));
      AlphaBetaFailSoft(g, c, t.agent, t.depth, child, alpha, beta);
      var tail := M.MinLoop(g, c, agent, depth, s, rest[1..], PosInf);
      M.MinLoopShift(g, c, agent, depth, s, rest[1..], Min(v, m));
      M.MinLoopShift(g, c, agent, depth, s, rest[1..], Min(v, r));
      var v' := Min(v, r);
      assert M.MinLoop(g, c, agent, depth, s, rest, v) == M.MinLoop(g, c, agent, depth, s, rest[1..], Min(v, m));
      if v'.Lt(alpha) {
        MinStepCut(alpha, beta, v, m, r, tail);
      } else {
        assert MinLoop(g, c, agent, depth, s, rest, alpha, beta, v) == MinLoop(g, c, agent, depth, s, rest[1..], alpha, Min(beta, v'), v');
        MinLoopFailSoft(g, c, agent, depth, s, rest[1..], alpha, Min(beta, v'), v');
        MinStepContinue(alpha, beta, v, m, r, tail, Fin(MinLoop(g, c, agent, depth, s, rest[1..], alpha, Min(beta, v'), v')));
      }
    }
  }

  /**
    The fail-soft window property of `alphabeta`, for every window with
    alpha <= beta (the strict cut tests let alpha climb up to beta).
   */
  lemma {:induction false} AlphaBetaFailSoft<S, A>(g: Game<S, A>, c: Config<S>, agent: nat, depth: nat, s: S,
                                                   alpha: Ext, beta: Ext)
    requires g.Valid() && agent < g.numAgents && depth <= c.limit
    requires alpha.Le(beta)
    ensures var m := Fin(M.Minimax(g, c, agent, depth, s));
            var r := Fin(AlphaBeta(g, c, agent, depth, s, alpha, beta));
            (alpha.Lt(m) && m.Lt(beta) ==> r == m) &&
            (m.Le(alpha) ==> m.Le(r) && r.Le(alpha)) &&
            (beta.Le(m) ==> beta.Le(r) && r.Le(m))
    decreases c.limit - depth, g.numAgents - agent, 1, 0
  {
    if !Cutoff(g, c, depth, s) {
      if agent == 0 {
        var acts := g.legal(s, 0);
        if acts != [] {
          MaxLoopFailSoft(g, c, depth, s, acts, alpha, beta, NegInf);
        }
      } else {
        var acts := g.legal(s, agent);
        if acts != [] {
          MinLoopFailSoft(g, c, agent, depth, s, acts, alpha, beta, PosInf);
        }
      }
    }
  }

  /** With the initial window (-inf, +inf), alpha-beta computes exactly the minimax value */
  lemma AlphaBetaIsMinimax<S, A>(g: Game<S, A>, c: Config<S>, agent: nat, depth: nat, s: S)
    requires g.Valid() && agent < g.numAgents && depth <= c.limit
    ensures AlphaBeta(g, c, agent, depth, s, NegInf, PosInf) == M.Minimax(g, c, agent, depth, s)
  {
    AlphaBetaFailSoft(g, c, agent, depth, s, NegInf, PosInf);
  }

  /** Leaves: at a cutoff, or when the mover has no legal action, every window yields the evaluation */
  lemma AlphaBetaLeaf<S, A>(g: Game<S, A>, c: Config<S>, agent: nat, depth: nat, s: S, alpha: Ext, beta: Ext)
    requires g.Valid() && agent < g.numAgents && depth <= c.limit
    requires Cutoff(g, c, depth, s) || g.legal(s, agent) == []
    ensures AlphaBeta(g, c, agent, depth, s, alpha, beta) == c.eval(s)
  {
  }

  /**
    The root loop of `AlphaBetaAgent.getAction` from the `i`-th legal
    action on: each child is searched with window (alpha, +inf), and the
    best action changes only on a strict improvement.
   */
  function RootLoop<S, A>(g: Game<S, A>, c: Config<S>, s: S, acts: seq<A>, i: nat,
                          alpha: Ext, v: Ext, best: Option<A>): Option<A>
    requires g.Valid() && i <= |acts|
    decreases |acts| - i
  {
    if i == |acts| then best
    else
      var newV := Fin(AlphaBeta(g, c, 1, 0, g.succ(s, 0, acts[i]), alpha, PosInf));
      var v' := if v.Lt(newV) then newV else v;
      var best' := if v.Lt(newV) then Some(acts[i]) else best;
      RootLoop(g, c, s, acts, i + 1, Max(alpha, v'), v', best')
  }

  /** `AlphaBetaAgent.getAction`: None when Pacman has no legal action */
  function AlphaBetaAction<S, A>(g: Game<S, A>, c: Config<S>, s: S): (r: Option<A>)
    requires g.Valid()
    ensures r.None? <==> g.legal(s, 0) == []
    ensures r.Some? ==> r.value in g.legal(s, 0)
  {
    RootLoopAgrees(g, c, s, 0, NegInf, None, 0);
    RootLoop(g, c, s, g.legal(s, 0), 0, NegInf, NegInf, None)
  }

  /**
    Invariant of the root loop: alpha equals the running best value, which
    is the minimax value of the first maximal action among those seen.
   */
  lemma {:induction false} RootLoopAgrees<S, A>(g: Game<S, A>, c: Config<S>, s: S, i: nat,
                                                v: Ext, best: Option<A>, k: nat)
    requires g.Valid() && i <= |g.legal(s, 0)|
    requires i == 0 ==> v == NegInf && best == None
    requires i > 0 ==> FirstMaxOfPrefix(M.RootKeys(g, c, s), i, k) && best == Some(g.legal(s, 0)[k]) &&
                       v == Fin(M.Minimax(g, c, 1, 0, g.succ(s, 0, g.legal(s, 0)[k])))
    ensures var r := RootLoop(g, c, s, g.legal(s, 0), i, v, v, best);
            if g.legal(s, 0) == [] then r == None
            else exists j: nat :: IsFirstMax(M.RootKeys(g, c, s), j) && r == Some(g.legal(s, 0)[j])
    decreases |g.legal(s, 0)| - i
  {
    var acts := g.legal(s, 0);
    var keys := M.RootKeys(g, c, s);
    if i < |acts| {
      var child := g.succ(s, 0, acts[i]);
      var m := M.Minimax(g, c, 1, 0, child);
      var newV := Fin(AlphaBeta(g, c, 1, 0, child, v, PosInf));
      AlphaBetaFailSoft(g, c, 1, 0, child, v, PosInf);
      if v.Lt(newV) {
        assert newV == Fin(m);
        RootLoopAgrees(g, c, s, i + 1, newV, Some(acts[i]), i);
      } else {
        assert keys[i] <= keys[k];
        RootLoopAgrees(g, c, s, i + 1, v, best, k);
      }
    } else if i > 0 {
      assert FirstMaxOfPrefix(keys, |keys|, k);
    }
  }

  /**
    Pruning never changes the chosen action: alpha-beta returns exactly
    the action plain minimax returns. Both are None exactly when Pacman
    has no legal action: alpha-beta returns None there, minimax fails.
   */
  lemma AlphaBetaActionAgrees<S, A>(g: Game<S, A>, c: Config<S>, s: S)
    requires g.Valid()
    ensures AlphaBetaAction(g, c, s) == M.MinimaxAction(g, c, s)
  {
    var acts := g.legal(s, 0);
    RootLoopAgrees(g, c, s, 0, NegInf, None, 0);
    if acts != [] {
      var keys := M.RootKeys(g, c, s);
      var j: nat :| IsFirstMax(keys, j) && AlphaBetaAction(g, c, s) == Some(acts[j]);
      var i: nat :| IsFirstMax(keys, i) && M.MinimaxAction(g, c, s) == Some(acts[i]);
      FirstMaxUnique(keys, |keys|, i, j);
    }
  }
}
