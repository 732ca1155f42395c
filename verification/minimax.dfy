/**
  Plain depth-limited minimax (`MinimaxAgent.getAction`): Pacman's nodes
  take the maximum and ghost nodes the minimum of their children, each
  fold starting from an infinite sentinel exactly as the source's loops do.
 */
module MinimaxSearch {
  import opened ExtendedInts
  import opened GameModel
  import opened Selection

  /** The value of `s` when it is `agent`'s turn after `depth` full rounds */
  function Minimax<S, A>(g: Game<S, A>, c: Config<S>, agent: nat, depth: nat, s: S): int
    requires g.Valid() && agent < g.numAgents && depth <= c.limit
    decreases c.limit - depth, g.numAgents - agent, 1, 0
  {
    if Cutoff(g, c, depth, s) then c.eval(s)
    else if agent == 0 then
      var acts := g.legal(s, 0);
      if acts == [] then c.eval(s) else MaxLoop(g, c, depth, s, acts, NegInf).n
    else
      var acts := g.legal(s, agent);
      if acts == [] then c.eval(s) else MinLoop(g, c, agent, depth, s, acts, PosInf).n
  }

  /** Value of Pacman's move `a` in `s`: the first ghost moves next, in the same round */
  function PacmanChild<S, A>(g: Game<S, A>, c: Config<S>, depth: nat, s: S, a: A): int
    requires g.Valid() && depth < c.limit
    decreases c.limit - depth, g.numAgents, 0, 0
  {
    Minimax(g, c, 1, depth, g.succ(s, 0, a))
  }

  /** Value of ghost `agent`'s move `a` in `s`: the next agent in the rotation moves next */
  function GhostChild<S, A>(g: Game<S, A>, c: Config<S>, agent: nat, depth: nat, s: S, a: A): int
    requires g.Valid() && agent < g.numAgents && depth < c.limit
    decreases c.limit - depth, g.numAgents - agent, 0, 0
  {
    var t := NextTurn(g, agent, depth);
    Minimax(g, c, t.agent, t.depth, g.succ(s, agent, a))
  }

  /** The loop of `max_value` over the actions not yet visited, with running maximum `v` */
  function MaxLoop<S, A>(g: Game<S, A>, c: Config<S>, depth: nat, s: S, rest: seq<A>, v: Ext): (r: Ext)
    requires g.Valid() && depth < c.limit && v != PosInf
    ensures rest != [] || v.Fin? ==> r.Fin?
    decreases c.limit - depth, g.numAgents, 0, |rest|
  {
    if rest == [] then v
    else MaxLoop(g, c, depth, s, rest[1..], Max(v, Fin(PacmanChild(g, c, depth, s, rest[0]))))
  }

  /** The loop of `min_value` over the actions not yet visited, with running minimum `v` */
  function MinLoop<S, A>(g: Game<S, A>, c: Config<S>, agent: nat, depth: nat, s: S, rest: seq<A>, v: Ext): (r: Ext)
    requires g.Valid() && agent < g.numAgents && depth < c.limit && v != NegInf
    ensures rest != [] || v.Fin? ==> r.Fin?
    decreases c.limit - depth, g.numAgents - agent, 0, |rest|
  {
    if rest == [] then v
    else MinLoop(g, c, agent, depth, s, rest[1..], Min(v, Fin(GhostChild(g, c, agent, depth, s, rest[0]))))
  }

  /** The max loop's result bounds its start value and every child, and is one of them */
  lemma {:induction false} MaxLoopBounds<S, A>(g: Game<S, A>, c: Config<S>, depth: nat, s: S, rest: seq<A>, v: Ext)
    requires g.Valid() && depth < c.limit && v != PosInf
    ensures v.Le(MaxLoop(g, c, depth, s, rest, v))
    ensures forall a :: a in rest ==> Fin(PacmanChild(g, c, depth, s, a)).Le(MaxLoop(g, c, depth, s, rest, v))
    ensures MaxLoop(g, c, depth, s, rest, v) == v ||
            exists a :: a in rest && MaxLoop(g, c, depth, s, rest, v) == Fin(PacmanChild(g, c, depth, s, a))
    decreases |rest|
  {
    if rest != [] {
      var v' := Max(v, Fin(PacmanChild(g, c, depth, s, rest[0])));
      MaxLoopBounds(g, c, depth, s, rest[1..], v');
      var r := MaxLoop(g, c, depth, s, rest, v);
      LeTotalOrder(v, v', r);
      LeTotalOrder(Fin(PacmanChild(g, c, depth, s, rest[0])), v', r);
      forall a | a in rest
        ensures Fin(PacmanChild(g, c, depth, s, a)).Le(r)
      {
        if a != rest[0] {
          assert a in rest[1..];
        }
      }
      assert rest[0] in rest;
      if r != v' {
        var a :| a in rest[1..] && r == Fin(PacmanChild(g, c, depth, s, a));
        assert a in rest;
      }
    }
  }

  /** The min loop's result is below its start value and every child, and is one of them */
  lemma {:induction false} MinLoopBounds<S, A>(g: Game<S, A>, c: Config<S>, agent: nat, depth: nat, s: S, rest: seq<A>, v: Ext)
    requires g.Valid() && agent < g.numAgents && depth < c.limit && v != NegInf
    ensures MinLoop(g, c, agent, depth, s, rest, v).Le(v)
    ensures forall a :: a in rest ==> MinLoop(g, c, agent, depth, s, rest, v).Le(Fin(GhostChild(g, c, agent, depth, s, a)))
    ensures MinLoop(g, c, agent, depth, s, rest, v) == v ||
            exists a :: a in rest && MinLoop(g, c, agent, depth, s, rest, v) == Fin(GhostChild(g, c, agent, depth, s, a))
    decreases |rest|
  {
    if rest != [] {
      var v' := Min(v, Fin(GhostChild(g, c, agent, depth, s, rest[0])));
      MinLoopBounds(g, c, agent, depth, s, rest[1..], v');
      var r := MinLoop(g, c, agent, depth, s, rest, v);
      LeTotalOrder(r, v', v);
      LeTotalOrder(r, v', Fin(GhostChild(g, c, agent, depth, s, rest[0])));
      forall a | a in rest
        ensures r.Le(Fin(GhostChild(g, c, agent, depth, s, a)))
      {
        if a != rest[0] {
          assert a in rest[1..];
        }
      }
      assert rest[0] in rest;
      if r != v' {
        var a :| a in rest[1..] && r == Fin(GhostChild(g, c, agent, depth, s, a));
        assert a in rest;
      }
    }
  }

  /** The running maximum only enters the max loop through one final Max */
  lemma {:induction false} MaxLoopShift<S, A>(g: Game<S, A>, c: Config<S>, depth: nat, s: S, rest: seq<A>, v: Ext)
    requires g.Valid() && depth < c.limit && v != PosInf
    ensures MaxLoop(g, c, depth, s, rest, v) == Max(v, MaxLoop(g, c, depth, s, rest, NegInf))
    decreases |rest|
  {
    if rest != [] {
      var x := Fin(PacmanChild(g, c, depth, s, rest[0]));
      MaxLoopShift(g, c, depth, s, rest[1..], Max(v, x));
      MaxLoopShift(g, c, depth, s, rest[1..], x);
      MaxMinAssociative(v, x, MaxLoop(g, c, depth, s, rest[1..], NegInf));
    }
  }

  /** The running minimum only enters the min loop through one final Min */
  lemma {:induction false} MinLoopShift<S, A>(g: Game<S, A>, c: Config<S>, agent: nat, depth: nat, s: S, rest: seq<A>, v: Ext)
    requires g.Valid() && agent < g.numAgents && depth < c.limit && v != NegInf
    ensures MinLoop(g, c, agent, depth, s, rest, v) == Min(v, MinLoop(g, c, agent, depth, s, rest, PosInf))
    decreases |rest|
  {
    if rest != [] {
      var x := Fin(GhostChild(g, c, agent, depth, s, rest[0]));
      MinLoopShift(g, c, agent, depth, s, rest[1..], Min(v, x));
      MinLoopShift(g, c, agent, depth, s, rest[1..], x);
      MaxMinAssociative(v, x, MinLoop(g, c, agent, depth, s, rest[1..], PosInf));
    }
  }

  /** A Pacman node is worth the largest of its children's values */
  lemma MaxNodeValue<S, A>(g: Game<S, A>, c: Config<S>, depth: nat, s: S)
    requires g.Valid() && depth <= c.limit
    requires !Cutoff(g, c, depth, s) && g.legal(s, 0) != []
    ensures forall a :: a in g.legal(s, 0) ==> PacmanChild(g, c, depth, s, a) <= Minimax(g, c, 0, depth, s)
    ensures exists a :: a in g.legal(s, 0) && PacmanChild(g, c, depth, s, a) == Minimax(g, c, 0, depth, s)
  {
    MaxLoopBounds(g, c, depth, s, g.legal(s, 0), NegInf);
  }

  /** A ghost node is worth the smallest of its children's values */
  lemma MinNodeValue<S, A>(g: Game<S, A>, c: Config<S>, agent: nat, depth: nat, s: S)
    requires g.Valid() && 0 < agent < g.numAgents && depth <= c.limit
    requires !Cutoff(g, c, depth, s) && g.legal(s, agent) != []
    ensures forall a :: a in g.legal(s, agent) ==> Minimax(g, c, agent, depth, s) <= GhostChild(g, c, agent, depth, s, a)
    ensures exists a :: a in g.legal(s, agent) && GhostChild(g, c, agent, depth, s, a) == Minimax(g, c, agent, depth, s)
  {
    MinLoopBounds(g, c, agent, depth, s, g.legal(s, agent), PosInf);
  }

  /** Leaves: at a cutoff, or when the mover has no legal action, the value is the evaluation */
  lemma MinimaxLeaf<S, A>(g: Game<S, A>, c: Config<S>, agent: nat, depth: nat, s: S)
    requires g.Valid() && agent < g.numAgents && depth <= c.limit
    requires Cutoff(g, c, depth, s) || g.legal(s, agent) == []
    ensures Minimax(g, c, agent, depth, s) == c.eval(s)
  {
  }

  /** The keys of the root's `(action, value)` pairs, one per legal Pacman action */
  function RootKeys<S, A>(g: Game<S, A>, c: Config<S>, s: S): (keys: seq<real>)
    requires g.Valid()
    ensures |keys| == |g.legal(s, 0)|
    ensures forall i :: 0 <= i < |keys| ==> keys[i] == Minimax(g, c, 1, 0, g.succ(s, 0, g.legal(s, 0)[i])) as real
  {
    var acts := g.legal(s, 0);
    seq(|acts|, i requires 0 <= i < |acts| => Minimax(g, c, 1, 0, g.succ(s, 0, acts[i])) as real)
  }

  /**
    `MinimaxAgent.getAction`: Pacman's first legal action whose minimax
    value is maximal. On a state without legal actions the source's `max`
    raises an error, which is `None` here.
   */
  function MinimaxAction<S, A>(g: Game<S, A>, c: Config<S>, s: S): (r: Option<A>)
    requires g.Valid()
    ensures r.None? <==> g.legal(s, 0) == []
    ensures r.Some? ==> exists i: nat :: IsFirstMax(RootKeys(g, c, s), i) && r.value == g.legal(s, 0)[i]
  {
    if g.legal(s, 0) == [] then None
    else Some(g.legal(s, 0)[FirstMaxIndex(RootKeys(g, c, s))])
  }
}
