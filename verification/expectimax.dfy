/**
  Expectimax (`ExpectimaxAgent.getAction`): Pacman's nodes maximise as in
  minimax, but a ghost node is a chance node that weighs each legal ghost
  action with the same probability 1/n. Values are exact reals.
 */
module ExpectimaxSearch {
  import opened ExtendedInts
  import opened GameModel
  import opened Selection
  import M = MinimaxSearch

  /** `expectimax(agentIndex, depth, gameState)` */
  function Expectimax<S, A>(g: Game<S, A>, c: Config<S>, agent: nat, depth: nat, s: S): real
    requires g.Valid() && agent < g.numAgents && depth <= c.limit
    decreases c.limit - depth, g.numAgents - agent, 1, 0
  {
    if Cutoff(g, c, depth, s) then c.eval(s) as real
    else if agent == 0 then
      var acts := g.legal(s, 0);
      if acts == [] then c.eval(s) as real
      else MaxLoop(g, c, depth, s, acts[1..], PacmanChild(g, c, depth, s, acts[0]))
    else
      var acts := g.legal(s, agent);
      if acts == [] then c.eval(s) as real
      else ChanceLoop(g, c, agent, depth, s, acts, 1.0 / |acts| as real, 0.0)
  }

  /** Value of Pacman's move `a` in `s`: the first ghost moves next, in the same round */
  function PacmanChild<S, A>(g: Game<S, A>, c: Config<S>, depth: nat, s: S, a: A): real
    requires g.Valid() && depth < c.limit
    decreases c.limit - depth, g.numAgents, 0, 0
  {
    Expectimax(g, c, 1, depth, g.succ(s, 0, a))
  }

  /** Value of ghost `agent`'s move `a` in `s`: the next agent in the rotation moves next */
  function GhostChild<S, A>(g: Game<S, A>, c: Config<S>, agent: nat, depth: nat, s: S, a: A): real
    requires g.Valid() && agent < g.numAgents && depth < c.limit
    decreases c.limit - depth, g.numAgents - agent, 0, 0
  {
    var t := NextTurn(g, agent, depth);
    Expectimax(g, c, t.agent, t.depth, g.succ(s, agent, a))
  }

  /**
    The loop of `max_value` after its first child: `max(-inf, x)` is `x`,
    so the running maximum starts at the first child's value.
   */
  function MaxLoop<S, A>(g: Game<S, A>, c: Config<S>, depth: nat, s: S, rest: seq<A>, v: real): real
    requires g.Valid() && depth < c.limit
    decreases c.limit - depth, g.numAgents, 0, |rest|
  {
    if rest == [] then v
    else
      var x := PacmanChild(g, c, depth, s, rest[0]);
      MaxLoop(g, c, depth, s, rest[1..], if v < x then x else v)
  }

  /** The loop of `exp_value`: `v += p * child` over the actions not yet visited */
  function ChanceLoop<S, A>(g: Game<S, A>, c: Config<S>, agent: nat, depth: nat, s: S, rest: seq<A>, p: real, v: real): real
    requires g.Valid() && agent < g.numAgents && depth < c.limit
    decreases c.limit - depth, g.numAgents - agent, 0, |rest|
  {
    if rest == [] then v
    else ChanceLoop(g, c, agent, depth, s, rest[1..], p, AddWeighted(v, p, GhostChild(g, c, agent, depth, s, rest[0])))
  }

  /** One step of `v += p * expectimax(...)` */
  function AddWeighted(v: real, p: real, x: real): real {
    v + p * x
  }

  /** Reference definition: the plain sum of the children's values */
  function ChildSum<S, A>(g: Game<S, A>, c: Config<S>, agent: nat, depth: nat, s: S, rest: seq<A>): real
    requires g.Valid() && agent < g.numAgents && depth < c.limit
  {
    if rest == [] then 0.0
    else GhostChild(g, c, agent, depth, s, rest[0]) + ChildSum(g, c, agent, depth, s, rest[1..])
  }

  /** The chance loop adds `p` times the sum of the remaining children */
  lemma {:induction false} ChanceLoopIsWeightedSum<S, A>(g: Game<S, A>, c: Config<S>, agent: nat, depth: nat, s: S,
                                                         rest: seq<A>, p: real, v: real)
    requires g.Valid() && agent < g.numAgents && depth < c.limit
    ensures ChanceLoop(g, c, agent, depth, s, rest, p, v) == v + p * ChildSum(g, c, agent, depth, s, rest)
    decreases |rest|
  {
    if rest != [] {
      var x := GhostChild(g, c, agent, depth, s, rest[0]);
      var tail := ChildSum(g, c, agent, depth, s, rest[1..]);
      var w := AddWeighted(v, p, x);
      assert ChanceLoop(g, c, agent, depth, s, rest, p, v) == ChanceLoop(g, c, agent, depth, s, rest[1..], p, w);
      ChanceLoopIsWeightedSum(g, c, agent, depth, s, rest[1..], p, w);
      Distribute(v, p, x, tail);
    }
  }

  lemma Distribute(v: real, p: real, x: real, t: real)
    ensures (v + p * x) + p * t == v + p * (x + t)
  {
  }

  /** A sum of n terms, each at least lo, is at least n * lo */
  lemma {:induction false} ChildSumAtLeast<S, A>(g: Game<S, A>, c: Config<S>, agent: nat, depth: nat, s: S,
                                                 rest: seq<A>, lo: real)
    requires g.Valid() && agent < g.numAgents && depth < c.limit
    requires forall a :: a in rest ==> lo <= GhostChild(g, c, agent, depth, s, a)
    ensures |rest| as real * lo <= ChildSum(g, c, agent, depth, s, rest)
    decreases |rest|
  {
    if rest != [] {
      assert rest[0] in rest;
      assert forall a :: a in rest[1..] ==> a in rest;
      ChildSumAtLeast(g, c, agent, depth, s, rest[1..], lo);
      var k := |rest[1..]| as real;
      assert |rest| as real * lo == (k + 1.0) * lo == k * lo + lo;
    }
  }

  /** A sum of n terms, each at most hi, is at most n * hi */
  lemma {:induction false} ChildSumAtMost<S, A>(g: Game<S, A>, c: Config<S>, agent: nat, depth: nat, s: S,
                                                rest: seq<A>, hi: real)
    requires g.Valid() && agent < g.numAgents && depth < c.limit
    requires forall a :: a in rest ==> GhostChild(g, c, agent, depth, s, a) <= hi
    ensures ChildSum(g, c, agent, depth, s, rest) <= |rest| as real * hi
    decreases |rest|
  {
    if rest != [] {
      assert rest[0] in rest;
      assert forall a :: a in rest[1..] ==> a in rest;
      ChildSumAtMost(g, c, agent, depth, s, rest[1..], hi);
      var k := |rest[1..]| as real;
      assert |rest| as real * hi == (k + 1.0) * hi == k * hi + hi;
    }
  }

  /** A chance node is the uniform average of its children: each action has weight 1/n */
  lemma ChanceNodeIsAverage<S, A>(g: Game<S, A>, c: Config<S>, agent: nat, depth: nat, s: S)
    requires g.Valid() && 0 < agent < g.numAgents && depth <= c.limit
    requires !Cutoff(g, c, depth, s) && g.legal(s, agent) != []
    ensures Expectimax(g, c, agent, depth, s) == ChildSum(g, c, agent, depth, s, g.legal(s, agent)) / |g.legal(s, agent)| as real
  {
    var acts := g.legal(s, agent);
    var n := |acts| as real;
    ChanceLoopIsWeightedSum(g, c, agent, depth, s, acts, 1.0 / n, 0.0);
  }

  /** Dividing a sum of n terms by n preserves a lower bound n * lo <= sum */
  lemma AverageAtLeast(sum: real, n: real, lo: real)
    requires n > 0.0 && n * lo <= sum
    ensures lo <= sum / n
  {
    assert sum / n - lo == (sum - n * lo) / n;
  }

  /** Dividing a sum of n terms by n preserves an upper bound sum <= n * hi */
  lemma AverageAtMost(sum: real, n: real, hi: real)
    requires n > 0.0 && sum <= n * hi
    ensures sum / n <= hi
  {
    assert hi - sum / n == (n * hi - sum) / n;
  }

  /** Hence a chance node is worth at least its smallest child ... */
  lemma ChanceNodeAtLeast<S, A>(g: Game<S, A>, c: Config<S>, agent: nat, depth: nat, s: S, lo: real)
    requires g.Valid() && 0 < agent < g.numAgents && depth <= c.limit
    requires !Cutoff(g, c, depth, s) && g.legal(s, agent) != []
    requires forall a :: a in g.legal(s, agent) ==> lo <= GhostChild(g, c, agent, depth, s, a)
    ensures lo <= Expectimax(g, c, agent, depth, s)
  {
    var acts := g.legal(s, agent);
    ChanceNodeIsAverage(g, c, agent, depth, s);
    ChildSumAtLeast(g, c, agent, depth, s, acts, lo);
    AverageAtLeast(ChildSum(g, c, agent, depth, s, acts), |acts| as real, lo);
  }

  /** ... and at most its largest child */
  lemma ChanceNodeAtMost<S, A>(g: Game<S, A>, c: Config<S>, agent: nat, depth: nat, s: S, hi: real)
    requires g.Valid() && 0 < agent < g.numAgents && depth <= c.limit
    requires !Cutoff(g, c, depth, s) && g.legal(s, agent) != []
    requires forall a :: a in g.legal(s, agent) ==> GhostChild(g, c, agent, depth, s, a) <= hi
    ensures Expectimax(g, c, agent, depth, s) <= hi
  {
    var acts := g.legal(s, agent);
    ChanceNodeIsAverage(g, c, agent, depth, s);
    ChildSumAtMost(g, c, agent, depth, s, acts, hi);
    AverageAtMost(ChildSum(g, c, agent, depth, s, acts), |acts| as real, hi);
  }

  /** The smallest of the children reached by `rest` */
  function LeastChild<S, A>(g: Game<S, A>, c: Config<S>, agent: nat, depth: nat, s: S, rest: seq<A>): (m: real)
    requires g.Valid() && agent < g.numAgents && depth < c.limit && rest != []
    ensures forall a :: a in rest ==> m <= GhostChild(g, c, agent, depth, s, a)
    ensures exists a :: a in rest && m == GhostChild(g, c, agent, depth, s, a)
    decreases |rest|
  {
    var x := GhostChild(g, c, agent, depth, s, rest[0]);
    assert rest[0] in rest;
    if |rest| == 1 then x
    else
      var m := LeastChild(g, c, agent, depth, s, rest[1..]);
      assert forall a :: a in rest ==> a == rest[0] || a in rest[1..];
      assert forall a :: a in rest[1..] ==> a in rest;
      if m < x then m else x
  }

  /** The largest of the children reached by `rest` */
  function GreatestChild<S, A>(g: Game<S, A>, c: Config<S>, agent: nat, depth: nat, s: S, rest: seq<A>): (m: real)
    requires g.Valid() && agent < g.numAgents && depth < c.limit && rest != []
    ensures forall a :: a in rest ==> GhostChild(g, c, agent, depth, s, a) <= m
    ensures exists a :: a in rest && m == GhostChild(g, c, agent, depth, s, a)
    decreases |rest|
  {
    var x := GhostChild(g, c, agent, depth, s, rest[0]);
    assert rest[0] in rest;
    if |rest| == 1 then x
    else
      var m := GreatestChild(g, c, agent, depth, s, rest[1..]);
      assert forall a :: a in rest ==> a == rest[0] || a in rest[1..];
      assert forall a :: a in rest[1..] ==> a in rest;
      if x < m then m else x
  }

  /** A chance node's value lies between the values of two of its children */
  lemma ChanceNodeBetween<S, A>(g: Game<S, A>, c: Config<S>, agent: nat, depth: nat, s: S)
    requires g.Valid() && 0 < agent < g.numAgents && depth <= c.limit
    requires !Cutoff(g, c, depth, s) && g.legal(s, agent) != []
    ensures exists a :: a in g.legal(s, agent) && GhostChild(g, c, agent, depth, s, a) <= Expectimax(g, c, agent, depth, s)
    ensures exists a :: a in g.legal(s, agent) && Expectimax(g, c, agent, depth, s) <= GhostChild(g, c, agent, depth, s, a)
  {
    var acts := g.legal(s, agent);
    ChanceNodeAtLeast(g, c, agent, depth, s, LeastChild(g, c, agent, depth, s, acts));
    ChanceNodeAtMost(g, c, agent, depth, s, GreatestChild(g, c, agent, depth, s, acts));
  }

  /** The max loop's result bounds its start value and every child, and is one of them */
  lemma {:induction false} MaxLoopBounds<S, A>(g: Game<S, A>, c: Config<S>, depth: nat, s: S, rest: seq<A>, v: real)
    requires g.Valid() && depth < c.limit
    ensures v <= MaxLoop(g, c, depth, s, rest, v)
    ensures forall a :: a in rest ==> PacmanChild(g, c, depth, s, a) <= MaxLoop(g, c, depth, s, rest, v)
    ensures MaxLoop(g, c, depth, s, rest, v) == v ||
            exists a :: a in rest && MaxLoop(g, c, depth, s, rest, v) == PacmanChild(g, c, depth, s, a)
    decreases |rest|
  {
    if rest != [] {
      var x := PacmanChild(g, c, depth, s, rest[0]);
      var v' := if v < x then x else v;
      MaxLoopBounds(g, c, depth, s, rest[1..], v');
      var r := MaxLoop(g, c, depth, s, rest, v);
      forall a | a in rest
        ensures PacmanChild(g, c, depth, s, a) <= r
      {
        if a != rest[0] {
          assert a in rest[1..];
        }
      }
      assert rest[0] in rest;
      if r != v' {
        var a :| a in rest[1..] && r == PacmanChild(g, c, depth, s, a);
        assert a in rest;
      }
    }
  }

  /** A Pacman node is worth the largest of its children's values, as in minimax */
  lemma MaxNodeValue<S, A>(g: Game<S, A>, c: Config<S>, depth: nat, s: S)
    requires g.Valid() && depth <= c.limit
    requires !Cutoff(g, c, depth, s) && g.legal(s, 0) != []
    ensures forall a :: a in g.legal(s, 0) ==> PacmanChild(g, c, depth, s, a) <= Expectimax(g, c, 0, depth, s)
    ensures exists a :: a in g.legal(s, 0) && PacmanChild(g, c, depth, s, a) == Expectimax(g, c, 0, depth, s)
  {
    var acts := g.legal(s, 0);
    MaxLoopBounds(g, c, depth, s, acts[1..], PacmanChild(g, c, depth, s, acts[0]));
    assert acts[0] in acts;
    assert forall a :: a in acts[1..] ==> a in acts;
    assert forall a :: a in acts ==> a == acts[0] || a in acts[1..];
  }

  /** Leaves: at a cutoff, or when the mover has no legal action, the value is the evaluation */
  lemma ExpectimaxLeaf<S, A>(g: Game<S, A>, c: Config<S>, agent: nat, depth: nat, s: S)
    requires g.Valid() && agent < g.numAgents && depth <= c.limit
    requires Cutoff(g, c, depth, s) || g.legal(s, agent) == []
    ensures Expectimax(g, c, agent, depth, s) == c.eval(s) as real
  {
  }

  /** If each child's expectimax value dominates its minimax value, so does the max loop */
  lemma {:induction false} MaxLoopDominates<S, A>(g: Game<S, A>, c: Config<S>, depth: nat, s: S, rest: seq<A>, v: Ext, w: real)
    requires g.Valid() && depth < c.limit
    requires v.Fin? && v.n as real <= w
    requires forall a :: a in rest ==> M.PacmanChild(g, c, depth, s, a) as real <= PacmanChild(g, c, depth, s, a)
    ensures M.MaxLoop(g, c, depth, s, rest, v).n as real <= MaxLoop(g, c, depth, s, rest, w)
    decreases |rest|
  {
    if rest != [] {
      assert rest[0] in rest;
      assert forall a :: a in rest[1..] ==> a in rest;
      var x := PacmanChild(g, c, depth, s, rest[0]);
      MaxLoopDominates(g, c, depth, s, rest[1..], Max(v, Fin(M.PacmanChild(g, c, depth, s, rest[0]))),
                       if w < x then x else w);
    }
  }

  /**
    Expectimax never values a state below minimax: replacing the ghosts'
    minimum by an average can only help Pacman.
   */
  lemma {:induction false} MinimaxBelowExpectimax<S, A>(g: Game<S, A>, c: Config<S>, agent: nat, depth: nat, s: S)
    requires g.Valid() && agent < g.numAgents && depth <= c.limit
    ensures M.Minimax(g, c, agent, depth, s) as real <= Expectimax(g, c, agent, depth, s)
    decreases c.limit - depth, g.numAgents - agent
  {
    if !Cutoff(g, c, depth, s) {
      var acts := g.legal(s, agent);
      if acts != [] {
        if agent == 0 {
          forall a | a in acts
            ensures M.PacmanChild(g, c, depth, s, a) as real <= PacmanChild(g, c, depth, s, a)
          {
            MinimaxBelowExpectimax(g, c, 1, depth, g.succ(s, 0, a));
          }
          MaxLoopDominates(g, c, depth, s, acts[1..], Fin(M.PacmanChild(g, c, depth, s, acts[0])),
                           PacmanChild(g, c, depth, s, acts[0]));
        } else {
          var m := M.Minimax(g, c, agent, depth, s);
          M.MinNodeValue(g, c, agent, depth, s);
          var t := NextTurn(g, agent, depth);
          forall a | a in acts
            ensures m as real <= GhostChild(g, c, agent, depth, s, a)
          {
            MinimaxBelowExpectimax(g, c, t.agent, t.depth, g.succ(s, agent, a));
          }
          ChanceNodeAtLeast(g, c, agent, depth, s, m as real);
        }
      }
    }
  }

  /** The keys of the root's `(action, value)` pairs, one per legal Pacman action */
  function RootKeys<S, A>(g: Game<S, A>, c: Config<S>, s: S): (keys: seq<real>)
    requires g.Valid()
    ensures |keys| == |g.legal(s, 0)|
    ensures forall i :: 0 <= i < |keys| ==> keys[i] == Expectimax(g, c, 1, 0, g.succ(s, 0, g.legal(s, 0)[i]))
  {
    var acts := g.legal(s, 0);
    seq(|acts|, i requires 0 <= i < |acts| => Expectimax(g, c, 1, 0, g.succ(s, 0, acts[i])))
  }

  /**
    `ExpectimaxAgent.getAction`: Pacman's first legal action whose
    expectimax value is maximal. On a state without legal actions the
    source's `max` raises an error, which is `None` here.
   */
  function ExpectimaxAction<S, A>(g: Game<S, A>, c: Config<S>, s: S): (r: Option<A>)
    requires g.Valid()
    ensures r.None? <==> g.legal(s, 0) == []
    ensures r.Some? ==> exists i: nat :: IsFirstMax(RootKeys(g, c, s), i) && r.value == g.legal(s, 0)[i]
  {
    if g.legal(s, 0) == [] then None
    else Some(g.legal(s, 0)[FirstMaxIndex(RootKeys(g, c, s))])
  }
}
