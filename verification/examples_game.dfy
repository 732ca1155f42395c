/**
  A three-state scenario that separates the two ghost models: Pacman has
  one move, after which the single ghost either moves to a state worth 0
  or to a state worth 10. Minimax assumes the worst (0); expectimax
  averages the two equally likely outcomes (5).
 */
module CoinFlipGhost {
  import opened GameModel
  import M = MinimaxSearch
  import E = ExpectimaxSearch
  import AB = AlphaBetaSearch
  import opened ExtendedInts

  /** States: 0 = start, 1 = after Pacman's move, 2 and 3 = after the ghost's two moves */
  function Legal(s: nat, agent: nat): seq<nat> {
    if s == 0 && agent == 0 then [0]
    else if s == 1 && agent == 1 then [0, 1]
    else []
  }

  function Succ(s: nat, agent: nat, a: nat): nat {
    if s == 0 then 1 else if s == 1 then 2 + a else s
  }

  function CoinFlip(): Game<nat, nat> {
    Game(2, Legal, Succ, _ => false, _ => false)
  }

  function Worth(s: nat): int {
    if s == 3 then 10 else 0
  }

  lemma MinimaxTakesWorstCase()
    ensures M.Minimax(CoinFlip(), Config(Worth, 1), 1, 0, 1) == 0
  {
    var g := CoinFlip();
    var c := Config(Worth, 1);
    assert M.GhostChild(g, c, 1, 0, 1, 0) == 0;
    assert M.GhostChild(g, c, 1, 0, 1, 1) == 10;
    assert g.legal(1, 1) == [0, 1] && [0, 1][1..] == [1] && [1][1..] == [];
    assert M.MinLoop(g, c, 1, 0, 1, [1], Fin(0)) == M.MinLoop(g, c, 1, 0, 1, [], Fin(0)) == Fin(0);
    assert M.MinLoop(g, c, 1, 0, 1, [0, 1], PosInf) == M.MinLoop(g, c, 1, 0, 1, [1], Fin(0));
  }

  lemma ExpectimaxTakesMean()
    ensures E.Expectimax(CoinFlip(), Config(Worth, 1), 1, 0, 1) == 5.0
  {
    var g := CoinFlip();
    var c := Config(Worth, 1);
    assert E.GhostChild(g, c, 1, 0, 1, 0) == 0.0;
    assert E.GhostChild(g, c, 1, 0, 1, 1) == 10.0;
    assert g.legal(1, 1) == [0, 1] && [0, 1][1..] == [1] && [1][1..] == [];
    assert E.ChanceLoop(g, c, 1, 0, 1, [1], 0.5, 0.0) == E.ChanceLoop(g, c, 1, 0, 1, [], 0.5, E.AddWeighted(0.0, 0.5, 10.0)) == 5.0;
    assert E.ChanceLoop(g, c, 1, 0, 1, [0, 1], 0.5, 0.0) == E.ChanceLoop(g, c, 1, 0, 1, [1], 0.5, 0.0);
  }

  /** A cornered ghost (no legal move) makes its node a leaf worth the evaluation */
  lemma CorneredGhostIsLeaf()
    ensures M.Minimax(CoinFlip(), Config(Worth, 2), 1, 0, 3) == 10
    ensures AB.AlphaBeta(CoinFlip(), Config(Worth, 2), 1, 0, 3, NegInf, PosInf) == 10
    ensures E.Expectimax(CoinFlip(), Config(Worth, 2), 1, 0, 3) == 10.0
  {
    assert CoinFlip().legal(3, 1) == [];
  }
}
