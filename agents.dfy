/** The random agent of `agents.py`: on each call to `act` it lists the openable
    cells and, when there is one and its counting ticker fires, selects one of them
    at random. The ticker advances only on calls with an openable cell, because the
    test of the openable cells comes first in the `and`. */
module Agents {
  import opened Matrices
  import opened Actions
  import opened Utils
  import Moves

  /** The openable cells of a matrix, `np.argwhere` of it. */
  function Openable(m: seq<seq<bool>>, rows: nat, cols: nat): (r: seq<Pos>)
    requires IsMatrix(m, rows, cols)
    ensures forall p :: p in r <==> InBounds(p, rows, cols) && m[p.0][p.1]
  {
    Moves.ArgWhere(m, rows, cols)
  }

  /** The outcome of one `act` of a random agent: nothing, or the one select of a
      position drawn from the openable cells. */
  predicate PicksOpenable(actions: seq<Action>, m: seq<seq<bool>>, rows: nat, cols: nat)
    requires IsMatrix(m, rows, cols)
  {
    |actions| <= 1
    && forall a :: a in actions ==> a.kind == Select && InBounds(a.pos, rows, cols) && m[a.pos.0][a.pos.1]
  }

  /** `random.randint(0, len(possible_coords) - 1)` and `Action.select`: one of the
      openable cells, drawn at random, selected. */
  method PickOne(m: seq<seq<bool>>, rows: nat, cols: nat) returns (actions: seq<Action>)
    requires IsMatrix(m, rows, cols) && |Openable(m, rows, cols)| > 0
    ensures |actions| == 1 && PicksOpenable(actions, m, rows, cols)
  {
    var coords := Openable(m, rows, cols);
    var index :| 0 <= index < |coords|;
    var p := coords[index];
    assert p in coords;
    var a := SelectAt(p);
    actions := [a.value];
  }

  /** `RandomAgent` of `agents.py`. */
  class RandomAgent {
    var ticker: TickRepeater?

    /** The agent has started: its ticker counts ticks, every 200 after the 60th. */
    ghost predicate Valid()
      reads this, ticker
    {
      ticker != null && ticker.Valid() && !ticker.timeBased
      && ticker.repeatInterval == 200 && ticker.initialDelay == 60
    }

    constructor ()
      ensures ticker == null
    {
      ticker := null;
    }

    /** `start(grid_size, config)`: a fresh `TickRepeater(200, 60)`. */
    method Start(gridSize: (int, int))
      modifies this
      ensures Valid() && fresh(ticker) && ticker.ticks == 0
    {
      ticker := new TickRepeater(200, 60, false);
    }

    /** `act(openable_matrix, proximity_matrix)`: with no openable cell, no action
        and the ticker untouched; otherwise the ticker ticks, and the agent selects
        one openable cell exactly when it fires, which is on the 60th such call and
        every 200th after it. */
    method Act(openable: seq<seq<bool>>, proximity: seq<seq<int>>, rows: nat, cols: nat) returns (actions: seq<Action>)
      requires Valid() && IsMatrix(openable, rows, cols)
      modifies ticker
      ensures Valid() && PicksOpenable(actions, openable, rows, cols)
      ensures |Openable(openable, rows, cols)| == 0 ==>
                actions == [] && ticker.ticks == old(ticker.ticks) && ticker.waitTicks == old(ticker.waitTicks)
      ensures |Openable(openable, rows, cols)| > 0 ==>
                ticker.ticks == old(ticker.ticks) + 1 && (|actions| == 1 <==> FiresOn(60, 200, ticker.ticks))
    {
      var coords := Openable(openable, rows, cols);
      if |coords| > 0 {
        var fire := ticker.Tick(0);
        if fire {
          actions := PickOne(openable, rows, cols);
          return;
        }
      }
      actions := [];
    }

    /** `react(reward)`: nothing. */
    method React(reward: real)
      ensures ticker == old(ticker)
    {
    }
  }

  /** With the agent's ticker, the first select comes on the 60th call with an
      openable cell, the next on the 260th, and none in between. */
  lemma RandomAgentSchedule(k: nat)
    ensures FiresOn(60, 200, 60) && FiresOn(60, 200, 260) && FiresOn(60, 200, 460)
    ensures k < 60 || 60 < k < 260 ==> !FiresOn(60, 200, k)
  {
  }
}
