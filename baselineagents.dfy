/** The registered random agent of `minesweeper/agents/baseline_agents.py`: the same
    choice as the agent of `agents.py`, paced by a time-based ticker that first
    fires after 2000 ms and then every 1000 ms. The milliseconds the ticker's clock
    reports at a tick are a parameter. */
module BaselineAgents {
  import opened Matrices
  import opened Actions
  import opened Utils
  import opened Agents
  import opened Registry

  /** `RandomAgent` of `minesweeper/agents/baseline_agents.py`. */
  class BaselineRandomAgent {
    var ticker: TickRepeater?

    /** The agent has started: its ticker is time based, 1000 ms apart after an
        initial 2000 ms. */
    ghost predicate Valid()
      reads this, ticker
    {
      ticker != null && ticker.Valid() && ticker.timeBased && ticker.repeatInterval == 1000
    }

    constructor ()
      ensures ticker == null
    {
      ticker := null;
    }

    /** `start(grid_size, config)`: a fresh `TickRepeater(1000, 2000, time_based=True)`. */
    method Start(gridSize: (int, int))
      modifies this
      ensures Valid() && fresh(ticker) && ticker.waitTicks == 2000
    {
      ticker := new TickRepeater(1000, 2000, true);
    }

    /** `act(openable_matrix, proximity_matrix)`, with `elapsed` the milliseconds the
        clock reports: with no openable cell, no action and the ticker untouched;
        otherwise the ticker ticks, and the agent selects one openable cell exactly
        when the waiting time runs out. */
    method Act(openable: seq<seq<bool>>, proximity: seq<seq<int>>, rows: nat, cols: nat, elapsed: int) returns (actions: seq<Action>)
      requires Valid() && IsMatrix(openable, rows, cols)
      modifies ticker
      ensures Valid() && PicksOpenable(actions, openable, rows, cols)
      ensures |Openable(openable, rows, cols)| == 0 ==> actions == [] && ticker.waitTicks == old(ticker.waitTicks)
      ensures |Openable(openable, rows, cols)| > 0 ==>
                (|actions| == 1 <==> old(ticker.waitTicks) - elapsed <= 0)
                && ticker.waitTicks == if |actions| == 1 then 1000 else old(ticker.waitTicks) - elapsed
    {
      var coords := Openable(openable, rows, cols);
      if |coords| > 0 {
        var fire := ticker.Tick(elapsed);
        if fire {
          actions := PickOne(openable, rows, cols);
          return;
        }
      }
      actions := [];
    }

    /** `react(openable_matrix, proximity_matrix, status)`: nothing. */
    method React(openable: seq<seq<bool>>, proximity: seq<seq<int>>)
      ensures ticker == old(ticker)
    {
    }
  }

  /** `@register_agent(name='RandomAgent')`: the agent registers under its name into
      a registry that does not have it yet. */
  lemma BaselineRegisters(reg: map<string, AgentClass>)
    requires "RandomAgent" !in reg
    ensures Register(reg, "RandomAgent", AgentClass("RandomAgent", true)).Ok?
    ensures Register(reg, "RandomAgent", AgentClass("RandomAgent", true)).value["RandomAgent"].name == "RandomAgent"
  {
  }
}
