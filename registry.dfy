/** The agent registry of `minesweeper/__init__.py`: a dictionary from names to agent
    classes that the `register_agent(name)` decorator fills. A name registers once,
    and only a class that extends `Agent`; a refused registration leaves the
    dictionary as it was. */
module Registry {
  import opened Errors

  /** A class handed to the decorator: its name and whether it extends `Agent`. */
  datatype AgentClass = AgentClass(name: string, extendsAgent: bool)

  /** The dictionary after registering `cls` under `name`: a `ValueError` for a
      name already taken (checked first), then for a class that does not extend
      `Agent`; otherwise exactly one entry more, the old ones as they were. */
  function Register(reg: map<string, AgentClass>, name: string, cls: AgentClass): (r: Result<map<string, AgentClass>>)
    ensures r.Err? <==> name in reg || !cls.extendsAgent
    ensures name in reg ==> r == Err("Cannot register duplicate agent " + name)
    ensures r.Ok? ==> r.value.Keys == reg.Keys + {name} && r.value[name] == cls
                      && forall k :: k in reg ==> r.value[k] == reg[k]
  {
    if name in reg then Err("Cannot register duplicate agent " + name)
    else if !cls.extendsAgent then Err("Agent " + name + " (" + cls.name + " class) must extend Agent")
    else Ok(reg[name := cls])
  }

  /** Registering never changes an entry that is there: a second registration under
      the same name fails whatever the class. */
  lemma RegisterOnce(reg: map<string, AgentClass>, name: string, cls: AgentClass, other: AgentClass)
    requires Register(reg, name, cls).Ok?
    ensures Register(Register(reg, name, cls).value, name, other).Err?
    ensures Register(reg, name, cls).value[name] == cls
  {
  }

  /** `AGENT_REGISTRY` and the decorator. */
  class AgentRegistry {
    var agents: map<string, AgentClass>

    constructor ()
      ensures agents == map[]
    {
      agents := map[];
    }

    /** `register_agent(name)(cls)`: the class comes back unchanged on success, and
        the dictionary changes only as `Register` says. */
    method RegisterAgent(name: string, cls: AgentClass) returns (r: Result<AgentClass>)
      modifies this
      ensures r.Err? <==> Register(old(agents), name, cls).Err?
      ensures r.Err? ==> agents == old(agents)
      ensures r.Ok? ==> r.value == cls && agents == Register(old(agents), name, cls).value
    {
      if name in agents {
        return Err("Cannot register duplicate agent " + name);
      }
      if !cls.extendsAgent {
        return Err("Agent " + name + " (" + cls.name + " class) must extend Agent");
      }
      agents := agents[name := cls];
      return Ok(cls);
    }
  }
}
