/** The agent registry (crates/domain/src/agent_registry.rs): a built-in seed, user edits on top, and an
    overlay file that stores only what the seed does not. */
module AgentRegistry {
  import opened Options
  import opened Sorting

  datatype Mode = Primary | SubAgent | All

  datatype Definition = Definition(
    name: string, description: Option<string>, mode: Mode, native: bool, hidden: bool, temperature: Option<real>,
    permission: map<string, string>, modelRef: Option<string>, steps: Option<nat>, tools: Option<seq<string>>, disabled: bool)

  type Agents = map<string, Definition>

  function Builtin(name: string, description: string, mode: Mode): Definition {
    Definition(name, Some(description), mode, true, false, None, map[], Some("default"), None, None, false)
  }

  const BUILTINS: seq<(string, string, Mode)> := [
    ("work", "Default interactive agent; full permission profile", Primary),
    ("code", "Code generation and modification", All),
    ("plan", "Planning and task decomposition", SubAgent),
    ("edit", "Targeted file editing", SubAgent),
    ("search", "Codebase and web search", SubAgent),
    ("test", "Test authoring and execution", SubAgent),
    ("refactor", "Code refactoring and cleanup", SubAgent)]

  /** The definitions of `defs` put in one after the other. */
  function InsertAll(agents: Agents, defs: seq<Definition>): Agents {
    if defs == [] then agents
    else
      var last := defs[|defs| - 1];
      InsertAll(agents, defs[..|defs| - 1])[last.name := last]
  }

  function SeedDefinitions(): seq<Definition> {
    seq(|BUILTINS|, i requires 0 <= i < |BUILTINS| => Builtin(BUILTINS[i].0, BUILTINS[i].1, BUILTINS[i].2))
  }

  /** Lines 124-133. */
  function Seed(): Agents { InsertAll(map[], SeedDefinitions()) }

  function SeededNames(): set<string> { set i | 0 <= i < |BUILTINS| :: BUILTINS[i].0 }

  // ---- Edits ----

  /** Lines 147-165. */
  function WithUserConfig(agents: Agents, name: string, disable: bool, modelRef: Option<string>): Agents {
    var def :=
      if name in agents then agents[name].(disabled := disable || agents[name].disabled)
      else Builtin(name, "", All).(native := false, disabled := disable);
    agents[name := if modelRef.Some? then def.(modelRef := modelRef) else def]
  }

  function WithDisabled(agents: Agents, name: string, disabled: bool): Agents {
    if name in agents then agents[name := agents[name].(disabled := disabled)] else agents
  }

  function WithCustom(agents: Agents, def: Definition): Agents { agents[def.name := def] }

  /** Every edit leaves the other agents alone. An override of an agent that is there can disable it and
      repoint it, and never enables it; one of an agent that is not there makes a custom one. */
  lemma UserConfigLeaves(agents: Agents, name: string, disable: bool, modelRef: Option<string>)
    ensures var after := WithUserConfig(agents, name, disable, modelRef);
            && after.Keys == agents.Keys + {name}
            && (forall other :: other in agents && other != name ==> after[other] == agents[other])
            && (name in agents ==>
                  && after[name].disabled == (agents[name].disabled || disable)
                  && after[name].modelRef == (if modelRef.Some? then modelRef else agents[name].modelRef)
                  && after[name] == agents[name].(disabled := after[name].disabled, modelRef := after[name].modelRef))
            && (name !in agents ==>
                  after[name] == Definition(name, Some(""), All, false, false, None, map[],
                                            if modelRef.Some? then modelRef else Some("default"), None, None, disable))
  {
  }

  /** Enabling and disabling sets the flag of an agent that is there, and makes no other. */
  lemma SetDisabledLeaves(agents: Agents, name: string, disabled: bool)
    ensures var after := WithDisabled(agents, name, disabled);
            && after.Keys == agents.Keys
            && (forall other :: other in agents && other != name ==> after[other] == agents[other])
            && (name in agents ==> after[name].disabled == disabled && after[name] == agents[name].(disabled := disabled))
  {
  }

  // ---- Save and load ----

  /** Lines 252-257: what the overlay must store. */
  predicate Stored(d: Definition) {
    !d.native || d.disabled || d.modelRef != Some("default") || d.name !in SeededNames()
  }

  predicate NameLeq(a: Definition, b: Definition) { StringLeq(a.name, b.name) }

  lemma NameOrder()
    ensures TotalPreorder(NameLeq)
  {
    StringOrder();
    forall a, b ensures NameLeq(a, b) || NameLeq(b, a) { StringLeqTotal(a.name, b.name); }
    forall a, b, c | NameLeq(a, b) && NameLeq(b, c) ensures NameLeq(a, c) { StringLeqTrans(a.name, b.name, c.name); }
  }

  /** The names in `within` that hold `d`. */
  ghost function Holders(agents: Agents, within: set<string>, d: Definition): set<string> {
    set n | n in within && n in agents && agents[n] == d
  }

  /** Each stored definition is listed once for every name that holds it. */
  ghost predicate ListsStored(agents: Agents, within: set<string>, overlay: seq<Definition>) {
    forall d :: multiset(overlay)[d] == if Stored(d) then |Holders(agents, within, d)| else 0
  }

  /** The overlay of `agents`: the stored definitions, sorted by name. */
  ghost predicate IsOverlay(agents: Agents, overlay: seq<Definition>) {
    && (forall i, j :: 0 <= i < j < |overlay| ==> StringLeq(overlay[i].name, overlay[j].name))
    && ListsStored(agents, agents.Keys, overlay)
  }

  lemma OverlayHolds(agents: Agents, overlay: seq<Definition>, d: Definition)
    requires IsOverlay(agents, overlay)
    ensures d in overlay <==> Stored(d) && exists n :: n in agents && agents[n] == d
    ensures Keyed(agents) ==> multiset(overlay)[d] <= 1
  {
    var holders := Holders(agents, agents.Keys, d);
    assert d in overlay <==> d in multiset(overlay);
    if n :| n in agents && agents[n] == d {
      assert n in holders;
    } else {
      assert holders == {};
    }
    if Keyed(agents) { SubsetOfOne(holders, d.name); }
  }

  lemma SubsetOfOne(s: set<string>, x: string)
    requires s <= {x}
    ensures |s| <= 1
  {
    assert s == {} || s == {x};
  }

  lemma HoldersGrow(agents: Agents, within: set<string>, n: string, overlay: seq<Definition>)
    requires n in agents && n !in within && ListsStored(agents, within, overlay)
    ensures ListsStored(agents, within + {n}, if Stored(agents[n]) then overlay + [agents[n]] else overlay)
  {
    forall d ensures Holders(agents, within + {n}, d)
                     == if agents[n] == d then Holders(agents, within, d) + {n} else Holders(agents, within, d)
    {
    }
  }

  /** Lines 246-266, up to the text format. */
  method Save(agents: Agents) returns (overlay: seq<Definition>)
    ensures IsOverlay(agents, overlay)
  {
    overlay := [];
    var left := agents.Keys;
    while left != {}
      invariant left <= agents.Keys && ListsStored(agents, agents.Keys - left, overlay)
    {
      var n := AnyOf(left);
      HoldersGrow(agents, agents.Keys - left, n, overlay);
      assert agents.Keys - (left - {n}) == agents.Keys - left + {n};
      left := left - {n};
      if Stored(agents[n]) {
        overlay := overlay + [agents[n]];
      }
    }
    assert agents.Keys - left == agents.Keys;
    NameOrder();
    overlay := Sort(overlay, NameLeq);
    assert forall i, j :: 0 <= i < j < |overlay| ==> NameLeq(overlay[i], overlay[j]);
  }

  /** Lines 225-237: the seed, then the file's definitions, if the file could be read. */
  function Loaded(file: Option<seq<Definition>>): Agents {
    if file.None? then Seed() else InsertAll(Seed(), file.value)
  }

  // ---- What a round trip keeps ----

  /** Each definition is stored under its own name. */
  ghost predicate Keyed(agents: Agents) {
    forall n :: n in agents ==> agents[n].name == n
  }

  lemma {:induction false} InsertAllAbsent(agents: Agents, defs: seq<Definition>, n: string)
    requires forall d :: d in defs ==> d.name != n
    ensures (n in InsertAll(agents, defs) <==> n in agents) && (n in agents ==> InsertAll(agents, defs)[n] == agents[n])
  {
    if defs != [] { InsertAllAbsent(agents, defs[..|defs| - 1], n); }
  }

  lemma {:induction false} InsertAllPresent(agents: Agents, defs: seq<Definition>, d: Definition)
    requires d in defs && forall e :: e in defs && e.name == d.name ==> e == d
    ensures d.name in InsertAll(agents, defs) && InsertAll(agents, defs)[d.name] == d
  {
    var k := |defs| - 1;
    assert defs[k] in defs;
    if defs[k].name != d.name {
      InsertAllPresent(agents, defs[..k], d);
    }
  }

  lemma SeedKeyed()
    ensures Keyed(Seed()) && Seed().Keys == SeededNames()
    ensures forall n :: n in Seed() ==> !Stored(Seed()[n]) && Seed()[n].native
  {
    SeedPrefix(|BUILTINS|);
    assert SeedDefinitions()[..|BUILTINS|] == SeedDefinitions();
  }

  lemma {:induction false} SeedPrefix(k: nat)
    requires k <= |BUILTINS|
    ensures var s := InsertAll(map[], SeedDefinitions()[..k]);
            && s.Keys == (set i | 0 <= i < k :: BUILTINS[i].0)
            && forall n :: n in s ==> s[n].name == n && s[n].native && !s[n].disabled && s[n].modelRef == Some("default")
  {
    if k > 0 {
      SeedPrefix(k - 1);
      assert SeedDefinitions()[..k][..k - 1] == SeedDefinitions()[..k - 1];
    }
  }

  /** The built-in agents, spelled out: their names, what they are for, and that they are enabled on the
      default model. */
  lemma SeedIs(n: string)
    ensures n in Seed() <==> n in {"work", "code", "plan", "edit", "search", "test", "refactor"}
    ensures n in Seed() ==>
              && Seed()[n].mode == (if n == "work" then Primary else if n == "code" then All else SubAgent)
              && Seed()[n] == Definition(n, Seed()[n].description, Seed()[n].mode, true, false, None, map[], Some("default"),
                                         None, None, false)
  {
    SeedKeyed();
    SeededNamesAre(n);
    SeedModes(|BUILTINS|, n);
    assert SeedDefinitions()[..|BUILTINS|] == SeedDefinitions();
  }

  lemma SeededNamesAre(n: string)
    ensures n in SeededNames() <==> n in {"work", "code", "plan", "edit", "search", "test", "refactor"}
  {
    if n in SeededNames() {
      var i :| 0 <= i < |BUILTINS| && BUILTINS[i].0 == n;
      assert i == 0 || i == 1 || i == 2 || i == 3 || i == 4 || i == 5 || i == 6;
    }
    assert BUILTINS[0].0 == "work" && BUILTINS[1].0 == "code" && BUILTINS[2].0 == "plan" && BUILTINS[3].0 == "edit";
    assert BUILTINS[4].0 == "search" && BUILTINS[5].0 == "test" && BUILTINS[6].0 == "refactor";
  }

  lemma {:induction false} SeedModes(k: nat, n: string)
    requires k <= |BUILTINS|
    ensures var s := InsertAll(map[], SeedDefinitions()[..k]);
            n in s ==> && s[n].mode == (if n == "work" then Primary else if n == "code" then All else SubAgent)
                       && s[n] == Definition(n, s[n].description, s[n].mode, true, false, None, map[], Some("default"), None, None, false)
  {
    if k > 0 {
      SeedModes(k - 1, n);
      assert SeedDefinitions()[..k][..k - 1] == SeedDefinitions()[..k - 1];
    }
  }

  /** What a name holds after saving and loading. */
  lemma LoadedOverlay(agents: Agents, overlay: seq<Definition>, n: string)
    requires Keyed(agents) && IsOverlay(agents, overlay)
    ensures var back := Loaded(Some(overlay));
            if n in agents && Stored(agents[n]) then n in back && back[n] == agents[n]
            else (n in back <==> n in Seed()) && (n in Seed() ==> back[n] == Seed()[n])
  {
    forall d ensures d in overlay <==> Stored(d) && exists n :: n in agents && agents[n] == d {
      OverlayHolds(agents, overlay, d);
    }
    if n in agents && Stored(agents[n]) {
      InsertAllPresent(Seed(), overlay, agents[n]);
    } else {
      InsertAllAbsent(Seed(), overlay, n);
    }
  }

  /** The edits the overlay cannot express are the ones it does not contain: a registry survives saving
      and loading exactly when it still has every built-in name and whatever it does not store is the
      seed's own definition. */
  ghost predicate Recoverable(agents: Agents) {
    && SeededNames() <= agents.Keys
    && forall n :: n in agents && !Stored(agents[n]) ==> n in Seed() && agents[n] == Seed()[n]
  }

  lemma RoundTripIff(agents: Agents, overlay: seq<Definition>)
    requires Keyed(agents) && IsOverlay(agents, overlay)
    ensures Loaded(Some(overlay)) == agents <==> Recoverable(agents)
  {
    var back := Loaded(Some(overlay));
    SeedKeyed();
    forall n
      ensures (n in back <==> (n in agents && Stored(agents[n])) || n in Seed())
      ensures n in agents && Stored(agents[n]) ==> back[n] == agents[n]
      ensures !(n in agents && Stored(agents[n])) && n in Seed() ==> back[n] == Seed()[n]
    {
      LoadedOverlay(agents, overlay, n);
    }
    if Recoverable(agents) {
      assert back == agents;
    }
  }

  // ---- Reachable registries ----

  datatype Op =
    | UserConfig(name: string, disable: bool, modelRef: Option<string>)
    | Disabling(name: string, disabled: bool)
    | Register(def: Definition)
    | SaveTo(overlay: seq<Definition>)
    | LoadFile(file: Option<seq<Definition>>)

  /** The registry, and every overlay file written so far. */
  datatype World = World(agents: Agents, saved: set<seq<Definition>>)

  ghost function Step(w: World, op: Op): World {
    match op
    case UserConfig(name, disable, modelRef) => w.(agents := WithUserConfig(w.agents, name, disable, modelRef))
    case Disabling(name, disabled) => w.(agents := WithDisabled(w.agents, name, disabled))
    case Register(def) => w.(agents := WithCustom(w.agents, def))
    case SaveTo(overlay) => w.(saved := w.saved + {overlay})
    case LoadFile(file) => w.(agents := Loaded(file))
  }

  /** Registered agents are custom ones; a save writes the overlay of the present registry; a load reads
      any file saved before, or none. */
  ghost predicate Allowed(w: World, op: Op) {
    && (op.Register? ==> !op.def.native)
    && (op.SaveTo? ==> IsOverlay(w.agents, op.overlay))
    && (op.LoadFile? && op.file.Some? ==> op.file.value in w.saved)
  }

  ghost predicate RunAllowed(w: World, ops: seq<Op>)
    decreases |ops|
  {
    ops == [] || (Allowed(w, ops[0]) && RunAllowed(Step(w, ops[0]), ops[1..]))
  }

  ghost function Run(w: World, ops: seq<Op>): World
    decreases |ops|
  {
    if ops == [] then w else Run(Step(w, ops[0]), ops[1..])
  }

  /** Native entries are seed entries, but for being disabled or pointed at another model. */
  ghost predicate Grown(agents: Agents) {
    && Keyed(agents) && SeededNames() <= agents.Keys
    && forall n :: n in agents && agents[n].native ==>
         n in Seed() && agents[n] == Seed()[n].(disabled := agents[n].disabled, modelRef := agents[n].modelRef)
  }

  lemma GrownIsRecoverable(agents: Agents)
    requires Grown(agents)
    ensures Recoverable(agents)
  {
    SeedKeyed();
  }

  /** The registry is grown from the seed, and so is whatever a saved file brings back. */
  ghost predicate GrownWorld(w: World) {
    Grown(w.agents) && forall overlay :: overlay in w.saved ==> Grown(Loaded(Some(overlay)))
  }

  lemma EditKeepsGrown(w: World, op: Op)
    requires Grown(w.agents) && Allowed(w, op) && !op.SaveTo? && !op.LoadFile?
    ensures Grown(Step(w, op).agents)
  {
  }

  lemma StepKeepsGrown(w: World, op: Op)
    requires GrownWorld(w) && Allowed(w, op)
    ensures GrownWorld(Step(w, op))
  {
    if op.SaveTo? {
      GrownIsRecoverable(w.agents);
      RoundTripIff(w.agents, op.overlay);
    } else if op.LoadFile? {
      SeedKeyed();
      assert Grown(Seed());
    } else {
      EditKeepsGrown(w, op);
    }
  }

  lemma {:induction false} RunKeepsGrown(w: World, ops: seq<Op>)
    requires GrownWorld(w) && RunAllowed(w, ops)
    ensures GrownWorld(Run(w, ops))
    decreases |ops|
  {
    if ops != [] {
      StepKeepsGrown(w, ops[0]);
      RunKeepsGrown(Step(w, ops[0]), ops[1..]);
    }
  }

  /** The overlay of a grown registry is minimal: it leaves out exactly the agents that are as seeded. */
  lemma OverlayIsMinimal(agents: Agents, overlay: seq<Definition>, n: string)
    requires Grown(agents) && IsOverlay(agents, overlay) && n in agents
    ensures agents[n] in overlay <==> !(n in Seed() && agents[n] == Seed()[n])
  {
    SeedKeyed();
    OverlayHolds(agents, overlay, agents[n]);
  }

  /** Every reachable registry is given back unchanged by saving and loading it. */
  lemma OverlayLosesNothing(ops: seq<Op>, overlay: seq<Definition>)
    requires RunAllowed(World(Seed(), {}), ops) && IsOverlay(Run(World(Seed(), {}), ops).agents, overlay)
    ensures Loaded(Some(overlay)) == Run(World(Seed(), {}), ops).agents
  {
    SeedKeyed();
    assert Grown(Seed());
    RunKeepsGrown(World(Seed(), {}), ops);
    GrownIsRecoverable(Run(World(Seed(), {}), ops).agents);
    RoundTripIff(Run(World(Seed(), {}), ops).agents, overlay);
  }

  /** Registering a definition marked native is the exception: a new description of a built-in is lost,
      although the file is documented to hold it. */
  lemma NativeDescriptionLost(name: string, description: string, overlay: seq<Definition>)
    requires name in Seed() && Seed()[name].description != Some(description)
    requires IsOverlay(WithCustom(Seed(), Seed()[name].(description := Some(description))), overlay)
    ensures Loaded(Some(overlay)) != WithCustom(Seed(), Seed()[name].(description := Some(description)))
  {
    SeedKeyed();
    var agents := WithCustom(Seed(), Seed()[name].(description := Some(description)));
    assert !Stored(agents[name]);
    RoundTripIff(agents, overlay);
  }

  // ---- The registry itself ----

  class Registry {
    var agents: Agents

    /** Lines 124-133. */
    constructor ()
      ensures agents == Seed()
    {
      var seeded: Agents := map[];
      for i := 0 to |BUILTINS|
        invariant seeded == InsertAll(map[], SeedDefinitions()[..i])
      {
        var (name, description, mode) := BUILTINS[i];
        assert SeedDefinitions()[..i + 1][..i] == SeedDefinitions()[..i];
        seeded := seeded[name := Builtin(name, description, mode)];
      }
      assert SeedDefinitions()[..|BUILTINS|] == SeedDefinitions();
      agents := seeded;
    }

    method ApplyUserConfig(name: string, disable: bool, modelRef: Option<string>)
      modifies this
      ensures agents == WithUserConfig(old(agents), name, disable, modelRef)
    {
      if name in agents {
        if disable {
          agents := agents[name := agents[name].(disabled := true)];
        }
        if modelRef.Some? {
          agents := agents[name := agents[name].(modelRef := modelRef)];
        }
        assert agents == WithUserConfig(old(agents), name, disable, modelRef);
      } else {
        var def := Builtin(name, "", All).(native := false, disabled := disable);
        if modelRef.Some? {
          def := def.(modelRef := modelRef);
        }
        agents := agents[name := def];
      }
    }

    method SetDisabled(name: string, disabled: bool) returns (found: bool)
      modifies this
      ensures agents == WithDisabled(old(agents), name, disabled)
      ensures found <==> name in old(agents)
    {
      found := name in agents;
      if found {
        agents := agents[name := agents[name].(disabled := disabled)];
      }
    }

    method RegisterCustom(def: Definition)
      modifies this
      ensures agents == WithCustom(old(agents), def)
    {
      agents := agents[def.name := def];
    }

    /** Lines 225-237, for a file that holds `file`, or cannot be read. */
    method LoadFrom(file: Option<seq<Definition>>)
      requires agents == Seed()
      modifies this
      ensures agents == Loaded(file)
    {
      if file.None? {
        return;
      }
      for i := 0 to |file.value|
        invariant agents == InsertAll(Seed(), file.value[..i])
      {
        assert file.value[..i + 1][..i] == file.value[..i];
        agents := agents[file.value[i].name := file.value[i]];
      }
      assert file.value[..|file.value|] == file.value;
    }
  }
}
