/**
 * The earlier, panicking command loop of the browser extension
 * (packages/voxurf-extension/src/command.rs). It reconstitutes the tree by the same rules as
 * `get_ax_tree` in compute_tree.rs, renders it with " with value " for a node's state, asks
 * the model, parses the block its regular expression captures with the same line grammar as
 * the executor's parser, and clicks and fills through a map of selectors, for at most
 * `MAX_TRIPS` trips.
 *
 * Every `panic!`, `expect` and `unwrap` that can fail becomes a `Panic` value that ends the
 * command. The page, the selector lookup, the model and the regular expression's capture are
 * oracles; the clicks and fills issued are recorded, in order, as effects.
 */
module LegacyCommand {
  import opened Wrappers
  import opened StdStr
  import opened Tree
  import opened Errors
  import opened ActionParser
  import opened Prompt
  import opened TreePaths
  import opened ComputeTree

  /** The most round trips made with the model. */
  const MAX_TRIPS: nat := 2

  /** The legacy rendering introduces a node's state with this text. */
  const VALUE_LABEL: string := " with value "

  /** Why the command aborted. */
  datatype Panic =
    | TreeUndeserialisable(source: string)  // `from_value(..).unwrap()` on the raw tree
    | TreeNotReconstituted                  // records still waiting after `MAX_ITERS` passes
    | NoSelector(domId: U32)                // `dom_id_to_selector(..).as_string().unwrap()`
    | ModelFailed(source: string)           // `OpenAiApi::call(..).unwrap()`
    | InvalidResponse                       // no fenced block in the answer
    | BadAction(error: ActionParseError)    // a parser `expect` or `panic!`; `PanicText` is its message
    | InvalidId(id: U32)                    // an action's id without a selector

  /** How the command ended without a result: a trip's panic, or the loop's own when no trip completed the group. */
  datatype Abort = Panicked(panic: Panic) | NotCompleted

  /**
   * The browser and the model, trip by trip: the raw tree the page gives, the selector of a
   * DOM id (or none when it is not a string), the model's answer to a prompt, and the block
   * the answer's fence expression captures.
   */
  datatype Env = Env(
    rawTree: nat -> Result<seq<AxNode>, string>,
    selector: (nat, U32) -> Option<string>,
    llm: (nat, string) -> Result<string, string>,
    fence: string -> Option<string>,
    template: string)

  /** A call issued on the page: `click_element` or `fill_element` with the element's selector. */
  datatype Effect = ClickAt(selector: string) | FillAt(selector: string, text: string)

  // ---------------------------------------------------------------- the tree

  /** The legacy `get_ax_tree`: reconstitution, with its two failures turned into panics. */
  function AxTree(raw: Result<seq<AxNode>, string>): Result<Tree, Panic>
  {
    match Reconstitute(raw)
    case Ok(t) => Ok(t)
    case Err(AxTreeParseFailed(e)) => Err(TreeUndeserialisable(e))
    case Err(_) => Err(TreeNotReconstituted)
  }

  /**
   * The legacy tree has one selector per node, the selectors of its nodes; a raw tree that
   * does not deserialise and one that is never reconstituted are the two panics.
   */
  lemma AxTreeResult(raw: Result<seq<AxNode>, string>)
    ensures var r := AxTree(raw);
      && (r.Ok? ==> multiset(r.value.selectors) == ForestSelectors(r.value.roots)
                    && |r.value.selectors| == ForestSize(r.value.roots))
      && (r.Err? ==> r.error == if raw.Err? then TreeUndeserialisable(raw.error) else TreeNotReconstituted)
  {
    ReconstituteResult(raw);
  }

  /** One pass, counting the nodes inserted as the legacy loop does. */
  method CountingSweep(tree: seq<Node>, domIds: seq<U32>, nodesRefMap: map<string, seq<nat>>,
                       flat: seq<Option<Intermediate>>, numInserted: nat)
    returns (tree': seq<Node>, domIds': seq<U32>, nodesRefMap': map<string, seq<nat>>,
             flat': seq<Option<Intermediate>>, numInserted': nat)
    requires Valid(Arena(tree, domIds, nodesRefMap)) && numInserted == |domIds|
    ensures Sweep(Arena(tree, domIds, nodesRefMap), flat, 0) == (Arena(tree', domIds', nodesRefMap'), flat')
    ensures Valid(Arena(tree', domIds', nodesRefMap')) && numInserted' == |domIds'|
  {
    tree', domIds', nodesRefMap', flat', numInserted' := tree, domIds, nodesRefMap, flat, numInserted;
    ghost var start := Sweep(Arena(tree, domIds, nodesRefMap), flat, 0);
    var i := 0;
    while i < |flat'|
      invariant i <= |flat'|
      invariant Valid(Arena(tree', domIds', nodesRefMap')) && numInserted' == |domIds'|
      invariant Sweep(Arena(tree', domIds', nodesRefMap'), flat', i) == start
      decreases |flat'| - i
    {
      var nodeOpt := flat'[i];
      ghost var flat0 := flat';
      flat' := flat'[i := None];
      if nodeOpt.Some? {
        var node := nodeOpt.value;
        var placed;
        PlaceValid(Arena(tree', domIds', nodesRefMap'), node);
        placed, tree', domIds', nodesRefMap' := PlaceRecord(tree', domIds', nodesRefMap', node);
        if !placed {
          flat' := flat'[i := nodeOpt];
          assert flat' == flat0;
        } else if !node.remove {
          numInserted' := numInserted' + 1;
        }
      } else {
        assert flat' == flat0;
      }
      i := i + 1;
    }
  }

  /** The legacy pass loop; `num_inserted` always equals the number of selectors collected. */
  method GetAxTree(raw: Result<seq<AxNode>, string>) returns (r: Result<Tree, Panic>, numInserted: nat)
    ensures r == AxTree(raw)
    ensures r.Ok? ==> numInserted == |r.value.selectors|
  {
    numInserted := 0;
    var nodes;
    match raw {
      case Err(e) => return Err(TreeUndeserialisable(e)), 0;
      case Ok(ns) => nodes := ns;
    }
    var flat := Flat(nodes);
    var tree: seq<Node> := [];
    var domIds: seq<U32> := [];
    var nodesRefMap: map<string, seq<nat>> := map[];
    var iters := 0;
    assert Valid(EMPTY);
    while AnyLeft(flat) && iters < MAX_ITERS
      invariant iters <= MAX_ITERS
      invariant Valid(Arena(tree, domIds, nodesRefMap)) && numInserted == |domIds|
      invariant Passes(Arena(tree, domIds, nodesRefMap), flat, iters) == Reconstitute(raw)
      decreases MAX_ITERS - iters
    {
      tree, domIds, nodesRefMap, flat, numInserted := CountingSweep(tree, domIds, nodesRefMap, flat, numInserted);
      iters := iters + 1;
    }
    if AnyLeft(flat) {
      return Err(TreeNotReconstituted), numInserted;
    }
    return Ok(Tree(tree, domIds)), numInserted;
  }

  // ---------------------------------------------------------------- selectors

  /**
   * The selector map built from the tree's DOM ids, on top of `m`: every id gets the
   * selector the page gives for it, and the first id without one aborts.
   */
  function SelectorMap(sel: U32 -> Option<string>, ids: seq<U32>, m: map<U32, string>): Result<map<U32, string>, Panic>
    decreases |ids|
  {
    if ids == [] then Ok(m)
    else match sel(ids[0])
      case None => Err(NoSelector(ids[0]))
      case Some(s) => SelectorMap(sel, ids[1..], m[ids[0] := s])
  }

  /**
   * The map is built exactly when every id has a selector; it then maps each id to its
   * selector and keeps the rest of `m`; otherwise the panic names an id without one.
   */
  lemma {:induction false} SelectorMapSpec(sel: U32 -> Option<string>, ids: seq<U32>, m: map<U32, string>)
    ensures var r := SelectorMap(sel, ids, m);
      && (r.Ok? <==> forall k | 0 <= k < |ids| :: sel(ids[k]).Some?)
      && (r.Ok? ==> r.value.Keys == m.Keys + (set k | 0 <= k < |ids| :: ids[k]))
      && (r.Ok? ==> forall k | 0 <= k < |ids| :: r.value[ids[k]] == sel(ids[k]).value)
      && (r.Ok? ==> forall id | id in m && id !in ids :: r.value[id] == m[id])
      && (r.Err? ==> r.error.NoSelector? && r.error.domId in ids && sel(r.error.domId).None?)
    decreases |ids|
  {
    if ids != [] && sel(ids[0]).Some? {
      var r := SelectorMap(sel, ids[1..], m[ids[0] := sel(ids[0]).value]);
      SelectorMapSpec(sel, ids[1..], m[ids[0] := sel(ids[0]).value]);
      assert forall k | 1 <= k < |ids| :: ids[k] == ids[1..][k - 1];
      assert r.Ok? ==> (set k | 0 <= k < |ids| :: ids[k]) == {ids[0]} + (set k | 0 <= k < |ids[1..]| :: ids[1..][k]);
    }
  }

  /** The loop that fills `dom_id_map`. */
  method BuildSelectorMap(sel: U32 -> Option<string>, ids: seq<U32>) returns (r: Result<map<U32, string>, Panic>)
    ensures r == SelectorMap(sel, ids, map[])
  {
    var domIdMap: map<U32, string> := map[];
    var i := 0;
    while i < |ids|
      invariant i <= |ids|
      invariant SelectorMap(sel, ids[i..], domIdMap) == SelectorMap(sel, ids, map[])
    {
      assert ids[i..][0] == ids[i] && ids[i..][1..] == ids[i + 1..];
      var selector := sel(ids[i]);
      if selector.None? {
        return Err(NoSelector(ids[i]));
      }
      domIdMap := domIdMap[ids[i] := selector.value];
      i := i + 1;
    }
    assert ids[i..] == [];
    return Ok(domIdMap);
  }

  // ---------------------------------------------------------------- the model's answer

  /** The text each parser error panics with. */
  function PanicText(e: ActionParseError): string
  {
    match e
    case MissingId(ty) => if ty == "CLICK" then "expected id in click stage" else "expected id in fill stage"
    case NonIntegerId(_) => "expected integer id"
    case MissingTextInType => "expected text in fill stage"
    case TextInTypeNotSingleQuoted(_) => "expected text in fill stage to be single-quoted"
    case MissingDescription => "expected description in wait stage"
    case ActionsAfterFinish => "found stages after finish"
  }

  /** `get_llm_response`: ask, find the fenced block, and parse its trimmed lines. */
  function Answer(env: Env, trip: nat, prompt: string): Result<ActionGroup, Panic>
  {
    match env.llm(trip, prompt)
    case Err(e) => Err(ModelFailed(e))
    case Ok(response) =>
      match env.fence(response)
      case None => Err(InvalidResponse)
      case Some(block) =>
        match Parse(Lines(Trim(block)))
        case Err(e) => Err(BadAction(e))
        case Ok(g) => Ok(g)
  }

  method GetLlmResponse(env: Env, trip: nat, prompt: string) returns (r: Result<ActionGroup, Panic>)
    ensures r == Answer(env, trip, prompt)
  {
    var response;
    match env.llm(trip, prompt) {
      case Err(e) => return Err(ModelFailed(e));
      case Ok(s) => response := s;
    }
    var captures := env.fence(response);
    if captures.None? {
      return Err(InvalidResponse);
    }
    var parsed := ParseActionStrings(Lines(Trim(captures.value)));
    match parsed {
      case Err(e) => return Err(BadAction(e));
      case Ok(g) => return Ok(g);
    }
  }

  // ---------------------------------------------------------------- carrying out a group

  /** The page call an action whose id has a selector makes. */
  function EffectOf(m: map<U32, string>, a: Action): Effect
    requires a.id in m
  {
    match a
    case Click(id) => ClickAt(m[id])
    case Type(id, text) => FillAt(m[id], text)
  }

  /**
   * `ActionGroup::execute`: every action up to the first one whose id has no selector is
   * carried out in order; that one aborts before its own call is made.
   */
  function Perform(m: map<U32, string>, actions: seq<Action>): (seq<Effect>, Outcome<Panic>)
    decreases |actions|
  {
    if actions == [] then ([], Pass)
    else if actions[0].id !in m then ([], Fail(InvalidId(actions[0].id)))
    else
      var (rest, o) := Perform(m, actions[1..]);
      ([EffectOf(m, actions[0])] + rest, o)
  }

  /**
   * The effects are those of a prefix of the actions, every one with a selector; the group
   * passes exactly when every id has one, and otherwise fails on the first that has none.
   */
  lemma {:induction false} PerformSpec(m: map<U32, string>, actions: seq<Action>)
    ensures var (effects, o) := Perform(m, actions);
      && |effects| <= |actions|
      && (forall k | 0 <= k < |effects| :: actions[k].id in m && effects[k] == EffectOf(m, actions[k]))
      && (o.Pass? <==> forall k | 0 <= k < |actions| :: actions[k].id in m)
      && (o.Pass? ==> |effects| == |actions|)
      && (o.Fail? ==> |effects| < |actions| && actions[|effects|].id !in m && o.error == InvalidId(actions[|effects|].id))
    decreases |actions|
  {
    if actions != [] && actions[0].id in m {
      PerformSpec(m, actions[1..]);
      assert forall k | 1 <= k < |actions| :: actions[k] == actions[1..][k - 1];
    }
  }

  method ExecuteGroup(m: map<U32, string>, actions: seq<Action>) returns (effects: seq<Effect>, outcome: Outcome<Panic>)
    ensures (effects, outcome) == Perform(m, actions)
  {
    effects := [];
    var i := 0;
    while i < |actions|
      invariant i <= |actions| && |effects| == i
      invariant forall k | 0 <= k < i :: actions[k].id in m && effects[k] == EffectOf(m, actions[k])
    {
      var action := actions[i];
      if action.id !in m {
        outcome := Fail(InvalidId(action.id));
        PerformUnique(m, actions, effects, outcome);
        return;
      }
      var querySelector := m[action.id];
      var effect := match action
        case Click(_) => ClickAt(querySelector)
        case Type(_, text) => FillAt(querySelector, text);
      effects := effects + [effect];
      i := i + 1;
    }
    outcome := Pass;
    PerformUnique(m, actions, effects, outcome);
  }

  /** What `Perform` promises determines its result. */
  lemma PerformUnique(m: map<U32, string>, actions: seq<Action>, effects: seq<Effect>, outcome: Outcome<Panic>)
    requires |effects| <= |actions|
    requires forall k | 0 <= k < |effects| :: actions[k].id in m && effects[k] == EffectOf(m, actions[k])
    requires outcome.Pass? ==> |effects| == |actions|
    requires outcome.Fail? ==> |effects| < |actions| && actions[|effects|].id !in m && outcome.error == InvalidId(actions[|effects|].id)
    ensures (effects, outcome) == Perform(m, actions)
  {
    PerformSpec(m, actions);
    var (e, o) := Perform(m, actions);
    assert |e| == |effects|;
    assert e == effects;
  }

  // ---------------------------------------------------------------- trips

  /** What one trip did on the page and what it came to. */
  datatype TripResult = TripResult(effects: seq<Effect>, outcome: Result<ActionGroup, Panic>)

  /** The prompt of a trip: the trimmed legacy tree text, the command and the earlier descriptions. */
  function LegacyPrompt(env: Env, command: string, tree: Tree, previous: seq<string>): string
  {
    AssemblePrompt(env.template, Trim(TreeText(tree.roots, VALUE_LABEL)), command, previous)
  }

  /** Trip `trip`: tree, selectors, prompt, answer, then the actions. */
  function LegacyTrip(env: Env, command: string, trip: nat, previous: seq<string>): TripResult
  {
    match AxTree(env.rawTree(trip))
    case Err(p) => TripResult([], Err(p))
    case Ok(tree) =>
      match SelectorMap((id: U32) => env.selector(trip, id), tree.selectors, map[])
      case Err(p) => TripResult([], Err(p))
      case Ok(m) =>
        match Answer(env, trip, LegacyPrompt(env, command, tree, previous))
        case Err(p) => TripResult([], Err(p))
        case Ok(g) =>
          var (effects, o) := Perform(m, g.actions);
          TripResult(effects, if o.Fail? then Err(o.error) else Ok(g))
  }

  /** The work of a trip given its number and the descriptions so far. */
  type LegacyWork = (nat, seq<string>) -> TripResult

  function WorkOf(env: Env, command: string): LegacyWork
  {
    (trip: nat, previous: seq<string>) => LegacyTrip(env, command, trip, previous)
  }

  /**
   * The trips from `trip` on: the effects of every trip made, and the descriptions joined
   * when a group is complete; no trip is made at the limit.
   */
  function Trips(work: LegacyWork, trip: nat, previous: seq<string>): (seq<Effect>, Result<string, Abort>)
    requires trip <= MAX_TRIPS
    decreases MAX_TRIPS - trip
  {
    if trip == MAX_TRIPS then ([], Err(NotCompleted))
    else
      var w := work(trip, previous);
      match w.outcome
      case Err(p) => (w.effects, Err(Panicked(p)))
      case Ok(g) =>
        if g.complete then (w.effects, Ok(Join(previous + [g.description], "\n")))
        else
          var (later, r) := Trips(work, trip + 1, previous + [g.description]);
          (w.effects + later, r)
  }

  /** The legacy `execute_command`. */
  function LegacyCommandRun(env: Env, command: string): (seq<Effect>, Result<string, Abort>)
  {
    Trips(WorkOf(env, command), 0, [])
  }

  /** One pass of the trip loop's body, up to and including the group's execution. */
  method TakeTrip(env: Env, command: string, trip: nat, previous: seq<string>) returns (r: TripResult)
    ensures r == LegacyTrip(env, command, trip, previous)
  {
    var tree, _ := GetAxTree(env.rawTree(trip));
    if tree.Err? {
      return TripResult([], Err(tree.error));
    }
    var domIdMap := BuildSelectorMap((id: U32) => env.selector(trip, id), tree.value.selectors);
    if domIdMap.Err? {
      return TripResult([], Err(domIdMap.error));
    }
    var treeStr := BuildTreeText(tree.value.roots, VALUE_LABEL);
    var prompt := AssemblePrompt(env.template, Trim(treeStr), command, previous);
    var actions := GetLlmResponse(env, trip, prompt);
    if actions.Err? {
      return TripResult([], Err(actions.error));
    }
    var effects, outcome := ExecuteGroup(domIdMap.value, actions.value.actions);
    if outcome.Fail? {
      return TripResult(effects, Err(outcome.error));
    }
    return TripResult(effects, Ok(actions.value));
  }

  /** The legacy `execute_command`. */
  method ExecuteCommand(env: Env, command: string) returns (effects: seq<Effect>, r: Result<string, Abort>)
    ensures (effects, r) == LegacyCommandRun(env, command)
  {
    effects, r := TripLoop(env, command, WorkOf(env, command));
  }

  /**
   * `work(t, p)` is what trip `t` comes to after the descriptions `p`. The quantifier is
   * triggered by the trip itself, so that the loop below can reason about `work` without
   * looking inside every trip.
   */
  ghost predicate Implements(work: LegacyWork, env: Env, command: string)
  {
    forall t: nat, p: seq<string> {:trigger LegacyTrip(env, command, t, p)} :: work(t, p) == LegacyTrip(env, command, t, p)
  }

  /** The trip loop; `effects` collects the page calls of every trip in order. */
  method TripLoop(env: Env, command: string, ghost work: LegacyWork) returns (effects: seq<Effect>, r: Result<string, Abort>)
    requires Implements(work, env, command)
    ensures (effects, r) == Trips(work, 0, [])
  {
    ghost var total := Trips(work, 0, []);
    effects := [];
    var previousActions: seq<string> := [];
    var numTrips := 0;
    while numTrips < MAX_TRIPS
      invariant numTrips <= MAX_TRIPS
      invariant Continues(work, total, effects, numTrips, previousActions)
      decreases MAX_TRIPS - numTrips
    {
      var done;
      done, effects, previousActions, r := NextTrip(env, command, work, total, effects, numTrips, previousActions);
      if done {
        return;
      }
      numTrips := numTrips + 1;
    }
    TripsEnd(work, total, effects, previousActions);
    return effects, Err(NotCompleted);
  }

  /**
   * One pass of the loop's body: the trip, then either the command's end (a panic or a
   * complete group) or the next trip.
   */
  method NextTrip(env: Env, command: string, ghost work: LegacyWork, ghost total: (seq<Effect>, Result<string, Abort>),
                  effects: seq<Effect>, numTrips: nat, previousActions: seq<string>)
    returns (done: bool, effects': seq<Effect>, previousActions': seq<string>, r: Result<string, Abort>)
    requires Implements(work, env, command) && numTrips < MAX_TRIPS
    requires Continues(work, total, effects, numTrips, previousActions)
    ensures done ==> total == (effects', r)
    ensures !done ==> Continues(work, total, effects', numTrips + 1, previousActions')
  {
    var step := TakeTrip(env, command, numTrips, previousActions);
    TripsStep(work, total, effects, numTrips, previousActions, step);
    if step.outcome.Err? {
      return true, effects + step.effects, previousActions, Err(Panicked(step.outcome.error));
    }
    var actions := step.outcome.value;
    effects' := effects + step.effects;
    previousActions' := previousActions + [actions.description];
    if actions.complete {
      return true, effects', previousActions', Ok(Join(previousActions', "\n"));
    }
    return false, effects', previousActions', Err(NotCompleted);
  }

  /** The loop so far, followed by the trips from `trip` on, is the whole command. */
  ghost predicate Continues(work: LegacyWork, total: (seq<Effect>, Result<string, Abort>), effects: seq<Effect>,
                            trip: nat, previous: seq<string>)
  {
    trip <= MAX_TRIPS && effects + Trips(work, trip, previous).0 == total.0 && Trips(work, trip, previous).1 == total.1
  }

  /** One trip of the loop: how `Continues` carries over to the next trip or the result. */
  lemma TripsStep(work: LegacyWork, total: (seq<Effect>, Result<string, Abort>), effects: seq<Effect>,
                  trip: nat, previous: seq<string>, step: TripResult)
    requires trip < MAX_TRIPS && Continues(work, total, effects, trip, previous) && step == work(trip, previous)
    ensures step.outcome.Err? ==> total == (effects + step.effects, Err(Panicked(step.outcome.error)))
    ensures step.outcome.Ok? && step.outcome.value.complete ==>
      total == (effects + step.effects, Ok(Join(previous + [step.outcome.value.description], "\n")))
    ensures step.outcome.Ok? && !step.outcome.value.complete ==>
      Continues(work, total, effects + step.effects, trip + 1, previous + [step.outcome.value.description])
  {
    if step.outcome.Ok? && !step.outcome.value.complete {
      AppendAssoc(effects, step.effects, Trips(work, trip + 1, previous + [step.outcome.value.description]).0);
    }
  }

  /** At the limit no trip is left: the command has not completed. */
  lemma TripsEnd(work: LegacyWork, total: (seq<Effect>, Result<string, Abort>), effects: seq<Effect>, previous: seq<string>)
    requires Continues(work, total, effects, MAX_TRIPS, previous)
    ensures total == (effects, Err(NotCompleted))
  {
    assert effects + [] == effects;
  }

  lemma AppendAssoc(a: seq<Effect>, b: seq<Effect>, c: seq<Effect>)
    ensures a + b + c == a + (b + c)
  {
  }

  // ---------------------------------------------------------------- what the legacy parser panics on

  /**
   * A WAIT with a line after it is honoured: the answer is the plain lines' actions, not
   * complete, with the WAIT's trimmed description; whatever follows is never looked at.
   */
  lemma AnswerWaitStops(env: Env, trip: nat, prompt: string, response: string, block: string,
                        pre: seq<string>, d: string, post: seq<string>)
    requires env.llm(trip, prompt) == Ok(response) && env.fence(response) == Some(block)
    requires Lines(Trim(block)) == pre + ["WAIT " + d] + post
    requires AllPlain(pre) && PlainActions(pre).Ok? && d != [] && post != []
    ensures Answer(env, trip, prompt) == Ok(ActionGroup(PlainActions(pre).value, Trim(d), false))
  {
    WaitStops(pre, d, post);
  }

  /** A WAIT on the last line is ignored. */
  lemma AnswerTrailingWait(env: Env, trip: nat, prompt: string, response: string, block: string,
                           pre: seq<string>, d: string)
    requires env.llm(trip, prompt) == Ok(response) && env.fence(response) == Some(block)
    requires Lines(Trim(block)) == pre + ["WAIT " + d]
    requires AllPlain(pre) && PlainActions(pre).Ok?
    ensures Answer(env, trip, prompt) == Ok(ActionGroup(PlainActions(pre).value, "", true))
  {
    TrailingWait(pre, d);
    NoControlLines(pre);
  }

  /** Any line after a described FINISH aborts with "found stages after finish". */
  lemma AnswerAfterFinish(env: Env, trip: nat, prompt: string, response: string, block: string,
                          pre: seq<string>, d: string, post: seq<string>)
    requires env.llm(trip, prompt) == Ok(response) && env.fence(response) == Some(block)
    requires Lines(Trim(block)) == pre + ["FINISH " + d] + post
    requires AllPlain(pre) && PlainActions(pre).Ok? && d != [] && post != []
    ensures Answer(env, trip, prompt) == Err(BadAction(ActionsAfterFinish))
  {
    FinishNotLast(pre, d, post);
  }

  /** FILL text without single quotes around it aborts, naming the text. */
  lemma AnswerUnquotedFill(env: Env, trip: nat, prompt: string, response: string, block: string,
                           pre: seq<string>, tok: string, text: string, post: seq<string>)
    requires env.llm(trip, prompt) == Ok(response) && env.fence(response) == Some(block)
    requires Lines(Trim(block)) == pre + ["FILL " + tok + " " + text] + post
    requires AllPlain(pre) && PlainActions(pre).Ok?
    requires ' ' !in tok && ParseU32(StripBrackets(tok)).Some?
    requires !(|text| >= 2 && text[0] == '\'' && text[|text| - 1] == '\'')
    ensures Answer(env, trip, prompt) == Err(BadAction(TextInTypeNotSingleQuoted(text)))
  {
    FillNotQuoted(tok, text, post != []);
    Rejected(pre, "FILL " + tok + " " + text, post, TextInTypeNotSingleQuoted(text));
  }

  /** A CLICK without an id aborts with "expected id in click stage". */
  lemma AnswerBareClick(env: Env, trip: nat, prompt: string, response: string, block: string,
                        pre: seq<string>, post: seq<string>)
    requires env.llm(trip, prompt) == Ok(response) && env.fence(response) == Some(block)
    requires Lines(Trim(block)) == pre + ["CLICK"] + post
    requires AllPlain(pre) && PlainActions(pre).Ok?
    ensures Answer(env, trip, prompt) == Err(BadAction(MissingId("CLICK")))
  {
    MissingIdBare(post != []);
    Rejected(pre, "CLICK", post, MissingId("CLICK"));
  }

  /** A line the parser rejects after plain lines makes the whole block fail with its error. */
  lemma Rejected(pre: seq<string>, line: string, post: seq<string>, e: ActionParseError)
    requires AllPlain(pre) && PlainActions(pre).Ok? && Interpret(line, post != []) == Reject(e)
    ensures Parse(pre + [line] + post) == Err(e)
  {
    AroundRun(pre, line, post);
    StepsCons(line, post);
  }

  // ---------------------------------------------------------------- what a command comes to

  /**
   * The loop by its two trips, for any work: the first trip's page calls, then the second's
   * when the first gave an incomplete group; `NotCompleted` exactly when both trips gave
   * incomplete groups; a trip's panic exactly when the first trip, or the second one made,
   * panicked; and otherwise the description of the first trip, followed on a new line by the
   * second's when one was made.
   */
  lemma TwoTrips(work: LegacyWork)
    ensures var (effects, r) := Trips(work, 0, []);
      var w0 := work(0, []);
      var goOn := w0.outcome.Ok? && !w0.outcome.value.complete;
      var w1 := work(1, if goOn then [w0.outcome.value.description] else []);
      && effects == w0.effects + (if goOn then w1.effects else [])
      && (r == Err(NotCompleted) <==> goOn && w1.outcome.Ok? && !w1.outcome.value.complete)
      && (r.Err? && r.error.Panicked? <==> w0.outcome.Err? || (goOn && w1.outcome.Err?))
      && (r.Err? && r.error.Panicked? ==> r.error.panic == if w0.outcome.Err? then w0.outcome.error else w1.outcome.error)
      && (r.Ok? <==> (w0.outcome.Ok? && w0.outcome.value.complete) || (goOn && w1.outcome.Ok? && w1.outcome.value.complete))
      && (r.Ok? ==> r.value == (if goOn then w0.outcome.value.description + "\n" + w1.outcome.value.description
                                else w0.outcome.value.description))
  {
    var w0 := work(0, []);
    if w0.outcome.Ok? && !w0.outcome.value.complete {
      var p := [w0.outcome.value.description];
      assert [] + p == p;
      assert Trips(work, 2, p) == ([], Err(NotCompleted));
      var w1 := work(1, p);
      if w1.outcome.Ok? {
        var parts := p + [w1.outcome.value.description];
        assert parts[1..] == [w1.outcome.value.description];
        assert Join(parts, "\n") == w0.outcome.value.description + "\n" + w1.outcome.value.description;
      }
    } else {
      assert w0.effects + [] == w0.effects;
    }
  }

  /**
   * The command's outcome by its two trips: it carries the first trip's page calls, then the
   * second's when the first gave an incomplete group; it aborts with `NotCompleted` exactly
   * when both trips gave incomplete groups, and with a trip's panic exactly when a trip it
   * made panicked; otherwise it returns the first trip's description, followed on a new line
   * by the second's when one was made.
   */
  lemma CommandByTrips(env: Env, command: string)
    ensures var (effects, r) := LegacyCommandRun(env, command);
      var w0 := LegacyTrip(env, command, 0, []);
      var goOn := w0.outcome.Ok? && !w0.outcome.value.complete;
      var w1 := LegacyTrip(env, command, 1, if goOn then [w0.outcome.value.description] else []);
      && effects == w0.effects + (if goOn then w1.effects else [])
      && (r == Err(NotCompleted) <==> goOn && w1.outcome.Ok? && !w1.outcome.value.complete)
      && (r.Err? && r.error.Panicked? <==> w0.outcome.Err? || (goOn && w1.outcome.Err?))
      && (r.Err? && r.error.Panicked? ==> r.error.panic == if w0.outcome.Err? then w0.outcome.error else w1.outcome.error)
      && (r.Ok? <==> (w0.outcome.Ok? && w0.outcome.value.complete) || (goOn && w1.outcome.Ok? && w1.outcome.value.complete))
      && (r.Ok? ==> r.value == (if goOn then w0.outcome.value.description + "\n" + w1.outcome.value.description
                                else w0.outcome.value.description))
  {
    TwoTrips(WorkOf(env, command));
  }
}
