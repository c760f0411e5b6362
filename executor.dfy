/**
 * `Executor` (packages/voxurf/src/executor.rs): carrying out a natural-language command in
 * round trips. Each trip takes the element tree (directly on the first trip, through the
 * stability monitor afterwards), prompts the model, parses the fenced block of its answer
 * and carries out the actions; a complete group ends the command.
 *
 * The interface and the model are oracles. The interface's operations take the number of
 * interface calls made earlier in the command, the model the number of earlier prompts, so
 * that every run of the command is a function of its inputs.
 */
module Executor {
  import opened Wrappers
  import opened StdStr
  import opened Tree
  import opened Errors
  import opened ActionParser
  import opened Prompt
  import opened Stability

  /** The interface's operations; selectors are the interface's `u32` element ids. */
  datatype Interface = Interface(
    computeTree: nat -> Result<Tree, string>,
    primaryClick: (nat, U32) -> Outcome<string>,
    typeInto: (nat, U32, string) -> Outcome<string>)

  /** The model's answer to the prompt of a trip, or its error message. */
  type Model = (nat, string) -> Result<string, string>

  /** An executor with its options, the prompt template, and its map of ids to selectors. */
  datatype Executor = Executor(
    iface: Interface,
    model: Model,
    opts: ExecutorOpts,
    template: string,
    idMap: map<U32, U32>)

  /** `Executor::new`: the id map starts empty, and nothing in the executor ever fills it. */
  function New(iface: Interface, model: Model, opts: ExecutorOpts, template: string): (ex: Executor)
    ensures ex.idMap == map[] && ex.opts == opts && ex.template == template
  {
    Executor(iface, model, opts, template, map[])
  }

  /** The stability monitor's polls when `calls` interface calls have been made. */
  function PollsFrom(iface: Interface, calls: nat): Poll
  {
    (k: nat) => iface.computeTree(calls + k)
  }

  // ---------------------------------------------------------------- actions

  /**
   * `execute_action`: look the id up, then click or type through the interface. The result
   * is the number of interface calls made afterwards. A click is a primary click on the
   * mapped selector, a fill types the action's text into it; either passes exactly when that
   * one call passes, and otherwise fails with the call's own message.
   */
  function ExecuteAction(idMap: map<U32, U32>, iface: Interface, calls: nat, a: Action): (r: Result<nat, ExecutionError>)
    ensures a.id !in idMap <==> r == Err(IdNotFound(a.id))
    ensures r.Ok? ==> r.value == calls + 1
    ensures r.Err? ==> r.error.IdNotFound? || r.error.InterfaceError?
    ensures a.Click? && a.id in idMap ==>
      var out := iface.primaryClick(calls, idMap[a.id]);
      (r.Ok? <==> out.Pass?) && (out.Fail? ==> r == Err(InterfaceError(out.error)))
    ensures a.Type? && a.id in idMap ==>
      var out := iface.typeInto(calls, idMap[a.id], a.text);
      (r.Ok? <==> out.Pass?) && (out.Fail? ==> r == Err(InterfaceError(out.error)))
  {
    if a.id !in idMap then Err(IdNotFound(a.id))
    else
      var outcome := match a
        case Click(_) => iface.primaryClick(calls, idMap[a.id])
        case Type(_, text) => iface.typeInto(calls, idMap[a.id], text);
      match outcome
      case Fail(e) => Err(InterfaceError(e))
      case Pass => Ok(calls + 1)
  }

  /** The actions of a group in order, stopping at the first failure. */
  function ExecuteActions(idMap: map<U32, U32>, iface: Interface, calls: nat, actions: seq<Action>): (r: Result<nat, ExecutionError>)
    ensures r.Ok? ==> r.value == calls + |actions|
    ensures r.Err? ==> r.error.IdNotFound? || r.error.InterfaceError?
    decreases |actions|
  {
    if actions == [] then Ok(calls)
    else match ExecuteAction(idMap, iface, calls, actions[0])
      case Err(e) => Err(e)
      case Ok(c) => ExecuteActions(idMap, iface, c, actions[1..])
  }

  /** The first `j` actions all pass, each after the interface calls of those before it. */
  ghost predicate AllPass(idMap: map<U32, U32>, iface: Interface, calls: nat, actions: seq<Action>, j: nat)
    requires j <= |actions|
  {
    forall i | 0 <= i < j :: ExecuteAction(idMap, iface, calls + i, actions[i]).Ok?
  }

  lemma AllPassShift(idMap: map<U32, U32>, iface: Interface, calls: nat, actions: seq<Action>, j: nat)
    requires j < |actions|
    ensures AllPass(idMap, iface, calls, actions, j + 1) <==>
      ExecuteAction(idMap, iface, calls, actions[0]).Ok? && AllPass(idMap, iface, calls + 1, actions[1..], j)
  {
    var rest := actions[1..];
    if ExecuteAction(idMap, iface, calls, actions[0]).Ok? && AllPass(idMap, iface, calls + 1, rest, j) {
      forall i | 0 < i < j + 1 ensures ExecuteAction(idMap, iface, calls + i, actions[i]).Ok? {
        assert actions[i] == rest[i - 1] && calls + i == calls + 1 + (i - 1);
      }
    }
    if AllPass(idMap, iface, calls, actions, j + 1) {
      assert ExecuteAction(idMap, iface, calls + 0, actions[0]).Ok?;
      forall i | 0 <= i < j ensures ExecuteAction(idMap, iface, calls + 1 + i, rest[i]).Ok? {
        assert rest[i] == actions[i + 1] && calls + 1 + i == calls + (i + 1);
      }
    }
  }

  /**
   * The actions run in order, each after the interface calls of those before it: the group
   * passes exactly when every action passes.
   */
  lemma {:induction false} ExecuteActionsAllPass(idMap: map<U32, U32>, iface: Interface, calls: nat, actions: seq<Action>)
    ensures ExecuteActions(idMap, iface, calls, actions).Ok? <==> AllPass(idMap, iface, calls, actions, |actions|)
    decreases |actions|
  {
    if actions != [] {
      AllPassShift(idMap, iface, calls, actions, |actions| - 1);
      if ExecuteAction(idMap, iface, calls, actions[0]).Ok? {
        ExecuteActionsAllPass(idMap, iface, calls + 1, actions[1..]);
      }
    }
  }

  /**
   * A failing group fails with the error of the first action that fails, every action
   * before it having passed.
   */
  lemma {:induction false} ExecuteActionsFirstFailure(idMap: map<U32, U32>, iface: Interface, calls: nat, actions: seq<Action>)
    ensures var r := ExecuteActions(idMap, iface, calls, actions);
      r.Err? ==> exists j | 0 <= j < |actions| ::
        AllPass(idMap, iface, calls, actions, j) && ExecuteAction(idMap, iface, calls + j, actions[j]) == Err(r.error)
    decreases |actions|
  {
    if actions != [] {
      var rest := actions[1..];
      var first := ExecuteAction(idMap, iface, calls, actions[0]);
      if first.Ok? {
        ExecuteActionsFirstFailure(idMap, iface, calls + 1, rest);
        var r := ExecuteActions(idMap, iface, calls + 1, rest);
        assert ExecuteActions(idMap, iface, calls, actions) == r;
        if r.Err? {
          var j :| 0 <= j < |rest| &&
            AllPass(idMap, iface, calls + 1, rest, j) && ExecuteAction(idMap, iface, calls + 1 + j, rest[j]) == Err(r.error);
          AllPassShift(idMap, iface, calls, actions, j);
          assert actions[j + 1] == rest[j] && calls + (j + 1) == calls + 1 + j;
          assert AllPass(idMap, iface, calls, actions, j + 1);
        }
      } else {
        assert ExecuteActions(idMap, iface, calls, actions) == first;
        assert AllPass(idMap, iface, calls, actions, 0);
        assert ExecuteAction(idMap, iface, calls + 0, actions[0]) == first;
      }
    }
  }

  /** With an empty id map the first action of any group fails, before any interface call. */
  lemma EmptyMapRejects(iface: Interface, calls: nat, actions: seq<Action>)
    requires actions != []
    ensures ExecuteActions(map[], iface, calls, actions) == Err(IdNotFound(actions[0].id))
  {
  }

  // ---------------------------------------------------------------- trips

  /** The prompt of a trip taken on `tree`, after the descriptions `previous`. */
  function TripPrompt(ex: Executor, command: string, tree: Tree, previous: seq<string>): string
  {
    AssemblePrompt(ex.template, TreeText(tree.roots, STATE_LABEL), command, previous)
  }

  /**
   * The work of trip `trip` on the tree `tree`, after `calls` interface calls and with the
   * descriptions of the earlier trips: prompt, parse and act. The result is the parsed group
   * and the number of interface calls made afterwards.
   */
  function TripActions(ex: Executor, command: string, trip: nat, calls: nat, tree: Tree, previous: seq<string>): (r: Result<(ActionGroup, nat), ExecutionError>)
    ensures r.Ok? ==> r.value.1 == calls + |r.value.0.actions|
    ensures r.Err? ==> r.error.ModelError? || r.error.ActionParse? || r.error.IdNotFound? || r.error.InterfaceError?
  {
    match ex.model(trip, TripPrompt(ex, command, tree, previous))
    case Err(e) => Err(ModelError(e))
    case Ok(response) =>
      match Parse(Fenced(Lines(response)))
      case Err(e) => Err(ActionParse(e))
      case Ok(group) =>
        match ExecuteActions(ex.idMap, ex.iface, calls, group.actions)
        case Err(e) => Err(e)
        case Ok(calls') => Ok((group, calls'))
  }

  /**
   * The tree a trip works on, and the interface calls made once it is known: the first trip
   * takes the tree as it is, later ones wait for the tree to settle after the previous trip's
   * tree `last` (present on every trip but the first).
   */
  function Acquire(ex: Executor, trip: nat, calls: nat, last: Option<Tree>): (r: Result<(Tree, nat), ExecutionError>)
  {
    if trip == 0 || last.None? then
      match ex.iface.computeTree(calls)
      case Err(e) => Err(InterfaceError(e))
      case Ok(t) => Ok((t, calls + 1))
    else
      match StableTree(ex.opts, PollsFrom(ex.iface, calls), last.value)
      case Err(e) => Err(e)
      case Ok((t, n)) => Ok((t, calls + n))
  }

  /** One trip: its tree, its group, and the interface calls made afterwards. */
  function TripOf(ex: Executor, command: string, trip: nat, calls: nat, last: Option<Tree>, previous: seq<string>): Result<(Tree, ActionGroup, nat), ExecutionError>
  {
    match Acquire(ex, trip, calls, last)
    case Err(e) => Err(e)
    case Ok((tree, c)) =>
      match TripActions(ex, command, trip, c, tree, previous)
      case Err(e) => Err(e)
      case Ok((group, c')) => Ok((tree, group, c'))
  }

  /** The work of one trip given its number, the calls so far, the last tree and the descriptions so far. */
  type TripWork = (nat, nat, Option<Tree>, seq<string>) -> Result<(Tree, ActionGroup, nat), ExecutionError>

  function Work(ex: Executor, command: string): TripWork
  {
    (trip: nat, calls: nat, last: Option<Tree>, previous: seq<string>) => TripOf(ex, command, trip, calls, last, previous)
  }

  /**
   * The trip loop from trip `trip` on, for any work per trip: a complete group ends the
   * command with all descriptions so far; no trip is left at the limit `max`.
   */
  function Rounds(work: TripWork, max: U32, trip: nat, calls: nat, last: Option<Tree>, previous: seq<string>): Result<string, ExecutionError>
    requires trip <= max
    decreases max - trip
  {
    if trip == max then Err(CommandNotFinished(trip))
    else
      match work(trip, calls, last, previous)
      case Err(e) => Err(e)
      case Ok((tree, group, c)) =>
        if group.complete then Ok(Join(previous + [group.description], "\n"))
        else Rounds(work, max, trip + 1, c, Some(tree), previous + [group.description])
  }

  /** `execute_command`: the trips from the first, with no tree yet and no interface call made. */
  function Command(ex: Executor, command: string): Result<string, ExecutionError>
  {
    Rounds(Work(ex, command), ex.opts.maxRoundTrips, 0, 0, None, [])
  }

  /** `execute_command`. */
  method ExecuteCommand(ex: Executor, command: string) returns (r: Result<string, ExecutionError>)
    ensures r == Command(ex, command)
  {
    r := TripLoop(ex, command, Work(ex, command));
  }

  /**
   * `work` gives what each trip comes to. The quantifier is triggered by the trip itself, so
   * that the loop below can reason about `work` without looking inside every trip.
   */
  ghost predicate Implements(work: TripWork, ex: Executor, command: string)
  {
    forall t: nat, c: nat, l: Option<Tree>, p: seq<string> {:trigger TripOf(ex, command, t, c, l, p)} ::
      work(t, c, l, p) == TripOf(ex, command, t, c, l, p)
  }

  /** The trip loop. */
  method TripLoop(ex: Executor, command: string, ghost work: TripWork) returns (r: Result<string, ExecutionError>)
    requires Implements(work, ex, command)
    ensures r == Rounds(work, ex.opts.maxRoundTrips, 0, 0, None, [])
  {
    var lastTree: Option<Tree> := None;
    var previousActions: seq<string> := [];
    var numTrips: nat := 0;
    var calls: nat := 0;
    while numTrips < ex.opts.maxRoundTrips
      invariant numTrips <= ex.opts.maxRoundTrips
      invariant Rounds(work, ex.opts.maxRoundTrips, numTrips, calls, lastTree, previousActions)
        == Rounds(work, ex.opts.maxRoundTrips, 0, 0, None, [])
      decreases ex.opts.maxRoundTrips - numTrips
    {
      var done;
      done, r, calls, lastTree, previousActions := NextRound(ex, command, work, numTrips, calls, lastTree, previousActions);
      if done {
        return;
      }
      numTrips := numTrips + 1;
    }
    r := Err(CommandNotFinished(numTrips));
  }

  /**
   * One pass of the loop's body: the trip, then either the command's end (an error or a
   * complete group) or the state the next trip starts from.
   */
  method NextRound(ex: Executor, command: string, ghost work: TripWork, numTrips: nat, calls: nat,
                   lastTree: Option<Tree>, previousActions: seq<string>)
    returns (done: bool, r: Result<string, ExecutionError>, calls': nat, lastTree': Option<Tree>, previousActions': seq<string>)
    requires Implements(work, ex, command) && numTrips < ex.opts.maxRoundTrips
    ensures var rest := Rounds(work, ex.opts.maxRoundTrips, numTrips, calls, lastTree, previousActions);
      && (done ==> r == rest)
      && (!done ==> Rounds(work, ex.opts.maxRoundTrips, numTrips + 1, calls', lastTree', previousActions') == rest)
  {
    var step := RunTrip(ex, command, numTrips, calls, lastTree, previousActions);
    assert step == work(numTrips, calls, lastTree, previousActions);
    var actions;
    match step {
      case Err(e) => return true, Err(e), calls, lastTree, previousActions;
      case Ok((t, g, c)) => lastTree' := Some(t); actions := g; calls' := c;
    }
    previousActions' := previousActions + [actions.description];
    if actions.complete {
      return true, Ok(Join(previousActions', "\n")), calls', lastTree', previousActions';
    }
    r := Err(CommandNotFinished(numTrips));
    done := false;
  }

  // ---------------------------------------------------------------- what a command comes to

  /** A trip never fails with `CommandNotFinished`: that error belongs to the loop alone. */
  lemma TripErrors(ex: Executor, command: string, trip: nat, calls: nat, last: Option<Tree>, previous: seq<string>)
    ensures var r := TripOf(ex, command, trip, calls, last, previous);
      r.Err? ==> !r.error.CommandNotFinished?
  {
    if trip > 0 && last.Some? {
      StableTreeErrors(ex.opts, PollsFrom(ex.iface, calls), last.value);
    }
  }

  /** The first trip takes one interface call for its tree and never waits for it to settle. */
  lemma FirstTripUnsettled(ex: Executor, calls: nat, last: Option<Tree>)
    ensures var r := Acquire(ex, 0, calls, last);
      && (r.Ok? <==> ex.iface.computeTree(calls).Ok?)
      && (r.Ok? ==> r.value == (ex.iface.computeTree(calls).value, calls + 1))
      && (r.Err? ==> r.error == InterfaceError(ex.iface.computeTree(calls).error))
  {
  }

  /** When no trip can fail with it, `CommandNotFinished` reports exactly the limit. */
  lemma {:induction false} RoundsNotFinished(work: TripWork, max: U32, trip: nat, calls: nat, last: Option<Tree>, previous: seq<string>)
    requires trip <= max
    requires forall t, c, l, p :: work(t, c, l, p).Err? ==> !work(t, c, l, p).error.CommandNotFinished?
    ensures var r := Rounds(work, max, trip, calls, last, previous);
      var t := Trace(work, max, trip, calls, last, previous);
      r.Err? && r.error.CommandNotFinished? ==>
        r.error.numTrips == max && (t == [] || (t[|t| - 1].Ok? && !t[|t| - 1].value.1.complete))
    decreases max - trip
  {
    if trip < max {
      var w := work(trip, calls, last, previous);
      if w.Ok? && !w.value.1.complete {
        var t' := Trace(work, max, trip + 1, w.value.2, Some(w.value.0), previous + [w.value.1.description]);
        RoundsNotFinished(work, max, trip + 1, w.value.2, Some(w.value.0), previous + [w.value.1.description]);
        assert Trace(work, max, trip, calls, last, previous) == [w] + t';
      }
    }
  }

  /** A trip's result: its tree, its group and the interface calls made afterwards, or its error. */
  type TripResult = Result<(Tree, ActionGroup, nat), ExecutionError>

  /**
   * The results of the trips the loop makes from trip `trip` on. Each trip starts from what
   * the one before it left (its calls, its tree, the descriptions so far); the list ends with
   * the first trip that fails or completes, or at the limit `max`.
   */
  ghost function Trace(work: TripWork, max: U32, trip: nat, calls: nat, last: Option<Tree>, previous: seq<string>): (t: seq<TripResult>)
    requires trip <= max
    ensures |t| <= max - trip
    ensures trip < max ==> t != [] && t[0] == work(trip, calls, last, previous)
    decreases max - trip
  {
    if trip == max then []
    else
      var w := work(trip, calls, last, previous);
      if w.Ok? && !w.value.1.complete then
        [w] + Trace(work, max, trip + 1, w.value.2, Some(w.value.0), previous + [w.value.1.description])
      else [w]
  }

  /** The descriptions of the groups of the successful trips of a trace, in order. */
  function Descriptions(t: seq<TripResult>): (ds: seq<string>)
    ensures (forall k | 0 <= k < |t| :: t[k].Ok?) ==>
      |ds| == |t| && forall k | 0 <= k < |t| :: ds[k] == t[k].value.1.description
  {
    if t == [] then []
    else
      assert forall k | 0 <= k < |t| - 1 :: t[1..][k] == t[k + 1];
      (if t[0].Ok? then [t[0].value.1.description] else []) + Descriptions(t[1..])
  }

  /**
   * The shape of a trace: every trip but the last returned an incomplete group, and when the
   * last one did too, every allowed trip was made.
   */
  lemma {:induction false} TraceShape(work: TripWork, max: U32, trip: nat, calls: nat, last: Option<Tree>, previous: seq<string>)
    requires trip <= max
    ensures var t := Trace(work, max, trip, calls, last, previous);
      && (forall k | 0 <= k < |t| - 1 :: t[k].Ok? && !t[k].value.1.complete)
      && (t == [] || (t[|t| - 1].Ok? && !t[|t| - 1].value.1.complete) ==> |t| == max - trip)
    decreases max - trip
  {
    if trip < max {
      var w := work(trip, calls, last, previous);
      if w.Ok? && !w.value.1.complete {
        var t' := Trace(work, max, trip + 1, w.value.2, Some(w.value.0), previous + [w.value.1.description]);
        TraceShape(work, max, trip + 1, w.value.2, Some(w.value.0), previous + [w.value.1.description]);
        var t := [w] + t';
        assert Trace(work, max, trip, calls, last, previous) == t;
        assert forall k | 1 <= k < |t| :: t[k] == t'[k - 1];
      }
    }
  }

  /**
   * The loop's outcome read off the trips it makes: it succeeds exactly when the last trip
   * completes; a failing last trip is the loop's error; and when the last trip, or the limit,
   * leaves the group incomplete, the loop fails with `CommandNotFinished` at the limit.
   */
  lemma {:induction false} RoundsTrace(work: TripWork, max: U32, trip: nat, calls: nat, last: Option<Tree>, previous: seq<string>)
    requires trip <= max
    ensures var t := Trace(work, max, trip, calls, last, previous);
      var r := Rounds(work, max, trip, calls, last, previous);
      && (r.Ok? <==> t != [] && t[|t| - 1].Ok? && t[|t| - 1].value.1.complete)
      && (t != [] && t[|t| - 1].Err? ==> r == Err(t[|t| - 1].error))
      && (t == [] || (t[|t| - 1].Ok? && !t[|t| - 1].value.1.complete) ==> r == Err(CommandNotFinished(max)))
    decreases max - trip
  {
    if trip < max {
      var w := work(trip, calls, last, previous);
      if w.Ok? && !w.value.1.complete {
        var t' := Trace(work, max, trip + 1, w.value.2, Some(w.value.0), previous + [w.value.1.description]);
        RoundsTrace(work, max, trip + 1, w.value.2, Some(w.value.0), previous + [w.value.1.description]);
        assert Trace(work, max, trip, calls, last, previous) == [w] + t';
      }
    }
  }

  /** A successful loop returns the descriptions so far and those of all its trips, joined by line breaks. */
  lemma {:induction false} RoundsJoin(work: TripWork, max: U32, trip: nat, calls: nat, last: Option<Tree>, previous: seq<string>)
    requires trip <= max
    ensures var r := Rounds(work, max, trip, calls, last, previous);
      r.Ok? ==> r.value == Join(previous + Descriptions(Trace(work, max, trip, calls, last, previous)), "\n")
    decreases max - trip
  {
    if trip < max {
      var w := work(trip, calls, last, previous);
      if w.Ok? {
        var d := w.value.1.description;
        if !w.value.1.complete {
          var t' := Trace(work, max, trip + 1, w.value.2, Some(w.value.0), previous + [d]);
          RoundsJoin(work, max, trip + 1, w.value.2, Some(w.value.0), previous + [d]);
          assert Trace(work, max, trip, calls, last, previous) == [w] + t';
          DescriptionsCons(previous, w, t');
        } else {
          assert Trace(work, max, trip, calls, last, previous) == [w] + [];
          DescriptionsCons(previous, w, []);
          assert (previous + [d]) + Descriptions([]) == previous + [d];
        }
      }
    }
  }

  lemma DescriptionsCons(previous: seq<string>, w: TripResult, t: seq<TripResult>)
    requires w.Ok?
    ensures previous + Descriptions([w] + t) == (previous + [w.value.1.description]) + Descriptions(t)
  {
    assert ([w] + t)[1..] == t;
  }

  /** With no round trips allowed the command fails straight away, before any interface call. */
  lemma NoRoundTrips(ex: Executor, command: string)
    requires ex.opts.maxRoundTrips == 0
    ensures Command(ex, command) == Err(CommandNotFinished(0))
  {
  }

  /**
   * `execute_command` read off the trips it makes: every trip but the last returned an
   * incomplete group; the command succeeds exactly when the last trip completes, with the
   * descriptions of all its trips joined by line breaks; a failing last trip is the command's
   * error; and it fails with `CommandNotFinished` carrying the limit exactly when every
   * allowed trip was made and was incomplete.
   */
  lemma CommandOutcome(ex: Executor, command: string)
    ensures var t := Trace(Work(ex, command), ex.opts.maxRoundTrips, 0, 0, None, []);
      var r := Command(ex, command);
      && (forall k | 0 <= k < |t| - 1 :: t[k].Ok? && !t[k].value.1.complete)
      && (r.Ok? <==> t != [] && t[|t| - 1].Ok? && t[|t| - 1].value.1.complete)
      && (r.Ok? ==> r.value == Join(Descriptions(t), "\n"))
      && (t != [] && t[|t| - 1].Err? ==> r == Err(t[|t| - 1].error))
      && (r.Err? && r.error.CommandNotFinished? <==>
            |t| == ex.opts.maxRoundTrips && (t == [] || (t[|t| - 1].Ok? && !t[|t| - 1].value.1.complete)))
      && (r.Err? && r.error.CommandNotFinished? ==> r.error.numTrips == ex.opts.maxRoundTrips)
  {
    var work := Work(ex, command);
    TraceShape(work, ex.opts.maxRoundTrips, 0, 0, None, []);
    RoundsTrace(work, ex.opts.maxRoundTrips, 0, 0, None, []);
    RoundsJoin(work, ex.opts.maxRoundTrips, 0, 0, None, []);
    assert forall ds: seq<string> :: [] + ds == ds;
    forall t, c, l, p ensures work(t, c, l, p).Err? ==> !work(t, c, l, p).error.CommandNotFinished? {
      TripErrors(ex, command, t, c, l, p);
    }
    RoundsNotFinished(work, ex.opts.maxRoundTrips, 0, 0, None, []);
  }

  /** The command as its first trip leaves it. */
  lemma FirstTrip(ex: Executor, command: string, tree: Tree)
    requires ex.opts.maxRoundTrips > 0
    requires ex.iface.computeTree(0) == Ok(tree)
    ensures var w := TripActions(ex, command, 0, 1, tree, []);
      && (w.Err? ==> Command(ex, command) == Err(w.error))
      && (w.Ok? && w.value.0.complete ==> Command(ex, command) == Ok(w.value.0.description))
  {
    FirstRound(Work(ex, command), ex.opts.maxRoundTrips);
    assert Acquire(ex, 0, 0, None) == Ok((tree, 1));
    assert Work(ex, command)(0, 0, None, []) == TripOf(ex, command, 0, 0, None, []);
  }

  /** For any work, a failing first trip fails the loop and a complete one ends it. */
  lemma FirstRound(work: TripWork, max: U32)
    requires max > 0
    ensures var w := work(0, 0, None, []); var r := Rounds(work, max, 0, 0, None, []);
      && (w.Err? ==> r == Err(w.error))
      && (w.Ok? && w.value.1.complete ==> r == Ok(w.value.1.description))
  {
    var w := work(0, 0, None, []);
    if w.Ok? {
      assert [] + [w.value.1.description] == [w.value.1.description];
    }
  }

  /** For any work, with one round trip allowed, an incomplete first trip leaves the command unfinished. */
  lemma OnlyRoundIncomplete(work: TripWork)
    ensures var w := work(0, 0, None, []);
      w.Ok? && !w.value.1.complete ==> Rounds(work, 1, 0, 0, None, []) == Err(CommandNotFinished(1))
  {
    var w := work(0, 0, None, []);
    if w.Ok? && !w.value.1.complete {
      assert Rounds(work, 1, 0, 0, None, []) == Rounds(work, 1, 1, w.value.2, Some(w.value.0), [w.value.1.description]);
    }
  }

  /**
   * With one round trip allowed, a first answer that waits (an incomplete group with no
   * actions) ends the command with `CommandNotFinished(1)`.
   */
  lemma WaitOnOnlyTrip(ex: Executor, command: string, tree: Tree, response: string, group: ActionGroup)
    requires ex.opts.maxRoundTrips == 1
    requires ex.iface.computeTree(0) == Ok(tree)
    requires ex.model(0, TripPrompt(ex, command, tree, [])) == Ok(response)
    requires Parse(Fenced(Lines(response))) == Ok(group) && group.actions == [] && !group.complete
    ensures Command(ex, command) == Err(CommandNotFinished(1))
  {
    OnlyRoundIncomplete(Work(ex, command));
    assert Acquire(ex, 0, 0, None) == Ok((tree, 1));
    assert Work(ex, command)(0, 0, None, []) == TripOf(ex, command, 0, 0, None, []);
  }

  /**
   * Since the id map of a new executor stays empty, a first trip whose answer parses to a
   * group with any action fails with `IdNotFound` for the first action's id.
   */
  lemma NewExecutorActionFails(iface: Interface, model: Model, opts: ExecutorOpts, template: string, command: string,
                               tree: Tree, response: string, group: ActionGroup)
    requires opts.maxRoundTrips > 0
    requires iface.computeTree(0) == Ok(tree)
    requires model(0, TripPrompt(New(iface, model, opts, template), command, tree, [])) == Ok(response)
    requires Parse(Fenced(Lines(response))) == Ok(group) && group.actions != []
    ensures Command(New(iface, model, opts, template), command) == Err(IdNotFound(group.actions[0].id))
  {
    var ex := New(iface, model, opts, template);
    EmptyMapRejects(iface, 1, group.actions);
    FirstTrip(ex, command, tree);
  }

  /** A model failure on the first trip ends the command with that error. */
  lemma FirstModelError(ex: Executor, command: string, tree: Tree, e: string)
    requires ex.opts.maxRoundTrips > 0
    requires ex.iface.computeTree(0) == Ok(tree)
    requires ex.model(0, TripPrompt(ex, command, tree, [])) == Err(e)
    ensures Command(ex, command) == Err(ModelError(e))
  {
    FirstTrip(ex, command, tree);
  }

  /** A first trip whose answer is a complete group without actions returns its description. */
  lemma SingleTrip(ex: Executor, command: string, tree: Tree, response: string, group: ActionGroup)
    requires ex.opts.maxRoundTrips > 0
    requires ex.iface.computeTree(0) == Ok(tree)
    requires ex.model(0, TripPrompt(ex, command, tree, [])) == Ok(response)
    requires Parse(Fenced(Lines(response))) == Ok(group) && group.actions == [] && group.complete
    ensures Command(ex, command) == Ok(group.description)
  {
    FirstTrip(ex, command, tree);
  }

  /** One pass of the loop body: get the tree, then take the trip. */
  method RunTrip(ex: Executor, command: string, trip: nat, calls: nat, last: Option<Tree>, previous: seq<string>)
    returns (r: Result<(Tree, ActionGroup, nat), ExecutionError>)
    ensures r == TripOf(ex, command, trip, calls, last, previous)
  {
    var acquired := AcquireTree(ex, trip, calls, last);
    var tree: Tree;
    var c: nat;
    match acquired {
      case Err(e) => return Err(e);
      case Ok((t, n)) => tree := t; c := n;
    }
    var step := TakeTrip(ex, command, trip, c, tree, previous);
    match step {
      case Err(e) => return Err(e);
      case Ok((g, c')) => return Ok((tree, g, c'));
    }
  }

  /** The start of a trip: the tree as it is on the first trip, the settled tree afterwards. */
  method AcquireTree(ex: Executor, trip: nat, calls: nat, last: Option<Tree>) returns (r: Result<(Tree, nat), ExecutionError>)
    ensures r == Acquire(ex, trip, calls, last)
  {
    if trip == 0 || last.None? {
      match ex.iface.computeTree(calls) {
        case Err(e) => return Err(InterfaceError(e));
        case Ok(t) => return Ok((t, calls + 1));
      }
    } else {
      var stable := GetStableTree(ex.opts, PollsFrom(ex.iface, calls), last.value);
      match stable {
        case Err(e) => return Err(e);
        case Ok((t, polls)) => return Ok((t, calls + polls));
      }
    }
  }

  /** The body of a trip once the tree is known: build the prompt, ask, extract, parse, act. */
  method TakeTrip(ex: Executor, command: string, trip: nat, calls: nat, tree: Tree, previous: seq<string>)
    returns (r: Result<(ActionGroup, nat), ExecutionError>)
    ensures r == TripActions(ex, command, trip, calls, tree, previous)
  {
    var treeStr := BuildTreeText(tree.roots, STATE_LABEL);
    var prompt := AssemblePrompt(ex.template, treeStr, command, previous);
    var responseStr;
    match ex.model(trip, prompt) {
      case Err(e) => return Err(ModelError(e));
      case Ok(s) => responseStr := s;
    }
    var instructions := ExtractInstructions(responseStr);
    var parsed := ParseActionStrings(instructions);
    var actions;
    match parsed {
      case Err(e) => return Err(ActionParse(e));
      case Ok(g) => actions := g;
    }
    var done := ExecuteActionList(ex.idMap, ex.iface, calls, actions.actions);
    match done {
      case Err(e) => return Err(e);
      case Ok(c) => return Ok((actions, c));
    }
  }

  /** The loop over a group's actions. */
  method ExecuteActionList(idMap: map<U32, U32>, iface: Interface, calls: nat, actions: seq<Action>)
    returns (r: Result<nat, ExecutionError>)
    ensures r == ExecuteActions(idMap, iface, calls, actions)
  {
    var c := calls;
    var i := 0;
    while i < |actions|
      invariant i <= |actions|
      invariant ExecuteActions(idMap, iface, c, actions[i..]) == ExecuteActions(idMap, iface, calls, actions)
    {
      assert actions[i..][0] == actions[i] && actions[i..][1..] == actions[i + 1..];
      match ExecuteAction(idMap, iface, c, actions[i]) {
        case Err(e) => return Err(e);
        case Ok(c') => c := c';
      }
      i := i + 1;
    }
    assert actions[i..] == [];
    return Ok(c);
  }
}
