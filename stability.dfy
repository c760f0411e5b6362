/**
 * `Executor::get_stable_tree` (packages/voxurf/src/executor.rs): after a waitpoint, poll the
 * interface's element tree until it has changed and then stayed the same for long enough,
 * giving up after a timeout. Milliseconds become poll counts by integer division by the poll
 * interval; the sleep between polls is left out.
 *
 * The interface is an oracle: `poll(k)` is what `compute_tree` gives on the monitor's k-th
 * poll (counting from 0).
 */
module Stability {
  import opened Wrappers
  import opened StdStr
  import opened Tree
  import opened Errors

  /** `ExecutorOpts`. */
  datatype ExecutorOpts = ExecutorOpts(
    maxRoundTrips: U32,
    treePollIntervalMs: U32,
    stabilityThresholdMs: U32,
    stabilityTimeoutMs: U32)

  /** `compute_tree` on the k-th interface call: a tree or the interface's error message. */
  type Poll = nat -> Result<Tree, string>

  /** Unchanged polls, after a change, that make the tree stable. */
  function StableIters(opts: ExecutorOpts): nat
    requires opts.treePollIntervalMs > 0
  {
    opts.stabilityThresholdMs / opts.treePollIntervalMs
  }

  /** Polls after which the monitor gives up. */
  function TimeoutIters(opts: ExecutorOpts): nat
    requires opts.treePollIntervalMs > 0
  {
    opts.stabilityTimeoutMs / opts.treePollIntervalMs
  }

  /** The loop's variables: polls so far, unchanged polls since the last change, whether any change was seen, the last tree. */
  datatype Monitor = Monitor(total: nat, stable: nat, changed: bool, last: Tree)

  /**
   * One poll's effect on the monitor. Trees are compared as the source compares them, by
   * their roots.
   */
  function Observe(m: Monitor, t: Tree): (r: Monitor)
    ensures r.total == m.total + 1 && r.last == t
    ensures r.changed <==> m.changed || !SameTree(t, m.last)
    ensures !SameTree(t, m.last) ==> r.stable == 0
    ensures SameTree(t, m.last) ==> r.stable == if m.changed then m.stable + 1 else m.stable
  {
    if !SameTree(t, m.last) then Monitor(m.total + 1, 0, true, t)
    else if m.changed then Monitor(m.total + 1, m.stable + 1, true, t)
    else Monitor(m.total + 1, m.stable, false, t)
  }

  /** Polling from `m` on until stable or out of time. */
  function Settle(poll: Poll, numStable: nat, numTimeout: nat, m: Monitor): Result<Monitor, ExecutionError>
    decreases numTimeout - m.total
  {
    if m.total < numTimeout && m.stable < numStable then
      match poll(m.total)
      case Err(e) => Err(InterfaceError(e))
      case Ok(t) => Settle(poll, numStable, numTimeout, Observe(m, t))
    else Ok(m)
  }

  /**
   * The outcome of the monitor run against the reference tree `last`: the new tree and the
   * number of polls made, or why it failed. A zero poll interval panics at the first division.
   */
  function StableTree(opts: ExecutorOpts, poll: Poll, last: Tree): Result<(Tree, nat), ExecutionError>
  {
    if opts.treePollIntervalMs == 0 then Err(PollIntervalZero)
    else match Settle(poll, StableIters(opts), TimeoutIters(opts), Monitor(0, 0, false, last))
    case Err(e) => Err(e)
    case Ok(m) =>
      if !m.changed then Err(NoTreeUpdate(opts.stabilityThresholdMs))
      else if m.stable < StableIters(opts) then Err(TreeStabilisationTimeout(opts.stabilityTimeoutMs))
      else Ok((m.last, m.total))
  }

  /** The polling loop. */
  method GetStableTree(opts: ExecutorOpts, poll: Poll, last: Tree)
    returns (r: Result<(Tree, nat), ExecutionError>)
    ensures r == StableTree(opts, poll, last)
  {
    if opts.treePollIntervalMs == 0 {
      return Err(PollIntervalZero);
    }
    var numItersStable := opts.stabilityThresholdMs / opts.treePollIntervalMs;
    var numItersTimeout := opts.stabilityTimeoutMs / opts.treePollIntervalMs;
    assert numItersStable == StableIters(opts) && numItersTimeout == TimeoutIters(opts);
    var changeRecorded := false;
    var lastTree := last;
    var totalIters := 0;
    var stableIters := 0;
    while totalIters < numItersTimeout && stableIters < numItersStable
      invariant Settle(poll, numItersStable, numItersTimeout, Monitor(totalIters, stableIters, changeRecorded, lastTree))
        == Settle(poll, numItersStable, numItersTimeout, Monitor(0, 0, false, last))
      decreases numItersTimeout - totalIters
    {
      ghost var m := Monitor(totalIters, stableIters, changeRecorded, lastTree);
      var currTree;
      match poll(totalIters) {
        case Err(e) => return Err(InterfaceError(e));
        case Ok(t) => currTree := t;
      }
      if currTree.roots != lastTree.roots {
        changeRecorded := true;
        stableIters := 0;
      } else if changeRecorded {
        stableIters := stableIters + 1;
      }
      lastTree := currTree;
      totalIters := totalIters + 1;
      assert Monitor(totalIters, stableIters, changeRecorded, lastTree) == Observe(m, currTree);
    }
    if !changeRecorded {
      return Err(NoTreeUpdate(opts.stabilityThresholdMs));
    } else if stableIters < numItersStable {
      return Err(TreeStabilisationTimeout(opts.stabilityTimeoutMs));
    }
    return Ok((lastTree, totalIters));
  }

  // ---------------------------------------------------------------- what the monitor promises

  /**
   * What holds of the monitor after `m.total` polls from the reference tree `last`: before
   * any change every poll gave `last`; after one, the last `stable + 1` polls gave the
   * current tree.
   */
  ghost predicate Tracks(poll: Poll, last: Tree, m: Monitor)
  {
    && (m.total == 0 ==> m.last == last)
    && (m.total > 0 ==> poll(m.total - 1) == Ok(m.last))
    && (!m.changed ==> m.stable == 0 && SameTree(m.last, last) && forall k | 0 <= k < m.total :: Gave(poll, k, last))
    && (m.changed ==> m.stable < m.total && forall k | m.total - m.stable - 1 <= k < m.total :: Gave(poll, k, m.last))
    && (m.changed ==> exists k :: 0 <= k < m.total && !Gave(poll, k, last))
  }

  /** The k-th poll succeeded with a tree equal, as the source compares trees, to `t`. */
  ghost predicate Gave(poll: Poll, k: nat, t: Tree)
  {
    poll(k).Ok? && SameTree(poll(k).value, t)
  }

  lemma ObserveTracks(poll: Poll, last: Tree, m: Monitor, t: Tree)
    requires Tracks(poll, last, m) && poll(m.total) == Ok(t)
    ensures Tracks(poll, last, Observe(m, t))
  {
    var m' := Observe(m, t);
    if m'.changed && !m.changed {
      assert !Gave(poll, m.total, last);
    }
    if m'.changed && m.changed && SameTree(t, m.last) {
      forall k | m'.total - m'.stable - 1 <= k < m'.total ensures Gave(poll, k, m'.last) {
        if k < m.total {
          assert m.total - m.stable - 1 <= k;
          assert Gave(poll, k, m.last);
        }
      }
    }
  }

  /** Every state the loop reaches keeps `Tracks`, and the loop stops within the timeout. */
  lemma {:induction false} SettleTracks(poll: Poll, numStable: nat, numTimeout: nat, last: Tree, m: Monitor)
    requires Tracks(poll, last, m) && m.total <= numTimeout
    ensures var r := Settle(poll, numStable, numTimeout, m);
      r.Ok? ==>
        && Tracks(poll, last, r.value)
        && m.total <= r.value.total <= numTimeout
        && (r.value.total == numTimeout || r.value.stable >= numStable)
        && forall k | m.total <= k < r.value.total :: poll(k).Ok?
    ensures var r := Settle(poll, numStable, numTimeout, m);
      r.Err? ==> (r.error.InterfaceError? &&
        exists k :: m.total <= k < numTimeout && poll(k) == Err(r.error.source))
    decreases numTimeout - m.total
  {
    if m.total < numTimeout && m.stable < numStable {
      match poll(m.total) {
        case Err(e) =>
          assert poll(m.total) == Err(e);
        case Ok(t) =>
          ObserveTracks(poll, last, m, t);
          SettleTracks(poll, numStable, numTimeout, last, Observe(m, t));
      }
    }
  }

  /**
   * When every poll gives a tree equal to the reference tree, nothing is ever recorded and
   * the loop runs to the timeout.
   */
  lemma {:induction false} SettleUnchanged(poll: Poll, numStable: nat, numTimeout: nat, last: Tree, m: Monitor)
    requires m.total <= numTimeout && numStable > 0
    requires !m.changed && m.stable == 0 && SameTree(m.last, last)
    requires forall k | 0 <= k < numTimeout :: Gave(poll, k, last)
    ensures var r := Settle(poll, numStable, numTimeout, m);
      r.Ok? && r.value.total == numTimeout && !r.value.changed
    decreases numTimeout - m.total
  {
    if m.total < numTimeout {
      assert Gave(poll, m.total, last);
      SettleUnchanged(poll, numStable, numTimeout, last, Observe(m, poll(m.total).value));
    }
  }

  /**
   * Poll `k` settles the tree: it succeeded, it and the `S` polls before it all gave the same
   * roots, and some poll no later than the first of them gave roots other than the reference
   * tree's. This is the poll at which the source's stable count reaches `S`.
   */
  ghost predicate Settled(poll: Poll, S: nat, last: Tree, k: nat)
  {
    && S <= k && poll(k).Ok?
    && (forall i | k - S <= i <= k :: Gave(poll, i, poll(k).value))
    && exists j | 0 <= j <= k - S :: !Gave(poll, j, last)
  }

  /** The run of unchanged polls that the stable count counts began with a change. */
  ghost predicate Reset(poll: Poll, last: Tree, m: Monitor)
  {
    m.changed && m.stable < m.total ==>
      var start := m.total - m.stable - 1;
      if start == 0 then !SameTree(last, m.last) else !Gave(poll, start - 1, m.last)
  }

  /** No poll before the latest one settled, nor the latest while the stable count is short. */
  ghost predicate Unsettled(poll: Poll, S: nat, last: Tree, m: Monitor)
  {
    && (forall k: nat | k + 1 < m.total :: !Settled(poll, S, last, k))
    && (m.stable < S ==> forall k: nat | k < m.total :: !Settled(poll, S, last, k))
  }

  lemma ObserveReset(poll: Poll, last: Tree, m: Monitor, t: Tree)
    requires Tracks(poll, last, m) && Reset(poll, last, m) && poll(m.total) == Ok(t)
    ensures Reset(poll, last, Observe(m, t))
  {
    var m' := Observe(m, t);
    if m'.changed && m.total > 0 {
      assert poll(m.total - 1) == Ok(m.last);
    }
  }

  lemma ObserveUnsettled(poll: Poll, S: nat, last: Tree, m: Monitor, t: Tree)
    requires Tracks(poll, last, m) && Reset(poll, last, m) && Unsettled(poll, S, last, m)
    requires m.stable < S && poll(m.total) == Ok(t)
    ensures Unsettled(poll, S, last, Observe(m, t))
  {
    var m' := Observe(m, t);
    ObserveTracks(poll, last, m, t);
    ObserveReset(poll, last, m, t);
    var k := m.total;
    if m'.stable < S {
      if !m'.changed {
        assert forall j | 0 <= j <= k :: Gave(poll, j, last);
      } else {
        var start := m'.total - m'.stable - 1;
        if start > 0 {
          assert k - S <= start - 1 <= k && !Gave(poll, start - 1, poll(k).value);
        }
      }
    }
  }

  /** The polling loop never passes over a settling poll. */
  lemma {:induction false} SettleUnsettled(poll: Poll, numStable: nat, numTimeout: nat, last: Tree, m: Monitor)
    requires Tracks(poll, last, m) && Reset(poll, last, m) && Unsettled(poll, numStable, last, m)
    ensures var r := Settle(poll, numStable, numTimeout, m);
      r.Ok? ==> Reset(poll, last, r.value) && Unsettled(poll, numStable, last, r.value)
    decreases numTimeout - m.total
  {
    if m.total < numTimeout && m.stable < numStable {
      match poll(m.total) {
        case Err(_) =>
        case Ok(t) =>
          ObserveTracks(poll, last, m, t);
          ObserveReset(poll, last, m, t);
          ObserveUnsettled(poll, numStable, last, m, t);
          SettleUnsettled(poll, numStable, numTimeout, last, Observe(m, t));
      }
    }
  }

  /** Once the stable count has reached `S` after a change, the latest poll settles. */
  lemma SettledAtEnd(poll: Poll, S: nat, last: Tree, m: Monitor)
    requires Tracks(poll, last, m) && Reset(poll, last, m) && m.changed && m.stable >= S
    ensures m.total > 0 && Settled(poll, S, last, m.total - 1)
  {
    var k := m.total - 1;
    var start := m.total - m.stable - 1;
    assert Gave(poll, start, m.last);
    if start > 0 && Gave(poll, start - 1, last) {
      assert !Gave(poll, start, last);
    } else if start > 0 {
      assert !Gave(poll, start - 1, last);
    } else {
      assert !Gave(poll, 0, last);
    }
  }

  /** With a threshold shorter than the poll interval the monitor never polls and reports no update. */
  lemma ZeroThreshold(opts: ExecutorOpts, poll: Poll, last: Tree)
    requires opts.treePollIntervalMs > 0 && opts.stabilityThresholdMs < opts.treePollIntervalMs
    ensures StableTree(opts, poll, last) == Err(NoTreeUpdate(opts.stabilityThresholdMs))
  {
    DivSmall(opts.stabilityThresholdMs, opts.treePollIntervalMs);
  }

  lemma DivSmall(a: nat, b: nat)
    requires a < b
    ensures a / b == 0
  {
  }

  /**
   * `NoTreeUpdate` is reported exactly when every one of the timeout's polls gave the
   * reference tree back.
   */
  lemma NoUpdateExactly(opts: ExecutorOpts, poll: Poll, last: Tree)
    requires opts.treePollIntervalMs > 0 && StableIters(opts) > 0
    ensures StableTree(opts, poll, last) == Err(NoTreeUpdate(opts.stabilityThresholdMs)) <==>
      forall k | 0 <= k < TimeoutIters(opts) :: Gave(poll, k, last)
  {
    var ns, nt := StableIters(opts), TimeoutIters(opts);
    var m0 := Monitor(0, 0, false, last);
    SettleTracks(poll, ns, nt, last, m0);
    if forall k | 0 <= k < nt :: Gave(poll, k, last) {
      SettleUnchanged(poll, ns, nt, last, m0);
    }
  }

  /**
   * A stable result is the tree of the last poll, and the last `StableIters + 1` polls all
   * agree with it; some poll differed from the reference tree; no more polls were made than
   * the timeout allows; and the last poll is the first one that settles.
   */
  lemma StableResult(opts: ExecutorOpts, poll: Poll, last: Tree)
    requires opts.treePollIntervalMs > 0
    ensures var r := StableTree(opts, poll, last);
      r.Ok? ==>
        var (t, n) := r.value;
        && StableIters(opts) < n <= TimeoutIters(opts)
        && poll(n - 1) == Ok(t)
        && (forall k | n - StableIters(opts) - 1 <= k < n :: Gave(poll, k, t))
        && (exists k :: 0 <= k < n && !Gave(poll, k, last))
        && Settled(poll, StableIters(opts), last, n - 1)
        && forall k: nat | k < n - 1 :: !Settled(poll, StableIters(opts), last, k)
  {
    var m0 := Monitor(0, 0, false, last);
    SettleTracks(poll, StableIters(opts), TimeoutIters(opts), last, m0);
    SettleUnsettled(poll, StableIters(opts), TimeoutIters(opts), last, m0);
    var r := Settle(poll, StableIters(opts), TimeoutIters(opts), m0);
    if r.Ok? && r.value.changed && r.value.stable >= StableIters(opts) {
      SettledAtEnd(poll, StableIters(opts), last, r.value);
    }
  }

  /**
   * A timeout means every allowed poll succeeded, some differed from the reference, and no
   * poll settled: the stable count never reached `StableIters` after the change.
   */
  lemma TimeoutResult(opts: ExecutorOpts, poll: Poll, last: Tree)
    requires opts.treePollIntervalMs > 0
    ensures StableTree(opts, poll, last) == Err(TreeStabilisationTimeout(opts.stabilityTimeoutMs)) ==>
      && (forall k | 0 <= k < TimeoutIters(opts) :: poll(k).Ok?)
      && (exists k :: 0 <= k < TimeoutIters(opts) && !Gave(poll, k, last))
      && forall k: nat | k < TimeoutIters(opts) :: !Settled(poll, StableIters(opts), last, k)
  {
    var m0 := Monitor(0, 0, false, last);
    SettleTracks(poll, StableIters(opts), TimeoutIters(opts), last, m0);
    SettleUnsettled(poll, StableIters(opts), TimeoutIters(opts), last, m0);
  }

  /** An interface error is the error of one of the allowed polls. */
  lemma InterfaceFailure(opts: ExecutorOpts, poll: Poll, last: Tree, e: string)
    requires opts.treePollIntervalMs > 0
    ensures StableTree(opts, poll, last) == Err(InterfaceError(e)) ==>
      exists k :: 0 <= k < TimeoutIters(opts) && poll(k) == Err(e)
  {
    SettleTracks(poll, StableIters(opts), TimeoutIters(opts), last, Monitor(0, 0, false, last));
  }

  /**
   * A zero poll interval is the panic and nothing else is; otherwise the monitor fails in
   * exactly one of its three ways.
   */
  lemma StableTreeErrors(opts: ExecutorOpts, poll: Poll, last: Tree)
    ensures var r := StableTree(opts, poll, last);
      (r == Err(PollIntervalZero) <==> opts.treePollIntervalMs == 0) &&
      (r.Err? ==> r.error.PollIntervalZero? || r.error.InterfaceError? || r.error.NoTreeUpdate? || r.error.TreeStabilisationTimeout?)
  {
    if opts.treePollIntervalMs > 0 {
      SettleTracks(poll, StableIters(opts), TimeoutIters(opts), last, Monitor(0, 0, false, last));
    }
  }
}
