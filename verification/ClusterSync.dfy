/**
 The failover counter of the sync agent over its whole life: passes of the loop, stops in
 the middle of a pass, restarts.
 */
module ClusterSync {
  /** How one pass of the loop ends: the heartbeat raises, a later step raises after a
      successful heartbeat, or nothing raises. Cancelled is a stop that arrives after the
      heartbeat has succeeded. */
  datatype Pass = HeartbeatFails | LaterStepFails | Completes | Cancelled

  predicate Failed(p: Pass) {
    p.HeartbeatFails? || p.LaterStepFails?
  }

  datatype Settings = Settings(failoverPriority: int, autoFailover: bool, failoverThreshold: int)

  datatype Agent = Agent(failures: nat, promoted: bool, running: bool)

  const CREATED := Agent(0, false, false)

  datatype Event = Start | StopAsleep | Ran(pass: Pass)

  /** One pass, with the failover decision in its exception handler. */
  function AfterPass(cfg: Settings, a: Agent, p: Pass): Agent {
    match p
    case Completes => a.(failures := 0)
    case Cancelled => a.(failures := 0, running := false)
    case _ =>
      var n := if p.HeartbeatFails? then a.failures + 1 else 1;
      if cfg.autoFailover && n >= cfg.failoverThreshold && !a.promoted && cfg.failoverPriority > 0
      then Agent(n, true, false)
      else a.(failures := n)
  }

  function Step(cfg: Settings, a: Agent, e: Event): Agent {
    match e
    case Start => a.(running := true)
    case StopAsleep => a.(running := false)
    case Ran(p) => if a.running then AfterPass(cfg, a, p) else a
  }

  function Run(cfg: Settings, events: seq<Event>): Agent {
    if events == [] then CREATED
    else Step(cfg, Run(cfg, events[..|events| - 1]), events[|events| - 1])
  }

  /** The passes that took place: those while the loop was running. */
  function Trace(cfg: Settings, events: seq<Event>): seq<Pass> {
    if events == [] then []
    else
      var earlier, e := events[..|events| - 1], events[|events| - 1];
      if e.Ran? && Run(cfg, earlier).running then Trace(cfg, earlier) + [e.pass] else Trace(cfg, earlier)
  }

  /** The last n passes all failed, and of them only the first may have had a successful
      heartbeat. */
  predicate FailureRun(t: seq<Pass>, n: nat) {
    && n <= |t|
    && forall i :: |t| - n <= i < |t| ==> Failed(t[i]) && (i > |t| - n ==> t[i].HeartbeatFails?)
  }

  ghost predicate LongestFailureRun(t: seq<Pass>, n: nat) {
    FailureRun(t, n) && forall m: nat :: FailureRun(t, m) ==> m <= n
  }

  lemma LongestRunStep(t: seq<Pass>, n: nat, p: Pass)
    requires LongestFailureRun(t, n)
    ensures LongestFailureRun(t + [p], if p.HeartbeatFails? then n + 1 else if p.LaterStepFails? then 1 else 0)
  {
    var t' := t + [p];
    var n' := if p.HeartbeatFails? then n + 1 else if p.LaterStepFails? then 1 else 0;
    forall m: nat | FailureRun(t', m)
      ensures m <= n'
    {
      if m > 0 {
        assert Failed(t'[|t|]);
        if m > 1 {
          assert t'[|t|].HeartbeatFails?;
        }
        assert forall i :: |t| - (m - 1) <= i < |t| ==> t'[i] == t[i];
        assert p.HeartbeatFails? ==> FailureRun(t, m - 1);
      }
    }
  }

  lemma LongestRunUnique(t: seq<Pass>, m: nat, n: nat)
    requires LongestFailureRun(t, m) && LongestFailureRun(t, n)
    ensures m == n
  {
  }

  /** In every life the counter is the length of the longest trailing run of failed passes
      of which only the first may have had a successful heartbeat. */
  lemma {:induction false} CounterIsLongestRun(cfg: Settings, events: seq<Event>)
    ensures LongestFailureRun(Trace(cfg, events), Run(cfg, events).failures)
  {
    if events != [] {
      var earlier, e := events[..|events| - 1], events[|events| - 1];
      CounterIsLongestRun(cfg, earlier);
      var a := Run(cfg, earlier);
      if e.Ran? && a.running {
        LongestRunStep(Trace(cfg, earlier), a.failures, e.pass);
      }
    }
  }

  lemma OneMorePass(cfg: Settings, events: seq<Event>, p: Pass)
    requires Run(cfg, events).running
    ensures Run(cfg, events + [Ran(p)]) == AfterPass(cfg, Run(cfg, events), p)
    ensures Trace(cfg, events + [Ran(p)]) == Trace(cfg, events) + [p]
  {
    var all := events + [Ran(p)];
    assert all[..|all| - 1] == events && all[|all| - 1] == Ran(p);
  }

  /** The failed heartbeats at the end of the trace. */
  function FailedHeartbeats(t: seq<Pass>): (n: nat)
    ensures n <= |t|
  {
    if t == [] || !t[|t| - 1].HeartbeatFails? then 0 else 1 + FailedHeartbeats(t[..|t| - 1])
  }

  lemma {:induction false} FailedHeartbeatsExactly(t: seq<Pass>)
    ensures var n := FailedHeartbeats(t);
            && (forall i :: |t| - n <= i < |t| ==> t[i].HeartbeatFails?)
            && (n < |t| ==> !t[|t| - n - 1].HeartbeatFails?)
  {
    if t != [] && t[|t| - 1].HeartbeatFails? {
      var earlier := t[..|t| - 1];
      FailedHeartbeatsExactly(earlier);
      assert forall i :: 0 <= i < |earlier| ==> earlier[i] == t[i];
    }
  }

  /** The counter is the number of failed heartbeats in a row exactly if the pass before them
      did not fail behind a successful heartbeat; otherwise it is one more. */
  lemma CounterCountsHeartbeatsExactly(cfg: Settings, events: seq<Event>)
    ensures var t := Trace(cfg, events);
            var n := FailedHeartbeats(t);
            && (Run(cfg, events).failures == n <==> n == |t| || !t[|t| - n - 1].LaterStepFails?)
            && (Run(cfg, events).failures == n || Run(cfg, events).failures == n + 1)
  {
    var t := Trace(cfg, events);
    var n := FailedHeartbeats(t);
    FailedHeartbeatsExactly(t);
    CounterIsLongestRun(cfg, events);
    var m := if n < |t| && t[|t| - n - 1].LaterStepFails? then n + 1 else n;
    forall k: nat | m < k <= |t|
      ensures !FailureRun(t, k)
    {
      var i := |t| - n - 1;
      assert |t| - k <= i && !(Failed(t[i]) && (i > |t| - k ==> t[i].HeartbeatFails?));
    }
    assert FailureRun(t, m);
    LongestRunUnique(t, m, Run(cfg, events).failures);
  }

  const TWO_FAILED_HEARTBEATS: seq<Event> :=
    [Start, Ran(LaterStepFails), Ran(HeartbeatFails), Ran(HeartbeatFails)]

  /** The failing input: at threshold 3 an agent is promoted after two failed heartbeats. */
  lemma PromotedAfterTwoFailedHeartbeats()
    ensures var cfg := Settings(1, true, 3);
            Run(cfg, TWO_FAILED_HEARTBEATS).promoted && FailedHeartbeats(Trace(cfg, TWO_FAILED_HEARTBEATS)) == 2
  {
    var cfg := Settings(1, true, 3);
    var e1 := [Start];
    var e2 := e1 + [Ran(LaterStepFails)];
    var e3 := e2 + [Ran(HeartbeatFails)];
    assert e1[..0] == [];
    OneMorePass(cfg, e1, LaterStepFails);
    OneMorePass(cfg, e2, HeartbeatFails);
    OneMorePass(cfg, e3, HeartbeatFails);
    assert TWO_FAILED_HEARTBEATS == e3 + [Ran(HeartbeatFails)];
    var t := [LaterStepFails, HeartbeatFails, HeartbeatFails];
    assert Trace(cfg, TWO_FAILED_HEARTBEATS) == t;
    assert t[..2] == [LaterStepFails, HeartbeatFails] && t[..2][..1] == [LaterStepFails];
  }

  /** After k passes the last one failed and the run had reached the threshold. */
  ghost predicate ThresholdReached(cfg: Settings, t: seq<Pass>, k: nat) {
    && 0 < k <= |t| && Failed(t[k - 1])
    && exists n: nat :: LongestFailureRun(t[..k], n) && n >= cfg.failoverThreshold
  }

  ghost predicate ShouldPromote(cfg: Settings, t: seq<Pass>) {
    cfg.autoFailover && cfg.failoverPriority > 0 && exists k: nat :: ThresholdReached(cfg, t, k)
  }

  lemma ShouldPromoteStep(cfg: Settings, t: seq<Pass>, p: Pass, n: nat)
    requires LongestFailureRun(t + [p], n)
    ensures ShouldPromote(cfg, t + [p]) <==>
            || ShouldPromote(cfg, t)
            || (cfg.autoFailover && cfg.failoverPriority > 0 && Failed(p) && n >= cfg.failoverThreshold)
  {
    var t' := t + [p];
    assert t'[..|t'|] == t';
    forall k: nat | k <= |t|
      ensures ThresholdReached(cfg, t', k) <==> ThresholdReached(cfg, t, k)
    {
      assert t'[..k] == t[..k];
    }
    if k: nat :| ThresholdReached(cfg, t', k) && k == |t'| {
      var m: nat :| LongestFailureRun(t'[..k], m) && m >= cfg.failoverThreshold;
      LongestRunUnique(t', m, n);
    }
    if Failed(p) && n >= cfg.failoverThreshold {
      assert ThresholdReached(cfg, t', |t'|);
    }
  }

  /** The agent is promoted exactly when failover is on, its priority is positive, and at
      some failed pass the run reached the threshold. */
  lemma {:induction false} PromotedExactly(cfg: Settings, events: seq<Event>)
    ensures Run(cfg, events).promoted <==> ShouldPromote(cfg, Trace(cfg, events))
  {
    if events != [] {
      var earlier, e := events[..|events| - 1], events[|events| - 1];
      PromotedExactly(cfg, earlier);
      CounterIsLongestRun(cfg, events);
      if e.Ran? && Run(cfg, earlier).running {
        ShouldPromoteStep(cfg, Trace(cfg, earlier), e.pass, Run(cfg, events).failures);
      }
    }
  }

  function Promotions(cfg: Settings, events: seq<Event>): nat {
    if events == [] then 0
    else
      var earlier := events[..|events| - 1];
      Promotions(cfg, earlier) + (if Run(cfg, events).promoted && !Run(cfg, earlier).promoted then 1 else 0)
  }

  /** Promotion happens at most once, is never undone, and the pass that promotes ends the
      loop. */
  lemma {:induction false} PromotionIsFinal(cfg: Settings, events: seq<Event>, k: nat)
    requires k <= |events|
    ensures Run(cfg, events[..k]).promoted ==> Run(cfg, events).promoted
    ensures Promotions(cfg, events) == if Run(cfg, events).promoted then 1 else 0
    ensures events != [] && Run(cfg, events).promoted && !Run(cfg, events[..|events| - 1]).promoted ==>
              !Run(cfg, events).running
  {
    if events != [] {
      var earlier := events[..|events| - 1];
      PromotionIsFinal(cfg, earlier, if k < |events| then k else |earlier|);
      if k < |events| {
        assert earlier[..k] == events[..k];
      } else {
        assert events[..k] == events;
      }
    }
  }

  /** The event makes a running agent stop: a stop, or the pass that promotes it. */
  predicate Stops(cfg: Settings, events: seq<Event>, j: nat)
    requires j < |events|
  {
    || events[j] == StopAsleep
    || events[j] == Ran(Cancelled)
    || (Run(cfg, events[..j + 1]).promoted && !Run(cfg, events[..j]).promoted)
  }

  /** It was started at i and nothing has stopped it since. */
  predicate StartedAt(cfg: Settings, events: seq<Event>, i: nat) {
    i < |events| && events[i] == Start && forall j :: i < j < |events| ==> !Stops(cfg, events, j)
  }

  lemma StartedSnoc(cfg: Settings, events: seq<Event>, i: nat)
    requires events != [] && i < |events| - 1
    ensures var n := |events| - 1;
            StartedAt(cfg, events, i) <==> StartedAt(cfg, events[..n], i) && !Stops(cfg, events, n)
  {
    var n := |events| - 1;
    forall j | 0 <= j < n
      ensures Stops(cfg, events[..n], j) <==> Stops(cfg, events, j)
    {
      assert events[..n][..j + 1] == events[..j + 1] && events[..n][..j] == events[..j];
    }
  }

  /** The loop is running exactly if it was started and has not been stopped, by hand or by a
      promotion, since. */
  lemma {:induction false} RunningExactly(cfg: Settings, events: seq<Event>)
    ensures Run(cfg, events).running <==> exists i: nat :: StartedAt(cfg, events, i)
  {
    if events != [] {
      var n := |events| - 1;
      RunningExactly(cfg, events[..n]);
      assert events[..n + 1] == events;
      forall i: nat | i < n
        ensures StartedAt(cfg, events, i) <==> StartedAt(cfg, events[..n], i) && !Stops(cfg, events, n)
      {
        StartedSnoc(cfg, events, i);
      }
      assert StartedAt(cfg, events, n) <==> events[n] == Start;
      if i: nat :| StartedAt(cfg, events[..n], i) {
        assert i < n;
      }
    }
  }

  class ClusterSyncAgent {
    const settings: Settings
    var consecutiveHeartbeatFailures: nat
    var isPromotedMaster: bool
    var running: bool

    function Value(): Agent
      reads this
    {
      Agent(consecutiveHeartbeatFailures, isPromotedMaster, running)
    }

    constructor (settings: Settings)
      ensures this.settings == settings && Value() == CREATED
    {
      this.settings := settings;
      consecutiveHeartbeatFailures, isPromotedMaster, running := 0, false, false;
    }

    /** start: a no-op on a running agent. */
    method Start()
      modifies this`running
      ensures Value() == Step(settings, old(Value()), Event.Start)
    {
      if running {
        return;
      }
      running := true;
    }

    /** stop, between two passes. */
    method Stop()
      modifies this`running
      ensures Value() == Step(settings, old(Value()), StopAsleep)
    {
      running := false;
    }

    method PromoteToMaster()
      modifies this
      ensures Value() == old(Value()).(promoted := true, running := false)
    {
      isPromotedMaster := true;
      running := false;
    }

    method EvaluateAndTriggerFailover() returns (promotedNow: bool)
      modifies this
      ensures promotedNow <==> !old(isPromotedMaster) && settings.failoverPriority > 0
      ensures Value() == if promotedNow then old(Value()).(promoted := true, running := false) else old(Value())
    {
      if isPromotedMaster || settings.failoverPriority <= 0 {
        return false;
      }
      PromoteToMaster();
      return true;
    }

    /** The loop; passes says how each of its passes goes. It ends when it is no longer
        running, or here when the given passes are used up. */
    method SyncLoop(passes: seq<Pass>) returns (done: nat)
      modifies this
      ensures done <= |passes| && (done < |passes| ==> !running)
      ensures Value() == AfterPasses(settings, old(Value()), passes[..done])
      ensures forall k :: 0 <= k < done ==> AfterPasses(settings, old(Value()), passes[..k]).running
    {
      done := 0;
      while running && done < |passes|
        invariant done <= |passes|
        invariant Value() == AfterPasses(settings, old(Value()), passes[..done])
        invariant forall k :: 0 <= k < done ==> AfterPasses(settings, old(Value()), passes[..k]).running
      {
        var p := passes[done];
        assert passes[..done + 1][..done] == passes[..done];
        if p.HeartbeatFails? {
          consecutiveHeartbeatFailures := consecutiveHeartbeatFailures + 1;
        } else {
          consecutiveHeartbeatFailures := 0;
          if p.LaterStepFails? {
            consecutiveHeartbeatFailures := consecutiveHeartbeatFailures + 1;
          }
        }
        if p.Cancelled? {
          running := false;
        }
        if Failed(p) && settings.autoFailover && consecutiveHeartbeatFailures >= settings.failoverThreshold {
          var _ := EvaluateAndTriggerFailover();
        }
        done := done + 1;
      }
    }
  }

  function AfterPasses(cfg: Settings, a: Agent, passes: seq<Pass>): Agent {
    if passes == [] then a
    else AfterPass(cfg, AfterPasses(cfg, a, passes[..|passes| - 1]), passes[|passes| - 1])
  }

  lemma PassEventsSnoc(passes: seq<Pass>)
    requires passes != []
    ensures PassEvents(passes) == PassEvents(passes[..|passes| - 1]) + [Ran(passes[|passes| - 1])]
  {
  }

  /** A loop of the class is a stretch of a life: its passes, each begun while running. */
  lemma {:induction false} LoopIsPartOfLife(cfg: Settings, events: seq<Event>, passes: seq<Pass>)
    requires forall k :: 0 <= k < |passes| ==> AfterPasses(cfg, Run(cfg, events), passes[..k]).running
    ensures Run(cfg, events + PassEvents(passes)) == AfterPasses(cfg, Run(cfg, events), passes)
    ensures Trace(cfg, events + PassEvents(passes)) == Trace(cfg, events) + passes
  {
    if passes == [] {
      assert events + PassEvents(passes) == events;
    } else {
      var n := |passes| - 1;
      var earlier, p := passes[..n], passes[n];
      var before := events + PassEvents(earlier);
      assert forall k :: 0 <= k < n ==> earlier[..k] == passes[..k];
      LoopIsPartOfLife(cfg, events, earlier);
      assert Run(cfg, before).running;
      OneMorePass(cfg, before, p);
      PassEventsSnoc(passes);
      assert events + PassEvents(passes) == before + [Ran(p)];
      assert Trace(cfg, events) + passes == Trace(cfg, events) + earlier + [p];
    }
  }

  function PassEvents(passes: seq<Pass>): seq<Event> {
    seq(|passes|, i requires 0 <= i < |passes| => Ran(passes[i]))
  }
}
