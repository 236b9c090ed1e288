/**
 The alert engine on the heap. The active dictionary and the history list hold the same
 alert objects; Snapshot() is the value AlertSpec computes with, and every method is proved
 to take Snapshot() where the specification takes it.
 */
module Alerting {
  import opened Wrappers
  import opened AlertSpec
  import opened AlertTheorems

  /** What an alert was created with never changes; its state does. */
  class ActiveAlert {
    const info: AlertInfo
    var phase: Phase
    var resolvedAt: Option<string>
    var acknowledged: bool
    /** Its place in the history, counted from the oldest entry. */
    ghost const slot: nat

    constructor (info: AlertInfo, ghost slot: nat)
      ensures this.info == info && this.slot == slot
      ensures phase == Firing && resolvedAt == None && !acknowledged
    {
      this.info, this.slot := info, slot;
      phase, resolvedAt, acknowledged := Firing, None, false;
    }
  }

  function Reversed(entries: seq<ActiveAlert>): (r: seq<ActiveAlert>)
    ensures |r| == |entries|
  {
    if entries == [] then [] else [entries[|entries| - 1]] + Reversed(entries[..|entries| - 1])
  }

  lemma {:induction false} ReversedAt(entries: seq<ActiveAlert>, k: nat)
    requires k < |entries|
    ensures Reversed(entries)[k] == entries[|entries| - 1 - k]
  {
    if k > 0 {
      ReversedAt(entries[..|entries| - 1], k - 1);
    }
  }

  lemma AppendAssociates(a: seq<ActiveAlert>, b: seq<ActiveAlert>, c: seq<ActiveAlert>)
    ensures a + (b + c) == a + b + c
  {
  }

  class AlertManager {
    const rules: seq<AlertRule>
    /** The dictionary, and its keys in insertion order. */
    var activeAlerts: map<Key, ActiveAlert>
    var activeOrder: seq<Key>
    /** Newest first. */
    var history: seq<ActiveAlert>
    /** Everything handed to the notification dispatcher. */
    var sent: seq<Notification>
    /** The history oldest first, and the engine as a value. */
    ghost var entries: seq<ActiveAlert>
    ghost var model: State
    ghost var repr: set<ActiveAlert>

    /** The i-th entry ever made is one object with slot i and the i-th logged value, and the
        active alert of a key is the object of its entry. */
    ghost predicate Valid()
      reads this, repr
    {
      && history == Reversed(entries)
      && |entries| == |model.log|
      && (forall i :: 0 <= i < |entries| ==>
            && entries[i] in repr && entries[i].slot == i
            && entries[i].info == model.log[i].info
            && entries[i].phase == model.log[i].phase
            && entries[i].resolvedAt == model.log[i].resolvedAt
            && entries[i].acknowledged == model.log[i].acknowledged)
      && activeOrder == model.order && sent == model.sent
      && activeAlerts.Keys == model.active.Keys
      && (forall k <- activeAlerts :: model.active[k] < |entries| && entries[model.active[k]] == activeAlerts[k])
    }

    constructor (rules: seq<AlertRule>)
      ensures Valid() && Inv(model) && this.rules == rules && model == EMPTY && repr == {}
    {
      this.rules := rules;
      activeAlerts, activeOrder, history, sent := map[], [], [], [];
      entries, model, repr := [], EMPTY, {};
      new;
      RunsKeepInv(rules, []);
    }

    method Dispatch(n: Notification)
      requires Valid()
      modifies this`sent, this`model
      ensures Valid() && model == old(model).(sent := old(model.sent) + [n])
    {
      sent := sent + [n];
      model := model.(sent := model.sent + [n]);
    }

    /** history.insert(0, alert). */
    method InsertFirst(alert: ActiveAlert)
      requires Valid() && alert.slot == |entries|
      requires alert.phase == Firing && alert.resolvedAt == None && !alert.acknowledged
      modifies this`history, this`model, this`entries, this`repr
      ensures Valid() && repr == old(repr) + {alert} && entries == old(entries) + [alert]
      ensures model == old(model).(log := old(model.log) + [Alert(alert.info, Firing, None, false)])
    {
      history := [alert] + history;
      assert (entries + [alert])[..|entries|] == entries;
      model := model.(log := model.log + [Alert(alert.info, Firing, None, false)]);
      entries := entries + [alert];
      repr := repr + {alert};
    }

    /** active_alerts[key] = alert, for the alert just inserted. */
    method Register(key: Key, alert: ActiveAlert)
      requires Valid() && entries != [] && entries[|entries| - 1] == alert
      modifies this`activeAlerts, this`activeOrder, this`model
      ensures Valid()
      ensures model == old(model).(active := old(model.active)[key := |entries| - 1], order := old(model.order) + [key])
    {
      activeAlerts := activeAlerts[key := alert];
      activeOrder := activeOrder + [key];
      model := model.(active := model.active[key := |entries| - 1], order := model.order + [key]);
    }

    /** A key that starts firing: a new alert, entered and notified. */
    method Fire(rule: AlertRule, x: Sample, now: string) returns (alert: ActiveAlert)
      requires Valid() && Fires(rule, x) && KeyOf(rule, x) !in activeAlerts
      modifies this
      ensures Valid() && fresh(alert) && repr == old(repr) + {alert}
      ensures entries == old(entries) + [alert]
      ensures model == FireSample(old(model), rule, x, now)
    {
      var key := KeyOf(rule, x);
      alert := new ActiveAlert(InfoFor(rule, x, now), |entries|);
      InsertFirst(alert);
      Register(key, alert);
      Dispatch(Notification(key, Firing, rule.name, x.value.value, now));
    }

    method ObserveSample(rule: AlertRule, x: Sample, now: string) returns (fired: seq<ActiveAlert>)
      requires Valid()
      modifies this
      ensures Valid() && fresh(repr - old(repr)) && entries == old(entries) + fired
      ensures model == FireSample(old(model), rule, x, now)
    {
      fired := [];
      if x.value.Some? && CompareValue(x.value.value, rule.op, rule.threshold) {
        if KeyOf(rule, x) !in activeAlerts {
          var alert := Fire(rule, x, now);
          fired := [alert];
        }
      }
    }

    /** The answer to one rule's query; a failed query is skipped. */
    method Observe(rule: AlertRule, answer: QueryResult, now: string)
      returns (firing: set<Key>, fired: seq<ActiveAlert>)
      requires Valid()
      modifies this
      ensures Valid() && fresh(repr - old(repr)) && entries == old(entries) + fired
      ensures model == FireSamples(old(model), rule, SamplesOf(answer), now)
      ensures firing == KeysOfSamples(rule, SamplesOf(answer))
    {
      firing, fired := {}, [];
      if answer.Failed? {
        return;
      }
      var xs := answer.samples;
      for k := 0 to |xs|
        invariant Valid() && fresh(repr - old(repr)) && entries == old(entries) + fired
        invariant model == FireSamples(old(model), rule, xs[..k], now)
        invariant firing == KeysOfSamples(rule, xs[..k])
      {
        SamplesStep(old(model), rule, xs, k, now);
        if Fires(rule, xs[k]) {
          firing := firing + {KeyOf(rule, xs[k])};
        }
        var more := ObserveSample(rule, xs[k], now);
        AppendAssociates(old(entries), fired, more);
        fired := fired + more;
      }
      assert xs[..|xs|] == xs;
    }

    method Pop(key: Key) returns (alert: ActiveAlert)
      requires Valid() && key in activeAlerts
      modifies this`activeAlerts, this`activeOrder, this`model
      ensures Valid() && activeAlerts == old(activeAlerts) - {key}
      ensures old(model.active[key]) < |entries| && alert == entries[old(model.active[key])]
      ensures model == old(model).(active := old(model.active) - {key}, order := Without(old(model.order), key))
    {
      alert := activeAlerts[key];
      activeAlerts := activeAlerts - {key};
      activeOrder := Without(activeOrder, key);
      model := model.(active := model.active - {key}, order := Without(model.order, key));
    }

    method MarkResolved(alert: ActiveAlert, ghost i: nat, now: string)
      requires Valid() && i < |entries| && entries[i] == alert
      modifies this`model, alert
      ensures Valid()
      ensures model == old(model).(log := old(model.log)[i :=
                old(model.log)[i].(phase := Resolved, resolvedAt := Some(now))])
    {
      assert forall j :: 0 <= j < |entries| && j != i ==> entries[j] != alert;
      alert.phase := Resolved;
      alert.resolvedAt := Some(now);
      model := model.(log := model.log[i := model.log[i].(phase := Resolved, resolvedAt := Some(now))]);
    }

    /** pop the key, mark its object resolved, notify. */
    method ResolveKey(key: Key, now: string)
      requires Valid() && key in activeAlerts
      modifies this`activeAlerts, this`activeOrder, this`sent, this`model, repr
      ensures Valid() && activeAlerts.Keys == old(activeAlerts.Keys) - {key}
      ensures model == Resolve(old(model), key, now)
    {
      ghost var i := model.active[key];
      var alert := Pop(key);
      MarkResolved(alert, i, now);
      Dispatch(Notification(key, Resolved, "Resolved: " + alert.info.title, alert.info.value, now));
    }

    method ResolveAll(keys: seq<Key>, now: string)
      requires Valid() && AllActive(model, keys, now)
      modifies this`activeAlerts, this`activeOrder, this`sent, this`model, repr
      ensures Valid()
      ensures model == ResolveKeys(old(model), keys, now)
    {
      for k := 0 to |keys|
        invariant Valid()
        invariant model == ResolveKeys(old(model), keys[..k], now)
      {
        ResolveKeysStep(old(model), keys, k, now);
        ResolveKey(keys[k], now);
      }
      assert keys[..|keys|] == keys;
    }

    method FireAll(poll: seq<QueryResult>, now: string) returns (firing: set<Key>, newAlerts: seq<ActiveAlert>)
      requires Valid() && |poll| == |rules|
      modifies this
      ensures Valid() && fresh(repr - old(repr)) && entries == old(entries) + newAlerts
      ensures model == FireRules(old(model), rules, poll, now)
      ensures firing == FiringKeys(rules, poll)
    {
      firing, newAlerts := {}, [];
      for r := 0 to |rules|
        invariant Valid() && fresh(repr - old(repr)) && entries == old(entries) + newAlerts
        invariant model == FireRules(old(model), rules[..r], poll[..r], now)
        invariant firing == FiringKeys(rules[..r], poll[..r])
      {
        FireRulesStep(old(model), rules, poll, r, now);
        var keys, fired := Observe(rules[r], poll[r], now);
        firing := firing + keys;
        AppendAssociates(old(entries), newAlerts, fired);
        newAlerts := newAlerts + fired;
      }
      assert rules[..|rules|] == rules && poll[..|poll|] == poll;
    }

    /** The whole evaluation; poll[i] is what the query of rules[i] returned. The result is
        the list of alerts created, which join the history in that order. */
    method EvaluateRules(poll: seq<QueryResult>, now: string) returns (newAlerts: seq<ActiveAlert>)
      requires Valid() && Inv(model) && |poll| == |rules|
      modifies this, repr
      ensures Valid() && Inv(model) && fresh(repr - old(repr)) && entries == old(entries) + newAlerts
      ensures model == Evaluate(old(model), rules, poll, now)
    {
      StaleKeysActive(model, rules, poll, now);
      EvaluationSettles(model, rules, poll, now);
      var firing;
      firing, newAlerts := FireAll(poll, now);
      ResolveAll(Stale(activeOrder, firing), now);
    }

    /** Where in the history the newest entry with that id stands, or its length. */
    method FindInHistory(alertId: Key) returns (k: nat)
      requires Valid()
      ensures k <= |entries| == |history|
      ensures NewestWith(model.log, alertId) == if k < |entries| then Some(|entries| - 1 - k) else None
    {
      NewestExactly(model.log, alertId);
      k := 0;
      while k < |history|
        invariant k <= |entries|
        invariant forall i :: |entries| - k <= i < |entries| ==> model.log[i].info.id != alertId
      {
        ReversedAt(entries, k);
        if history[k].info.id == alertId {
          return;
        }
        k := k + 1;
      }
    }

    /** True if there was something to mark. */
    method AcknowledgeAlert(alertId: Key) returns (found: bool)
      requires Valid() && Inv(model)
      modifies this`model, repr
      ensures Valid() && Inv(model)
      ensures model == Acknowledge(old(model), alertId)
      ensures found <==> AckTarget(old(model), alertId).Some?
    {
      AcknowledgeMarksNewest(model, alertId);
      if alertId in activeAlerts {
        SetAcknowledged(activeAlerts[alertId], model.active[alertId], alertId);
        return true;
      }
      var k := FindInHistory(alertId);
      if k < |history| {
        ReversedAt(entries, k);
        SetAcknowledged(history[k], |entries| - 1 - k, alertId);
        return true;
      }
      return false;
    }

    method SetAcknowledged(alert: ActiveAlert, ghost i: nat, ghost alertId: Key)
      requires Valid() && i < |entries| && entries[i] == alert && AckTarget(model, alertId) == Some(i)
      modifies this`model, alert`acknowledged
      ensures Valid() && model == Acknowledge(old(model), alertId)
    {
      assert forall j :: 0 <= j < |entries| && j != i ==> entries[j] != alert;
      alert.acknowledged := true;
      model := Acknowledge(model, alertId);
    }

    /** The newest entries, as the source slices them (a negative limit cuts at the end). */
    function AlertHistory(limit: int): seq<ActiveAlert>
      reads this
    {
      if limit >= |history| then history
      else if limit >= 0 then history[..limit]
      else if -limit >= |history| then []
      else history[..|history| + limit]
    }
  }

  /** The j-th history object from the front is the active alert of its key. */
  predicate IsActiveObject(m: AlertManager, j: nat)
    reads m
    requires j < |m.history|
  {
    m.history[j].info.id in m.activeAlerts && m.activeAlerts[m.history[j].info.id] == m.history[j]
  }

  lemma EntryBehind(m: AlertManager, j: nat)
    requires m.Valid() && j < |m.history|
    ensures |m.history| == |m.entries| && m.history[j] == m.entries[|m.entries| - 1 - j]
  {
    ReversedAt(m.entries, j);
  }

  /** The active alert of a key occurs exactly once among the history objects. */
  lemma ActiveOccursOnce(m: AlertManager, key: Key)
    requires m.Valid() && Inv(m.model) && key in m.activeAlerts
    ensures exists j: nat :: j < |m.history| && m.history[j] == m.activeAlerts[key]
                             && forall i: nat :: i < |m.history| && m.history[i] == m.activeAlerts[key] ==> i == j
    ensures m.activeAlerts[key].info.id == key
  {
    var j := |m.entries| - 1 - m.model.active[key];
    EntryBehind(m, j);
    forall i: nat | i < |m.history| && m.history[i] == m.activeAlerts[key]
      ensures i == j
    {
      EntryBehind(m, i);
      assert m.entries[|m.entries| - 1 - i].slot == |m.entries| - 1 - i;
    }
  }

  /** A history object is firing, with no resolution time, exactly if it is the active alert
      of its key; every other one is resolved. */
  lemma ActiveObjectsFire(m: AlertManager, j: nat)
    requires m.Valid() && Inv(m.model) && j < |m.history|
    ensures if IsActiveObject(m, j) then m.history[j].phase == Firing && m.history[j].resolvedAt == None
            else m.history[j].phase == Resolved && m.history[j].resolvedAt.Some?
  {
    var i := |m.entries| - 1 - j;
    EntryBehind(m, j);
    assert EntryConsistent(m.model, i);
    if IsActiveObject(m, j) {
      var key := m.history[j].info.id;
      assert m.entries[m.model.active[key]].slot == m.model.active[key] && m.entries[i].slot == i;
    }
  }

  /** The getter shows the newest entries, newest first: as many as asked for, or all but as
      many if the limit is negative. */
  lemma AlertHistoryIsNewest(m: AlertManager, limit: int)
    requires m.Valid()
    ensures var shown, n := m.AlertHistory(limit), |m.entries|;
            && |shown| == (if limit >= n then n else if limit >= 0 then limit
                           else if n + limit > 0 then n + limit else 0)
            && forall k: nat :: k < |shown| ==> shown[k] == m.entries[n - 1 - k]
  {
    var shown := m.AlertHistory(limit);
    assert |m.history| == |m.entries|;
    forall k: nat | k < |shown|
      ensures shown[k] == m.entries[|m.entries| - 1 - k]
    {
      EntryBehind(m, k);
    }
  }

  lemma {:induction false} StaleHasNoRepeats(keys: seq<Key>, firing: set<Key>)
    requires NoRepeats(keys)
    ensures NoRepeats(Stale(keys, firing))
  {
    if keys != [] {
      StaleHasNoRepeats(keys[..|keys| - 1], firing);
      StaleKeys(keys[..|keys| - 1], firing);
    }
  }

  /** Each key is in the dictionary when the loop reaches it. */
  ghost predicate AllActive(s: State, keys: seq<Key>, now: string) {
    forall k :: 0 <= k < |keys| ==> keys[k] in ResolveKeys(s, keys[..k], now).active
  }

  /** So no pop of the second loop misses. */
  lemma StaleKeysActive(s: State, rules: seq<AlertRule>, poll: seq<QueryResult>, now: string)
    requires Inv(s) && |poll| == |rules|
    ensures var fired := FireRules(s, rules, poll, now);
            AllActive(fired, Stale(fired.order, FiringKeys(rules, poll)), now)
  {
    var fired := FireRules(s, rules, poll, now);
    var stale := Stale(fired.order, FiringKeys(rules, poll));
    FireRulesKeeps(s, rules, poll, now);
    StaleKeys(fired.order, FiringKeys(rules, poll));
    StaleHasNoRepeats(fired.order, FiringKeys(rules, poll));
    forall k | 0 <= k < |stale|
      ensures stale[k] in ResolveKeys(fired, stale[..k], now).active
    {
      ResolveKeysKeeps(fired, stale[..k], now);
      assert stale[k] in stale && stale[k] !in stale[..k];
    }
  }

  lemma SamplesStep(s: State, rule: AlertRule, xs: seq<Sample>, k: nat, now: string)
    requires k < |xs|
    ensures FireSamples(s, rule, xs[..k + 1], now) == FireSample(FireSamples(s, rule, xs[..k], now), rule, xs[k], now)
    ensures KeysOfSamples(rule, xs[..k + 1]) ==
            KeysOfSamples(rule, xs[..k]) + (if Fires(rule, xs[k]) then {KeyOf(rule, xs[k])} else {})
  {
    assert xs[..k + 1][..k] == xs[..k];
  }

  lemma FireRulesStep(s: State, rules: seq<AlertRule>, poll: seq<QueryResult>, r: nat, now: string)
    requires r < |rules| == |poll|
    ensures FireRules(s, rules[..r + 1], poll[..r + 1], now) ==
            FireSamples(FireRules(s, rules[..r], poll[..r], now), rules[r], SamplesOf(poll[r]), now)
    ensures FiringKeys(rules[..r + 1], poll[..r + 1]) ==
            FiringKeys(rules[..r], poll[..r]) + KeysOfSamples(rules[r], SamplesOf(poll[r]))
  {
    assert rules[..r + 1][..r] == rules[..r] && poll[..r + 1][..r] == poll[..r];
  }

  lemma ResolveKeysStep(s: State, keys: seq<Key>, k: nat, now: string)
    requires k < |keys|
    ensures ResolveKeys(s, keys[..k + 1], now) == Resolve(ResolveKeys(s, keys[..k], now), keys[k], now)
  {
    assert keys[..k + 1][..k] == keys[..k];
  }
}
