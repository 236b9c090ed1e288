/**
 Invariants of the alert engine over every run: notifications per key, and which history
 entries are live.
 */
module AlertTheorems {
  import opened Wrappers
  import opened AlertSpec

  // ---------- the history ----------

  predicate NoRepeats(keys: seq<Key>) {
    forall i, j :: 0 <= i < j < |keys| ==> keys[i] != keys[j]
  }

  /** An entry is firing, without resolved_at, exactly when it is the active one of its key;
      otherwise it is resolved and says when. */
  predicate EntryConsistent(s: State, i: nat)
    requires i < |s.log|
  {
    if s.log[i].info.id in s.active && s.active[s.log[i].info.id] == i
    then s.log[i].phase == Firing && s.log[i].resolvedAt == None
    else s.log[i].phase == Resolved && s.log[i].resolvedAt.Some?
  }

  ghost predicate HistoryInv(s: State) {
    && NoRepeats(s.order)
    && (forall k :: k in s.order <==> k in s.active)
    && (forall k <- s.active :: s.active[k] < |s.log| && s.log[s.active[k]].info.id == k)
    && (forall k <- s.active, i :: s.active[k] < i < |s.log| ==> s.log[i].info.id != k)
    && (forall i :: 0 <= i < |s.log| ==> EntryConsistent(s, i))
  }

  lemma {:induction false} WithoutKeeps(keys: seq<Key>, key: Key)
    requires NoRepeats(keys)
    ensures NoRepeats(Without(keys, key))
    ensures forall k :: k in Without(keys, key) <==> k in keys && k != key
  {
    if keys != [] {
      assert keys == [keys[0]] + keys[1..];
      WithoutKeeps(keys[1..], key);
      assert keys[0] !in keys[1..];
    }
  }

  lemma FireKeepsHistory(s: State, rule: AlertRule, x: Sample, now: string)
    requires HistoryInv(s)
    ensures HistoryInv(FireSample(s, rule, x, now))
  {
    var s' := FireSample(s, rule, x, now);
    forall i | 0 <= i < |s'.log|
      ensures EntryConsistent(s', i)
    {
      if i < |s.log| {
        assert EntryConsistent(s, i);
      }
    }
  }

  lemma ResolveKeepsHistory(s: State, key: Key, now: string)
    requires HistoryInv(s)
    ensures HistoryInv(Resolve(s, key, now))
  {
    var s' := Resolve(s, key, now);
    if key in s.active {
      WithoutKeeps(s.order, key);
      forall i | 0 <= i < |s'.log|
        ensures EntryConsistent(s', i)
      {
        assert EntryConsistent(s, i);
      }
    }
  }

  lemma AcknowledgeKeepsHistory(s: State, id: Key)
    requires HistoryInv(s)
    ensures HistoryInv(Acknowledge(s, id))
  {
    var s' := Acknowledge(s, id);
    assert s'.active == s.active && s'.order == s.order && |s'.log| == |s.log|;
    forall i | 0 <= i < |s.log|
      ensures s'.log[i].info == s.log[i].info && EntryConsistent(s', i)
    {
      assert s'.log[i] == s.log[i] || s'.log[i] == s.log[i].(acknowledged := true);
      assert EntryConsistent(s, i);
    }
  }

  // ---------- notifications ----------

  /** The notifications of one key, in the order they were sent. */
  function Trace(sent: seq<Notification>, key: Key): seq<Phase> {
    if sent == [] then []
    else
      var n := sent[|sent| - 1];
      Trace(sent[..|sent| - 1], key) + (if n.key == key then [n.phase] else [])
  }

  /** firing, resolved, firing, ... */
  predicate Alternates(t: seq<Phase>) {
    forall i :: 0 <= i < |t| ==> t[i] == if i % 2 == 0 then Firing else Resolved
  }

  predicate KeyTraceInv(s: State, key: Key) {
    && Alternates(Trace(s.sent, key))
    && (key in s.active <==> |Trace(s.sent, key)| % 2 == 1)
  }

  ghost predicate Inv(s: State) {
    HistoryInv(s) && forall key :: KeyTraceInv(s, key)
  }

  lemma TraceSnoc(sent: seq<Notification>, n: Notification, key: Key)
    ensures Trace(sent + [n], key) == Trace(sent, key) + (if n.key == key then [n.phase] else [])
  {
    assert (sent + [n])[..|sent|] == sent;
  }

  lemma FireKeepsTrace(s: State, rule: AlertRule, x: Sample, now: string, key: Key)
    requires KeyTraceInv(s, key)
    ensures KeyTraceInv(FireSample(s, rule, x, now), key)
  {
    var k := KeyOf(rule, x);
    if Fires(rule, x) && k !in s.active {
      TraceSnoc(s.sent, Notification(k, Firing, InfoFor(rule, x, now).title, InfoFor(rule, x, now).value, now), key);
    }
  }

  lemma FireKeepsInv(s: State, rule: AlertRule, x: Sample, now: string)
    requires Inv(s)
    ensures Inv(FireSample(s, rule, x, now))
  {
    FireKeepsHistory(s, rule, x, now);
    forall key
      ensures KeyTraceInv(FireSample(s, rule, x, now), key)
    {
      assert KeyTraceInv(s, key);
      FireKeepsTrace(s, rule, x, now, key);
    }
  }

  lemma ResolveKeepsTrace(s: State, k: Key, now: string, key: Key)
    requires KeyTraceInv(s, key)
    ensures KeyTraceInv(Resolve(s, k, now), key)
  {
    if k in s.active && s.active[k] < |s.log| {
      var a := s.log[s.active[k]];
      TraceSnoc(s.sent, Notification(k, Resolved, "Resolved: " + a.info.title, a.info.value, now), key);
    }
  }

  lemma ResolveKeepsInv(s: State, k: Key, now: string)
    requires Inv(s)
    ensures Inv(Resolve(s, k, now))
  {
    ResolveKeepsHistory(s, k, now);
    forall key
      ensures KeyTraceInv(Resolve(s, k, now), key)
    {
      assert KeyTraceInv(s, key);
      ResolveKeepsTrace(s, k, now, key);
    }
  }

  // ---------- one evaluation ----------

  /** s' comes after s: no entry is dropped, no resolved entry is touched. */
  predicate Extends(s: State, s': State) {
    && |s.log| <= |s'.log|
    && forall i :: 0 <= i < |s.log| && s.log[i].phase == Resolved ==> s'.log[i] == s.log[i]
  }

  lemma FireSampleExtends(s: State, rule: AlertRule, x: Sample, now: string)
    ensures var s' := FireSample(s, rule, x, now);
            && Extends(s, s')
            && s'.active.Keys == s.active.Keys + (if Fires(rule, x) then {KeyOf(rule, x)} else {})
  {
  }

  lemma ExtendsTransitive(r: State, s: State, t: State)
    requires Extends(r, s) && Extends(s, t)
    ensures Extends(r, t)
  {
  }

  lemma {:induction false} FireSamplesKeeps(s: State, rule: AlertRule, xs: seq<Sample>, now: string)
    requires Inv(s)
    ensures Inv(FireSamples(s, rule, xs, now))
    ensures Extends(s, FireSamples(s, rule, xs, now))
    ensures FireSamples(s, rule, xs, now).active.Keys == s.active.Keys + KeysOfSamples(rule, xs)
  {
    if xs != [] {
      var earlier, x := xs[..|xs| - 1], xs[|xs| - 1];
      FireSamplesKeeps(s, rule, earlier, now);
      var mid := FireSamples(s, rule, earlier, now);
      FireKeepsInv(mid, rule, x, now);
      FireSampleExtends(mid, rule, x, now);
      ExtendsTransitive(s, mid, FireSample(mid, rule, x, now));
    }
  }

  lemma {:induction false} FireRulesKeeps(s: State, rules: seq<AlertRule>, poll: seq<QueryResult>, now: string)
    requires Inv(s) && |poll| == |rules|
    ensures Inv(FireRules(s, rules, poll, now))
    ensures Extends(s, FireRules(s, rules, poll, now))
    ensures FireRules(s, rules, poll, now).active.Keys == s.active.Keys + FiringKeys(rules, poll)
  {
    if rules != [] {
      var n := |rules| - 1;
      FireRulesKeeps(s, rules[..n], poll[..n], now);
      var mid := FireRules(s, rules[..n], poll[..n], now);
      FireSamplesKeeps(mid, rules[n], SamplesOf(poll[n]), now);
      ExtendsTransitive(s, mid, FireSamples(mid, rules[n], SamplesOf(poll[n]), now));
    }
  }

  lemma ResolveExtends(s: State, key: Key, now: string)
    requires HistoryInv(s)
    ensures Extends(s, Resolve(s, key, now))
    ensures Resolve(s, key, now).active.Keys == s.active.Keys - {key}
  {
    if key in s.active {
      assert EntryConsistent(s, s.active[key]);
    }
  }

  lemma {:induction false} ResolveKeysKeeps(s: State, keys: seq<Key>, now: string)
    requires Inv(s)
    ensures Inv(ResolveKeys(s, keys, now))
    ensures Extends(s, ResolveKeys(s, keys, now))
    ensures ResolveKeys(s, keys, now).active.Keys == s.active.Keys - (set k <- keys)
  {
    if keys != [] {
      var earlier, k := keys[..|keys| - 1], keys[|keys| - 1];
      ResolveKeysKeeps(s, earlier, now);
      var mid := ResolveKeys(s, earlier, now);
      ResolveKeepsInv(mid, k, now);
      ResolveExtends(mid, k, now);
      ExtendsTransitive(s, mid, Resolve(mid, k, now));
      assert keys == earlier + [k];
    }
  }

  lemma {:induction false} StaleKeys(keys: seq<Key>, firing: set<Key>)
    ensures forall k :: k in Stale(keys, firing) <==> k in keys && k !in firing
  {
    if keys != [] {
      var earlier := keys[..|keys| - 1];
      StaleKeys(earlier, firing);
      assert keys == earlier + [keys[|keys| - 1]];
    }
  }

  /** After every evaluation the active keys are exactly the keys firing in it, and entries
      already resolved are as they were. */
  lemma EvaluationSettles(s: State, rules: seq<AlertRule>, poll: seq<QueryResult>, now: string)
    requires Inv(s) && |poll| == |rules|
    ensures Inv(Evaluate(s, rules, poll, now))
    ensures Extends(s, Evaluate(s, rules, poll, now))
    ensures Evaluate(s, rules, poll, now).active.Keys == FiringKeys(rules, poll)
  {
    var fired := FireRules(s, rules, poll, now);
    var firing := FiringKeys(rules, poll);
    FireRulesKeeps(s, rules, poll, now);
    ResolveKeysKeeps(fired, Stale(fired.order, firing), now);
    ExtendsTransitive(s, fired, Evaluate(s, rules, poll, now));
    StaleKeys(fired.order, firing);
  }

  lemma {:induction false} KeysOfSamplesExactly(rule: AlertRule, xs: seq<Sample>, key: Key)
    ensures key in KeysOfSamples(rule, xs) <==> exists x <- xs :: Fires(rule, x) && KeyOf(rule, x) == key
  {
    if xs != [] {
      var earlier := xs[..|xs| - 1];
      KeysOfSamplesExactly(rule, earlier, key);
      assert xs == earlier + [xs[|xs| - 1]];
    }
  }

  /** This answer has a sample of that key over the rule's threshold. */
  predicate FiresKey(rule: AlertRule, answer: QueryResult, key: Key) {
    answer.Answered? && exists x <- answer.samples :: Fires(rule, x) && KeyOf(rule, x) == key
  }

  predicate FiresSomewhere(rules: seq<AlertRule>, poll: seq<QueryResult>, key: Key)
    requires |poll| == |rules|
  {
    exists i :: 0 <= i < |rules| && FiresKey(rules[i], poll[i], key)
  }

  lemma FiresSomewhereSnoc(rules: seq<AlertRule>, poll: seq<QueryResult>, key: Key)
    requires |poll| == |rules| && rules != []
    ensures var n := |rules| - 1;
            FiresSomewhere(rules, poll, key) <==>
            FiresSomewhere(rules[..n], poll[..n], key) || FiresKey(rules[n], poll[n], key)
  {
    var n := |rules| - 1;
    assert forall i :: 0 <= i < n ==> rules[..n][i] == rules[i] && poll[..n][i] == poll[i];
  }

  /** A key fires exactly when some answered query has a sample over its rule's threshold. */
  lemma {:induction false} FiringKeysExactly(rules: seq<AlertRule>, poll: seq<QueryResult>, key: Key)
    requires |poll| == |rules|
    ensures key in FiringKeys(rules, poll) <==> FiresSomewhere(rules, poll, key)
  {
    if rules != [] {
      var n := |rules| - 1;
      FiringKeysExactly(rules[..n], poll[..n], key);
      KeysOfSamplesExactly(rules[n], SamplesOf(poll[n]), key);
      FiresSomewhereSnoc(rules, poll, key);
    }
  }

  // ---------- acknowledgement ----------

  lemma {:induction false} NewestExactly(log: seq<Alert>, id: Key)
    ensures NewestWith(log, id).None? <==> forall i :: 0 <= i < |log| ==> log[i].info.id != id
    ensures NewestWith(log, id).Some? ==>
              var n := NewestWith(log, id).value;
              n < |log| && log[n].info.id == id && forall i :: n < i < |log| ==> log[i].info.id != id
  {
    if log != [] {
      NewestExactly(log[..|log| - 1], id);
    }
  }

  /** An acknowledgement marks the newest entry with the id and no other, active or not. */
  lemma AcknowledgeMarksNewest(s: State, id: Key)
    requires Inv(s)
    ensures AckTarget(s, id) == NewestWith(s.log, id)
    ensures var s' := Acknowledge(s, id);
            && Inv(s')
            && |s'.log| == |s.log|
            && (forall i :: 0 <= i < |s.log| ==>
                  (s'.log[i] == if NewestWith(s.log, id) == Some(i) then s.log[i].(acknowledged := true) else s.log[i]))
  {
    NewestExactly(s.log, id);
    AcknowledgeKeepsHistory(s, id);
    var s' := Acknowledge(s, id);
    forall key
      ensures KeyTraceInv(s', key)
    {
      assert KeyTraceInv(s, key);
    }
  }

  // ---------- whole runs ----------

  /** In every run, for every key: the notifications strictly alternate beginning with
      firing, the last is firing exactly while the key is active, and the history is
      consistent with the active alerts. */
  lemma {:induction false} RunsKeepInv(rules: seq<AlertRule>, events: seq<Event>)
    requires forall e <- events :: WellFormed(rules, e)
    ensures Inv(Run(rules, events))
  {
    if events == [] {
      assert forall key :: KeyTraceInv(EMPTY, key);
    } else {
      var earlier, e := events[..|events| - 1], events[|events| - 1];
      RunsKeepInv(rules, earlier);
      var s := Run(rules, earlier);
      assert e in events && WellFormed(rules, e);
      match e
      case Evaluation(poll, now) => EvaluationSettles(s, rules, poll, now);
      case Acknowledgement(id) => AcknowledgeMarksNewest(s, id);
    }
  }

  // ---------- keys ----------

  /** When two different rules can share an alert key: exactly if one id followed by ':'
      begins the other id. Ids without ':' never collide. */
  lemma KeysCollideExactly(a: string, b: string)
    requires a != b
    ensures (exists m, n :: KeyFor(a, m) == KeyFor(b, n)) <==> a + ":" <= b || b + ":" <= a
  {
    if a + ":" <= b {
      var m := b[|a| + 1..] + ":";
      assert b == a + ":" + b[|a| + 1..];
      assert KeyFor(a, m) == KeyFor(b, "");
    } else if b + ":" <= a {
      var n := a[|b| + 1..] + ":";
      assert a == b + ":" + a[|b| + 1..];
      assert KeyFor(b, n) == KeyFor(a, "");
    }
    forall m, n | KeyFor(a, m) == KeyFor(b, n)
      ensures a + ":" <= b || b + ":" <= a
    {
      PrefixOfKey(a, m, b, n);
    }
  }

  lemma PrefixOfKey(a: string, m: string, b: string, n: string)
    requires a != b && KeyFor(a, m) == KeyFor(b, n)
    ensures a + ":" <= b || b + ":" <= a
  {
    var k := KeyFor(a, m).text;
    assert k == KeyFor(b, n).text;
    assert k[..|a|] == a && k[..|b|] == b;
    assert k[|a|] == ':' && k[|b|] == ':';
    if |a| < |b| {
      assert b[..|a|] == a && b[|a|] == ':';
    } else if |b| < |a| {
      assert a[..|b|] == b && a[|b|] == ':';
    }
  }

  // ---------- what resolves an alert ----------

  /** No two rules can share an alert key. */
  predicate SeparateIds(rules: seq<AlertRule>) {
    forall i, j :: 0 <= i < |rules| && 0 <= j < |rules| && i != j ==>
      rules[i].id != rules[j].id && !(rules[i].id + ":" <= rules[j].id)
  }

  /** Distinct ids without ':' are separate. */
  lemma PlainIdsAreSeparate(rules: seq<AlertRule>)
    requires forall i :: 0 <= i < |rules| ==> ':' !in rules[i].id
    requires forall i, j :: 0 <= i < j < |rules| ==> rules[i].id != rules[j].id
    ensures SeparateIds(rules)
  {
    forall i, j | 0 <= i < |rules| && 0 <= j < |rules| && i != j
      ensures rules[i].id != rules[j].id && !(rules[i].id + ":" <= rules[j].id)
    {
      var a, b := rules[i].id, rules[j].id;
      if |a| < |b| {
        assert b[|a|] in b && (a + ":")[|a|] == ':';
      }
    }
  }

  lemma SameKeySameRule(rules: seq<AlertRule>, i: nat, j: nat, m: string, n: string)
    requires SeparateIds(rules) && i < |rules| && j < |rules|
    requires KeyFor(rules[i].id, m) == KeyFor(rules[j].id, n)
    ensures i == j && m == n
  {
    if i != j {
      PrefixOfKey(rules[i].id, m, rules[j].id, n);
    }
    var k := KeyFor(rules[i].id, m).text;
    assert k[|rules[i].id| + 1..] == m && KeyFor(rules[j].id, n).text[|rules[j].id| + 1..] == n;
  }

  /** When the alert of a rule and node is active after an evaluation: exactly if the rule's
      own query was answered with a sample of that node over the threshold. So it is resolved
      by a good sample, but just as well by a missing one or by the failure of that query. */
  lemma ActiveExactly(s: State, rules: seq<AlertRule>, poll: seq<QueryResult>, now: string, i: nat, node: string)
    requires Inv(s) && |poll| == |rules| && SeparateIds(rules) && i < |rules|
    ensures KeyFor(rules[i].id, node) in Evaluate(s, rules, poll, now).active <==>
            && poll[i].Answered?
            && exists x <- poll[i].samples :: Fires(rules[i], x) && NodeOf(x) == node
  {
    var key := KeyFor(rules[i].id, node);
    EvaluationSettles(s, rules, poll, now);
    FiringKeysExactly(rules, poll, key);
    if r :| 0 <= r < |rules| && FiresKey(rules[r], poll[r], key) {
      var x :| x in poll[r].samples && Fires(rules[r], x) && KeyOf(rules[r], x) == key;
      SameKeySameRule(rules, r, i, NodeOf(x), node);
    }
    if poll[i].Answered? {
      forall x <- poll[i].samples | Fires(rules[i], x) && NodeOf(x) == node
        ensures FiresKey(rules[i], poll[i], key)
      {
        assert KeyOf(rules[i], x) == key;
      }
    }
  }

  /** One failed query resolves every alert of its rule. */
  lemma FailedQueryResolvesItsRule(s: State, rules: seq<AlertRule>, poll: seq<QueryResult>, now: string, i: nat)
    requires Inv(s) && |poll| == |rules| && SeparateIds(rules) && i < |rules| && poll[i].Failed?
    ensures forall node :: KeyFor(rules[i].id, node) !in Evaluate(s, rules, poll, now).active
  {
    forall node
      ensures KeyFor(rules[i].id, node) !in Evaluate(s, rules, poll, now).active
    {
      ActiveExactly(s, rules, poll, now, i, node);
    }
  }

  /** A telemetry outage (no query answered) resolves every active alert. */
  lemma OutageResolvesEverything(s: State, rules: seq<AlertRule>, poll: seq<QueryResult>, now: string)
    requires Inv(s) && |poll| == |rules| && forall i :: 0 <= i < |poll| ==> poll[i].Failed?
    ensures Evaluate(s, rules, poll, now).active.Keys == {}
  {
    EvaluationSettles(s, rules, poll, now);
    if key :| key in FiringKeys(rules, poll) {
      FiringKeysExactly(rules, poll, key);
    }
    assert FiringKeys(rules, poll) == {};
  }
}
