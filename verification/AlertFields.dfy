/**
 When alerts fire and what they say, read off the samples, thresholds and fields themselves.
 */
module AlertFields {
  import opened Wrappers
  import opened AlertSpec
  import opened AlertTheorems

  /** What all statements below start from: any state of any run, rules whose ids cannot share
      a key, and an answer to the i-th query. */
  ghost predicate Polled(s: State, rules: seq<AlertRule>, poll: seq<QueryResult>, i: nat, samples: seq<Sample>) {
    Inv(s) && |poll| == |rules| && SeparateIds(rules) && i < |rules| && poll[i] == Answered(samples)
  }

  predicate IsActive(s: State, rules: seq<AlertRule>, poll: seq<QueryResult>, now: string, ruleId: string, node: string)
    requires |poll| == |rules|
  {
    Key(ruleId + ":" + node) in Evaluate(s, rules, poll, now).active
  }

  lemma OneSample(s: State, rules: seq<AlertRule>, poll: seq<QueryResult>, now: string, i: nat, x: Sample, node: string)
    requires Polled(s, rules, poll, i, [x])
    ensures IsActive(s, rules, poll, now, rules[i].id, node) <==> Fires(rules[i], x) && NodeOf(x) == node
  {
    ActiveExactly(s, rules, poll, now, i, node);
    assert [x][0] == x;
  }

  /** A number against a threshold that is a number. */
  lemma NumberFiresExactly(s: State, rules: seq<AlertRule>, poll: seq<QueryResult>, now: string, i: nat,
                           node: string, r: real, t: real)
    requires Polled(s, rules, poll, i, [Sample(Some(node), Some(Finite(r)))]) && rules[i].threshold == Finite(t)
    ensures IsActive(s, rules, poll, now, rules[i].id, node) <==>
            || (rules[i].op == ">" && r > t)
            || (rules[i].op == ">=" && r >= t)
            || (rules[i].op == "<" && r < t)
            || (rules[i].op == "<=" && r <= t)
            || (rules[i].op == "==" && r == t)
  {
    OneSample(s, rules, poll, now, i, Sample(Some(node), Some(Finite(r))), node);
  }

  /** NaN on either side never fires. */
  lemma NotANumberNeverFires(s: State, rules: seq<AlertRule>, poll: seq<QueryResult>, now: string, i: nat,
                             node: string, v: Float)
    requires Polled(s, rules, poll, i, [Sample(Some(node), Some(v))])
    requires v == NotANumber || rules[i].threshold == NotANumber
    ensures !IsActive(s, rules, poll, now, rules[i].id, node)
  {
    OneSample(s, rules, poll, now, i, Sample(Some(node), Some(v)), node);
  }

  /** An infinite sample lies above or below every number. */
  lemma InfinityFiresBySign(s: State, rules: seq<AlertRule>, poll: seq<QueryResult>, now: string, i: nat,
                            node: string, v: Float, t: real)
    requires Polled(s, rules, poll, i, [Sample(Some(node), Some(v))]) && rules[i].threshold == Finite(t)
    requires v == PosInf || v == NegInf
    ensures IsActive(s, rules, poll, now, rules[i].id, node) <==>
            if v == PosInf then rules[i].op == ">" || rules[i].op == ">="
            else rules[i].op == "<" || rules[i].op == "<="
  {
    OneSample(s, rules, poll, now, i, Sample(Some(node), Some(v)), node);
  }

  /** An infinite threshold lies above or below every other value but NaN, and equals itself. */
  lemma InfiniteThreshold(s: State, rules: seq<AlertRule>, poll: seq<QueryResult>, now: string, i: nat,
                          node: string, v: Float)
    requires Polled(s, rules, poll, i, [Sample(Some(node), Some(v))]) && v != NotANumber
    requires rules[i].threshold == PosInf || rules[i].threshold == NegInf
    ensures IsActive(s, rules, poll, now, rules[i].id, node) <==>
            if v == rules[i].threshold then rules[i].op == ">=" || rules[i].op == "<=" || rules[i].op == "=="
            else if rules[i].threshold == PosInf then rules[i].op == "<" || rules[i].op == "<="
            else rules[i].op == ">" || rules[i].op == ">="
  {
    OneSample(s, rules, poll, now, i, Sample(Some(node), Some(v)), node);
  }

  /** A text that is no number never fires, and a series without node label counts for node-01. */
  lemma UnlabelledAndUnparsed(s: State, rules: seq<AlertRule>, poll: seq<QueryResult>, now: string, i: nat, x: Sample,
                              node: string)
    requires Polled(s, rules, poll, i, [x])
    ensures x.value == None ==> !IsActive(s, rules, poll, now, rules[i].id, node)
    ensures x.node == None && node != "node-01" ==> !IsActive(s, rules, poll, now, rules[i].id, node)
    ensures x.node == None && rules[i].op == ">=" && rules[i].threshold.Finite?
            && x.value == Some(rules[i].threshold) ==>
              IsActive(s, rules, poll, now, rules[i].id, "node-01")
  {
    OneSample(s, rules, poll, now, i, x, node);
    OneSample(s, rules, poll, now, i, x, "node-01");
  }

  lemma OneRule(s: State, rule: AlertRule, xs: seq<Sample>, now: string)
    ensures FireRules(s, [rule], [Answered(xs)], now) == FireSamples(s, rule, xs, now)
    ensures FiringKeys([rule], [Answered(xs)]) == KeysOfSamples(rule, xs)
  {
    var rules, poll := [rule], [Answered(xs)];
    assert rules[..0] == [] && poll[..0] == [] && rules[0] == rule && poll[0] == Answered(xs);
    assert FireRules(s, rules[..0], poll[..0], now) == s;
    assert FiringKeys(rules[..0], poll[..0]) == {};
  }

  lemma OneSampleOfRule(s: State, rule: AlertRule, x: Sample, now: string)
    ensures FireSamples(s, rule, [x], now) == FireSample(s, rule, x, now)
    ensures KeysOfSamples(rule, [x]) == if Fires(rule, x) then {KeyOf(rule, x)} else {}
  {
    assert [x][..0] == [];
  }

  lemma StaleOne(key: Key)
    ensures Stale([key], {}) == [key] && Stale([key], {key}) == [] && Without([key], key) == []
  {
    var keys := [key];
    assert keys[..0] == [] && keys[0] == key;
    assert Stale(keys[..0], {}) == [] && Stale(keys[..0], {key}) == [];
  }

  /** An alert's first half: what its entry and its notification say when it fires. */
  lemma AlertFires(rule: AlertRule, node: string, r: real, t: real, now: string)
    requires rule.op == ">" && rule.threshold == Finite(t) && r > t
    ensures var key := Key(rule.id + ":" + node);
            var info := AlertInfo(key, rule.id, rule.name, rule.severity, node, Finite(r), now);
            Evaluate(EMPTY, [rule], [Answered([Sample(Some(node), Some(Finite(r)))])], now) ==
            State([Alert(info, Firing, None, false)], map[key := 0], [key],
                  [Notification(key, Firing, rule.name, Finite(r), now)])
  {
    var x := Sample(Some(node), Some(Finite(r)));
    OneRule(EMPTY, rule, [x], now);
    OneSampleOfRule(EMPTY, rule, x, now);
    StaleOne(Key(rule.id + ":" + node));
  }

  /** Its second half: the same entry, and a second notification, when it no longer fires. */
  lemma AlertResolves(rule: AlertRule, info: AlertInfo, earlier: seq<Notification>, later: string)
    ensures Evaluate(State([Alert(info, Firing, None, false)], map[info.id := 0], [info.id], earlier),
                     [rule], [Answered([])], later) ==
            State([Alert(info, Resolved, Some(later), false)], map[], [],
                  earlier + [Notification(info.id, Resolved, "Resolved: " + info.title, info.value, later)])
  {
    var s := State([Alert(info, Firing, None, false)], map[info.id := 0], [info.id], earlier);
    OneRule(s, rule, [], later);
    StaleOne(info.id);
    var keys := [info.id];
    assert keys[..0] == [] && ResolveKeys(s, keys[..0], later) == s;
    assert ResolveKeys(s, keys, later) == Resolve(s, info.id, later);
    assert map[info.id := 0] - {info.id} == map[];
  }
}
