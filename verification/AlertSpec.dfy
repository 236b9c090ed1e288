/**
 The alert engine on values. The history is kept oldest first, so that the position of an
 entry never changes, and the active dictionary maps a key to the position of its entry:
 that is how a value says that the active alert and the history entry are one object.
 */
module AlertSpec {
  import opened Wrappers

  /** A Python float: reals, infinities, and NaN, which compares false with everything. */
  datatype Float = NegInf | Finite(r: real) | PosInf | NotANumber

  predicate Less(a: Float, b: Float) {
    match (a, b)
    case (NotANumber, _) => false
    case (_, NotANumber) => false
    case (NegInf, _) => b != NegInf
    case (Finite(x), Finite(y)) => x < y
    case (Finite(_), _) => b == PosInf
    case (PosInf, _) => false
  }

  predicate Equal(a: Float, b: Float) {
    a == b && a != NotANumber
  }

  predicate CompareValue(val: Float, op: string, threshold: Float) {
    if op == ">" then Less(threshold, val)
    else if op == ">=" then Less(threshold, val) || Equal(val, threshold)
    else if op == "<" then Less(val, threshold)
    else if op == "<=" then Less(val, threshold) || Equal(val, threshold)
    else if op == "==" then Equal(val, threshold)
    else false
  }

  datatype AlertRule = AlertRule(id: string, name: string, op: string, threshold: Float, severity: string)

  /** One series of a query result; value is None if its text is no number. */
  datatype Sample = Sample(node: Option<string>, value: Option<Float>)

  datatype QueryResult = Failed | Answered(samples: seq<Sample>)

  const DEFAULT_NODE := "node-01"

  function NodeOf(x: Sample): string {
    if x.node.Some? then x.node.value else DEFAULT_NODE
  }

  /** An alert's key and id: the text "<rule id>:<node>". */
  datatype Key = Key(text: string)

  function KeyFor(ruleId: string, node: string): Key {
    Key(ruleId + ":" + node)
  }

  function KeyOf(rule: AlertRule, x: Sample): Key {
    KeyFor(rule.id, NodeOf(x))
  }

  predicate Fires(rule: AlertRule, x: Sample) {
    x.value.Some? && CompareValue(x.value.value, rule.op, rule.threshold)
  }

  datatype Phase = Firing | Resolved

  /** What an alert was created with, and what may change of it. */
  datatype AlertInfo = AlertInfo(
    id: Key,
    ruleId: string,
    title: string,
    severity: string,
    node: string,
    value: Float,
    firedAt: string)

  datatype Alert = Alert(info: AlertInfo, phase: Phase, resolvedAt: Option<string>, acknowledged: bool)

  datatype Notification = Notification(key: Key, phase: Phase, title: string, value: Float, timestamp: string)

  datatype State = State(
    log: seq<Alert>,
    active: map<Key, nat>,
    order: seq<Key>,
    sent: seq<Notification>)

  const EMPTY := State([], map[], [], [])

  function InfoFor(rule: AlertRule, x: Sample, now: string): AlertInfo
    requires x.value.Some?
  {
    AlertInfo(KeyOf(rule, x), rule.id, rule.name, rule.severity, NodeOf(x), x.value.value, now)
  }

  function FireSample(s: State, rule: AlertRule, x: Sample, now: string): State {
    var key := KeyOf(rule, x);
    if !Fires(rule, x) || key in s.active then s
    else
      var info := InfoFor(rule, x, now);
      State(s.log + [Alert(info, Firing, None, false)], s.active[key := |s.log|], s.order + [key],
            s.sent + [Notification(key, Firing, info.title, info.value, now)])
  }

  function FireSamples(s: State, rule: AlertRule, xs: seq<Sample>, now: string): State {
    if xs == [] then s
    else FireSample(FireSamples(s, rule, xs[..|xs| - 1], now), rule, xs[|xs| - 1], now)
  }

  function SamplesOf(r: QueryResult): seq<Sample> {
    if r.Answered? then r.samples else []
  }

  /** The rules in order, poll[i] being the answer to the query of rules[i]. */
  function FireRules(s: State, rules: seq<AlertRule>, poll: seq<QueryResult>, now: string): State
    requires |poll| == |rules|
  {
    if rules == [] then s
    else
      var n := |rules| - 1;
      FireSamples(FireRules(s, rules[..n], poll[..n], now), rules[n], SamplesOf(poll[n]), now)
  }

  function KeysOfSamples(rule: AlertRule, xs: seq<Sample>): set<Key> {
    if xs == [] then {}
    else
      var earlier, x := KeysOfSamples(rule, xs[..|xs| - 1]), xs[|xs| - 1];
      if Fires(rule, x) then earlier + {KeyOf(rule, x)} else earlier
  }

  /** The keys that fire in this evaluation. */
  function FiringKeys(rules: seq<AlertRule>, poll: seq<QueryResult>): set<Key>
    requires |poll| == |rules|
  {
    if rules == [] then {}
    else
      var n := |rules| - 1;
      FiringKeys(rules[..n], poll[..n]) + KeysOfSamples(rules[n], SamplesOf(poll[n]))
  }

  function Without(keys: seq<Key>, key: Key): seq<Key> {
    if keys == [] then []
    else if keys[0] == key then Without(keys[1..], key)
    else [keys[0]] + Without(keys[1..], key)
  }

  function Stale(keys: seq<Key>, firing: set<Key>): seq<Key> {
    if keys == [] then []
    else if keys[|keys| - 1] in firing then Stale(keys[..|keys| - 1], firing)
    else Stale(keys[..|keys| - 1], firing) + [keys[|keys| - 1]]
  }

  function Resolve(s: State, key: Key, now: string): State {
    if key !in s.active || s.active[key] >= |s.log| then s
    else
      var i := s.active[key];
      State(s.log[i := s.log[i].(phase := Resolved, resolvedAt := Some(now))],
            s.active - {key}, Without(s.order, key),
            s.sent + [Notification(key, Resolved, "Resolved: " + s.log[i].info.title, s.log[i].info.value, now)])
  }

  function ResolveKeys(s: State, keys: seq<Key>, now: string): State {
    if keys == [] then s
    else Resolve(ResolveKeys(s, keys[..|keys| - 1], now), keys[|keys| - 1], now)
  }

  function Evaluate(s: State, rules: seq<AlertRule>, poll: seq<QueryResult>, now: string): State
    requires |poll| == |rules|
  {
    var fired := FireRules(s, rules, poll, now);
    ResolveKeys(fired, Stale(fired.order, FiringKeys(rules, poll)), now)
  }

  /** The newest history entry with that id. */
  function NewestWith(log: seq<Alert>, id: Key): Option<nat> {
    if log == [] then None
    else if log[|log| - 1].info.id == id then Some(|log| - 1)
    else NewestWith(log[..|log| - 1], id)
  }

  /** Which entry an acknowledgement marks: the active one, else the newest with the id. */
  function AckTarget(s: State, id: Key): Option<nat> {
    if id in s.active then Some(s.active[id]) else NewestWith(s.log, id)
  }

  function Acknowledge(s: State, id: Key): State {
    var t := AckTarget(s, id);
    if t.None? || t.value >= |s.log| then s
    else s.(log := s.log[t.value := s.log[t.value].(acknowledged := true)])
  }

  datatype Event =
    | Evaluation(poll: seq<QueryResult>, now: string)
    | Acknowledgement(id: Key)

  predicate WellFormed(rules: seq<AlertRule>, e: Event) {
    e.Evaluation? ==> |e.poll| == |rules|
  }

  function Step(s: State, rules: seq<AlertRule>, e: Event): State
    requires WellFormed(rules, e)
  {
    match e
    case Evaluation(poll, now) => Evaluate(s, rules, poll, now)
    case Acknowledgement(id) => Acknowledge(s, id)
  }

  /** A whole life of the manager. */
  function Run(rules: seq<AlertRule>, events: seq<Event>): State
    requires forall e <- events :: WellFormed(rules, e)
  {
    if events == [] then EMPTY
    else Step(Run(rules, events[..|events| - 1]), rules, events[|events| - 1])
  }
}
