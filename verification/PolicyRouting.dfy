/**
 Packet marks of gateways and the kernel state the routing commands build: one routing
 table per mark, selected by fwmark rules.
 */
module PolicyRouting {
  import opened Wrappers
  import opened RouterConfig

  const FIRST_MARK: nat := 100
  /** Table ids 253, 254 and 255 are the kernel's own (default, main, local). */
  const FIRST_RESERVED_TABLE: nat := 253
  const LAST_RESERVED_TABLE: nat := 255

  function MarkedCount(gws: seq<Gateway>): nat {
    if gws == [] then 0
    else MarkedCount(gws[..|gws| - 1]) + (if gws[|gws| - 1].id != DEFAULT_GATEWAY then 1 else 0)
  }

  /** The running counter: every non-default entry takes the next mark, a repeated id
      takes a new one. */
  function MarksOf(gws: seq<Gateway>): map<string, nat> {
    if gws == [] then map[]
    else
      var earlier, last := gws[..|gws| - 1], gws[|gws| - 1];
      if last.id == DEFAULT_GATEWAY then MarksOf(earlier)
      else MarksOf(earlier)[last.id := FIRST_MARK + MarkedCount(earlier)]
  }

  /** The interface of the last gateway with that id. */
  function InterfaceOf(gws: seq<Gateway>, id: string): Option<string> {
    if gws == [] then None
    else if gws[|gws| - 1].id == id then Some(gws[|gws| - 1].iface)
    else InterfaceOf(gws[..|gws| - 1], id)
  }

  predicate IsMarked(gws: seq<Gateway>, id: string) {
    id != DEFAULT_GATEWAY && exists g <- gws :: g.id == id
  }

  lemma MarkedSnoc(gws: seq<Gateway>, g: Gateway, id: string)
    ensures IsMarked(gws + [g], id) <==> IsMarked(gws, id) || (id == g.id && id != DEFAULT_GATEWAY)
  {
  }

  lemma {:induction false} MarkedIds(gws: seq<Gateway>, id: string)
    ensures id in MarksOf(gws) <==> IsMarked(gws, id)
    ensures IsMarked(gws, id) ==> InterfaceOf(gws, id).Some?
  {
    if gws != [] {
      var earlier, last := gws[..|gws| - 1], gws[|gws| - 1];
      MarkedIds(earlier, id);
      assert gws == earlier + [last];
      MarkedSnoc(earlier, last, id);
    }
  }

  predicate InjectiveMarks(marks: map<string, nat>) {
    forall a <- marks, b <- marks :: marks[a] == marks[b] ==> a == b
  }

  lemma {:induction false} MarksAreFresh(gws: seq<Gateway>)
    ensures forall id <- MarksOf(gws) :: FIRST_MARK <= MarksOf(gws)[id] < FIRST_MARK + MarkedCount(gws)
    ensures InjectiveMarks(MarksOf(gws))
  {
    if gws != [] {
      MarksAreFresh(gws[..|gws| - 1]);
    }
  }

  /** The keys are the non-default ids, each mark is at least 100 and below the next free
      one, and different ids have different marks. */
  lemma MarksAreDistinct(gws: seq<Gateway>)
    ensures forall id :: id in MarksOf(gws) <==> IsMarked(gws, id)
    ensures forall id <- MarksOf(gws) :: FIRST_MARK <= MarksOf(gws)[id] < FIRST_MARK + MarkedCount(gws)
    ensures InjectiveMarks(MarksOf(gws))
    ensures forall id :: IsMarked(gws, id) ==> InterfaceOf(gws, id).Some?
  {
    MarksAreFresh(gws);
    forall id
      ensures id in MarksOf(gws) <==> IsMarked(gws, id)
      ensures IsMarked(gws, id) ==> InterfaceOf(gws, id).Some?
    {
      MarkedIds(gws, id);
    }
  }

  predicate DistinctIds(gws: seq<Gateway>) {
    forall i, j :: 0 <= i < j < |gws| ==> gws[i].id != gws[j].id
  }

  /** No later entry has the id of the i-th. */
  predicate LastWithId(gws: seq<Gateway>, i: nat)
    requires i < |gws|
  {
    forall j :: i < j < |gws| ==> gws[j].id != gws[i].id
  }

  /** An id keeps the mark its last entry was given. */
  lemma {:induction false} MarkByPosition(gws: seq<Gateway>, i: nat)
    requires i < |gws| && LastWithId(gws, i) && gws[i].id != DEFAULT_GATEWAY
    ensures gws[i].id in MarksOf(gws) && MarksOf(gws)[gws[i].id] == FIRST_MARK + MarkedCount(gws[..i])
  {
    var earlier := gws[..|gws| - 1];
    if i < |gws| - 1 {
      MarkByPosition(earlier, i);
      assert earlier[..i] == gws[..i];
    }
  }

  lemma {:induction false} LastEntry(gws: seq<Gateway>, id: string) returns (i: nat)
    requires exists g <- gws :: g.id == id
    ensures i < |gws| && gws[i].id == id && LastWithId(gws, i)
  {
    var earlier, last := gws[..|gws| - 1], gws[|gws| - 1];
    if last.id == id {
      i := |gws| - 1;
    } else {
      assert gws == earlier + [last];
      i := LastEntry(earlier, id);
    }
  }

  /** Every value of the counter was taken by some position. */
  lemma {:induction false} CounterHitsEveryValue(gws: seq<Gateway>, n: nat) returns (i: nat)
    requires n < MarkedCount(gws)
    ensures i < |gws| && gws[i].id != DEFAULT_GATEWAY && MarkedCount(gws[..i]) == n
  {
    var earlier := gws[..|gws| - 1];
    if n < MarkedCount(earlier) {
      i := CounterHitsEveryValue(earlier, n);
      assert earlier[..i] == gws[..i];
    } else {
      i := |gws| - 1;
    }
  }

  predicate AvoidsReservedTables(marks: map<string, nat>) {
    forall id <- marks :: !(FIRST_RESERVED_TABLE <= marks[id] <= LAST_RESERVED_TABLE)
  }

  /** The last entry of some id was given the mark of a reserved table. */
  predicate HitsReservedTable(gws: seq<Gateway>) {
    exists i :: 0 <= i < |gws| && gws[i].id != DEFAULT_GATEWAY && LastWithId(gws, i)
                && FIRST_RESERVED_TABLE <= FIRST_MARK + MarkedCount(gws[..i]) <= LAST_RESERVED_TABLE
  }

  /** Marks double as table ids. The compiler stays off the kernel's own tables exactly if no
      id's last entry is the 154th to 156th non-default one; for distinct ids that is while
      there are at most 153 of them. */
  lemma ReservedTablesAvoided(gws: seq<Gateway>)
    ensures AvoidsReservedTables(MarksOf(gws)) <==> !HitsReservedTable(gws)
    ensures MarkedCount(gws) <= 153 ==> AvoidsReservedTables(MarksOf(gws))
    ensures DistinctIds(gws) && AvoidsReservedTables(MarksOf(gws)) ==> MarkedCount(gws) <= 153
  {
    MarksAreDistinct(gws);
    forall id <- MarksOf(gws)
      ensures exists i :: 0 <= i < |gws| && gws[i].id == id && LastWithId(gws, i)
                          && MarksOf(gws)[id] == FIRST_MARK + MarkedCount(gws[..i])
    {
      assert IsMarked(gws, id);
      var i := LastEntry(gws, id);
      MarkByPosition(gws, i);
    }
    forall i | 0 <= i < |gws| && gws[i].id != DEFAULT_GATEWAY && LastWithId(gws, i)
      ensures gws[i].id in MarksOf(gws) && MarksOf(gws)[gws[i].id] == FIRST_MARK + MarkedCount(gws[..i])
    {
      MarkByPosition(gws, i);
    }
    if DistinctIds(gws) && MarkedCount(gws) > 153 {
      var i := CounterHitsEveryValue(gws, 153);
      assert LastWithId(gws, i);
      assert MarksOf(gws)[gws[i].id] == FIRST_RESERVED_TABLE;
    }
  }

  // ---------- the kernel ----------

  datatype Command =
    | RouteReplaceDefault(dev: string, table: nat)
    | RuleAdd(mark: nat, table: nat)

  /** A rule looks up a table for the packets it selects: by an exact fwmark, or by any other
      selector ("from", masks, "not fwmark", none at all). */
  datatype IpRule =
    | FwmarkRule(mark: nat, table: nat)
    | OtherRule(selector: string, table: nat)

  /** Default routes per table, and the rules in the order they are consulted, behind the one
      for the local table that comes first of all. */
  datatype Kernel = Kernel(defaults: map<nat, string>, rules: seq<IpRule>)

  /** What the rest of a packet decides, its addresses and interfaces: which other selectors it
      meets under a mark, and which tables have a more specific route for it, and where to. */
  datatype Traffic = Traffic(selects: (string, nat) -> bool, specific: map<nat, string>)

  predicate Selects(r: IpRule, x: Traffic, mark: nat) {
    match r
    case FwmarkRule(m, _) => m == mark
    case OtherRule(selector, _) => x.selects(selector, mark)
  }

  /** A new rule is consulted before the ones already there; an identical rule is
      rejected, and the caller ignores the error. */
  function Execute(cmd: Command, k: Kernel): Kernel {
    match cmd
    case RouteReplaceDefault(dev, table) => k.(defaults := k.defaults[table := dev])
    case RuleAdd(mark, table) =>
      if FwmarkRule(mark, table) in k.rules then k
      else k.(rules := [FwmarkRule(mark, table)] + k.rules)
  }

  function ExecuteAll(cmds: seq<Command>, k: Kernel): Kernel {
    if cmds == [] then k
    else Execute(cmds[|cmds| - 1], ExecuteAll(cmds[..|cmds| - 1], k))
  }

  /** The table a packet is routed by: that of the first rule that selects it and whose table
      has a route for it. */
  function TableIn(rules: seq<IpRule>, x: Traffic, tables: set<nat>, mark: nat): (t: Option<nat>)
    ensures t.Some? ==> t.value in tables
  {
    if rules == [] then None
    else if Selects(rules[0], x, mark) && rules[0].table in tables then Some(rules[0].table)
    else TableIn(rules[1..], x, tables, mark)
  }

  function TableFor(k: Kernel, x: Traffic, mark: nat): (t: Option<nat>)
    ensures t.Some? ==> t.value in k.defaults || t.value in x.specific
  {
    TableIn(k.rules, x, k.defaults.Keys + x.specific.Keys, mark)
  }

  /** The interface a packet with that mark leaves by. */
  function RouteFor(k: Kernel, x: Traffic, mark: nat): Option<string> {
    var t := TableFor(k, x, mark);
    if t.None? then None
    else if t.value in x.specific then Some(x.specific[t.value])
    else Some(k.defaults[t.value])
  }

  lemma {:induction false} TableInConcat(a: seq<IpRule>, b: seq<IpRule>, x: Traffic, tables: set<nat>, mark: nat)
    ensures TableIn(a + b, x, tables, mark) ==
            if TableIn(a, x, tables, mark).Some? then TableIn(a, x, tables, mark) else TableIn(b, x, tables, mark)
  {
    if a == [] {
      assert a + b == b;
    } else {
      assert (a + b)[1..] == a[1..] + b;
      TableInConcat(a[1..], b, x, tables, mark);
    }
  }

  /** The rule diverts the packet from its mark's own table to another of the tables. */
  predicate Diverts(r: IpRule, x: Traffic, tables: set<nat>, mark: nat) {
    Selects(r, x, mark) && r.table in tables && r.table != mark
  }

  /** The i-th rule sends the mark to its own table, and none in front diverts it. */
  predicate OwnRuleAt(rules: seq<IpRule>, x: Traffic, tables: set<nat>, mark: nat, i: nat) {
    && i < |rules| && Selects(rules[i], x, mark) && rules[i].table == mark
    && forall j :: 0 <= j < i ==> !Diverts(rules[j], x, tables, mark)
  }

  lemma OwnRuleBehind(rules: seq<IpRule>, x: Traffic, tables: set<nat>, mark: nat, i: nat)
    requires rules != [] && i > 0 && !Diverts(rules[0], x, tables, mark)
    ensures OwnRuleAt(rules, x, tables, mark, i) <==> OwnRuleAt(rules[1..], x, tables, mark, i - 1)
  {
    if OwnRuleAt(rules[1..], x, tables, mark, i - 1) {
      forall j | 0 < j < i
        ensures !Diverts(rules[j], x, tables, mark)
      {
        assert rules[1..][j - 1] == rules[j];
      }
    }
  }

  lemma {:induction false} OwnTableExactly(rules: seq<IpRule>, x: Traffic, tables: set<nat>, mark: nat)
    requires mark in tables
    ensures TableIn(rules, x, tables, mark) == Some(mark) <==> exists i: nat :: OwnRuleAt(rules, x, tables, mark, i)
  {
    if rules != [] && !Diverts(rules[0], x, tables, mark) {
      if Selects(rules[0], x, mark) && rules[0].table == mark {
        assert OwnRuleAt(rules, x, tables, mark, 0);
      } else {
        OwnTableExactly(rules[1..], x, tables, mark);
        forall i: nat | i > 0
          ensures OwnRuleAt(rules, x, tables, mark, i) <==> OwnRuleAt(rules[1..], x, tables, mark, i - 1)
        {
          OwnRuleBehind(rules, x, tables, mark, i);
        }
        if i: nat :| OwnRuleAt(rules[1..], x, tables, mark, i) {
          assert OwnRuleAt(rules, x, tables, mark, i + 1);
        }
      }
    }
  }

  predicate IsOwnRule(r: IpRule) {
    r.FwmarkRule? && r.table == r.mark
  }

  lemma {:induction false} OnlyOwnRules(rules: seq<IpRule>, x: Traffic, tables: set<nat>, mark: nat)
    requires mark in tables && forall r <- rules :: IsOwnRule(r)
    ensures TableIn(rules, x, tables, mark) == if FwmarkRule(mark, mark) in rules then Some(mark) else None
  {
    if rules != [] {
      assert rules == [rules[0]] + rules[1..] && IsOwnRule(rules[0]);
      OnlyOwnRules(rules[1..], x, tables, mark);
    }
  }

  /** The kernel does not have our rule for the mark yet, or some rule sends the packet to the
      mark's table and none in front of it diverts the packet. */
  ghost predicate OwnTableFirst(k: Kernel, x: Traffic, tables: set<nat>, mark: nat) {
    FwmarkRule(mark, mark) in k.rules ==> exists i: nat :: OwnRuleAt(k.rules, x, tables, mark, i)
  }

  /** In front of a rule of ours no rule sends the packet with that mark elsewhere. */
  predicate OwnMarks(k: Kernel, x: Traffic) {
    forall i, j :: 0 <= i < j < |k.rules| && IsOwnRule(k.rules[j]) && Selects(k.rules[i], x, k.rules[j].table) ==>
      k.rules[i].table == k.rules[j].table
  }

  lemma OwnMarksComeFirst(k: Kernel, x: Traffic, tables: set<nat>, mark: nat)
    requires OwnMarks(k, x)
    ensures OwnTableFirst(k, x, tables, mark)
  {
    if j :| 0 <= j < |k.rules| && k.rules[j] == FwmarkRule(mark, mark) {
      assert OwnRuleAt(k.rules, x, tables, mark, j);
    }
  }

  lemma ExecuteSnoc(cmds: seq<Command>, cmd: Command, k: Kernel)
    ensures ExecuteAll(cmds + [cmd], k) == Execute(cmd, ExecuteAll(cmds, k))
  {
    assert (cmds + [cmd])[..|cmds|] == cmds;
  }

  predicate OwnMark(gws: seq<Gateway>, marks: map<string, nat>, mark: nat) {
    exists id <- marks :: IsMarked(gws, id) && marks[id] == mark
  }

  /** Rules of marked gateways that the kernel did not have. */
  predicate NewRules(gws: seq<Gateway>, marks: map<string, nat>, k: Kernel, added: seq<IpRule>) {
    forall r <- added :: r !in k.rules && IsOwnRule(r) && OwnMark(gws, marks, r.table)
  }

  /** The commands for the gateways seen so far: each id's table leads to the last interface
      listed for it, missing rules are put in front of the kernel's, and no other table gets
      or changes a default route. */
  ghost predicate Routed(gws: seq<Gateway>, marks: map<string, nat>, k: Kernel, k': Kernel) {
    && (exists added :: k'.rules == added + k.rules && NewRules(gws, marks, k, added))
    && (forall id :: IsMarked(gws, id) && id in marks ==>
          && FwmarkRule(marks[id], marks[id]) in k'.rules
          && marks[id] in k'.defaults
          && Some(k'.defaults[marks[id]]) == InterfaceOf(gws, id))
    && (forall t :: !OwnMark(gws, marks, t) ==> SameDefault(k, k', t))
  }

  predicate SameDefault(k: Kernel, k': Kernel, t: nat) {
    (t in k'.defaults <==> t in k.defaults) && (t in k.defaults ==> k'.defaults[t] == k.defaults[t])
  }

  lemma RoutedAtFirst(marks: map<string, nat>, k: Kernel)
    ensures Routed([], marks, k, k)
  {
    assert k.rules == [] + k.rules && NewRules([], marks, k, []);
    assert forall t :: SameDefault(k, k, t);
  }

  lemma RoutedSkip(gws: seq<Gateway>, g: Gateway, marks: map<string, nat>, k: Kernel, k': Kernel)
    requires Routed(gws, marks, k, k') && g.id == DEFAULT_GATEWAY
    ensures Routed(gws + [g], marks, k, k')
  {
    assert (gws + [g])[..|gws|] == gws;
    assert forall id :: IsMarked(gws + [g], id) <==> IsMarked(gws, id);
    assert forall t :: OwnMark(gws + [g], marks, t) <==> OwnMark(gws, marks, t);
    var added :| k'.rules == added + k.rules && NewRules(gws, marks, k, added);
    assert NewRules(gws + [g], marks, k, added);
  }

  lemma OwnMarkSnoc(gws: seq<Gateway>, g: Gateway, marks: map<string, nat>, t: nat)
    requires g.id != DEFAULT_GATEWAY && g.id in marks
    ensures OwnMark(gws + [g], marks, t) <==> OwnMark(gws, marks, t) || t == marks[g.id]
  {
    forall id
      ensures IsMarked(gws + [g], id) <==> IsMarked(gws, id) || id == g.id
    {
      MarkedSnoc(gws, g, id);
    }
  }

  /** The rule list after one more rule of ours. */
  lemma RulesStep(gws: seq<Gateway>, g: Gateway, marks: map<string, nat>, k: Kernel, rules: seq<IpRule>,
                  added: seq<IpRule>) returns (added': seq<IpRule>)
    requires rules == added + k.rules && NewRules(gws, marks, k, added)
    requires g.id != DEFAULT_GATEWAY && g.id in marks
    ensures NewRules(gws + [g], marks, k, added')
    ensures var r := FwmarkRule(marks[g.id], marks[g.id]);
            added' + k.rules == if r in rules then rules else [r] + rules
  {
    var r := FwmarkRule(marks[g.id], marks[g.id]);
    added' := if r in rules then added else [r] + added;
    forall q <- added'
      ensures q !in k.rules && IsOwnRule(q) && OwnMark(gws + [g], marks, q.table)
    {
      OwnMarkSnoc(gws, g, marks, q.table);
    }
  }

  lemma RoutedStep(gws: seq<Gateway>, g: Gateway, marks: map<string, nat>, k: Kernel, k': Kernel)
    requires Routed(gws, marks, k, k') && InjectiveMarks(marks)
    requires g.id != DEFAULT_GATEWAY && g.id in marks
    ensures Routed(gws + [g], marks, k,
                   Execute(RuleAdd(marks[g.id], marks[g.id]), Execute(RouteReplaceDefault(g.iface, marks[g.id]), k')))
  {
    assert (gws + [g])[..|gws|] == gws;
    assert forall id :: IsMarked(gws + [g], id) <==> IsMarked(gws, id) || id == g.id;
    var m := marks[g.id];
    var k'' := Execute(RuleAdd(m, m), Execute(RouteReplaceDefault(g.iface, m), k'));
    assert k''.defaults == k'.defaults[m := g.iface];
    var added :| k'.rules == added + k.rules && NewRules(gws, marks, k, added);
    var added' := RulesStep(gws, g, marks, k, k'.rules, added);
    assert k''.rules == added' + k.rules;
    forall t | !OwnMark(gws + [g], marks, t)
      ensures SameDefault(k, k'', t)
    {
      OwnMarkSnoc(gws, g, marks, t);
      assert SameDefault(k, k', t);
    }
  }

  /** The commands put nothing in front of our rules but rules of ours. */
  lemma RoutedKeepsOwnMarks(gws: seq<Gateway>, marks: map<string, nat>, k: Kernel, k': Kernel, x: Traffic)
    requires Routed(gws, marks, k, k') && OwnMarks(k, x)
    ensures OwnMarks(k', x)
  {
    var added :| k'.rules == added + k.rules && NewRules(gws, marks, k, added);
    forall i, j | 0 <= i < j < |k'.rules| && IsOwnRule(k'.rules[j]) && Selects(k'.rules[i], x, k'.rules[j].table)
      ensures k'.rules[i].table == k'.rules[j].table
    {
      if i < |added| {
        assert k'.rules[i] in added;
      } else {
        assert k'.rules[i] == k.rules[i - |added|] && k'.rules[j] == k.rules[j - |added|];
      }
    }
  }

  /** The tables with a route for the packet once the commands have run. */
  function TablesAfter(k: Kernel, x: Traffic, marks: map<string, nat>): set<nat> {
    k.defaults.Keys + x.specific.Keys + (set id <- marks :: marks[id])
  }

  lemma TablesAreKnown(gws: seq<Gateway>, k: Kernel, k': Kernel, x: Traffic)
    requires Routed(gws, MarksOf(gws), k, k')
    ensures k'.defaults.Keys + x.specific.Keys == TablesAfter(k, x, MarksOf(gws))
  {
    var marks := MarksOf(gws);
    MarksAreDistinct(gws);
    forall t
      ensures t in k'.defaults || t in x.specific <==> t in TablesAfter(k, x, marks)
    {
      if !OwnMark(gws, marks, t) {
        assert SameDefault(k, k', t);
      }
    }
  }

  /** After the commands a packet with a mark of ours is routed by the mark's own table exactly
      if no rule that was already in front of ours diverts it to another table with a route for
      it. Then it leaves by the interface of the last gateway with the id, unless that table
      has a more specific route for it. */
  lemma OwnTableUsedExactly(gws: seq<Gateway>, k: Kernel, k': Kernel, x: Traffic, id: string)
    requires Routed(gws, MarksOf(gws), k, k') && IsMarked(gws, id)
    ensures id in MarksOf(gws) && InterfaceOf(gws, id).Some?
    ensures var m := MarksOf(gws)[id];
            var first := OwnTableFirst(k, x, TablesAfter(k, x, MarksOf(gws)), m);
            && (TableFor(k', x, m) == Some(m) <==> first)
            && (first ==> RouteFor(k', x, m) == if m in x.specific then Some(x.specific[m]) else InterfaceOf(gws, id))
  {
    MarksAreDistinct(gws);
    TablesAreKnown(gws, k, k', x);
    var m, tables := MarksOf(gws)[id], k'.defaults.Keys + x.specific.Keys;
    var added :| k'.rules == added + k.rules && NewRules(gws, MarksOf(gws), k, added);
    OnlyOwnRules(added, x, tables, m);
    TableInConcat(added, k.rules, x, tables, m);
    OwnTableExactly(k.rules, x, tables, m);
  }

  /** A failing input: a foreign rule in front of ours wins. */
  lemma ForeignRuleWins(x: Traffic)
    requires x.specific == map[]
    ensures var k := Kernel(map[7 := "eth9"], [FwmarkRule(100, 7), FwmarkRule(100, 100)]);
            var k' := Execute(RuleAdd(100, 100), Execute(RouteReplaceDefault("wg0", 100), k));
            RouteFor(k', x, 100) == Some("eth9") && !OwnTableFirst(k, x, {7, 100}, 100)
  {
    var k := Kernel(map[7 := "eth9"], [FwmarkRule(100, 7), FwmarkRule(100, 100)]);
    OwnTableExactly(k.rules, x, {7, 100}, 100);
    assert TableIn(k.rules, x, {7, 100}, 100) == Some(7);
    var k' := Execute(RuleAdd(100, 100), Execute(RouteReplaceDefault("wg0", 100), k));
    assert FwmarkRule(100, 100) == k.rules[1];
    assert k'.rules == k.rules && k'.defaults == map[7 := "eth9", 100 := "wg0"];
  }
}
