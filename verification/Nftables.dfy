/**
 Rules as data, and what an nftables base chain does with a packet. Matches are a
 conjunction; "accept", "drop", "dnat" and "redirect" end the chain, "log" and
 "meta mark set" do not.
 */
module Nftables {
  import opened Wrappers
  import opened Ipv4
  import opened RouterConfig

  datatype MacSet = Quarantined | ScheduleBlocked | AdminBlocked | BlockedClients
  datatype AddressSet = DohServers | VpnServers

  datatype Match =
    | IifName(iif: string)
    | OifName(oif: string)
    | EtherSaddr(mac: Mac)
    | EtherSaddrIn(macSet: MacSet)
    | IpDaddr(daddr: IfaceAddress)
    | IpDaddrIn(addressSet: AddressSet)
    | Dport(proto: Proto, ports: set<nat>)
    | IpProtocol(protos: set<Proto>)
    | CtEstablished

  datatype Statement =
    | Accept
    | Drop
    | Dnat(host: string, port: nat)
    | Redirect(port: nat)
    | Masquerade
    | SetMark(mark: nat)
    | LogOnly

  datatype Rule = Rule(matches: seq<Match>, log: Option<string>, stmt: Statement)

  /** dst is None for a packet that is not IPv4. */
  datatype Packet = Packet(
    iif: string,
    oif: string,
    smac: Mac,
    dst: Option<Address>,
    proto: Proto,
    dport: nat,
    established: bool,
    mark: nat)

  /** The contents of the kernel's named sets while the ruleset is loaded. */
  datatype Sets = Sets(macs: map<MacSet, set<Mac>>, addresses: map<AddressSet, seq<Cidr>>)

  predicate MacIn(sets: Sets, m: MacSet, mac: Mac) {
    m in sets.macs && mac in sets.macs[m]
  }

  predicate AnyContains(blocks: seq<Cidr>, a: Address) {
    exists c <- blocks :: Contains(c, a)
  }

  predicate AddressIn(sets: Sets, s: AddressSet, dst: Option<Address>) {
    dst.Some? && s in sets.addresses && AnyContains(sets.addresses[s], dst.value)
  }

  predicate Hits(m: Match, sets: Sets, p: Packet) {
    match m
    case IifName(n) => p.iif == n
    case OifName(n) => p.oif == n
    case EtherSaddr(mac) => p.smac == mac
    case EtherSaddrIn(s) => MacIn(sets, s, p.smac)
    case IpDaddr(a) => p.dst.Some? && p.dst == OwnAddress(a)
    case IpDaddrIn(s) => AddressIn(sets, s, p.dst)
    case Dport(proto, ports) => p.proto == proto && p.dport in ports
    case IpProtocol(protos) => p.dst.Some? && p.proto in protos
    case CtEstablished => p.established
  }

  predicate Matches(r: Rule, sets: Sets, p: Packet) {
    forall m <- r.matches :: Hits(m, sets, p)
  }

  /** What a chain decided; Undecided leaves the packet to the chain's policy. */
  datatype Verdict =
    | Undecided
    | Accepted
    | Dropped
    | ToHost(host: string, port: nat)
    | ToLocal(port: nat)
    | Masqueraded

  datatype Flow = Flow(verdict: Verdict, mark: nat, logs: seq<string>)

  function VerdictOf(s: Statement): Verdict {
    match s
    case Accept => Accepted
    case Drop => Dropped
    case Dnat(host, port) => ToHost(host, port)
    case Redirect(port) => ToLocal(port)
    case Masquerade => Masqueraded
    case SetMark(_) => Undecided
    case LogOnly => Undecided
  }

  function LogOf(r: Rule): seq<string> {
    if r.log.Some? then [r.log.value] else []
  }

  /** One rule applied to a packet. */
  function Apply(r: Rule, sets: Sets, p: Packet): Flow {
    if !Matches(r, sets, p) then Flow(Undecided, p.mark, [])
    else Flow(VerdictOf(r.stmt), if r.stmt.SetMark? then r.stmt.mark else p.mark, LogOf(r))
  }

  /** f happened first; g is what the rest of the chain does if f left it the packet. */
  function Then(f: Flow, g: Flow): Flow {
    if f.verdict != Undecided then f else g.(logs := f.logs + g.logs)
  }

  /** First-match evaluation of a chain. */
  function Eval(rules: seq<Rule>, sets: Sets, p: Packet): Flow {
    if rules == [] then Flow(Undecided, p.mark, [])
    else
      var f := Apply(rules[0], sets, p);
      Then(f, Eval(rules[1..], sets, p.(mark := f.mark)))
  }

  lemma ThenAssociates(f: Flow, g: Flow, h: Flow)
    ensures Then(Then(f, g), h) == Then(f, Then(g, h))
  {
    assert f.logs + g.logs + h.logs == f.logs + (g.logs + h.logs);
  }

  lemma {:induction false} EvalConcat(a: seq<Rule>, b: seq<Rule>, sets: Sets, p: Packet)
    ensures Eval(a + b, sets, p) ==
            Then(Eval(a, sets, p), Eval(b, sets, p.(mark := Eval(a, sets, p).mark)))
  {
    if a == [] {
      assert a + b == b;
      var g := Eval(b, sets, p);
      assert [] + g.logs == g.logs;
    } else {
      var f := Apply(a[0], sets, p);
      var q := p.(mark := f.mark);
      assert (a + b)[1..] == a[1..] + b;
      EvalConcat(a[1..], b, sets, q);
      ThenAssociates(f, Eval(a[1..], sets, q), Eval(b, sets, q.(mark := Eval(a[1..], sets, q).mark)));
    }
  }

  lemma EvalSingleton(r: Rule, sets: Sets, p: Packet)
    ensures Eval([r], sets, p) == Apply(r, sets, p)
  {
    assert Eval([], sets, p.(mark := Apply(r, sets, p).mark)).logs == [];
    assert LogOf(r) + [] == LogOf(r);
  }

  lemma EvalSnoc(rules: seq<Rule>, r: Rule, sets: Sets, p: Packet)
    ensures Eval(rules + [r], sets, p) ==
            Then(Eval(rules, sets, p), Apply(r, sets, p.(mark := Eval(rules, sets, p).mark)))
  {
    EvalConcat(rules, [r], sets, p);
    EvalSingleton(r, sets, p.(mark := Eval(rules, sets, p).mark));
  }

  /** What a rule between two interfaces does to a packet. */
  lemma InterfaceRuleReads(iif: string, oif: string, sets: Sets, p: Packet)
    ensures Eval([Rule([IifName(iif), OifName(oif)], None, Accept)], sets, p) ==
            Flow(if p.iif == iif && p.oif == oif then Accepted else Undecided, p.mark, [])
  {
    var r := Rule([IifName(iif), OifName(oif)], None, Accept);
    EvalSingleton(r, sets, p);
    assert Matches(r, sets, p) <==> Hits(r.matches[0], sets, p) && Hits(r.matches[1], sets, p);
  }

  /** A rule for everything in front of a chain. */
  lemma RuleForAll(log: Option<string>, stmt: Statement, rest: seq<Rule>, sets: Sets, p: Packet)
    ensures var f := Apply(Rule([], log, stmt), sets, p);
            Eval([Rule([], log, stmt)] + rest, sets, p) == Then(f, Eval(rest, sets, p.(mark := f.mark)))
    ensures Matches(Rule([], log, stmt), sets, p)
  {
    EvalConcat([Rule([], log, stmt)], rest, sets, p);
    EvalSingleton(Rule([], log, stmt), sets, p);
  }

  /** Setting a mark leaves the packet to the next rule. */
  lemma MarkingGoesOn(mark: nat, rest: seq<Rule>, sets: Sets, p: Packet)
    ensures Eval([Rule([], None, SetMark(mark))] + rest, sets, p) == Eval(rest, sets, p.(mark := mark))
  {
    RuleForAll(None, SetMark(mark), rest, sets, p);
    var f := Eval(rest, sets, p.(mark := mark));
    assert [] + f.logs == f.logs;
  }

  /** So does logging. */
  lemma LoggingGoesOn(note: string, rest: seq<Rule>, sets: Sets, p: Packet)
    ensures var f := Eval(rest, sets, p);
            Eval([Rule([], Some(note), LogOnly)] + rest, sets, p) == f.(logs := [note] + f.logs)
  {
    RuleForAll(Some(note), LogOnly, rest, sets, p);
    assert p.(mark := p.mark) == p;
  }

  /** Accepting, dropping and rewriting end the chain. */
  lemma VerdictsEndTheChain(host: string, port: nat, rest: seq<Rule>, sets: Sets, p: Packet)
    ensures Eval([Rule([], None, Accept)] + rest, sets, p) == Flow(Accepted, p.mark, [])
    ensures Eval([Rule([], None, Drop)] + rest, sets, p) == Flow(Dropped, p.mark, [])
    ensures Eval([Rule([], None, Dnat(host, port))] + rest, sets, p) == Flow(ToHost(host, port), p.mark, [])
    ensures Eval([Rule([], None, Redirect(port))] + rest, sets, p) == Flow(ToLocal(port), p.mark, [])
  {
    RuleForAll(None, Accept, rest, sets, p);
    RuleForAll(None, Drop, rest, sets, p);
    RuleForAll(None, Dnat(host, port), rest, sets, p);
    RuleForAll(None, Redirect(port), rest, sets, p);
  }

  /** Every rule of the section carries the same log and the same terminal statement. */
  predicate Uniform(rules: seq<Rule>, log: Option<string>, stmt: Statement) {
    forall r <- rules :: r.log == log && r.stmt == stmt
  }

  predicate AnyMatches(rules: seq<Rule>, sets: Sets, p: Packet) {
    exists r <- rules :: Matches(r, sets, p)
  }

  /** In a uniform section the order of the rules does not matter. */
  lemma {:induction false} EvalUniform(
      rules: seq<Rule>, log: Option<string>, stmt: Statement, sets: Sets, p: Packet)
    requires Uniform(rules, log, stmt) && VerdictOf(stmt) != Undecided
    ensures Eval(rules, sets, p) ==
            if AnyMatches(rules, sets, p) then Flow(VerdictOf(stmt), p.mark, if log.Some? then [log.value] else [])
            else Flow(Undecided, p.mark, [])
  {
    if rules != [] {
      assert rules == [rules[0]] + rules[1..];
      EvalUniform(rules[1..], log, stmt, sets, p);
      if !Matches(rules[0], sets, p) {
        assert p.(mark := p.mark) == p;
        assert AnyMatches(rules, sets, p) <==> AnyMatches(rules[1..], sets, p);
      }
    }
  }
}
