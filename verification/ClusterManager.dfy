/**
 The controller's per-node command queue and its join tokens.
 */
module ClusterCommands {

  // ---------- command queue ----------

  type Queues = map<string, seq<string>>

  function Pending(q: Queues, node: string): seq<string> {
    if node in q then q[node] else []
  }

  /** A command queued for a node, or a heartbeat of the node: the answer carries what was
      popped, and reaches the agent or is lost. */
  datatype QueueOp = Queue(node: string, command: string) | Heartbeat(node: string, arrives: bool)

  function Apply(q: Queues, op: QueueOp): Queues {
    match op
    case Queue(node, command) => q[node := Pending(q, node) + [command]]
    case Heartbeat(node, _) => q - {node}
  }

  function RunQueue(ops: seq<QueueOp>): Queues {
    if ops == [] then map[] else Apply(RunQueue(ops[..|ops| - 1]), ops[|ops| - 1])
  }

  /** Everything queued for the node. */
  function Queued(ops: seq<QueueOp>, node: string): seq<string> {
    if ops == [] then []
    else
      var earlier, op := Queued(ops[..|ops| - 1], node), ops[|ops| - 1];
      if op.Queue? && op.node == node then earlier + [op.command] else earlier
  }

  /** Everything popped for the node, one list after the other. */
  function Popped(ops: seq<QueueOp>, node: string): seq<string> {
    if ops == [] then []
    else
      var earlier, op := ops[..|ops| - 1], ops[|ops| - 1];
      if op.Heartbeat? && op.node == node then Popped(earlier, node) + Pending(RunQueue(earlier), node)
      else Popped(earlier, node)
  }

  /** What the agent executes: the lists that arrive, in order. */
  function Executed(ops: seq<QueueOp>, node: string): seq<string> {
    if ops == [] then []
    else
      var earlier, op := ops[..|ops| - 1], ops[|ops| - 1];
      if op.Heartbeat? && op.node == node && op.arrives
      then Executed(earlier, node) + Pending(RunQueue(earlier), node)
      else Executed(earlier, node)
  }

  /** Nothing queued is lost, repeated or reordered: it has been popped or is pending. */
  lemma {:induction false} QueueConserves(ops: seq<QueueOp>, node: string)
    ensures Queued(ops, node) == Popped(ops, node) + Pending(RunQueue(ops), node)
  {
    if ops != [] {
      var earlier, op := ops[..|ops| - 1], ops[|ops| - 1];
      QueueConserves(earlier, node);
      if op.Queue? && op.node == node {
        assert Popped(earlier, node) + Pending(RunQueue(earlier), node) + [op.command] ==
               Popped(earlier, node) + (Pending(RunQueue(earlier), node) + [op.command]);
      }
    }
  }

  /** picks names, in increasing order, positions of whole that spell part. */
  predicate Picks(part: seq<string>, whole: seq<string>, picks: seq<nat>) {
    && |picks| == |part|
    && (forall i :: 0 <= i < |picks| ==> picks[i] < |whole| && part[i] == whole[picks[i]])
    && (forall i, j :: 0 <= i < j < |picks| ==> picks[i] < picks[j])
  }

  lemma PicksGrow(part: seq<string>, whole: seq<string>, picks: seq<nat>, more: seq<string>)
    requires Picks(part, whole, picks)
    ensures Picks(part, whole + more, picks)
  {
  }

  lemma PicksAppend(part: seq<string>, whole: seq<string>, picks: seq<nat>, more: seq<string>)
    returns (picks': seq<nat>)
    requires Picks(part, whole, picks)
    ensures Picks(part + more, whole + more, picks')
  {
    picks' := picks + seq(|more|, i requires 0 <= i < |more| => |whole| + i);
  }

  lemma {:induction false} ExecutedFromPopped(ops: seq<QueueOp>, node: string) returns (picks: seq<nat>)
    ensures Picks(Executed(ops, node), Popped(ops, node), picks)
  {
    if ops == [] {
      picks := [];
    } else {
      var earlier, op := ops[..|ops| - 1], ops[|ops| - 1];
      picks := ExecutedFromPopped(earlier, node);
      if op.Heartbeat? && op.node == node {
        var more := Pending(RunQueue(earlier), node);
        if op.arrives {
          picks := PicksAppend(Executed(earlier, node), Popped(earlier, node), picks, more);
        } else {
          PicksGrow(Executed(earlier, node), Popped(earlier, node), picks, more);
        }
      }
    }
  }

  /** Over a lossy link the agent executes an order-preserving subsequence of what was
      queued for it, no queued command twice. */
  lemma ExecutedIsSubsequence(ops: seq<QueueOp>, node: string)
    ensures exists picks :: Picks(Executed(ops, node), Queued(ops, node), picks)
  {
    var picks := ExecutedFromPopped(ops, node);
    QueueConserves(ops, node);
    PicksGrow(Executed(ops, node), Popped(ops, node), picks, Pending(RunQueue(ops), node));
  }

  /** Without losses it executes everything except what is still pending. */
  lemma LosslessLinkExecutesAll(ops: seq<QueueOp>, node: string)
    requires forall op <- ops :: op.Heartbeat? && op.node == node ==> op.arrives
    ensures Executed(ops, node) + Pending(RunQueue(ops), node) == Queued(ops, node)
  {
    PoppedIsExecuted(ops, node);
    QueueConserves(ops, node);
  }

  lemma {:induction false} PoppedIsExecuted(ops: seq<QueueOp>, node: string)
    requires forall op <- ops :: op.Heartbeat? && op.node == node ==> op.arrives
    ensures Executed(ops, node) == Popped(ops, node)
  {
    if ops != [] {
      PoppedIsExecuted(ops[..|ops| - 1], node);
      assert ops[|ops| - 1] in ops;
    }
  }

  // ---------- join tokens ----------

  type Tokens = map<string, int>

  const TOKEN_PREFIX := "roost-"

  datatype TokenOp = Generate(token: string, expiry: int) | Validate(token: string, now: int)

  predicate Accepts(mock: bool, tokens: Tokens, token: string, now: int) {
    || (mock && TOKEN_PREFIX <= token)
    || (token in tokens && tokens[token] != 0 && tokens[token] > now)
  }

  function ApplyToken(mock: bool, tokens: Tokens, op: TokenOp): Tokens {
    match op
    case Generate(token, expiry) => tokens[token := expiry]
    case Validate(token, now) =>
      if mock && TOKEN_PREFIX <= token then tokens
      else if Accepts(mock, tokens, token, now) then tokens - {token}
      else tokens
  }

  function RunTokens(mock: bool, ops: seq<TokenOp>): Tokens {
    if ops == [] then map[] else ApplyToken(mock, RunTokens(mock, ops[..|ops| - 1]), ops[|ops| - 1])
  }

  function Generated(ops: seq<TokenOp>, token: string): nat {
    if ops == [] then 0
    else
      var op := ops[|ops| - 1];
      Generated(ops[..|ops| - 1], token) + (if op.Generate? && op.token == token then 1 else 0)
  }

  function Accepted(mock: bool, ops: seq<TokenOp>, token: string): nat {
    if ops == [] then 0
    else
      var earlier, op := ops[..|ops| - 1], ops[|ops| - 1];
      Accepted(mock, earlier, token) +
      (if op.Validate? && op.token == token && Accepts(mock, RunTokens(mock, earlier), token, op.now) then 1 else 0)
  }

  /** Outside mock mode a join token is accepted at most once per time it was generated,
      and a token still in the dictionary has an acceptance left. */
  lemma {:induction false} JoinTokensAreSingleUse(ops: seq<TokenOp>, token: string)
    ensures Accepted(false, ops, token) + (if token in RunTokens(false, ops) then 1 else 0) <= Generated(ops, token)
  {
    if ops != [] {
      JoinTokensAreSingleUse(ops[..|ops| - 1], token);
    }
  }

  /** The i-th operation made the token, and nothing has replaced or spent it since. */
  predicate Unspent(ops: seq<TokenOp>, i: nat, token: string) {
    && i < |ops| && ops[i].Generate? && ops[i].token == token
    && forall j :: i < j < |ops| && ops[j].token == token ==>
         ops[j].Validate? && (ops[i].expiry == 0 || ops[i].expiry <= ops[j].now)
  }

  lemma UnspentSnoc(ops: seq<TokenOp>, i: nat, token: string)
    requires ops != []
    ensures var n := |ops| - 1;
            var op := ops[n];
            Unspent(ops, i, token) <==>
            if i == n then op.Generate? && op.token == token
            else && Unspent(ops[..n], i, token)
                 && (op.token == token ==> op.Validate? && (ops[i].expiry == 0 || ops[i].expiry <= op.now))
  {
    var n := |ops| - 1;
    if i < n && Unspent(ops[..n], i, token) {
      assert forall j :: i < j < n ==> ops[..n][j] == ops[j];
    }
  }

  /** The dictionary holds exactly the unspent tokens, each with its expiry. */
  lemma {:induction false} HeldExactly(ops: seq<TokenOp>, token: string)
    ensures token in RunTokens(false, ops) <==> exists i: nat :: Unspent(ops, i, token)
    ensures forall i: nat :: Unspent(ops, i, token) ==>
              token in RunTokens(false, ops) && RunTokens(false, ops)[token] == ops[i].expiry
  {
    if ops != [] {
      var n := |ops| - 1;
      HeldExactly(ops[..n], token);
      forall i: nat
        ensures Unspent(ops, i, token) <==>
                if i == n then ops[n].Generate? && ops[n].token == token
                else && Unspent(ops[..n], i, token)
                     && (ops[n].token == token ==>
                           ops[n].Validate? && (ops[i].expiry == 0 || ops[i].expiry <= ops[n].now))
      {
        UnspentSnoc(ops, i, token);
      }
    }
  }

  /** Outside mock mode a join token is accepted exactly if it was generated, has neither been
      generated anew nor accepted since, and has not expired. */
  lemma JoinTokenAcceptedExactly(ops: seq<TokenOp>, token: string, now: int)
    ensures Accepts(false, RunTokens(false, ops), token, now) <==>
            exists i: nat :: Unspent(ops, i, token) && ops[i].expiry != 0 && now < ops[i].expiry
  {
    HeldExactly(ops, token);
  }

  /** Mock mode accepts whatever looks like a join token, again and again. */
  lemma MockAcceptsByPrefix(tokens: Tokens, suffix: string, now: int)
    ensures Accepts(true, tokens, "roost-" + suffix, now)
    ensures ApplyToken(true, tokens, Validate("roost-" + suffix, now)) == tokens
  {
    assert TOKEN_PREFIX <= "roost-" + suffix;
  }

  class ClusterManager {
    const mock: bool
    var pendingCommands: Queues
    var joinTokens: Tokens

    constructor (mock: bool)
      ensures this.mock == mock && pendingCommands == map[] && joinTokens == map[]
    {
      this.mock, pendingCommands, joinTokens := mock, map[], map[];
    }

    method QueueNodeCommand(node: string, command: string)
      modifies this`pendingCommands
      ensures pendingCommands == Apply(old(pendingCommands), Queue(node, command))
    {
      if node !in pendingCommands {
        pendingCommands := pendingCommands[node := []];
      }
      pendingCommands := pendingCommands[node := pendingCommands[node] + [command]];
    }

    method PopNodeCommands(node: string) returns (commands: seq<string>)
      modifies this`pendingCommands
      ensures commands == Pending(old(pendingCommands), node)
      ensures forall arrives :: pendingCommands == Apply(old(pendingCommands), Heartbeat(node, arrives))
    {
      if node in pendingCommands {
        commands := pendingCommands[node];
        pendingCommands := pendingCommands - {node};
      } else {
        commands := [];
        assert pendingCommands - {node} == pendingCommands;
      }
    }

    /** The token text is drawn at random and the clock is read by the caller. */
    method GenerateJoinToken(suffix: string, now: int, ttlSeconds: int) returns (token: string)
      modifies this`joinTokens
      ensures token == TOKEN_PREFIX + suffix
      ensures joinTokens == ApplyToken(mock, old(joinTokens), Generate(token, now + ttlSeconds))
    {
      token := TOKEN_PREFIX + suffix;
      joinTokens := joinTokens[token := now + ttlSeconds];
    }

    method ValidateJoinToken(token: string, now: int) returns (ok: bool)
      modifies this`joinTokens
      ensures ok <==> Accepts(mock, old(joinTokens), token, now)
      ensures joinTokens == ApplyToken(mock, old(joinTokens), Validate(token, now))
    {
      if mock && TOKEN_PREFIX <= token {
        return true;
      }
      if token in joinTokens && joinTokens[token] != 0 && joinTokens[token] > now {
        joinTokens := joinTokens - {token};
        return true;
      }
      return false;
    }
  }
}
