/** The .netdev file generate_networkd_config writes, and what an endpoint update makes of it. */
module NetdevFiles {
  import opened Strings
  import opened TextFiles
  import opened EndpointPattern
  import opened EndpointRewrite

  // ---------- line by line ----------

  function Text(lines: seq<string>): string {
    if lines == [] then "" else lines[0] + "\n" + Text(lines[1..])
  }

  /** A line no directive can begin at or reach back over. */
  predicate Inert(w: string) {
    w != "" && '\n' !in w && !IsSpace(w[0]) && w[0] != 'E'
  }

  /** Endpoint lines, inert lines, and empty lines in front of inert lines. */
  predicate Regular(lines: seq<string>) {
    forall i :: 0 <= i < |lines| ==> RegularAt(lines, i)
  }

  predicate RegularAt(lines: seq<string>, i: nat)
    requires i < |lines|
  {
    || Inert(lines[i]) || DirectiveLine(lines[i])
    || (lines[i] == "" && i + 1 < |lines| && Inert(lines[i + 1]))
  }

  function WithEndpoint(lines: seq<string>, e: string): seq<string> {
    if lines == [] then []
    else [if DirectiveLine(lines[0]) then e else lines[0]] + WithEndpoint(lines[1..], e)
  }

  lemma RewriteHead(w: string, next: string, e: string)
    requires Inert(w) || DirectiveLine(w) || (w == "" && next != "" && !IsSpace(next[0]) && next[0] != 'E')
    ensures Rewrite(w + "\n" + next, true, e) ==
            (if DirectiveLine(w) then e else w) + "\n" + Rewrite(next, true, e)
    ensures HasDirective(w + "\n" + next, true) <==> DirectiveLine(w) || HasDirective(next, true)
  {
    if DirectiveLine(w) {
      WalkDirective(w, next, e);
    } else if Inert(w) {
      WalkLine(w, next, true, e);
    } else {
      assert w + "\n" + next == "\n" + next;
      WalkEmptyLine(next, true, e);
    }
  }

  lemma RegularRest(lines: seq<string>)
    requires Regular(lines) && lines != []
    ensures Regular(lines[1..])
    ensures || Inert(lines[0]) || DirectiveLine(lines[0])
            || (&& lines[0] == "" && |lines| > 1 && Inert(lines[1])
                && Text(lines[1..]) != "" && Text(lines[1..])[0] == lines[1][0])
  {
    var rest := lines[1..];
    forall i | 0 <= i < |rest|
      ensures RegularAt(rest, i)
    {
      assert RegularAt(lines, i + 1);
    }
    assert RegularAt(lines, 0);
    if !Inert(lines[0]) && !DirectiveLine(lines[0]) {
      assert Text(rest) == rest[0] + "\n" + Text(rest[1..]);
    }
  }

  /** On a regular file the rewrite replaces the Endpoint lines and keeps every other line,
      in order. */
  lemma {:induction false} RewriteLines(lines: seq<string>, e: string)
    requires Regular(lines)
    ensures Rewrite(Text(lines), true, e) == Text(WithEndpoint(lines, e))
    ensures HasDirective(Text(lines), true) <==> exists w <- lines :: DirectiveLine(w)
  {
    if lines != [] {
      var w, rest := lines[0], lines[1..];
      RegularRest(lines);
      RewriteLines(rest, e);
      RewriteHead(w, Text(rest), e);
      assert lines == [w] + rest;
      assert WithEndpoint(lines, e)[1..] == WithEndpoint(rest, e);
    }
  }

  predicate EndsWithPeer(w: string) {
    |w| >= |PEER| && w[|w| - |PEER|..] == PEER
  }

  /** e behind every line that ends with the section header. */
  function WithInserted(lines: seq<string>, e: string): seq<string> {
    if lines == [] then []
    else if EndsWithPeer(lines[0]) then [lines[0]] + ([e] + WithInserted(lines[1..], e))
    else [lines[0]] + WithInserted(lines[1..], e)
  }

  /** Only the header line itself starts with the header and its newline. */
  lemma HeaderNeedsItsLine(w: string, rest: string)
    requires '\n' !in w && w != PEER
    ensures !(PEER_LINE <= w + "\n" + rest)
  {
    var s := w + "\n" + rest;
    if |w| < |PEER| {
      SeparatorStopsPrefix(PEER, w, '\n', rest);
      HeaderStartsHeaderLine(s);
    } else if |w| == |PEER| {
      HeaderStartsHeaderLine(s);
      assert s[..|PEER|] == w;
    } else {
      assert PEER_LINE[|PEER|] == '\n' && s[|PEER|] == w[|PEER|] && w[|PEER|] in w;
    }
  }

  lemma HeaderStartsHeaderLine(s: string)
    ensures PEER_LINE <= s ==> PEER <= s && s[..|PEER|] == PEER
  {
    assert PEER_LINE[..|PEER|] == PEER;
    if PEER_LINE <= s {
      assert s[..|PEER|] == PEER_LINE[..|PEER|];
    }
  }

  lemma TailEndsWithPeer(w: string)
    requires w != "" && w != PEER
    ensures EndsWithPeer(w[1..]) <==> EndsWithPeer(w)
  {
    if |w| > |PEER| {
      assert w[|w| - |PEER|..] == w[1..][|w| - 1 - |PEER|..];
    } else if |w| == |PEER| {
      assert w[0..] == w;
    }
  }

  function LineAndInsertion(w: string, e: string): string {
    if EndsWithPeer(w) then w + "\n" + e + "\n" else w + "\n"
  }

  lemma InsertAtHeaderLine(rest: string, e: string)
    ensures Insert(PEER + "\n" + rest, e) == LineAndInsertion(PEER, e) + Insert(rest, e)
  {
    assert PEER + "\n" + rest == PEER_LINE + rest;
    InsertAtHeader(rest, e);
    assert EndsWithPeer(PEER);
    assert LineAndInsertion(PEER, e) == PEER_LINE + (e + "\n");
  }

  lemma InsertPastCharacter(w: string, rest: string, e: string)
    requires '\n' !in w && w != "" && w != PEER
    ensures Insert(w + "\n" + rest, e) == [w[0]] + Insert(w[1..] + "\n" + rest, e)
  {
    var s := w + "\n" + rest;
    HeaderNeedsItsLine(w, rest);
    assert s[0] == w[0] && s[1..] == w[1..] + "\n" + rest;
  }

  lemma InsertPastNewline(rest: string, e: string)
    ensures Insert("" + "\n" + rest, e) == "\n" + Insert(rest, e)
  {
    var s := "" + "\n" + rest;
    assert s[0] == '\n' && s[1..] == rest;
  }

  lemma LineAndInsertionTail(w: string, e: string)
    requires w != "" && w != PEER
    ensures LineAndInsertion(w, e) == [w[0]] + LineAndInsertion(w[1..], e)
  {
    TailEndsWithPeer(w);
  }

  lemma {:induction false} InsertPastLine(w: string, rest: string, e: string)
    requires '\n' !in w
    ensures Insert(w + "\n" + rest, e) == LineAndInsertion(w, e) + Insert(rest, e)
  {
    if w == PEER {
      InsertAtHeaderLine(rest, e);
    } else if w == "" {
      InsertPastNewline(rest, e);
    } else {
      InsertPastCharacter(w, rest, e);
      InsertPastLine(w[1..], rest, e);
      LineAndInsertionTail(w, e);
    }
  }

  lemma TextCons(w: string, rest: seq<string>)
    ensures Text([w] + rest) == w + "\n" + Text(rest)
  {
    assert ([w] + rest)[1..] == rest;
  }

  lemma TextWithInsertion(w: string, rest: seq<string>, e: string)
    ensures Text(WithInserted([w] + rest, e)) == LineAndInsertion(w, e) + Text(WithInserted(rest, e))
  {
    var tail := WithInserted(rest, e);
    assert ([w] + rest)[1..] == rest;
    TextCons(w, tail);
    TextCons(w, [e] + tail);
    TextCons(e, tail);
  }

  lemma EndOccurs(w: string, rest: string)
    requires EndsWithPeer(w)
    ensures Occurs(PEER, w + rest)
  {
    var v := w[..|w| - |PEER|];
    assert w + rest == v + (PEER + rest);
    assert PEER <= PEER + rest;
    OccursBehind(PEER, v, PEER + rest);
  }

  lemma HeaderOccurs(w: string, rest: seq<string>)
    ensures EndsWithPeer(w) || Occurs(PEER, Text(rest)) ==> Occurs(PEER, Text([w] + rest))
  {
    TextCons(w, rest);
    if EndsWithPeer(w) {
      EndOccurs(w, "\n" + Text(rest));
      assert w + ("\n" + Text(rest)) == w + "\n" + Text(rest);
    } else {
      OccursBehind(PEER, w + "\n", Text(rest));
    }
  }

  /** Inserting behind the header in the text is inserting behind the header's lines. */
  lemma {:induction false} InsertLines(lines: seq<string>, e: string)
    requires forall w <- lines :: '\n' !in w
    ensures Insert(Text(lines), e) == Text(WithInserted(lines, e))
    ensures (exists w <- lines :: EndsWithPeer(w)) ==> Occurs(PEER, Text(lines))
  {
    if lines != [] {
      var w, rest := lines[0], lines[1..];
      assert lines == [w] + rest;
      InsertLines(rest, e);
      TextWithInsertion(w, rest, e);
      InsertPastLine(w, Text(rest), e);
      HeaderOccurs(w, rest);
    }
  }

  lemma {:induction false} OccursBehind(pattern: string, a: string, b: string)
    ensures Occurs(pattern, b) ==> Occurs(pattern, a + b)
  {
    if a == "" {
      assert a + b == b;
    } else {
      assert (a + b)[1..] == a[1..] + b;
      OccursBehind(pattern, a[1..], b);
    }
  }

  // ---------- generated files ----------

  datatype Netdev =
    | GatewayDev(privateKey: string, listenPort: nat, peerKey: string, allowedIps: string)
    | ClientDev(privateKey: string, peerKey: string, endpoint: string, allowedIps: string, keepalive: nat)

  /** The lines in front of the private key, and the rest. */
  function Front(d: Netdev, rest: seq<string>): seq<string> {
    ["[NetDev]"] + (["Name=wg-edge"] + (["Kind=wireguard"] + ([Description(d)] + ([""] + (["[WireGuard]"] + rest)))))
  }

  /** The lines of the .netdev file generate_networkd_config writes. */
  function Generate(d: Netdev): seq<string> {
    Front(d, ["PrivateKey=" + d.privateKey] + (
      if d.GatewayDev? then ["ListenPort=" + Digits(ListenPort(d))] + ([""] + PeerLines(d))
      else [""] + PeerLines(d)))
  }

  function Description(d: Netdev): string {
    "Description=" + ("RoostOS Edge " + ("Gateway " + ("WireGuard " + (if d.GatewayDev? then "Server" else "Client"))))
  }

  function ListenPort(d: Netdev): nat
    requires d.GatewayDev?
  {
    if d.listenPort == 0 then 51820 else d.listenPort
  }

  function PeerLines(d: Netdev): seq<string> {
    [PEER] + (["PublicKey=" + d.peerKey] + (
      if d.GatewayDev? then ["AllowedIPs=" + d.allowedIps] + []
      else [KEY + "=" + d.endpoint] + (["AllowedIPs=" + d.allowedIps] + (
           ["PersistentKeepalive=" + Digits(d.keepalive)] + []))))
  }

  predicate SingleLineFields(d: Netdev) {
    && SingleLine(d.privateKey) && SingleLine(d.peerKey) && SingleLine(d.allowedIps)
    && (d.ClientDev? ==> SingleLine(d.endpoint))
  }

  /** The lines are regular, and replacing their Endpoint lines gives lines'. */
  predicate Becomes(lines: seq<string>, lines': seq<string>, e: string) {
    && Regular(lines) && WithEndpoint(lines, e) == lines'
    && forall w <- lines :: SingleLine(w)
  }

  lemma ConsInert(w: string, lines: seq<string>, lines': seq<string>, e: string)
    requires Becomes(lines, lines', e) && Inert(w) && SingleLine(w)
    ensures Becomes([w] + lines, [w] + lines', e)
  {
    assert ([w] + lines)[1..] == lines && !DirectiveLine(w);
    ConsRegular(w, lines);
  }

  lemma ConsBlank(lines: seq<string>, lines': seq<string>, e: string)
    requires Becomes(lines, lines', e) && lines != [] && Inert(lines[0])
    ensures Becomes([""] + lines, [""] + lines', e)
  {
    var all := [""] + lines;
    assert all[1..] == lines && SingleLine("") && !DirectiveLine("");
    ConsRegular("", lines);
  }

  lemma ConsRegular(w: string, lines: seq<string>)
    requires Regular(lines) && (Inert(w) || DirectiveLine(w) || (w == "" && lines != [] && Inert(lines[0])))
    ensures Regular([w] + lines)
  {
    var all := [w] + lines;
    forall i | 0 <= i < |all|
      ensures RegularAt(all, i)
    {
      if i > 0 {
        assert RegularAt(lines, i - 1);
      }
    }
  }

  lemma ConsDirective(w: string, lines: seq<string>, lines': seq<string>, e: string)
    requires Becomes(lines, lines', e) && DirectiveLine(w)
    ensures Becomes([w] + lines, [e] + lines', e)
  {
    assert ([w] + lines)[1..] == lines;
    ConsRegular(w, lines);
  }

  lemma FieldLine(key: string, value: string)
    requires Inert(key) && SingleLine(key) && SingleLine(value)
    ensures Inert(key + value) && SingleLine(key + value)
  {
  }

  /** The same two fields behind each other in both files. */
  lemma PeerFrontBecomes(d: Netdev, l: seq<string>, r: seq<string>, e: string)
    requires Becomes(l, r, e) && SingleLine(d.peerKey)
    ensures Becomes([PEER] + (["PublicKey=" + d.peerKey] + l), [PEER] + (["PublicKey=" + d.peerKey] + r), e)
  {
    FieldLine("PublicKey=", d.peerKey);
    ConsInert("PublicKey=" + d.peerKey, l, r, e);
    ConsInert(PEER, ["PublicKey=" + d.peerKey] + l, ["PublicKey=" + d.peerKey] + r, e);
  }

  lemma AllowedBecomes(d: Netdev, l: seq<string>, e: string)
    requires Becomes(l, l, e) && SingleLine(d.allowedIps)
    ensures Becomes(["AllowedIPs=" + d.allowedIps] + l, ["AllowedIPs=" + d.allowedIps] + l, e)
  {
    FieldLine("AllowedIPs=", d.allowedIps);
    ConsInert("AllowedIPs=" + d.allowedIps, l, l, e);
  }

  lemma KeepaliveBecomes(d: Netdev, e: string)
    requires d.ClientDev?
    ensures var keep := ["PersistentKeepalive=" + Digits(d.keepalive)] + []; Becomes(keep, keep, e)
  {
    DigitsAreSingleLine(d.keepalive);
    FieldLine("PersistentKeepalive=", Digits(d.keepalive));
    ConsInert("PersistentKeepalive=" + Digits(d.keepalive), [], [], e);
  }

  lemma PeerBecomes(d: Netdev, d': Netdev, endpoint: string)
    requires SingleLineFields(d)
    requires d' == if d.ClientDev? then d.(endpoint := endpoint) else d
    ensures Becomes(PeerLines(d), PeerLines(d'), KEY + "=" + endpoint)
  {
    var e := KEY + "=" + endpoint;
    if d.GatewayDev? {
      AllowedBecomes(d, [], e);
      PeerFrontBecomes(d, ["AllowedIPs=" + d.allowedIps] + [], ["AllowedIPs=" + d.allowedIps] + [], e);
    } else {
      var keep := ["PersistentKeepalive=" + Digits(d.keepalive)] + [];
      var ips := ["AllowedIPs=" + d.allowedIps] + keep;
      KeepaliveBecomes(d, e);
      AllowedBecomes(d, keep, e);
      ConsDirective(KEY + "=" + d.endpoint, ips, ips, e);
      PeerFrontBecomes(d, [KEY + "=" + d.endpoint] + ips, [e] + ips, e);
    }
  }

  lemma HeaderBecomes(d: Netdev, d': Netdev, endpoint: string)
    requires SingleLineFields(d)
    requires d' == if d.ClientDev? then d.(endpoint := endpoint) else d
    ensures Becomes(Generate(d), Generate(d'), KEY + "=" + endpoint)
  {
    var e := KEY + "=" + endpoint;
    PeerBecomes(d, d', endpoint);
    var l0, r0 := [""] + PeerLines(d), [""] + PeerLines(d');
    ConsBlank(PeerLines(d), PeerLines(d'), e);
    if d.GatewayDev? {
      DigitsAreSingleLine(ListenPort(d));
      FieldLine("ListenPort=", Digits(ListenPort(d)));
      ConsInert("ListenPort=" + Digits(ListenPort(d)), l0, r0, e);
      l0, r0 := ["ListenPort=" + Digits(ListenPort(d))] + l0, ["ListenPort=" + Digits(ListenPort(d))] + r0;
    }
    FieldLine("PrivateKey=", d.privateKey);
    ConsInert("PrivateKey=" + d.privateKey, l0, r0, e);
    var l1, r1 := ["PrivateKey=" + d.privateKey] + l0, ["PrivateKey=" + d.privateKey] + r0;
    FrontBecomes(d, l1, r1, e);
  }

  lemma FrontBecomes(d: Netdev, l: seq<string>, r: seq<string>, e: string)
    requires Becomes(l, r, e)
    ensures Becomes(Front(d, l), Front(d, r), e)
  {
    DescriptionIsInert(d);
    var l1, r1 := ["[WireGuard]"] + l, ["[WireGuard]"] + r;
    var l2, r2 := [""] + l1, [""] + r1;
    var l3, r3 := [Description(d)] + l2, [Description(d)] + r2;
    ConsInert("[WireGuard]", l, r, e);
    ConsBlank(l1, r1, e);
    ConsInert(Description(d), l2, r2, e);
    ConsInert("Kind=wireguard", l3, r3, e);
    var l4, r4 := ["Kind=wireguard"] + l3, ["Kind=wireguard"] + r3;
    ConsInert("Name=wg-edge", l4, r4, e);
    ConsInert("[NetDev]", ["Name=wg-edge"] + l4, ["Name=wg-edge"] + r4, e);
  }

  lemma DescriptionIsInert(d: Netdev)
    ensures Inert(Description(d)) && SingleLine(Description(d))
  {
    var role := if d.GatewayDev? then "Server" else "Client";
    assert SingleLine(role) && SingleLine("WireGuard ") && SingleLine("Gateway ") && SingleLine("RoostOS Edge ");
    assert SingleLine("RoostOS Edge " + ("Gateway " + ("WireGuard " + role)));
    FieldLine("Description=", "RoostOS Edge " + ("Gateway " + ("WireGuard " + role)));
  }

  lemma {:induction false} TextIsReadable(lines: seq<string>)
    requires forall w <- lines :: SingleLine(w)
    ensures '\r' !in Text(lines)
  {
    if lines != [] {
      assert lines[0] in lines;
      TextIsReadable(lines[1..]);
    }
  }

  /** Updating the file generated for a client is generating it with the new endpoint. */
  lemma ClientUpdateIsRegeneration(d: Netdev, host: string, port: nat)
    requires d.ClientDev? && SingleLineFields(d) && '\\' !in host && SingleLine(host)
    ensures Update(Text(Generate(d)), host, port) == Text(Generate(d.(endpoint := host + ":" + Digits(port))))
  {
    var endpoint := host + ":" + Digits(port);
    assert Directive(host, port) == KEY + "=" + endpoint;
    HeaderBecomes(d, d.(endpoint := endpoint), endpoint);
    TextIsReadable(Generate(d));
    ReadTextKeeps(Text(Generate(d)));
    RewriteLines(Generate(d), KEY + "=" + endpoint);
    ClientHasDirective(d);
  }

  lemma ClientHasDirective(d: Netdev)
    requires d.ClientDev? && SingleLineFields(d)
    ensures KEY + "=" + d.endpoint in Generate(d) && DirectiveLine(KEY + "=" + d.endpoint)
  {
    var e := KEY + "=" + d.endpoint;
    assert DirectiveLine(e) by {
      assert SingleLine(KEY + "=");
    }
    assert PeerLines(d)[2] == e;
    assert Generate(d)[8..] == PeerLines(d);
    assert Generate(d)[10] == e;
  }

  // ---------- the gateway's file ----------

  /** A line that two different replacements leave alone is no directive. */
  lemma {:induction false} NothingReplaced(lines: seq<string>, e: string, e2: string)
    requires e != e2 && WithEndpoint(lines, e) == lines && WithEndpoint(lines, e2) == lines
    ensures forall w <- lines :: !DirectiveLine(w)
  {
    if lines != [] {
      assert WithEndpoint(lines, e)[1..] == lines[1..] && WithEndpoint(lines, e2)[1..] == lines[1..];
      assert WithEndpoint(lines, e)[0] == lines[0] && WithEndpoint(lines, e2)[0] == lines[0];
      NothingReplaced(lines[1..], e, e2);
      assert lines == [lines[0]] + lines[1..];
    }
  }

  lemma GatewayHasNoDirective(d: Netdev)
    requires d.GatewayDev? && SingleLineFields(d)
    ensures forall w <- Generate(d) :: !DirectiveLine(w)
  {
    HeaderBecomes(d, d, "1");
    HeaderBecomes(d, d, "2");
    assert (KEY + "=" + "1")[|KEY| + 1] != (KEY + "=" + "2")[|KEY| + 1];
    NothingReplaced(Generate(d), KEY + "=" + "1", KEY + "=" + "2");
  }

  lemma OtherLastCharacter(w: string)
    requires w != "" && w[|w| - 1] != ']'
    ensures !EndsWithPeer(w)
  {
    if |w| >= |PEER| {
      assert w[|w| - |PEER|..][|PEER| - 1] == w[|w| - 1];
      assert PEER[|PEER| - 1] == ']';
    }
  }

  lemma FieldEnds(key: string, value: string)
    requires '[' !in key && !EndsWithPeer(value)
    ensures !EndsWithPeer(key + value)
  {
    var w := key + value;
    if |value| >= |PEER| {
      assert w[|w| - |PEER|..] == value[|value| - |PEER|..];
    } else if |w| >= |PEER| {
      assert w[|w| - |PEER|..][0] == w[|w| - |PEER|];
      assert w[|w| - |PEER|] in key;
      assert PEER[0] == '[';
    }
  }

  lemma DigitsEnd(key: string, n: nat)
    ensures !EndsWithPeer(key + Digits(n))
  {
    OtherLastCharacter(key + Digits(n));
  }

  predicate FieldsAvoidHeader(d: Netdev) {
    !EndsWithPeer(d.privateKey) && !EndsWithPeer(d.peerKey) && !EndsWithPeer(d.allowedIps)
  }

  const HEADER_AT: nat := 9

  lemma GatewayPeerLines(d: Netdev)
    requires d.GatewayDev? && FieldsAvoidHeader(d)
    ensures PeerLines(d) == [PEER, "PublicKey=" + d.peerKey, "AllowedIPs=" + d.allowedIps]
    ensures !EndsWithPeer(PeerLines(d)[1]) && !EndsWithPeer(PeerLines(d)[2])
  {
    FieldEnds("PublicKey=", d.peerKey);
    FieldEnds("AllowedIPs=", d.allowedIps);
  }

  lemma DescriptionEnds(d: Netdev)
    ensures !EndsWithPeer(Description(d))
  {
    OtherLastCharacter(Description(d));
  }

  /** The section header is one line of the file, and no other line ends with it. */
  lemma HeaderIsOneLine(d: Netdev, i: nat)
    requires d.GatewayDev? && FieldsAvoidHeader(d) && i < |Generate(d)|
    ensures |Generate(d)| == HEADER_AT + 3
    ensures if i == HEADER_AT then Generate(d)[i] == PEER else !EndsWithPeer(Generate(d)[i])
  {
    GatewayPeerLines(d);
    assert Generate(d)[HEADER_AT..] == PeerLines(d);
    if i == 3 {
      DescriptionEnds(d);
    } else if i == 6 {
      FieldEnds("PrivateKey=", d.privateKey);
    } else if i == 7 {
      DigitsEnd("ListenPort=", ListenPort(d));
    } else if i >= HEADER_AT {
      assert Generate(d)[i] == PeerLines(d)[i - HEADER_AT];
    }
  }

  lemma {:induction false} InsertedAt(lines: seq<string>, k: nat, e: string)
    requires k < |lines| && forall i | 0 <= i < |lines| :: EndsWithPeer(lines[i]) <==> i == k
    ensures WithInserted(lines, e) == lines[..k + 1] + [e] + lines[k + 1..]
  {
    var rest := lines[1..];
    if k == 0 {
      InsertedNowhere(rest, e);
    } else {
      InsertedAt(rest, k - 1, e);
      assert rest[..k] == lines[1..k + 1] && rest[k..] == lines[k + 1..];
      assert lines[..k + 1] == [lines[0]] + lines[1..k + 1];
    }
  }

  lemma {:induction false} InsertedNowhere(lines: seq<string>, e: string)
    requires forall i | 0 <= i < |lines| :: !EndsWithPeer(lines[i])
    ensures WithInserted(lines, e) == lines
  {
    if lines != [] {
      InsertedNowhere(lines[1..], e);
    }
  }

  lemma GatewayHasHeader(d: Netdev)
    requires d.GatewayDev?
    ensures PEER in Generate(d) && EndsWithPeer(PEER)
  {
    assert Generate(d)[HEADER_AT..] == PeerLines(d);
    assert Generate(d)[HEADER_AT] == PEER;
  }

  /** Updating the file generated for a gateway, which has no endpoint, inserts the directive
      behind every line that ends with the section header. */
  lemma GatewayUpdate(d: Netdev, host: string, port: nat)
    requires d.GatewayDev? && SingleLineFields(d)
    ensures Updatable(Text(Generate(d)), host)
    ensures Update(Text(Generate(d)), host, port) == Text(WithInserted(Generate(d), Directive(host, port)))
  {
    var lines, e := Generate(d), Directive(host, port);
    HeaderBecomes(d, d, "");
    TextIsReadable(lines);
    ReadTextKeeps(Text(lines));
    GatewayHasNoDirective(d);
    RewriteLines(lines, e);
    GatewayHasHeader(d);
    InsertLines(lines, e);
  }

  /** Unless a field ends with the header text, that is exactly once, right behind the
      section header. */
  lemma GatewayUpdateInserts(d: Netdev, host: string, port: nat)
    requires d.GatewayDev? && SingleLineFields(d) && FieldsAvoidHeader(d)
    ensures var lines := Generate(d);
            && |lines| > HEADER_AT && lines[HEADER_AT] == PEER && Updatable(Text(lines), host)
            && Update(Text(lines), host, port) ==
               Text(lines[..HEADER_AT + 1] + [Directive(host, port)] + lines[HEADER_AT + 1..])
  {
    var lines, e := Generate(d), Directive(host, port);
    GatewayUpdate(d, host, port);
    HeaderIsOneLine(d, 0);
    forall i | 0 <= i < |lines|
      ensures EndsWithPeer(lines[i]) <==> i == HEADER_AT
    {
      HeaderIsOneLine(d, i);
      assert EndsWithPeer(PEER);
    }
    InsertedAt(lines, HEADER_AT, e);
  }

  // ---------- both roles ----------

  /** The lines that are no Endpoint directive. */
  function OtherLines(lines: seq<string>): seq<string> {
    if lines == [] then []
    else (if DirectiveLine(lines[0]) then [] else [lines[0]]) + OtherLines(lines[1..])
  }

  lemma OtherCons(w: string, rest: seq<string>)
    ensures OtherLines([w] + rest) == (if DirectiveLine(w) then [] else [w]) + OtherLines(rest)
  {
    assert ([w] + rest)[1..] == rest;
  }

  /** Every Endpoint directive among the lines is e. */
  predicate OnlyDirective(lines: seq<string>, e: string) {
    forall w <- lines :: DirectiveLine(w) ==> w == e
  }

  lemma {:induction false} ReplacingKeepsOthers(lines: seq<string>, e: string)
    requires DirectiveLine(e)
    ensures OtherLines(WithEndpoint(lines, e)) == OtherLines(lines) && OnlyDirective(WithEndpoint(lines, e), e)
    ensures (exists w <- lines :: DirectiveLine(w)) ==> e in WithEndpoint(lines, e)
  {
    if lines != [] {
      var w, tail := lines[0], WithEndpoint(lines[1..], e);
      ReplacingKeepsOthers(lines[1..], e);
      assert lines == [w] + lines[1..];
      OtherCons(if DirectiveLine(w) then e else w, tail);
      OtherCons(w, lines[1..]);
      assert WithEndpoint(lines, e) == [if DirectiveLine(w) then e else w] + tail;
    }
  }

  lemma InsertionIsNoOther(w: string, tail: seq<string>, e: string)
    requires DirectiveLine(e) && !DirectiveLine(w)
    ensures OtherLines([w] + ([e] + tail)) == [w] + OtherLines(tail) == OtherLines([w] + tail)
  {
    OtherCons(w, [e] + tail);
    OtherCons(e, tail);
    OtherCons(w, tail);
  }

  lemma {:induction false} InsertingKeepsOthers(lines: seq<string>, e: string)
    requires DirectiveLine(e) && forall w <- lines :: !DirectiveLine(w)
    ensures OtherLines(WithInserted(lines, e)) == OtherLines(lines)
  {
    if lines != [] {
      var w, rest := lines[0], lines[1..];
      assert lines == [w] + rest;
      InsertingKeepsOthers(rest, e);
      InsertionIsNoOther(w, WithInserted(rest, e), e);
      InsertionIsNoOther(w, rest, e);
    }
  }

  lemma {:induction false} InsertedLines(lines: seq<string>, e: string)
    ensures forall w <- WithInserted(lines, e) :: w in lines || w == e
    ensures (exists w <- lines :: EndsWithPeer(w)) ==> e in WithInserted(lines, e)
  {
    if lines != [] {
      assert lines == [lines[0]] + lines[1..];
      InsertedLines(lines[1..], e);
    }
  }

  /** The lines an update leaves of a generated file. */
  function Updated(d: Netdev, e: string): seq<string> {
    if d.ClientDev? then WithEndpoint(Generate(d), e) else WithInserted(Generate(d), e)
  }

  /** For every file that can be generated in either role: after an update the new directive
      is there, it is the only one, and every other line keeps its content and place. */
  lemma UpdateKeepsOtherLines(d: Netdev, host: string, port: nat)
    requires SingleLineFields(d) && SingleLine(host) && (d.ClientDev? ==> '\\' !in host)
    ensures Updatable(Text(Generate(d)), host)
    ensures var e, lines := Directive(host, port), Updated(d, Directive(host, port));
            && Update(Text(Generate(d)), host, port) == Text(lines)
            && OtherLines(lines) == OtherLines(Generate(d))
            && e in lines && OnlyDirective(lines, e)
  {
    var e := Directive(host, port);
    DirectiveIsLine(host, port);
    if d.ClientDev? {
      var endpoint := host + ":" + Digits(port);
      assert e == KEY + "=" + endpoint;
      HeaderBecomes(d, d.(endpoint := endpoint), endpoint);
      ClientUpdateIsRegeneration(d, host, port);
      ClientHasDirective(d);
      ReplacingKeepsOthers(Generate(d), e);
    } else {
      GatewayUpdate(d, host, port);
      GatewayHasNoDirective(d);
      GatewayHasHeader(d);
      InsertingKeepsOthers(Generate(d), e);
      InsertedLines(Generate(d), e);
    }
  }

  // ---------- what the generated lines say ----------

  /** line is the key, '=', and a decimal numeral of the value. */
  predicate ReadsAs(line: string, key: string, value: nat) {
    key + "=" <= line && AllDigits(line[|key| + 1..]) && DecimalValue(line[|key| + 1..], 0) == value
  }

  lemma NumberLine(key: string, value: nat)
    ensures ReadsAs(key + "=" + Digits(value), key, value)
  {
    DigitsSpell(value);
    assert (key + "=" + Digits(value))[|key| + 1..] == Digits(value);
  }

  lemma ListenLineReads(d: Netdev)
    requires d.GatewayDev?
    ensures |Generate(d)| > 7
    ensures ReadsAs(Generate(d)[7], "ListenPort", if d.listenPort == 0 then 51820 else d.listenPort)
  {
    var port := if d.listenPort == 0 then 51820 else d.listenPort;
    NumberLine("ListenPort", port);
    assert "ListenPort" + "=" == "ListenPort=";
    assert Generate(d)[7] == "ListenPort=" + Digits(port);
  }

  lemma KeepaliveLineReads(d: Netdev)
    requires d.ClientDev?
    ensures |Generate(d)| == 13
    ensures ReadsAs(Generate(d)[12], "PersistentKeepalive", d.keepalive)
  {
    NumberLine("PersistentKeepalive", d.keepalive);
    assert "PersistentKeepalive" + "=" == "PersistentKeepalive=";
    assert Generate(d)[12] == "PersistentKeepalive=" + Digits(d.keepalive);
  }

  /** The gateway's file, line by line; port 0 stands for the default port. */
  lemma GatewayFileReads(d: Netdev)
    requires d.GatewayDev?
    ensures var lines := Generate(d);
            && |lines| == 12
            && lines[..7] == ["[NetDev]", "Name=wg-edge", "Kind=wireguard",
                              "Description=" + ("RoostOS Edge " + ("Gateway " + ("WireGuard " + "Server"))),
                              "", "[WireGuard]", "PrivateKey=" + d.privateKey]
            && ReadsAs(lines[7], "ListenPort", if d.listenPort == 0 then 51820 else d.listenPort)
            && lines[8..] == ["", "[WireGuardPeer]", "PublicKey=" + d.peerKey, "AllowedIPs=" + d.allowedIps]
  {
    ListenLineReads(d);
  }

  /** The client's file, line by line. */
  lemma ClientFileReads(d: Netdev)
    requires d.ClientDev?
    ensures var lines := Generate(d);
            && |lines| == 13
            && lines[..7] == ["[NetDev]", "Name=wg-edge", "Kind=wireguard",
                              "Description=" + ("RoostOS Edge " + ("Gateway " + ("WireGuard " + "Client"))),
                              "", "[WireGuard]", "PrivateKey=" + d.privateKey]
            && lines[7..12] == ["", "[WireGuardPeer]", "PublicKey=" + d.peerKey, "Endpoint=" + d.endpoint,
                                "AllowedIPs=" + d.allowedIps]
            && ReadsAs(lines[12], "PersistentKeepalive", d.keepalive)
  {
    KeepaliveLineReads(d);
    assert KEY + "=" == "Endpoint=";
  }
}
