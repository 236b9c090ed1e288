/** update_peer_endpoint_file: which text an update leaves, and what is left of earlier ones. */
module EndpointRewrite {
  import opened Wrappers
  import opened Strings
  import opened TextFiles
  import opened EndpointPattern

  function Digits(n: nat): string {
    if n < 10 then ["0123456789"[n]] else Digits(n / 10) + ["0123456789"[n % 10]]
  }

  function Directive(host: string, port: nat): string {
    KEY + "=" + host + ":" + Digits(port)
  }

  /** The host is taken literally: it holds no backslash, or no directive is there to be
      replaced. Only the substitution reads a backslash as template syntax. */
  predicate Updatable(content: string, host: string) {
    '\\' in host ==> !HasDirective(ReadText(content), true)
  }

  /** The new text of the file. */
  function Update(content: string, host: string, port: nat): string
    requires Updatable(content, host)
  {
    var text, e := ReadText(content), Directive(host, port);
    if HasDirective(text, true) then Rewrite(text, true, e)
    else if Occurs(PEER, text) then Insert(text, e)
    else text + Section(e)
  }

  lemma {:induction false} DigitsAreSingleLine(n: nat)
    ensures SingleLine(Digits(n))
  {
    if n >= 10 {
      DigitsAreSingleLine(n / 10);
    }
  }

  lemma DirectiveIsLine(host: string, port: nat)
    requires SingleLine(host)
    ensures DirectiveLine(Directive(host, port))
  {
    DigitsAreSingleLine(port);
    assert SingleLine(KEY + "=") && SingleLine(":");
  }

  lemma {:induction false} RewriteAddsNoReturn(s: string, bol: bool, e: string)
    requires '\r' !in s && '\r' !in e
    ensures '\r' !in Rewrite(s, bol, e)
    decreases |s|
  {
    if s != "" {
      if bol && IsDirective(s) {
        AfterDirectiveIsSuffix(s);
        RewriteAddsNoReturn(AfterDirective(s), false, e);
      } else {
        assert s[0] in s;
        RewriteAddsNoReturn(s[1..], s[0] == '\n', e);
      }
    }
  }

  lemma AfterDirectiveIsSuffix(s: string)
    requires IsDirective(s)
    ensures forall c <- AfterDirective(s) :: c in s
  {
    var t := LeftStrip(s);
    LeftStripIsSuffix(s);
    LeftStripIsSuffix(t[|KEY|..]);
    AfterLineKeeps(LeftStrip(t[|KEY|..])[1..]);
  }

  lemma {:induction false} AfterLineKeeps(s: string)
    ensures forall c <- AfterLine(s) :: c in s
  {
    if s != "" && s[0] != '\n' {
      AfterLineKeeps(s[1..]);
    }
  }

  lemma {:induction false} InsertAddsNoReturn(s: string, e: string)
    requires '\r' !in s && '\r' !in e
    ensures '\r' !in Insert(s, e)
    decreases |s|
  {
    if s != "" {
      if PEER_LINE <= s {
        InsertAddsNoReturn(s[|PEER_LINE|..], e);
      } else {
        assert s[0] in s;
        InsertAddsNoReturn(s[1..], e);
      }
    }
  }

  /** What an update writes reads back as it is. */
  lemma UpdateReadsBack(content: string, host: string, port: nat)
    requires Updatable(content, host) && SingleLine(host)
    ensures ReadText(Update(content, host, port)) == Update(content, host, port)
  {
    var text, e := ReadText(content), Directive(host, port);
    ReadTextHasNoCarriageReturn(content);
    DirectiveIsLine(host, port);
    RewriteAddsNoReturn(text, true, e);
    InsertAddsNoReturn(text, e);
    ReadTextKeeps(Update(content, host, port));
  }

  /** Last write wins, for every file whatsoever: of two updates only the second shows. */
  lemma SecondUpdateWins(content: string, host: string, port: nat, host2: string, port2: nat)
    requires Updatable(content, host) && SingleLine(host)
    requires Updatable(Update(content, host, port), host2) && Updatable(content, host2)
    ensures Update(Update(content, host, port), host2, port2) == Update(content, host2, port2)
  {
    var text, e, e2 := ReadText(content), Directive(host, port), Directive(host2, port2);
    DirectiveIsLine(host, port);
    UpdateReadsBack(content, host, port);
    if HasDirective(text, true) {
      RewriteTwice(text, true, e, e2);
    } else if Occurs(PEER, text) {
      RewriteInsert(text, true, e, e2);
      if !Occurs(PEER_LINE, text) {
        ReplaceNothing(text, PEER_LINE, PEER_LINE + e + "\n");
        ReplaceNothing(text, PEER_LINE, PEER_LINE + e2 + "\n");
      }
    } else {
      RewriteAppended(text, true, e, e2);
    }
  }

  datatype Endpoint = Endpoint(host: string, port: nat)

  // ---------- reading an endpoint back ----------

  predicate AllDigits(s: string) {
    forall c <- s :: '0' <= c <= '9'
  }

  /** The value of a decimal numeral read from left to right, behind what was read before. */
  function DecimalValue(s: string, before: nat): nat
    requires AllDigits(s)
  {
    if s == "" then before
    else
      assert s[0] in s && forall c <- s[1..] :: c in s;
      DecimalValue(s[1..], 10 * before + (s[0] as int - '0' as int))
  }

  lemma {:induction false} DecimalSnoc(s: string, c: char, before: nat)
    requires AllDigits(s) && '0' <= c <= '9'
    ensures AllDigits(s + [c])
    ensures DecimalValue(s + [c], before) == 10 * DecimalValue(s, before) + (c as int - '0' as int)
  {
    if s == "" {
      assert s + [c] == [c];
    } else {
      assert s[0] in s && forall d <- s[1..] :: d in s;
      assert (s + [c])[1..] == s[1..] + [c];
      DecimalSnoc(s[1..], c, 10 * before + (s[0] as int - '0' as int));
    }
  }

  lemma DigitCharacter(d: nat)
    requires d < 10
    ensures '0' <= "0123456789"[d] <= '9' && "0123456789"[d] as int == '0' as int + d
  {
  }

  /** The digits spell the number, without a leading zero. */
  lemma {:induction false} DigitsSpell(n: nat)
    ensures Digits(n) != "" && AllDigits(Digits(n)) && DecimalValue(Digits(n), 0) == n
    ensures Digits(n)[0] == '0' ==> n == 0
  {
    DigitCharacter(n % 10);
    var last := "0123456789"[n % 10];
    if n < 10 {
      assert Digits(n) == "" + [last];
      DecimalSnoc("", last, 0);
    } else {
      DigitsSpell(n / 10);
      DecimalSnoc(Digits(n / 10), last, 0);
    }
  }

  /** What stands in front of and behind the last ':'. */
  function LastColon(s: string): Option<nat> {
    if s == "" then None
    else if s[|s| - 1] == ':' then Some(|s| - 1)
    else LastColon(s[..|s| - 1])
  }

  lemma {:induction false} LastColonBefore(a: string, b: string)
    requires ':' !in b
    ensures LastColon(a + ":" + b) == Some(|a|)
  {
    var s := a + ":" + b;
    if b == "" {
      assert s[|s| - 1] == ':';
    } else {
      assert b[|b| - 1] in b && s[|s| - 1] == b[|b| - 1];
      assert s[..|s| - 1] == a + ":" + b[..|b| - 1];
      LastColonBefore(a, b[..|b| - 1]);
    }
  }

  /** The host in front of the last ':' and the port behind it. */
  function ReadHostAndPort(value: string): Option<Endpoint> {
    var colon := LastColon(value);
    if colon.None? || colon.value >= |value| || !AllDigits(value[colon.value + 1..]) then None
    else Some(Endpoint(value[..colon.value], DecimalValue(value[colon.value + 1..], 0)))
  }

  /** An endpoint line as its reader takes it. */
  function ReadEndpoint(line: string): Option<Endpoint> {
    if "Endpoint=" <= line then ReadHostAndPort(line[9..]) else None
  }

  lemma HostAndPortReadBack(host: string, digits: string)
    requires AllDigits(digits)
    ensures ReadHostAndPort(host + ":" + digits) == Some(Endpoint(host, DecimalValue(digits, 0)))
  {
    var value := host + ":" + digits;
    assert ':' !in digits;
    LastColonBefore(host, digits);
    assert value[|host| + 1..] == digits && value[..|host|] == host;
  }

  /** The directive reads back as the host and port it was made from. */
  lemma DirectiveReadsBack(host: string, port: nat)
    ensures ReadEndpoint(Directive(host, port)) == Some(Endpoint(host, port))
  {
    DigitsSpell(port);
    HostAndPortReadBack(host, Digits(port));
    assert Directive(host, port) == "Endpoint=" + (host + ":" + Digits(port));
    assert Directive(host, port)[9..] == host + ":" + Digits(port);
  }

  /** The text up to the end of its first line. */
  function FirstLine(s: string): string {
    if s == "" || s[0] == '\n' then "" else [s[0]] + FirstLine(s[1..])
  }

  lemma {:induction false} FirstLineIs(line: string, rest: string)
    requires '\n' !in line && (rest == "" || rest[0] == '\n')
    ensures FirstLine(line + rest) == line
  {
    if line == "" {
      assert line + rest == rest;
    } else {
      assert line[0] in line && (line + rest)[1..] == line[1..] + rest;
      FirstLineIs(line[1..], rest);
      assert line == [line[0]] + line[1..];
    }
  }

  /** Every directive of the text stands at the start of its line and reads as p. */
  predicate EndpointsRead(s: string, bol: bool, p: Endpoint) {
    s == "" || (&& (bol && IsDirective(s) ==> ReadEndpoint(FirstLine(s)) == Some(p))
                && EndpointsRead(s[1..], s[0] == '\n', p))
  }

  /** A text that rewriting leaves alone has only the directive written. */
  lemma {:induction false} FixedTextReads(s: string, bol: bool, p: Endpoint)
    requires SingleLine(p.host) && Rewrite(s, bol, Directive(p.host, p.port)) == s
    ensures EndpointsRead(s, bol, p)
    decreases |s|
  {
    var e := Directive(p.host, p.port);
    DirectiveIsLine(p.host, p.port);
    if s != "" {
      if bol && IsDirective(s) {
        var rest := Rewrite(AfterDirective(s), false, e);
        RewriteStartsLine(AfterDirective(s), e);
        assert s == e + rest;
        LineMatches(e, rest);
        FirstLineIs(e, rest);
        DirectiveReadsBack(p.host, p.port);
        WalkRest(e, rest, p);
        FixedTextReads(rest, false, p);
      } else {
        assert ([s[0]] + Rewrite(s[1..], s[0] == '\n', e))[1..] == Rewrite(s[1..], s[0] == '\n', e);
        FixedTextReads(s[1..], s[0] == '\n', p);
      }
    }
  }

  /** No directive begins inside a line. */
  lemma {:induction false} InsideLine(w: string, rest: string, p: Endpoint)
    requires '\n' !in w
    ensures EndpointsRead(w + rest, false, p) <==> EndpointsRead(rest, false, p)
  {
    if w == "" {
      assert w + rest == rest;
    } else {
      assert w[0] in w && (w + rest)[1..] == w[1..] + rest;
      InsideLine(w[1..], rest, p);
    }
  }

  lemma WalkRest(e: string, rest: string, p: Endpoint)
    requires DirectiveLine(e)
    ensures EndpointsRead((e + rest)[1..], (e + rest)[0] == '\n', p) <==> EndpointsRead(rest, false, p)
  {
    assert (e + rest)[1..] == e[1..] + rest && e[0] in e;
    InsideLine(e[1..], rest, p);
  }

  /** Rewriting an updated file with the directive just written changes nothing. */
  lemma UpdateIsFixed(content: string, host: string, port: nat)
    requires Updatable(content, host) && SingleLine(host)
    ensures var s := Update(content, host, port);
            HasDirective(s, true) ==> Rewrite(s, true, Directive(host, port)) == s
  {
    var text, e := ReadText(content), Directive(host, port);
    DirectiveIsLine(host, port);
    if HasDirective(text, true) {
      RewriteTwice(text, true, e, e);
    } else if Occurs(PEER, text) {
      RewriteInsert(text, true, e, e);
    } else {
      RewriteAppended(text, true, e, e);
    }
  }

  /** For every file whatsoever: after an update each Endpoint directive of the file reads as
      the host and port of the update. */
  lemma UpdatedEndpointReads(content: string, host: string, port: nat)
    requires Updatable(content, host) && SingleLine(host)
    ensures EndpointsRead(Update(content, host, port), true, Endpoint(host, port))
  {
    var s := Update(content, host, port);
    UpdateIsFixed(content, host, port);
    if HasDirective(s, true) {
      FixedTextReads(s, true, Endpoint(host, port));
    } else {
      NothingToRead(s, true, Endpoint(host, port));
    }
  }

  lemma {:induction false} NothingToRead(s: string, bol: bool, p: Endpoint)
    requires !HasDirective(s, bol)
    ensures EndpointsRead(s, bol, p)
  {
    if s != "" {
      NothingToRead(s[1..], s[0] == '\n', p);
    }
  }

  predicate Plain(p: Endpoint) {
    '\\' !in p.host && SingleLine(p.host)
  }

  function UpdateAll(content: string, updates: seq<Endpoint>): string
    requires forall i :: 0 <= i < |updates| ==> Plain(updates[i])
  {
    if updates == [] then content
    else
      var last := updates[|updates| - 1];
      assert Plain(last);
      Update(UpdateAll(content, updates[..|updates| - 1]), last.host, last.port)
  }

  /** Any sequence of updates equals its last one. */
  lemma {:induction false} LastUpdateWins(content: string, updates: seq<Endpoint>)
    requires updates != [] && forall i :: 0 <= i < |updates| ==> Plain(updates[i])
    ensures var last := updates[|updates| - 1];
            Plain(last) && UpdateAll(content, updates) == Update(content, last.host, last.port)
  {
    var earlier, last := updates[..|updates| - 1], updates[|updates| - 1];
    if earlier != [] {
      var before := earlier[|earlier| - 1];
      LastUpdateWins(content, earlier);
      SecondUpdateWins(content, before.host, before.port, last.host, last.port);
    }
  }

  /** Where a directive is found, everything else of the file keeps its content and order:
      blanking the directives gives the same text before and after. */
  lemma OtherTextIsKept(content: string, host: string, port: nat)
    requires '\\' !in host && SingleLine(host) && HasDirective(ReadText(content), true)
    ensures Rewrite(Update(content, host, port), true, "") == Rewrite(ReadText(content), true, "")
  {
    DirectiveIsLine(host, port);
    RewriteTwice(ReadText(content), true, Directive(host, port), "");
  }

  /** The updated file has an Endpoint directive unless the text had none and mentions the
      section header without a newline right behind it: then nothing is written. */
  lemma EndpointIsThereExactly(content: string, host: string, port: nat)
    requires Updatable(content, host) && SingleLine(host)
    ensures HasDirective(Update(content, host, port), true) <==>
            var text := ReadText(content);
            HasDirective(text, true) || Occurs(PEER_LINE, text) || !Occurs(PEER, text)
  {
    var text, e := ReadText(content), Directive(host, port);
    DirectiveIsLine(host, port);
    if HasDirective(text, true) {
      RewriteTwice(text, true, e, e);
    } else if Occurs(PEER, text) {
      RewriteInsert(text, true, e, e);
    } else {
      RewriteAppended(text, true, e, e);
      HeaderLineHoldsHeader(text);
    }
  }

  /** A file that mentions neither keeps its text and gets a section behind an empty line. */
  lemma AppendedSection(content: string, host: string, port: nat)
    requires !HasDirective(ReadText(content), true) && !Occurs("[WireGuardPeer]", ReadText(content))
    ensures Update(content, host, port) ==
            ReadText(content) + ("\n" + "[WireGuardPeer]\n" + ("Endpoint" + "=" + host + ":" + Digits(port)) + "\n")
  {
  }

  lemma {:induction false} HeaderLineHoldsHeader(s: string)
    ensures Occurs(PEER_LINE, s) ==> Occurs(PEER, s)
  {
    if PEER_LINE <= s {
      assert PEER <= PEER_LINE;
      assert s[..|PEER|] == PEER_LINE[..|PEER|];
    } else if s != "" {
      HeaderLineHoldsHeader(s[1..]);
    }
  }

  // ---------- the file in its directory ----------

  /** The network directory, as far as the update sees it. */
  class NetworkDirectory {
    var netdev: Option<string>

    constructor (file: Option<string>)
      ensures netdev == file
    {
      netdev := file;
    }

    /** update_peer_endpoint_file: nothing happens without the file. substitute stands for what
        the library makes of a file and a replacement with a backslash, None if it raises. */
    method UpdatePeerEndpointFile(host: string, port: nat, substitute: (string, string) -> Option<string>)
      returns (updated: Option<bool>)
      modifies this
      ensures old(netdev).None? ==> updated == Some(false) && netdev == None
      ensures old(netdev).Some? && Updatable(old(netdev).value, host) ==>
                updated == Some(true) && netdev == Some(Update(old(netdev).value, host, port))
      ensures old(netdev).Some? && !Updatable(old(netdev).value, host) ==>
                var text := substitute(ReadText(old(netdev).value), Directive(host, port));
                if text.Some? then updated == Some(true) && netdev == text
                else updated == None && netdev == old(netdev)
    {
      if netdev.None? {
        return Some(false);
      }
      var content := ReadText(netdev.value);
      var newEndpoint := Directive(host, port);
      var text;
      if HasDirective(content, true) {
        if '\\' in host {
          var answer := substitute(content, newEndpoint);
          if answer.None? {
            return None;
          }
          text := answer.value;
        } else {
          text := Rewrite(content, true, newEndpoint);
        }
      } else if Occurs(PEER, content) {
        text := Insert(content, newEndpoint);
      } else {
        text := content + Section(newEndpoint);
      }
      netdev := Some(text);
      return Some(true);
    }
  }
}
