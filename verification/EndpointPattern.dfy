/**
 The endpoint update of a WireGuard netdev file, character by character: the source's
 multi-line pattern is an optional run of white space at the start of a line, the word
 Endpoint, white space, '=', and the rest of that line. White space may contain newlines.
 */
module EndpointPattern {
  import opened Strings

  const KEY := "Endpoint"
  const PEER := "[WireGuardPeer]"
  const PEER_LINE := "[WireGuardPeer]\n"

  // ---------- the pattern ----------

  /** The directive matches at the start of s. White space and the key are matched
      greedily; no other split can match, since neither 'E' nor '=' is white space. */
  predicate IsDirective(s: string) {
    var t := LeftStrip(s);
    KEY <= t && (var u := LeftStrip(t[|KEY|..]); u != "" && u[0] == '=')
  }

  function AfterLine(s: string): string {
    if s == "" || s[0] == '\n' then s else AfterLine(s[1..])
  }

  /** What follows a matched directive. */
  function AfterDirective(s: string): (r: string)
    requires IsDirective(s)
    ensures |r| < |s|
    ensures r == "" || r[0] == '\n'
  {
    LeftStripIsSuffix(s);
    var t := LeftStrip(s);
    LeftStripIsSuffix(t[|KEY|..]);
    var u := LeftStrip(t[|KEY|..]);
    AfterLineIsSuffix(u[1..]);
    AfterLine(u[1..])
  }

  lemma {:induction false} AfterLineIsSuffix(s: string)
    ensures |AfterLine(s)| <= |s| && (AfterLine(s) == "" || AfterLine(s)[0] == '\n')
  {
    if s != "" && s[0] != '\n' {
      AfterLineIsSuffix(s[1..]);
    }
  }

  /** re.search: the pattern matches somewhere; bol says that s begins a line. */
  predicate HasDirective(s: string, bol: bool) {
    s != "" && ((bol && IsDirective(s)) || HasDirective(s[1..], s[0] == '\n'))
  }

  /** re.sub: every match from left to right replaced by e. */
  function Rewrite(s: string, bol: bool, e: string): string
    decreases |s|
  {
    if s == "" then ""
    else if bol && IsDirective(s) then e + Rewrite(AfterDirective(s), false, e)
    else [s[0]] + Rewrite(s[1..], s[0] == '\n', e)
  }

  /** content.replace of the section header. */
  function Insert(s: string, e: string): string {
    ReplaceAll(s, PEER_LINE, PEER_LINE + e + "\n")
  }

  function Section(e: string): string {
    "\n" + PEER_LINE + e + "\n"
  }

  predicate AllSpace(s: string) {
    forall c <- s :: IsSpace(c)
  }

  lemma {:induction false} LeftStripExactly(w: string, t: string)
    requires AllSpace(w) && (t == "" || !IsSpace(t[0]))
    ensures LeftStrip(w + t) == t
  {
    if w == "" {
      assert w + t == t;
    } else {
      assert w[0] in w && (w + t)[1..] == w[1..] + t;
      LeftStripExactly(w[1..], t);
    }
  }

  lemma {:induction false} StrippedPart(s: string) returns (w: string)
    ensures AllSpace(w) && s == w + LeftStrip(s)
    ensures LeftStrip(s) == "" || !IsSpace(LeftStrip(s)[0])
  {
    if s != "" && IsSpace(s[0]) {
      var w' := StrippedPart(s[1..]);
      w := [s[0]] + w';
    } else {
      w := "";
    }
  }

  /** s is the pattern's match, white space, the word, white space, '=' and the rest of a line,
      followed by after. */
  predicate Splits(s: string, a: string, b: string, line: string, after: string) {
    && s == a + ("Endpoint" + (b + ("=" + (line + after))))
    && AllSpace(a) && AllSpace(b) && '\n' !in line && (after == "" || after[0] == '\n')
  }

  /** A match that can be split like that is found, and ends where the split says. */
  lemma SplitMatches(s: string, a: string, b: string, line: string, after: string)
    requires Splits(s, a, b, line, after)
    ensures IsDirective(s) && AfterDirective(s) == after
  {
    var rest := "=" + (line + after);
    var t := "Endpoint" + (b + rest);
    LeftStripExactly(a, t);
    LeftStripExactly(b, rest);
    assert t[|KEY|..] == b + rest && KEY <= t;
    assert rest[1..] == line + after;
    AfterLineSkips(line, after);
  }

  lemma {:induction false} LineInFront(s: string) returns (line: string)
    ensures '\n' !in line && s == line + AfterLine(s)
  {
    if s == "" || s[0] == '\n' {
      line := "";
    } else {
      var line' := LineInFront(s[1..]);
      line := [s[0]] + line';
    }
  }

  /** The matcher against the pattern itself: it finds a directive at the start of s exactly if
      s can be split as the pattern says. */
  lemma DirectiveExactly(s: string)
    ensures IsDirective(s) <==> exists a, b, line, after :: Splits(s, a, b, line, after)
  {
    if IsDirective(s) {
      var a := StrippedPart(s);
      var t := LeftStrip(s);
      var b := StrippedPart(t[|KEY|..]);
      var u := LeftStrip(t[|KEY|..]);
      var line := LineInFront(u[1..]);
      var after := AfterLine(u[1..]);
      AfterLineIsSuffix(u[1..]);
      assert u == "=" + (line + after);
      assert t == KEY + t[|KEY|..];
      assert Splits(s, a, b, line, after);
    }
    forall a, b, line, after | Splits(s, a, b, line, after)
      ensures IsDirective(s)
    {
      SplitMatches(s, a, b, line, after);
    }
  }

  /** The i-th character begins a line. */
  predicate BeginsLine(s: string, bol: bool, i: nat)
    requires i <= |s|
  {
    if i == 0 then bol else s[i - 1] == '\n'
  }

  /** The search finds something exactly if the pattern matches at the start of some line. */
  lemma {:induction false} HasDirectiveExactly(s: string, bol: bool)
    ensures HasDirective(s, bol) <==> exists i :: 0 <= i < |s| && BeginsLine(s, bol, i) && IsDirective(s[i..])
  {
    if s != "" {
      var t, b := s[1..], s[0] == '\n';
      HasDirectiveExactly(t, b);
      assert s[0..] == s;
      forall i | 0 < i < |s|
        ensures s[i..] == t[i - 1..] && (BeginsLine(s, bol, i) <==> BeginsLine(t, b, i - 1))
      {
      }
      if i :| 0 <= i < |t| && BeginsLine(t, b, i) && IsDirective(t[i..]) {
        assert BeginsLine(s, bol, i + 1) && s[i + 1..] == t[i..];
      }
    }
  }

  predicate SingleLine(s: string) {
    '\n' !in s && '\r' !in s
  }

  // ---------- e is a directive line ----------

  predicate DirectiveLine(e: string) {
    KEY + "=" <= e && SingleLine(e)
  }

  lemma {:induction false} AfterLineSkips(v: string, u: string)
    requires '\n' !in v && (u == "" || u[0] == '\n')
    ensures AfterLine(v + u) == u
  {
    if v == "" {
      assert v + u == u;
    } else {
      assert v[0] in v && v == [v[0]] + v[1..];
      assert (v + u)[1..] == v[1..] + u;
      AfterLineSkips(v[1..], u);
    }
  }

  /** A directive line at the start of a text is matched as a whole. */
  lemma LineMatches(e: string, u: string)
    requires DirectiveLine(e) && (u == "" || u[0] == '\n')
    ensures IsDirective(e + u) && AfterDirective(e + u) == u
  {
    var s := e + u;
    assert s[0] == 'E' && LeftStrip(s) == s && KEY <= s;
    var t := s[|KEY|..];
    assert t[0] == '=' && LeftStrip(t) == t;
    var v := e[|KEY| + 1..];
    assert t[1..] == v + u;
    assert forall c <- v :: c in e;
    AfterLineSkips(v, u);
  }

  // ---------- white space in front ----------

  lemma StripStep(s: string)
    requires s != "" && IsSpace(s[0])
    ensures LeftStrip(s) == LeftStrip(s[1..])
    ensures IsDirective(s) <==> IsDirective(s[1..])
  {
  }

  lemma StripStops(s: string)
    requires s == "" || !IsSpace(s[0])
    ensures LeftStrip(s) == s
  {
  }

  lemma NotDirectiveByFirst(s: string)
    requires LeftStrip(s) == "" || LeftStrip(s)[0] != 'E'
    ensures !IsDirective(s)
  {
  }

  // ---------- rewriting twice ----------

  /** Where no directive starts, rewriting commutes with skipping white space. */
  lemma {:induction false} RewriteSkips(s: string, bol: bool, e: string)
    requires !IsDirective(s)
    ensures LeftStrip(Rewrite(s, bol, e)) == Rewrite(LeftStrip(s), false, e)
    decreases |s|
  {
    if s != "" {
      var r := Rewrite(s, bol, e);
      assert r == [s[0]] + Rewrite(s[1..], s[0] == '\n', e);
      if IsSpace(s[0]) {
        StripStep(s);
        RewriteSkips(s[1..], s[0] == '\n', e);
        assert r[1..] == Rewrite(s[1..], s[0] == '\n', e);
      } else {
        StripStops(s);
        StripStops(r);
      }
    }
  }

  /** A text without newline in front is a prefix before rewriting iff it is one after. */
  lemma {:induction false} RewriteKeepsWord(w: string, x: string, e: string)
    requires '\n' !in w
    ensures w <= Rewrite(x, false, e) <==> w <= x
    ensures w <= x ==> Rewrite(x, false, e) == w + Rewrite(x[|w|..], false, e)
  {
    var y := Rewrite(x, false, e);
    if w == "" {
      assert x[0..] == x && "" + y == y;
    } else if x != "" {
      assert y == [x[0]] + Rewrite(x[1..], x[0] == '\n', e);
      assert w[0] in w && w == [w[0]] + w[1..];
      if w[0] == x[0] {
        assert y[1..] == Rewrite(x[1..], false, e);
        RewriteKeepsWord(w[1..], x[1..], e);
        assert w <= x <==> w[1..] <= x[1..];
        assert w <= y <==> w[1..] <= y[1..];
        if w <= x {
          assert x[1..][|w[1..]|..] == x[|w|..];
        }
      }
    }
  }

  predicate StartsWithEquals(s: string) {
    s != "" && s[0] == '='
  }

  /** Rewriting never brings an '=' to the front. */
  lemma {:induction false} RewriteHidesEquals(q: string, bol: bool, e: string)
    requires DirectiveLine(e) && !StartsWithEquals(LeftStrip(q))
    ensures !StartsWithEquals(LeftStrip(Rewrite(q, bol, e)))
    decreases |q|
  {
    if q != "" {
      var r := Rewrite(q, bol, e);
      if bol && IsDirective(q) {
        assert r[0] == 'E';
        StripStops(r);
      } else {
        assert r == [q[0]] + Rewrite(q[1..], q[0] == '\n', e);
        if IsSpace(q[0]) {
          StripStep(q);
          RewriteHidesEquals(q[1..], q[0] == '\n', e);
          assert r[1..] == Rewrite(q[1..], q[0] == '\n', e);
        } else {
          StripStops(q);
          StripStops(r);
        }
      }
    }
  }

  /** A place where no directive starts is still none after a rewrite. */
  lemma NonDirectiveStays(s: string, e: string)
    requires DirectiveLine(e) && !IsDirective(s)
    ensures !IsDirective(Rewrite(s, false, e))
  {
    var x, r := LeftStrip(s), Rewrite(s, false, e);
    RewriteSkips(s, false, e);
    RewriteKeepsWord(KEY, x, e);
    if KEY <= x {
      var y := Rewrite(x, false, e);
      assert y[|KEY|..] == Rewrite(x[|KEY|..], false, e);
      RewriteHidesEquals(x[|KEY|..], false, e);
    }
  }

  lemma RewriteStartsLine(t: string, e: string)
    requires t == "" || t[0] == '\n'
    ensures Rewrite(t, false, e) == "" || Rewrite(t, false, e)[0] == '\n'
  {
  }

  /** The second rewrite finds exactly the lines the first one wrote. */
  lemma {:induction false} RewriteTwice(s: string, bol: bool, e: string, e2: string)
    requires DirectiveLine(e)
    ensures Rewrite(Rewrite(s, bol, e), bol, e2) == Rewrite(s, bol, e2)
    ensures HasDirective(Rewrite(s, bol, e), bol) == HasDirective(s, bol)
    decreases |s|
  {
    if s != "" {
      if bol && IsDirective(s) {
        var t := AfterDirective(s);
        var u := Rewrite(t, false, e);
        RewriteStartsLine(t, e);
        LineMatches(e, u);
        RewriteTwice(t, false, e, e2);
      } else {
        var u := Rewrite(s[1..], s[0] == '\n', e);
        var r := Rewrite(s, bol, e);
        assert r == [s[0]] + u && r[1..] == u;
        RewriteTwice(s[1..], s[0] == '\n', e, e2);
        if bol {
          NonDirectiveStays(s, e);
          assert Rewrite(s, false, e) == r;
        }
      }
    }
  }

  // ---------- walking over lines ----------

  /** Characters that begin no line are copied. */
  lemma {:induction false} WalkWord(w: string, rest: string, e: string)
    requires '\n' !in w
    ensures Rewrite(w + rest, false, e) == w + Rewrite(rest, false, e)
    ensures HasDirective(w + rest, false) == HasDirective(rest, false)
  {
    if w == "" {
      assert w + rest == rest;
    } else {
      assert w[0] in w && w == [w[0]] + w[1..];
      assert (w + rest)[1..] == w[1..] + rest;
      WalkWord(w[1..], rest, e);
    }
  }

  /** A line that begins with neither white space nor 'E' is copied. */
  lemma WalkLine(w: string, rest: string, bol: bool, e: string)
    requires w != "" && '\n' !in w && !IsSpace(w[0]) && w[0] != 'E'
    ensures Rewrite(w + "\n" + rest, bol, e) == w + "\n" + Rewrite(rest, true, e)
    ensures HasDirective(w + "\n" + rest, bol) == HasDirective(rest, true)
  {
    var s := w + "\n" + rest;
    var tail := w[1..] + ("\n" + rest);
    assert s[1..] == tail && w[0] in w;
    StripStops(s);
    NotDirectiveByFirst(s);
    WalkWord(w[1..], "\n" + rest, e);
    assert ("\n" + rest)[1..] == rest;
    assert Rewrite("\n" + rest, false, e) == ['\n'] + Rewrite(rest, true, e);
  }

  /** An empty line in front of a line that begins with neither white space nor 'E'. */
  lemma WalkEmptyLine(rest: string, bol: bool, e: string)
    requires rest != "" && !IsSpace(rest[0]) && rest[0] != 'E'
    ensures Rewrite("\n" + rest, bol, e) == "\n" + Rewrite(rest, true, e)
    ensures HasDirective("\n" + rest, bol) == HasDirective(rest, true)
  {
    var s := "\n" + rest;
    assert s[1..] == rest;
    StripStep(s);
    StripStops(rest);
    NotDirectiveByFirst(rest);
  }

  /** A directive line is replaced. */
  lemma WalkDirective(d: string, rest: string, e: string)
    requires DirectiveLine(d)
    ensures Rewrite(d + "\n" + rest, true, e) == e + "\n" + Rewrite(rest, true, e)
    ensures HasDirective(d + "\n" + rest, true)
  {
    var u := "\n" + rest;
    assert d + "\n" + rest == d + u;
    LineMatches(d, u);
    assert u[1..] == rest;
    assert Rewrite(u, false, e) == ['\n'] + Rewrite(rest, true, e);
  }

  // ---------- inserting behind the section header ----------

  lemma InsertFirst(x: string, e: string)
    ensures x == "" <==> Insert(x, e) == ""
    ensures x != "" ==> Insert(x, e)[0] == x[0]
  {
  }

  lemma {:induction false} InsertSkips(s: string, e: string)
    ensures LeftStrip(Insert(s, e)) == Insert(LeftStrip(s), e)
  {
    InsertFirst(s, e);
    if s != "" && IsSpace(s[0]) {
      InsertSkips(s[1..], e);
      assert Insert(s, e) == [s[0]] + Insert(s[1..], e);
      assert Insert(s, e)[1..] == Insert(s[1..], e);
    }
  }

  lemma {:induction false} InsertKeepsWord(w: string, x: string, e: string)
    requires '[' !in w
    ensures w <= Insert(x, e) <==> w <= x
    ensures w <= x ==> Insert(x, e) == w + Insert(x[|w|..], e)
  {
    InsertFirst(x, e);
    if w == "" {
      assert x[0..] == x && "" + Insert(x, e) == Insert(x, e);
    } else if x != "" {
      assert w[0] in w && w == [w[0]] + w[1..];
      if w[0] == x[0] {
        assert Insert(x, e) == [x[0]] + Insert(x[1..], e);
        assert Insert(x, e)[1..] == Insert(x[1..], e);
        InsertKeepsWord(w[1..], x[1..], e);
        assert w <= x <==> w[1..] <= x[1..];
        if w <= x {
          assert x[1..][|w[1..]|..] == x[|w|..];
        }
      }
    }
  }

  lemma InsertKeepsDirectives(s: string, e: string)
    ensures IsDirective(Insert(s, e)) <==> IsDirective(s)
  {
    var x := LeftStrip(s);
    InsertSkips(s, e);
    InsertKeepsWord(KEY, x, e);
    if KEY <= x {
      assert Insert(x, e)[|KEY|..] == Insert(x[|KEY|..], e);
      InsertSkips(x[|KEY|..], e);
      InsertFirst(LeftStrip(x[|KEY|..]), e);
    }
  }

  lemma InsertAtHeader(t: string, e: string)
    ensures Insert(PEER_LINE + t, e) == PEER_LINE + (e + "\n" + Insert(t, e))
  {
    assert (PEER_LINE + t)[|PEER_LINE|..] == t;
  }

  /** A rewrite walks over the header line, and replaces a directive line behind it. */
  lemma WalkHeader(e: string, rest: string, bol: bool, e2: string)
    requires DirectiveLine(e)
    ensures Rewrite(PEER_LINE + (e + "\n" + rest), bol, e2) == PEER_LINE + (e2 + "\n" + Rewrite(rest, true, e2))
    ensures HasDirective(PEER_LINE + (e + "\n" + rest), bol)
  {
    var tail := e + "\n" + rest;
    assert PEER_LINE + tail == PEER + "\n" + tail;
    WalkLine(PEER, tail, bol, e2);
    WalkDirective(e, rest, e2);
  }

  lemma HeaderHidesNothing(t: string, bol: bool)
    ensures HasDirective(PEER_LINE + t, bol) == HasDirective(t, true)
  {
    assert PEER_LINE + t == PEER + "\n" + t;
    WalkLine(PEER, t, bol, "");
  }

  lemma {:induction false} RewriteInsert(s: string, bol: bool, e: string, e2: string)
    requires DirectiveLine(e) && !HasDirective(s, bol)
    ensures Rewrite(Insert(s, e), bol, e2) == Insert(s, e2)
    ensures HasDirective(Insert(s, e), bol) <==> Occurs(PEER_LINE, s)
    decreases |s|
  {
    if PEER_LINE <= s {
      var t := s[|PEER_LINE|..];
      assert s == PEER_LINE + t;
      HeaderHidesNothing(t, bol);
      RewriteInsert(t, true, e, e2);
      InsertAtHeader(t, e);
      InsertAtHeader(t, e2);
      WalkHeader(e, Insert(t, e), bol, e2);
    } else if s != "" {
      InsertElsewhere(s, bol, e, e2);
      RewriteInsert(s[1..], s[0] == '\n', e, e2);
    }
  }

  lemma InsertElsewhere(s: string, bol: bool, e: string, e2: string)
    requires s != "" && !(PEER_LINE <= s) && !HasDirective(s, bol)
    ensures Insert(s, e) == [s[0]] + Insert(s[1..], e)
    ensures Rewrite(Insert(s, e), bol, e2) == [s[0]] + Rewrite(Insert(s[1..], e), s[0] == '\n', e2)
    ensures HasDirective(Insert(s, e), bol) == HasDirective(Insert(s[1..], e), s[0] == '\n')
  {
    var u := Insert(s[1..], e);
    assert Insert(s, e) == [s[0]] + u && Insert(s, e)[1..] == u;
    InsertKeepsDirectives(s, e);
  }

  // ---------- appending a section ----------

  lemma SectionHasNoDirectiveInFront(e: string)
    ensures LeftStrip(Section(e)) == PEER_LINE + e + "\n"
  {
    assert Section(e)[1..] == PEER_LINE + e + "\n";
    StripStep(Section(e));
    StripStops(Section(e)[1..]);
  }

  lemma {:induction false} StripAppend(s: string, e: string)
    ensures LeftStrip(s + Section(e)) == if LeftStrip(s) == "" then LeftStrip(Section(e)) else LeftStrip(s) + Section(e)
  {
    if s == "" {
      assert s + Section(e) == Section(e);
    } else {
      assert (s + Section(e))[1..] == s[1..] + Section(e);
      if IsSpace(s[0]) {
        StripAppend(s[1..], e);
      }
    }
  }

  /** A word without newline is no longer a prefix for what follows a newline. */
  lemma WordBefore(w: string, x: string, z: string)
    requires '\n' !in w && z != "" && z[0] == '\n'
    ensures w <= x + z <==> w <= x
    ensures w <= x ==> (x + z)[|w|..] == x[|w|..] + z
  {
    if |x| < |w| {
      SeparatorStopsPrefix(w, x, '\n', z[1..]);
      assert x + z == x + ['\n'] + z[1..];
    } else {
      assert (x + z)[..|w|] == x[..|w|];
    }
  }

  /** Appending a section makes no directive out of what was none. */
  lemma AppendKeepsDirectives(s: string, e: string)
    requires !IsDirective(s)
    ensures !IsDirective(s + Section(e))
  {
    var z := Section(e);
    var x, y := LeftStrip(s), LeftStrip(s + z);
    StripAppend(s, e);
    SectionHasNoDirectiveInFront(e);
    if x == "" {
      assert y[0] == '[';
      NotDirectiveByFirst(s + z);
    } else {
      WordBefore(KEY, x, z);
      if KEY <= x {
        StripAppend(x[|KEY|..], e);
      }
    }
  }

  lemma WalkSection(bol: bool, e: string, e2: string)
    requires DirectiveLine(e)
    ensures Rewrite(Section(e), bol, e2) == Section(e2)
    ensures HasDirective(Section(e), bol)
  {
    var rest := PEER_LINE + (e + "\n" + "");
    assert Section(e) == "\n" + rest;
    WalkEmptyLine(rest, bol, e2);
    WalkHeader(e, "", true, e2);
    assert Section(e2) == "\n" + (PEER_LINE + (e2 + "\n" + ""));
  }

  lemma {:induction false} RewriteAppended(s: string, bol: bool, e: string, e2: string)
    requires DirectiveLine(e) && !HasDirective(s, bol)
    ensures Rewrite(s + Section(e), bol, e2) == s + Section(e2)
    ensures HasDirective(s + Section(e), bol)
    decreases |s|
  {
    if s == "" {
      assert s + Section(e) == Section(e) && s + Section(e2) == Section(e2);
      WalkSection(bol, e, e2);
    } else {
      var u := s + Section(e);
      assert u[1..] == s[1..] + Section(e) && u[0] == s[0];
      if bol {
        AppendKeepsDirectives(s, e);
      }
      RewriteAppended(s[1..], s[0] == '\n', e, e2);
      assert s + Section(e2) == [s[0]] + (s[1..] + Section(e2));
    }
  }
}
