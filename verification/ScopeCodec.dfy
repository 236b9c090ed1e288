/**
 Plugin scopes travel inside a certificate as one URI subject alternative name
 (section 4.2.1.6 of RFC 5280): a marker followed by a comma-separated list. Names are
 IA5 strings: a name with another character raises.
 */
module ScopeCodec {
  import opened Strings
  import opened Wrappers

  const MARKER := "roostos:scopes:"
  const NO_SCOPES := "none"

  datatype GeneralName = DnsName(name: string) | Uri(uri: string)

  function Encode(scopes: seq<string>): string {
    MARKER + (if scopes == [] then NO_SCOPES else Join(scopes, ","))
  }

  predicate Ascii(s: string) {
    forall c <- s :: c as int < 128
  }

  /** The URI put into the certificate, None if it raises. */
  function ScopeUri(scopes: seq<string>): Option<string> {
    if Ascii(Encode(scopes)) then Some(Encode(scopes)) else None
  }

  /** The comprehension: strip every part, drop the empty ones and "none". */
  function KeepScopes(parts: seq<string>): seq<string> {
    if parts == [] then []
    else
      var scope, rest := Strip(parts[0]), KeepScopes(parts[1..]);
      if scope != "" && scope != NO_SCOPES then [scope] + rest else rest
  }

  function Decode(uri: string): seq<string> {
    KeepScopes(Split(ReplaceAll(uri, MARKER, ""), ','))
  }

  /** Apart from its alphabet, what the two string transformations need of a scope. */
  predicate Separable(scope: string) {
    ',' !in scope && Trimmed(scope) && scope != "" && scope != NO_SCOPES && !Occurs(MARKER, scope)
  }

  predicate Transmissible(scope: string) {
    Ascii(scope) && Separable(scope)
  }

  // ---------- round trip ----------

  lemma {:induction false} KeepSeparable(scopes: seq<string>)
    requires forall s <- scopes :: Separable(s)
    ensures KeepScopes(scopes) == scopes
  {
    if scopes != [] {
      assert scopes[0] in scopes && scopes == [scopes[0]] + scopes[1..];
      StripTrims(scopes[0]);
      KeepSeparable(scopes[1..]);
    }
  }

  lemma {:induction false} KeptScopes(parts: seq<string>)
    requires forall p <- parts :: ',' !in p
    ensures forall s <- KeepScopes(parts) :: ',' !in s && Trimmed(s) && s != "" && s != NO_SCOPES
    ensures |Join(KeepScopes(parts), ",")| <= |Join(parts, ",")|
  {
    if parts != [] {
      StripTrims(parts[0]);
      KeptScopes(parts[1..]);
      var scope, rest := Strip(parts[0]), KeepScopes(parts[1..]);
      if scope != "" && scope != NO_SCOPES {
        assert ([scope] + rest)[1..] == rest;
        assert parts[1..] == [] ==> rest == [];
      }
    }
  }

  lemma MarkerRemoved(body: string)
    ensures ReplaceAll(MARKER + body, MARKER, "") == ReplaceAll(body, MARKER, "")
  {
    assert (MARKER + body)[|MARKER|..] == body;
    assert "" + ReplaceAll(body, MARKER, "") == ReplaceAll(body, MARKER, "");
  }

  lemma NoneIsDropped(parts: seq<string>)
    requires parts == [NO_SCOPES]
    ensures KeepScopes(parts) == []
  {
    assert Trimmed(NO_SCOPES);
    StripTrims(NO_SCOPES);
    assert parts[1..] == [];
  }

  lemma NoneHoldsNoMarker(s: string)
    requires s == NO_SCOPES
    ensures ReplaceAll(s, MARKER, "") == s && Split(s, ',') == [s]
  {
    assert |s| == 4 && |MARKER| == 15;
    NotLongEnough(MARKER, s);
    ReplaceNothing(s, MARKER, "");
    SplitWithoutSeparator(s, ',');
  }

  lemma EmptyListTravels()
    ensures Decode(Encode([])) == []
  {
    MarkerRemoved(NO_SCOPES);
    NoneHoldsNoMarker(NO_SCOPES);
    NoneIsDropped([NO_SCOPES]);
  }

  lemma {:induction false} NotLongEnough(pattern: string, s: string)
    requires |s| < |pattern|
    ensures !Occurs(pattern, s)
  {
    if s != "" {
      NotLongEnough(pattern, s[1..]);
    }
  }

  lemma DecodeEncodeExactly(scopes: seq<string>)
    ensures Decode(Encode(scopes)) == scopes <==> forall s <- scopes :: Separable(s)
  {
    if scopes == [] {
      EmptyListTravels();
    } else {
      var body := Join(scopes, ",");
      var sent := ReplaceAll(body, MARKER, "");
      MarkerRemoved(body);
      OccursInJoin(MARKER, scopes, ',');
      if forall s <- scopes :: Separable(s) {
        ReplaceNothing(body, MARKER, "");
        SplitJoin(scopes, ',');
        KeepSeparable(scopes);
      }
      if Decode(Encode(scopes)) == scopes {
        JoinSplit(sent, ',');
        KeptScopes(Split(sent, ','));
        DeletionShortens(body, MARKER);
      }
    }
  }

  lemma {:induction false} AsciiJoin(parts: seq<string>)
    ensures Ascii(Join(parts, ",")) <==> forall s <- parts :: Ascii(s)
  {
    if |parts| == 1 {
      assert parts == [parts[0]];
    } else if |parts| > 1 {
      AsciiJoin(parts[1..]);
      AsciiConcat(parts[0], "," + Join(parts[1..], ","));
      AsciiConcat(",", Join(parts[1..], ","));
      assert Join(parts, ",") == parts[0] + ("," + Join(parts[1..], ","));
      assert parts == [parts[0]] + parts[1..];
    }
  }

  lemma AsciiConcat(a: string, b: string)
    ensures Ascii(a + b) <==> Ascii(a) && Ascii(b)
  {
    assert forall c :: c in a + b <==> c in a || c in b;
  }

  lemma EncodesExactly(scopes: seq<string>)
    ensures ScopeUri(scopes).Some? <==> forall s <- scopes :: Ascii(s)
  {
    assert Ascii(MARKER) && Ascii(NO_SCOPES);
    AsciiJoin(scopes);
    AsciiConcat(MARKER, if scopes == [] then NO_SCOPES else Join(scopes, ","));
  }

  /** A failing input: a scope with an accented letter raises. */
  lemma NonAsciiScopeRaises()
    ensures ScopeUri(["caf\U{E9}"]) == None
  {
    var scope := "caf\U{E9}";
    assert scope[3] in scope && scope[3] as int == 0xE9;
    assert !Ascii(scope) && [scope][0] == scope;
    EncodesExactly([scope]);
  }

  /** A list of scopes survives the certificate exactly when every scope is ASCII, free of
      commas and of the marker, has no surrounding space, is not empty and is not "none". The
      empty list always does. */
  lemma RoundTripExactly(scopes: seq<string>)
    ensures ScopeUri(scopes).Some? && Decode(ScopeUri(scopes).value) == scopes <==>
            forall s <- scopes :: Transmissible(s)
  {
    EncodesExactly(scopes);
    DecodeEncodeExactly(scopes);
  }

  /** What the URI looks like. */
  lemma UriText(first: string, second: string)
    ensures Encode([]) == "roostos:scopes:" + "none"
    ensures Encode([first]) == "roostos:scopes:" + first
    ensures Encode([first, second]) == "roostos:scopes:" + (first + "," + second)
  {
    var pair := [first, second];
    assert pair[1..] == [second] && Join(pair[1..], ",") == second;
    assert Join(pair, ",") == first + "," + second;
  }

  // ---------- the certificate ----------

  /** The scopes found in a certificate's names: the last marked URI decides. */
  function ScopesIn(names: seq<GeneralName>): seq<string> {
    if names == [] then []
    else
      var last := names[|names| - 1];
      if last.Uri? && MARKER <= last.uri then Decode(last.uri) else ScopesIn(names[..|names| - 1])
  }

  /** None stands for the exception the first name with a non-ASCII character raises. */
  method SubjectAltNames(dnsNames: seq<string>, scopes: seq<string>) returns (answer: Option<seq<GeneralName>>)
    ensures answer.None? <==> ScopeUri(scopes).None? || exists n <- dnsNames :: !Ascii(n)
    ensures answer.Some? ==>
              var names := answer.value;
              && |names| == |dnsNames| + 1 && names[|dnsNames|] == Uri(Encode(scopes))
              && (forall i :: 0 <= i < |dnsNames| ==> names[i] == DnsName(dnsNames[i]))
              && ScopesIn(names) == Decode(Encode(scopes))
  {
    var names: seq<GeneralName> := [];
    for k := 0 to |dnsNames|
      invariant |names| == k && forall i :: 0 <= i < k ==> names[i] == DnsName(dnsNames[i]) && Ascii(dnsNames[i])
    {
      if !Ascii(dnsNames[k]) {
        return None;
      }
      names := names + [DnsName(dnsNames[k])];
    }
    if !Ascii(Encode(scopes)) {
      return None;
    }
    names := names + [Uri(Encode(scopes))];
    assert MARKER <= Encode(scopes);
    return Some(names);
  }

  /** The verifying side's loop over the names. */
  method ExtractScopes(names: seq<GeneralName>) returns (scopes: seq<string>)
    ensures scopes == ScopesIn(names)
  {
    scopes := [];
    for k := 0 to |names|
      invariant scopes == ScopesIn(names[..k])
    {
      assert names[..k + 1][..k] == names[..k];
      if names[k].Uri? && MARKER <= names[k].uri {
        scopes := KeepScopes(Split(ReplaceAll(names[k].uri, MARKER, ""), ','));
      }
    }
    assert names[..|names|] == names;
  }
}
