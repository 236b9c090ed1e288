/**
 Text-mode file reading: universal newlines turn "\r\n" and a lone "\r" into "\n".
 Writing leaves the text as it is, as on any POSIX system.
 */
module TextFiles {
  import opened Strings

  type Byte = b: int | 0 <= b < 256

  /** What a file holds: text encoded in UTF-8, or bytes that are no UTF-8. Reading the
      latter in text mode raises. */
  datatype Content = Utf8(text: string) | Undecodable(bytes: seq<Byte>)

  function ReadText(raw: string): string {
    if raw == "" then ""
    else if raw[0] != '\r' then [raw[0]] + ReadText(raw[1..])
    else if |raw| > 1 && raw[1] == '\n' then "\n" + ReadText(raw[2..])
    else "\n" + ReadText(raw[1..])
  }

  lemma {:induction false} ReadTextHasNoCarriageReturn(raw: string)
    ensures '\r' !in ReadText(raw)
    decreases |raw|
  {
    if raw != "" {
      ReadTextHasNoCarriageReturn(raw[1..]);
      if |raw| > 1 {
        ReadTextHasNoCarriageReturn(raw[2..]);
      }
    }
  }

  lemma {:induction false} ReadTextKeeps(raw: string)
    requires '\r' !in raw
    ensures ReadText(raw) == raw
  {
    if raw != "" {
      assert raw == [raw[0]] + raw[1..];
      ReadTextKeeps(raw[1..]);
    }
  }

  /** A file reads back as it is exactly when it holds no carriage return. */
  lemma ReadTextFaithful(raw: string)
    ensures ReadText(raw) == raw <==> '\r' !in raw
  {
    ReadTextHasNoCarriageReturn(raw);
    if '\r' !in raw {
      ReadTextKeeps(raw);
    }
  }

  lemma ReplaceStep(c: char, rest: string, pattern: string, substitute: string)
    requires pattern != "" && !(pattern <= [c] + rest)
    ensures ReplaceAll([c] + rest, pattern, substitute) == [c] + ReplaceAll(rest, pattern, substitute)
  {
    assert ([c] + rest)[1..] == rest;
  }

  lemma ReplaceHit(pattern: string, rest: string, substitute: string)
    requires pattern != ""
    ensures ReplaceAll(pattern + rest, pattern, substitute) == substitute + ReplaceAll(rest, pattern, substitute)
  {
    assert (pattern + rest)[|pattern|..] == rest;
  }

  /** Reading is first replacing "\r\n" and then every "\r" that is left. */
  lemma {:induction false} ReadTextReplaces(raw: string)
    ensures ReadText(raw) == ReplaceAll(ReplaceAll(raw, "\r\n", "\n"), "\r", "\n")
    decreases |raw|
  {
    if raw != "" {
      var c, rest := raw[0], raw[1..];
      assert raw == [c] + rest;
      if "\r\n" <= raw {
        var after := raw[2..];
        ReadTextReplaces(after);
        assert raw == "\r\n" + after && raw[0] == '\r' && raw[1] == '\n';
        ReplaceHit("\r\n", after, "\n");
        ReplaceStep('\n', ReplaceAll(after, "\r\n", "\n"), "\r", "\n");
      } else {
        ReadTextReplaces(rest);
        ReplaceStep(c, rest, "\r\n", "\n");
        var replaced := ReplaceAll(rest, "\r\n", "\n");
        if c == '\r' {
          assert |raw| > 1 ==> raw[..2] == [raw[0], raw[1]];
          assert [c] + replaced == "\r" + replaced;
          ReplaceHit("\r", replaced, "\n");
        } else {
          ReplaceStep(c, replaced, "\r", "\n");
        }
      }
    }
  }
}
