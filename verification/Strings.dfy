/**
 The string operations the codecs are written with, as Python defines them.
 */
module Strings {
  /** str.isspace for one character, which is also what \s matches. */
  predicate IsSpace(c: char) {
    var n := c as int;
    || 9 <= n <= 13 || 28 <= n <= 32 || n == 0x85 || n == 0xA0 || n == 0x1680
    || 0x2000 <= n <= 0x200A || n == 0x2028 || n == 0x2029 || n == 0x202F || n == 0x205F || n == 0x3000
  }

  /** Among ASCII characters these are tab to carriage return, the four separators, and the
      blank. */
  lemma AsciiSpaces(c: char)
    requires c as int < 128
    ensures IsSpace(c) <==> c as int in {9, 10, 11, 12, 13, 28, 29, 30, 31, 32}
  {
  }

  function Join(parts: seq<string>, sep: string): string {
    if parts == [] then ""
    else if |parts| == 1 then parts[0]
    else parts[0] + sep + Join(parts[1..], sep)
  }

  function Split(s: string, sep: char): (parts: seq<string>)
    ensures parts != []
  {
    if s == "" then [""]
    else
      var rest := Split(s[1..], sep);
      if s[0] == sep then [""] + rest else [[s[0]] + rest[0]] + rest[1..]
  }

  /** str.replace: left to right, without overlaps. */
  function ReplaceAll(s: string, pattern: string, substitute: string): string
    requires pattern != ""
    decreases |s|
  {
    if s == "" then ""
    else if pattern <= s then substitute + ReplaceAll(s[|pattern|..], pattern, substitute)
    else [s[0]] + ReplaceAll(s[1..], pattern, substitute)
  }

  predicate Occurs(pattern: string, s: string) {
    pattern <= s || (s != "" && Occurs(pattern, s[1..]))
  }

  function LeftStrip(s: string): string {
    if s != "" && IsSpace(s[0]) then LeftStrip(s[1..]) else s
  }

  function RightStrip(s: string): string {
    if s != "" && IsSpace(s[|s| - 1]) then RightStrip(s[..|s| - 1]) else s
  }

  function Strip(s: string): string {
    RightStrip(LeftStrip(s))
  }

  predicate Trimmed(s: string) {
    s != "" ==> !IsSpace(s[0]) && !IsSpace(s[|s| - 1])
  }

  // ---------- strip ----------

  lemma {:induction false} LeftStripIsSuffix(s: string)
    ensures exists k :: 0 <= k <= |s| && LeftStrip(s) == s[k..]
    ensures LeftStrip(s) != "" ==> !IsSpace(LeftStrip(s)[0])
  {
    if s != "" && IsSpace(s[0]) {
      LeftStripIsSuffix(s[1..]);
      var k :| 0 <= k <= |s[1..]| && LeftStrip(s[1..]) == s[1..][k..];
      assert LeftStrip(s) == s[k + 1..];
    } else {
      assert LeftStrip(s) == s[0..];
    }
  }

  lemma {:induction false} RightStripIsPrefix(s: string)
    ensures exists k :: 0 <= k <= |s| && RightStrip(s) == s[..k]
    ensures RightStrip(s) != "" ==> !IsSpace(RightStrip(s)[|RightStrip(s)| - 1])
  {
    if s != "" && IsSpace(s[|s| - 1]) {
      RightStripIsPrefix(s[..|s| - 1]);
      var k :| 0 <= k <= |s[..|s| - 1]| && RightStrip(s[..|s| - 1]) == s[..|s| - 1][..k];
      assert RightStrip(s) == s[..k];
    } else {
      assert RightStrip(s) == s[..|s|];
    }
  }

  lemma StripTrims(s: string)
    ensures Trimmed(Strip(s)) && |Strip(s)| <= |s|
    ensures forall c <- Strip(s) :: c in s
    ensures Trimmed(s) ==> Strip(s) == s
  {
    LeftStripIsSuffix(s);
    RightStripIsPrefix(LeftStrip(s));
  }

  // ---------- split and join ----------

  lemma {:induction false} SplitWithoutSeparator(s: string, sep: char)
    requires sep !in s
    ensures Split(s, sep) == [s]
  {
    if s != "" {
      assert s[0] in s && s == [s[0]] + s[1..];
      SplitWithoutSeparator(s[1..], sep);
    }
  }

  lemma {:induction false} SplitAtSeparator(a: string, b: string, sep: char)
    requires sep !in a
    ensures Split(a + [sep] + b, sep) == [a] + Split(b, sep)
  {
    var s := a + [sep] + b;
    if a == "" {
      assert s[1..] == b;
    } else {
      assert s[1..] == a[1..] + [sep] + b;
      SplitAtSeparator(a[1..], b, sep);
      assert a[0] in a && a == [a[0]] + a[1..];
      assert ([a[1..]] + Split(b, sep))[1..] == Split(b, sep);
    }
  }

  lemma {:induction false} SplitJoin(parts: seq<string>, sep: char)
    requires parts != [] && forall p <- parts :: sep !in p
    ensures Split(Join(parts, [sep]), sep) == parts
  {
    if |parts| == 1 {
      SplitWithoutSeparator(parts[0], sep);
    } else {
      SplitAtSeparator(parts[0], Join(parts[1..], [sep]), sep);
      SplitJoin(parts[1..], sep);
    }
  }

  lemma {:induction false} JoinSplit(s: string, sep: char)
    ensures Join(Split(s, sep), [sep]) == s
    ensures forall p <- Split(s, sep) :: sep !in p
  {
    if s != "" {
      JoinSplit(s[1..], sep);
      var rest := Split(s[1..], sep);
      if s[0] == sep {
        assert ([""] + rest)[1..] == rest;
      } else {
        var parts := [[s[0]] + rest[0]] + rest[1..];
        assert parts[1..] == rest[1..];
        assert rest == [rest[0]] + rest[1..];
      }
    }
  }

  // ---------- replace ----------

  lemma {:induction false} ReplaceNothing(s: string, pattern: string, substitute: string)
    requires pattern != "" && !Occurs(pattern, s)
    ensures ReplaceAll(s, pattern, substitute) == s
  {
    if s != "" {
      ReplaceNothing(s[1..], pattern, substitute);
    }
  }

  /** Deleting a pattern that occurs shortens the text by at least its length. */
  lemma {:induction false} DeletionShortens(s: string, pattern: string)
    requires pattern != ""
    ensures |ReplaceAll(s, pattern, "")| <= |s|
    ensures Occurs(pattern, s) ==> |ReplaceAll(s, pattern, "")| <= |s| - |pattern|
    decreases |s|
  {
    if s != "" {
      if pattern <= s {
        DeletionShortens(s[|pattern|..], pattern);
      } else {
        DeletionShortens(s[1..], pattern);
      }
    }
  }

  /** A longer pattern without the separator is no prefix. */
  lemma SeparatorStopsPrefix(pattern: string, a: string, sep: char, b: string)
    requires sep !in pattern && |a| < |pattern|
    ensures !(pattern <= a + [sep] + b)
  {
    assert pattern[|a|] in pattern;
    assert (a + [sep] + b)[|a|] == sep;
  }

  /** A pattern without the separator does not straddle it. */
  lemma {:induction false} OccursAcross(pattern: string, a: string, sep: char, b: string)
    requires pattern != "" && sep !in pattern
    ensures Occurs(pattern, a + [sep] + b) <==> Occurs(pattern, a) || Occurs(pattern, b)
  {
    var s := a + [sep] + b;
    if a == "" {
      assert s[1..] == b && s[0] == sep && pattern[0] in pattern;
    } else {
      assert s[1..] == a[1..] + [sep] + b;
      OccursAcross(pattern, a[1..], sep, b);
      if |a| < |pattern| {
        SeparatorStopsPrefix(pattern, a, sep, b);
      } else {
        assert s[..|pattern|] == a[..|pattern|];
      }
    }
  }

  lemma {:induction false} OccursInJoin(pattern: string, parts: seq<string>, sep: char)
    requires pattern != "" && sep !in pattern && parts != []
    ensures Occurs(pattern, Join(parts, [sep])) <==> exists p <- parts :: Occurs(pattern, p)
  {
    if |parts| > 1 {
      OccursAcross(pattern, parts[0], sep, Join(parts[1..], [sep]));
      OccursInJoin(pattern, parts[1..], sep);
      assert parts == [parts[0]] + parts[1..];
    }
  }
}
