/** The glob matcher read over characters, as its comment has it, against the UTF-8 bytes that it
    works on (`src/pattern.rs`). */
module Characters {
  import opened Wrappers
  import opened Pattern

  // ---- Characters and their bytes (RFC 3629, section 3) ----

  predicate Continues(b: char) { '\U{80}' <= b < '\U{C0}' }

  /** How many bytes the first one announces; 0 if it cannot be a first one. */
  function Width(first: char): nat {
    if first < '\U{80}' then 1
    else if first < '\U{C0}' then 0
    else if first < '\U{E0}' then 2
    else if first < '\U{F0}' then 3
    else if first < '\U{F8}' then 4
    else 0
  }

  predicate IsCharacter(c: string) {
    && c != ""
    && |c| == Width(c[0])
    && forall i :: 1 <= i < |c| ==> Continues(c[i])
  }

  /** One character: its bytes. */
  type Character = c: string | IsCharacter(c) witness "?"

  type Characters = seq<Character>

  function Bytes(chars: Characters): string {
    if chars == [] then "" else chars[0] + Bytes(chars[1..])
  }

  predicate Ascii(chars: Characters) {
    forall i :: 0 <= i < |chars| ==> |chars[i]| == 1
  }

  /** What the comment says a pattern means: `?` stands for one character. */
  predicate CharGlob(pat: Characters, text: Characters)
    decreases |pat| + |text|
  {
    if pat == [] then text == []
    else if pat[0] == "*" then CharGlob(pat[1..], text) || (text != [] && CharGlob(pat, text[1..]))
    else text != [] && (pat[0] == "?" || pat[0] == text[0]) && CharGlob(pat[1..], text[1..])
  }

  // ---- Bytes of characters ----

  lemma {:induction false} BytesConcat(a: Characters, b: Characters)
    ensures Bytes(a + b) == Bytes(a) + Bytes(b)
  {
    if a == [] {
      assert a + b == b;
    } else {
      assert (a + b)[1..] == a[1..] + b;
      BytesConcat(a[1..], b);
    }
  }

  /** A wildcard's byte occurs in no other character. */
  lemma WildcardAlone(c: Character, b: char)
    requires b == '*' || b == '?'
    ensures b in c <==> c == [b]
  {}

  lemma {:induction false} WildcardInBytes(chars: Characters, b: char)
    requires b == '*' || b == '?'
    ensures b in Bytes(chars) <==> [b] in chars
  {
    if chars != [] {
      WildcardAlone(chars[0], b);
      WildcardInBytes(chars[1..], b);
    }
  }

  lemma {:induction false} BytesCount(chars: Characters)
    ensures |Bytes(chars)| >= |chars|
    ensures |Bytes(chars)| == |chars| <==> Ascii(chars)
  {
    if chars != [] {
      BytesCount(chars[1..]);
      assert forall i {:trigger chars[i]} :: 1 <= i < |chars| ==> chars[i] == chars[1..][i - 1];
      assert Ascii(chars) ==> Ascii(chars[1..]);
    }
  }

  /** A literal stretch of a pattern is taken from the text byte by byte. */
  lemma {:induction false} LiteralTaken(same: string, pat: string, text: string)
    requires '*' !in same && '?' !in same && Glob(same + pat, text)
    ensures same <= text && Glob(pat, text[|same|..])
  {
    if same == "" {
      assert same + pat == pat;
    } else {
      assert (same + pat)[1..] == same[1..] + pat;
      LiteralTaken(same[1..], pat, text[1..]);
    }
  }

  // ---- Where bytes and characters come to the same ----

  /** A pattern asks for single characters nowhere, or the text has none longer than a byte. */
  predicate SameUnits(pat: Characters, text: Characters) {
    "?" !in pat || Ascii(text)
  }

  /** No match over the bytes can begin or end inside a character: only a star can take the bytes that
      an earlier star left of one. */
  lemma {:induction false} BytesToCharacters(pat: Characters, left: string, text: Characters)
    requires SameUnits(pat, text) && (forall i :: 0 <= i < |left| ==> Continues(left[i]))
    requires "?" in pat ==> left == ""
    requires Glob(Bytes(pat), left + Bytes(text))
    ensures left != "" ==> pat != [] && pat[0] == "*"
    ensures CharGlob(pat, text)
    decreases |pat| + |left| + |Bytes(text)|, 1
  {
    if pat != [] {
      if pat[0] == "*" {
        StarTakes(pat, left, text);
      } else {
        if pat[0] == "?" {
          SingleCharacter(pat, text);
        } else {
          LiteralCharacter(pat[0], Bytes(pat[1..]), left, text);
        }
        assert "" + Bytes(text[1..]) == Bytes(text[1..]);
        BytesToCharacters(pat[1..], "", text[1..]);
      }
    }
  }

  lemma {:induction false} StarTakes(pat: Characters, left: string, text: Characters)
    requires SameUnits(pat, text) && (forall i :: 0 <= i < |left| ==> Continues(left[i]))
    requires "?" in pat ==> left == ""
    requires pat != [] && pat[0] == "*" && Glob(Bytes(pat), left + Bytes(text))
    ensures CharGlob(pat, text)
    decreases |pat| + |left| + |Bytes(text)|, 0
  {
    var whole := left + Bytes(text);
    assert Bytes(pat)[1..] == Bytes(pat[1..]);
    if Glob(Bytes(pat[1..]), whole) {
      BytesToCharacters(pat[1..], left, text);
    } else if left != "" {
      assert whole[1..] == left[1..] + Bytes(text);
      BytesToCharacters(pat, left[1..], text);
    } else {
      assert whole[1..] == text[0][1..] + Bytes(text[1..]);
      BytesToCharacters(pat, text[0][1..], text[1..]);
    }
  }

  lemma SingleCharacter(pat: Characters, text: Characters)
    requires pat != [] && pat[0] == "?" && Ascii(text) && Glob(Bytes(pat), "" + Bytes(text))
    ensures text != [] && Glob(Bytes(pat[1..]), Bytes(text[1..]))
  {
    assert "" + Bytes(text) == Bytes(text);
    assert Bytes(pat)[1..] == Bytes(pat[1..]);
    assert Bytes(text)[1..] == Bytes(text[1..]);
  }

  /** A first byte tells how long its character is, so equal bytes are equal characters. */
  lemma LiteralCharacter(c: Character, rest: string, left: string, text: Characters)
    requires c != "*" && c != "?" && (forall i :: 0 <= i < |left| ==> Continues(left[i]))
    requires Glob(c + rest, left + Bytes(text))
    ensures left == "" && text != [] && text[0] == c && Glob(rest, Bytes(text[1..]))
  {
    var whole := left + Bytes(text);
    WildcardAlone(c, '*');
    WildcardAlone(c, '?');
    LiteralTaken(c, rest, whole);
    assert !Continues(whole[0]);
    assert left == "";
    assert whole == text[0] + Bytes(text[1..]);
    assert text[0] == whole[..|c|];
    assert whole[|c|..] == Bytes(text[1..]);
  }

  lemma {:induction false} CharactersToBytes(pat: Characters, text: Characters)
    requires SameUnits(pat, text) && CharGlob(pat, text)
    ensures Glob(Bytes(pat), Bytes(text))
    decreases |pat| + |text|
  {
    if pat != [] {
      if pat[0] == "*" {
        assert Bytes(pat)[1..] == Bytes(pat[1..]);
        if CharGlob(pat[1..], text) {
          CharactersToBytes(pat[1..], text);
        } else {
          CharactersToBytes(pat, text[1..]);
          assert Bytes(text)[|text[0]|..] == Bytes(text[1..]);
          assert Bytes(pat)[0..] == Bytes(pat) && Bytes(text)[0..] == Bytes(text);
          StarAbsorbs(Bytes(pat), 0, Bytes(text), 0, |text[0]|);
        }
      } else {
        CharactersToBytes(pat[1..], text[1..]);
        if pat[0] == text[0] {
          GlobSelf(pat[0], Bytes(pat[1..]), Bytes(text[1..]));
        } else {
          assert Bytes(pat)[1..] == Bytes(pat[1..]) && Bytes(text)[1..] == Bytes(text[1..]);
        }
      }
    }
  }

  predicate MatchesCharacters(pattern: Characters, value: Characters) {
    MatchesPattern(Bytes(pattern), Bytes(value))
  }

  /** The matcher decides what its comment says, unless both sides hold a `*`, or the pattern asks for
      single characters of a value in which some take several bytes. */
  lemma MatchIffCharGlob(pattern: Characters, value: Characters)
    requires "*" !in value || "*" !in pattern || pattern == ["*"]
    requires SameUnits(pattern, value)
    ensures MatchesCharacters(pattern, value) <==> CharGlob(pattern, value)
  {
    WildcardInBytes(pattern, '*');
    WildcardInBytes(value, '*');
    assert pattern == ["*"] ==> Bytes(pattern) == "*" + Bytes([]);
    MatchIffGlob(Bytes(pattern), Bytes(value));
    if Glob(Bytes(pattern), Bytes(value)) {
      assert "" + Bytes(value) == Bytes(value);
      BytesToCharacters(pattern, "", value);
    }
    if CharGlob(pattern, value) {
      CharactersToBytes(pattern, value);
    }
  }

  /** A pattern without stars matches only values with as many bytes as it has. */
  lemma StarlessLength(pattern: Characters, value: Characters)
    requires "*" !in pattern && MatchesCharacters(pattern, value)
    ensures |Bytes(value)| == |Bytes(pattern)|
  {
    var pat, text := Bytes(pattern), Bytes(value);
    WildcardInBytes(pattern, '*');
    MatchIsGlob(pat, text);
    assert pat[0..] == pat && text[0..] == text && pat[..|pat|] == pat;
    SegmentConsumes(pat, 0, |pat|, text, 0);
  }

  // ---- Values that every pattern decides as the comment says ----

  function SingleCharacters(n: nat): (pattern: Characters)
    ensures |pattern| == n && forall i :: 0 <= i < n ==> pattern[i] == "?"
  {
    seq(n, _ => "?")
  }

  lemma {:induction false} SingleCharactersMatch(value: Characters)
    ensures CharGlob(SingleCharacters(|value|), value)
  {
    if value != [] {
      SingleCharactersMatch(value[1..]);
      assert SingleCharacters(|value|)[1..] == SingleCharacters(|value[1..]|);
    }
  }

  lemma {:induction false} SingleCharactersBytes(n: nat)
    ensures Bytes(SingleCharacters(n)) == Questions(n)
  {
    if n > 0 {
      SingleCharactersBytes(n - 1);
      assert SingleCharacters(n)[1..] == SingleCharacters(n - 1);
      assert Questions(n) == "?" + Questions(n - 1);
    }
  }

  /** The pattern of `Pattern.MissedPattern`, written in characters. */
  lemma MissedByCharacters(value: Characters, i: nat) returns (pattern: Characters)
    requires Ascii(value) && i < |value| && value[i] == "*"
    ensures CharGlob(pattern, value) && !MatchesCharacters(pattern, value)
  {
    var before, behind := value[..i + 1], value[i + 1..];
    pattern := before + SingleCharacters(|value| - i);
    BytesConcat(before, SingleCharacters(|value| - i));
    SingleCharactersBytes(|value| - i);
    BytesConcat(before, behind);
    assert value == before + behind;
    BytesCount(value);
    BytesCount(before);
    BytesConcat(value[..i], ["*"]);
    assert before == value[..i] + ["*"];
    BytesCount(value[..i]);
    assert Bytes(["*"]) == "*" + Bytes([]);
    assert Bytes(value)[..i + 1] == Bytes(before);
    var missed := MissedPattern(Bytes(value), i);
    assert missed == Bytes(pattern);
    assert "" + Bytes(value) == Bytes(value);
    BytesToCharacters(pattern, "", value);
  }

  /** A value is decided as the comment says, by every pattern, iff each of its characters is a single
      byte and none is `*`. */
  lemma ValueCharactersIff(value: Characters)
    ensures (forall pattern: Characters :: MatchesCharacters(pattern, value) <==> CharGlob(pattern, value))
       <==> Ascii(value) && "*" !in value
  {
    if !Ascii(value) {
      var pattern := SingleCharacters(|value|);
      SingleCharactersMatch(value);
      BytesCount(value);
      BytesCount(pattern);
      if MatchesCharacters(pattern, value) {
        StarlessLength(pattern, value);
        assert false;
      }
      assert CharGlob(pattern, value) && !MatchesCharacters(pattern, value);
    } else if "*" in value {
      var i :| 0 <= i < |value| && value[i] == "*";
      var pattern := MissedByCharacters(value, i);
      assert CharGlob(pattern, value) && !MatchesCharacters(pattern, value);
    } else {
      forall pattern: Characters ensures MatchesCharacters(pattern, value) <==> CharGlob(pattern, value) {
        MatchIffCharGlob(pattern, value);
      }
    }
  }

  // ---- Patterns that decide every value as the comment says ----

  const WIDE: Character := "\U{C3}\U{A9}"

  /** The pattern itself, with a two-byte character wherever it asks for any. */
  function Widened(pattern: Characters): Characters {
    seq(|pattern|, i requires 0 <= i < |pattern| => if pattern[i] == "?" then WIDE else pattern[i])
  }

  lemma {:induction false} WidenedMatches(pattern: Characters)
    requires "*" !in pattern
    ensures CharGlob(pattern, Widened(pattern))
    ensures |Bytes(Widened(pattern))| >= |Bytes(pattern)|
    ensures "?" in pattern ==> |Bytes(Widened(pattern))| > |Bytes(pattern)|
  {
    if pattern != [] {
      assert Widened(pattern)[1..] == Widened(pattern[1..]);
      WidenedMatches(pattern[1..]);
    }
  }

  lemma {:induction false} CharGlobSelf(same: Characters, pat: Characters, text: Characters)
    requires CharGlob(pat, text)
    ensures CharGlob(same + pat, same + text)
  {
    if same == [] {
      assert same + pat == pat && same + text == text;
    } else {
      CharGlobSelf(same[1..], pat, text);
      assert (same + pat)[1..] == same[1..] + pat;
      assert (same + text)[1..] == same[1..] + text;
      if same[0] == "*" {
        assert CharGlob(same + pat, (same + text)[1..]);
      }
    }
  }

  lemma LastStarCharacter(pattern: Characters) returns (i: nat)
    requires "*" in pattern
    ensures i < |pattern| && pattern[i] == "*" && "*" !in pattern[i + 1..]
  {
    i :| i < |pattern| && pattern[i] == "*";
    while "*" in pattern[i + 1..]
      invariant i < |pattern| && pattern[i] == "*"
      decreases |pattern| - i
    {
      var k :| 0 <= k < |pattern| - i - 1 && pattern[i + 1..][k] == "*";
      i := i + 1 + k;
    }
  }

  /** The value of `Pattern.MissedValue`, written in characters. */
  lemma MissedForCharacters(pattern: Characters, i: nat) returns (value: Characters)
    requires i < |pattern| && pattern[i] == "*" && "*" !in pattern[i + 1..] && pattern != ["*"]
    ensures CharGlob(pattern, value) && !MatchesCharacters(pattern, value)
  {
    var before, tail := pattern[..i], pattern[i + 1..];
    value := before + (["*", "x"] + tail);
    assert pattern == before + (["*"] + tail);
    StarSkips(tail);
    CharGlobSelf(before, ["*"] + tail, ["*", "x"] + tail);
    BytesAround(before, tail);
    WildcardInBytes(tail, '*');
    LoneStarBytes(pattern);
    var missed := MissedValue(Bytes(pattern), |Bytes(before)|);
    assert missed == Bytes(value);
  }

  lemma BytesAround(before: Characters, tail: Characters)
    ensures var bytes, at := Bytes(before + (["*"] + tail)), |Bytes(before)|;
            && at < |bytes| && bytes[at] == '*' && bytes[at + 1..] == Bytes(tail)
            && Bytes(before + (["*", "x"] + tail)) == bytes[..at + 1] + "x" + bytes[at + 1..]
  {
    hide Bytes;
    BytesConcat(before, ["*"] + tail);
    BytesConcat(before, ["*", "x"] + tail);
    BytesConcat(["*"], tail);
    BytesConcat(["*", "x"], tail);
    StarBytes();
    var bytes := Bytes(before) + ("*" + Bytes(tail));
    assert bytes[..|Bytes(before)| + 1] == Bytes(before) + "*";
  }

  lemma StarBytes()
    ensures Bytes(["*"]) == "*" && Bytes(["*", "x"]) == "*x"
  {
    assert ["*", "x"][1..] == ["x"] && Bytes(["x"]) == "x";
  }

  lemma StarSkips(tail: Characters)
    ensures CharGlob(["*"] + tail, ["*", "x"] + tail)
  {
    var pat, text := ["*"] + tail, ["*", "x"] + tail;
    CharGlobSelf(tail, [], []);
    assert tail + [] == tail;
    assert pat[1..] == tail && text[1..][1..] == tail;
    assert CharGlob(pat, text[1..][1..]);
    assert CharGlob(pat, text[1..]);
  }

  lemma LoneStarBytes(pattern: Characters)
    ensures Bytes(pattern) == "*" ==> pattern == ["*"]
  {
    if Bytes(pattern) == "*" {
      BytesCount(pattern);
      assert pattern == [pattern[0]];
      WildcardAlone(pattern[0], '*');
    }
  }

  /** A pattern decides every value as the comment says iff it is `*` alone or holds no wildcard at all. */
  lemma PatternCharactersIff(pattern: Characters)
    ensures (forall value: Characters :: MatchesCharacters(pattern, value) <==> CharGlob(pattern, value))
       <==> pattern == ["*"] || ("*" !in pattern && "?" !in pattern)
  {
    if pattern == ["*"] || ("*" !in pattern && "?" !in pattern) {
      forall value: Characters ensures MatchesCharacters(pattern, value) <==> CharGlob(pattern, value) {
        MatchIffCharGlob(pattern, value);
      }
    } else if "*" in pattern {
      var i := LastStarCharacter(pattern);
      var value := MissedForCharacters(pattern, i);
      assert CharGlob(pattern, value) && !MatchesCharacters(pattern, value);
    } else {
      var value := Widened(pattern);
      WidenedMatches(pattern);
      if MatchesCharacters(pattern, value) {
        StarlessLength(pattern, value);
        assert false;
      }
      assert CharGlob(pattern, value) && !MatchesCharacters(pattern, value);
    }
  }
}
