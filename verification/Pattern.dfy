/** The glob matcher that decides routing and access control (`src/pattern.rs`).
    Strings are their UTF-8 bytes, one `char` for each byte: `?` consumes one byte. */
module Pattern {
  import opened Wrappers

  /** What a pattern means, by its own definition: `*` stands for any run of bytes,
      `?` for one byte, anything else for itself. */
  predicate Glob(pat: string, text: string)
    decreases |pat| + |text|
  {
    if pat == "" then text == ""
    else if pat[0] == '*' then Glob(pat[1..], text) || (text != "" && Glob(pat, text[1..]))
    else text != "" && (pat[0] == '?' || pat[0] == text[0]) && Glob(pat[1..], text[1..])
  }

  /** The state in which the matcher's loop remembers the last `*` it has taken as a wildcard. */
  ghost predicate ScanState(pat: string, text: string, pi: nat, ti: nat, star: Option<nat>, matchIdx: nat) {
    && pi <= |pat|
    && matchIdx <= ti <= |text|
    && (star.Some? ==> star.value < pi && pat[star.value] == '*')
  }

  predicate AllStars(pat: string) {
    forall i :: 0 <= i < |pat| ==> pat[i] == '*'
  }

  /** The matcher's loop as a function of its five variables. */
  predicate Scan(pat: string, text: string, pi: nat, ti: nat, star: Option<nat>, matchIdx: nat)
    requires ScanState(pat, text, pi, ti, star, matchIdx)
    decreases |text| - matchIdx, |pat| - pi
  {
    if ti == |text| then
      AllStars(pat[pi..])
    else if pi < |pat| && (pat[pi] == '?' || pat[pi] == text[ti]) then
      Scan(pat, text, pi + 1, ti + 1, star, matchIdx)
    else if pi < |pat| && pat[pi] == '*' then
      Scan(pat, text, pi + 1, ti, Some(pi), ti)
    else if star.Some? then
      Scan(pat, text, star.value + 1, matchIdx + 1, star, matchIdx + 1)
    else
      false
  }

  predicate SimpleMatches(pat: string, text: string) {
    Scan(pat, text, 0, 0, None, 0)
  }

  predicate MatchesPattern(pattern: string, value: string) {
    pattern == "*" || SimpleMatches(pattern, value)
  }

  /** The matcher as written: two loops over two cursors and one remembered star. `steps` counts
      the iterations of the first loop; (matchIdx, pi) grows lexicographically with each one. */
  method SimpleMatch(pat: string, text: string) returns (matched: bool, ghost steps: nat)
    ensures matched == SimpleMatches(pat, text)
    ensures matched ==> Glob(pat, text)
    ensures '*' !in text && Glob(pat, text) ==> matched
    ensures steps < (|text| + 1) * (|pat| + 1)
    ensures matched ==> |text| <= steps
  {
    ScanSound(pat, text, 0, 0, None, 0);
    if '*' !in text {
      ScanComplete(pat, text, 0, 0, None, 0);
    }
    assert pat[0..] == pat && text[0..] == text;
    var pi: nat, ti: nat := 0, 0;
    var star: Option<nat> := None;
    var matchIdx: nat := 0;
    steps := 0;
    while ti < |text|
      invariant ScanState(pat, text, pi, ti, star, matchIdx)
      invariant Scan(pat, text, pi, ti, star, matchIdx) == SimpleMatches(pat, text)
      invariant ti <= steps <= Rank(pat, matchIdx, pi)
      decreases |text| - matchIdx, |pat| - pi
    {
      RankGrows(pat, matchIdx, ti, pi, if star.Some? then star.value + 1 else 0);
      steps := steps + 1;
      if pi < |pat| && (pat[pi] == '?' || pat[pi] == text[ti]) {
        pi := pi + 1;
        ti := ti + 1;
      } else if pi < |pat| && pat[pi] == '*' {
        star := Some(pi);
        pi := pi + 1;
        matchIdx := ti;
      } else if star.Some? {
        pi := star.value + 1;
        matchIdx := matchIdx + 1;
        ti := matchIdx;
      } else {
        RankBound(pat, text, matchIdx + 1, 0);
        return false, steps;
      }
    }
    RankBound(pat, text, matchIdx, pi);
    ghost var rest := pi;
    while pi < |pat| && pat[pi] == '*'
      invariant rest <= pi <= |pat|
      invariant forall i :: rest <= i < pi ==> pat[i] == '*'
    {
      pi := pi + 1;
    }
    assert pi < |pat| ==> pat[rest..][pi - rest] != '*';
    matched := pi == |pat|;
  }

  ghost function Rank(pat: string, matchIdx: nat, pi: nat): nat {
    matchIdx * (|pat| + 1) + pi
  }

  lemma RankGrows(pat: string, matchIdx: nat, later: nat, pi: nat, back: nat)
    requires matchIdx <= later
    requires pi <= |pat|
    ensures Rank(pat, matchIdx, pi) < Rank(pat, later, pi + 1)
    ensures Rank(pat, matchIdx, pi) < Rank(pat, matchIdx + 1, back)
  {
    assert (later - matchIdx) * (|pat| + 1) >= 0;
    assert later * (|pat| + 1) == matchIdx * (|pat| + 1) + (later - matchIdx) * (|pat| + 1);
    assert (matchIdx + 1) * (|pat| + 1) == matchIdx * (|pat| + 1) + |pat| + 1;
  }

  lemma RankBound(pat: string, text: string, matchIdx: nat, pi: nat)
    requires matchIdx <= |text|
    requires pi <= |pat|
    ensures Rank(pat, matchIdx, pi) < (|text| + 1) * (|pat| + 1)
  {
    assert (|text| - matchIdx) * (|pat| + 1) >= 0;
    assert (|text| + 1) * (|pat| + 1)
        == matchIdx * (|pat| + 1) + (|text| - matchIdx) * (|pat| + 1) + |pat| + 1;
  }

  /** `Glob` unfolded once between two cursors. */
  lemma GlobAt(pat: string, pi: nat, text: string, ti: nat)
    requires pi <= |pat| && ti <= |text|
    ensures Glob(pat[pi..], text[ti..]) ==
            if pi == |pat| then ti == |text|
            else if pat[pi] == '*' then
              Glob(pat[pi + 1..], text[ti..]) || (ti < |text| && Glob(pat[pi..], text[ti + 1..]))
            else
              ti < |text| && (pat[pi] == '?' || pat[pi] == text[ti]) && Glob(pat[pi + 1..], text[ti + 1..])
  {
    if pi < |pat| {
      assert pat[pi..][1..] == pat[pi + 1..];
    }
    if ti < |text| {
      assert text[ti..][1..] == text[ti + 1..];
    }
  }

  lemma {:induction false} AllStarsMatchNothing(pat: string, pi: nat, text: string)
    requires pi <= |pat|
    ensures AllStars(pat[pi..]) <==> Glob(pat[pi..], text[|text|..])
    decreases |pat| - pi
  {
    GlobAt(pat, pi, text, |text|);
    if pi < |pat| {
      AllStarsMatchNothing(pat, pi + 1, text);
      assert pat[pi..] == [pat[pi]] + pat[pi + 1..];
      assert pat[pi..][0] == pat[pi];
      var rest := pat[pi..];
      assert forall i {:trigger rest[i]} :: 1 <= i < |rest| ==> rest[i] == pat[pi + 1..][i - 1];
      assert forall i {:trigger pat[pi + 1..][i]} :: 0 <= i < |rest| - 1 ==> pat[pi + 1..][i] == rest[i + 1];
    }
  }

  /** Where the loop can still get to: the rest of the pattern matches the rest of the text, or
      the remembered star may swallow at least one more byte. */
  ghost predicate Reachable(pat: string, text: string, pi: nat, ti: nat, star: Option<nat>, matchIdx: nat)
    requires ScanState(pat, text, pi, ti, star, matchIdx)
  {
    || Glob(pat[pi..], text[ti..])
    || (star.Some? && matchIdx < |text| && Glob(pat[star.value..], text[matchIdx + 1..]))
  }

  /** Soundness of the loop from any of its states, whatever the text holds. */
  lemma {:induction false} ScanSound(pat: string, text: string, pi: nat, ti: nat, star: Option<nat>, matchIdx: nat)
    requires ScanState(pat, text, pi, ti, star, matchIdx)
    ensures Scan(pat, text, pi, ti, star, matchIdx) ==> Reachable(pat, text, pi, ti, star, matchIdx)
    decreases |text| - matchIdx, |pat| - pi
  {
    GlobAt(pat, pi, text, ti);
    if ti == |text| {
      AllStarsMatchNothing(pat, pi, text);
    } else if pi < |pat| && (pat[pi] == '?' || pat[pi] == text[ti]) {
      ScanSound(pat, text, pi + 1, ti + 1, star, matchIdx);
      if pat[pi] == '*' {
        GlobAt(pat, pi, text, ti + 1);
      }
    } else if pi < |pat| && pat[pi] == '*' {
      ScanSound(pat, text, pi + 1, ti, Some(pi), ti);
    } else if star.Some? {
      ScanSound(pat, text, star.value + 1, matchIdx + 1, star, matchIdx + 1);
      GlobAt(pat, star.value, text, matchIdx + 1);
    }
  }

  /** A star keeps matching when bytes are put before the text. */
  lemma {:induction false} StarAbsorbs(pat: string, pi: nat, text: string, ti: nat, later: nat)
    requires pi < |pat| && pat[pi] == '*'
    requires ti <= later <= |text|
    requires Glob(pat[pi..], text[later..])
    ensures Glob(pat[pi..], text[ti..])
    decreases later - ti
  {
    if ti < later {
      StarAbsorbs(pat, pi, text, ti + 1, later);
      GlobAt(pat, pi, text, ti);
    }
  }

  /** A stretch of pattern without stars consumes exactly its own length. */
  lemma {:induction false} SegmentConsumes(pat: string, lo: nat, hi: nat, text: string, ti: nat)
    requires lo <= hi <= |pat| && ti <= |text|
    requires '*' !in pat[lo..hi]
    requires Glob(pat[lo..], text[ti..])
    ensures ti + hi - lo <= |text| && Glob(pat[hi..], text[ti + hi - lo..])
    decreases hi - lo
  {
    if lo < hi {
      GlobAt(pat, lo, text, ti);
      assert pat[lo] == pat[lo..hi][0];
      assert pat[lo + 1..hi] == pat[lo..hi][1..];
      SegmentConsumes(pat, lo + 1, hi, text, ti + 1);
    }
  }

  /** A match in which star `s` starts its tail at or after `ti` consumes the whole segment behind it. */
  lemma {:induction false} TailConsumes(pat: string, s: nat, hi: nat, text: string, ti: nat) returns (k: nat)
    requires s < hi <= |pat| && pat[s] == '*' && ti <= |text|
    requires '*' !in pat[s + 1..hi]
    requires Glob(pat[s..], text[ti..])
    ensures ti <= k && k + hi - s - 1 <= |text| && Glob(pat[hi..], text[k + hi - s - 1..])
    decreases |text| - ti
  {
    GlobAt(pat, s, text, ti);
    if Glob(pat[s + 1..], text[ti..]) {
      SegmentConsumes(pat, s + 1, hi, text, ti);
      k := ti;
    } else {
      k := TailConsumes(pat, s, hi, text, ti + 1);
    }
  }

  /** Forgetting every star but the last is safe as long as no `*` of the text has been taken for
      one of the pattern: completeness of the loop from any state whose current segment is free of stars. */
  lemma {:induction false} ScanComplete(pat: string, text: string, pi: nat, ti: nat, star: Option<nat>, matchIdx: nat)
    requires ScanState(pat, text, pi, ti, star, matchIdx)
    requires '*' !in text || '*' !in pat
    requires star.Some? ==> pi - star.value - 1 == ti - matchIdx && '*' !in pat[star.value + 1..pi]
    ensures Reachable(pat, text, pi, ti, star, matchIdx) ==> Scan(pat, text, pi, ti, star, matchIdx)
    decreases |text| - matchIdx, |pat| - pi
  {
    hide Glob;
    GlobAt(pat, pi, text, ti);
    if star.Some? && matchIdx < |text| && Glob(pat[star.value..], text[matchIdx + 1..]) {
      var k := TailConsumes(pat, star.value, pi, text, matchIdx + 1);
      if pi < |pat| && pat[pi] == '*' {
        StarAbsorbs(pat, pi, text, ti, k + pi - star.value - 1);
      }
    }
    if ti == |text| {
      AllStarsMatchNothing(pat, pi, text);
    } else if pi < |pat| && (pat[pi] == '?' || pat[pi] == text[ti]) {
      assert pat[pi] != '*';
      assert star.Some? ==> pat[star.value + 1..pi + 1] == pat[star.value + 1..pi] + [pat[pi]];
      ScanComplete(pat, text, pi + 1, ti + 1, star, matchIdx);
    } else if pi < |pat| && pat[pi] == '*' {
      ScanComplete(pat, text, pi + 1, ti, Some(pi), ti);
    } else if star.Some? {
      ScanComplete(pat, text, star.value + 1, matchIdx + 1, star, matchIdx + 1);
      GlobAt(pat, star.value, text, matchIdx + 1);
    }
  }

  /** Whatever the pattern and the value: a reported match is a match. */
  lemma MatchIsGlob(pattern: string, value: string)
    requires MatchesPattern(pattern, value)
    ensures Glob(pattern, value)
  {
    assert pattern[0..] == pattern && value[0..] == value;
    if pattern == "*" {
      LoneStar(value);
    } else {
      ScanSound(pattern, value, 0, 0, None, 0);
    }
  }

  lemma {:induction false} LoneStar(value: string)
    ensures Glob("*", value)
  {
    assert "*"[1..] == "";
    if value != "" {
      LoneStar(value[1..]);
    }
  }

  /** The matcher decides exactly the glob language unless both sides hold a `*`. */
  lemma MatchIffGlob(pattern: string, value: string)
    requires '*' !in value || '*' !in pattern || pattern == "*"
    ensures MatchesPattern(pattern, value) <==> Glob(pattern, value)
  {
    assert pattern[0..] == pattern && value[0..] == value;
    if pattern == "*" {
      LoneStar(value);
    } else {
      ScanSound(pattern, value, 0, 0, None, 0);
      ScanComplete(pattern, value, 0, 0, None, 0);
    }
  }

  // ---- Where the matcher is exact: both conditions are as weak as they can be ----

  /** A value is matched exactly by every pattern iff it holds no `*`. */
  lemma ValueExactIff(value: string)
    ensures (forall pattern :: MatchesPattern(pattern, value) <==> Glob(pattern, value)) <==> '*' !in value
  {
    if '*' !in value {
      forall pattern ensures MatchesPattern(pattern, value) <==> Glob(pattern, value) {
        MatchIffGlob(pattern, value);
      }
    } else {
      var i :| 0 <= i < |value| && value[i] == '*';
      var missed := MissedPattern(value, i);
      assert Glob(missed, value) && !MatchesPattern(missed, value);
    }
  }

  /** A pattern matches every value exactly iff it holds no `*` or is `*` alone. */
  lemma PatternExactIff(pattern: string)
    ensures (forall value :: MatchesPattern(pattern, value) <==> Glob(pattern, value))
       <==> '*' !in pattern || pattern == "*"
  {
    if '*' !in pattern || pattern == "*" {
      forall value ensures MatchesPattern(pattern, value) <==> Glob(pattern, value) {
        MatchIffGlob(pattern, value);
      }
    } else {
      var i := LastStar(pattern);
      var missed := MissedValue(pattern, i);
      assert Glob(pattern, missed) && !MatchesPattern(pattern, missed);
    }
  }

  // ---- Exactly what prefix patterns match, stars in the value included ----

  /** The bytes of a pattern without stars, against as many bytes of a value. */
  predicate Literally(pat: string, text: string) {
    |pat| == |text| && forall i :: 0 <= i < |pat| ==> pat[i] == '?' || pat[i] == text[i]
  }

  /** A pattern that is a prefix followed by one star matches what starts with the prefix, unless a `*`
      comes right behind it and more behind that. */
  lemma PrefixIff(prefix: string, value: string)
    requires prefix != "" && '*' !in prefix
    ensures MatchesPattern(prefix + "*", value) <==>
              && |prefix| <= |value| && Literally(prefix, value[..|prefix|])
              && (value[|prefix|..] == "" || value[|prefix|..] == "*" || value[|prefix|] != '*')
  {
    PrefixRun(prefix, value, 0);
  }

  lemma {:induction false} PrefixRun(prefix: string, value: string, k: nat)
    requires '*' !in prefix && k <= |prefix| && k <= |value|
    requires forall i :: 0 <= i < k ==> prefix[i] == '?' || prefix[i] == value[i]
    ensures Scan(prefix + "*", value, k, k, None, 0) <==>
              && |prefix| <= |value| && Literally(prefix, value[..|prefix|])
              && (value[|prefix|..] == "" || value[|prefix|..] == "*" || value[|prefix|] != '*')
    decreases |prefix| - k
  {
    var pat := prefix + "*";
    if k == |prefix| {
      assert pat[k..] == "*" && pat[k + 1..] == "";
      if k < |value| && value[k] != '*' {
        StarTakesRest(pat, value, k, k);
      }
      assert |value| == k + 1 && value[k] == '*' ==> value[k..] == "*";
    } else if k < |value| {
      if prefix[k] == '?' || prefix[k] == value[k] {
        PrefixRun(prefix, value, k + 1);
      } else {
        assert |prefix| <= |value| ==> value[..|prefix|][k] == value[k];
      }
    } else {
      assert pat[k..][0] == prefix[k];
    }
  }

  lemma {:induction false} StarTakesRest(pat: string, text: string, ti: nat, matchIdx: nat)
    requires pat != "" && pat[|pat| - 1] == '*' && matchIdx <= ti <= |text|
    ensures Scan(pat, text, |pat|, ti, Some(|pat| - 1), matchIdx)
    decreases |text| - matchIdx
  {
    if ti < |text| {
      StarTakesRest(pat, text, matchIdx + 1, matchIdx + 1);
    }
  }

  function Questions(n: nat): (q: string)
    ensures |q| == n && forall i :: 0 <= i < n ==> q[i] == '?'
  {
    seq(n, _ => '?')
  }

  lemma {:induction false} QuestionsMatch(text: string)
    ensures Glob(Questions(|text|), text)
  {
    if text != "" {
      QuestionsMatch(text[1..]);
      assert Questions(|text|)[1..] == Questions(|text[1..]|);
    }
  }

  /** Every string, read as a pattern, matches itself, whatever follows on both sides. */
  lemma {:induction false} GlobSelf(same: string, pat: string, text: string)
    requires Glob(pat, text)
    ensures Glob(same + pat, same + text)
  {
    if same == "" {
      assert same + pat == pat && same + text == text;
    } else {
      GlobSelf(same[1..], pat, text);
      assert (same + pat)[1..] == same[1..] + pat;
      assert (same + text)[1..] == same[1..] + text;
      if same[0] == '*' {
        assert Glob(same + pat, (same + text)[1..]);
      }
    }
  }

  /** With no star remembered and every byte consumed as a literal, a pattern that still wants a byte fails. */
  lemma {:induction false} LiteralRunTooShort(pat: string, text: string, k: nat)
    requires k <= |text| < |pat| && pat[|text|] != '*'
    requires forall j :: 0 <= j < |text| ==> pat[j] == '?' || pat[j] == text[j]
    ensures !Scan(pat, text, k, k, None, 0)
    decreases |text| - k
  {
    if k < |text| {
      LiteralRunTooShort(pat, text, k + 1);
    } else {
      assert pat[k..][0] != '*';
    }
  }

  /** The pattern that copies the value up to its star and asks for one byte more than is left. */
  lemma MissedPattern(value: string, i: nat) returns (pattern: string)
    requires i < |value| && value[i] == '*'
    ensures pattern == value[..i + 1] + Questions(|value| - i)
    ensures Glob(pattern, value) && !MatchesPattern(pattern, value)
  {
    var tail := Questions(|value| - i);
    pattern := value[..i + 1] + tail;
    QuestionsMatch(value[i..]);
    assert ("*" + tail)[1..] == tail;
    assert Glob("*" + tail, value[i..]);
    GlobSelf(value[..i], "*" + tail, value[i..]);
    assert pattern == value[..i] + ("*" + tail);
    assert value == value[..i] + value[i..];
    LiteralRunTooShort(pattern, value, 0);
  }

  lemma LastStar(pattern: string) returns (i: nat)
    requires '*' in pattern
    ensures i < |pattern| && pattern[i] == '*' && '*' !in pattern[i + 1..]
  {
    i := |pattern| - 1;
    while pattern[i] != '*'
      decreases i
      invariant i < |pattern|
      invariant '*' !in pattern[i + 1..]
      invariant '*' in pattern[..i + 1]
    {
      assert pattern[..i + 1] == pattern[..i] + [pattern[i]];
      assert pattern[i..] == [pattern[i]] + pattern[i + 1..];
      assert i > 0;
      i := i - 1;
    }
  }

  /** With no star remembered or ahead, a longer text cannot match. */
  lemma {:induction false} LiteralRunTooLong(pat: string, text: string, last: nat, k: nat)
    requires last < |pat| < |text| && '*' !in pat[last + 1..]
    requires forall j :: 0 <= j <= last ==> pat[j] == text[j]
    requires k <= |pat|
    ensures !Scan(pat, text, k, k, None, 0)
    decreases |pat| - k
  {
    if k < |pat| {
      assert k > last ==> pat[k] == pat[last + 1..][k - last - 1];
      LiteralRunTooLong(pat, text, last, k + 1);
    }
  }

  lemma InsertedMatches(before: string, tail: string)
    ensures Glob(before + ("*" + tail), before + ("*x" + tail))
  {
    GlobSelf(tail, "", "");
    assert tail + "" == tail;
    assert ("*" + tail)[1..] == tail && ("*x" + tail)[1..] == "x" + tail && ("x" + tail)[1..] == tail;
    assert Glob("*" + tail, "x" + tail);
    GlobSelf(before, "*" + tail, "*x" + tail);
  }

  /** The value that copies the pattern and puts one byte behind its last star. */
  lemma MissedValue(pattern: string, i: nat) returns (value: string)
    requires i < |pattern| && pattern[i] == '*' && '*' !in pattern[i + 1..] && pattern != "*"
    ensures value == pattern[..i + 1] + "x" + pattern[i + 1..]
    ensures Glob(pattern, value) && !MatchesPattern(pattern, value)
  {
    var tail := pattern[i + 1..];
    value := pattern[..i + 1] + ("x" + tail);
    InsertedMatches(pattern[..i], tail);
    assert pattern == pattern[..i] + ("*" + tail);
    assert value == pattern[..i] + ("*x" + tail);
    LiteralRunTooLong(pattern, value, i, 0);
  }

  /** The documentation's "single character" is a single byte: two-byte U+00E9 does not match `?`. */
  lemma QuestionIsOneByte(text: string)
    ensures MatchesPattern("?", text) <==> |text| == 1
  {
    MatchIffGlob("?", text);
    assert "?"[1..] == "";
    assert |text| == 1 ==> text[1..] == "";
  }
}
