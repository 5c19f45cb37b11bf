/** The event topic format check (`crates/greentic-events-validate/src/lib.rs`) against the regular
    expression that its own diagnostic documents. */
module TopicGrammar {
  import Pattern

  // ---- The documented language: ^[a-z0-9]+(\.[a-z0-9_-]+)+$ ----

  datatype Regex = Class(chars: set<char>) | Cat(first: Regex, second: Regex) | Plus(body: Regex)

  ghost predicate Accepts(r: Regex, s: string)
    decreases r, |s|
  {
    match r
    case Class(chars) => |s| == 1 && s[0] in chars
    case Cat(a, b) => exists i: nat :: i <= |s| && Accepts(a, s[..i]) && Accepts(b, s[i..])
    case Plus(a) =>
      || Accepts(a, s)
      || exists i: nat :: 0 < i < |s| && Accepts(a, s[..i]) && Accepts(r, s[i..])
  }

  const HEAD_CHARS := set c: char | 'a' <= c <= 'z' || '0' <= c <= '9'
  const TAIL_CHARS := set c: char | 'a' <= c <= 'z' || '0' <= c <= '9' || c == '_' || c == '-'
  const SEGMENT := Cat(Class({'.'}), Plus(Class(TAIL_CHARS)))
  const TOPIC := Cat(Plus(Class(HEAD_CHARS)), Plus(SEGMENT))

  // ---- The check as written ----

  predicate HeadChar(c: char) { 'a' <= c <= 'z' || '0' <= c <= '9' }

  predicate TailChar(c: char) { HeadChar(c) || c == '-' || c == '_' }

  function Split(s: string): (parts: seq<string>)
    ensures |parts| >= 1
  {
    if s == "" then [""]
    else
      var rest := Split(s[1..]);
      if s[0] == '.' then [""] + rest else [[s[0]] + rest[0]] + rest[1..]
  }

  function Join(parts: seq<string>): string
    requires |parts| >= 1
  {
    if |parts| == 1 then parts[0] else parts[0] + "." + Join(parts[1..])
  }

  predicate IsHead(segment: string) { segment != "" && forall c :: c in segment ==> HeadChar(c) }

  predicate IsTail(segment: string) { segment != "" && forall c :: c in segment ==> TailChar(c) }

  method IsValidEventTopic(value: string) returns (valid: bool)
    ensures valid <==> Accepts(TOPIC, value)
  {
    var segments := Split(value);
    TopicIffSegments(value);
    if value == "" {
      return false;
    }
    if !IsHead(segments[0]) {
      return false;
    }
    var hasTail := false;
    for i := 1 to |segments|
      invariant hasTail <==> i > 1
      invariant forall j :: 1 <= j < i ==> IsTail(segments[j])
    {
      hasTail := true;
      if !IsTail(segments[i]) {
        return false;
      }
    }
    return hasTail;
  }

  /** Splitting loses nothing: joining gives the string back, and no segment holds a dot. */
  lemma {:induction false} SplitJoin(s: string)
    ensures Join(Split(s)) == s
    ensures forall i :: 0 <= i < |Split(s)| ==> '.' !in Split(s)[i]
  {
    if s != "" {
      SplitJoin(s[1..]);
      var rest := Split(s[1..]);
      if s[0] == '.' {
        assert Split(s)[1..] == rest;
      } else {
        assert Split(s)[1..] == rest[1..];
        assert [s[0]] + Join(rest) == Join(Split(s));
      }
    }
  }

  /** Joining loses nothing either, for segments without dots. */
  lemma {:induction false} JoinSplit(parts: seq<string>)
    requires |parts| >= 1
    requires forall i :: 0 <= i < |parts| ==> '.' !in parts[i]
    ensures Split(Join(parts)) == parts
  {
    if |parts| == 1 {
      SplitNoDot(parts[0]);
    } else {
      JoinSplit(parts[1..]);
      SplitAtDot(parts[0], Join(parts[1..]));
    }
  }

  lemma {:induction false} SplitNoDot(s: string)
    requires '.' !in s
    ensures Split(s) == [s]
  {
    if s != "" {
      SplitNoDot(s[1..]);
      assert s == [s[0]] + s[1..];
    }
  }

  lemma {:induction false} SplitAtDot(a: string, b: string)
    requires '.' !in a
    ensures Split(a + "." + b) == [a] + Split(b)
  {
    var whole := a + "." + b;
    if a == "" {
      assert whole[1..] == b;
    } else {
      SplitAtDot(a[1..], b);
      assert whole[1..] == a[1..] + "." + b;
      assert whole[0] == a[0] && a == [a[0]] + a[1..];
    }
  }

  ghost predicate TailsOk(parts: seq<string>) {
    forall i :: 0 <= i < |parts| ==> IsTail(parts[i])
  }

  lemma {:induction false} PlusClass(chars: set<char>, s: string)
    ensures Accepts(Plus(Class(chars)), s) <==> s != "" && forall c :: c in s ==> c in chars
    decreases |s|
  {
    var r := Plus(Class(chars));
    if Accepts(r, s) && !Accepts(Class(chars), s) {
      var i: nat :| 0 < i < |s| && Accepts(Class(chars), s[..i]) && Accepts(r, s[i..]);
      PlusClass(chars, s[i..]);
      assert s == s[..i] + s[i..];
    }
    if |s| > 1 && forall c :: c in s ==> c in chars {
      PlusClass(chars, s[1..]);
      assert Accepts(Class(chars), s[..1]) && Accepts(r, s[1..]);
    }
  }

  lemma SegmentIff(s: string)
    ensures Accepts(SEGMENT, s) <==> s != "" && s[0] == '.' && IsTail(s[1..])
  {
    if s != "" {
      PlusClass(TAIL_CHARS, s[1..]);
      if s[0] == '.' && IsTail(s[1..]) {
        assert Accepts(Class({'.'}), s[..1]) && Accepts(Plus(Class(TAIL_CHARS)), s[1..]);
      }
    }
  }

  /** A run of dotted segments, the first of them set apart. */
  lemma TailsUnfold(s: string, head: string, rest: string)
    requires '.' !in head && s == "." + head + "." + rest
    ensures Split(s[1..]) == [head] + Split(rest)
    ensures TailsOk(Split(s[1..])) <==> IsTail(head) && TailsOk(Split(rest))
  {
    assert s[1..] == head + "." + rest;
    SplitAtDot(head, rest);
    var parts := Split(s[1..]);
    assert forall i {:trigger Split(rest)[i]} :: 0 <= i < |Split(rest)| ==> parts[i + 1] == Split(rest)[i];
    assert forall i {:trigger parts[i]} :: 1 <= i < |parts| ==> parts[i] == Split(rest)[i - 1];
    assert parts[0] == head;
  }

  lemma {:induction false} TailsSound(s: string)
    requires Accepts(Plus(SEGMENT), s)
    ensures s != "" && s[0] == '.' && TailsOk(Split(s[1..]))
    decreases |s|
  {
    SegmentIff(s);
    if Accepts(SEGMENT, s) {
      SplitNoDot(s[1..]);
    } else {
      var i: nat :| 0 < i < |s| && Accepts(SEGMENT, s[..i]) && Accepts(Plus(SEGMENT), s[i..]);
      SegmentIff(s[..i]);
      TailsSound(s[i..]);
      TailsCons(s, i);
    }
  }

  lemma TailsCons(s: string, i: nat)
    requires 0 < i < |s|
    requires s[0] == '.' && IsTail(s[..i][1..]) && s[i] == '.' && TailsOk(Split(s[i..][1..]))
    ensures TailsOk(Split(s[1..]))
  {
    var head, rest := s[..i][1..], s[i..][1..];
    assert s == "." + head + "." + rest;
    TailsUnfold(s, head, rest);
  }

  lemma {:induction false} TailsComplete(s: string)
    requires s != "" && s[0] == '.' && TailsOk(Split(s[1..]))
    ensures Accepts(Plus(SEGMENT), s)
    decreases |s|
  {
    var parts := Split(s[1..]);
    SplitJoin(s[1..]);
    assert IsTail(parts[0]);
    if |parts| == 1 {
      SegmentIff(s);
    } else {
      var head, rest := parts[0], Join(parts[1..]);
      var i := 1 + |head|;
      assert s == [s[0]] + s[1..];
      assert s == "." + head + "." + rest;
      assert s[..i] == "." + head && s[i..] == "." + rest;
      assert s[..i][1..] == head && s[i..][1..] == rest;
      TailsUnfold(s, head, rest);
      SegmentIff(s[..i]);
      TailsComplete(s[i..]);
      assert Accepts(SEGMENT, s[..i]) && Accepts(Plus(SEGMENT), s[i..]);
    }
  }

  ghost predicate SegmentsOk(parts: seq<string>)
    requires |parts| >= 1
  {
    |parts| >= 2 && IsHead(parts[0]) && TailsOk(parts[1..])
  }

  lemma TopicSound(s: string)
    requires Accepts(TOPIC, s)
    ensures SegmentsOk(Split(s))
  {
    var i: nat :| i <= |s| && Accepts(Plus(Class(HEAD_CHARS)), s[..i]) && Accepts(Plus(SEGMENT), s[i..]);
    PlusClass(HEAD_CHARS, s[..i]);
    TailsSound(s[i..]);
    assert s == s[..i] + "." + s[i..][1..];
    SplitAtDot(s[..i], s[i..][1..]);
  }

  lemma TopicComplete(s: string)
    requires SegmentsOk(Split(s))
    ensures Accepts(TOPIC, s)
  {
    var parts := Split(s);
    SplitJoin(s);
    var head, rest := parts[0], Join(parts[1..]);
    var i := |head|;
    assert s == head + "." + rest;
    assert s[..i] == head && s[i..] == "." + rest;
    PlusClass(HEAD_CHARS, s[..i]);
    JoinSplit(parts[1..]);
    assert s[i..][1..] == rest;
    TailsComplete(s[i..]);
    assert Accepts(Plus(Class(HEAD_CHARS)), s[..i]) && Accepts(Plus(SEGMENT), s[i..]);
  }

  /** The language, segment by segment. */
  lemma TopicIffSegments(s: string)
    ensures Accepts(TOPIC, s) <==> SegmentsOk(Split(s))
  {
    if Accepts(TOPIC, s) {
      TopicSound(s);
    }
    if SegmentsOk(Split(s)) {
      TopicComplete(s);
    }
  }

  /** A well-formed topic is matched exactly by every pattern, so routing and access rules
      read it as the globs they are. */
  lemma ValidTopicMatchedExactly(topic: string, pattern: string)
    requires Accepts(TOPIC, topic)
    ensures Pattern.MatchesPattern(pattern, topic) <==> Pattern.Glob(pattern, topic)
  {
    TopicIffSegments(topic);
    SplitJoin(topic);
    var parts := Split(topic);
    assert forall i :: 1 <= i < |parts| ==> IsTail(parts[i]) by {
      assert forall i :: 1 <= i < |parts| ==> parts[i] == parts[1..][i - 1];
    }
    NoStarIn(parts);
    Pattern.MatchIffGlob(pattern, topic);
  }

  lemma {:induction false} NoStarIn(parts: seq<string>)
    requires |parts| >= 1
    requires forall i :: 0 <= i < |parts| ==> IsHead(parts[i]) || IsTail(parts[i])
    ensures '*' !in Join(parts)
  {
    assert IsHead(parts[0]) || IsTail(parts[0]);
    assert '*' !in parts[0];
    if |parts| > 1 {
      NoStarIn(parts[1..]);
    }
  }
}
