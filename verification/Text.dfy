/** Substring search, as `str::contains` does it. */
module Text {
  predicate Contains(s: string, part: string) {
    exists i :: 0 <= i <= |s| - |part| && OccursAt(s, part, i)
  }

  predicate OccursAt(s: string, part: string, i: nat)
    requires i <= |s| - |part|
  {
    s[i..i + |part|] == part
  }

  /** A part occurs in a string iff the string can be cut around it. */
  lemma ContainsIff(s: string, part: string)
    ensures Contains(s, part) <==> exists before, after :: s == before + part + after
  {
    if Contains(s, part) {
      var i :| 0 <= i <= |s| - |part| && OccursAt(s, part, i);
      assert s == s[..i] + part + s[i + |part|..];
    }
    forall before, after | s == before + part + after ensures Contains(s, part) {
      assert OccursAt(s, part, |before|);
    }
  }

  lemma OccurrenceCovers(s: string, part: string, i: nat, at: nat)
    requires i <= |s| - |part| && OccursAt(s, part, i)
    requires i <= at < i + |part|
    ensures s[at] in part
  {
    assert s[i..i + |part|][at - i] == s[at];
  }

  lemma SliceOfSlice(s: string, lo: nat, hi: nat, a: nat, b: nat)
    requires lo <= hi <= |s| && a <= b <= hi - lo
    ensures s[lo..hi][a..b] == s[lo + a..lo + b]
  {
    var inner := s[lo..hi];
    assert forall k {:trigger inner[a..b][k]} :: 0 <= k < b - a ==> inner[a..b][k] == s[lo + a..lo + b][k];
  }

  lemma OccurrenceInside(s: string, part: string, i: nat, lo: nat, hi: nat)
    requires i <= |s| - |part| && OccursAt(s, part, i)
    requires lo <= i && i + |part| <= hi <= |s|
    ensures Contains(s[lo..hi], part)
  {
    var inner := s[lo..hi];
    var at := i - lo;
    SliceOfSlice(s, lo, hi, at, at + |part|);
    assert OccursAt(inner, part, at);
  }

  /** A part without the separator occurs in `prefix + separator + rest` iff it occurs in the
      rest, unless the prefix holds it already. */
  lemma ContainsBehind(prefix: string, separator: char, rest: string, part: string)
    requires part != "" && separator !in part
    requires !Contains(prefix, part)
    ensures Contains(prefix + [separator] + rest, part) <==> Contains(rest, part)
  {
    var whole := prefix + [separator] + rest;
    var shift := |prefix| + 1;
    assert whole[0..|prefix|] == prefix && whole[shift..|whole|] == rest;
    if Contains(rest, part) {
      var i :| 0 <= i <= |rest| - |part| && OccursAt(rest, part, i);
      var at := shift + i;
      assert whole[at..at + |part|] == rest[i..i + |part|];
      assert OccursAt(whole, part, at);
    }
    if Contains(whole, part) {
      var i :| 0 <= i <= |whole| - |part| && OccursAt(whole, part, i);
      if i <= |prefix| {
        if i + |part| <= |prefix| {
          OccurrenceInside(whole, part, i, 0, |prefix|);
        } else {
          OccurrenceCovers(whole, part, i, |prefix|);
        }
        assert false;
      }
      OccurrenceInside(whole, part, i, shift, |whole|);
    }
  }
}
