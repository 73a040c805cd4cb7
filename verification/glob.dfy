/** The permission globs: a leftmost-greedy matcher against the meaning of a pattern in which only `*` is special. */
module Glob {
  import opened Bytes

  /** What a pattern means. */
  ghost predicate Matches(p: string, s: string)
    decreases |p|
  {
    if p == "" then s == ""
    else if p[0] == '*' then exists k :: 0 <= k <= |s| && Matches(p[1..], s[k..])
    else s != "" && s[0] == p[0] && Matches(p[1..], s[1..])
  }

  // ------------------------------------------------------------------
  // Splitting at the stars
  // ------------------------------------------------------------------

  function Split(p: string): (parts: seq<string>)
    ensures |parts| >= 1
  {
    if p == "" then [""]
    else
      var rest := Split(p[1..]);
      if p[0] == '*' then [""] + rest else [[p[0]] + rest[0]] + rest[1..]
  }

  /** The first part as a prefix, each later part after an arbitrary gap, the last one at the end. */
  ghost predicate MatchesParts(parts: seq<string>, s: string)
    requires |parts| >= 1
    decreases |parts|, 0
  {
    if |parts| == 1 then s == parts[0]
    else parts[0] <= s && AfterGap(parts[1..], s[|parts[0]|..])
  }

  ghost predicate AfterGap(parts: seq<string>, s: string)
    requires |parts| >= 1
    decreases |parts|, 1
  {
    exists k :: 0 <= k <= |s| && MatchesParts(parts, s[k..])
  }

  lemma {:induction false} SplitKeepsMeaning(p: string, s: string)
    ensures Matches(p, s) <==> MatchesParts(Split(p), s)
    decreases |p|
  {
    if p != "" {
      var rest, parts := Split(p[1..]), Split(p);
      if p[0] == '*' {
        assert parts[1..] == rest && s[0..] == s;
        forall k | 0 <= k <= |s| ensures Matches(p[1..], s[k..]) <==> MatchesParts(rest, s[k..]) {
          SplitKeepsMeaning(p[1..], s[k..]);
        }
      } else {
        assert parts[1..] == rest[1..];
        if s != "" {
          SplitKeepsMeaning(p[1..], s[1..]);
          assert parts[0] <= s <==> s[0] == p[0] && rest[0] <= s[1..];
          if parts[0] <= s { assert s[|parts[0]|..] == s[1..][|rest[0]|..]; }
          assert s == [p[0]] + rest[0] <==> s[0] == p[0] && s[1..] == rest[0];
        }
      }
    }
  }

  lemma {:induction false} SplitEnds(p: string)
    requires p != ""
    ensures p[0] == '*' ==> Split(p)[0] == ""
    ensures p[|p| - 1] == '*' ==> |Split(p)| >= 2 && Split(p)[|Split(p)| - 1] == ""
    ensures |Split(p)| == 1 ==> Split(p)[0] == p
    decreases |p|
  {
    var rest := Split(p[1..]);
    if |p| > 1 { SplitEnds(p[1..]); }
  }

  // ------------------------------------------------------------------
  // Leftmost search
  // ------------------------------------------------------------------

  function Find(s: string, part: string, i: nat): Option<nat>
    requires i <= |s|
    decreases |s| - i
  {
    if part <= s[i..] then Some(i) else if i == |s| then None else Find(s, part, i + 1)
  }

  lemma {:induction false} FindIsLeftmost(s: string, part: string, i: nat, k: nat)
    requires i <= k <= |s| && part <= s[k..]
    ensures Find(s, part, i).Some? && i <= Find(s, part, i).value <= k
    decreases |s| - i
  {
    if !(part <= s[i..]) { FindIsLeftmost(s, part, i + 1, k); }
  }

  lemma {:induction false} FindIsThere(s: string, part: string, i: nat)
    requires i <= |s|
    ensures Find(s, part, i).Some? ==> i <= Find(s, part, i).value <= |s| && part <= s[Find(s, part, i).value..]
    decreases |s| - i
  {
    if !(part <= s[i..]) && i < |s| { FindIsThere(s, part, i + 1); }
  }

  // ------------------------------------------------------------------
  // Greedy is enough
  // ------------------------------------------------------------------

  lemma GapIntro(parts: seq<string>, s: string, k: nat)
    requires |parts| >= 1 && k <= |s| && MatchesParts(parts, s[k..])
    ensures AfterGap(parts, s)
  {
    hide MatchesParts;
  }

  lemma GapElim(parts: seq<string>, s: string) returns (k: nat)
    requires |parts| >= 1 && AfterGap(parts, s)
    ensures k <= |s| && MatchesParts(parts, s[k..])
  {
    hide MatchesParts;
    k :| 0 <= k <= |s| && MatchesParts(parts, s[k..]);
  }

  lemma FirstOfMany(parts: seq<string>, s: string)
    requires |parts| >= 2
    ensures MatchesParts(parts, s) <==> parts[0] <= s && AfterGap(parts[1..], s[|parts[0]|..])
  {
    hide AfterGap;
  }

  /** What can follow a gap in a suffix can follow a longer gap in the whole. */
  lemma GapGrows(parts: seq<string>, s: string, i: nat)
    requires |parts| >= 1 && i <= |s| && AfterGap(parts, s[i..])
    ensures AfterGap(parts, s)
  {
    hide AfterGap, MatchesParts;
    var k := GapElim(parts, s[i..]);
    assert s[i..][k..] == s[i + k..];
    GapIntro(parts, s, i + k);
  }

  /** A middle part may be taken at its leftmost occurrence: no match that backtracking would find is missed. */
  lemma GreedyStep(parts: seq<string>, s: string)
    requires |parts| >= 2
    ensures AfterGap(parts, s) <==>
            Find(s, parts[0], 0).Some?
            && Find(s, parts[0], 0).value + |parts[0]| <= |s|
            && AfterGap(parts[1..], s[Find(s, parts[0], 0).value + |parts[0]|..])
  {
    hide AfterGap, MatchesParts, Find;
    var p := parts[0];
    FindIsThere(s, p, 0);
    if AfterGap(parts, s) {
      var k := GapElim(parts, s);
      FirstOfMany(parts, s[k..]);
      FindIsLeftmost(s, p, 0, k);
      var i := Find(s, p, 0).value;
      assert s[k..][|p|..] == s[k + |p|..] == s[i + |p|..][k - i..];
      GapGrows(parts[1..], s[i + |p|..], k - i);
    }
    if Find(s, p, 0).Some? {
      var i := Find(s, p, 0).value;
      assert s[i..][|p|..] == s[i + |p|..];
      FirstOfMany(parts, s[i..]);
      if AfterGap(parts[1..], s[i + |p|..]) { GapIntro(parts, s, i); }
    }
  }

  predicate EndsWith(s: string, suffix: string) { |suffix| <= |s| && s[|s| - |suffix|..] == suffix }

  lemma LastPart(part: string, s: string)
    ensures AfterGap([part], s) <==> EndsWith(s, part)
  {
    if EndsWith(s, part) { assert MatchesParts([part], s[|s| - |part|..]); }
  }

  /** The loop over all parts but the last, trimming the subject as it goes; `None` as soon as a part is missing. */
  method MatchLeading(parts: seq<string>, subject: string, leading: bool) returns (r: Option<string>)
    requires |parts| >= 2 && (leading ==> parts[0] == "")
    ensures r.None? ==> !MatchesParts(parts, subject)
    ensures r.Some? ==> (MatchesParts(parts, subject) <==> AfterGap([parts[|parts| - 1]], r.value))
  {
    hide AfterGap, Find, MatchesParts;
    var end := |parts| - 1;
    var subj := subject;
    var i := 0;
    while i < end
      invariant 0 <= i <= end
      invariant if i == 0 then subj == subject else MatchesParts(parts, subject) <==> AfterGap(parts[i..], subj)
    {
      var idx := Find(subj, parts[i], 0);
      FindIsThere(subj, parts[i], 0);
      assert parts[i..][0] == parts[i] && parts[i..][1..] == parts[i + 1..];
      if i == 0 {
        assert subj[0..] == subj && parts[0..] == parts;
        FirstOfMany(parts, subject);
        if parts[0] <= subj { FindIsLeftmost(subj, parts[0], 0, 0); }
        if !leading && idx != Some(0) {
          return None;
        }
      } else {
        GreedyStep(parts[i..], subj);
        if idx.None? {
          return None;
        }
      }
      var at := if idx.Some? then idx.value else 0;
      subj := subj[at + |parts[i]|..];
      i := i + 1;
    }
    assert parts[end..] == [parts[end]];
    return Some(subj);
  }

  lemma StarMatchesAll(s: string)
    ensures Matches("*", s)
  {
    assert "*"[1..] == "" && s[|s|..] == "";
    assert Matches("*"[1..], s[|s|..]);
  }

  /** The matcher decides exactly the meaning of the pattern, for every pattern and subject. */
  method GoGlob(pattern: string, subject: string) returns (r: bool)
    ensures r <==> Matches(pattern, subject)
  {
    if pattern == "" {
      return subject == pattern;
    }
    if pattern == "*" {
      StarMatchesAll(subject);
      return true;
    }
    SplitKeepsMeaning(pattern, subject);
    SplitEnds(pattern);
    hide Matches, AfterGap, Split;
    var parts := Split(pattern);
    if |parts| == 1 {
      return subject == pattern;
    }
    var leading, trailing := pattern[0] == '*', pattern[|pattern| - 1] == '*';
    var rest := MatchLeading(parts, subject, leading);
    if rest.None? {
      return false;
    }
    LastPart(parts[|parts| - 1], rest.value);
    return trailing || EndsWith(rest.value, parts[|parts| - 1]);
  }
}
