/** The string operations of Python that the bot's formatting relies on,
    `sep.join(parts)` and `s.replace(old, new)`, together with `s.count(sub)`
    and `s.split(sep)`, which the bot does not call but which state what
    `replace` does.  Strings are sequences of code points, as in Python 3. */
module Text {

  /** `p` occurs at the very start of `s`. */
  predicate StartsWith(s: string, p: string) {
    |p| <= |s| && s[..|p|] == p
  }

  /** `p` occurs in `s` at index `i`. */
  predicate OccursAt(s: string, p: string, i: int) {
    0 <= i <= |s| - |p| && s[i..i + |p|] == p
  }

  /** `p` occurs somewhere in `s` (Python's `p in s`). */
  ghost predicate Contains(s: string, p: string) {
    exists i :: OccursAt(s, p, i)
  }

  /** Python's `sep.join(parts)`: the parts in order, `sep` between neighbours. */
  function Join(sep: string, parts: seq<string>): string {
    if |parts| == 0 then ""
    else if |parts| == 1 then parts[0]
    else parts[0] + sep + Join(sep, parts[1..])
  }

  /** Python's `s.replace(pat, rep)`: every non-overlapping occurrence of
      `pat`, scanning left to right, is replaced by `rep`.  For an empty
      `pat` Python inserts `rep` before every character and at the end. */
  function ReplaceAll(s: string, pat: string, rep: string): string
    decreases |s|
  {
    if pat == [] then
      if s == [] then rep else rep + [s[0]] + ReplaceAll(s[1..], pat, rep)
    else if s == [] then []
    else if StartsWith(s, pat) then rep + ReplaceAll(s[|pat|..], pat, rep)
    else [s[0]] + ReplaceAll(s[1..], pat, rep)
  }

  /** Python's `s.count(pat)`: the number of non-overlapping occurrences
      found left to right; an empty `pat` counts `|s| + 1` times. */
  function Count(s: string, pat: string): nat
    decreases |s|
  {
    if pat == [] then |s| + 1
    else if s == [] then 0
    else if StartsWith(s, pat) then 1 + Count(s[|pat|..], pat)
    else Count(s[1..], pat)
  }

  /** Python's `s.split(sep)` for a non-empty `sep` (an empty one raises
      `ValueError`): the pieces between the non-overlapping occurrences. */
  function Split(s: string, sep: string): (r: seq<string>)
    requires sep != []
    ensures |r| >= 1
    decreases |s|
  {
    if s == [] then [""]
    else if StartsWith(s, sep) then [""] + Split(s[|sep|..], sep)
    else
      var rest := Split(s[1..], sep);
      [[s[0]] + rest[0]] + rest[1..]
  }

  // ---------------------------------------------------------------------
  // Occurrence

  /** An occurrence of `p` in `s` is one at the start or one further on. */
  lemma ContainsStep(s: string, p: string)
    requires s != []
    ensures Contains(s, p) <==> StartsWith(s, p) || Contains(s[1..], p)
  {
    if Contains(s, p) && !StartsWith(s, p) {
      var i :| OccursAt(s, p, i);
      assert i != 0;
      assert s[1..][i - 1..i - 1 + |p|] == s[i..i + |p|];
      assert OccursAt(s[1..], p, i - 1);
    }
    if Contains(s[1..], p) {
      var i :| OccursAt(s[1..], p, i);
      assert s[i + 1..i + 1 + |p|] == s[1..][i..i + |p|];
      assert OccursAt(s, p, i + 1);
    }
    if StartsWith(s, p) {
      assert OccursAt(s, p, 0);
    }
  }

  /** `s.count(p) == 0` exactly when `p` does not occur in `s`. */
  lemma {:induction false} CountZeroIff(s: string, p: string)
    ensures Count(s, p) == 0 <==> !Contains(s, p)
    decreases |s|
  {
    if p == [] {
      assert OccursAt(s, p, 0);
    } else if s == [] {
    } else if StartsWith(s, p) {
      ContainsStep(s, p);
    } else {
      ContainsStep(s, p);
      CountZeroIff(s[1..], p);
    }
  }

  // ---------------------------------------------------------------------
  // Replacement

  /** Replacing a pattern that does not occur leaves the string as it was. */
  lemma {:induction false} ReplaceAbsent(s: string, pat: string, rep: string)
    requires !Contains(s, pat)
    ensures ReplaceAll(s, pat, rep) == s
    decreases |s|
  {
    if pat == [] {
      assert OccursAt(s, pat, 0);
    } else if s != [] {
      ContainsStep(s, pat);
      ReplaceAbsent(s[1..], pat, rep);
    }
  }

  /** Every occurrence replaced changes the length by `|rep| - |pat|`. */
  lemma {:induction false} ReplaceLength(s: string, pat: string, rep: string)
    ensures |ReplaceAll(s, pat, rep)| == |s| + Count(s, pat) * (|rep| - |pat|)
    decreases |s|
  {
    var d := |rep| - |pat|;
    if pat == [] {
      if s != [] {
        ReplaceLength(s[1..], pat, rep);
        assert ReplaceAll(s, pat, rep) == rep + [s[0]] + ReplaceAll(s[1..], pat, rep);
        MulStep(|s|, d);
      }
    } else if s == [] {
    } else if StartsWith(s, pat) {
      var rest := s[|pat|..];
      ReplaceLength(rest, pat, rep);
      assert ReplaceAll(s, pat, rep) == rep + ReplaceAll(rest, pat, rep);
      assert Count(s, pat) == 1 + Count(rest, pat);
      MulStep(Count(rest, pat), d);
    } else {
      ReplaceLength(s[1..], pat, rep);
      assert ReplaceAll(s, pat, rep) == [s[0]] + ReplaceAll(s[1..], pat, rep);
    }
  }

  /** Proof step for ReplaceLength: multiplication distributes over `c + 1`. */
  lemma MulStep(c: int, d: int)
    ensures (c + 1) * d == c * d + d
  {
  }

  /** Characters that cannot start the pattern are copied through unchanged. */
  lemma {:induction false} ReplaceSkipsPrefix(pre: string, s: string, pat: string, rep: string)
    requires pat != [] && pat[0] !in pre
    ensures ReplaceAll(pre + s, pat, rep) == pre + ReplaceAll(s, pat, rep)
    decreases |pre|
  {
    if pre != [] {
      var t := pre + s;
      assert !StartsWith(t, pat) by {
        if |pat| <= |t| { assert t[..|pat|][0] == pre[0]; }
      }
      assert t[1..] == pre[1..] + s;
      ReplaceSkipsPrefix(pre[1..], s, pat, rep);
    } else {
      assert pre + s == s;
    }
  }

  /** An occurrence at the start is replaced and the scan resumes after it. */
  lemma ReplaceAtStart(pat: string, s: string, rep: string)
    requires pat != []
    ensures ReplaceAll(pat + s, pat, rep) == rep + ReplaceAll(s, pat, rep)
  {
    var t := pat + s;
    assert t[..|pat|] == pat;
    assert t[|pat|..] == s;
  }

  /** A single occurrence, with no character around it that could start
      another, is the only thing replaced. */
  lemma ReplaceSingle(pre: string, pat: string, post: string, rep: string)
    requires pat != [] && pat[0] !in pre && pat[0] !in post
    ensures ReplaceAll(pre + pat + post, pat, rep) == pre + rep + post
  {
    assert pre + pat + post == pre + (pat + post);
    ReplaceSkipsPrefix(pre, pat + post, pat, rep);
    ReplaceAtStart(pat, post, rep);
    ReplaceSkipsPrefix(post, [], pat, rep);
    assert post + [] == post;
  }

  /** Replacing a pattern by itself is the identity. */
  lemma {:induction false} ReplaceSelf(s: string, pat: string)
    ensures ReplaceAll(s, pat, pat) == s
    decreases |s|
  {
    if pat == [] {
      if s != [] {
        ReplaceSelf(s[1..], pat);
      }
    } else if s == [] {
    } else if StartsWith(s, pat) {
      ReplaceSelf(s[|pat|..], pat);
      assert s == s[..|pat|] + s[|pat|..];
    } else {
      ReplaceSelf(s[1..], pat);
      assert s == [s[0]] + s[1..];
    }
  }

  // ---------------------------------------------------------------------
  // Joining and splitting

  /** Gluing a prefix onto the first part glues it onto the whole join. */
  lemma JoinPrefixFirst(sep: string, c: string, parts: seq<string>)
    requires parts != []
    ensures Join(sep, [c + parts[0]] + parts[1..]) == c + Join(sep, parts)
  {
    var ps := [c + parts[0]] + parts[1..];
    assert ps[1..] == parts[1..];
  }

  /** Joining one more part in front adds it and a separator. */
  lemma JoinCons(sep: string, x: string, parts: seq<string>)
    requires parts != []
    ensures Join(sep, [x] + parts) == x + sep + Join(sep, parts)
  {
    assert ([x] + parts)[1..] == parts;
  }

  /** A join splits at the separator placed before part `i` into the joins
      of the parts before `i` and from `i` on, so the parts keep their order. */
  lemma {:induction false} JoinSplitAt(sep: string, parts: seq<string>, i: nat)
    requires 0 < i < |parts|
    ensures Join(sep, parts) == Join(sep, parts[..i]) + sep + Join(sep, parts[i..])
    decreases i
  {
    if i == 1 {
      assert parts[..1] == [parts[0]];
      assert parts[1..] == parts[i..];
    } else {
      var tail := parts[1..];
      JoinSplitAt(sep, tail, i - 1);
      assert tail[..i - 1] == parts[1..i];
      assert tail[i - 1..] == parts[i..];
      assert parts[..i][1..] == parts[1..i];
    }
  }

  /** Each part of a join occurs in it. */
  lemma {:induction false} JoinContainsPart(sep: string, parts: seq<string>, i: nat)
    requires i < |parts|
    ensures Contains(Join(sep, parts), parts[i])
    decreases |parts|
  {
    var j := Join(sep, parts);
    if |parts| == 1 {
      assert OccursAt(j, parts[i], 0);
    } else if i == 0 {
      assert j[0..|parts[0]|] == parts[0];
      assert OccursAt(j, parts[i], 0);
    } else {
      var rest := Join(sep, parts[1..]);
      JoinContainsPart(sep, parts[1..], i - 1);
      var k :| OccursAt(rest, parts[i], k);
      var off := |parts[0]| + |sep|;
      assert j == parts[0] + sep + rest;
      assert j[off + k..off + k + |parts[i]|] == rest[k..k + |parts[i]|];
      assert OccursAt(j, parts[i], off + k);
    }
  }

  /** The length of a join: the parts plus one separator between neighbours. */
  lemma {:induction false} JoinLength(sep: string, parts: seq<string>)
    requires parts != []
    ensures |Join(sep, parts)| == SumLengths(parts) + (|parts| - 1) * |sep|
  {
    if |parts| > 1 {
      JoinLength(sep, parts[1..]);
    }
  }

  /** Total length of a sequence of strings. */
  function SumLengths(parts: seq<string>): nat {
    if parts == [] then 0 else |parts[0]| + SumLengths(parts[1..])
  }

  /** `s.split(sep)` has one piece more than `s.count(sep)`. */
  lemma {:induction false} SplitSize(s: string, sep: string)
    requires sep != []
    ensures |Split(s, sep)| == Count(s, sep) + 1
    decreases |s|
  {
    if s == [] {
    } else if StartsWith(s, sep) {
      SplitSize(s[|sep|..], sep);
    } else {
      SplitSize(s[1..], sep);
    }
  }

  /** `s.replace(pat, rep)` agrees with `rep.join(s.split(pat))`. */
  lemma {:induction false} ReplaceIsJoinOfSplit(s: string, pat: string, rep: string)
    requires pat != []
    ensures ReplaceAll(s, pat, rep) == Join(rep, Split(s, pat))
    decreases |s|
  {
    if s == [] {
    } else if StartsWith(s, pat) {
      var tail := s[|pat|..];
      var rest := Split(tail, pat);
      ReplaceIsJoinOfSplit(tail, pat, rep);
      assert Split(s, pat) == [""] + rest;
      JoinCons(rep, "", rest);
    } else {
      ReplaceIsJoinOfSplit(s[1..], pat, rep);
      var rest := Split(s[1..], pat);
      assert Split(s, pat) == [[s[0]] + rest[0]] + rest[1..];
      JoinPrefixFirst(rep, [s[0]], rest);
    }
  }

  /** Splitting at a separator and joining with it gives the string back. */
  lemma JoinSplitRoundTrip(s: string, sep: string)
    requires sep != []
    ensures Join(sep, Split(s, sep)) == s
  {
    ReplaceIsJoinOfSplit(s, sep, sep);
    ReplaceSelf(s, sep);
  }

  /** The first piece of a split is a prefix of the string. */
  lemma {:induction false} SplitFirstIsPrefix(s: string, sep: string)
    requires sep != []
    ensures |Split(s, sep)[0]| <= |s| && Split(s, sep)[0] == s[..|Split(s, sep)[0]|]
    decreases |s|
  {
    if s != [] && !StartsWith(s, sep) {
      SplitFirstIsPrefix(s[1..], sep);
    }
  }

  /** No piece of `s.split(sep)` contains `sep`: an occurrence of the
      separator either is one of the cuts between pieces or overlaps one. */
  lemma {:induction false} SplitPiecesFree(s: string, sep: string)
    requires sep != []
    ensures forall k :: 0 <= k < |Split(s, sep)| ==> !Contains(Split(s, sep)[k], sep)
    decreases |s|
  {
    var r := Split(s, sep);
    assert forall i :: !OccursAt("", sep, i);
    if s == [] {
    } else if StartsWith(s, sep) {
      SplitPiecesFree(s[|sep|..], sep);
      assert r == [""] + Split(s[|sep|..], sep);
    } else {
      var rest := Split(s[1..], sep);
      SplitPiecesFree(s[1..], sep);
      SplitFirstIsPrefix(s[1..], sep);
      var first := [s[0]] + rest[0];
      assert r == [first] + rest[1..];
      assert !Contains(first, sep) by {
        ContainsStep(first, sep);
        assert first[1..] == rest[0];
        assert first == s[..|first|];
        assert !StartsWith(first, sep) by {
          if |sep| <= |first| {
            assert s[..|sep|] == first[..|sep|];
          }
        }
      }
      forall k | 0 <= k < |r|
        ensures !Contains(r[k], sep)
      {
        if k > 0 {
          assert r[k] == rest[k];
        }
      }
    }
  }
}
