/**
 * The three Python `str` methods the bridge relies on: `startswith`,
 * `replace` and `split`, for a non-empty pattern (every call site in the
 * bridge passes a non-empty literal).
 */
module PyStr {

  /** `s.startswith(prefix)` */
  predicate StartsWith(s: string, prefix: string)
    ensures StartsWith(s, prefix) <==> |prefix| <= |s| && forall i | 0 <= i < |prefix| :: s[i] == prefix[i]
  {
    |prefix| <= |s| && s[..|prefix|] == prefix
  }

  /** `pat` occurs in `s` starting at index `i`. */
  predicate OccursAt(s: string, pat: string, i: int) {
    0 <= i && i + |pat| <= |s| && s[i..i + |pat|] == pat
  }

  /** `pat in s` */
  predicate Contains(s: string, pat: string) {
    exists i | 0 <= i <= |s| :: OccursAt(s, pat, i)
  }

  /**
   * `s.replace(pat, rep)`: scans left to right and replaces each leftmost,
   * non-overlapping occurrence of `pat`; text inserted by `rep` is not
   * scanned again.
   */
  function ReplaceAll(s: string, pat: string, rep: string): (r: string)
    requires |pat| > 0
    ensures |rep| == |pat| ==> |r| == |s|
    decreases |s|
  {
    if |s| < |pat| then s
    else if s[..|pat|] == pat then rep + ReplaceAll(s[|pat|..], pat, rep)
    else [s[0]] + ReplaceAll(s[1..], pat, rep)
  }

  /**
   * `s.split(sep)`: the pieces between the leftmost, non-overlapping
   * occurrences of `sep`; there is always one piece more than there are
   * occurrences, so `"".split(";")` is `[""]`.
   */
  function Split(s: string, sep: string): (parts: seq<string>)
    requires |sep| > 0
    ensures |parts| >= 1
    decreases |s|
  {
    if |s| < |sep| then [s]
    else if s[..|sep|] == sep then [""] + Split(s[|sep|..], sep)
    else
      var rest := Split(s[1..], sep);
      [[s[0]] + rest[0]] + rest[1..]
  }

  /** `sep.join(parts)` */
  function Join(parts: seq<string>, sep: string): string
    requires |parts| >= 1
  {
    if |parts| == 1 then parts[0] else parts[0] + sep + Join(parts[1..], sep)
  }

  /** Number of occurrences of the character `c` in `s`. */
  function CountChar(s: string, c: char): nat {
    multiset(s)[c]
  }

  // ---------------------------------------------------------------------
  // Occurrences

  lemma OccursAtHead(s: string, pat: string, i: int)
    requires |pat| > 0 && OccursAt(s, pat, i)
    ensures s[i] == pat[0]
  {
    assert s[i..i + |pat|][0] == s[i];
  }

  /** An occurrence in the tail of `s` is an occurrence in `s`, one further on. */
  lemma NotContainsTail(s: string, pat: string)
    requires |s| > 0 && !Contains(s, pat)
    ensures !Contains(s[1..], pat)
  {
    forall i | OccursAt(s[1..], pat, i)
      ensures OccursAt(s, pat, i + 1)
    {
      assert s[1..][i..i + |pat|] == s[i + 1..i + 1 + |pat|];
    }
  }

  /** A string whose characters all differ from the pattern's first one does not contain it. */
  lemma NotContainsWithoutHead(s: string, pat: string)
    requires |pat| > 0 && pat[0] !in s
    ensures !Contains(s, pat)
  {
    forall i | OccursAt(s, pat, i)
      ensures false
    {
      OccursAtHead(s, pat, i);
    }
  }

  // ---------------------------------------------------------------------
  // replace

  /** Replacing a pattern the string does not contain leaves it unchanged. */
  lemma {:induction false} ReplaceAllAbsent(s: string, pat: string, rep: string)
    requires |pat| > 0
    ensures !Contains(s, pat) ==> ReplaceAll(s, pat, rep) == s
    decreases |s|
  {
    if |s| >= |pat| && !Contains(s, pat) {
      assert !OccursAt(s, pat, 0);
      assert s[0..|pat|] == s[..|pat|];
      NotContainsTail(s, pat);
      ReplaceAllAbsent(s[1..], pat, rep);
      assert s == [s[0]] + s[1..];
    }
  }

  /** Replacing a pattern by itself gives the string back. */
  lemma {:induction false} ReplaceAllSelf(s: string, pat: string)
    requires |pat| > 0
    ensures ReplaceAll(s, pat, pat) == s
    decreases |s|
  {
    if |s| < |pat| {
    } else if s[..|pat|] == pat {
      ReplaceAllSelf(s[|pat|..], pat);
      assert s == s[..|pat|] + s[|pat|..];
    } else {
      ReplaceAllSelf(s[1..], pat);
      assert s == [s[0]] + s[1..];
    }
  }

  /** An occurrence at the very start is replaced, and scanning resumes after it. */
  lemma ReplaceAllAtStart(pat: string, t: string, rep: string)
    requires |pat| > 0
    ensures ReplaceAll(pat + t, pat, rep) == rep + ReplaceAll(t, pat, rep)
  {
    assert (pat + t)[..|pat|] == pat;
    assert (pat + t)[|pat|..] == t;
  }

  /** No occurrence starts inside an occurrence-free `a` followed by a character `c` not in the pattern. */
  lemma NoMatchBeforeSeparator(a: string, c: char, t: string, pat: string)
    requires |pat| > 0 && c !in pat && !Contains(a, pat)
    requires |a + [c] + t| >= |pat|
    ensures (a + [c] + t)[..|pat|] != pat
  {
    var s := a + [c] + t;
    if |pat| <= |a| {
      assert a[..|pat|] == s[..|pat|];
      assert !OccursAt(a, pat, 0);
    } else {
      assert s[..|pat|][|a|] == c;
    }
  }

  /**
   * A character `c` that does not occur in the pattern cuts the scan: an
   * occurrence-free prefix `a` and `c` are copied, and the rest is replaced
   * on its own.
   */
  lemma {:induction false} ReplaceAllSeparated(a: string, c: char, t: string, pat: string, rep: string)
    requires |pat| > 0 && c !in pat && !Contains(a, pat)
    ensures ReplaceAll(a + [c] + t, pat, rep) == a + [c] + ReplaceAll(t, pat, rep)
    decreases |a|
  {
    var s := a + [c] + t;
    if |s| < |pat| {
      assert |t| < |pat|;
    } else {
      var r := ReplaceAll(t, pat, rep);
      assert ReplaceAll(s, pat, rep) == [s[0]] + ReplaceAll(s[1..], pat, rep) by {
        NoMatchBeforeSeparator(a, c, t, pat);
      }
      if a == [] {
        assert s[1..] == t;
      } else {
        calc {
          ReplaceAll(s[1..], pat, rep);
          { assert s[1..] == a[1..] + [c] + t; }
          ReplaceAll(a[1..] + [c] + t, pat, rep);
          { NotContainsTail(a, pat); ReplaceAllSeparated(a[1..], c, t, pat, rep); }
          a[1..] + [c] + r;
        }
        assert [a[0]] + (a[1..] + [c] + r) == a + [c] + r;
      }
    }
  }

  // ---------------------------------------------------------------------
  // split and join

  lemma JoinConsChar(x: char, parts: seq<string>, sep: string)
    requires |parts| >= 1
    ensures Join([[x] + parts[0]] + parts[1..], sep) == [x] + Join(parts, sep)
  {
    var q := [[x] + parts[0]] + parts[1..];
    if |parts| > 1 {
      assert q[1..] == parts[1..];
    }
  }

  /** `s.replace(pat, rep) == rep.join(s.split(pat))`: replace agrees with split-then-join. */
  lemma {:induction false} ReplaceAllIsJoinOfSplit(s: string, pat: string, rep: string)
    requires |pat| > 0
    ensures ReplaceAll(s, pat, rep) == Join(Split(s, pat), rep)
    decreases |s|
  {
    if |s| < |pat| {
    } else if s[..|pat|] == pat {
      ReplaceAllIsJoinOfSplit(s[|pat|..], pat, rep);
      var rest := Split(s[|pat|..], pat);
      assert ([""] + rest)[1..] == rest;
    } else {
      ReplaceAllIsJoinOfSplit(s[1..], pat, rep);
      JoinConsChar(s[0], Split(s[1..], pat), rep);
    }
  }

  /** The first piece of a split is a prefix of the string. */
  lemma {:induction false} SplitHeadPrefix(s: string, sep: string)
    requires |sep| > 0
    ensures |Split(s, sep)[0]| <= |s| && Split(s, sep)[0] == s[..|Split(s, sep)[0]|]
    decreases |s|
  {
    if |s| >= |sep| && s[..|sep|] != sep {
      SplitHeadPrefix(s[1..], sep);
    }
  }

  /** No piece of a split contains the separator: every occurrence is cut out. */
  lemma {:induction false} SplitPiecesFree(s: string, sep: string)
    requires |sep| > 0
    ensures forall q | q in Split(s, sep) :: !Contains(q, sep)
    decreases |s|
  {
    if |s| < |sep| {
      assert Split(s, sep) == [s];
    } else if s[..|sep|] == sep {
      SplitPiecesFree(s[|sep|..], sep);
      assert !Contains("", sep);
    } else {
      var rest := Split(s[1..], sep);
      SplitPiecesFree(s[1..], sep);
      SplitHeadPrefix(s[1..], sep);
      var q := [s[0]] + rest[0];
      assert q == s[..|q|];
      assert rest[0] in rest;
      forall i | 0 <= i <= |q|
        ensures !OccursAt(q, sep, i)
      {
        if i == 0 {
          if |sep| <= |q| {
            assert q[0..|sep|] == s[..|sep|];
          }
        } else {
          assert !OccursAt(rest[0], sep, i - 1);
          if i + |sep| <= |q| {
            assert q[i..i + |sep|] == rest[0][i - 1..i - 1 + |sep|];
          }
        }
      }
      assert forall p | p in rest[1..] :: p in rest;
    }
  }

  /** Joining the pieces of a split with the separator gives the string back. */
  lemma SplitJoinRoundTrip(s: string, sep: string)
    requires |sep| > 0
    ensures Join(Split(s, sep), sep) == s
  {
    ReplaceAllIsJoinOfSplit(s, sep, sep);
    ReplaceAllSelf(s, sep);
  }

  /** A string without the separator character splits into itself alone. */
  lemma {:induction false} SplitAbsent(s: string, c: char)
    requires c !in s
    ensures Split(s, [c]) == [s]
    decreases |s|
  {
    if |s| >= 1 {
      assert s[..1] != [c] by { assert s[..1][0] == s[0]; }
      SplitAbsent(s[1..], c);
      assert s == [s[0]] + s[1..];
    }
  }

  /** Splitting on a single character distributes over an occurrence of it. */
  lemma {:induction false} SplitConcat(a: string, c: char, b: string)
    ensures Split(a + [c] + b, [c]) == Split(a, [c]) + Split(b, [c])
    decreases |a|
  {
    var s := a + [c] + b;
    if a == [] {
      assert s[..1] == [c];
      assert s[1..] == b;
    } else {
      assert s[..1] == a[..1] && s[..1][0] == a[0] && a[..1][0] == a[0];
      assert s[1..] == a[1..] + [c] + b;
      SplitConcat(a[1..], c, b);
      if a[0] == c {
        assert a[..1] == [c];
      } else {
        assert a[..1] != [c];
        var ra := Split(a[1..], [c]);
        assert (ra + Split(b, [c]))[0] == ra[0];
        assert (ra + Split(b, [c]))[1..] == ra[1..] + Split(b, [c]);
      }
    }
  }

  /** Splitting on a single character gives one piece more than it occurs. */
  lemma {:induction false} SplitCount(s: string, c: char)
    ensures |Split(s, [c])| == CountChar(s, c) + 1
    decreases |s|
  {
    if |s| >= 1 {
      assert s == [s[0]] + s[1..];
      assert s[..1] == [s[0]];
      assert multiset(s) == multiset([s[0]]) + multiset(s[1..]);
      SplitCount(s[1..], c);
    }
  }
}
