/**
 * Python's `s.replace(pat, rep)`: a left-to-right scan that replaces every
 * non-overlapping occurrence of `pat` by `rep` and never rescans the text it
 * has just written.
 */
module Replace {
  import opened Text

  /**
   * `s.replace(pat, rep)`. With an empty `pat`, Python writes `rep` before
   * every character and once more at the end.
   */
  function ReplaceAll(s: string, pat: string, rep: string): string
    decreases |s|
  {
    if pat == [] then
      if s == [] then rep else rep + [s[0]] + ReplaceAll(s[1..], pat, rep)
    else if pat <= s then
      rep + ReplaceAll(s[|pat|..], pat, rep)
    else if s == [] then
      []
    else
      [s[0]] + ReplaceAll(s[1..], pat, rep)
  }

  /** With nothing to replace, the text comes back unchanged. */
  lemma {:induction false} ReplaceAbsent(s: string, pat: string, rep: string)
    requires !Contains(s, pat)
    ensures ReplaceAll(s, pat, rep) == s
    decreases |s|
  {
    assert OccursAt(s, [], 0);
    if s != [] {
      ContainsCons(s, pat);
      ReplaceAbsent(s[1..], pat, rep);
    }
  }

  /**
   * A prefix `w` of the replaced text whose suffixes all disagree with `rep`
   * never reaches an inserted `rep`, so it is also a prefix of the original.
   */
  lemma {:induction false} PrefixOfReplaced(t: string, pat: string, rep: string, w: string)
    requires pat != []
    requires forall j :: 0 <= j < |w| ==> !Compatible(w[j..], rep)
    requires w <= ReplaceAll(t, pat, rep)
    ensures w <= t
    decreases |t|
  {
    if w != [] {
      assert w[0..] == w;
      PrefixOfConcat(w, rep);
      if pat <= t {
        assert false;
      } else if t != [] {
        var w' := w[1..];
        forall j | 0 <= j < |w'|
          ensures !Compatible(w'[j..], rep)
        {
          assert w'[j..] == w[j + 1..];
        }
        PrefixOfReplaced(t[1..], pat, rep, w');
      }
    }
  }

  /**
   * Every occurrence of `q` in the replaced text lies in text the scan copied
   * unchanged, where `pat` did not begin; so `q` was already in `s`, and `q`
   * does not start with `pat`.
   */
  lemma {:induction false} ReplacedOccurrence(s: string, pat: string, rep: string, q: string)
    requires pat != [] && q != []
    requires CannotStartInside(q, rep) && CannotRunInto(q, rep)
    requires Contains(ReplaceAll(s, pat, rep), q)
    ensures Contains(s, q) && !(pat <= q)
    decreases |s|
  {
    var r := ReplaceAll(s, pat, rep);
    var p :| 0 <= p <= |r| && OccursAt(r, q, p);
    if pat <= s {
      var s' := s[|pat|..];
      var x := ReplaceAll(s', pat, rep);
      assert r == rep + x;
      StartsInsideFirst(rep, x, q, p);
      OccursInSecond(rep, x, q, p);
      ReplacedOccurrence(s', pat, rep, q);
      ContainsSuffix(s, q, |pat|);
    } else if s == [] {
      assert false;
    } else {
      var x := ReplaceAll(s[1..], pat, rep);
      assert r == [s[0]] + x;
      if p == 0 {
        OccursAtIsPrefix(r, q, 0);
        CopiedHead(s, pat, rep, q);
        PrefixContained(s, q);
      } else {
        OccursInSecond([s[0]], x, q, p);
        ReplacedOccurrence(s[1..], pat, rep, q);
        ContainsSuffix(s, q, 1);
      }
    }
  }

  /** An occurrence that begins in the second part of a concatenation is an occurrence in that part. */
  lemma OccursInSecond(a: string, b: string, q: string, p: int)
    requires OccursAt(a + b, q, p) && p >= |a|
    ensures OccursAt(b, q, p - |a|)
  {
    assert (a + b)[p..p + |q|] == b[p - |a|..p - |a| + |q|];
  }

  /**
   * A `q` at the start of the replaced text, where the scan copied the first
   * character, was at the start of the original: it cannot run into a `rep`.
   */
  lemma CopiedHead(s: string, pat: string, rep: string, q: string)
    requires pat != [] && s != [] && !(pat <= s) && q != []
    requires CannotRunInto(q, rep)
    ensures q <= ReplaceAll(s, pat, rep) ==> q <= s
  {
    if q <= ReplaceAll(s, pat, rep) {
      CopiedHeadPrefix(s, pat, rep, q);
    }
  }

  lemma CopiedHeadPrefix(s: string, pat: string, rep: string, q: string)
    requires pat != [] && s != [] && !(pat <= s) && q != []
    requires CannotRunInto(q, rep)
    requires q <= ReplaceAll(s, pat, rep)
    ensures q <= s
  {
    var x := ReplaceAll(s[1..], pat, rep);
    assert ReplaceAll(s, pat, rep) == [s[0]] + x;
    var w := q[1..];
    forall j | 0 <= j < |w|
      ensures !Compatible(w[j..], rep)
    {
      assert w[j..] == q[j + 1..];
    }
    assert w <= x;
    PrefixOfReplaced(s[1..], pat, rep, w);
    assert q == [s[0]] + w;
  }

  /** An occurrence that begins inside the first part agrees with the rest of that part. */
  lemma StartsInsideFirst(a: string, b: string, q: string, p: int)
    ensures OccursAt(a + b, q, p) && p < |a| ==> Compatible(q, a[p..])
  {
    if OccursAt(a + b, q, p) && p < |a| {
      if p + |q| <= |a| {
        assert q == a[p..p + |q|];
      } else {
        assert a[p..] == (a + b)[p..p + |q|][..|a| - p];
      }
    }
  }

  /** A prefix of `rep + x` agrees with `rep` on their common length. */
  lemma PrefixOfConcat(w: string, rep: string)
    ensures forall x :: w <= rep + x ==> Compatible(w, rep)
  {
    forall x | w <= rep + x
      ensures Compatible(w, rep)
    {
      if |w| <= |rep| {
        assert w == (rep + x)[..|w|] == rep[..|w|];
      } else {
        assert rep == (rep + x)[..|rep|] == w[..|rep|];
      }
    }
  }

  /** When `pat` can neither begin inside `rep` nor run into it, no `pat` survives the replacement. */
  lemma ReplaceRemoves(s: string, pat: string, rep: string)
    requires pat != []
    requires CannotStartInside(pat, rep) && CannotRunInto(pat, rep)
    ensures !Contains(ReplaceAll(s, pat, rep), pat)
  {
    if Contains(ReplaceAll(s, pat, rep), pat) {
      ReplacedOccurrence(s, pat, rep, pat);
    }
  }

  /** A string absent from `s` that can neither begin inside `rep` nor run into it stays absent. */
  lemma ReplaceKeepsOut(s: string, pat: string, rep: string, q: string)
    requires pat != []
    requires CannotStartInside(q, rep) && CannotRunInto(q, rep)
    requires !Contains(s, q)
    ensures !Contains(ReplaceAll(s, pat, rep), q)
  {
    assert OccursAt(s, [], 0);
    if Contains(ReplaceAll(s, pat, rep), q) {
      ReplacedOccurrence(s, pat, rep, q);
    }
  }

  /** Under the same conditions, replacing a second time changes nothing. */
  lemma ReplaceIdempotent(s: string, pat: string, rep: string)
    requires pat != []
    requires CannotStartInside(pat, rep) && CannotRunInto(pat, rep)
    ensures ReplaceAll(ReplaceAll(s, pat, rep), pat, rep) == ReplaceAll(s, pat, rep)
  {
    ReplaceRemoves(s, pat, rep);
    ReplaceAbsent(ReplaceAll(s, pat, rep), pat, rep);
  }

  /**
   * Every character outside the replaced occurrences is kept: replacing `rep`
   * by `pat` afterwards gives `s` back, provided `s` did not already hold `rep`
   * and no proper suffix of `rep` agrees with `rep` itself.
   */
  lemma {:induction false} ReplaceUndo(s: string, pat: string, rep: string)
    requires pat != [] && rep != []
    requires CannotRunInto(rep, rep)
    requires !Contains(s, rep)
    ensures ReplaceAll(ReplaceAll(s, pat, rep), rep, pat) == s
    decreases |s|
  {
    if pat <= s {
      var s' := s[|pat|..];
      var x := ReplaceAll(s', pat, rep);
      assert (rep + x)[|rep|..] == x;
      if Contains(s', rep) {
        ContainsSuffix(s, rep, |pat|);
      }
      ReplaceUndo(s', pat, rep);
      assert s == pat + s';
    } else if s != [] {
      var x := ReplaceAll(s[1..], pat, rep);
      ContainsCons(s, rep);
      CopiedHead(s, pat, rep, rep);
      assert ReplaceAll(s, pat, rep) == [s[0]] + x;
      assert ([s[0]] + x)[1..] == x;
      ReplaceUndo(s[1..], pat, rep);
    }
  }

  /** Every occurrence of `pat` leaves a `rep` behind. */
  lemma {:induction false} ReplaceLeavesRep(s: string, pat: string, rep: string)
    requires pat != []
    requires Contains(s, pat)
    ensures Contains(ReplaceAll(s, pat, rep), rep)
    decreases |s|
  {
    var r := ReplaceAll(s, pat, rep);
    if pat <= s {
      PrefixContained(r, rep);
    } else {
      ContainsCons(s, pat);
      ReplaceLeavesRep(s[1..], pat, rep);
      assert r[1..] == ReplaceAll(s[1..], pat, rep);
      ContainsSuffix(r, rep, 1);
    }
  }

  /** A `rep` at least as long as `pat` never shortens the text, and lengthens it when `pat` occurs. */
  lemma {:induction false} ReplaceLength(s: string, pat: string, rep: string)
    requires pat != [] && |rep| >= |pat|
    ensures |ReplaceAll(s, pat, rep)| >= |s|
    ensures |rep| > |pat| && Contains(s, pat) ==> |ReplaceAll(s, pat, rep)| > |s|
    decreases |s|
  {
    ContainsCons(s, pat);
    if pat <= s {
      ReplaceLength(s[|pat|..], pat, rep);
    } else if s != [] {
      ReplaceLength(s[1..], pat, rep);
    }
  }

  /**
   * A replacement whose `rep` is longer than `pat` and still holds `pat` is
   * never idempotent on a text that holds `pat`.
   */
  lemma ReplaceGrowsAgain(s: string, pat: string, rep: string)
    requires pat != [] && |rep| > |pat|
    requires Contains(rep, pat)
    requires Contains(s, pat)
    ensures ReplaceAll(ReplaceAll(s, pat, rep), pat, rep) != ReplaceAll(s, pat, rep)
  {
    var r := ReplaceAll(s, pat, rep);
    ReplaceLeavesRep(s, pat, rep);
    ContainsTransitive(r, rep, pat);
    ReplaceLength(r, pat, rep);
  }

  /**
   * Replacing in `a + b` is replacing in each part, when no `pat` can begin
   * in `a` and run into `b`.
   */
  lemma {:induction false} ReplaceConcat(a: string, b: string, pat: string, rep: string)
    requires pat != []
    requires CannotRunInto(pat, b)
    ensures ReplaceAll(a + b, pat, rep) == ReplaceAll(a, pat, rep) + ReplaceAll(b, pat, rep)
    decreases |a|
  {
    if a == [] {
      assert a + b == b;
    } else if pat <= a + b {
      MatchInFirst(a, b, pat);
      ReplaceConcat(a[|pat|..], b, pat, rep);
      ConcatStep(a, b, pat, rep, |pat|, rep);
    } else {
      assert !(pat <= a) && (a + b)[1..] == a[1..] + b;
      ReplaceConcat(a[1..], b, pat, rep);
      ConcatStep(a, b, pat, rep, 1, [a[0]]);
    }
  }

  /** A `pat` at the start of `a + b` that cannot run into `b` lies within `a`. */
  lemma MatchInFirst(a: string, b: string, pat: string)
    requires a != [] && pat <= a + b
    requires CannotRunInto(pat, b)
    ensures pat <= a && (a + b)[|pat|..] == a[|pat|..] + b
  {
    if |a| < |pat| {
      RunsInto(a, b, pat);
      assert false;
    }
    assert (a + b)[..|pat|] == a[..|pat|];
  }

  /** A `pat` at the start of `a + b` that is longer than `a` runs into `b`. */
  lemma RunsInto(a: string, b: string, pat: string)
    requires |a| < |pat| && pat <= a + b
    ensures Compatible(pat[|a|..], b)
  {
    assert pat[|a|..] <= b;
  }

  /**
   * One step of the scan over `a + b` that stays inside `a`: consuming `n`
   * characters and writing `out` in both texts carries the split over.
   */
  lemma ConcatStep(a: string, b: string, pat: string, rep: string, n: nat, out: string)
    requires pat != [] && n <= |a|
    requires pat <= a ==> n == |pat| && out == rep
    requires !(pat <= a) ==> n == 1 && out == [a[0]]
    requires (a + b)[n..] == a[n..] + b
    requires ReplaceAll(a[n..] + b, pat, rep) == ReplaceAll(a[n..], pat, rep) + ReplaceAll(b, pat, rep)
    requires pat <= a <==> pat <= a + b
    ensures ReplaceAll(a + b, pat, rep) == ReplaceAll(a, pat, rep) + ReplaceAll(b, pat, rep)
  {
    if pat <= a {
      ReplaceAtMatch(a + b, pat, rep);
      ReplaceAtMatch(a, pat, rep);
    } else {
      ReplaceAtMiss(a + b, pat, rep);
      ReplaceAtMiss(a, pat, rep);
    }
    AppendStep(ReplaceAll(a + b, pat, rep), ReplaceAll(a, pat, rep), ReplaceAll(a[n..] + b, pat, rep),
               out, ReplaceAll(a[n..], pat, rep), ReplaceAll(b, pat, rep));
  }

  /**
   * At its first `pat`, found by `s.find(pat)` at `i`, the text is copied up
   * to the occurrence, `rep` is written, and the scan goes on with the `rest`
   * behind it.
   */
  lemma {:induction false} ReplaceAtFirst(s: string, pat: string, rep: string, i: int, rest: string)
    requires pat != [] && i == IndexOf(s, pat) && i != -1 && rest == s[i + |pat|..]
    ensures ReplaceAll(s, pat, rep) == s[..i] + rep + ReplaceAll(rest, pat, rep)
    decreases |s|
  {
    if pat <= s {
      ReplaceAtMatch(s, pat, rep);
      assert s[..i] == [] && rest == s[|pat|..];
    } else {
      var k := IndexOf(s[1..], pat);
      DropDrop(s, 1, k + |pat|, i + |pat|);
      ReplaceAtFirst(s[1..], pat, rep, k, rest);
      FirstStep(s, pat, rep, k, i, rest);
    }
  }

  /** The step of `ReplaceAtFirst` past a first character that does not begin `pat`. */
  lemma FirstStep(s: string, pat: string, rep: string, k: nat, i: nat, rest: string)
    requires pat != [] && s != [] && !(pat <= s) && i == k + 1 <= |s|
    requires ReplaceAll(s[1..], pat, rep) == s[1..][..k] + rep + ReplaceAll(rest, pat, rep)
    ensures ReplaceAll(s, pat, rep) == s[..i] + rep + ReplaceAll(rest, pat, rep)
  {
    ReplaceAtMiss(s, pat, rep);
    HeadSlice(s, k, i);
    Regroup(ReplaceAll(s, pat, rep), ReplaceAll(s[1..], pat, rep), s[..i],
            [s[0]], s[1..][..k], rep, ReplaceAll(rest, pat, rep));
  }

  /**
   * `s.replace(pat, rep)` is `rep.join(s.split(pat))` for a non-empty `pat`:
   * every occurrence that `s.find` meets, one after another, is replaced.
   */
  lemma {:induction false} ReplaceSplit(s: string, pat: string, rep: string)
    requires pat != []
    ensures ReplaceAll(s, pat, rep) == Join(Split(s, pat), rep)
    decreases |s|
  {
    var i := IndexOf(s, pat);
    IndexOfFinds(s, pat);
    if i == -1 {
      ReplaceAbsent(s, pat, rep);
    } else {
      var rest := s[i + |pat|..];
      ReplaceAtFirst(s, pat, rep, i, rest);
      SplitAt(s, pat, i, rest);
      ReplaceSplit(rest, pat, rep);
      JoinCons(s[..i], Split(rest, pat), rep);
    }
  }

  /** A replacement adds no character that neither the text nor `rep` holds. */
  lemma {:induction false} ReplaceNoNewChar(s: string, pat: string, rep: string, c: char)
    requires pat != []
    requires c !in s && c !in rep
    ensures c !in ReplaceAll(s, pat, rep)
    decreases |s|
  {
    if pat <= s {
      assert forall x :: x in s[|pat|..] ==> x in s;
      ReplaceNoNewChar(s[|pat|..], pat, rep, c);
      ReplaceAtMatch(s, pat, rep);
    } else if s != [] {
      assert forall x :: x in s[1..] ==> x in s;
      ReplaceNoNewChar(s[1..], pat, rep, c);
      ReplaceAtMiss(s, pat, rep);
    }
  }

  /** `s.replace(pat, rep)` applied to each line of a list. */
  function ReplaceEach(ls: seq<string>, pat: string, rep: string): (r: seq<string>)
    ensures |r| == |ls|
  {
    if ls == [] then [] else [ReplaceAll(ls[0], pat, rep)] + ReplaceEach(ls[1..], pat, rep)
  }

  /**
   * A replacement in which neither `pat` nor `rep` holds a line break works
   * line by line: the lines of the result are the replaced lines of the text.
   */
  lemma {:induction false} ReplaceLines(s: string, pat: string, rep: string)
    requires pat != [] && '\n' !in pat && '\n' !in rep
    ensures Lines(ReplaceAll(s, pat, rep)) == ReplaceEach(Lines(s), pat, rep)
    decreases |s|
  {
    var n := LineEnd(s);
    LineEndNoBreak(s);
    if n == |s| {
      assert s[..n] == s;
      ReplaceLastLine(s, pat, rep);
    } else {
      var a := s[..n];
      var rest := s[n + 1..];
      assert s == a + "\n" + rest;
      ReplaceLines(rest, pat, rep);
      ReplaceLineStep(a, rest, pat, rep);
    }
  }

  /** `ReplaceLines` for a text of one line. */
  lemma ReplaceLastLine(s: string, pat: string, rep: string)
    requires pat != [] && '\n' !in rep && '\n' !in s
    ensures Lines(ReplaceAll(s, pat, rep)) == ReplaceEach(Lines(s), pat, rep)
  {
    ReplaceNoNewChar(s, pat, rep, '\n');
    SingleLine(s);
    SingleLine(ReplaceAll(s, pat, rep));
    assert ReplaceEach([s], pat, rep) == [ReplaceAll(s, pat, rep)] + ReplaceEach([], pat, rep);
  }

  /** `ReplaceLines` for a first line `a` and the rest of the text behind its line break. */
  lemma ReplaceLineStep(a: string, rest: string, pat: string, rep: string)
    requires pat != [] && '\n' !in pat && '\n' !in rep && '\n' !in a
    requires Lines(ReplaceAll(rest, pat, rep)) == ReplaceEach(Lines(rest), pat, rep)
    ensures Lines(ReplaceAll(a + "\n" + rest, pat, rep)) == ReplaceEach(Lines(a + "\n" + rest), pat, rep)
  {
    var ra := ReplaceAll(a, pat, rep);
    var rr := ReplaceAll(rest, pat, rep);
    ReplaceNoNewChar(a, pat, rep, '\n');
    ReplaceFirstLine(a, rest, pat, rep);
    LinesCons(ra, rr);
    LinesCons(a, rest);
    assert ([a] + Lines(rest))[1..] == Lines(rest);
  }

  /** No `pat` without a line break crosses one: the first line and the rest are replaced apart. */
  lemma ReplaceFirstLine(a: string, rest: string, pat: string, rep: string)
    requires pat != [] && '\n' !in pat
    ensures ReplaceAll(a + "\n" + rest, pat, rep) == ReplaceAll(a, pat, rep) + "\n" + ReplaceAll(rest, pat, rep)
  {
    var t := "\n" + rest;
    assert a + "\n" + rest == a + t;
    assert forall x :: x in pat[1..] ==> x in pat;
    RunIntoByFirst(pat, t);
    ReplaceConcat(a, t, pat, rep);
    assert pat[0] in pat;
    assert t[1..] == rest;
    ReplaceAtMiss(t, pat, rep);
  }

  lemma ReplaceAtMatch(s: string, pat: string, rep: string)
    requires pat != [] && pat <= s
    ensures ReplaceAll(s, pat, rep) == rep + ReplaceAll(s[|pat|..], pat, rep)
  {
  }

  lemma ReplaceAtMiss(s: string, pat: string, rep: string)
    requires pat != [] && s != [] && !(pat <= s)
    ensures ReplaceAll(s, pat, rep) == [s[0]] + ReplaceAll(s[1..], pat, rep)
  {
  }

}
