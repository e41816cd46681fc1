/**
 * `re.sub(key + ".*", rep, s)` for a literal `key`. Python's `.` matches any
 * character but a line break, so a match runs from a `key` to the end of its
 * line; on every line that holds `key`, everything from the first `key` on
 * becomes `rep`.
 */
module LineSub {
  import opened Text
  import opened Replace

  /**
   * The scan `re.sub` performs: where `key` begins, the match is stretched to
   * the end of the line and replaced by `rep`, and scanning resumes at the line
   * break; elsewhere the character is copied.
   */
  function ForceLineTail(s: string, key: string, rep: string): string
    requires key != []
    decreases |s|
  {
    if key <= s then
      rep + ForceLineTail(s[|key| + LineEnd(s[|key|..])..], key, rep)
    else if s == [] then
      []
    else
      [s[0]] + ForceLineTail(s[1..], key, rep)
  }

  /**
   * The same rewrite stated for one line: cut the line at its first `key`
   * and finish it with `rep`; a line without `key` stays as it is.
   */
  function ForceLine(line: string, key: string, rep: string): string
  {
    var i := IndexOf(line, key);
    if i == -1 then line else line[..i] + rep
  }

  /**
   * What `ForceLine` gives: the line itself when it holds no `key`; otherwise
   * the part of the line before its first `key`, followed by `rep`.
   */
  lemma ForceLineShape(line: string, key: string, rep: string)
    ensures !Contains(line, key) ==> ForceLine(line, key, rep) == line
    ensures Contains(line, key) ==>
      var r := ForceLine(line, key, rep);
      |rep| <= |r| && r[|r| - |rep|..] == rep && r[..|r| - |rep|] <= line &&
      OccursAt(line, key, |r| - |rep|) &&
      forall j :: 0 <= j < |r| - |rep| ==> !OccursAt(line, key, j)
  {
    var i := IndexOf(line, key);
    IndexOfFinds(line, key);
    if i != -1 {
      var r := line[..i] + rep;
      assert r[|r| - |rep|..] == rep && r[..|r| - |rep|] == line[..i];
    }
  }

  /** A line and a `rep` without a line break give a line without one. */
  lemma ForceLineNoBreak(line: string, key: string, rep: string)
    requires '\n' !in line && '\n' !in rep
    ensures '\n' !in ForceLine(line, key, rep)
  {
    var i := IndexOf(line, key);
    if i != -1 {
      assert forall c :: c in line[..i] ==> c in line;
    }
  }

  /** The scan at a `key`: `rep` is written and the scan resumes at `e`, the end of the line. */
  lemma ForceAtMatchAt(s: string, key: string, rep: string, e: nat)
    requires key != [] && key <= s && e == |key| + LineEnd(s[|key|..])
    ensures e <= |s| && ForceLineTail(s, key, rep) == rep + ForceLineTail(s[e..], key, rep)
  {
  }

  lemma ForceAtMiss(s: string, key: string, rep: string)
    requires key != [] && s != [] && !(key <= s)
    ensures ForceLineTail(s, key, rep) == [s[0]] + ForceLineTail(s[1..], key, rep)
  {
  }

  /** A text without `key` is left unchanged. */
  lemma {:induction false} ForceAbsent(s: string, key: string, rep: string)
    requires key != []
    requires !Contains(s, key)
    ensures ForceLineTail(s, key, rep) == s
    decreases |s|
  {
    if s != [] {
      ContainsCons(s, key);
      ForceAbsent(s[1..], key, rep);
      ForceAtMiss(s, key, rep);
    }
  }

  /** Forcing adds no character that neither the text nor `rep` holds. */
  lemma {:induction false} ForceNoNewChar(s: string, key: string, rep: string, c: char)
    requires key != []
    requires c !in s && c !in rep
    ensures c !in ForceLineTail(s, key, rep)
    decreases |s|
  {
    if key <= s {
      var e := |key| + LineEnd(s[|key|..]);
      ForceAtMatchAt(s, key, rep, e);
      assert forall x :: x in s[e..] ==> x in s;
      ForceNoNewChar(s[e..], key, rep, c);
    } else if s != [] {
      assert forall x :: x in s[1..] ==> x in s;
      ForceNoNewChar(s[1..], key, rep, c);
      ForceAtMiss(s, key, rep);
    }
  }

  /** A key cannot run past a line break. */
  lemma KeyWithinLine(a: string, b: string, key: string)
    requires '\n' !in key && key <= a + b
    requires b == [] || b[0] == '\n'
    ensures key <= a
  {
    if b != [] {
      BreakBound(a + b, key, |a|);
    }
  }

  /** On a line that starts with `key`, `ForceLine` gives just `rep`. */
  lemma ForceLineAtKey(line: string, key: string, rep: string)
    requires key <= line
    ensures ForceLine(line, key, rep) == rep
  {
    OccursAtIsPrefix(line, key, 0);
  }

  /** On a line that does not start with `key`, `ForceLine` keeps the first character and goes on. */
  lemma ForceLineAtMiss(line: string, key: string, rep: string)
    requires line != [] && !(key <= line)
    ensures ForceLine(line, key, rep) == [line[0]] + ForceLine(line[1..], key, rep)
  {
    var k := IndexOf(line[1..], key);
    if k != -1 {
      assert line[..k + 1] == [line[0]] + line[1..][..k];
    }
  }

  /**
   * The scan, run over a line `a` followed by a line break or nothing, acts on
   * `a` as `ForceLine` does and then goes on with the rest.
   */
  lemma {:induction false} ForceOneLine(a: string, t: string, key: string, rep: string)
    requires key != [] && '\n' !in key
    requires '\n' !in a
    requires t == [] || t[0] == '\n'
    ensures ForceLineTail(a + t, key, rep) == ForceLine(a, key, rep) + ForceLineTail(t, key, rep)
    decreases |a|
  {
    if key <= a + t {
      OneLineMatch(a, t, key, rep);
    } else if a == [] {
      assert a + t == t;
      ContainsEmpty(key);
    } else {
      assert '\n' !in a[1..] by {
        assert forall c :: c in a[1..] ==> c in a;
      }
      ForceOneLine(a[1..], t, key, rep);
      OneLineMissStep(a, t, key, rep);
    }
  }

  /** `ForceOneLine` where the line starts with `key`: the whole line becomes `rep`. */
  lemma OneLineMatch(a: string, t: string, key: string, rep: string)
    requires key != [] && '\n' !in key
    requires '\n' !in a
    requires t == [] || t[0] == '\n'
    requires key <= a + t
    ensures ForceLineTail(a + t, key, rep) == rep + ForceLineTail(t, key, rep)
    ensures ForceLine(a, key, rep) == rep
  {
    var s := a + t;
    KeyWithinLine(a, t, key);
    assert s[|key|..] == a[|key|..] + t;
    assert '\n' !in a[|key|..] by {
      assert forall c :: c in a[|key|..] ==> c in a;
    }
    LineEndConcat(a[|key|..], t);
    assert s[|a|..] == t;
    ForceAtMatchAt(s, key, rep, |a|);
    ForceLineAtKey(a, key, rep);
  }

  /** `ForceOneLine` where the line does not start with `key`, given the claim for the rest of it. */
  lemma OneLineMissStep(a: string, t: string, key: string, rep: string)
    requires key != [] && a != []
    requires !(key <= a + t)
    requires ForceLineTail(a[1..] + t, key, rep) == ForceLine(a[1..], key, rep) + ForceLineTail(t, key, rep)
    ensures ForceLineTail(a + t, key, rep) == ForceLine(a, key, rep) + ForceLineTail(t, key, rep)
  {
    TailMissConcat(a, t, key, rep);
    LineMissConcat(a, t, key, rep);
    AppendStep(ForceLineTail(a + t, key, rep), ForceLine(a, key, rep), ForceLineTail(a[1..] + t, key, rep),
               [a[0]], ForceLine(a[1..], key, rep), ForceLineTail(t, key, rep));
  }

  lemma TailMissConcat(a: string, t: string, key: string, rep: string)
    requires key != [] && a != [] && !(key <= a + t)
    ensures ForceLineTail(a + t, key, rep) == [a[0]] + ForceLineTail(a[1..] + t, key, rep)
  {
    var s := a + t;
    assert s[1..] == a[1..] + t;
    ForceAtMiss(s, key, rep);
  }

  lemma LineMissConcat(a: string, t: string, key: string, rep: string)
    requires a != [] && !(key <= a + t)
    ensures ForceLine(a, key, rep) == [a[0]] + ForceLine(a[1..], key, rep)
  {
    assert !(key <= a);
    ForceLineAtMiss(a, key, rep);
  }

  /** A line break is copied, and the scan goes on behind it. */
  lemma ForceNewline(t: string, key: string, rep: string)
    requires key != [] && '\n' !in key
    ensures ForceLineTail("\n" + t, key, rep) == "\n" + ForceLineTail(t, key, rep)
  {
    var s := "\n" + t;
    assert !(key <= s) by {
      assert key[0] in key && key[0] != s[0];
    }
    assert s[1..] == t;
    ForceAtMiss(s, key, rep);
  }

  /** `ForceLine` applied to each line of a list. */
  function ForceEach(ls: seq<string>, key: string, rep: string): (r: seq<string>)
    ensures |r| == |ls|
  {
    if ls == [] then [] else [ForceLine(ls[0], key, rep)] + ForceEach(ls[1..], key, rep)
  }

  /** Each element of `ForceEach` is `ForceLine` of the corresponding line. */
  lemma {:induction false} ForceEachAt(ls: seq<string>, key: string, rep: string, i: int)
    requires 0 <= i < |ls|
    ensures ForceEach(ls, key, rep)[i] == ForceLine(ls[i], key, rep)
    decreases |ls|
  {
    var f := ForceEach(ls, key, rep);
    assert f == [ForceLine(ls[0], key, rep)] + ForceEach(ls[1..], key, rep);
    if i > 0 {
      ForceEachAt(ls[1..], key, rep, i - 1);
      assert ls[1..][i - 1] == ls[i];
      assert f[i] == ForceEach(ls[1..], key, rep)[i - 1];
    }
  }

  /**
   * Line by line: the lines of the output are the lines of the input, each
   * cut at its first `key` and finished with `rep`, or kept when it has no `key`.
   */
  lemma {:induction false} ForceLineTailLines(s: string, key: string, rep: string)
    requires key != [] && '\n' !in key && '\n' !in rep
    ensures Lines(ForceLineTail(s, key, rep)) == ForceEach(Lines(s), key, rep)
    decreases |s|
  {
    var n := LineEnd(s);
    if n == |s| {
      ForceLastLine(s, key, rep);
    } else {
      var a := s[..n];
      var rest := s[n + 1..];
      LineEndNoBreak(s);
      assert s == a + "\n" + rest;
      ForceLineTailLines(rest, key, rep);
      ForceLineStep(a, rest, key, rep);
    }
  }

  /** `ForceLineTailLines`, line by line: the line count is kept and line `i` is `ForceLine` of line `i`. */
  lemma ForceLastLine(s: string, key: string, rep: string)
    requires key != [] && '\n' !in key && '\n' !in rep
    requires LineEnd(s) == |s|
    ensures Lines(ForceLineTail(s, key, rep)) == ForceEach(Lines(s), key, rep)
  {
    var fa := ForceLine(s, key, rep);
    LineEndNoBreak(s);
    ForceLineNoBreak(s, key, rep);
    assert s[..|s|] == s && s == s + [];
    ForceOneLine(s, [], key, rep);
    assert ForceLineTail(s, key, rep) == fa;
    SingleLine(fa);
    SingleLine(s);
    assert ForceEach([s], key, rep) == [fa];
  }

  /** `ForceLineTailLines` for a first line `a` and the rest of the text behind its line break. */
  lemma ForceLineStep(a: string, rest: string, key: string, rep: string)
    requires key != [] && '\n' !in key && '\n' !in rep
    requires '\n' !in a
    requires Lines(ForceLineTail(rest, key, rep)) == ForceEach(Lines(rest), key, rep)
    ensures Lines(ForceLineTail(a + "\n" + rest, key, rep)) == ForceEach(Lines(a + "\n" + rest), key, rep)
  {
    var s := a + "\n" + rest;
    var fa := ForceLine(a, key, rep);
    var fr := ForceLineTail(rest, key, rep);
    ForceLineNoBreak(a, key, rep);
    ForceFirstLine(a, rest, key, rep);
    calc {
      Lines(ForceLineTail(s, key, rep));
      Lines(fa + "\n" + fr);
      { LinesCons(fa, fr); }
      [fa] + Lines(fr);
      [fa] + ForceEach(Lines(rest), key, rep);
      { ForceEachCons(a, Lines(rest), key, rep); }
      ForceEach([a] + Lines(rest), key, rep);
      { LinesCons(a, rest); }
      ForceEach(Lines(s), key, rep);
    }
  }

  /** The scan over a first line and a line break. */
  lemma ForceFirstLine(a: string, rest: string, key: string, rep: string)
    requires key != [] && '\n' !in key
    requires '\n' !in a
    ensures ForceLineTail(a + "\n" + rest, key, rep) == ForceLine(a, key, rep) + "\n" + ForceLineTail(rest, key, rep)
  {
    assert a + "\n" + rest == a + ("\n" + rest);
    ForceOneLine(a, "\n" + rest, key, rep);
    ForceNewline(rest, key, rep);
  }

  lemma ForceEachCons(x: string, ls: seq<string>, key: string, rep: string)
    ensures ForceEach([x] + ls, key, rep) == [ForceLine(x, key, rep)] + ForceEach(ls, key, rep)
  {
    assert ([x] + ls)[1..] == ls;
  }

  /** `ForceLineTailLines` read line by line: the output has as many lines, each the forced input line. */
  lemma ForceLineTailEachLine(s: string, key: string, rep: string)
    requires key != [] && '\n' !in key && '\n' !in rep
    ensures |Lines(ForceLineTail(s, key, rep))| == |Lines(s)|
    ensures forall i :: 0 <= i < |Lines(s)| ==>
      Lines(ForceLineTail(s, key, rep))[i] == ForceLine(Lines(s)[i], key, rep)
  {
    ForceLineTailLines(s, key, rep);
    forall i | 0 <= i < |Lines(s)|
      ensures Lines(ForceLineTail(s, key, rep))[i] == ForceLine(Lines(s)[i], key, rep)
    {
      ForceEachAt(Lines(s), key, rep, i);
    }
  }

  /** A line already cut at its first `key` and finished with `rep` stays as it is, when `rep` starts with `key`. */
  lemma ForceLineIdempotent(line: string, key: string, rep: string)
    requires key <= rep
    ensures ForceLine(ForceLine(line, key, rep), key, rep) == ForceLine(line, key, rep)
  {
    var i := IndexOf(line, key);
    if i != -1 {
      var m := line[..i] + rep;
      assert ForceLine(line, key, rep) == m;
      assert m[i..i + |key|] == rep[..|key|] == key;
      forall j | 0 <= j < i
        ensures !OccursAt(m, key, j)
      {
        EarlierKey(line, key, rep, i, j);
      }
      IndexOfUnique(m, key, i);
      assert m[..i] == line[..i];
    }
  }

  /** Before the first `key` of `line`, cutting and adding `rep` creates no `key`. */
  lemma EarlierKey(line: string, key: string, rep: string, i: int, j: int)
    requires key <= rep
    requires i == IndexOf(line, key) && i != -1
    requires 0 <= j < i
    ensures !OccursAt(line[..i] + rep, key, j)
  {
    var m := line[..i] + rep;
    IndexOfFinds(line, key);
    assert OccursAt(line, key, i) && !OccursAt(line, key, j);
    forall u | j <= u < j + |key|
      ensures m[u] == line[u]
    {
      if u >= i {
        assert m[u] == rep[u - i] == key[u - i];
        assert line[i..i + |key|][u - i] == line[u];
      }
    }
    assert m[j..j + |key|] == line[j..j + |key|];
  }

  /** On a list of lines, forcing a second time changes nothing when `rep` starts with `key`. */
  lemma {:induction false} ForceEachIdempotent(ls: seq<string>, key: string, rep: string)
    requires key <= rep
    ensures ForceEach(ForceEach(ls, key, rep), key, rep) == ForceEach(ls, key, rep)
    decreases |ls|
  {
    if ls != [] {
      var f := ForceEach(ls, key, rep);
      assert f[1..] == ForceEach(ls[1..], key, rep);
      ForceLineIdempotent(ls[0], key, rep);
      ForceEachIdempotent(ls[1..], key, rep);
    }
  }

  /** Forcing a second time changes nothing, when `rep` starts with `key` and no line break is involved. */
  lemma ForceLineTailIdempotent(s: string, key: string, rep: string)
    requires key != [] && '\n' !in key && '\n' !in rep
    requires key <= rep
    ensures ForceLineTail(ForceLineTail(s, key, rep), key, rep) == ForceLineTail(s, key, rep)
  {
    var f := ForceLineTail(s, key, rep);
    ForceLineTailLines(s, key, rep);
    ForceLineTailLines(f, key, rep);
    ForceEachIdempotent(Lines(s), key, rep);
    LinesInjective(ForceLineTail(f, key, rep), f);
  }

  /**
   * Forcing `key2` keeps a line that forcing `key1` leaves alone in that state,
   * when `rep2` neither holds `key1` nor lets `key1` run into it, and the part
   * of `rep1` after `key1` holds no `key2`.
   */
  lemma ForceLineKeepsFixed(line: string, key1: string, rep1: string, key2: string, rep2: string)
    requires key1 != [] && key1 <= rep1
    requires ForceLine(line, key1, rep1) == line
    requires !Contains(rep2, key1) && CannotRunInto(key1, rep2)
    requires !Contains(rep1[|key1|..], key2)
    ensures ForceLine(ForceLine(line, key2, rep2), key1, rep1) == ForceLine(line, key2, rep2)
  {
    var i := IndexOf(line, key2);
    IndexOfFinds(line, key2);
    if i != -1 {
      var head := line[..i];
      ContainsConcat(head, rep2, key1);
      NoStraddle(head, rep2, key1);
      FixedLineTail(line, key1, rep1, key2, i);
      IndexOfFinds(head + rep2, key1);
    }
  }

  /**
   * If `line` is already forced for `key1` and holds `key1` before an
   * occurrence of `key2`, that `key2` lies in the part of `rep1` after `key1`.
   */
  lemma FixedLineTail(line: string, key1: string, rep1: string, key2: string, i: int)
    requires key1 != [] && key1 <= rep1
    requires ForceLine(line, key1, rep1) == line
    requires OccursAt(line, key2, i)
    ensures Contains(line[..i], key1) ==> Contains(rep1[|key1|..], key2)
  {
    if Contains(line[..i], key1) {
      FixedLineTailAt(line, key1, rep1, key2, i);
    }
  }

  lemma FixedLineTailAt(line: string, key1: string, rep1: string, key2: string, i: int)
    requires key1 != [] && key1 <= rep1
    requires ForceLine(line, key1, rep1) == line
    requires OccursAt(line, key2, i)
    requires Contains(line[..i], key1)
    ensures Contains(rep1[|key1|..], key2)
  {
    KeyInPrefix(line, key1, i);
    var k := IndexOf(line, key1);
    IndexOfFinds(line, key1);
    assert line[k..] == rep1;
    OccursInTail(line, k, rep1, |key1|, key2, i);
  }

  /** A `key` in `line[..i]` makes the first `key` of `line` end by `i`. */
  lemma KeyInPrefix(line: string, key: string, i: int)
    requires 0 <= i <= |line| && Contains(line[..i], key)
    ensures IndexOf(line, key) != -1 && IndexOf(line, key) + |key| <= i
  {
    var p :| 0 <= p <= i && OccursAt(line[..i], key, p);
    assert line[..i][p..p + |key|] == line[p..p + |key|];
    assert OccursAt(line, key, p);
    IndexOfFinds(line, key);
  }

  /** An occurrence at `i` in `line`, past `n` characters of a `rep` that starts at `k`, is an occurrence in the rest of `rep`. */
  lemma OccursInTail(line: string, k: int, rep: string, n: nat, q: string, i: int)
    requires 0 <= k <= |line| && line[k..] == rep && n <= |rep|
    requires k + n <= i && OccursAt(line, q, i)
    ensures OccursAt(rep[n..], q, i - k - n)
  {
    var o := i - k - n;
    SliceOfSlice(line, k, |line|, i - k, i - k + |q|);
    SliceOfSlice(rep, n, |rep|, o, o + |q|);
  }

  /** The list form of `ForceLineKeepsFixed`. */
  lemma {:induction false} ForceEachKeepsFixed(ls: seq<string>, key1: string, rep1: string, key2: string, rep2: string)
    requires key1 != [] && key1 <= rep1
    requires !Contains(rep2, key1) && CannotRunInto(key1, rep2)
    requires !Contains(rep1[|key1|..], key2)
    requires ForceEach(ls, key1, rep1) == ls
    ensures ForceEach(ForceEach(ls, key2, rep2), key1, rep1) == ForceEach(ls, key2, rep2)
    decreases |ls|
  {
    if ls != [] {
      var f := ForceEach(ls, key2, rep2);
      assert f[1..] == ForceEach(ls[1..], key2, rep2);
      assert ForceEach(ls, key1, rep1)[1..] == ForceEach(ls[1..], key1, rep1);
      ForceLineKeepsFixed(ls[0], key1, rep1, key2, rep2);
      ForceEachKeepsFixed(ls[1..], key1, rep1, key2, rep2);
    }
  }

  /** The text-level form of `ForceLineKeepsFixed`: a text forcing `key1` leaves alone stays so after forcing `key2`. */
  lemma ForceLineTailKeepsFixed(s: string, key1: string, rep1: string, key2: string, rep2: string)
    requires key1 != [] && '\n' !in key1 && '\n' !in rep1 && key1 <= rep1
    requires key2 != [] && '\n' !in key2 && '\n' !in rep2
    requires !Contains(rep2, key1) && CannotRunInto(key1, rep2)
    requires !Contains(rep1[|key1|..], key2)
    requires ForceLineTail(s, key1, rep1) == s
    ensures ForceLineTail(ForceLineTail(s, key2, rep2), key1, rep1) == ForceLineTail(s, key2, rep2)
  {
    var f := ForceLineTail(s, key2, rep2);
    ForceLineTailLines(s, key1, rep1);
    ForceLineTailLines(s, key2, rep2);
    ForceLineTailLines(f, key1, rep1);
    ForceEachKeepsFixed(Lines(s), key1, rep1, key2, rep2);
    LinesInjective(ForceLineTail(f, key1, rep1), f);
  }

  /**
   * A literal replacement keeps a line that forcing leaves alone in that
   * state, when `r` lets no `key` begin inside it or run into it, and `pat`
   * neither occurs in `frep` nor runs into it.
   */
  lemma ReplaceLineKeepsForced(line: string, key: string, frep: string, pat: string, r: string)
    requires key != [] && key <= frep && CannotRunInto(key, frep)
    requires pat != [] && CannotStartInside(key, r) && CannotRunInto(key, r)
    requires !Contains(frep, pat) && CannotRunInto(pat, frep)
    requires ForceLine(line, key, frep) == line
    ensures ForceLine(ReplaceAll(line, pat, r), key, frep) == ReplaceAll(line, pat, r)
  {
    var i := IndexOf(line, key);
    IndexOfFinds(line, key);
    if i == -1 {
      ReplaceKeepsOut(line, pat, r, key);
      IndexOfFinds(ReplaceAll(line, pat, r), key);
    } else {
      var pre := line[..i];
      assert line == pre + frep;
      BeforeFirst(line, key, i);
      ReplaceConcat(pre, frep, pat, r);
      ReplaceAbsent(frep, pat, r);
      ReplaceKeepsOut(pre, pat, r, key);
      ForcedAfter(ReplaceAll(pre, pat, r), key, frep);
    }
  }

  /** A key-free text followed by `frep` is already forced: its first `key` is the one `frep` begins with. */
  lemma ForcedAfter(pre: string, key: string, frep: string)
    requires key <= frep && CannotRunInto(key, frep) && !Contains(pre, key)
    ensures ForceLine(pre + frep, key, frep) == pre + frep
  {
    var m := pre + frep;
    assert m[|pre|..|pre| + |key|] == frep[..|key|];
    forall j | 0 <= j < |pre|
      ensures !OccursAt(m, key, j)
    {
      StartsInFirst(pre, frep, key, j);
      NoStraddle(pre, frep, key);
    }
    IndexOfUnique(m, key, |pre|);
    assert m[..|pre|] == pre;
  }

  /** The list form of `ReplaceLineKeepsForced`. */
  lemma {:induction false} ReplaceEachKeepsForced(ls: seq<string>, key: string, frep: string, pat: string, r: string)
    requires key != [] && key <= frep && CannotRunInto(key, frep)
    requires pat != [] && CannotStartInside(key, r) && CannotRunInto(key, r)
    requires !Contains(frep, pat) && CannotRunInto(pat, frep)
    requires ForceEach(ls, key, frep) == ls
    ensures ForceEach(ReplaceEach(ls, pat, r), key, frep) == ReplaceEach(ls, pat, r)
    decreases |ls|
  {
    if ls != [] {
      var e := ReplaceEach(ls, pat, r);
      assert e[1..] == ReplaceEach(ls[1..], pat, r);
      assert ForceEach(ls, key, frep)[1..] == ForceEach(ls[1..], key, frep);
      ReplaceLineKeepsForced(ls[0], key, frep, pat, r);
      ReplaceEachKeepsForced(ls[1..], key, frep, pat, r);
    }
  }

  /**
   * The text-level form of `ReplaceLineKeepsForced`: a text that forcing
   * leaves alone stays so after a replacement that involves no line break.
   */
  lemma ReplaceKeepsForced(s: string, key: string, frep: string, pat: string, r: string)
    requires key != [] && '\n' !in key && '\n' !in frep && key <= frep && CannotRunInto(key, frep)
    requires pat != [] && '\n' !in pat && '\n' !in r
    requires CannotStartInside(key, r) && CannotRunInto(key, r)
    requires !Contains(frep, pat) && CannotRunInto(pat, frep)
    requires ForceLineTail(s, key, frep) == s
    ensures ForceLineTail(ReplaceAll(s, pat, r), key, frep) == ReplaceAll(s, pat, r)
  {
    var t := ReplaceAll(s, pat, r);
    ForceLineTailLines(s, key, frep);
    ReplaceLines(s, pat, r);
    ForceLineTailLines(t, key, frep);
    ReplaceEachKeepsForced(Lines(s), key, frep, pat, r);
    LinesInjective(ForceLineTail(t, key, frep), t);
  }

  /**
   * Forcing a text cut at a line boundary is forcing each part: the cut
   * falls before a line break, after one, or at either end.
   */
  lemma {:induction false} ForceLineTailConcat(a: string, b: string, key: string, rep: string)
    requires key != [] && '\n' !in key
    requires a == [] || b == [] || b[0] == '\n' || a[|a| - 1] == '\n'
    ensures ForceLineTail(a + b, key, rep) == ForceLineTail(a, key, rep) + ForceLineTail(b, key, rep)
    decreases |a|
  {
    var s := a + b;
    if a == [] {
      assert s == b;
    } else if b == [] {
      assert s == a;
    } else if key <= s {
      var e := ConcatMatch(a, b, key);
      ForceLineTailConcat(a[e..], b, key, rep);
      ForceConcatMatchStep(a, b, key, rep, e);
    } else {
      ConcatMiss(a, b, key);
      ForceLineTailConcat(a[1..], b, key, rep);
      ForceConcatMissStep(a, b, key, rep);
    }
  }

  /** The match step of `ForceLineTailConcat`: both scans write `rep` and resume at the same line break. */
  lemma ForceConcatMatchStep(a: string, b: string, key: string, rep: string, e: nat)
    requires key != [] && key <= a && key <= a + b
    requires e == |key| + LineEnd(a[|key|..]) && e <= |a|
    requires |key| + LineEnd((a + b)[|key|..]) == e
    requires (a + b)[e..] == a[e..] + b
    requires ForceLineTail(a[e..] + b, key, rep) == ForceLineTail(a[e..], key, rep) + ForceLineTail(b, key, rep)
    ensures ForceLineTail(a + b, key, rep) == ForceLineTail(a, key, rep) + ForceLineTail(b, key, rep)
  {
    ForceAtMatchAt(a + b, key, rep, e);
    ForceAtMatchAt(a, key, rep, e);
    AppendStep(ForceLineTail(a + b, key, rep), ForceLineTail(a, key, rep), ForceLineTail(a[e..] + b, key, rep),
               rep, ForceLineTail(a[e..], key, rep), ForceLineTail(b, key, rep));
  }

  /** With no `key` at the start of `a + b`, there is none at the start of `a`, and the cut stays at a line boundary. */
  lemma ConcatMiss(a: string, b: string, key: string)
    requires a != [] && b != [] && (b[0] == '\n' || a[|a| - 1] == '\n')
    requires !(key <= a + b)
    ensures !(key <= a) && (a + b)[1..] == a[1..] + b
    ensures a[1..] == [] || b[0] == '\n' || a[1..][|a[1..]| - 1] == '\n'
  {
    assert (a + b)[..|a|] == a;
    assert (a + b)[1..] == a[1..] + b;
  }

  /** The copy step of `ForceLineTailConcat`: both scans copy the first character. */
  lemma ForceConcatMissStep(a: string, b: string, key: string, rep: string)
    requires key != [] && a != [] && !(key <= a) && !(key <= a + b)
    requires (a + b)[1..] == a[1..] + b
    requires ForceLineTail(a[1..] + b, key, rep) == ForceLineTail(a[1..], key, rep) + ForceLineTail(b, key, rep)
    ensures ForceLineTail(a + b, key, rep) == ForceLineTail(a, key, rep) + ForceLineTail(b, key, rep)
  {
    ForceAtMiss(a + b, key, rep);
    ForceAtMiss(a, key, rep);
    AppendStep(ForceLineTail(a + b, key, rep), ForceLineTail(a, key, rep), ForceLineTail(a[1..] + b, key, rep),
               [a[0]], ForceLineTail(a[1..], key, rep), ForceLineTail(b, key, rep));
  }

  /**
   * A `key` at the start of a text cut at a line boundary lies in the first
   * part, and the scan resumes at the same line break in both texts.
   */
  lemma ConcatMatch(a: string, b: string, key: string) returns (e: nat)
    requires key != [] && '\n' !in key
    requires a != [] && b != [] && (b[0] == '\n' || a[|a| - 1] == '\n')
    requires key <= a + b
    ensures key <= a && e == |key| + LineEnd(a[|key|..]) && e <= |a|
    ensures |key| + LineEnd((a + b)[|key|..]) == e
    ensures (a + b)[e..] == a[e..] + b
    ensures a[e..] == [] || b[0] == '\n' || a[e..][|a[e..]| - 1] == '\n'
  {
    KeyInFirst(a, b, key);
    e := ResumePoint(a, b, |key|);
  }

  /** A `key` without line breaks at the start of `a + b` lies in `a`, before the line break that ends `a`. */
  lemma KeyInFirst(a: string, b: string, key: string)
    requires '\n' !in key
    requires a != [] && b != [] && (b[0] == '\n' || a[|a| - 1] == '\n')
    requires key <= a + b
    ensures key <= a && (b[0] == '\n' || |key| < |a|)
  {
    if b[0] == '\n' {
      BreakBound(a + b, key, |a|);
    } else {
      BreakBound(a + b, key, |a| - 1);
    }
    assert (a + b)[..|key|] == a[..|key|];
  }

  /** From index `k` of `a`, the first line break of `a + b` is that of `a`, or the one starting `b`. */
  lemma ResumePoint(a: string, b: string, k: nat) returns (e: nat)
    requires a != [] && b != [] && (b[0] == '\n' || a[|a| - 1] == '\n')
    requires k <= |a| && (b[0] == '\n' || k < |a|)
    ensures e == k + LineEnd(a[k..]) && e <= |a|
    ensures k + LineEnd((a + b)[k..]) == e
    ensures (a + b)[e..] == a[e..] + b
    ensures a[e..] == [] || b[0] == '\n' || a[e..][|a[e..]| - 1] == '\n'
  {
    var t := a[k..];
    assert (a + b)[k..] == t + b;
    if b[0] != '\n' {
      assert t[|t| - 1] == '\n';
    }
    LineEndAppend(t, b);
    e := k + LineEnd(t);
    assert (a + b)[e..] == a[e..] + b;
    if a[e..] != [] {
      assert a[e..][|a[e..]| - 1] == a[|a| - 1];
    }
  }
}
