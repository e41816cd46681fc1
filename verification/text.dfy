/**
 * Strings as Python sees them: `q in s`, `s.find(q)`, and the split of a
 * text into its `\n`-separated lines (`s.split("\n")` and `"\n".join`).
 * Everything the patcher does is built on these notions.
 */
module Text {

  /** `q` occurs in `s` starting at index `i`. */
  predicate OccursAt(s: string, q: string, i: int)
  {
    0 <= i && i + |q| <= |s| && s[i..i + |q|] == q
  }

  /** Python's `q in s`; the empty string is in every string. */
  predicate Contains(s: string, q: string)
  {
    exists i | 0 <= i <= |s| :: OccursAt(s, q, i)
  }

  /** One of the two strings is a prefix of the other: they agree on their common length. */
  predicate Compatible(a: string, b: string)
  {
    a <= b || b <= a
  }

  /**
   * An occurrence of `q` in `a + b` that is neither inside `a` nor inside `b`:
   * its first `j` characters end `a` and the rest begin `b`.
   */
  predicate Straddles(a: string, b: string, q: string)
  {
    exists j :: 0 < j < |q| && j <= |a| && a[|a| - j..] == q[..j] && q[j..] <= b
  }

  /**
   * No occurrence of `q` can begin inside a copy of `rep`: at no offset of
   * `rep` do `q` and the rest of `rep` agree on their common length.
   */
  predicate CannotStartInside(q: string, rep: string)
  {
    forall k :: 0 <= k < |rep| ==> !Compatible(q, rep[k..])
  }

  /**
   * No occurrence of `q` can begin in the text before a copy of `rep` and
   * run into it: no proper suffix of `q` agrees with `rep` on their common length.
   */
  predicate CannotRunInto(q: string, rep: string)
  {
    forall j :: 0 < j < |q| ==> !Compatible(q[j..], rep)
  }

  /** A string that cannot run into `b` never straddles the seam before `b`. */
  lemma NoStraddle(a: string, b: string, q: string)
    requires CannotRunInto(q, b)
    ensures !Straddles(a, b, q)
  {
  }

  /** A prefix of `s` without line breaks ends at or before any line break of `s`. */
  lemma BreakBound(s: string, q: string, n: nat)
    requires q <= s && n < |s| && s[n] == '\n' && '\n' !in q
    ensures |q| <= n
  {
    assert forall i | 0 <= i < |q| :: q[i] == s[i] && q[i] != '\n';
  }

  lemma OccursAtIsPrefix(s: string, q: string, i: nat)
    requires i <= |s|
    ensures OccursAt(s, q, i) <==> q <= s[i..]
  {
  }

  lemma PrefixContained(s: string, q: string)
    requires q <= s
    ensures Contains(s, q)
  {
    assert OccursAt(s, q, 0);
  }

  /** Unfolding `q in s` at the first character, the way a left-to-right scan sees it. */
  lemma ContainsCons(s: string, q: string)
    ensures s == [] ==> (Contains(s, q) <==> q == [])
    ensures s != [] ==> (Contains(s, q) <==> q <= s || Contains(s[1..], q))
  {
    if s == [] {
      ContainsEmpty(q);
    } else {
      if Contains(s, q) && !(q <= s) {
        var i :| 0 <= i <= |s| && OccursAt(s, q, i);
        assert i != 0;
        assert s[1..][i - 1..i - 1 + |q|] == s[i..i + |q|];
        assert OccursAt(s[1..], q, i - 1);
      }
      if q <= s {
        PrefixContained(s, q);
      } else if Contains(s[1..], q) {
        var t := s[1..];
        var i :| 0 <= i <= |t| && OccursAt(t, q, i);
        assert t[i..i + |q|] == s[i + 1..i + 1 + |q|];
        assert OccursAt(s, q, i + 1);
      }
    }
  }

  lemma ContainsEmpty(q: string)
    ensures Contains([], q) <==> q == []
  {
    if q == [] {
      assert OccursAt([], q, 0);
    }
  }

  lemma SliceOfSlice(s: string, i: nat, e: nat, j: nat, k: nat)
    requires i <= e <= |s| && j <= k <= e - i
    ensures s[i..e][j..k] == s[i + j..i + k]
  {
    forall t | 0 <= t < k - j
      ensures s[i..e][j..k][t] == s[i + j..i + k][t]
    {
    }
  }

  /** Containment is transitive: a string inside a substring of `s` is inside `s`. */
  lemma ContainsTransitive(s: string, m: string, q: string)
    requires Contains(s, m) && Contains(m, q)
    ensures Contains(s, q)
  {
    var i :| 0 <= i <= |s| && OccursAt(s, m, i);
    var j :| 0 <= j <= |m| && OccursAt(m, q, j);
    SliceOfSlice(s, i, i + |m|, j, j + |q|);
    assert OccursAt(s, q, i + j);
  }

  /** A character of `q` that `s` lacks keeps `q` out of `s`. */
  lemma MissingChar(s: string, q: string, c: char)
    requires c in q && c !in s
    ensures !Contains(s, q)
  {
  }

  lemma ContainsSuffix(s: string, q: string, k: nat)
    requires k <= |s|
    requires Contains(s[k..], q)
    ensures Contains(s, q)
  {
    var t := s[k..];
    var i :| 0 <= i <= |t| && OccursAt(t, q, i);
    assert t[i..i + |q|] == s[k + i..k + i + |q|];
    assert OccursAt(s, q, k + i);
  }

  lemma ContainsPrefixPart(s: string, q: string, k: nat)
    requires k <= |s|
    requires Contains(s[..k], q)
    ensures Contains(s, q)
  {
    var t := s[..k];
    var i :| 0 <= i <= |t| && OccursAt(t, q, i);
    assert t[i..i + |q|] == s[i..i + |q|];
    assert OccursAt(s, q, i);
  }

  /**
   * Where `q` can sit in a concatenation: inside the left part, inside the
   * right part, or across the seam.
   */
  lemma ContainsConcat(a: string, b: string, q: string)
    ensures Contains(a + b, q) <==> Contains(a, q) || Contains(b, q) || Straddles(a, b, q)
  {
    var s := a + b;
    assert s[..|a|] == a && s[|a|..] == b;
    if Contains(a, q) {
      ContainsPrefixPart(s, q, |a|);
    }
    if Contains(b, q) {
      ContainsSuffix(s, q, |a|);
    }
    if Straddles(a, b, q) {
      StraddleContained(a, b, q);
    }
    if Contains(s, q) {
      var i :| 0 <= i <= |s| && OccursAt(s, q, i);
      ConcatOccurrence(a, b, q, i);
    }
  }

  lemma StraddleContained(a: string, b: string, q: string)
    requires Straddles(a, b, q)
    ensures Contains(a + b, q)
  {
    var s := a + b;
    var j :| 0 < j < |q| && j <= |a| && a[|a| - j..] == q[..j] && q[j..] <= b;
    var i := |a| - j;
    forall t | 0 <= t < |q|
      ensures s[i + t] == q[t]
    {
      if t < j {
        assert q[t] == q[..j][t] == a[i..][t];
      } else {
        assert q[t] == q[j..][t - j] == b[t - j];
      }
    }
    assert s[i..i + |q|] == q;
    assert OccursAt(s, q, i);
  }

  lemma ConcatOccurrence(a: string, b: string, q: string, i: int)
    requires OccursAt(a + b, q, i)
    ensures Contains(a, q) || Contains(b, q) || Straddles(a, b, q)
  {
    var s := a + b;
    if i + |q| <= |a| {
      assert a[i..i + |q|] == s[i..i + |q|];
      assert OccursAt(a, q, i);
    } else if i >= |a| {
      assert b[i - |a|..i - |a| + |q|] == s[i..i + |q|];
      assert OccursAt(b, q, i - |a|);
    } else {
      var j := |a| - i;
      assert a[|a| - j..] == s[i..|a|];
      assert s[i..|a|] == s[i..i + |q|][..j];
      assert q[j..] == s[i..i + |q|][j..];
      assert s[i..i + |q|][j..] == b[..|q| - j];
    }
  }

  /** Python's `s.find(q)`: the first index at which `q` occurs, or -1. */
  function IndexOf(s: string, q: string): (i: int)
    ensures -1 <= i && (i != -1 ==> i + |q| <= |s|)
    decreases |s|
  {
    if q <= s then
      0
    else if s == [] then
      -1
    else
      var k := IndexOf(s[1..], q);
      if k == -1 then -1 else k + 1
  }

  /** `IndexOf` gives -1 exactly when `q` is not in `s`, and otherwise the first occurrence. */
  lemma {:induction false} IndexOfFinds(s: string, q: string)
    ensures IndexOf(s, q) == -1 <==> !Contains(s, q)
    ensures IndexOf(s, q) != -1 ==> OccursAt(s, q, IndexOf(s, q))
    ensures forall j :: 0 <= j < IndexOf(s, q) ==> !OccursAt(s, q, j)
    decreases |s|
  {
    ContainsCons(s, q);
    if q <= s {
      OccursAtIsPrefix(s, q, 0);
    } else if s != [] {
      IndexOfFinds(s[1..], q);
      FirstAfterHead(s, q, IndexOf(s[1..], q));
    }
  }

  lemma FirstAfterHead(s: string, q: string, k: int)
    requires s != [] && !(q <= s)
    requires forall j :: 0 <= j < k ==> !OccursAt(s[1..], q, j)
    ensures forall j :: 0 <= j < k + 1 ==> !OccursAt(s, q, j)
    ensures k != -1 && OccursAt(s[1..], q, k) ==> OccursAt(s, q, k + 1)
  {
    forall j | 0 <= j < k + 1
      ensures !OccursAt(s, q, j)
    {
      if j == 0 {
        OccursAtIsPrefix(s, q, 0);
      } else if j + |q| <= |s| {
        var t := s[1..];
        assert t[j - 1..j - 1 + |q|] == s[j..j + |q|];
        assert !OccursAt(t, q, j - 1);
      }
    }
    if k != -1 && OccursAt(s[1..], q, k) {
      assert s[1..][k..k + |q|] == s[k + 1..k + 1 + |q|];
    }
  }

  /** An occurrence with none before it is the one `IndexOf` finds. */
  lemma IndexOfUnique(s: string, q: string, i: int)
    requires OccursAt(s, q, i)
    requires forall j :: 0 <= j < i ==> !OccursAt(s, q, j)
    ensures IndexOf(s, q) == i
  {
    assert Contains(s, q);
    IndexOfFinds(s, q);
  }

  /** The length of the first line of `s`: the index of its first `\n`, or `|s|` when it has none. */
  function LineEnd(s: string): (n: nat)
    ensures n <= |s|
    ensures n < |s| ==> s[n] == '\n'
    decreases |s|
  {
    if s == [] || s[0] == '\n' then 0 else 1 + LineEnd(s[1..])
  }

  /** The first line holds no line break, so `LineEnd` stops at the first one. */
  lemma {:induction false} LineEndNoBreak(s: string)
    ensures '\n' !in s[..LineEnd(s)]
    decreases |s|
  {
    if s != [] && s[0] != '\n' {
      var n := LineEnd(s);
      LineEndNoBreak(s[1..]);
      assert s[..n] == [s[0]] + s[1..][..n - 1];
    }
  }

  /** Python's `s.split("\n")`: always at least one line. */
  function Lines(s: string): (ls: seq<string>)
    ensures |ls| >= 1
    decreases |s|
  {
    var n := LineEnd(s);
    if n == |s| then [s] else [s[..n]] + Lines(s[n + 1..])
  }

  /** Python's `sep.join(ls)`. */
  function Join(ls: seq<string>, sep: string): string
  {
    if |ls| == 0 then ""
    else if |ls| == 1 then ls[0]
    else ls[0] + sep + Join(ls[1..], sep)
  }

  lemma JoinCons(a: string, ls: seq<string>, sep: string)
    requires |ls| >= 1
    ensures Join([a] + ls, sep) == a + sep + Join(ls, sep)
  {
    assert ([a] + ls)[1..] == ls;
  }

  /** Joining the lines of a text gives the text back. */
  lemma {:induction false} JoinLines(s: string)
    ensures Join(Lines(s), "\n") == s
    decreases |s|
  {
    var n := LineEnd(s);
    if n == |s| {
      assert s[..n] == s;
    } else {
      var rest := s[n + 1..];
      JoinLines(rest);
      JoinCons(s[..n], Lines(rest), "\n");
      assert s == s[..n] + "\n" + rest;
    }
  }

  /**
   * Python's `s.split(sep)` for a non-empty `sep`: the pieces between the
   * occurrences `s.find` meets one after another, always at least one.
   */
  function Split(s: string, sep: string): (ps: seq<string>)
    requires sep != []
    ensures |ps| >= 1
    decreases |s|
  {
    var i := IndexOf(s, sep);
    if i == -1 then [s] else [s[..i]] + Split(s[i + |sep|..], sep)
  }

  /** `Split` past the first separator: the piece before it, then the pieces of the rest. */
  lemma SplitAt(s: string, sep: string, i: int, rest: string)
    requires sep != [] && i == IndexOf(s, sep) && i != -1 && rest == s[i + |sep|..]
    ensures Split(s, sep) == [s[..i]] + Split(rest, sep)
  {
  }

  /** Joining the pieces with the separator gives the text back. */
  lemma {:induction false} SplitJoin(s: string, sep: string)
    requires sep != []
    ensures Join(Split(s, sep), sep) == s
    decreases |s|
  {
    var i := IndexOf(s, sep);
    IndexOfFinds(s, sep);
    if i != -1 {
      var rest := s[i + |sep|..];
      SplitAt(s, sep, i, rest);
      SplitJoin(rest, sep);
      JoinCons(s[..i], Split(rest, sep), sep);
      PieceSeam(s, sep, i, rest);
    }
  }

  /** A text is the piece before an occurrence, the occurrence, and the rest. */
  lemma PieceSeam(s: string, sep: string, i: int, rest: string)
    requires OccursAt(s, sep, i) && rest == s[i + |sep|..]
    ensures s == s[..i] + sep + rest
  {
    assert s == s[..i] + s[i..i + |sep|] + s[i + |sep|..];
  }

  /** No piece holds the separator. */
  lemma {:induction false} SplitPieces(s: string, sep: string)
    requires sep != []
    ensures forall k :: 0 <= k < |Split(s, sep)| ==> !Contains(Split(s, sep)[k], sep)
    decreases |s|
  {
    var i := IndexOf(s, sep);
    IndexOfFinds(s, sep);
    if i != -1 {
      var rest := s[i + |sep|..];
      SplitAt(s, sep, i, rest);
      SplitPieces(rest, sep);
      BeforeFirst(s, sep, i);
    }
  }

  /** The text before the first occurrence `i` of a non-empty `q` holds no `q`. */
  lemma BeforeFirst(s: string, q: string, i: int)
    requires q != [] && i == IndexOf(s, q) && i != -1
    ensures !Contains(s[..i], q)
  {
    IndexOfFinds(s, q);
    var pre := s[..i];
    forall p | 0 <= p <= |pre|
      ensures !OccursAt(pre, q, p)
    {
      if p + |q| <= |pre| {
        assert pre[p..p + |q|] == s[p..p + |q|];
        assert !OccursAt(s, q, p);
      }
    }
  }

  /** An occurrence in `a + b` that starts inside `a` lies in `a` or crosses the seam. */
  lemma StartsInFirst(a: string, b: string, q: string, j: int)
    ensures OccursAt(a + b, q, j) && j < |a| ==> Contains(a, q) || Straddles(a, b, q)
  {
    var s := a + b;
    if OccursAt(s, q, j) && j < |a| {
      if j + |q| <= |a| {
        assert a[j..j + |q|] == s[j..j + |q|];
        assert OccursAt(a, q, j);
      } else {
        var k := |a| - j;
        assert a[|a| - k..] == s[j..|a|];
        assert s[j..|a|] == s[j..j + |q|][..k];
        assert q[k..] == s[j..j + |q|][k..];
        assert s[j..j + |q|][k..] == b[..|q| - k];
      }
    }
  }

  /** Texts with the same lines are the same text. */
  lemma LinesInjective(s: string, t: string)
    requires Lines(s) == Lines(t)
    ensures s == t
  {
    JoinLines(s);
    JoinLines(t);
  }

  lemma SingleLine(a: string)
    requires '\n' !in a
    ensures LineEnd(a) == |a|
    ensures Lines(a) == [a]
  {
    LineEndConcat(a, []);
    assert a + [] == a;
  }

  /** A text that starts with a `\n`-free line `a` and a `\n` splits into `a` and the lines of the rest. */
  lemma LinesCons(a: string, b: string)
    requires '\n' !in a
    ensures Lines(a + "\n" + b) == [a] + Lines(b)
  {
    var s := a + "\n" + b;
    LineEndConcat(a, "\n" + b);
    assert s == a + ("\n" + b);
    assert s[..|a|] == a;
    assert s[|a| + 1..] == b;
  }

  /** The first line of `a + b` is `a` when `a` has no `\n` and `b` is empty or starts a new line. */
  lemma {:induction false} LineEndConcat(a: string, b: string)
    requires '\n' !in a
    requires b == [] || b[0] == '\n'
    ensures LineEnd(a + b) == |a|
    decreases |a|
  {
    if a != [] {
      assert (a + b)[1..] == a[1..] + b;
      assert '\n' !in a[1..] by {
        assert forall c :: c in a[1..] ==> c in a;
      }
      LineEndConcat(a[1..], b);
    }
  }

  /** A line break inside `a`, or one that starts `b`, ends the first line of `a + b` where it ends that of `a`. */
  lemma {:induction false} LineEndAppend(a: string, b: string)
    requires '\n' in a || b == [] || b[0] == '\n'
    ensures LineEnd(a + b) == LineEnd(a)
    decreases |a|
  {
    if a != [] && a[0] != '\n' {
      assert (a + b)[1..] == a[1..] + b;
      assert '\n' in a[1..] || b == [] || b[0] == '\n' by {
        if '\n' in a {
          var k :| 0 <= k < |a| && a[k] == '\n';
          assert a[1..][k - 1] == '\n';
        }
      }
      LineEndAppend(a[1..], b);
    } else if a == [] {
      assert a + b == b;
    }
  }

  /** A text that writes `out` and then `x + y` is one that writes `out + x` and then `y`. */
  lemma AppendStep(whole: string, part: string, rest: string, out: string, x: string, y: string)
    requires whole == out + rest && part == out + x && rest == x + y
    ensures whole == part + y
  {
    assert out + (x + y) == (out + x) + y;
  }

  /** The first `k` characters of `s` are its head followed by the first `k - 1` of its tail. */
  lemma HeadSlice(s: string, k: nat, i: nat)
    requires i == k + 1 <= |s|
    ensures s[..i] == [s[0]] + s[1..][..k]
  {
  }

  /** Dropping `a` characters and then `b` more drops `a + b`. */
  lemma DropDrop(s: string, a: nat, b: nat, c: nat)
    requires a + b == c <= |s|
    ensures s[a..][b..] == s[c..]
  {
  }

  /** A text that writes `x` and then `a + r + t` is one that writes `x + a`, then `r`, then `t`. */
  lemma Regroup(whole: string, rest: string, pre: string, x: string, a: string, r: string, t: string)
    requires whole == x + rest && rest == a + r + t && pre == x + a
    ensures whole == pre + r + t
  {
    assert x + (a + r + t) == (x + a) + r + t;
  }

  // Facts for checking fixed strings piece by piece.

  /** Strings that differ at a common index are not compatible. */
  lemma DifferAt(a: string, b: string, k: nat)
    requires k < |a| && k < |b| && a[k] != b[k]
    ensures !Compatible(a, b)
  {
  }

  /** Strings whose first two characters differ are not compatible. */
  lemma PairDiffers(a: string, b: string)
    requires |a| >= 2 && |b| >= 2 && a[..2] != b[..2]
    ensures !Compatible(a, b)
  {
    assert a[..2] == [a[0], a[1]] && b[..2] == [b[0], b[1]];
    if a[0] != b[0] {
      DifferAt(a, b, 0);
    } else {
      DifferAt(a, b, 1);
    }
  }

  /** A non-empty string that differs from `rep` and whose first character is nowhere else in `rep` cannot begin inside `rep`. */
  lemma StartInsideByFirst(q: string, rep: string)
    requires q != [] && !Compatible(q, rep)
    requires rep == [] || q[0] !in rep[1..]
    ensures CannotStartInside(q, rep)
  {
    forall k | 0 < k < |rep|
      ensures !Compatible(q, rep[k..])
    {
      assert rep[1..][k - 1] == rep[k..][0];
    }
  }

  /**
   * A string that differs from `rep`, whose first two characters never occur
   * together in `rep` after its start, and whose first character does not end
   * `rep`, cannot begin inside `rep`.
   */
  lemma StartInsideByPair(q: string, rep: string)
    requires |q| >= 2 && rep != [] && !Compatible(q, rep)
    requires rep[|rep| - 1] != q[0]
    requires !Contains(rep[1..], q[..2])
    ensures CannotStartInside(q, rep)
  {
    forall k | 0 < k < |rep|
      ensures !Compatible(q, rep[k..])
    {
      var t := rep[k..];
      if k < |rep| - 1 {
        assert rep[1..][k - 1..k + 1] == t[..2];
        assert !OccursAt(rep[1..], q[..2], k - 1);
        PairDiffers(q, t);
      } else {
        DifferAt(q, t, 0);
      }
    }
  }

  /** When the first character of `rep` occurs nowhere in `q` after its start, `q` cannot run into `rep`. */
  lemma RunIntoByFirst(q: string, rep: string)
    requires rep != []
    requires q == [] || rep[0] !in q[1..]
    ensures CannotRunInto(q, rep)
  {
    forall j | 0 < j < |q|
      ensures !Compatible(q[j..], rep)
    {
      assert q[1..][j - 1] == q[j..][0];
    }
  }

  /**
   * When the first two characters of `rep` never occur together in `q` after
   * its start, and `q` does not end with the first character of `rep`, `q`
   * cannot run into `rep`.
   */
  lemma RunIntoByPair(q: string, rep: string)
    requires |rep| >= 2 && q != []
    requires q[|q| - 1] != rep[0]
    requires !Contains(q[1..], rep[..2])
    ensures CannotRunInto(q, rep)
  {
    forall j | 0 < j < |q|
      ensures !Compatible(q[j..], rep)
    {
      var t := q[j..];
      if j < |q| - 1 {
        assert q[1..][j - 1..j + 1] == t[..2];
        assert !OccursAt(q[1..], rep[..2], j - 1);
        PairDiffers(t, rep);
      } else {
        DifferAt(t, rep, 0);
      }
    }
  }

  /** Nothing straddles a seam whose left side ends with a character that is not in `q`. */
  lemma NoStraddleLast(a: string, b: string, q: string)
    requires a != [] && a[|a| - 1] !in q
    ensures !Straddles(a, b, q)
  {
  }

  /** `q` is absent from `a + b` when it is absent from both and `a` ends with a character not in `q`. */
  lemma AbsentConcat(a: string, b: string, q: string)
    requires !Contains(a, q) && !Contains(b, q)
    requires a == [] || a[|a| - 1] !in q
    ensures !Contains(a + b, q)
  {
    ContainsConcat(a, b, q);
    if a == [] {
      assert a + b == b;
    } else {
      NoStraddleLast(a, b, q);
    }
  }

  /** A string occurs in any text built around it. */
  lemma ContainsMiddle(a: string, q: string, b: string)
    ensures Contains(a + q + b, q)
  {
    assert (a + q + b)[|a|..|a| + |q|] == q;
    assert OccursAt(a + q + b, q, |a|);
  }

  /** Dropping a prefix of the first part of a concatenation. */
  lemma DropConcat(a: string, b: string, k: nat)
    requires k <= |a|
    ensures (a + b)[k..] == a[k..] + b
  {
  }
}
