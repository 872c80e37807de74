/**
 * Runs of codepoints from a class, as the regular expressions behind trim,
 * collapseWhitespace and delimit match them: a run is maximal, so the
 * codepoint after it (if any) is outside the class.
 */
module Runs {
  import opened Codepoints

  /** The number of leading codepoints of `t` in the class `p`. */
  function LeadingRun(p: char -> bool, t: seq<char>): (k: nat)
    ensures k <= |t|
    ensures k < |t| ==> !p(t[k])
    ensures t != [] && p(t[0]) ==> k > 0
  {
    if t == [] || !p(t[0]) then 0 else 1 + LeadingRun(p, t[1..])
  }

  /** Every codepoint of the leading run is in the class. */
  lemma {:induction false} LeadingRunIn(p: char -> bool, t: seq<char>)
    ensures forall i :: 0 <= i < LeadingRun(p, t) ==> p(t[i])
    decreases |t|
  {
    if t != [] && p(t[0]) {
      LeadingRunIn(p, t[1..]);
      forall i | 1 <= i < LeadingRun(p, t) ensures p(t[i]) {
        assert t[i] == t[1..][i - 1];
      }
    }
  }

  /** The number of trailing codepoints of `t` in the class `p`. */
  function TrailingRun(p: char -> bool, t: seq<char>): (k: nat)
    ensures k <= |t|
    ensures forall i :: |t| - k <= i < |t| ==> p(t[i])
    ensures k < |t| ==> !p(t[|t| - k - 1])
  {
    if t == [] || !p(t[|t| - 1]) then 0 else 1 + TrailingRun(p, t[..|t| - 1])
  }

  /** A leading run that stops inside `a` is not lengthened by what follows `a`. */
  lemma {:induction false} LeadingRunStops(p: char -> bool, a: seq<char>, b: seq<char>)
    requires exists i :: 0 <= i < |a| && !p(a[i])
    ensures LeadingRun(p, a + b) == LeadingRun(p, a)
    decreases |a|
  {
    assert (a + b)[0] == a[0];
    if p(a[0]) {
      var i :| 0 <= i < |a| && !p(a[i]);
      assert a[1..][i - 1] == a[i];
      assert (a + b)[1..] == a[1..] + b;
      LeadingRunStops(p, a[1..], b);
    }
  }

  /** A run of the class followed by a codepoint outside it is exactly one leading run. */
  lemma {:induction false} LeadingRunWhole(p: char -> bool, run: seq<char>, b: seq<char>)
    requires forall i :: 0 <= i < |run| ==> p(run[i])
    requires b == [] || !p(b[0])
    ensures LeadingRun(p, run + b) == |run|
    decreases |run|
  {
    if run == [] {
      assert run + b == b;
    } else {
      assert (run + b)[0] == run[0];
      assert (run + b)[1..] == run[1..] + b;
      assert forall i :: 0 <= i < |run[1..]| ==> run[1..][i] == run[i + 1];
      LeadingRunWhole(p, run[1..], b);
    }
  }

  /** The leading run is exactly the prefix in the class that is followed by a codepoint outside it. */
  lemma {:induction false} LeadingRunExact(p: char -> bool, t: seq<char>, k: nat)
    requires k <= |t|
    requires forall i :: 0 <= i < k ==> p(t[i])
    requires k < |t| ==> !p(t[k])
    ensures LeadingRun(p, t) == k
    decreases k
  {
    if k > 0 {
      assert forall i :: 0 <= i < k - 1 ==> t[1..][i] == t[i + 1];
      LeadingRunExact(p, t[1..], k - 1);
    }
  }

  /**
   * preg_replace of `[class]+` by `rep`: every maximal run of the class
   * becomes one copy of `rep`; every other codepoint is kept.
   */
  function CollapseRuns(p: char -> bool, t: seq<char>, rep: seq<char>): seq<char>
    decreases |t|
  {
    if t == [] then []
    else if p(t[0]) then rep + CollapseRuns(p, t[LeadingRun(p, t)..], rep)
    else [t[0]] + CollapseRuns(p, t[1..], rep)
  }

  /**
   * Text without class codepoints is unchanged by collapsing, and a leading
   * codepoint outside the class stays in front.
   */
  lemma {:induction false} CollapseRunsPlain(p: char -> bool, t: seq<char>, rep: seq<char>)
    ensures (forall i :: 0 <= i < |t| ==> !p(t[i])) ==> CollapseRuns(p, t, rep) == t
    ensures t != [] && !p(t[0]) ==> CollapseRuns(p, t, rep) != [] && CollapseRuns(p, t, rep)[0] == t[0]
    decreases |t|
  {
    if t != [] && !p(t[0]) {
      CollapseRunsPlain(p, t[1..], rep);
      assert CollapseRuns(p, t, rep) == [t[0]] + CollapseRuns(p, t[1..], rep);
      if (forall i :: 0 <= i < |t| ==> !p(t[i])) {
        assert forall i :: 0 <= i < |t[1..]| ==> !p(t[1..][i]) by {
          forall i | 0 <= i < |t[1..]| ensures !p(t[1..][i]) {
            assert t[1..][i] == t[i + 1];
          }
        }
      }
    }
  }

  /**
   * A class codepoint in the collapsed text comes from `rep`; and when `rep`
   * is one class codepoint, no two class codepoints are adjacent in it.
   */
  lemma {:induction false} CollapseRunsClass(p: char -> bool, t: seq<char>, rep: seq<char>)
    ensures forall i :: 0 <= i < |CollapseRuns(p, t, rep)| && p(CollapseRuns(p, t, rep)[i]) ==>
      CollapseRuns(p, t, rep)[i] in rep
    ensures |rep| == 1 && p(rep[0]) ==> NoAdjacent(p, CollapseRuns(p, t, rep))
    decreases |t|
  {
    if t == [] {
      assert CollapseRuns(p, t, rep) == [];
    } else if p(t[0]) {
      var k := LeadingRun(p, t);
      CollapseRunsClass(p, t[k..], rep);
      CollapseRunsPlain(p, t[k..], rep);
      var rest := CollapseRuns(p, t[k..], rep);
      assert CollapseRuns(p, t, rep) == rep + rest;
      assert rest != [] ==> !p(rest[0]);
    } else {
      CollapseRunsClass(p, t[1..], rep);
      var rest := CollapseRuns(p, t[1..], rep);
      var r := CollapseRuns(p, t, rep);
      assert r == [t[0]] + rest;
      forall i | 0 <= i < |r| && p(r[i]) ensures r[i] in rep {
        assert i > 0 && r[i] == rest[i - 1];
      }
      assert forall i :: 1 <= i < |r| ==> r[i] == rest[i - 1];
    }
  }

  /** No two neighbouring codepoints are both in the class. */
  predicate NoAdjacent(p: char -> bool, t: seq<char>)
  {
    forall i :: 0 <= i < |t| - 1 ==> !p(t[i]) || !p(t[i + 1])
  }

  lemma Assoc(x: seq<char>, y: seq<char>, z: seq<char>)
    ensures x + y + z == x + (y + z)
  {
  }

  /** A run at the very front collapses to one `rep`. */
  lemma CollapseRunFirst(p: char -> bool, run: seq<char>, b: seq<char>, rep: seq<char>)
    requires run != [] && forall i :: 0 <= i < |run| ==> p(run[i])
    requires b == [] || !p(b[0])
    ensures CollapseRuns(p, run + b, rep) == rep + CollapseRuns(p, b, rep)
  {
    LeadingRunWhole(p, run, b);
    assert (run + b)[0] == run[0];
    assert (run + b)[|run|..] == b;
  }

  /**
   * The first step of collapsing `a` is the same whatever follows `a`, when
   * `a` ends outside the class: it emits `h` and consumes `k` codepoints.
   */
  lemma CollapseHead(p: char -> bool, a: seq<char>, c: seq<char>, rep: seq<char>) returns (k: nat, h: seq<char>)
    requires a != [] && !p(a[|a| - 1])
    ensures 0 < k <= |a|
    ensures CollapseRuns(p, a + c, rep) == h + CollapseRuns(p, a[k..] + c, rep)
    ensures CollapseRuns(p, a, rep) == h + CollapseRuns(p, a[k..], rep)
  {
    var t := a + c;
    assert t[0] == a[0];
    if p(a[0]) {
      k := LeadingRun(p, a);
      LeadingRunStops(p, a, c);
      h := rep;
    } else {
      k, h := 1, [a[0]];
    }
    assert t[k..] == a[k..] + c;
  }

  /**
   * Collapsing distributes over a concatenation whose left part ends outside
   * the class: no run straddles the seam.
   */
  lemma {:induction false} CollapseRunsAppend(p: char -> bool, a: seq<char>, c: seq<char>, rep: seq<char>)
    requires a == [] || !p(a[|a| - 1])
    ensures CollapseRuns(p, a + c, rep) == CollapseRuns(p, a, rep) + CollapseRuns(p, c, rep)
    decreases |a|
  {
    if a == [] {
      assert a + c == c;
    } else {
      var k, h := CollapseHead(p, a, c, rep);
      CollapseRunsAppend(p, a[k..], c, rep);
      Assoc(h, CollapseRuns(p, a[k..], rep), CollapseRuns(p, c, rep));
    }
  }

  /**
   * Collapsing is compositional at a run: a run with no class codepoint on
   * either side of it contributes exactly one `rep` between the collapsed
   * text before and after it.
   */
  lemma CollapseRunsSplit(p: char -> bool, a: seq<char>, run: seq<char>, b: seq<char>, rep: seq<char>)
    requires run != [] && forall i :: 0 <= i < |run| ==> p(run[i])
    requires a == [] || !p(a[|a| - 1])
    requires b == [] || !p(b[0])
    ensures CollapseRuns(p, a + run + b, rep) == CollapseRuns(p, a, rep) + rep + CollapseRuns(p, b, rep)
  {
    Assoc(a, run, b);
    CollapseRunsAppend(p, a, run + b, rep);
    CollapseRunFirst(p, run, b, rep);
    Assoc(CollapseRuns(p, a, rep), rep, CollapseRuns(p, b, rep));
  }

  /** Words with a gap between each two: `ws[0] + gs[0] + ws[1] + … + ws[n]`. */
  function Spaced(ws: seq<seq<char>>, gs: seq<seq<char>>): seq<char>
    requires |ws| >= 1 && |gs| + 1 == |ws|
    decreases |ws|
  {
    if |ws| == 1 then ws[0] else ws[0] + gs[0] + Spaced(ws[1..], gs[1..])
  }

  /** Every codepoint of every entry is in the class. */
  ghost predicate AllIn(p: char -> bool, xs: seq<seq<char>>)
  {
    forall k, i :: 0 <= k < |xs| && 0 <= i < |xs[k]| ==> p(xs[k][i])
  }

  /** Spaced text starts where its first word does. */
  lemma SpacedHead(ws: seq<seq<char>>, gs: seq<seq<char>>)
    requires |ws| >= 1 && |gs| + 1 == |ws| && ws[0] != []
    ensures Spaced(ws, gs) != [] && Spaced(ws, gs)[0] == ws[0][0]
  {
  }

  /** Spaced text ends where its last word does. */
  lemma {:induction false} SpacedLast(ws: seq<seq<char>>, gs: seq<seq<char>>)
    requires |ws| >= 1 && |gs| + 1 == |ws| && ws[|ws| - 1] != []
    ensures var t := Spaced(ws, gs); t != [] && t[|t| - 1] == ws[|ws| - 1][|ws[|ws| - 1]| - 1]
    decreases |ws|
  {
    if |ws| > 1 {
      SpacedLast(ws[1..], gs[1..]);
    }
  }

  /** A property every word and every gap has, every codepoint of the spaced text has. */
  lemma {:induction false} SpacedAll(q: char -> bool, ws: seq<seq<char>>, gs: seq<seq<char>>)
    requires |ws| >= 1 && |gs| + 1 == |ws|
    requires AllIn(q, ws) && AllIn(q, gs)
    ensures forall i :: 0 <= i < |Spaced(ws, gs)| ==> q(Spaced(ws, gs)[i])
    decreases |ws|
  {
    var w := ws[0];
    assert forall i :: 0 <= i < |w| ==> q(w[i]);
    if |ws| > 1 {
      SpacedAll(q, ws[1..], gs[1..]);
      var rest := Spaced(ws[1..], gs[1..]);
      var g := gs[0];
      assert forall i :: 0 <= i < |g| ==> q(g[i]);
      var t := w + g + rest;
      assert forall i :: |w| + |g| <= i < |t| ==> t[i] == rest[i - |w| - |g|];
      assert forall i :: |w| <= i < |w| + |g| ==> t[i] == g[i - |w|];
    }
  }

  /** A join is spaced text whose gaps are all the separator. */
  lemma {:induction false} JoinSpaced(sep: seq<char>, ws: seq<seq<char>>)
    requires |ws| >= 1
    ensures Join(sep, ws) == Spaced(ws, seq(|ws| - 1, _ => sep))
    decreases |ws|
  {
    if |ws| > 1 {
      JoinSpaced(sep, ws[1..]);
      assert seq(|ws| - 1, _ => sep)[1..] == seq(|ws| - 2, _ => sep);
    }
  }

  /**
   * Collapsing spaced text whose words avoid the class and whose gaps are
   * non-empty runs of it puts exactly one `rep` between each two words.
   */
  lemma {:induction false} CollapseSpaced(p: char -> bool, ws: seq<seq<char>>, gs: seq<seq<char>>, rep: seq<char>)
    requires |ws| >= 1 && |gs| + 1 == |ws|
    requires forall k :: 0 <= k < |ws| ==> ws[k] != []
    requires AllIn(c => !p(c), ws)
    requires forall k :: 0 <= k < |gs| ==> gs[k] != []
    requires AllIn(p, gs)
    ensures CollapseRuns(p, Spaced(ws, gs), rep) == Join(rep, ws)
    decreases |ws|
  {
    var w := ws[0];
    assert forall i :: 0 <= i < |w| ==> !p(w[i]);
    CollapseRunsPlain(p, w, rep);
    if |ws| > 1 {
      var rest := Spaced(ws[1..], gs[1..]);
      SpacedHead(ws[1..], gs[1..]);
      assert forall i :: 0 <= i < |gs[0]| ==> p(gs[0][i]);
      assert !p(rest[0]);
      CollapseRunsSplit(p, w, gs[0], rest, rep);
      CollapseSpaced(p, ws[1..], gs[1..], rep);
    }
  }
}
