/**
  `CountConsecutiveGroups`: split a sorted selection of tag numbers into
  runs of consecutive numbers and report how many runs there are and the
  sum, over the runs, of `n` minus the run's size.
 */
module ConsecutiveRuns {

  function Last(g: seq<int>): int
    requires g != []
  {
    g[|g| - 1]
  }

  /** The runs of `s`, in order: each element either extends the current run
      (it is one more than the element before it) or starts a new one. */
  function Runs(s: seq<int>): (r: seq<seq<int>>)
    ensures r == [] <==> s == []
    decreases |s|
  {
    if s == [] then []
    else if |s| == 1 then [[s[0]]]
    else Extend(Runs(s[..|s| - 1]), s[|s| - 2], s[|s| - 1])
  }

  /** The runs after one more element `x`, when the element before it was
      `previous`: the last run grows when `x` is `previous + 1`, otherwise
      `x` starts a run of its own. */
  function Extend(runs: seq<seq<int>>, previous: int, x: int): (r: seq<seq<int>>)
    requires runs != []
    ensures r != []
  {
    if x == previous + 1 then runs[..|runs| - 1] + [runs[|runs| - 1] + [x]]
    else runs + [[x]]
  }

  /** The runs put back together, in order. */
  function Flatten(gs: seq<seq<int>>): seq<int>
  {
    if gs == [] then [] else Flatten(gs[..|gs| - 1]) + gs[|gs| - 1]
  }

  lemma FlattenAppend(gs: seq<seq<int>>, g: seq<int>)
    ensures Flatten(gs + [g]) == Flatten(gs) + g
  {
    assert (gs + [g])[..|gs|] == gs;
  }

  /** Each number in `g` is one more than the number before it: the j-th is
      the first plus j. */
  predicate Consecutive(g: seq<int>)
  {
    forall j | 0 <= j < |g| :: g[j] == g[0] + j
  }

  lemma ConsecutiveAppend(g: seq<int>, x: int)
    requires g != [] && Consecutive(g) && x == Last(g) + 1
    ensures Consecutive(g + [x])
  {
    forall j | 0 <= j < |g + [x]|
      ensures (g + [x])[j] == (g + [x])[0] + j
    {
      if j < |g| {
        assert (g + [x])[j] == g[j];
      }
    }
  }

  /** `gs` is a split into maximal runs: no run is empty, each run is
      consecutive, and no run continues the run before it. */
  predicate IsRunSplit(gs: seq<seq<int>>)
  {
    gs == [] ||
      var front := gs[..|gs| - 1];
      var g := gs[|gs| - 1];
      && IsRunSplit(front)
      && g != [] && Consecutive(g)
      && (front != [] && front[|front| - 1] != [] ==> g[0] != Last(front[|front| - 1]) + 1)
  }

  lemma SplitAppend(gs: seq<seq<int>>, g: seq<int>)
    ensures IsRunSplit(gs + [g]) <==>
      && IsRunSplit(gs)
      && g != [] && Consecutive(g)
      && (gs != [] && gs[|gs| - 1] != [] ==> g[0] != Last(gs[|gs| - 1]) + 1)
  {
    assert (gs + [g])[..|gs|] == gs;
  }

  /** The last element of a split is the last element of its last run. */
  lemma FlattenLast(gs: seq<seq<int>>)
    requires gs != [] && gs[|gs| - 1] != []
    ensures Flatten(gs) != [] && Last(Flatten(gs)) == Last(gs[|gs| - 1])
  {
  }

  /** Extending the runs appends `x` to what they cover, and the last run
      then ends with `x`. */
  lemma ExtendFlatten(runs: seq<seq<int>>, previous: int, x: int)
    requires runs != []
    ensures Flatten(Extend(runs, previous, x)) == Flatten(runs) + [x]
    ensures var r := Extend(runs, previous, x); r[|r| - 1] != [] && Last(r[|r| - 1]) == x
  {
    var front := runs[..|runs| - 1];
    var g := runs[|runs| - 1];
    assert runs == front + [g];
    FlattenAppend(front, g);
    if x == previous + 1 {
      FlattenAppend(front, g + [x]);
    } else {
      FlattenAppend(runs, [x]);
    }
  }

  /** Extending a maximal split whose last run ends with `previous` keeps it
      a maximal split. */
  lemma ExtendSplit(runs: seq<seq<int>>, previous: int, x: int)
    requires runs != [] && IsRunSplit(runs)
    requires runs[|runs| - 1] != [] && Last(runs[|runs| - 1]) == previous
    ensures IsRunSplit(Extend(runs, previous, x))
  {
    var front := runs[..|runs| - 1];
    var g := runs[|runs| - 1];
    SplitLast(runs);
    if x == previous + 1 {
      assert Extend(runs, previous, x) == front + [g + [x]];
      ConsecutiveAppend(g, x);
      assert (g + [x])[0] == g[0];
      SplitAppend(front, g + [x]);
    } else {
      assert Extend(runs, previous, x) == runs + [[x]];
      assert Consecutive([x]);
      SplitAppend(runs, [x]);
    }
  }

  /** What `RunsFlatten` states about `s`. */
  predicate FlattensBack(s: seq<int>)
  {
    var r := Runs(s);
    && Flatten(r) == s
    && (s != [] ==> r[|r| - 1] != [] && Last(r[|r| - 1]) == Last(s))
  }

  lemma RunsFlattenStep(s: seq<int>)
    requires |s| > 1 && FlattensBack(s[..|s| - 1])
    ensures FlattensBack(s)
  {
    var init := s[..|s| - 1];
    assert init[|init| - 1] == s[|s| - 2];
    assert Runs(s) == Extend(Runs(init), s[|s| - 2], s[|s| - 1]);
    ExtendFlatten(Runs(init), s[|s| - 2], s[|s| - 1]);
    assert s == init + [s[|s| - 1]];
  }

  /** Putting the runs of `s` back together gives `s`, and its last run ends
      with the last element of `s`. */
  lemma {:induction false} RunsFlatten(s: seq<int>)
    ensures Flatten(Runs(s)) == s
    ensures s != [] ==> Runs(s)[|Runs(s)| - 1] != [] && Last(Runs(s)[|Runs(s)| - 1]) == Last(s)
    decreases |s|
  {
    if |s| == 1 {
      FlattenAppend([], [s[0]]);
      assert [] + [[s[0]]] == Runs(s);
    } else if |s| > 1 {
      RunsFlatten(s[..|s| - 1]);
      RunsFlattenStep(s);
    }
  }

  /** The runs of `s` are a split into maximal consecutive runs. */
  lemma {:induction false} RunsAreMaximal(s: seq<int>)
    ensures IsRunSplit(Runs(s))
    decreases |s|
  {
    if |s| == 1 {
      assert Runs(s) == [] + [[s[0]]];
      SplitAppend([], [s[0]]);
    } else if |s| > 1 {
      var init := s[..|s| - 1];
      RunsAreMaximal(init);
      RunsFlatten(init);
      ExtendSplit(Runs(init), s[|s| - 2], s[|s| - 1]);
    }
  }

  /** The runs of a selection with one more number: `Extend` applied to
      the runs of the rest. */
  lemma RunsSnoc(s: seq<int>, x: int)
    requires s != []
    ensures Runs(s + [x]) == Extend(Runs(s), Last(s), x)
  {
    var t := s + [x];
    assert |t| > 1 && t[..|t| - 1] == s && t[|t| - 2] == Last(s) && t[|t| - 1] == x;
    assert Runs(t) == Extend(Runs(t[..|t| - 1]), t[|t| - 2], t[|t| - 1]);
  }

  /** The last run of a maximal split, taken apart: what comes before it is
      a maximal split covering the numbers before the run's own. */
  lemma SplitLast(gs: seq<seq<int>>)
    requires gs != [] && IsRunSplit(gs)
    ensures var front := gs[..|gs| - 1]; var g := gs[|gs| - 1];
      && gs == front + [g]
      && IsRunSplit(front) && g != [] && Consecutive(g)
      && (front != [] ==> front[|front| - 1] != [] && g[0] != Last(front[|front| - 1]) + 1)
      && Flatten(gs) == Flatten(front) + g
  {
    var front := gs[..|gs| - 1];
    var g := gs[|gs| - 1];
    assert gs == front + [g];
    FlattenAppend(front, g);
    if front != [] {
      SplitAppend(front[..|front| - 1], front[|front| - 1]);
      assert front == front[..|front| - 1] + [front[|front| - 1]];
    }
  }

  /** The uniqueness step when the last run holds one number `x`: it does
      not continue the run before it, so it starts a run of its own. */
  lemma SplitUniqueNewRun(front: seq<seq<int>>, x: int, s: seq<int>)
    requires front == Runs(s) && Flatten(front) == s
    requires front != [] ==> front[|front| - 1] != [] && x != Last(front[|front| - 1]) + 1
    ensures front + [[x]] == Runs(s + [x])
  {
    if s == [] {
      assert s + [x] == [x];
    } else {
      FlattenLast(front);
      RunsSnoc(s, x);
    }
  }

  /** The uniqueness step when the last run `h + [x]` holds more than one
      number: `x` continues the run `h`. */
  lemma SplitUniqueLongerRun(front: seq<seq<int>>, h: seq<int>, x: int, s: seq<int>)
    requires h != [] && x == Last(h) + 1
    requires front + [h] == Runs(s) && Flatten(front + [h]) == s
    ensures front + [h + [x]] == Runs(s + [x])
  {
    var shorter := front + [h];
    FlattenLast(shorter);
    RunsSnoc(s, x);
    assert shorter[..|shorter| - 1] == front;
  }

  /** Dropping the last number of a consecutive run of two or more leaves a
      consecutive run, and the dropped number continues it. */
  lemma ConsecutivePrefix(g: seq<int>)
    requires |g| > 1 && Consecutive(g)
    ensures Consecutive(g[..|g| - 1]) && Last(g) == Last(g[..|g| - 1]) + 1
  {
  }

  /** A split into maximal consecutive runs is unique: any such split of `s`
      is `Runs(s)`. */
  lemma {:induction false} RunSplitUnique(gs: seq<seq<int>>, s: seq<int>)
    requires IsRunSplit(gs) && Flatten(gs) == s
    ensures gs == Runs(s)
    decreases |s|, 1
  {
    if gs != [] {
      SplitLast(gs);
      if |gs[|gs| - 1]| == 1 {
        RunSplitUniqueNewRun(gs, s);
      } else {
        RunSplitUniqueLongerRun(gs, s);
      }
    }
  }

  /** `RunSplitUnique` when the last run holds one number. */
  lemma {:induction false} RunSplitUniqueNewRun(gs: seq<seq<int>>, s: seq<int>)
    requires gs != [] && IsRunSplit(gs) && Flatten(gs) == s && |gs[|gs| - 1]| == 1
    ensures gs == Runs(s)
    decreases |s|, 0
  {
    var front := gs[..|gs| - 1];
    var x := gs[|gs| - 1][0];
    SplitLast(gs);
    assert gs[|gs| - 1] == [x];
    assert s == Flatten(front) + [x];
    RunSplitUnique(front, Flatten(front));
    SplitUniqueNewRun(front, x, Flatten(front));
  }

  /** `RunSplitUnique` when the last run holds more than one number. */
  lemma {:induction false} RunSplitUniqueLongerRun(gs: seq<seq<int>>, s: seq<int>)
    requires gs != [] && IsRunSplit(gs) && Flatten(gs) == s && |gs[|gs| - 1]| > 1
    ensures gs == Runs(s)
    decreases |s|, 0
  {
    var front := gs[..|gs| - 1];
    var g := gs[|gs| - 1];
    var h := g[..|g| - 1];
    SplitLast(gs);
    assert g == h + [Last(g)];
    ConsecutivePrefix(g);
    FlattenAppend(front, h);
    SplitAppend(front, h);
    assert s == Flatten(front + [h]) + [Last(g)];
    RunSplitUnique(front + [h], Flatten(front + [h]));
    SplitUniqueLongerRun(front, h, Last(g), Flatten(front + [h]));
  }

  /** The sum over the runs of `n` minus the run's size. */
  function GapSum(gs: seq<seq<int>>, n: int): int
  {
    if gs == [] then 0 else GapSum(gs[..|gs| - 1], n) + (n - |gs[|gs| - 1]|)
  }

  /** The gap sum is `n` per run minus the number of elements in the runs. */
  lemma {:induction false} GapSumClosedForm(gs: seq<seq<int>>, n: int)
    ensures GapSum(gs, n) == n * |gs| - |Flatten(gs)|
  {
    if gs != [] {
      GapSumClosedForm(gs[..|gs| - 1], n);
    }
  }

  /** The number of runs of `selected` and their gap sum for `n`: no runs
      and no gap for an empty selection, otherwise the split of the input
      into maximal consecutive runs. */
  method CountConsecutiveGroups(selected: seq<int>, n: int) returns (groups: int, sum: int)
    ensures selected == [] ==> groups == 0 && sum == 0
    ensures groups == |Runs(selected)| && sum == GapSum(Runs(selected), n)
    ensures sum == n * groups - |selected|
  {
    if |selected| == 0 {
      return 0, 0;
    }
    var split: seq<seq<int>> := [];
    var currentGroup := [selected[0]];
    assert selected[..1] == [selected[0]];
    for i := 1 to |selected|
      invariant split + [currentGroup] == Runs(selected[..i])
    {
      assert selected[..i + 1][..i] == selected[..i];
      if selected[i] == selected[i - 1] + 1 {
        currentGroup := currentGroup + [selected[i]];
      } else {
        split := split + [currentGroup];
        currentGroup := [selected[i]];
      }
    }
    split := split + [currentGroup];
    assert selected[..|selected|] == selected;
    groups := |split|;
    sum := GapSum(split, n);
    RunsFlatten(selected);
    GapSumClosedForm(split, n);
  }
}
