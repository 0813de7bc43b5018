/**
  The greedy SELECT planner. Each round groups the remaining candidates by
  (contents, 1-based start), picks the largest group (ties go to the group
  whose first member comes first in the list), counts it as one SELECT,
  marks the targets it covers as resolved and drops every candidate those
  targets own. `Plan` is the planner as a function; `Analysis.AnalyzeTags`
  runs the same rounds as a loop and is proved equal to it.
 */
module Planner {
  import opened Windows

  /** Size of the group with key `k`: how many candidates carry it. */
  function Count(cs: seq<Candidate>, k: GroupKey): (r: nat)
    ensures r <= |cs|
    decreases |cs|
  {
    if cs == [] then 0
    else (if KeyOf(cs[0]) == k then 1 else 0) + Count(cs[1..], k)
  }

  /** The grouping keys of the candidates, in list order. */
  function Keys(cs: seq<Candidate>): seq<GroupKey>
  {
    seq(|cs|, j requires 0 <= j < |cs| => KeyOf(cs[j]))
  }

  /** A group's size is the number of times its key occurs among the
      candidates' keys, and it is non-zero exactly when some candidate
      carries the key. */
  lemma {:induction false} CountExactly(cs: seq<Candidate>, k: GroupKey)
    ensures Count(cs, k) == multiset(Keys(cs))[k]
    ensures Count(cs, k) > 0 <==> exists c | c in cs :: KeyOf(c) == k
    decreases |cs|
  {
    if cs != [] {
      CountExactly(cs[1..], k);
      assert Keys(cs) == [KeyOf(cs[0])] + Keys(cs[1..]);
      assert forall c :: c in cs <==> c == cs[0] || c in cs[1..];
    }
  }

  /** The target indices of the group with key `k` (the round's removed tags). */
  function Covered(cs: seq<Candidate>, k: GroupKey): set<int>
    decreases |cs|
  {
    if cs == [] then {}
    else (if KeyOf(cs[0]) == k then {cs[0].index} else {}) + Covered(cs[1..], k)
  }

  /** The covered targets are exactly the owners of the group's members. */
  lemma {:induction false} CoveredExactly(cs: seq<Candidate>, k: GroupKey)
    ensures forall c | c in cs && KeyOf(c) == k :: c.index in Covered(cs, k)
    ensures forall i | i in Covered(cs, k) :: exists c | c in cs :: KeyOf(c) == k && c.index == i
    decreases |cs|
  {
    if cs != [] {
      CoveredExactly(cs[1..], k);
      forall c | c in cs && KeyOf(c) == k
        ensures c.index in Covered(cs, k)
      {
        if c != cs[0] {
          assert c in cs[1..];
        }
      }
      forall i | i in Covered(cs, k)
        ensures exists c | c in cs :: KeyOf(c) == k && c.index == i
      {
        if i !in Covered(cs[1..], k) {
          assert KeyOf(cs[0]) == k && cs[0].index == i;
        } else {
          var c :| c in cs[1..] && KeyOf(c) == k && c.index == i;
          assert c in cs;
        }
      }
    }
  }

  /** The candidate list without the candidates of the targets in `covered`,
      in the same order. */
  function RemoveCovered(cs: seq<Candidate>, covered: set<int>): (r: seq<Candidate>)
    ensures |r| <= |cs|
    decreases |cs|
  {
    if cs == [] then []
    else if cs[0].index in covered then RemoveCovered(cs[1..], covered)
    else [cs[0]] + RemoveCovered(cs[1..], covered)
  }

  /** Exactly the candidates of targets outside `covered` are kept, and the
      list gets strictly shorter when one of its candidates is covered. */
  lemma {:induction false} RemoveCoveredExactly(cs: seq<Candidate>, covered: set<int>)
    ensures forall c :: c in RemoveCovered(cs, covered) <==> c in cs && c.index !in covered
    ensures (exists c | c in cs :: c.index in covered) ==> |RemoveCovered(cs, covered)| < |cs|
    decreases |cs|
  {
    if cs != [] {
      RemoveCoveredExactly(cs[1..], covered);
      assert forall c :: c in cs <==> c == cs[0] || c in cs[1..];
      if cs[0].index !in covered && exists c | c in cs :: c.index in covered {
        var c :| c in cs && c.index in covered;
        assert c in cs[1..];
      }
    }
  }

  /** Removing candidates keeps the order of the rest: it works piecewise. */
  lemma {:induction false} RemoveCoveredSplits(a: seq<Candidate>, b: seq<Candidate>, covered: set<int>)
    ensures RemoveCovered(a + b, covered) == RemoveCovered(a, covered) + RemoveCovered(b, covered)
    decreases |a|
  {
    if a == [] {
      assert a + b == b;
    } else {
      assert (a + b)[0] == a[0];
      assert (a + b)[1..] == a[1..] + b;
      RemoveCoveredSplits(a[1..], b, covered);
    }
  }

  /** The candidate at `i` starts the group the planner picks: no group is
      larger, and every candidate before it belongs to a smaller group (the
      stable descending sort keeps the groups in first-seen order). */
  predicate IsFirstLargestAt(cs: seq<Candidate>, i: int)
  {
    && 0 <= i < |cs|
    && (forall j | 0 <= j < |cs| :: Count(cs, KeyOf(cs[j])) <= Count(cs, KeyOf(cs[i])))
    && (forall j | 0 <= j < i :: Count(cs, KeyOf(cs[j])) < Count(cs, KeyOf(cs[i])))
  }

  /** Scans cs[i..] keeping the earliest candidate of a largest group seen. */
  function FirstLargestFrom(cs: seq<Candidate>, i: nat, best: nat): (r: nat)
    requires best < i <= |cs|
    ensures r < |cs|
    decreases |cs| - i
  {
    if i == |cs| then best
    else if Count(cs, KeyOf(cs[i])) > Count(cs, KeyOf(cs[best])) then FirstLargestFrom(cs, i + 1, i)
    else FirstLargestFrom(cs, i + 1, best)
  }

  /** When `best` is the first largest of cs[..i], the scan ends on the first
      largest of the whole list. */
  lemma {:induction false} FirstLargestFromIsFirstLargest(cs: seq<Candidate>, i: nat, best: nat)
    requires best < i <= |cs|
    requires forall j | 0 <= j < i :: Count(cs, KeyOf(cs[j])) <= Count(cs, KeyOf(cs[best]))
    requires forall j | 0 <= j < best :: Count(cs, KeyOf(cs[j])) < Count(cs, KeyOf(cs[best]))
    ensures IsFirstLargestAt(cs, FirstLargestFrom(cs, i, best))
    decreases |cs| - i
  {
    if i < |cs| {
      if Count(cs, KeyOf(cs[i])) > Count(cs, KeyOf(cs[best])) {
        FirstLargestFromIsFirstLargest(cs, i + 1, i);
      } else {
        FirstLargestFromIsFirstLargest(cs, i + 1, best);
      }
    }
  }

  /** At most one position starts the picked group. */
  lemma FirstLargestUnique(cs: seq<Candidate>, i: int, j: int)
    requires IsFirstLargestAt(cs, i) && IsFirstLargestAt(cs, j)
    ensures i == j
  {
    assert Count(cs, KeyOf(cs[j])) <= Count(cs, KeyOf(cs[i]));
    assert Count(cs, KeyOf(cs[i])) <= Count(cs, KeyOf(cs[j]));
  }

  /** The key of the group the planner picks, or None when no candidate is left. */
  function MostCommon(cs: seq<Candidate>): (r: Option<GroupKey>)
    ensures r.None? <==> cs == []
  {
    if cs == [] then None else Some(KeyOf(cs[FirstLargestFrom(cs, 1, 0)]))
  }

  /** The planner picks the key of the first candidate of a largest group,
      and that candidate is the only one satisfying the rule. */
  lemma MostCommonExactly(cs: seq<Candidate>, i: int)
    requires IsFirstLargestAt(cs, i)
    ensures MostCommon(cs) == Some(KeyOf(cs[i]))
  {
    FirstLargestFromIsFirstLargest(cs, 1, 0);
    FirstLargestUnique(cs, i, FirstLargestFrom(cs, 1, 0));
  }

  /** A non-empty list has a first largest group, whose key is picked. */
  lemma MostCommonPicksFirstLargest(cs: seq<Candidate>)
    requires cs != []
    ensures exists i :: IsFirstLargestAt(cs, i) && MostCommon(cs) == Some(KeyOf(cs[i]))
  {
    FirstLargestFromIsFirstLargest(cs, 1, 0);
    var i := FirstLargestFrom(cs, 1, 0);
    assert IsFirstLargestAt(cs, i) && MostCommon(cs) == Some(KeyOf(cs[i]));
  }

  /** The picked group has a member, so removing its targets' candidates
      shortens the list. */
  lemma GroupShrinksCandidates(cs: seq<Candidate>, k: GroupKey)
    requires MostCommon(cs) == Some(k)
    ensures |RemoveCovered(cs, Covered(cs, k))| < |cs|
  {
    MostCommonPicksFirstLargest(cs);
    var i :| IsFirstLargestAt(cs, i) && MostCommon(cs) == Some(KeyOf(cs[i]));
    assert cs[i] in cs;
    CoveredExactly(cs, k);
    RemoveCoveredExactly(cs, Covered(cs, k));
  }

  /** What the planner ends with: the keys of the chosen groups, in round
      order, and the targets still unresolved. */
  datatype Outcome = Outcome(chosen: seq<GroupKey>, left: set<int>)

  /** The planner's rounds, from the unresolved set and the candidate list. */
  function Plan(unresolved: set<int>, cs: seq<Candidate>): Outcome
    decreases |cs|
  {
    if unresolved == {} then Outcome([], {})
    else
      match MostCommon(cs)
      case None => Outcome([], unresolved)
      case Some(k) =>
        var covered := Covered(cs, k);
        GroupShrinksCandidates(cs, k);
        var rest := Plan(unresolved - covered, RemoveCovered(cs, covered));
        Outcome([k] + rest.chosen, rest.left)
  }

  /** One round of `Plan`: the picked key comes first, and the rest is the
      plan of the remaining targets over the remaining candidates. */
  lemma PlanStep(unresolved: set<int>, cs: seq<Candidate>, k: GroupKey)
    requires unresolved != {} && MostCommon(cs) == Some(k)
    ensures |RemoveCovered(cs, Covered(cs, k))| < |cs|
    ensures Plan(unresolved, cs).chosen
         == [k] + Plan(unresolved - Covered(cs, k), RemoveCovered(cs, Covered(cs, k))).chosen
    ensures Plan(unresolved, cs).left
         == Plan(unresolved - Covered(cs, k), RemoveCovered(cs, Covered(cs, k))).left
  {
    GroupShrinksCandidates(cs, k);
  }

  /** The initial unresolved set {1..n}. */
  function TargetRange(n: nat): set<int>
  {
    if n == 0 then {} else TargetRange(n - 1) + {n}
  }

  /** {1..n} holds exactly the numbers 1 to n, and n of them. */
  lemma {:induction false} TargetRangeExactly(n: nat)
    ensures forall i :: i in TargetRange(n) <==> 1 <= i <= n
    ensures |TargetRange(n)| == n
  {
    if n > 0 {
      TargetRangeExactly(n - 1);
      assert n !in TargetRange(n - 1);
    }
  }

  /** Total length of the chosen groups' contents (the substring bits). */
  function TotalLength(ks: seq<GroupKey>): nat
  {
    if ks == [] then 0 else TotalLength(ks[..|ks| - 1]) + |ks[|ks| - 1].substring|
  }

  /** Choosing one more group adds its length. */
  lemma TotalLengthAppend(ks: seq<GroupKey>, k: GroupKey)
    ensures TotalLength(ks + [k]) == TotalLength(ks) + |k.substring|
  {
    assert (ks + [k])[..|ks|] == ks;
  }

  /** Every candidate belongs to an unresolved target. */
  predicate AllUnresolved(cs: seq<Candidate>, unresolved: set<int>)
  {
    forall c | c in cs :: c.index in unresolved
  }

  /** One round, when every candidate belongs to an unresolved target: the
      unresolved set loses exactly the group's targets, all of which were
      unresolved, and gets strictly smaller; no remaining candidate belongs
      to a covered target; the candidate list gets strictly shorter; and the
      remaining candidates still all belong to unresolved targets. */
  lemma RoundProgress(unresolved: set<int>, cs: seq<Candidate>, k: GroupKey)
    requires AllUnresolved(cs, unresolved)
    requires MostCommon(cs) == Some(k)
    ensures var covered := Covered(cs, k);
      var rest := RemoveCovered(cs, covered);
      && covered != {}
      && covered <= unresolved
      && |unresolved - covered| < |unresolved|
      && (forall c | c in rest :: c.index !in covered)
      && |rest| < |cs|
      && AllUnresolved(rest, unresolved - covered)
  {
    var covered := Covered(cs, k);
    MostCommonPicksFirstLargest(cs);
    var i :| IsFirstLargestAt(cs, i) && MostCommon(cs) == Some(KeyOf(cs[i]));
    CoveredExactly(cs, k);
    RemoveCoveredExactly(cs, covered);
    assert cs[i] in cs;
    assert cs[i].index in covered;
    forall t | t in covered
      ensures t in unresolved
    {
      var c :| c in cs && KeyOf(c) == k && c.index == t;
    }
    assert cs[i].index !in unresolved - covered;
    assert unresolved - covered < unresolved;
  }

  /** A target ends unresolved exactly when it started unresolved and owns
      no candidate at all. */
  lemma {:induction false} PlanLeftExactly(unresolved: set<int>, cs: seq<Candidate>, i: int)
    ensures i in Plan(unresolved, cs).left <==> i in unresolved && forall c | c in cs :: c.index != i
    decreases |cs|
  {
    if unresolved != {} && MostCommon(cs).Some? {
      var k := MostCommon(cs).value;
      var covered := Covered(cs, k);
      var rest := RemoveCovered(cs, covered);
      PlanStep(unresolved, cs, k);
      CoveredExactly(cs, k);
      RemoveCoveredExactly(cs, covered);
      PlanLeftExactly(unresolved - covered, rest, i);
      if i in covered {
        var c :| c in cs && KeyOf(c) == k && c.index == i;
      } else if i in unresolved && (forall c | c in cs :: c.index != i) {
        assert forall c | c in rest :: c.index != i;
      } else if i in unresolved {
        var c :| c in cs && c.index == i;
        assert c in rest;
      }
    }
  }

  /** When every candidate belongs to an unresolved target, each round
      resolves at least one target, so there are at most as many rounds
      that choose a group as there are unresolved targets. */
  lemma {:induction false} PlanChosenBounded(unresolved: set<int>, cs: seq<Candidate>)
    requires AllUnresolved(cs, unresolved)
    ensures |Plan(unresolved, cs).chosen| <= |unresolved|
    decreases |cs|
  {
    if unresolved != {} && MostCommon(cs).Some? {
      var k := MostCommon(cs).value;
      RoundProgress(unresolved, cs, k);
      PlanChosenBounded(unresolved - Covered(cs, k), RemoveCovered(cs, Covered(cs, k)));
    }
  }

  /** Without duplicate windows, a group's size is the number of distinct
      targets it covers. */
  lemma {:induction false} GroupSizeIsTargetsCovered(cs: seq<Candidate>, k: GroupKey)
    requires NoDuplicateWindows(cs)
    ensures Count(cs, k) == |Covered(cs, k)|
    decreases |cs|
  {
    if cs != [] {
      GroupSizeIsTargetsCovered(cs[1..], k);
      CoveredExactly(cs[1..], k);
      if KeyOf(cs[0]) == k {
        assert cs[0].index !in Covered(cs[1..], k);
      } else {
        assert Covered(cs, k) == Covered(cs[1..], k);
      }
    }
  }

  /** Dropping candidates keeps the list free of duplicate windows, so the
      previous lemma applies in every round. */
  lemma {:induction false} RemoveCoveredNoDuplicates(cs: seq<Candidate>, covered: set<int>)
    requires NoDuplicateWindows(cs)
    ensures NoDuplicateWindows(RemoveCovered(cs, covered))
    decreases |cs|
  {
    if cs != [] {
      RemoveCoveredNoDuplicates(cs[1..], covered);
      var rest := RemoveCovered(cs[1..], covered);
      RemoveCoveredExactly(cs[1..], covered);
      if cs[0].index !in covered {
        var r := [cs[0]] + rest;
        assert r[1..] == rest;
        forall c | c in r[1..]
          ensures !SameTargetWindow(r[0], c)
        {
          assert c in cs[1..];
        }
      }
    }
  }
}
