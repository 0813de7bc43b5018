/**
  `AnalyzeTags`: extract the candidates of the targets against the
  background, then run SELECT rounds while targets are unresolved and ECTS
  is enabled, charging each chosen group's length plus the per-SELECT
  overhead. The SELECT counter is raised before the "no group left" exit,
  so a run that runs out of candidates reports one SELECT more than it chose.
 */
module Analysis {
  import opened Windows
  import opened Extraction
  import opened Planner

  /** A pair of window-length bounds [lMin, lMax]. */
  datatype Bounds = Bounds(lMin: nat, lMax: nat)

  /** The `Limit` switch: modes 1 and the default search every length from 1
      to BIT_LENGTH; modes 0 and 2 compute their bounds in floating point
      and are not part of this model (None). */
  function LimitBounds(limit: int): (r: Option<Bounds>)
    ensures r.None? <==> limit == 0 || limit == 2
    ensures r.Some? ==> r.value.lMin == 1 && r.value.lMax == BIT_LENGTH && r.value.lMin <= r.value.lMax
  {
    if limit == 0 || limit == 2 then None else Some(Bounds(1, BIT_LENGTH))
  }

  /** The SELECT rounds of the analysis, from the unresolved targets and the
      candidate list: returns the round counter and the substring bits. */
  method SelectRounds(unresolved0: set<int>, candidates0: seq<Candidate>, ects: int)
    returns (loopCount: nat, ectsBit: nat)
    ensures ects != 1 || unresolved0 == {} ==> loopCount == 0 && ectsBit == 0
    ensures ects == 1 ==>
      var o := Plan(unresolved0, candidates0);
      && loopCount == |o.chosen| + (if o.left == {} then 0 else 1)
      && ectsBit == TotalLength(o.chosen)
  {
    var unresolved := unresolved0;
    var candidates := candidates0;
    ectsBit := 0;
    loopCount := 0;
    ghost var start := Plan(unresolved, candidates);
    ghost var chosen: seq<GroupKey> := [];
    ghost var exhausted := false;
    while unresolved != {} && ects == 1
      invariant !exhausted
      invariant ects != 1 || unresolved0 == {} ==> chosen == []
      invariant start.chosen == chosen + Plan(unresolved, candidates).chosen
      invariant start.left == Plan(unresolved, candidates).left
      invariant ectsBit == TotalLength(chosen)
      invariant loopCount == |chosen|
      decreases |candidates|
    {
      loopCount := loopCount + 1;
      var mostCommon := MostCommon(candidates);
      if mostCommon.None? {
        exhausted := true;
        break;
      }
      var key := mostCommon.value;
      var removed := Covered(candidates, key);
      PlanRound(start, chosen, unresolved, candidates, key);
      TotalLengthAppend(chosen, key);
      ectsBit := ectsBit + |key.substring|;
      unresolved := unresolved - removed;
      candidates := RemoveCovered(candidates, removed);
      chosen := chosen + [key];
    }
    if exhausted {
      assert Plan(unresolved, candidates) == Outcome([], unresolved);
      assert chosen + [] == chosen;
    } else if ects == 1 {
      assert Plan(unresolved, candidates) == Outcome([], {});
      assert chosen + [] == chosen;
    }
  }

  /** One round carries the loop's account of the plan over: what was
      chosen so far, followed by the plan of what is left, is the whole plan. */
  lemma PlanRound(start: Outcome, chosen: seq<GroupKey>, unresolved: set<int>, cs: seq<Candidate>, k: GroupKey)
    requires unresolved != {} && MostCommon(cs) == Some(k)
    requires start.chosen == chosen + Plan(unresolved, cs).chosen
    requires start.left == Plan(unresolved, cs).left
    ensures |RemoveCovered(cs, Covered(cs, k))| < |cs|
    ensures var rest := Plan(unresolved - Covered(cs, k), RemoveCovered(cs, Covered(cs, k)));
      start.chosen == (chosen + [k]) + rest.chosen && start.left == rest.left
  {
    PlanStep(unresolved, cs, k);
    var rest := Plan(unresolved - Covered(cs, k), RemoveCovered(cs, Covered(cs, k)));
    assert chosen + ([k] + rest.chosen) == (chosen + [k]) + rest.chosen;
  }

  /** The analysis: returns the number of SELECT commands and the total bits.
      With ECTS enabled, the rounds are those of `Plan` over {1..n} and the
      extracted candidates: one SELECT per chosen group, plus one more when
      targets stay unresolved; the bits are the chosen groups' lengths plus
      SELECT_OVERHEAD_BITS per SELECT. */
  method AnalyzeTags(neededTags: seq<string>, background: seq<string>, n: nat, lMin: nat, lMax: nat, ects: int)
    returns (selects: int, bits: int)
    requires TargetsLongEnough(neededTags, lMin, lMax)
    ensures ects != 1 || n == 0 ==> selects == 0 && bits == 0
    ensures ects == 1 ==>
      var o := Plan(TargetRange(n), Candidates(neededTags, background, lMin, lMax));
      && selects == |o.chosen| + (if o.left == {} then 0 else 1)
      && bits == TotalLength(o.chosen) + selects * SELECT_OVERHEAD_BITS
  {
    var candidates := ExtractCandidates(neededTags, background, lMin, lMax);
    var unresolved := TargetRange(n);
    if n == 0 {
      assert unresolved == {};
    }
    var loopCount, ectsBit := SelectRounds(unresolved, candidates, ects);
    selects := loopCount;
    bits := ectsBit + loopCount * SELECT_OVERHEAD_BITS;
  }

  /** A target ends unresolved exactly when it is one of 1..n and has no
      window in [lMin, lMax] that the background lacks; so the extra SELECT
      of an exhausted run is charged exactly when such a target exists. */
  lemma UnresolvedExactlyUndistinguishable(targets: seq<string>, background: seq<string>, n: nat, lMin: nat, lMax: nat, i: int)
    requires TargetsLongEnough(targets, lMin, lMax)
    ensures i in Plan(TargetRange(n), Candidates(targets, background, lMin, lMax)).left
        <==> 1 <= i <= n && forall c | IsCandidate(targets, background, lMin, lMax, c) :: c.index != i
  {
    var cs := Candidates(targets, background, lMin, lMax);
    PlanLeftExactly(TargetRange(n), cs, i);
    TargetRangeExactly(n);
    forall c ensures c in cs <==> IsCandidate(targets, background, lMin, lMax, c) {
      CandidatesExactly(targets, background, lMin, lMax, c);
    }
  }

  /** When there are at most n targets (the caller passes n = their number),
      at most n rounds choose a group, so the analysis reports at most n + 1
      SELECT commands. */
  lemma ChosenAtMostTargets(targets: seq<string>, background: seq<string>, n: nat, lMin: nat, lMax: nat)
    requires TargetsLongEnough(targets, lMin, lMax)
    requires |targets| <= n
    ensures |Plan(TargetRange(n), Candidates(targets, background, lMin, lMax)).chosen| <= n
  {
    var cs := Candidates(targets, background, lMin, lMax);
    TargetRangeExactly(n);
    forall c | c in cs ensures c.index in TargetRange(n) {
      CandidatesExactly(targets, background, lMin, lMax, c);
    }
    PlanChosenBounded(TargetRange(n), cs);
  }

  /** A background tag that agrees with a target on its first BIT_LENGTH
      positions shares every window of that target inside them. */
  lemma CloneSharesWindow(tag: string, clone: string, background: seq<string>, c: Candidate)
    requires clone in background && |clone| >= BIT_LENGTH && |tag| >= BIT_LENGTH
    requires clone[..BIT_LENGTH] == tag[..BIT_LENGTH]
    requires 1 <= c.start && c.end == c.start - 1 + |c.substring| && c.end <= BIT_LENGTH
    requires c.substring == tag[c.start - 1..c.end]
    ensures IfExist(c.substring, background, c.start - 1, c.end)
  {
    var lo, hi := c.start - 1, c.end;
    forall j | lo <= j < hi
      ensures clone[j] == tag[j]
    {
      assert clone[j] == clone[..BIT_LENGTH][j];
      assert tag[j] == tag[..BIT_LENGTH][j];
    }
    assert clone[lo..hi] == tag[lo..hi];
    IfExistExactly(c.substring, background, lo, hi);
  }

  /** A target with such a clone in the background has no candidate. */
  lemma CloneHasNoCandidate(targets: seq<string>, background: seq<string>, lMin: nat, lMax: nat, i: int, clone: string)
    requires 1 <= i <= |targets| && |targets[i - 1]| >= BIT_LENGTH
    requires clone in background && |clone| >= BIT_LENGTH
    requires clone[..BIT_LENGTH] == targets[i - 1][..BIT_LENGTH]
    ensures forall c | IsCandidate(targets, background, lMin, lMax, c) :: c.index != i
  {
    forall c | IsCandidate(targets, background, lMin, lMax, c)
      ensures c.index != i
    {
      if c.index == i {
        CloneSharesWindow(targets[i - 1], clone, background, c);
      }
    }
  }

  /** A target without such a clone has its whole first BIT_LENGTH positions
      as a candidate window of length BIT_LENGTH. */
  lemma FullWindowIsCandidate(targets: seq<string>, background: seq<string>, i: int)
    requires 1 <= i <= |targets| && |targets[i - 1]| >= BIT_LENGTH
    requires forall t | t in background && |t| >= BIT_LENGTH :: t[..BIT_LENGTH] != targets[i - 1][..BIT_LENGTH]
    ensures IsCandidate(targets, background, 1, BIT_LENGTH, Candidate(i, targets[i - 1][..BIT_LENGTH], 1, BIT_LENGTH))
  {
    var full := targets[i - 1][..BIT_LENGTH];
    IfExistExactly(full, background, 0, BIT_LENGTH);
    forall t | t in background && |t| >= BIT_LENGTH
      ensures t[0..BIT_LENGTH] != full
    {
      assert t[0..BIT_LENGTH] == t[..BIT_LENGTH];
    }
    assert targets[i - 1][0..BIT_LENGTH] == full;
  }

  /** With the bounds of Limit 1 and the default, every window length up to
      the full tag is searched, so a target ends unresolved exactly when a
      background tag agrees with it on all BIT_LENGTH positions. */
  lemma FullRangeLeavesOnlyClones(targets: seq<string>, background: seq<string>, n: nat, limit: int, i: int)
    requires LimitBounds(limit).Some?
    requires forall t | t in targets :: |t| >= BIT_LENGTH
    requires 1 <= i <= n && i <= |targets|
    ensures var b := LimitBounds(limit).value;
      i in Plan(TargetRange(n), Candidates(targets, background, b.lMin, b.lMax)).left
      <==> exists t :: t in background && |t| >= BIT_LENGTH && t[..BIT_LENGTH] == targets[i - 1][..BIT_LENGTH]
  {
    var b := LimitBounds(limit).value;
    assert b == Bounds(1, BIT_LENGTH);
    assert targets[i - 1] in targets;
    UnresolvedExactlyUndistinguishable(targets, background, n, b.lMin, b.lMax, i);
    if exists t :: t in background && |t| >= BIT_LENGTH && t[..BIT_LENGTH] == targets[i - 1][..BIT_LENGTH] {
      var clone :| clone in background && |clone| >= BIT_LENGTH && clone[..BIT_LENGTH] == targets[i - 1][..BIT_LENGTH];
      CloneHasNoCandidate(targets, background, b.lMin, b.lMax, i, clone);
    } else {
      FullWindowIsCandidate(targets, background, i);
    }
  }
}
