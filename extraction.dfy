/**
  Candidate extraction: for every target, every window length in
  [lMin, lMax] and every start offset, keep the window when no background
  tag shares it. The candidate list's order (target, then length, then
  start) matters to the planner's tie-break, so it is specified exactly by
  the functions below, built the way the nested loops build the list.
 */
module Extraction {
  import opened Windows

  /** The candidate, if any, for the window of `tag` of length `len` at the
      0-based position `start`, owned by the target numbered `index`. */
  function WindowCandidate(tag: string, index: int, background: seq<string>, len: nat, start: nat): seq<Candidate>
    requires start + len <= |tag|
  {
    var sub := tag[start..start + len];
    if IfExist(sub, background, start, start + len) then []
    else [Candidate(index, sub, start + 1, start + len)]
  }

  /** How many 0-based starts the extractor tries for windows of length `len`
      (0 .. BIT_LENGTH - len). */
  function NumStarts(len: nat): nat
  {
    if len <= BIT_LENGTH then BIT_LENGTH - len + 1 else 0
  }

  /** Candidates for windows of length `len` at the 0-based starts 0 .. s-1. */
  function StartsBelow(tag: string, index: int, background: seq<string>, len: nat, s: nat): seq<Candidate>
    requires s == 0 || s - 1 + len <= |tag|
  {
    if s == 0 then []
    else StartsBelow(tag, index, background, len, s - 1) + WindowCandidate(tag, index, background, len, s - 1)
  }

  /** Candidates for the window lengths lMin .. l-1. */
  function LengthsBelow(tag: string, index: int, background: seq<string>, lMin: nat, l: nat): seq<Candidate>
    requires lMin <= l
    requires lMin < l && lMin <= BIT_LENGTH ==> |tag| >= BIT_LENGTH
    decreases l - lMin
  {
    if l == lMin then []
    else LengthsBelow(tag, index, background, lMin, l - 1) + StartsBelow(tag, index, background, l - 1, NumStarts(l - 1))
  }

  /** What the extractor needs of the targets: when some window length is
      tried at all, every target reaches position BIT_LENGTH (the windows
      tried never end beyond it). */
  predicate TargetsLongEnough(targets: seq<string>, lMin: nat, lMax: nat)
  {
    lMin <= lMax && lMin <= BIT_LENGTH ==> forall t | t in targets :: |t| >= BIT_LENGTH
  }

  /** Candidates owned by one target. */
  function TargetCandidates(tag: string, index: int, background: seq<string>, lMin: nat, lMax: nat): seq<Candidate>
    requires lMin <= lMax && lMin <= BIT_LENGTH ==> |tag| >= BIT_LENGTH
  {
    if lMin <= lMax then LengthsBelow(tag, index, background, lMin, lMax + 1) else []
  }

  /** Candidates of the first k targets. */
  function TargetsBelow(targets: seq<string>, background: seq<string>, lMin: nat, lMax: nat, k: nat): seq<Candidate>
    requires k <= |targets|
    requires TargetsLongEnough(targets, lMin, lMax)
  {
    if k == 0 then []
    else TargetsBelow(targets, background, lMin, lMax, k - 1) + TargetCandidates(targets[k - 1], k, background, lMin, lMax)
  }

  /** The whole candidate list, in the order the extractor produces it. */
  function Candidates(targets: seq<string>, background: seq<string>, lMin: nat, lMax: nat): seq<Candidate>
    requires TargetsLongEnough(targets, lMin, lMax)
  {
    TargetsBelow(targets, background, lMin, lMax, |targets|)
  }

  // ---------------------------------------------------------------------
  // Which candidates the list holds.

  lemma {:induction false} StartsBelowMembers(tag: string, index: int, background: seq<string>, len: nat, s: nat, c: Candidate)
    requires s == 0 || s - 1 + len <= |tag|
    ensures c in StartsBelow(tag, index, background, len, s) <==>
      c.index == index && |c.substring| == len && c.start <= s && IsUniqueWindow(tag, background, c)
  {
    if s > 0 {
      StartsBelowMembers(tag, index, background, len, s - 1, c);
    }
  }

  lemma {:induction false} LengthsBelowMembers(tag: string, index: int, background: seq<string>, lMin: nat, l: nat, c: Candidate)
    requires lMin <= l
    requires lMin < l && lMin <= BIT_LENGTH ==> |tag| >= BIT_LENGTH
    ensures c in LengthsBelow(tag, index, background, lMin, l) <==>
      c.index == index && lMin <= |c.substring| < l && c.end <= BIT_LENGTH && IsUniqueWindow(tag, background, c)
    decreases l - lMin
  {
    if l > lMin {
      LengthsBelowMembers(tag, index, background, lMin, l - 1, c);
      StartsBelowMembers(tag, index, background, l - 1, NumStarts(l - 1), c);
    }
  }

  lemma TargetCandidatesSound(targets: seq<string>, background: seq<string>, lMin: nat, lMax: nat, k: nat, c: Candidate)
    requires 1 <= k <= |targets|
    requires TargetsLongEnough(targets, lMin, lMax)
    requires c in TargetCandidates(targets[k - 1], k, background, lMin, lMax)
    ensures c.index == k && IsCandidate(targets, background, lMin, lMax, c)
  {
    var tag := targets[k - 1];
    assert lMin <= BIT_LENGTH ==> |tag| >= BIT_LENGTH by {
      assert tag in targets;
    }
    TargetCandidatesOfTag(tag, k, background, lMin, lMax, c);
    assert targets[c.index - 1] == tag;
  }

  /** What one target's contribution holds, stated for the target's tag. */
  lemma TargetCandidatesOfTag(tag: string, k: int, background: seq<string>, lMin: nat, lMax: nat, c: Candidate)
    requires lMin <= lMax && lMin <= BIT_LENGTH ==> |tag| >= BIT_LENGTH
    requires c in TargetCandidates(tag, k, background, lMin, lMax)
    ensures c.index == k && lMin <= |c.substring| <= lMax && c.end <= BIT_LENGTH
    ensures IsUniqueWindow(tag, background, c)
  {
    assert lMin <= lMax;
    assert c in LengthsBelow(tag, k, background, lMin, lMax + 1);
    LengthsBelowMembers(tag, k, background, lMin, lMax + 1, c);
  }

  lemma TargetCandidatesComplete(targets: seq<string>, background: seq<string>, lMin: nat, lMax: nat, c: Candidate)
    requires TargetsLongEnough(targets, lMin, lMax)
    requires IsCandidate(targets, background, lMin, lMax, c)
    ensures c in TargetCandidates(targets[c.index - 1], c.index, background, lMin, lMax)
  {
    var tag := targets[c.index - 1];
    assert |tag| >= BIT_LENGTH by {
      assert tag in targets;
    }
    LengthsBelowMembers(tag, c.index, background, lMin, lMax + 1, c);
  }

  lemma TargetCandidatesMembers(targets: seq<string>, background: seq<string>, lMin: nat, lMax: nat, k: nat, c: Candidate)
    requires 1 <= k <= |targets|
    requires TargetsLongEnough(targets, lMin, lMax)
    ensures c in TargetCandidates(targets[k - 1], k, background, lMin, lMax) <==>
      c.index == k && IsCandidate(targets, background, lMin, lMax, c)
  {
    if c in TargetCandidates(targets[k - 1], k, background, lMin, lMax) {
      TargetCandidatesSound(targets, background, lMin, lMax, k, c);
    } else if c.index == k && IsCandidate(targets, background, lMin, lMax, c) {
      TargetCandidatesComplete(targets, background, lMin, lMax, c);
    }
  }

  lemma {:induction false} TargetsBelowMembers(targets: seq<string>, background: seq<string>, lMin: nat, lMax: nat, k: nat, c: Candidate)
    requires k <= |targets|
    requires TargetsLongEnough(targets, lMin, lMax)
    ensures c in TargetsBelow(targets, background, lMin, lMax, k) <==>
      c.index <= k && IsCandidate(targets, background, lMin, lMax, c)
  {
    if k > 0 {
      TargetsBelowMembers(targets, background, lMin, lMax, k - 1, c);
      TargetCandidatesMembers(targets, background, lMin, lMax, k, c);
    }
  }

  /** Extraction is sound and complete: a candidate is in the list exactly
      when it is a window of its target, of a length in [lMin, lMax] and
      inside the first BIT_LENGTH positions, that no background tag shares. */
  lemma CandidatesExactly(targets: seq<string>, background: seq<string>, lMin: nat, lMax: nat, c: Candidate)
    requires TargetsLongEnough(targets, lMin, lMax)
    ensures c in Candidates(targets, background, lMin, lMax) <==> IsCandidate(targets, background, lMin, lMax, c)
  {
    TargetsBelowMembers(targets, background, lMin, lMax, |targets|, c);
  }

  // ---------------------------------------------------------------------
  // No target owns the same window twice.

  /** Earlier starts never clash with the window at start s. */
  lemma StartsBelowBeforeWindow(tag: string, index: int, background: seq<string>, len: nat, s: nat)
    requires s + len <= |tag|
    ensures forall x, y | x in StartsBelow(tag, index, background, len, s) && y in WindowCandidate(tag, index, background, len, s)
      :: !SameTargetWindow(x, y)
  {
    forall x | x in StartsBelow(tag, index, background, len, s)
      ensures x.start <= s
    {
      StartsBelowMembers(tag, index, background, len, s, x);
    }
  }

  lemma {:induction false} StartsBelowNoDuplicates(tag: string, index: int, background: seq<string>, len: nat, s: nat)
    requires s == 0 || s - 1 + len <= |tag|
    ensures NoDuplicateWindows(StartsBelow(tag, index, background, len, s))
  {
    if s > 0 {
      var prev := StartsBelow(tag, index, background, len, s - 1);
      var next := WindowCandidate(tag, index, background, len, s - 1);
      StartsBelowNoDuplicates(tag, index, background, len, s - 1);
      StartsBelowBeforeWindow(tag, index, background, len, s - 1);
      assert NoDuplicateWindows(next) by {
        if next != [] { assert next[1..] == []; }
      }
      ConcatNoDuplicateWindows(prev, next);
    }
  }

  /** Shorter lengths never clash with the windows of length l. */
  lemma LengthsBelowBeforeLength(tag: string, index: int, background: seq<string>, lMin: nat, l: nat)
    requires lMin <= l
    requires lMin <= BIT_LENGTH ==> |tag| >= BIT_LENGTH
    ensures forall x, y | x in LengthsBelow(tag, index, background, lMin, l)
                       && y in StartsBelow(tag, index, background, l, NumStarts(l)) :: !SameTargetWindow(x, y)
  {
    forall x, y | x in LengthsBelow(tag, index, background, lMin, l) && y in StartsBelow(tag, index, background, l, NumStarts(l))
      ensures |x.substring| != |y.substring|
    {
      LengthsBelowMembers(tag, index, background, lMin, l, x);
      StartsBelowMembers(tag, index, background, l, NumStarts(l), y);
    }
  }

  lemma {:induction false} LengthsBelowNoDuplicates(tag: string, index: int, background: seq<string>, lMin: nat, l: nat)
    requires lMin <= l
    requires lMin < l && lMin <= BIT_LENGTH ==> |tag| >= BIT_LENGTH
    ensures NoDuplicateWindows(LengthsBelow(tag, index, background, lMin, l))
    decreases l - lMin
  {
    if l > lMin {
      LengthsBelowNoDuplicates(tag, index, background, lMin, l - 1);
      LengthsBelowNoDuplicatesStep(tag, index, background, lMin, l - 1);
    }
  }

  /** The length loop adds no duplicate window in one more round. */
  lemma LengthsBelowNoDuplicatesStep(tag: string, index: int, background: seq<string>, lMin: nat, l: nat)
    requires lMin <= l
    requires lMin <= BIT_LENGTH ==> |tag| >= BIT_LENGTH
    requires NoDuplicateWindows(LengthsBelow(tag, index, background, lMin, l))
    ensures NoDuplicateWindows(LengthsBelow(tag, index, background, lMin, l + 1))
  {
    var prev := LengthsBelow(tag, index, background, lMin, l);
    var next := StartsBelow(tag, index, background, l, NumStarts(l));
    StartsBelowNoDuplicates(tag, index, background, l, NumStarts(l));
    LengthsBelowBeforeLength(tag, index, background, lMin, l);
    LengthsBelowStep(tag, index, background, lMin, l);
    ConcatNoDuplicateWindows(prev, next);
  }

  lemma TargetsBelowIndices(targets: seq<string>, background: seq<string>, lMin: nat, lMax: nat, k: nat)
    requires k <= |targets|
    requires TargetsLongEnough(targets, lMin, lMax)
    ensures forall x | x in TargetsBelow(targets, background, lMin, lMax, k) :: x.index <= k
  {
    forall x | x in TargetsBelow(targets, background, lMin, lMax, k)
      ensures x.index <= k
    {
      TargetsBelowMembers(targets, background, lMin, lMax, k, x);
    }
  }

  lemma TargetCandidatesIndex(targets: seq<string>, background: seq<string>, lMin: nat, lMax: nat, k: nat)
    requires 1 <= k <= |targets|
    requires TargetsLongEnough(targets, lMin, lMax)
    ensures forall y | y in TargetCandidates(targets[k - 1], k, background, lMin, lMax) :: y.index == k
  {
    forall y | y in TargetCandidates(targets[k - 1], k, background, lMin, lMax)
      ensures y.index == k
    {
      TargetCandidatesMembers(targets, background, lMin, lMax, k, y);
    }
  }

  /** Earlier targets never clash with the candidates of target k. */
  lemma TargetsBelowBeforeTarget(targets: seq<string>, background: seq<string>, lMin: nat, lMax: nat, k: nat)
    requires 1 <= k <= |targets|
    requires TargetsLongEnough(targets, lMin, lMax)
    ensures forall x, y | x in TargetsBelow(targets, background, lMin, lMax, k - 1)
                       && y in TargetCandidates(targets[k - 1], k, background, lMin, lMax) :: !SameTargetWindow(x, y)
  {
    TargetsBelowIndices(targets, background, lMin, lMax, k - 1);
    TargetCandidatesIndex(targets, background, lMin, lMax, k);
  }

  lemma TargetCandidatesNoDuplicates(targets: seq<string>, background: seq<string>, lMin: nat, lMax: nat, k: nat)
    requires 1 <= k <= |targets|
    requires TargetsLongEnough(targets, lMin, lMax)
    ensures NoDuplicateWindows(TargetCandidates(targets[k - 1], k, background, lMin, lMax))
  {
    var tag := targets[k - 1];
    if lMin <= lMax {
      assert lMin <= BIT_LENGTH ==> |tag| >= BIT_LENGTH by {
        assert tag in targets;
      }
      LengthsBelowNoDuplicates(tag, k, background, lMin, lMax + 1);
      assert TargetCandidates(tag, k, background, lMin, lMax) == LengthsBelow(tag, k, background, lMin, lMax + 1);
    } else {
      assert TargetCandidates(tag, k, background, lMin, lMax) == [];
    }
  }

  lemma {:induction false} TargetsBelowNoDuplicates(targets: seq<string>, background: seq<string>, lMin: nat, lMax: nat, k: nat)
    requires k <= |targets|
    requires TargetsLongEnough(targets, lMin, lMax)
    ensures NoDuplicateWindows(TargetsBelow(targets, background, lMin, lMax, k))
  {
    if k > 0 {
      TargetsBelowNoDuplicates(targets, background, lMin, lMax, k - 1);
      TargetCandidatesNoDuplicates(targets, background, lMin, lMax, k);
      TargetsBelowBeforeTarget(targets, background, lMin, lMax, k);
      ConcatNoDuplicateWindows(TargetsBelow(targets, background, lMin, lMax, k - 1),
                               TargetCandidates(targets[k - 1], k, background, lMin, lMax));
    }
  }

  /** Each target contributes at most one candidate per window, so no
      candidate list shares a (target, grouping key) pair. */
  lemma CandidatesNoDuplicates(targets: seq<string>, background: seq<string>, lMin: nat, lMax: nat)
    requires TargetsLongEnough(targets, lMin, lMax)
    ensures NoDuplicateWindows(Candidates(targets, background, lMin, lMax))
  {
    TargetsBelowNoDuplicates(targets, background, lMin, lMax, |targets|);
  }

  // ---------------------------------------------------------------------
  // The nested loops of the extractor.

  lemma StartsBelowStep(tag: string, index: int, background: seq<string>, len: nat, s: nat)
    requires s + len <= |tag|
    ensures StartsBelow(tag, index, background, len, s + 1)
         == StartsBelow(tag, index, background, len, s) + WindowCandidate(tag, index, background, len, s)
  {
  }

  lemma LengthsBelowStep(tag: string, index: int, background: seq<string>, lMin: nat, l: nat)
    requires lMin <= l
    requires lMin <= BIT_LENGTH ==> |tag| >= BIT_LENGTH
    ensures LengthsBelow(tag, index, background, lMin, l + 1)
         == LengthsBelow(tag, index, background, lMin, l) + StartsBelow(tag, index, background, l, NumStarts(l))
  {
  }

  /** The start loop for one window length: appends to `found0` every
      window of `tag` of length `len` that no background tag shares, in
      start order. */
  method AppendWindows(found0: seq<Candidate>, tag: string, index: int, background: seq<string>, len: nat)
    returns (found: seq<Candidate>)
    requires len <= BIT_LENGTH ==> |tag| >= BIT_LENGTH
    ensures found == found0 + StartsBelow(tag, index, background, len, NumStarts(len))
  {
    found := found0;
    var start := 0;
    while start <= BIT_LENGTH - len
      invariant 0 <= start <= NumStarts(len)
      invariant found == found0 + StartsBelow(tag, index, background, len, start)
    {
      ghost var before := StartsBelow(tag, index, background, len, start);
      StartsBelowStep(tag, index, background, len, start);
      var substring := tag[start..start + len];
      if !IfExist(substring, background, start, start + len) {
        found := found + [Candidate(index, substring, start + 1, start + len)];
        assert found == found0 + (before + [Candidate(index, substring, start + 1, start + len)]);
      } else {
        assert before + [] == before;
      }
      start := start + 1;
    }
  }

  /** The length and start loops for one target: every window of `tag` of a
      length in [lMin, lMax] that no background tag shares, in the order the
      extractor appends them. */
  method TargetWindows(tag: string, index: int, background: seq<string>, lMin: nat, lMax: nat)
    returns (found: seq<Candidate>)
    requires lMin <= lMax && lMin <= BIT_LENGTH ==> |tag| >= BIT_LENGTH
    ensures found == TargetCandidates(tag, index, background, lMin, lMax)
  {
    found := [];
    var length := lMin;
    while length <= lMax
      invariant lMin <= length
      invariant lMin <= lMax ==> length <= lMax + 1
      invariant lMin > lMax ==> length == lMin
      invariant found == LengthsBelow(tag, index, background, lMin, length)
    {
      found := AppendWindows(found, tag, index, background, length);
      LengthsBelowStep(tag, index, background, lMin, length);
      length := length + 1;
    }
  }

  /** Builds the candidate list target by target, length by length, start by
      start, appending every window no background tag shares. */
  method ExtractCandidates(neededTags: seq<string>, background: seq<string>, lMin: nat, lMax: nat)
    returns (candidates: seq<Candidate>)
    requires TargetsLongEnough(neededTags, lMin, lMax)
    ensures candidates == Candidates(neededTags, background, lMin, lMax)
  {
    candidates := [];
    for index := 0 to |neededTags|
      invariant candidates == TargetsBelow(neededTags, background, lMin, lMax, index)
    {
      assert neededTags[index] in neededTags;
      var found := TargetWindows(neededTags[index], index + 1, background, lMin, lMax);
      candidates := candidates + found;
    }
  }
}
