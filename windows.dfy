/**
  Identifiers, candidate discriminators and the background-uniqueness test
  of the tag-discrimination engine (`AnalysisTools` in Program.cs).
  Tags are text: the targets are tag codes as read and the background tags
  are any strings; the engine only compares windows of them.
 */
module Windows {

  /** Width of a tag code in bits (`BIT_LENGTH`). */
  const BIT_LENGTH: nat := 32

  /** Protocol overhead of one SELECT command, in bits. */
  const SELECT_OVERHEAD_BITS: nat := 45

  datatype Option<T> = None | Some(value: T)

  /** A candidate discriminator: the 1-based index of the target that owns it,
      the window's contents, the window's 1-based first position, and its end
      (the 0-based start plus the length, i.e. the 1-based last position). */
  datatype Candidate = Candidate(index: int, substring: string, start: int, end: int)

  /** What the planner groups candidates by: contents and 1-based start. */
  datatype GroupKey = GroupKey(substring: string, start: int)

  function KeyOf(c: Candidate): GroupKey
  {
    GroupKey(c.substring, c.start)
  }

  /** Whether some tag of `tags` that reaches position `end` holds `needed`
      at the 0-based positions [start, end). */
  function IfExist(needed: string, tags: seq<string>, start: nat, end: nat): bool
    requires start <= end
    decreases |tags|
  {
    if tags == [] then false
    else (|tags[0]| >= end && tags[0][start..end] == needed) || IfExist(needed, tags[1..], start, end)
  }

  /** `IfExist` holds exactly when some tag at least `end` long carries
      `needed` at [start, end): shorter tags never match, and an empty list
      of tags gives false. */
  lemma {:induction false} IfExistExactly(needed: string, tags: seq<string>, start: nat, end: nat)
    requires start <= end
    ensures IfExist(needed, tags, start, end) <==> exists t :: t in tags && |t| >= end && t[start..end] == needed
    ensures tags == [] ==> !IfExist(needed, tags, start, end)
    decreases |tags|
  {
    if tags != [] {
      IfExistExactly(needed, tags[1..], start, end);
      assert tags == [tags[0]] + tags[1..];
    }
  }

  /** `c` is a window of `tag` (contents, start and end agree with `tag`)
      that no tag of `background` shares at the same position. */
  predicate IsUniqueWindow(tag: string, background: seq<string>, c: Candidate)
  {
    && 1 <= c.start
    && c.end == c.start - 1 + |c.substring|
    && c.end <= |tag|
    && c.substring == tag[c.start - 1..c.end]
    && !IfExist(c.substring, background, c.start - 1, c.end)
  }

  /** `c` is a discriminator of one of `targets` against `background`, of a
      length in [lMin, lMax], inside the first BIT_LENGTH positions. */
  predicate IsCandidate(targets: seq<string>, background: seq<string>, lMin: nat, lMax: nat, c: Candidate)
  {
    && 1 <= c.index <= |targets|
    && lMin <= |c.substring| <= lMax
    && c.end <= BIT_LENGTH
    && IsUniqueWindow(targets[c.index - 1], background, c)
  }

  /** Two candidates of the same target for the same window. */
  predicate SameTargetWindow(a: Candidate, b: Candidate)
  {
    a.index == b.index && KeyOf(a) == KeyOf(b)
  }

  /** No target owns two candidates with the same grouping key. */
  predicate NoDuplicateWindows(cs: seq<Candidate>)
    decreases |cs|
  {
    cs == [] || ((forall c | c in cs[1..] :: !SameTargetWindow(cs[0], c)) && NoDuplicateWindows(cs[1..]))
  }

  lemma {:induction false} ConcatNoDuplicateWindows(a: seq<Candidate>, b: seq<Candidate>)
    requires NoDuplicateWindows(a) && NoDuplicateWindows(b)
    requires forall x, y | x in a && y in b :: !SameTargetWindow(x, y)
    ensures NoDuplicateWindows(a + b)
    decreases |a|
  {
    if a != [] {
      assert (a + b)[1..] == a[1..] + b;
      ConcatNoDuplicateWindows(a[1..], b);
    } else {
      assert a + b == b;
    }
  }
}
