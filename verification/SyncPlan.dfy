/** Which heights a syncer asks for, in which batches, and where the answers land:
    isaac/syncer_general.go. */
module SyncPlan {
  import opened Base
  import opened Manifests
  import opened Sorting

  /** The heights from `lo` up to, not including, `hi`. */
  function Range(lo: int, hi: int): (r: seq<int>)
    ensures |r| == if lo < hi then hi - lo else 0
    ensures forall i :: 0 <= i < |r| ==> r[i] == lo + i
  {
    if lo < hi then seq(hi - lo, i => lo + i) else []
  }

  lemma RangeAppend(lo: int, hi: int)
    requires lo <= hi
    ensures Range(lo, hi + 1) == Range(lo, hi) + [hi]
  {
  }

  function Flatten(batches: seq<seq<int>>): (r: seq<int>) {
    if batches == [] then [] else Flatten(batches[..|batches| - 1]) + batches[|batches| - 1]
  }

  lemma FlattenAppend(batches: seq<seq<int>>, batch: seq<int>)
    ensures Flatten(batches + [batch]) == Flatten(batches) + batch
  {
    assert (batches + [batch])[..|batches|] == batches;
  }

  /** Every batch is full; without a limit there is none. */
  ghost predicate Full(batches: seq<seq<int>>, limit: nat) {
    if limit == 0 then batches == [] else forall k :: 0 <= k < |batches| ==> |batches[k]| == limit
  }

  /** Every batch but the last is full, and the last is not empty; without a limit there is at most one. */
  ghost predicate WellSized(batches: seq<seq<int>>, limit: nat) {
    && (batches != [] ==> 0 < |batches[|batches| - 1]| && (limit > 0 ==> |batches[|batches| - 1]| <= limit))
    && (if limit == 0 then |batches| <= 1 else forall k :: 0 <= k < |batches| - 1 ==> |batches[k]| == limit)
  }

  /** One round of the batching loops: append a height, and hand the batch over when it is full. */
  method Batch(batches: seq<seq<int>>, heights: seq<int>, h: int, limit: nat)
    returns (batches': seq<seq<int>>, heights': seq<int>)
    requires Full(batches, limit) && (limit > 0 ==> |heights| < limit)
    ensures Full(batches', limit) && (limit > 0 ==> |heights'| < limit)
    ensures Flatten(batches') + heights' == Flatten(batches) + heights + [h]
  {
    batches', heights' := batches, heights + [h];
    if |heights'| == limit {
      FlattenAppend(batches, heights');
      batches', heights' := batches + [heights'], [];
    }
    assert Flatten(batches) + (heights + [h]) == Flatten(batches) + heights + [h];
  }

  /** The last, partial batch. */
  method LastBatch(batches: seq<seq<int>>, heights: seq<int>, limit: nat) returns (batches': seq<seq<int>>)
    requires Full(batches, limit) && (limit > 0 ==> |heights| < limit)
    ensures WellSized(batches', limit)
    ensures Flatten(batches') == Flatten(batches) + heights
  {
    batches' := batches;
    if |heights| > 0 {
      FlattenAppend(batches, heights);
      batches' := batches + [heights];
    }
  }

  /** Batches of at most `limit` heights each hold at most `limit` times their number. */
  lemma {:induction false} FlattenFits(batches: seq<seq<int>>, limit: nat)
    requires forall k :: 0 <= k < |batches| ==> |batches[k]| <= limit
    ensures |Flatten(batches)| <= |batches| * limit
    decreases |batches|
  {
    if batches != [] {
      FlattenFits(batches[..|batches| - 1], limit);
      assert |batches| * limit == (|batches| - 1) * limit + limit;
    }
  }

  // ---------------------------------------------------------------------------
  // Manifests: head and tail, then the rest

  /** The heights of headAndTailManifests. */
  function HeadAndTail(heightFrom: int, heightTo: int): (hs: seq<int>) {
    if heightFrom == heightTo then [heightFrom] else [heightFrom, heightTo]
  }

  /** fillManifests: the heights strictly between head and tail, in batches. */
  method FillManifests(heightFrom: int, heightTo: int, limit: nat) returns (batches: seq<seq<int>>)
    requires heightFrom <= heightTo
    ensures Flatten(batches) == Range(heightFrom + 1, heightTo)
    ensures WellSized(batches, limit)
  {
    batches := [];
    if heightFrom == heightTo || heightTo == heightFrom + 1 {
      return;
    }
    var heights: seq<int> := [];
    for i := heightFrom + 1 to heightTo
      invariant Flatten(batches) + heights == Range(heightFrom + 1, i)
      invariant Full(batches, limit)
      invariant limit > 0 ==> |heights| < limit
    {
      RangeAppend(heightFrom + 1, i);
      batches, heights := Batch(batches, heights, i, limit);
    }
    batches := LastBatch(batches, heights, limit);
  }

  /** Head, tail and fill together ask for every height of the range exactly once. */
  lemma PlanCoversRange(heightFrom: int, heightTo: int, batches: seq<seq<int>>)
    requires heightFrom <= heightTo && Flatten(batches) == Range(heightFrom + 1, heightTo)
    ensures multiset(HeadAndTail(heightFrom, heightTo) + Flatten(batches)) == multiset(Range(heightFrom, heightTo + 1))
    ensures forall h :: multiset(HeadAndTail(heightFrom, heightTo) + Flatten(batches))[h] ==
                        if heightFrom <= h <= heightTo then 1 else 0
  {
    var all := Range(heightFrom, heightTo + 1);
    RangeAppend(heightFrom, heightTo);
    if heightFrom < heightTo {
      AskedIsRange(heightFrom, heightTo);
    } else {
      assert HeadAndTail(heightFrom, heightTo) + Flatten(batches) == all;
    }
    forall h ensures multiset(all)[h] == if heightFrom <= h <= heightTo then 1 else 0 {
      RangeCounts(heightFrom, heightTo + 1, h);
    }
  }

  lemma AskedIsRange(lo: int, hi: int)
    requires lo < hi
    ensures multiset([lo, hi] + Range(lo + 1, hi)) == multiset(Range(lo, hi + 1))
  {
    RangeAppend(lo, hi);
    RangePrepend(lo, hi);
    LastToSecond(lo, hi, Range(lo + 1, hi));
  }

  lemma RangePrepend(lo: int, hi: int)
    requires lo < hi
    ensures Range(lo, hi) == [lo] + Range(lo + 1, hi)
  {
  }

  lemma LastToSecond(x: int, y: int, mid: seq<int>)
    ensures multiset([x, y] + mid) == multiset([x] + mid + [y])
  {
    assert multiset([x, y] + mid) == multiset{x, y} + multiset(mid);
    assert multiset([x] + mid + [y]) == multiset{x} + multiset(mid) + multiset{y};
  }

  lemma {:induction false} RangeCounts(lo: int, hi: int, h: int)
    requires lo <= hi
    ensures multiset(Range(lo, hi))[h] == if lo <= h < hi then 1 else 0
    decreases hi - lo
  {
    if lo < hi {
      RangeCounts(lo, hi - 1, h);
      RangeAppend(lo, hi - 1);
    }
  }

  // ---------------------------------------------------------------------------
  // Blocks: jobs for the workers

  /** The heights of a list that are not stored yet. */
  function Missing(heights: seq<int>, stored: set<int>): (r: seq<int>) {
    if heights == [] then []
    else Missing(heights[..|heights| - 1], stored) +
         (if heights[|heights| - 1] in stored then [] else [heights[|heights| - 1]])
  }

  /** The number of blocks in a job: fewer when the channels outnumber the work, possibly 0. */
  function JobLimit(heightFrom: int, heightTo: int, channels: nat, limit: nat): (r: nat)
    requires heightFrom <= heightTo
  {
    var total := heightTo - heightFrom;
    if total < channels * limit then total / channels else limit
  }

  /** distributeBlocksJob: the jobs partition exactly the missing heights, in order; a computed limit
      of 0 puts them all into one job. */
  method DistributeBlocksJob(heightFrom: int, heightTo: int, stored: set<int>, channels: nat, limitPerOnce: nat)
    returns (jobs: seq<seq<int>>)
    requires heightFrom <= heightTo
    ensures Flatten(jobs) == Missing(Range(heightFrom, heightTo + 1), stored)
    ensures WellSized(jobs, JobLimit(heightFrom, heightTo, channels, limitPerOnce))
  {
    var limit := JobLimit(heightFrom, heightTo, channels, limitPerOnce);
    jobs := [];
    var heights: seq<int> := [];
    for i := heightFrom to heightTo + 1
      invariant Flatten(jobs) + heights == Missing(Range(heightFrom, i), stored)
      invariant Full(jobs, limit)
      invariant limit > 0 ==> |heights| < limit
    {
      RangeAppend(heightFrom, i);
      assert Range(heightFrom, i + 1)[..|Range(heightFrom, i)|] == Range(heightFrom, i);
      if i in stored {
        continue;
      }
      jobs, heights := Batch(jobs, heights, i, limit);
    }
    jobs := LastBatch(jobs, heights, limit);
  }

  /** The requests are widely distributed: with at least as many blocks to fetch as channels, and less work than the
      channels could take at full size, there are more jobs than channels, so that no channel goes without. */
  lemma JobsForEveryChannel(heightFrom: int, heightTo: int, channels: nat, limitPerOnce: nat, jobs: seq<seq<int>>)
    requires heightFrom <= heightTo && 0 < channels <= heightTo - heightFrom < channels * limitPerOnce
    requires Flatten(jobs) == Missing(Range(heightFrom, heightTo + 1), {})
    requires WellSized(jobs, JobLimit(heightFrom, heightTo, channels, limitPerOnce))
    ensures |jobs| > channels
  {
    var total := heightTo - heightFrom;
    var limit := JobLimit(heightFrom, heightTo, channels, limitPerOnce);
    Quotient(total, channels);
    NothingStored(Range(heightFrom, heightTo + 1));
    FlattenFits(jobs, limit);
    if |jobs| <= channels {
      Scaled(|jobs|, channels, limit);
    }
  }

  lemma Quotient(total: nat, channels: nat)
    requires 0 < channels <= total
    ensures total / channels >= 1 && channels * (total / channels) <= total
  {
  }

  lemma Scaled(a: nat, b: nat, c: nat)
    requires a <= b
    ensures a * c <= b * c
  {
  }

  lemma {:induction false} NothingStored(heights: seq<int>)
    ensures Missing(heights, {}) == heights
    decreases |heights|
  {
    if heights != [] {
      NothingStored(heights[..|heights| - 1]);
    }
  }

  /** Beyond what the channels take at full size the jobs have full size. */
  lemma FullJobs(heightFrom: int, heightTo: int, channels: nat, limitPerOnce: nat)
    requires heightFrom <= heightTo && heightTo - heightFrom >= channels * limitPerOnce
    ensures JobLimit(heightFrom, heightTo, channels, limitPerOnce) == limitPerOnce
  {
  }

  /** Every height is in the jobs once if it is missing, and not at all otherwise. */
  lemma {:induction false} MissingExactly(heights: seq<int>, stored: set<int>, h: int)
    ensures multiset(Missing(heights, stored))[h] == if h in stored then 0 else multiset(heights)[h]
    decreases |heights|
  {
    if heights == [] {
    } else {
      var front, last := heights[..|heights| - 1], heights[|heights| - 1];
      MissingExactly(front, stored, h);
      assert heights == front + [last];
    }
  }

  // ---------------------------------------------------------------------------
  // Placing fetched manifests

  ghost predicate Increasing(heights: seq<int>) {
    forall i, j :: 0 <= i < j < |heights| ==> heights[i] < heights[j]
  }

  ghost predicate IncreasingManifests(ms: seq<Manifest>) {
    forall i, j :: 0 <= i < j < |ms| ==> ms[i].height < ms[j].height
  }

  /** `m` is the first of its height in the list. */
  ghost predicate IsFirst(ms: seq<Manifest>, m: Manifest) {
    exists i :: 0 <= i < |ms| && ms[i] == m && forall j :: 0 <= j < i ==> ms[j].height != m.height
  }

  function HeightsOf(ms: seq<Manifest>): (hs: set<int>)
    ensures forall h :: h in hs <==> exists m :: m in ms && m.height == h
  {
    set m | m in ms :: m.height
  }

  lemma {:induction false} MissingSame(heights: seq<int>, a: set<int>, b: set<int>)
    requires forall h :: h in heights ==> (h in a <==> h in b)
    ensures Missing(heights, a) == Missing(heights, b)
    decreases |heights|
  {
    if heights != [] {
      var front, last := heights[..|heights| - 1], heights[|heights| - 1];
      assert heights == front + [last];
      MissingSame(front, a, b);
    }
  }

  lemma {:induction false} InMissing(heights: seq<int>, stored: set<int>, h: int)
    ensures h in Missing(heights, stored) <==> h in heights && h !in stored
    decreases |heights|
  {
    if heights != [] {
      var front, last := heights[..|heights| - 1], heights[|heights| - 1];
      assert heights == front + [last];
      InMissing(front, stored, h);
    }
  }

  /** sanitizeManifests: of what was fetched, the first manifest for each asked height, in the order
      of the asked heights, and the heights without one. */
  method SanitizeManifests(heights: seq<int>, fetched: seq<Manifest>) returns (checked: seq<Manifest>, missing: seq<int>)
    requires Increasing(heights)
    ensures IncreasingManifests(checked)
    ensures forall m :: m in checked ==> m in fetched && IsFirst(fetched, m) && m.height in heights
    ensures missing == [] ==> |checked| == |heights| && forall i :: 0 <= i < |heights| ==> checked[i].height == heights[i]
    ensures missing == Missing(heights, HeightsOf(fetched))
  {
    checked, missing := [], [];
    if |heights| < 1 {
      return;
    }
    var a := FirstByHeight(heights[0], heights[|heights| - 1], fetched);
    checked, missing := PickInOrder(heights, a);
    FoundAre(heights, a);
    FoundIncrease(heights, a);
    if missing == [] {
      AllFound(heights, a);
    }
    SameMissing(heights, a, fetched);
  }

  /** All asked heights lie between the first and the last one. */
  lemma SameMissing(heights: seq<int>, a: map<int, Manifest>, fetched: seq<Manifest>)
    requires Increasing(heights) && heights != []
    requires forall h :: heights[0] <= h <= heights[|heights| - 1] ==> (h in a <==> h in HeightsOf(fetched))
    ensures Missing(heights, a.Keys) == Missing(heights, HeightsOf(fetched))
  {
    forall h | h in heights ensures h in a.Keys <==> h in HeightsOf(fetched) {
      var i :| 0 <= i < |heights| && heights[i] == h;
      assert heights[0] <= h <= heights[|heights| - 1];
    }
    MissingSame(heights, a.Keys, HeightsOf(fetched));
  }

  /** The manifests found for the heights, in order. */
  function Found(heights: seq<int>, a: map<int, Manifest>): (r: seq<Manifest>) {
    if heights == [] then []
    else
      var last := heights[|heights| - 1];
      Found(heights[..|heights| - 1], a) + if last in a then [a[last]] else []
  }

  lemma {:induction false} FoundAre(heights: seq<int>, a: map<int, Manifest>)
    requires forall h :: h in a ==> a[h].height == h
    ensures forall m :: m in Found(heights, a) ==> m.height in heights && m.height in a && a[m.height] == m
    decreases |heights|
  {
    if heights != [] {
      var front, last := heights[..|heights| - 1], heights[|heights| - 1];
      assert heights == front + [last];
      FoundAre(front, a);
    }
  }

  lemma {:induction false} FoundIncrease(heights: seq<int>, a: map<int, Manifest>)
    requires Increasing(heights) && forall h :: h in a ==> a[h].height == h
    ensures IncreasingManifests(Found(heights, a))
    decreases |heights|
  {
    if heights != [] {
      var front, last := heights[..|heights| - 1], heights[|heights| - 1];
      FoundIncrease(front, a);
      FoundAre(front, a);
      var r := Found(front, a);
      forall i | 0 <= i < |r| ensures r[i].height < last {
        assert r[i] in r;
      }
    }
  }

  lemma {:induction false} AllFound(heights: seq<int>, a: map<int, Manifest>)
    requires Missing(heights, a.Keys) == [] && forall h :: h in a ==> a[h].height == h
    ensures |Found(heights, a)| == |heights| && forall i :: 0 <= i < |heights| ==> Found(heights, a)[i].height == heights[i]
    decreases |heights|
  {
    if heights != [] {
      AllFound(heights[..|heights| - 1], a);
    }
  }

  method PickInOrder(heights: seq<int>, a: map<int, Manifest>) returns (checked: seq<Manifest>, missing: seq<int>)
    ensures checked == Found(heights, a) && missing == Missing(heights, a.Keys)
  {
    checked, missing := [], [];
    for i := 0 to |heights|
      invariant checked == Found(heights[..i], a) && missing == Missing(heights[..i], a.Keys)
    {
      var h := heights[i];
      assert heights[..i + 1][..i] == heights[..i];
      if h in a {
        checked := checked + [a[h]];
      } else {
        missing := missing + [h];
      }
    }
    assert heights[..|heights|] == heights;
  }

  method FirstByHeight(head: int, tail: int, fetched: seq<Manifest>) returns (a: map<int, Manifest>)
    ensures forall h :: h in a ==> a[h].height == h && a[h] in fetched && IsFirst(fetched, a[h])
    ensures forall h :: head <= h <= tail ==> (h in a <==> h in HeightsOf(fetched))
  {
    a := map[];
    for i := 0 to |fetched|
      invariant forall h :: h in a ==> a[h].height == h && a[h] in fetched && IsFirst(fetched, a[h])
      invariant forall h :: head <= h <= tail ==> (h in a <==> exists m :: m in fetched[..i] && m.height == h)
    {
      var b := fetched[i];
      assert fetched[..i + 1] == fetched[..i] + [b];
      if b.height < head || b.height > tail {
        continue;
      } else if b.height in a {
        continue;
      }
      assert IsFirst(fetched, b) by {
        forall j | 0 <= j < i ensures fetched[j].height != b.height {
          assert fetched[j] in fetched[..i];
        }
      }
      a := a[b.height := b];
    }
    assert fetched[..|fetched|] == fetched;
  }

  /** No manifest is higher than a later one. */
  ghost predicate ByHeight(ms: seq<Manifest>) {
    forall i, j :: 0 <= i < j < |ms| ==> ms[i].height <= ms[j].height
  }

  function HeightKey(m: Manifest): Bytes {
    [m.height]
  }

  /** Sorting by height (`sort.SliceStable`) puts the same manifests in order. */
  lemma SortedByHeight(ms: seq<Manifest>)
    ensures ByHeight(Sort(ms, HeightKey))
    ensures forall m :: m in Sort(ms, HeightKey) <==> m in ms
  {
    var sorted := Sort(ms, HeightKey);
    SortSorts(ms, HeightKey);
    forall m ensures m in sorted <==> m in ms {
      assert m in multiset(sorted) <==> m in multiset(ms);
    }
    forall i, j | 0 <= i < j < |sorted| ensures sorted[i].height <= sorted[j].height {
      assert !LexLess(HeightKey(sorted[j]), HeightKey(sorted[i]));
    }
  }

  /** A slot after an update: a fetched manifest of its own height if there is any, else what it was. */
  ghost predicate Updated(h: int, fetched: seq<Manifest>, before: Option<Manifest>, after: Option<Manifest>) {
    if h in HeightsOf(fetched) then after.Some? && after.value in fetched && after.value.height == h
    else after == before
  }

  lemma HeightsAppend(ms: seq<Manifest>, m: Manifest)
    ensures HeightsOf(ms + [m]) == HeightsOf(ms) + {m.height}
  {
    assert forall x :: x in ms + [m] <==> x in ms || x == m;
  }

  /** The scan for the place of one manifest, from the cursor on. */
  method PlaceOne(heights: seq<int>, b: Manifest, last: nat, slots: array<Option<Manifest>>) returns (last': nat)
    requires Increasing(heights) && slots.Length == |heights| && last <= |heights|
    modifies slots
    ensures last' <= |heights|
    ensures forall i :: 0 <= i < |heights| ==> slots[i] == if i >= last && heights[i] == b.height then Some(b) else old(slots[i])
    ensures forall i :: 0 <= i < last' ==> i < last || heights[i] <= b.height
    ensures forall i :: last <= i < |heights| && heights[i] == b.height ==> last' <= i + 1
  {
    var j := 0;
    while last + j < |heights| && b.height != heights[last + j]
      invariant 0 <= j <= |heights| - last
      invariant forall i :: last <= i < last + j ==> heights[i] != b.height
    {
      j := j + 1;
    }
    if last + j < |heights| {
      slots[last + j] := Some(b);
      return j + 1;
    }
    return last;
  }

  /** The cursor never passes a height that is still to come: what lies behind it is lower than the next
      manifest, or was already placed. */
  ghost predicate Behind(heights: seq<int>, last: nat, sorted: seq<Manifest>, k: nat)
    requires last <= |heights| && k <= |sorted|
  {
    forall i :: 0 <= i < last && k < |sorted| ==>
      heights[i] < sorted[k].height || (heights[i] == sorted[k].height && heights[i] in HeightsOf(sorted[..k]))
  }

  /** The `update` closure of callbackFetchManifests. The scan cursor falls behind (it is set to an
      offset, not to a position), yet every slot whose height was fetched gets a manifest of that
      height, in whatever order and however often heights were fetched, and nothing else changes. */
  method Update(heights: seq<int>, fetched: seq<Manifest>, slots: array<Option<Manifest>>)
    requires Increasing(heights) && slots.Length == |heights|
    modifies slots
    ensures forall i :: 0 <= i < |heights| ==> Updated(heights[i], fetched, old(slots[i]), slots[i])
  {
    var sorted := Sort(fetched, HeightKey);
    SortedByHeight(fetched);
    var last := 0;
    for k := 0 to |sorted|
      invariant 0 <= last <= |heights| && Behind(heights, last, sorted, k)
      invariant forall i :: 0 <= i < |heights| ==> Updated(heights[i], sorted[..k], old(slots[i]), slots[i])
    {
      ghost var before := slots[..];
      var last' := PlaceOne(heights, sorted[k], last, slots);
      StillBehind(heights, last, last', sorted, k);
      forall i | 0 <= i < |heights| ensures Updated(heights[i], sorted[..k + 1], old(slots[i]), slots[i]) {
        UpdatedStep(heights[i], sorted, k, old(slots[i]), before[i], slots[i], i >= last);
      }
      last := last';
    }
    assert sorted[..|sorted|] == sorted;
  }

  lemma StillBehind(heights: seq<int>, last: nat, last': nat, sorted: seq<Manifest>, k: nat)
    requires Increasing(heights) && ByHeight(sorted) && k < |sorted| && last <= |heights| && last' <= |heights|
    requires Behind(heights, last, sorted, k)
    requires forall i :: 0 <= i < last' ==> i < last || heights[i] <= sorted[k].height
    ensures Behind(heights, last', sorted, k + 1)
  {
    assert sorted[..k + 1] == sorted[..k] + [sorted[k]];
    HeightsAppend(sorted[..k], sorted[k]);
  }

  lemma UpdatedStep(h: int, sorted: seq<Manifest>, k: nat, first: Option<Manifest>, before: Option<Manifest>, after: Option<Manifest>, ahead: bool)
    requires k < |sorted| && Updated(h, sorted[..k], first, before)
    requires after == if ahead && h == sorted[k].height then Some(sorted[k]) else before
    requires !ahead && h == sorted[k].height ==> h in HeightsOf(sorted[..k])
    ensures Updated(h, sorted[..k + 1], first, after)
  {
    assert sorted[..k + 1] == sorted[..k] + [sorted[k]];
    HeightsAppend(sorted[..k], sorted[k]);
  }

  // ---------------------------------------------------------------------------
  // Asking a channel

  /** What one attempt of asking a channel ends in. */
  datatype Answer = Canceled | Failed | Fetched(manifests: seq<Manifest>)

  /** A channel: its answer to a list of heights, which may differ from attempt to attempt. */
  type Channel = (nat, seq<int>) -> Answer

  const MAX_ATTEMPTS: nat := 3

  /** The heights asked for at an attempt: all at first, and again after a failure; after an answer that
      lacks some, those that it lacks. */
  function Asked(ch: Channel, heights: seq<int>, attempt: nat): seq<int> {
    if attempt == 0 then heights
    else
      var before := Asked(ch, heights, attempt - 1);
      match ch(attempt - 1, before)
      case Fetched(ms) => Missing(heights, HeightsOf(ms))
      case _ => before
  }

  /** The answer at an attempt. */
  function AnswerAt(ch: Channel, heights: seq<int>, attempt: nat): Answer {
    ch(attempt, Asked(ch, heights, attempt))
  }

  /** The answer at an attempt covers all heights, not only those it was asked for. */
  ghost predicate Covers(ch: Channel, heights: seq<int>, attempt: nat) {
    AnswerAt(ch, heights, attempt).Fetched? &&
    forall h :: h in heights ==> h in HeightsOf(AnswerAt(ch, heights, attempt).manifests)
  }

  /** The channel delivers: some attempt covers all heights before one is canceled. */
  ghost predicate Delivers(ch: Channel, heights: seq<int>) {
    exists k :: 0 <= k < MAX_ATTEMPTS && Covers(ch, heights, k) && NotCanceledBefore(ch, heights, k)
  }

  ghost predicate NotCanceledBefore(ch: Channel, heights: seq<int>, attempt: nat) {
    forall j :: 0 <= j < attempt ==> AnswerAt(ch, heights, j) != Canceled
  }

  /** `m` was in an answer of the channel to the heights of a part. */
  ghost predicate AnsweredPart(ch: Channel, part: seq<int>, m: Manifest) {
    exists k :: 0 <= k < MAX_ATTEMPTS && InAnswer(AnswerAt(ch, part, k), m)
  }

  ghost predicate InAnswer(a: Answer, m: Manifest) {
    a.Fetched? && m in a.manifests
  }

  /** `m` was in an answer of the channel for some consecutive part of the heights. */
  ghost predicate Answered(ch: Channel, heights: seq<int>, m: Manifest) {
    exists lo, hi :: 0 <= lo <= hi <= |heights| && AnsweredPart(ch, heights[lo..hi], m)
  }

  /** Slot `i` holds a fetched manifest of its own height. */
  ghost predicate Placed(ch: Channel, heights: seq<int>, i: nat, slot: Option<Manifest>)
    requires i < |heights|
  {
    slot.Some? && slot.value.height == heights[i] && Answered(ch, heights, slot.value)
  }

  /** callbackFetchManifestsSlice: up to three attempts; it succeeds exactly if the channel delivers, with one
      manifest for each height, all from one answer. */
  method FetchSlice(heights: seq<int>, ch: Channel) returns (r: Result<seq<Manifest>>)
    requires Increasing(heights)
    ensures r.Ok? <==> Delivers(ch, heights)
    ensures r.Ok? ==> |r.value| == |heights| && forall i :: 0 <= i < |heights| ==>
              r.value[i].height == heights[i] && AnsweredPart(ch, heights, r.value[i])
  {
    var missing := heights;
    for k := 0 to MAX_ATTEMPTS
      invariant missing == Asked(ch, heights, k) && NotCanceledBefore(ch, heights, k)
      invariant forall j :: 0 <= j < k ==> !Covers(ch, heights, j)
    {
      var answer := ch(k, missing);
      assert answer == AnswerAt(ch, heights, k);
      match answer
      case Canceled =>
        return Err;
      case Failed =>
      case Fetched(ms) =>
        var checked, lacking := SanitizeManifests(heights, ms);
        CoversIfNoneMissing(ch, heights, k, ms);
        if lacking == [] {
          forall i | 0 <= i < |heights| ensures AnsweredPart(ch, heights, checked[i]) {
            assert checked[i] in checked;
            assert InAnswer(AnswerAt(ch, heights, k), checked[i]);
          }
          return Ok(checked);
        }
        missing := lacking;
    }
    return Err;
  }

  /** What three attempts amount to. */
  lemma ThreeAttempts(ch: Channel, heights: seq<int>)
    ensures Delivers(ch, heights) <==>
              || Covers(ch, heights, 0)
              || (AnswerAt(ch, heights, 0) != Canceled && Covers(ch, heights, 1))
              || (AnswerAt(ch, heights, 0) != Canceled && AnswerAt(ch, heights, 1) != Canceled && Covers(ch, heights, 2))
  {
  }

  lemma CoversIfNoneMissing(ch: Channel, heights: seq<int>, k: nat, ms: seq<Manifest>)
    requires AnswerAt(ch, heights, k) == Fetched(ms)
    ensures Covers(ch, heights, k) <==> Missing(heights, HeightsOf(ms)) == []
  {
    var lacking := Missing(heights, HeightsOf(ms));
    if lacking == [] {
      forall h | h in heights ensures h in HeightsOf(ms) {
        InMissing(heights, HeightsOf(ms), h);
      }
    } else {
      InMissing(heights, HeightsOf(ms), lacking[0]);
      assert lacking[0] in lacking;
    }
  }

  /** A channel that answers only what it is asked. */
  ghost predicate Exact(ch: Channel) {
    forall k, hs, m :: InAnswer(ch(k, hs), m) ==> m.height in hs
  }

  /** Since each answer is held against all heights, a retry after an answer with some of them never
      succeeds at a channel that answers only what it is asked: an attempt covers all heights only if it
      asks for all, and after a partial answer it does not. */
  lemma PartialAnswerFails(ch: Channel, heights: seq<int>, k: nat)
    requires Exact(ch) && AnswerAt(ch, heights, k).Fetched?
    requires exists h :: h in heights && h in HeightsOf(AnswerAt(ch, heights, k).manifests)
    ensures !Covers(ch, heights, k + 1)
  {
    var ms := AnswerAt(ch, heights, k).manifests;
    var h :| h in heights && h in HeightsOf(ms);
    InMissing(heights, HeightsOf(ms), h);
    assert h !in Asked(ch, heights, k + 1);
    assert forall m :: InAnswer(ch(k + 1, Asked(ch, heights, k + 1)), m) ==> m.height != h;
  }

  /** One part of callbackFetchManifests: fetch the heights from `lo` to `hi` and place them. */
  method FetchPart(heights: seq<int>, lo: nat, hi: nat, ch: Channel, slots: array<Option<Manifest>>) returns (ok: bool)
    requires Increasing(heights) && lo <= hi <= |heights| == slots.Length
    modifies slots
    ensures ok <==> Delivers(ch, heights[lo..hi])
    ensures ok ==> forall i :: lo <= i < hi ==> Placed(ch, heights, i, slots[i])
    ensures ok ==> forall i :: 0 <= i < lo ==> slots[i] == old(slots[i])
  {
    var part := heights[lo..hi];
    var r := FetchSlice(part, ch);
    if r.Err? {
      return false;
    }
    ghost var before := slots[..];
    Update(heights, r.value, slots);
    forall i | lo <= i < hi ensures Placed(ch, heights, i, slots[i]) {
      PlacedFrom(ch, heights, lo, hi, r.value, i, slots[i], before[i]);
    }
    forall i | 0 <= i < lo ensures slots[i] == before[i] {
      NotOfPart(heights, lo, hi, r.value, i);
    }
    return true;
  }

  /** The answer to a part fills the slots of the part. */
  lemma PlacedFrom(ch: Channel, heights: seq<int>, lo: nat, hi: nat, ms: seq<Manifest>, i: nat, slot: Option<Manifest>, before: Option<Manifest>)
    requires lo <= i < hi <= |heights| && |ms| == hi - lo
    requires forall j :: 0 <= j < |ms| ==> ms[j].height == heights[lo..hi][j] && AnsweredPart(ch, heights[lo..hi], ms[j])
    requires Updated(heights[i], ms, before, slot)
    ensures Placed(ch, heights, i, slot)
  {
    assert ms[i - lo] in ms && ms[i - lo].height == heights[i];
    var j :| 0 <= j < |ms| && ms[j] == slot.value;
    assert AnsweredPart(ch, heights[lo..hi], slot.value);
  }

  lemma NotOfPart(heights: seq<int>, lo: nat, hi: nat, ms: seq<Manifest>, i: nat)
    requires Increasing(heights) && i < lo <= hi <= |heights| && |ms| == hi - lo
    requires forall j :: 0 <= j < |ms| ==> ms[j].height == heights[lo..hi][j]
    ensures heights[i] !in HeightsOf(ms)
  {
    forall m | m in ms ensures m.height != heights[i] {
      var j :| 0 <= j < |ms| && ms[j] == m;
      assert heights[lo..hi][j] == heights[lo + j];
    }
  }

  /** The channel delivers every part from `start` on: parts of `limit` heights, the last one possibly smaller. */
  ghost predicate PartsDeliver(ch: Channel, heights: seq<int>, limit: nat, start: nat)
    decreases |heights| - start
  {
    start < |heights| ==>
      var end := if limit == 0 || |heights| < start + limit then |heights| else start + limit;
      Delivers(ch, heights[start..end]) && PartsDeliver(ch, heights, limit, end)
  }

  /** The next part, which begins at `start`. */
  method FetchNext(heights: seq<int>, limit: nat, start: nat, end: nat, ch: Channel, slots: array<Option<Manifest>>) returns (ok: bool)
    requires Increasing(heights) && start < end <= |heights| == slots.Length
    requires (limit == 0 || end <= start + limit) && (end == |heights| || end == start + limit)
    modifies slots
    ensures if ok then PartsDeliver(ch, heights, limit, start) <==> PartsDeliver(ch, heights, limit, end)
            else !PartsDeliver(ch, heights, limit, start)
    ensures ok ==> forall i :: start <= i < end ==> Placed(ch, heights, i, slots[i])
    ensures ok ==> forall i :: 0 <= i < start ==> slots[i] == old(slots[i])
  {
    ok := FetchPart(heights, start, end, ch, slots);
  }

  /** callbackFetchManifests: it succeeds exactly if the channel delivers every part, and then every asked
      height got a manifest of that height, at its own index. */
  method CallbackFetchManifests(heights: seq<int>, limit: nat, ch: Channel) returns (r: Result<seq<Option<Manifest>>>)
    requires Increasing(heights)
    ensures r.Ok? <==> PartsDeliver(ch, heights, limit, 0)
    ensures r.Ok? ==> |r.value| == |heights| && forall i :: 0 <= i < |heights| ==> Placed(ch, heights, i, r.value[i])
  {
    var slots := new Option<Manifest>[|heights|](_ => None);
    var start := 0;
    for i := 0 to |heights|
      invariant 0 <= start <= i && (limit == 0 || i < start + limit)
      invariant forall k :: 0 <= k < start ==> Placed(ch, heights, k, slots[k])
      invariant PartsDeliver(ch, heights, limit, 0) <==> PartsDeliver(ch, heights, limit, start)
    {
      if i + 1 - start != limit {
        continue;
      }
      var ok := FetchNext(heights, limit, start, i + 1, ch, slots);
      if !ok {
        return Err;
      }
      start := i + 1;
    }
    if start < |heights| {
      var ok := FetchNext(heights, limit, start, |heights|, ch, slots);
      if !ok {
        return Err;
      }
    }
    return Ok(slots[..]);
  }
}
