/** Verifying a long chain window by window: launch/cmds/restore.go and
    launch/cmds/verify_storage.go. */
module Windows {
  import opened Base
  import opened Manifests

  /** The manifests of the heights from `lo` to `hi`; a height that cannot be loaded gives none. */
  function Slice(blocks: Chain, lo: int, hi: int): (ms: seq<Option<Manifest>>)
    ensures |ms| == if lo <= hi then hi - lo + 1 else 0
    ensures forall i :: 0 <= i < |ms| ==> ms[i] == if lo + i in blocks then Some(blocks[lo + i]) else None
  {
    if lo <= hi then seq(hi - lo + 1, i => if lo + i in blocks then Some(blocks[lo + i]) else None) else []
  }

  /** The whole range passes one serialized check. */
  ghost predicate WholePasses(blocks: Chain, lo: int, hi: int) {
    Serialized(Slice(blocks, lo, hi))
  }

  /** For blocks stored at their own heights a range passes exactly if they form a valid hash chain over it. */
  lemma WholeIsChain(blocks: Chain, lo: int, hi: int)
    requires PRE_GENESIS_HEIGHT <= lo <= hi && forall h :: h in blocks ==> blocks[h].height == h
    ensures WholePasses(blocks, lo, hi) <==> ChainOver(blocks, lo, hi)
  {
    var ms := Slice(blocks, lo, hi);
    if WholePasses(blocks, lo, hi) {
      forall h | lo <= h <= hi ensures h in blocks && IsValid(blocks[h]) {
        assert ms[h - lo].Some?;
      }
      forall h | lo < h <= hi ensures LinkAt(blocks, h) {
        PassedMeans(ms, h - lo);
        assert ms[h - lo] == Some(blocks[h]) && ms[h - lo - 1] == Some(blocks[h - 1]);
      }
    }
    if ChainOver(blocks, lo, hi) {
      assert forall i :: 0 <= i < |ms| ==> ms[i].Some? && IsValid(ms[i].value);
      forall i | 0 < i < |ms| ensures Linked(ms[i - 1].value, ms[i].value) {
        assert LinkAt(blocks, lo + i);
      }
    }
  }

  /** Two ranges that share a height pass exactly if their union does. */
  lemma WholeOverlap(blocks: Chain, lo: int, mid: int, hi: int)
    requires lo <= mid <= hi
    ensures WholePasses(blocks, lo, hi) <==> WholePasses(blocks, lo, mid) && WholePasses(blocks, mid, hi)
  {
    SliceParts(blocks, lo, mid, hi);
    SerializedJoin(Slice(blocks, lo, hi), Slice(blocks, lo, mid), Slice(blocks, mid, hi), mid - lo);
  }

  lemma SliceParts(blocks: Chain, lo: int, mid: int, hi: int)
    requires lo <= mid <= hi
    ensures Slice(blocks, lo, hi)[..mid - lo + 1] == Slice(blocks, lo, mid)
    ensures Slice(blocks, lo, hi)[mid - lo..] == Slice(blocks, mid, hi)
  {
  }

  /** Rounding up, as the float division and math.Ceil of the source do. */
  function CeilDiv(a: int, c: int): (d: int)
    requires c >= 1
  {
    -((-a) / c)
  }

  lemma CeilDivBounds(a: int, c: int)
    requires c >= 1
    ensures (CeilDiv(a, c) - 1) * c < a <= CeilDiv(a, c) * c
    ensures a <= 0 ==> CeilDiv(a, c) <= 0
  {
    var q := (-a) / c;
    assert -a == q * c + (-a) % c;
    assert (CeilDiv(a, c) - 1) * c == -(q * c) - c;
    if a <= 0 {
      assert q >= 0 by {
        if q < 0 { Negative(q, c); }
      }
    }
  }

  lemma Negative(q: int, c: int)
    requires q <= -1 && c >= 1
    ensures q * c <= -c
  {
  }

  // ---------------------------------------------------------------------------
  // Restoring: overlapping windows

  /** checkBlockdatas. */
  method CheckBlockdatas(blocks: Chain, lo: int, hi: int) returns (ok: bool)
    requires lo <= hi
    ensures ok <==> WholePasses(blocks, lo, hi)
  {
    var ms := Slice(blocks, lo, hi);
    for i := 0 to |ms|
      invariant forall j :: 0 <= j < i ==> ms[j].Some?
    {
      if ms[i].None? {
        return false;
      }
    }
    var c := CheckSerialized(ms);
    return c == Passed;
  }

  /** The window loop of checkBlockdataPath. For more than one block the windows, each sharing its
      last block with the next, all pass exactly if the whole range passes one serialized check. A
      range of a single block has no window: nothing is checked. */
  method CheckBlockdataPath(blocks: Chain, lo: int, hi: int, concurrency: int) returns (ok: bool)
    requires concurrency >= 1
    ensures lo < hi ==> (ok <==> WholePasses(blocks, lo, hi))
    ensures lo >= hi ==> ok
  {
    var d := CeilDiv(hi - lo, concurrency);
    CeilDivBounds(hi - lo, concurrency);
    var i, s := 0, lo;
    while i < d
      invariant 0 <= i && (0 < d ==> i <= d)
      invariant s == lo + i * concurrency
      invariant 0 < i ==> lo < hi && WholePasses(blocks, lo, Min(s, hi))
    {
      StepInside(i, d, concurrency, hi - lo);
      var e := s + concurrency;
      if e > hi {
        e := hi;
      }
      var passed := CheckBlockdatas(blocks, s, e);
      if 0 < i {
        WholeOverlap(blocks, lo, s, e);
      }
      if !passed {
        WholeOverlap(blocks, lo, e, hi);
        return false;
      }
      s := s + concurrency;
      i := i + 1;
    }
    return true;
  }

  lemma StepInside(i: int, d: int, c: int, length: int)
    requires 0 <= i < d && c >= 1 && (d - 1) * c < length
    ensures i * c < length && (i + 1) * c == i * c + c
  {
    assert i * c <= (d - 1) * c by {
      assert (d - 1) * c - i * c == (d - 1 - i) * c;
    }
  }

  /** The window check and the whole check agree on every range except a single block that does not
      pass: this is the exact extent of the gap. */
  lemma WindowsMissOneBlock(blocks: Chain, lo: int, hi: int, ok: bool)
    requires lo <= hi
    requires lo < hi ==> (ok <==> WholePasses(blocks, lo, hi))
    requires lo >= hi ==> ok
    ensures (ok <==> WholePasses(blocks, lo, hi)) <==> !(lo == hi && (lo !in blocks || !IsValid(blocks[lo])))
  {
    if lo == hi {
      var ms := Slice(blocks, lo, hi);
      assert WholePasses(blocks, lo, hi) <==> ms[0].Some? && IsValid(ms[0].value);
    }
  }

  // ---------------------------------------------------------------------------
  // Verifying storage: windows chained by their base manifest

  const LIMIT: int := 50

  /** The chain from pre-genesis up to `top` passes and `base` is its last manifest. */
  ghost predicate Carried(blocks: Chain, top: int, base: Option<Manifest>) {
    && top >= PRE_GENESIS_HEIGHT
    && WholePasses(blocks, PRE_GENESIS_HEIGHT, top)
    && base == Slice(blocks, PRE_GENESIS_HEIGHT, top)[top - PRE_GENESIS_HEIGHT]
  }

  /** The last manifest of a passed range, put before the next range, carries the check over. */
  lemma ChainedWindow(blocks: Chain, s: int, e: int, base: Option<Manifest>)
    requires s < e && Carried(blocks, s - 1, base)
    ensures Serialized([base] + Slice(blocks, s, e - 1)) <==> WholePasses(blocks, PRE_GENESIS_HEIGHT, e - 1)
  {
    assert [base] + Slice(blocks, s, e - 1) == Slice(blocks, s - 1, e - 1);
    WholeOverlap(blocks, PRE_GENESIS_HEIGHT, s - 1, e - 1);
  }

  /** checkManifests over the heights from `s` up to, not including, `e`. Given the last manifest of
      all lower heights, it passes exactly if the chain up to `e` does, and returns the next base. */
  method CheckManifests(base: Option<Manifest>, s: int, e: int, blocks: Chain) returns (r: Result<Option<Manifest>>)
    requires s < e
    requires if base.Some? then Carried(blocks, s - 1, base) else s == PRE_GENESIS_HEIGHT
    ensures r.Ok? <==> WholePasses(blocks, PRE_GENESIS_HEIGHT, e - 1)
    ensures r.Ok? ==> r.value.Some? && Carried(blocks, e - 1, r.value)
  {
    var ms := Slice(blocks, s, e - 1);
    if base.Some? {
      ms := [base] + ms;
      ChainedWindow(blocks, s, e, base);
    }
    var c := CheckSerialized(ms);
    if c != Passed {
      return Err;
    }
    LastCarried(blocks, e - 1, ms);
    return Ok(ms[|ms| - 1]);
  }

  lemma LastCarried(blocks: Chain, top: int, ms: seq<Option<Manifest>>)
    requires top >= PRE_GENESIS_HEIGHT && WholePasses(blocks, PRE_GENESIS_HEIGHT, top)
    requires ms != [] && ms[|ms| - 1] == if top in blocks then Some(blocks[top]) else None
    ensures ms[|ms| - 1].Some? && Carried(blocks, top, ms[|ms| - 1])
  {
    var all := Slice(blocks, PRE_GENESIS_HEIGHT, top);
    assert all[top - PRE_GENESIS_HEIGHT] == ms[|ms| - 1];
  }

  /** checkAllManifests. With at least the genesis block the windows all pass exactly if the whole
      chain from the pre-genesis block passes one serialized check; below that nothing is checked. */
  method CheckAllManifests(blocks: Chain, lastHeight: int) returns (ok: bool)
    ensures lastHeight >= GENESIS_HEIGHT ==> (ok <==> WholePasses(blocks, PRE_GENESIS_HEIGHT, lastHeight))
    ensures lastHeight < GENESIS_HEIGHT ==> ok
  {
    var lh := lastHeight + 1;
    var c := CeilDiv(lh, LIMIT);
    CeilDivBounds(lh, LIMIT);
    var base: Option<Manifest> := None;
    var i := 0;
    while i < c
      invariant 0 <= i && (0 < c ==> i <= c)
      invariant i == 0 ==> base == None
      invariant 0 < i ==> base.Some? && Carried(blocks, Min(i * LIMIT, lh) - 1, base)
    {
      var s, e := i * LIMIT, (i + 1) * LIMIT;
      if i == 0 {
        s, e := -1, LIMIT;
      }
      if e > lh {
        e := lh;
      }
      var j := CheckManifests(base, s, e, blocks);
      if j.Err? {
        WholeOverlap(blocks, PRE_GENESIS_HEIGHT, e - 1, lastHeight);
        return false;
      }
      base := j.value;
      i := i + 1;
    }
    return true;
  }

  /** From pre-genesis up, the window check and the whole check agree except when there is only the pre-genesis
      block and it does not pass: this is the exact extent of the gap. */
  lemma StorageMissesPreGenesis(blocks: Chain, lastHeight: int, ok: bool)
    requires lastHeight >= PRE_GENESIS_HEIGHT
    requires lastHeight >= GENESIS_HEIGHT ==> (ok <==> WholePasses(blocks, PRE_GENESIS_HEIGHT, lastHeight))
    requires lastHeight < GENESIS_HEIGHT ==> ok
    ensures (ok <==> WholePasses(blocks, PRE_GENESIS_HEIGHT, lastHeight)) <==>
            !(lastHeight == PRE_GENESIS_HEIGHT && (PRE_GENESIS_HEIGHT !in blocks || !IsValid(blocks[PRE_GENESIS_HEIGHT])))
  {
    if lastHeight == PRE_GENESIS_HEIGHT {
      var ms := Slice(blocks, PRE_GENESIS_HEIGHT, PRE_GENESIS_HEIGHT);
      assert WholePasses(blocks, PRE_GENESIS_HEIGHT, lastHeight) <==> ms[0].Some? && IsValid(ms[0].value);
    }
  }
}
