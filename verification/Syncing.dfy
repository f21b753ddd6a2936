/** Finding the first diverging block, rolling back to it, and planning what to fetch:
    isaac/syncer_general.go. */
module Syncing {
  import opened Base
  import opened Manifests

  // ---------------------------------------------------------------------------
  // Comparing local and remote blocks

  /** compareBlock. A height that is missing on either side (not stored, not fetched) is an error. */
  function CompareBlock(local: Chain, remote: Chain, h: int): (r: Result<bool>) {
    if h !in local || h !in remote then Err else Ok(local[h].hash == remote[h].hash)
  }

  /** All heights of the range can be compared. */
  ghost predicate Comparable(local: Chain, remote: Chain, lo: int, hi: int) {
    forall h :: lo <= h <= hi ==> h in local && h in remote
  }

  /** searchUnmatched: a binary search (`sort.Search`) whose probes stop at the first error. On hash
      chains it finds what a linear scan from below finds. */
  method SearchUnmatched(local: Chain, remote: Chain, lo: int, hi: int) returns (r: Result<int>)
    requires lo > NIL_HEIGHT
    ensures r.Err? ==> !Comparable(local, remote, lo, hi)
    ensures ChainOver(local, lo, hi) && ChainOver(remote, lo, hi) && lo <= hi + 1 ==>
              r == Ok(FirstUnmatched(local, remote, lo, hi))
    ensures lo > hi + 1 ==> r == Ok(lo)
    ensures lo <= hi + 1 && r.Ok? ==> r.value == NIL_HEIGHT || lo <= r.value <= hi
  {
    var counted := hi - lo + 1;
    var failed := false;
    var i, j := 0, counted;
    ghost var chained := ChainOver(local, lo, hi) && ChainOver(remote, lo, hi);
    while i < j
      invariant 0 <= i && j <= counted && (counted >= 0 ==> i <= j) && (counted < 0 ==> i == 0)
      invariant failed ==> !Comparable(local, remote, lo, hi)
      invariant !failed && chained ==> forall h :: lo <= h < lo + i ==> Matched(local, remote, h)
      invariant !failed && chained ==> j == counted || !Matched(local, remote, lo + j)
    {
      var mid := (i + j) / 2;
      var unmatched := false;
      if !failed {
        var c := CompareBlock(local, remote, lo + mid);
        if c.Err? {
          failed := true;
        } else {
          unmatched := !c.value;
        }
      }
      if !unmatched {
        if !failed && chained {
          forall h | lo <= h <= lo + mid ensures Matched(local, remote, h) {
            MatchedBelow(local, remote, lo, lo + mid, h);
          }
        }
        i := mid + 1;
      } else {
        j := mid;
      }
    }
    if failed {
      return Err;
    } else if i == counted {
      return Ok(NIL_HEIGHT);
    }
    assert chained ==> var u := FirstUnmatched(local, remote, lo, hi);
                       (u < lo + i || lo + i < u) && u != NIL_HEIGHT ==> Matched(local, remote, Min(u, lo + i));
    return Ok(lo + i);
  }

  /** compareBlocks: first the genesis block, then the blocks above it. */
  method CompareBlocks(local: Chain, remote: Chain, top: int) returns (r: Result<int>)
    ensures r.Err? ==> !Comparable(local, remote, GENESIS_HEIGHT, if top > GENESIS_HEIGHT then top else GENESIS_HEIGHT)
    ensures r.Ok? ==> r.value == NIL_HEIGHT || r.value == PRE_GENESIS_HEIGHT || GENESIS_HEIGHT < r.value <= top
    ensures top >= GENESIS_HEIGHT && ChainOver(local, PRE_GENESIS_HEIGHT, top) && ChainOver(remote, PRE_GENESIS_HEIGHT, top) ==>
              var first := FirstUnmatched(local, remote, PRE_GENESIS_HEIGHT, top);
              r == Ok(if first == GENESIS_HEIGHT then PRE_GENESIS_HEIGHT else first)
  {
    var matched :- CompareBlock(local, remote, GENESIS_HEIGHT);
    if !matched {
      return Ok(PRE_GENESIS_HEIGHT);
    }
    if top <= GENESIS_HEIGHT {
      GenesisMatched(local, remote, top);
      return Ok(NIL_HEIGHT);
    }
    GenesisMatched(local, remote, top);
    r := SearchUnmatched(local, remote, GENESIS_HEIGHT + 1, top);
  }

  lemma GenesisMatched(local: Chain, remote: Chain, top: int)
    requires Matched(local, remote, GENESIS_HEIGHT)
    ensures top >= GENESIS_HEIGHT && ChainOver(local, PRE_GENESIS_HEIGHT, top) && ChainOver(remote, PRE_GENESIS_HEIGHT, top) ==>
              FirstUnmatched(local, remote, PRE_GENESIS_HEIGHT, top) == FirstUnmatched(local, remote, GENESIS_HEIGHT + 1, top)
  {
    if top >= GENESIS_HEIGHT && ChainOver(local, PRE_GENESIS_HEIGHT, top) && ChainOver(remote, PRE_GENESIS_HEIGHT, top) {
      MatchedBelow(local, remote, PRE_GENESIS_HEIGHT, GENESIS_HEIGHT, PRE_GENESIS_HEIGHT);
    }
  }

  // ---------------------------------------------------------------------------
  // The syncer

  /** Everything below a height: what CleanByHeight leaves of a database. */
  function Below(db: Chain, height: int): (r: Chain) {
    map h | h in db && h < height :: db[h]
  }

  /** Each manifest is stored under its height. */
  ghost predicate HeightsFit(db: Chain) {
    forall h :: h in db ==> db[h].height == h >= PRE_GENESIS_HEIGHT
  }

  /** The first height to sync: right after the base manifest, or before genesis without one. */
  function StartAfter(base: Option<Manifest>): int {
    if base.Some? then base.value.height + 1 else PRE_GENESIS_HEIGHT
  }

  class GeneralSyncer {
    var database: Chain
    var heightFrom: int
    var heightTo: int
    var baseManifest: Option<Manifest>
    var blks: seq<Option<Manifest>>
    var blockdataSessions: seq<Option<int>>
    var hasSession: bool
    var channels: nat

    /** The range starts right after the base manifest, or before genesis without one; it is not
        empty; and there is one slot for each of its blocks. */
    ghost predicate Valid()
      reads this
    {
      && PRE_GENESIS_HEIGHT <= heightFrom <= heightTo
      && heightFrom == StartAfter(baseManifest)
      && |blks| == heightTo - heightFrom + 1
      && HeightsFit(database)
    }

    ghost predicate SessionsFit()
      reads this
    {
      |blockdataSessions| == heightTo - heightFrom + 1
    }

    constructor (database: Chain, base: Option<Manifest>, to: int)
      requires PRE_GENESIS_HEIGHT <= StartAfter(base) <= to
      requires HeightsFit(database)
      ensures Valid() && SessionsFit()
      ensures this.database == database && baseManifest == base && heightTo == to
    {
      var lo := StartAfter(base);
      this.database := database;
      baseManifest := base;
      heightFrom := lo;
      heightTo := to;
      blks := seq(to - lo + 1, _ => None);
      blockdataSessions := seq(to - lo + 1, _ => None);
      hasSession := false;
      channels := 0;
    }

    /** NewGeneralSyncer: refuses an empty range and a range that starts inside the stored blocks. */
    static method Create(database: Chain, last: Option<int>, base: Option<Manifest>, to: int) returns (r: Result<GeneralSyncer>)
      requires HeightsFit(database) && (base.Some? ==> Manifests.IsValid(base.value))
      ensures r.Ok? <==> StartAfter(base) <= to && (last.Some? ==> last.value < StartAfter(base))
      ensures r.Ok? ==> fresh(r.value) && r.value.Valid() && r.value.SessionsFit()
      ensures r.Ok? ==> r.value.database == database && r.value.baseManifest == base && r.value.heightTo == to
    {
      var lo := StartAfter(base);
      if lo > to {
        return Err;
      }
      if last.Some? && lo <= last.value {
        return Err;
      }
      var cs := new GeneralSyncer(database, base, to);
      return Ok(cs);
    }

    /** reset, given how many source channels there are now. With a session left over, it first
        removes everything from `heightFrom` up. */
    method Reset(sources: nat) returns (ok: bool)
      requires Valid()
      modifies this
      ensures Valid() && heightFrom == old(heightFrom) && heightTo == old(heightTo) && baseManifest == old(baseManifest)
      ensures database == if old(hasSession) then Below(old(database), heightFrom) else old(database)
      ensures blks == old(blks)
      ensures ok <==> sources > 0
      ensures ok ==> SessionsFit() && hasSession && channels == sources && forall s :: s in blockdataSessions ==> s.None?
      ensures !ok ==> blockdataSessions == old(blockdataSessions)
    {
      if hasSession {
        database := Below(database, heightFrom);
      }
      if sources < 1 {
        return false;
      }
      channels := sources;
      blockdataSessions := seq(heightTo - heightFrom + 1, _ => None);
      hasSession := true;
      return true;
    }

    /** The check of the fetched head against the base manifest in headAndTailManifests. Integrity can
        only fail from the base manifest, which is below the range. */
    method CheckHead(head: Option<Manifest>) returns (c: Checked)
      requires Valid()
      ensures baseManifest.None? ==> c == Passed
      ensures baseManifest.Some? ==> (c == Passed <==> Serialized([baseManifest, head]))
      ensures c.Broken? ==> baseManifest == Some(c.from) && c.from.height < heightFrom
    {
      if baseManifest.None? {
        return Passed;
      }
      c := CheckSerialized([baseManifest, head]);
    }

    /** rollback followed by the reset that starts the next preparation. On hash chains it succeeds
        exactly if some block up to `top` differs; then it has removed the lowest such block and
        everything above, keeping exactly the longest common prefix (and nothing, if the genesis
        block differs), and the range starts there. */
    method Rollback(top: int, remote: Chain, sources: nat) returns (ok: bool)
      requires Valid() && top < heightFrom
      modifies this
      ensures Valid() && heightTo == old(heightTo)
      ensures ok ==> SessionsFit() && hasSession
      ensures ok ==> database == Below(old(database), heightFrom)
      ensures ok ==> blks == seq(heightTo - heightFrom + 1, _ => None)
      ensures ok && baseManifest.Some? ==> heightFrom - 1 in old(database) && baseManifest.value == old(database)[heightFrom - 1]
      ensures top >= GENESIS_HEIGHT && ChainOver(old(database), PRE_GENESIS_HEIGHT, top) && ChainOver(remote, PRE_GENESIS_HEIGHT, top) ==>
                var first := FirstUnmatched(old(database), remote, PRE_GENESIS_HEIGHT, top);
                && (ok <==> first != NIL_HEIGHT && sources > 0)
                && (ok ==> heightFrom == if first == GENESIS_HEIGHT then PRE_GENESIS_HEIGHT else first)
                && (ok ==> forall h :: h in database ==> Matched(database, remote, h))
                && (ok ==> forall h :: PRE_GENESIS_HEIGHT <= h < heightFrom ==> h in database && database[h] == old(database)[h])
                && (first == NIL_HEIGHT ==> unchanged(this))
    {
      var c := CompareBlocks(database, remote, top);
      if c.Err? || c.value <= NIL_HEIGHT {
        return false;
      }
      var unmatched := c.value;
      ok := Rebase(unmatched);
      if ok {
        ok := Reset(sources);
        assert forall h :: h in database && Matched(old(database), remote, h) ==> Matched(database, remote, h);
      }
    }

    /** The middle part of rollback: clean from `unmatched` up and take the block below as base. */
    method Rebase(unmatched: int) returns (ok: bool)
      requires Valid() && PRE_GENESIS_HEIGHT <= unmatched <= heightTo
      requires unmatched != GENESIS_HEIGHT
      modifies this
      ensures Valid() && heightTo == old(heightTo) && hasSession == old(hasSession)
      ensures database == Below(old(database), unmatched)
      ensures ok <==> unmatched > GENESIS_HEIGHT ==> unmatched - 1 in old(database)
      ensures ok ==> heightFrom == unmatched && blks == seq(heightTo - heightFrom + 1, _ => None)
      ensures ok ==> baseManifest == if unmatched > GENESIS_HEIGHT then Some(old(database)[unmatched - 1]) else None
    {
      database := Below(database, unmatched);
      var base: Option<Manifest> := None;
      if unmatched > GENESIS_HEIGHT {
        if unmatched - 1 !in database {
          return false;
        }
        base := Some(database[unmatched - 1]);
      }
      heightFrom := unmatched;
      blks := seq(heightTo - heightFrom + 1, _ => None);
      baseManifest := base;
      return true;
    }
  }
}
