/** Manifests, their hashes and hash chains: base/block/block_v0_manifest.go and
    isaac/block_checker.go. */
module Manifests {
  import opened Base

  /** A hash, identified with what was hashed: hashing is taken to be injective. The hashes of
      operations and states are concatenated without a mark when one of them is absent, so only
      their concatenation is covered. */
  datatype Digest =
    | Named(name: string)
    | OfManifest(height: int, round: nat, proposal: Digest, previousBlock: Digest, body: seq<Digest>, confirmedAt: int)

  /** `confirmedAt` is 0 for the zero time. */
  datatype Manifest = Manifest(
    hash: Digest,
    height: int,
    round: nat,
    proposal: Digest,
    previousBlock: Digest,
    operationsHash: Option<Digest>,
    statesHash: Option<Digest>,
    confirmedAt: int,
    createdAt: int)

  function Bytes(d: Option<Digest>): seq<Digest> {
    if d.Some? then [d.value] else []
  }

  function GenerateHash(m: Manifest): (d: Digest) {
    OfManifest(m.height, m.round, m.proposal, m.previousBlock, Bytes(m.operationsHash) + Bytes(m.statesHash), m.confirmedAt)
  }

  predicate IsValid(m: Manifest) {
    m.confirmedAt != 0 && m.height >= PRE_GENESIS_HEIGHT && m.hash == GenerateHash(m)
  }

  /** checkPreviousBlock. */
  predicate Linked(current: Manifest, next: Manifest) {
    next.height == current.height + 1 && next.previousBlock == current.hash
  }

  // ---------------------------------------------------------------------------
  // The serialized check

  /** What CheckSerialized answers: `Broken` carries the block from which integrity fails; `Crashed` is the
      panic on a missing successor. */
  datatype Checked = Passed | Invalid | Broken(from: Manifest) | Crashed

  /** The first `n` manifests pass: none is missing, each is valid, each links to the next. */
  ghost predicate PassesUpTo(ms: seq<Option<Manifest>>, n: nat)
    requires n <= |ms|
  {
    && (forall i :: 0 <= i < n ==> ms[i].Some? && IsValid(ms[i].value))
    && (forall i :: 0 < i < n ==> Linked(ms[i - 1].value, ms[i].value))
  }

  ghost predicate Serialized(ms: seq<Option<Manifest>>) {
    PassesUpTo(ms, |ms|)
  }

  /** Nothing beyond a manifest that does not pass, or does not link, passes up to it. */
  lemma StopsAt(ms: seq<Option<Manifest>>, i: nat)
    requires i < |ms| && PassesUpTo(ms, i)
    requires ms[i].None? || !IsValid(ms[i].value) || (0 < i && !Linked(ms[i - 1].value, ms[i].value))
    ensures forall n :: i < n <= |ms| ==> !PassesUpTo(ms, n)
  {
  }

  /** CheckSerialized. */
  method CheckSerialized(ms: seq<Option<Manifest>>) returns (c: Checked)
    requires ms != []
    ensures c == Passed <==> Serialized(ms)
    ensures c == Crashed <==> exists n :: 0 < n < |ms| && PassesUpTo(ms, n) && ms[n].None?
    ensures c.Broken? ==> exists n :: 0 < n < |ms| && PassesUpTo(ms, n) && ms[n - 1] == Some(c.from)
                                      && ms[n].Some? && !Linked(c.from, ms[n].value)
  {
    var i := 0;
    while true
      invariant 0 <= i < |ms| && PassesUpTo(ms, i)
      invariant 0 < i ==> ms[i].Some? && Linked(ms[i - 1].value, ms[i].value)
      decreases |ms| - i
    {
      if ms[i].None? || !IsValid(ms[i].value) {
        StopsAt(ms, i);
        return Invalid;
      }
      assert PassesUpTo(ms, i + 1);
      if |ms| == i + 1 {
        return Passed;
      }
      if ms[i + 1].None? {
        return Crashed;
      }
      if !Linked(ms[i].value, ms[i + 1].value) {
        StopsAt(ms, i + 1);
        return Broken(ms[i].value);
      }
      i := i + 1;
    }
  }

  /** A list passes exactly if two parts that share one manifest pass. */
  lemma SerializedJoin(ms: seq<Option<Manifest>>, left: seq<Option<Manifest>>, right: seq<Option<Manifest>>, k: nat)
    requires k < |ms| && left == ms[..k + 1] && right == ms[k..]
    ensures Serialized(ms) <==> Serialized(left) && Serialized(right)
  {
    assert forall i :: 0 <= i <= k ==> left[i] == ms[i];
    assert forall i :: 0 <= i < |right| ==> right[i] == ms[k + i];
    if Serialized(left) && Serialized(right) {
      forall i | 0 <= i < |ms| ensures ms[i].Some? && IsValid(ms[i].value) {
        assert i <= k || ms[i] == right[i - k];
      }
      forall i | 0 < i < |ms| ensures Linked(ms[i - 1].value, ms[i].value) {
        assert i <= k || (ms[i - 1] == right[i - k - 1] && ms[i] == right[i - k]);
      }
    }
  }

  /** What a passed list is: the heights go up by one from the first, each manifest names the hash of the one
      before it, and each is confirmed, not below pre-genesis, and has the hash of its own fields. */
  lemma {:induction false} PassedMeans(ms: seq<Option<Manifest>>, i: nat)
    requires Serialized(ms) && i < |ms|
    ensures ms[i].Some? && ms[0].Some? && ms[i].value.height == ms[0].value.height + i
    ensures i > 0 ==> ms[i - 1].Some? && ms[i].value.previousBlock == ms[i - 1].value.hash
    ensures var m := ms[i].value;
            m.confirmedAt != 0 && m.height >= -1
            && m.hash == OfManifest(m.height, m.round, m.proposal, m.previousBlock, Bytes(m.operationsHash) + Bytes(m.statesHash), m.confirmedAt)
  {
    if i > 0 {
      PassedMeans(ms, i - 1);
    }
  }

  /** And it is nothing else: a list passes exactly if every place has a manifest that fits it. */
  lemma PassesExactly(ms: seq<Option<Manifest>>)
    ensures Serialized(ms) <==> forall i :: 0 <= i < |ms| ==> FitsAt(ms, i)
  {
    if Serialized(ms) {
      forall i | 0 <= i < |ms| ensures FitsAt(ms, i) {
        PassedMeans(ms, i);
      }
    }
    if forall i :: 0 <= i < |ms| ==> FitsAt(ms, i) {
      forall i | 0 <= i < |ms| ensures ms[i].Some? && IsValid(ms[i].value) {
        assert FitsAt(ms, i);
      }
      forall i | 0 < i < |ms| ensures Linked(ms[i - 1].value, ms[i].value) {
        assert FitsAt(ms, i - 1) && FitsAt(ms, i);
      }
    }
  }

  /** The manifest is confirmed, has the height of its place, counted from the first one, has the hash of its
      fields, and names the one before it. */
  ghost predicate FitsAt(ms: seq<Option<Manifest>>, i: nat)
    requires i < |ms|
  {
    && ms[i].Some? && ms[0].Some?
    && var m := ms[i].value;
       && m.height == ms[0].value.height + i >= -1
       && m.confirmedAt != 0
       && m.hash == OfManifest(m.height, m.round, m.proposal, m.previousBlock, Bytes(m.operationsHash) + Bytes(m.statesHash), m.confirmedAt)
       && (i > 0 ==> ms[i - 1].Some? && m.previousBlock == ms[i - 1].value.hash)
  }

  /** Tamper evidence: of two passed lists of one length, the last hash alone determines every hashed field of
      every manifest. */
  lemma {:induction false} TamperEvident(ms: seq<Option<Manifest>>, ns: seq<Option<Manifest>>, i: nat)
    requires Serialized(ms) && Serialized(ns) && |ms| == |ns| && i < |ms|
    requires ms[|ms| - 1].value.hash == ns[|ns| - 1].value.hash
    ensures ms[i].value.hash == ns[i].value.hash && SameHashed(ms[i].value, ns[i].value)
    decreases |ms| - i
  {
    PassedMeans(ms, i);
    PassedMeans(ns, i);
    if i < |ms| - 1 {
      TamperEvident(ms, ns, i + 1);
      PassedMeans(ms, i + 1);
      PassedMeans(ns, i + 1);
    }
    HashCovers(ms[i].value, ns[i].value);
  }

  // ---------------------------------------------------------------------------
  // Chains by height

  type Chain = map<int, Manifest>

  /** A valid hash chain over all heights from `lo` to `hi`. */
  ghost predicate ChainOver(c: Chain, lo: int, hi: int) {
    && (forall h :: lo <= h <= hi ==> h in c && IsValid(c[h]) && c[h].height == h)
    && (forall h :: lo < h <= hi ==> LinkAt(c, h))
  }

  ghost predicate LinkAt(c: Chain, h: int) {
    h in c && h - 1 in c && c[h].previousBlock == c[h - 1].hash
  }

  /** Same hash at one height. */
  predicate Matched(a: Chain, b: Chain, h: int) {
    h in a && h in b && a[h].hash == b[h].hash
  }

  /** Every field that the hash covers is the same. */
  ghost predicate SameHashed(m: Manifest, n: Manifest) {
    && m.height == n.height && m.round == n.round
    && m.proposal == n.proposal && m.previousBlock == n.previousBlock
    && Bytes(m.operationsHash) + Bytes(m.statesHash) == Bytes(n.operationsHash) + Bytes(n.statesHash)
    && m.confirmedAt == n.confirmedAt
  }

  /** The hash covers exactly these fields. */
  lemma HashCovers(m: Manifest, n: Manifest)
    ensures GenerateHash(m) == GenerateHash(n) <==> SameHashed(m, n)
  {
  }

  /** Two hash chains that agree at a height agree, in all hashed fields, at every lower height. */
  lemma {:induction false} MatchedBelow(a: Chain, b: Chain, lo: int, h: int, g: int)
    requires ChainOver(a, lo, h) && ChainOver(b, lo, h) && lo <= g <= h
    requires Matched(a, b, h)
    ensures Matched(a, b, g) && SameHashed(a[g], b[g])
    decreases h - g
  {
    if g < h {
      assert LinkAt(a, h) && LinkAt(b, h);
      assert a[h].previousBlock == b[h].previousBlock;
      MatchedBelow(a, b, lo, h - 1, g);
    }
  }

  /** The linear scan for the lowest height of the range at which two chains differ. */
  function FirstUnmatched(a: Chain, b: Chain, lo: int, hi: int): (u: int)
    requires lo > NIL_HEIGHT
    ensures u == NIL_HEIGHT || (lo <= u <= hi && !Matched(a, b, u))
    ensures forall h :: lo <= h <= hi && (u == NIL_HEIGHT || h < u) ==> Matched(a, b, h)
    decreases hi - lo
  {
    if lo > hi then NIL_HEIGHT
    else if !Matched(a, b, lo) then lo
    else FirstUnmatched(a, b, lo + 1, hi)
  }
}
