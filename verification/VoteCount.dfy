/** Vote counting: base/votecount.go. */
module VoteCount {
  import opened Base

  datatype VoteResult = NotYet | Draw | Majority

  /** What is counted: fact hashes in string form. */
  type Key = Hash
  const NO_KEY := Hash("")

  const NOT_YET: int := -1
  const DRAW: int := -2

  // ---------------------------------------------------------------------------
  // FindMajority: a list of counts

  function Sum(counts: seq<nat>): (s: nat) {
    if counts == [] then 0 else Sum(counts[..|counts| - 1]) + counts[|counts| - 1]
  }

  predicate AllBelow(counts: seq<nat>, bound: int) {
    forall i :: 0 <= i < |counts| ==> counts[i] < bound
  }

  ghost predicate Descending(counts: seq<nat>) {
    forall i, j :: 0 <= i < j < |counts| ==> counts[i] >= counts[j]
  }

  /** `m` is the largest count. */
  ghost predicate IsPeak(counts: seq<nat>, m: nat) {
    m in counts && forall c :: c in counts ==> c <= m
  }

  /** What FindMajority decides about a list of counts. */
  ghost predicate Decided(total: Uint, threshold: Uint, counts: seq<nat>, r: int) {
    var goal := Min(threshold, total);
    if r == DRAW then
      AllBelow(counts, goal) && exists m :: IsPeak(counts, m) && Wrap(total - Sum(counts) + m) < goal
    else if r == NOT_YET then
      AllBelow(counts, goal) && forall m :: IsPeak(counts, m) ==> Wrap(total - Sum(counts) + m) >= goal
    else
      0 <= r < |counts| && counts[r] >= goal && forall i :: 0 <= i < r ==> counts[i] < goal
  }

  method Swap(a: array<nat>, i: nat, j: nat)
    requires i < a.Length && j < a.Length
    modifies a
    ensures a[..] == old(a[..])[i := old(a[j])][j := old(a[i])]
    ensures multiset(a[..]) == multiset(old(a[..]))
  {
    a[i], a[j] := a[j], a[i];
  }

  /** The in-place `sort.Slice` with the greater-than order. */
  method SortDescending(a: array<nat>)
    modifies a
    ensures Descending(a[..])
    ensures multiset(a[..]) == multiset(old(a[..]))
  {
    var n := 0;
    while n < a.Length
      invariant 0 <= n <= a.Length
      invariant multiset(a[..]) == multiset(old(a[..]))
      invariant forall i, j :: 0 <= i < j < a.Length && i < n ==> a[i] >= a[j]
    {
      var best := n;
      for k := n + 1 to a.Length
        invariant n <= best < a.Length
        invariant forall j :: n <= j < k ==> a[j] <= a[best]
      {
        if a[k] > a[best] {
          best := k;
        }
      }
      Swap(a, n, best);
      n := n + 1;
    }
  }

  lemma SumAppend(counts: seq<nat>, i: nat)
    requires i < |counts|
    ensures Sum(counts[..i + 1]) == Sum(counts[..i]) + counts[i]
  {
    assert counts[..i + 1][..i] == counts[..i];
  }

  lemma PeakOfDescending(before: seq<nat>, after: seq<nat>)
    requires multiset(before) == multiset(after) && Descending(after) && after != []
    ensures IsPeak(before, after[0])
    ensures forall m :: IsPeak(before, m) ==> m == after[0]
  {
    forall c ensures c in before <==> c in after {
      assert c in multiset(before) <==> c in multiset(after);
    }
    assert after[0] in after;
  }

  lemma {:induction false} SumConcat(a: seq<nat>, b: seq<nat>)
    ensures Sum(a + b) == Sum(a) + Sum(b)
    decreases |b|
  {
    if b == [] {
      assert a + b == a;
    } else {
      SumConcat(a, b[..|b| - 1]);
      assert (a + b)[..|a + b| - 1] == a + b[..|b| - 1];
    }
  }

  lemma {:induction false} SumPermuted(a: seq<nat>, b: seq<nat>)
    requires multiset(a) == multiset(b)
    ensures Sum(a) == Sum(b)
    decreases |a|
  {
    assert |a| == |multiset(a)| == |b|;
    if a == [] {
    } else {
      var front, last := a[..|a| - 1], a[|a| - 1];
      assert a == front + [last];
      assert last in multiset(b);
      var i :| 0 <= i < |b| && b[i] == last;
      var left, right := b[..i], b[i + 1..];
      MiddleOut(front, left, last, right, b);
      SumPermuted(front, left + right);
      SumConcat(left, right);
      SumConcat(left, [last]);
      SumConcat(left + [last], right);
      assert b == left + [last] + right;
    }
  }

  lemma MiddleOut(front: seq<nat>, left: seq<nat>, last: nat, right: seq<nat>, b: seq<nat>)
    requires b == left + [last] + right && multiset(front + [last]) == multiset(b)
    ensures multiset(front) == multiset(left + right)
  {
    assert multiset(front) == multiset(front + [last]) - multiset{last};
    assert multiset(left + right) == multiset(b) - multiset{last};
  }

  /** A draw or not-yet does not depend on the order of the counts. */
  lemma DecidedPermuted(total: Uint, threshold: Uint, a: seq<nat>, b: seq<nat>, r: int)
    requires multiset(a) == multiset(b) && r < 0
    requires Decided(total, threshold, a, r)
    ensures Decided(total, threshold, b, r)
  {
    SumPermuted(a, b);
    forall c ensures c in a <==> c in b {
      assert c in multiset(a) <==> c in multiset(b);
    }
    assert forall m :: IsPeak(a, m) <==> IsPeak(b, m);
    forall i | 0 <= i < |b| ensures b[i] < Min(threshold, total) {
      assert b[i] in a;
    }
  }

  method AddUp(counts: array<nat>) returns (sum: Uint)
    ensures sum == Wrap(Sum(counts[..]))
  {
    sum := 0;
    for i := 0 to counts.Length
      invariant sum == Wrap(Sum(counts[..i]))
    {
      SumAppend(counts[..], i);
      assert counts[..][..i] == counts[..i] && counts[..][..i + 1] == counts[..i + 1];
      WrapAdd(Sum(counts[..i]), counts[i]);
      sum := Wrap(sum + counts[i]);
    }
    assert counts[..counts.Length] == counts[..];
  }

  lemma RemainingPlus(total: int, sum: int, lead: int)
    ensures Wrap(Wrap(total - Wrap(sum)) + lead) == Wrap(total - sum + lead)
  {
    WrapSub(total, sum);
    WrapAdd(total - sum, lead);
  }

  /** When no count reaches the threshold, the largest one and the sum decide. */
  lemma UndecidedByPeak(total: Uint, threshold: Uint, given: seq<nat>, sorted: seq<nat>, sum: Uint)
    requires multiset(given) == multiset(sorted) && Descending(sorted) && sorted != []
    requires sum == Wrap(Sum(given)) && AllBelow(given, Min(threshold, total))
    ensures Decided(total, threshold, given, if Wrap(Wrap(total - sum) + sorted[0]) < Min(threshold, total) then DRAW else NOT_YET)
  {
    PeakOfDescending(given, sorted);
    RemainingPlus(total, Sum(given), sorted[0]);
  }

  /** FindMajority. Sorting happens in the caller's slice, but only after no count reached the
      threshold; a returned index therefore still points into the slice as the caller laid it out. */
  method FindMajority(total: Uint, threshold: Uint, counts: array<nat>) returns (r: int)
    modifies counts
    ensures Decided(total, threshold, old(counts[..]), r)
    ensures multiset(counts[..]) == multiset(old(counts[..]))
    ensures r >= 0 ==> counts[..] == old(counts[..])
  {
    var goal := if threshold > total then total else threshold;
    if counts.Length < 1 {
      return NOT_YET;
    }
    ghost var given := counts[..];
    var sum := AddUp(counts);

    for i := 0 to counts.Length
      invariant forall j :: 0 <= j < i ==> counts[j] < goal
      invariant counts[..] == given
    {
      if counts[i] >= total {
        return i;
      }
      if counts[i] >= goal {
        return i;
      }
    }

    SortDescending(counts);
    UndecidedByPeak(total, threshold, given, counts[..], sum);
    if Wrap(Wrap(total - sum) + counts[0]) < goal {
      return DRAW;
    }
    return NOT_YET;
  }

  // ---------------------------------------------------------------------------
  // FindMajorityFromSlice: a list of keys

  function CountOf(s: seq<Key>, k: Key): (n: nat)
    ensures n <= |s|
    ensures n > 0 <==> k in s
  {
    multiset(s)[k]
  }

  /** No key of `s` reaches `goal`. */
  ghost predicate NoneReaches(s: seq<Key>, goal: int) {
    forall k :: k in s ==> CountOf(s, k) < goal
  }

  /** `m` is the count of the most frequent key. */
  ghost predicate IsLead(s: seq<Key>, m: nat) {
    (exists k :: k in s && CountOf(s, k) == m) && forall k :: k in s ==> CountOf(s, k) <= m
  }

  /** The outcomes that FindMajorityFromSlice may return for `s`; when several keys share the
      largest count, Go's map order picks one of them. */
  ghost predicate TallyOutcome(total: Uint, threshold: Uint, s: seq<Key>, result: VoteResult, key: Key) {
    var goal := Min(threshold, total);
    match result
    case Majority => key in s && CountOf(s, key) >= goal && IsLead(s, CountOf(s, key))
    case Draw => key == NO_KEY && NoneReaches(s, goal) && exists m :: IsLead(s, m) && Wrap(total - |s| + m) < goal
    case NotYet => key == NO_KEY && NoneReaches(s, goal) && forall m :: IsLead(s, m) ==> Wrap(total - |s| + m) >= goal
  }

  /** `counts` lists the number of occurrences of each key of `keys`, in some order. */
  ghost predicate CountsListed(s: seq<Key>, keys: seq<Key>, counts: seq<nat>) {
    && |keys| == |counts|
    && Distinct(keys)
    && (forall i :: 0 <= i < |keys| ==> keys[i] in s && counts[i] == CountOf(s, keys[i]))
  }

  ghost predicate AllListed(s: seq<Key>, keys: seq<Key>) {
    forall k :: k in s ==> k in keys
  }

  /** The counts of all keys of a multiset add up to its size. */
  lemma {:induction false} SumOfCounts(bag: multiset<Key>, keys: seq<Key>, counts: seq<nat>)
    requires |keys| == |counts| && Distinct(keys)
    requires forall i :: 0 <= i < |keys| ==> counts[i] == bag[keys[i]]
    requires forall k :: k in bag ==> k in keys
    ensures Sum(counts) == |bag|
    decreases |keys|
  {
    if keys == [] {
      assert bag == multiset{};
    } else {
      var last := |keys| - 1;
      var rest := bag[keys[last] := 0];
      forall k | k in rest ensures k in keys[..last] {
        var i :| 0 <= i < |keys| && keys[i] == k;
        assert keys[..last][i] == k;
      }
      SumOfCounts(rest, keys[..last], counts[..last]);
    }
  }

  lemma PeakIsLead(s: seq<Key>, keys: seq<Key>, counts: seq<nat>, m: nat)
    requires CountsListed(s, keys, counts) && AllListed(s, keys)
    ensures IsPeak(counts, m) <==> IsLead(s, m)
  {
    forall k | k in s ensures exists i :: 0 <= i < |keys| && keys[i] == k && counts[i] == CountOf(s, k) {
      assert k in keys;
    }
    if IsPeak(counts, m) {
      var i :| 0 <= i < |counts| && counts[i] == m;
      assert keys[i] in s && CountOf(s, keys[i]) == m;
      forall k | k in s ensures CountOf(s, k) <= m {
        var at :| 0 <= at < |keys| && keys[at] == k && counts[at] == CountOf(s, k);
        assert counts[at] in counts;
      }
    }
    if IsLead(s, m) {
      var lead :| lead in s && CountOf(s, lead) == m;
      var at :| 0 <= at < |keys| && keys[at] == lead && counts[at] == CountOf(s, lead);
      assert m in counts;
      forall c | c in counts ensures c <= m {
        var i :| 0 <= i < |counts| && counts[i] == c;
        assert CountOf(s, keys[i]) == c;
      }
    }
  }

  lemma BelowIsNone(s: seq<Key>, keys: seq<Key>, counts: seq<nat>, goal: int)
    requires CountsListed(s, keys, counts) && AllListed(s, keys)
    ensures AllBelow(counts, goal) <==> NoneReaches(s, goal)
  {
    if NoneReaches(s, goal) {
      forall i | 0 <= i < |counts| ensures counts[i] < goal {
        assert CountOf(s, keys[i]) < goal;
      }
    }
    if AllBelow(counts, goal) {
      forall k | k in s ensures CountOf(s, k) < goal {
        var i :| 0 <= i < |keys| && keys[i] == k;
        assert counts[i] < goal;
      }
    }
  }

  /** Deciding on the counts decides on the keys. */
  lemma DecidedTally(total: Uint, threshold: Uint, s: seq<Key>, keys: seq<Key>, counts: seq<nat>, r: int)
    requires CountsListed(s, keys, counts) && AllListed(s, keys)
    requires Decided(total, threshold, counts, r)
    ensures r == DRAW ==> TallyOutcome(total, threshold, s, Draw, NO_KEY)
    ensures r == NOT_YET ==> TallyOutcome(total, threshold, s, NotYet, NO_KEY)
  {
    SumOfCounts(multiset(s), keys, counts);
    BelowIsNone(s, keys, counts, Min(threshold, total));
    forall m: nat ensures IsPeak(counts, m) <==> IsLead(s, m) {
      PeakIsLead(s, keys, counts, m);
    }
  }

  /** The loop that counts each key of the slice. */
  method CountKeys(s: seq<Key>) returns (counts: map<Key, nat>)
    ensures forall k :: k in counts <==> k in s
    ensures forall k :: k in counts ==> counts[k] == CountOf(s, k)
  {
    counts := map[];
    for i := 0 to |s|
      invariant forall k :: k in counts <==> k in s[..i]
      invariant forall k :: k in counts ==> counts[k] == CountOf(s[..i], k)
    {
      assert s[..i + 1] == s[..i] + [s[i]];
      counts := counts[s[i] := if s[i] in counts then counts[s[i]] + 1 else 1];
    }
    assert s[..|s|] == s;
  }

  /** The loop that ranges over the counts map, in whatever order, to fill the slice of counts and
      the map from a count back to a key that has it. */
  method ListCounts(s: seq<Key>, counts: map<Key, nat>)
    returns (keysOf: map<nat, Key>, list: seq<nat>, ghost keys: seq<Key>)
    requires forall k :: k in counts <==> k in s
    requires forall k :: k in counts ==> counts[k] == CountOf(s, k)
    ensures CountsListed(s, keys, list) && AllListed(s, keys)
    ensures forall c :: c in list <==> c in keysOf
    ensures forall c :: c in keysOf ==> keysOf[c] in s && CountOf(s, keysOf[c]) == c
  {
    keysOf, list, keys := map[], [], [];
    var rest := counts.Keys;
    while rest != {}
      invariant rest <= counts.Keys
      invariant forall k :: k in s ==> k in rest || k in keys
      invariant forall k :: k in keys ==> k !in rest
      invariant CountsListed(s, keys, list)
      invariant forall c :: c in list <==> c in keysOf
      invariant forall c :: c in keysOf ==> keysOf[c] in s && CountOf(s, keysOf[c]) == c
      decreases |rest|
    {
      var k :| k in rest;
      keysOf := keysOf[counts[k] := k];
      list := list + [counts[k]];
      keys := keys + [k];
      rest := rest - {k};
    }
  }

  method FindMajorityFromSlice(total: Uint, threshold: Uint, s: seq<Key>) returns (result: VoteResult, key: Key)
    ensures TallyOutcome(total, threshold, s, result, key)
  {
    var counts := CountKeys(s);
    var keysOf, list, keys := ListCounts(s, counts);
    var slots := new nat[|list|](i requires 0 <= i < |list| => list[i]);
    assert slots[..] == list;
    SortDescending(slots);
    ghost var sorted := slots[..];
    var index := FindMajority(total, threshold, slots);
    if index == NOT_YET {
      DecidedPermuted(total, threshold, sorted, list, index);
      DecidedTally(total, threshold, s, keys, list, index);
      return NotYet, NO_KEY;
    } else if index == DRAW {
      DecidedPermuted(total, threshold, sorted, list, index);
      DecidedTally(total, threshold, s, keys, list, index);
      return Draw, NO_KEY;
    } else {
      assert sorted[0] in multiset(sorted);
      assert sorted[0] in list;
      PeakOfDescending(list, sorted);
      PeakIsLead(s, keys, list, sorted[0]);
      return Majority, keysOf[slots[index]];
    }
  }

  // ---------------------------------------------------------------------------
  // What a tally means

  /** Some way of casting the votes that are still out lets some key reach `goal`. */
  ghost predicate CanComplete(total: nat, goal: int, s: seq<Key>) {
    exists t: seq<Key>, k: Key :: Completes(total, goal, s, t, k)
  }

  ghost predicate Completes(total: nat, goal: int, s: seq<Key>, t: seq<Key>, k: Key) {
    |s| + |t| == total && CountOf(s + t, k) >= goal
  }

  ghost predicate SomeReaches(s: seq<Key>, goal: int) {
    exists k :: k in s && CountOf(s, k) >= goal
  }

  /** `n` votes for `k`. */
  ghost function Votes(k: Key, n: nat): (t: seq<Key>)
    ensures |t| == n
  {
    if n == 0 then [] else Votes(k, n - 1) + [k]
  }

  lemma {:induction false} VotesCount(k: Key, n: nat, j: Key)
    ensures CountOf(Votes(k, n), j) == if j == k then n else 0
  {
    if n > 0 {
      VotesCount(k, n - 1, j);
    }
  }

  lemma CountConcat(s: seq<Key>, t: seq<Key>, k: Key)
    ensures CountOf(s + t, k) == CountOf(s, k) + CountOf(t, k)
  {
    assert multiset(s + t) == multiset(s) + multiset(t);
  }

  /** A completion exists exactly if giving every outstanding vote to one key is enough. */
  lemma CompletionByOne(total: nat, goal: int, s: seq<Key>)
    requires |s| <= total
    ensures CanComplete(total, goal, s) <==> exists k: Key :: total - |s| + CountOf(s, k) >= goal
  {
    forall t: seq<Key>, k: Key | Completes(total, goal, s, t, k)
      ensures total - |s| + CountOf(s, k) >= goal
    {
      CountConcat(s, t, k);
    }
    forall k: Key | total - |s| + CountOf(s, k) >= goal
      ensures CanComplete(total, goal, s)
    {
      var t := Votes(k, total - |s|);
      VotesCount(k, total - |s|, k);
      CountConcat(s, t, k);
      assert Completes(total, goal, s, t, k);
    }
  }

  lemma {:induction false} LeadExists(s: seq<Key>) returns (m: nat)
    requires s != []
    ensures IsLead(s, m)
  {
    var best, i := s[0], 1;
    while i < |s|
      invariant 1 <= i <= |s| && best in s
      invariant forall j :: 0 <= j < i ==> CountOf(s, s[j]) <= CountOf(s, best)
    {
      if CountOf(s, s[i]) > CountOf(s, best) { best := s[i]; }
      i := i + 1;
    }
    m := CountOf(s, best);
  }

  /** Every vote list has an outcome. */
  lemma TallyExists(total: Uint, threshold: Uint, s: seq<Key>) returns (result: VoteResult, key: Key)
    ensures TallyOutcome(total, threshold, s, result, key)
  {
    var goal := Min(threshold, total);
    result, key := NotYet, NO_KEY;
    if s != [] {
      var m := LeadExists(s);
      var lead :| lead in s && CountOf(s, lead) == m;
      if m >= goal {
        result, key := Majority, lead;
      } else if Wrap(total - |s| + m) < goal {
        result := Draw;
      }
    }
  }

  /** The tally refines its meaning: with no more votes than voters, the result is MAJORITY exactly
      if some key has reached the threshold, DRAW exactly if no way of casting the outstanding votes
      lets any key reach it, and NOT-YET otherwise; and the unsigned subtraction does not wrap. */
  lemma TallyMeaning(total: Uint, threshold: Uint, s: seq<Key>, result: VoteResult, key: Key)
    requires |s| <= total
    requires TallyOutcome(total, threshold, s, result, key)
    ensures result == Majority <==> SomeReaches(s, Min(threshold, total))
    ensures result == Draw <==> !CanComplete(total, Min(threshold, total), s)
    ensures forall m :: IsLead(s, m) ==> Wrap(total - |s| + m) == total - |s| + m
  {
    var goal := Min(threshold, total);
    CompletionByOne(total, goal, s);
    LeadFits(total, s);
    if s == [] {
      assert total - |s| + CountOf(s, NO_KEY) >= goal;
    } else {
      var m := LeadExists(s);
      LeadDecides(total, goal, s, m);
    }
  }

  lemma LeadFits(total: Uint, s: seq<Key>)
    requires |s| <= total
    ensures forall m :: IsLead(s, m) ==> Wrap(total - |s| + m) == total - |s| + m
  {
    forall m | IsLead(s, m) ensures 0 <= total - |s| + m <= total {
    }
  }

  /** The most frequent key decides for all. */
  lemma LeadDecides(total: nat, goal: int, s: seq<Key>, m: nat)
    requires |s| <= total && IsLead(s, m)
    ensures SomeReaches(s, goal) <==> m >= goal
    ensures (exists k: Key :: total - |s| + CountOf(s, k) >= goal) <==> total - |s| + m >= goal
    ensures forall n :: IsLead(s, n) ==> n == m
  {
    var lead :| lead in s && CountOf(s, lead) == m;
    assert total - |s| + CountOf(s, lead) == total - |s| + m;
    forall k ensures CountOf(s, k) <= m {
    }
  }

  /** Two different keys share the votes. */
  lemma TwoKeys(s: seq<Key>, j: Key, k: Key)
    requires j != k
    ensures CountOf(s, j) + CountOf(s, k) <= |s|
  {
    var rest := multiset(s)[j := 0];
    assert |rest[k := 0]| == |rest| - rest[k];
  }

  /** When twice the threshold exceeds the total, the outcome depends on the multiset of votes only:
      neither the order of arrival nor the order of map iteration matters. */
  lemma TallyUnique(total: Uint, threshold: Uint, s: seq<Key>, t: seq<Key>,
                    result: VoteResult, key: Key, result': VoteResult, key': Key)
    requires |s| <= total && 2 * Min(threshold, total) > total
    requires multiset(s) == multiset(t)
    requires TallyOutcome(total, threshold, s, result, key)
    requires TallyOutcome(total, threshold, t, result', key')
    ensures result == result' && key == key'
  {
    assert |s| == |multiset(s)| == |t|;
    forall k ensures (k in s <==> k in t) && CountOf(s, k) == CountOf(t, k) {
    }
    TallyMeaning(total, threshold, s, result, key);
    TallyMeaning(total, threshold, t, result', key');
    CompletionByOne(total, Min(threshold, total), s);
    CompletionByOne(total, Min(threshold, total), t);
    assert SomeReaches(s, Min(threshold, total)) <==> SomeReaches(t, Min(threshold, total));
    if result == Majority && result' == Majority && key != key' {
      TwoKeys(s, key, key');
    }
  }

  /** Of two groups of votes, one that reaches the threshold and is at least as large as the other is a
      possible winner. */
  lemma TwoGroups(total: Uint, threshold: Uint, j: Key, m: nat, k: Key, n: nat, s: seq<Key>, winner: Key)
    requires j != k && 1 <= threshold <= total && s == Votes(j, m) + Votes(k, n)
    requires (winner == j && m >= n && m >= threshold) || (winner == k && n >= m && n >= threshold)
    ensures TallyOutcome(total, threshold, s, Majority, winner)
  {
    forall x ensures CountOf(s, x) == if x == j then m else if x == k then n else 0 {
      CountConcat(Votes(j, m), Votes(k, n), x);
      VotesCount(j, m, x);
      VotesCount(k, n, x);
    }
    LargestWins(total, threshold, s, winner);
  }

  lemma VotesAppend(j: Key, m: nat, k: Key, n: nat)
    ensures Votes(j, m) + Votes(k, n) + [k] == Votes(j, m) + Votes(k, n + 1)
    ensures Votes(j, m) + Votes(k, 0) == Votes(j, m)
  {
    assert Votes(j, m) + Votes(k, n) + [k] == Votes(j, m) + (Votes(k, n) + [k]);
  }

  lemma LargestWins(total: Uint, threshold: Uint, s: seq<Key>, k: Key)
    requires 1 <= threshold <= CountOf(s, k) && forall x :: CountOf(s, x) <= CountOf(s, k)
    ensures TallyOutcome(total, threshold, s, Majority, k)
  {
  }
}
