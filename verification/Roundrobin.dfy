/** Electing proposers in turn: launch/process/suffrage_roundrobin.go. */
module Roundrobin {
  import opened Base

  /** The bytes of the previous manifest hash and the height, summed as uint64 values. */
  function Offset(previous: seq<nat>, height: int): (s: int) {
    ByteSum(previous) + height
  }

  function ByteSum(bs: seq<nat>): (s: nat) {
    if bs == [] then 0 else ByteSum(bs[..|bs| - 1]) + bs[|bs| - 1]
  }

  /** pos: the sum of the bytes, the height and the round, wrapping as uint64, modulo the number of
      nodes. */
  method Pos(previous: seq<nat>, height: int, round: Uint, all: nat) returns (p: nat)
    requires all >= 1
    ensures p == Turn(Offset(previous, height), round, all)
  {
    var sum: Uint := 0;
    for i := 0 to |previous|
      invariant sum == Wrap(ByteSum(previous[..i]))
    {
      assert previous[..i + 1][..i] == previous[..i];
      WrapAdd(ByteSum(previous[..i]), previous[i]);
      sum := Wrap(sum + previous[i]);
    }
    assert previous[..|previous|] == previous;
    var more := Wrap(Wrap(height) + round);
    sum := Wrap(sum + more);
    WrapAdd(height, round);
    WrapAdd(ByteSum(previous), more);
    WrapAdd(height + round, ByteSum(previous));
    assert sum == Wrap(Offset(previous, height) + round);
    return sum % all;
  }

  /** The proposer position in a round. */
  function Turn(offset: int, round: int, all: nat): (p: nat)
    requires all >= 1
    ensures p < all
  {
    Wrap(offset + round) % all
  }

  /** What moves the position: a height more is as a round more, a byte of the previous hash as that many
      rounds, and without any of them the position is the round itself, wrapping. */
  lemma PositionMoves(previous: seq<nat>, b: nat, height: int, round: int, all: nat)
    requires all >= 1
    ensures Turn(Offset(previous, height + 1), round, all) == Turn(Offset(previous, height), round + 1, all)
    ensures Turn(Offset(previous + [b], height), round, all) == Turn(Offset(previous, height), round + b, all)
    ensures 0 <= round < UINT_MODULUS ==> Turn(Offset([], 0), round, all) == round % all
  {
    SameTurn(Offset(previous, height + 1), round, Offset(previous, height), round + 1, all);
    assert (previous + [b])[..|previous|] == previous;
    SameTurn(Offset(previous + [b], height), round, Offset(previous, height), round + b, all);
    RoundItself(round, all);
  }

  lemma SameTurn(offset: int, round: int, offset': int, round': int, all: nat)
    requires all >= 1 && offset + round == offset' + round'
    ensures Turn(offset, round, all) == Turn(offset', round', all)
  {
    assert Wrap(offset + round) == Wrap(offset' + round');
  }

  lemma RoundItself(round: int, all: nat)
    requires all >= 1
    ensures 0 <= round < UINT_MODULUS ==> Turn(Offset([], 0), round, all) == round % all
  {
    assert ByteSum([]) == 0;
    assert 0 <= round < UINT_MODULUS ==> Wrap(0 + round) == round;
  }

  // ---------------------------------------------------------------------------
  // Fairness

  /** The positions of the proposers of `all` consecutive rounds. */
  ghost function Turns(offset: int, round: int, all: nat): (ps: seq<nat>)
    requires all >= 1
    ensures |ps| == all && forall i :: 0 <= i < all ==> ps[i] == Turn(offset, round + i, all)
  {
    seq<nat>(all, i requires 0 <= i < all => Turn(offset, round + i, all))
  }

  /** Each position exactly once. */
  ghost predicate Fair(ps: seq<nat>) {
    Distinct(ps) && forall p :: 0 <= p < |ps| ==> p in ps
  }

  ghost function Positions(n: nat): (r: set<nat>)
    ensures |r| == n && forall p: nat :: p in r <==> p < n
  {
    if n == 0 then {} else Positions(n - 1) + {n - 1}
  }

  /** Distinct positions below their number are all positions. */
  lemma DistinctIsFair(ps: seq<nat>)
    requires Distinct(ps) && forall i :: 0 <= i < |ps| ==> ps[i] < |ps|
    ensures Fair(ps)
  {
    var all := Positions(|ps|);
    DistinctSize(ps);
    forall p: nat | p < |ps| ensures p in ps {
      if p !in Elements(ps) {
        SubsetSize(Elements(ps), all - {p});
        assert false;
      }
    }
  }

  lemma ModIs(a: int, n: int, q: int, r: int)
    requires n >= 1 && a == n * q + r && 0 <= r < n
    ensures a % n == r
  {
    var d := a / n;
    assert n * (q - d) == a % n - r by {
      assert n * (q - d) == n * q - n * d;
    }
    if q - d >= 1 {
      Times(n, q - d);
    } else if q - d <= -1 {
      Times(n, d - q);
    }
  }

  lemma Times(n: int, k: int)
    requires n >= 1 && k >= 1
    ensures n * k >= n
  {
  }

  /** Numbers less than `n` apart differ modulo `n`. */
  lemma NearDiffer(a: int, b: int, n: int)
    requires n >= 1 && a < b < a + n
    ensures a % n != b % n
  {
    var q := a / n;
    assert a == n * q + a % n;
    var r := a % n + (b - a);
    if r < n {
      ModIs(b, n, q, r);
    } else {
      assert n * (q + 1) == n * q + n;
      ModIs(b, n, q + 1, r - n);
    }
  }

  lemma WrapWithin(x: int)
    requires 0 <= x < 2 * UINT_MODULUS
    ensures Wrap(x) == if x < UINT_MODULUS then x else x - UINT_MODULUS
  {
    if x >= UINT_MODULUS {
      WrapShift(x - UINT_MODULUS, 1);
    }
  }

  /** The position as a function of the first sum of the window. */
  lemma TurnAt(offset: int, round: int, all: nat, i: nat)
    requires 1 <= all <= UINT_MODULUS && i < all
    ensures Turn(offset, round + i, all) == After(Wrap(offset + round), i) % all
  {
    WrapAdd(offset + round, i);
    WrapWithin(Wrap(offset + round) + i);
  }

  /** `i` steps after the sum `x`, wrapping. */
  function After(x: Uint, i: int): int {
    if x + i < UINT_MODULUS then x + i else x + i - UINT_MODULUS
  }

  lemma DividedShift(y: int, n: int, m: int)
    requires n >= 1 && n * m == UINT_MODULUS
    ensures (y + UINT_MODULUS) % n == y % n
  {
    var q := y / n;
    assert y == n * q + y % n;
    assert n * (q + m) == n * q + n * m;
    ModIs(y + UINT_MODULUS, n, q + m, y % n);
  }

  /** Without a wrap, or when the number of nodes divides 2^64, positions follow the plain sum. */
  lemma PlainAfter(x: Uint, n: int, i: int)
    requires n >= 1 && 0 <= i < n
    requires x + n <= UINT_MODULUS || UINT_MODULUS % n == 0
    ensures After(x, i) % n == (x + i) % n
  {
    if x + i >= UINT_MODULUS {
      DividedShift(x + i - UINT_MODULUS, n, UINT_MODULUS / n);
    }
  }

  /** Two of the positions coincide if the sum wraps inside the window and the number of nodes does not
      divide 2^64. */
  lemma WrapCoincides(x: Uint, n: int) returns (i: int, j: int)
    requires 1 <= n && x + n > UINT_MODULUS && UINT_MODULUS % n != 0
    ensures 0 <= i < j < n && After(x, i) % n == After(x, j) % n
  {
    var k, d, q := UINT_MODULUS - x, UINT_MODULUS % n, UINT_MODULUS / n;
    assert UINT_MODULUS == n * q + d;
    if d <= k {
      i, j := k - d, k;
      ModIs(UINT_MODULUS - d, n, q, 0);
      ModIs(0, n, 0, 0);
    } else {
      i, j := 0, d;
      ModIs(UINT_MODULUS - k, n, q, d - k);
      ModIs(d - k, n, 0, d - k);
    }
  }

  /** Round-robin fairness, exactly: for a fixed height and previous hash, as many consecutive rounds as
      there are nodes elect each node once if and only if the uint64 sum does not wrap inside them or
      the number of nodes divides 2^64. */
  lemma FairnessExactly(offset: int, round: int, all: nat)
    requires 1 <= all <= UINT_MODULUS
    ensures Fair(Turns(offset, round, all)) <==>
              Wrap(offset + round) + all <= UINT_MODULUS || UINT_MODULUS % all == 0
  {
    var ps, x := Turns(offset, round, all), Wrap(offset + round);
    forall i | 0 <= i < all ensures ps[i] == After(x, i) % all {
      TurnAt(offset, round, all, i);
    }
    if x + all <= UINT_MODULUS || UINT_MODULUS % all == 0 {
      forall i, j | 0 <= i < j < all ensures ps[i] != ps[j] {
        PlainAfter(x, all, i);
        PlainAfter(x, all, j);
        NearDiffer(x + i, x + j, all);
      }
      DistinctIsFair(ps);
    } else {
      var i, j := WrapCoincides(x, all);
    }
  }

  // ---------------------------------------------------------------------------
  // The acting set

  /** pos, asked for above the genesis block only. */
  method Proposer(n: nat, lookup: Option<Result<seq<nat>>>, height: int, round: Uint) returns (r: Result<nat>)
    requires n >= 1
    ensures height <= GENESIS_HEIGHT ==> r == Ok(0)
    ensures height > GENESIS_HEIGHT ==>
              match lookup
              case None => r == Ok(Turn(Offset([], height), round, n))
              case Some(Err) => r == Err
              case Some(Ok(hash)) => r == Ok(Turn(Offset(hash, height), round, n))
  {
    var pos: nat := 0;
    if height - 1 > PRE_GENESIS_HEIGHT {
      if lookup == Some(Err) {
        return Err;
      }
      pos := Pos(if lookup.Some? then lookup.value.value else [], height, round, n);
    }
    return Ok(pos);
  }

  /** elect, given what the manifest lookup answers (none is configured, it fails, or it has a hash).
      The acting nodes are the requested number of distinct nodes, in cyclic order from the proposer on
      (or all nodes in their own order), and include the proposer unless none is requested. */
  method Elect(nodes: seq<Address>, numberOfActing: nat, lookup: Option<Result<seq<nat>>>, height: int, round: Uint)
    returns (r: Result<(Address, seq<Address>)>)
    requires nodes != [] && Distinct(nodes)
    ensures r.Err? <==> height > GENESIS_HEIGHT && lookup == Some(Err)
    ensures r.Ok? ==>
              var previous := if lookup.Some? && lookup.value.Ok? then lookup.value.value else [];
              var pos := if height > GENESIS_HEIGHT then Turn(Offset(previous, height), round, |nodes|) else 0;
              var (proposer, acting) := r.value;
              && proposer == nodes[pos]
              && |acting| == Min(numberOfActing, |nodes|)
              && Distinct(acting)
              && (numberOfActing >= |nodes| ==> acting == nodes)
              && (numberOfActing < |nodes| ==> forall i :: 0 <= i < |acting| ==> acting[i] == nodes[(pos + i) % |nodes|])
              && (proposer in acting <==> numberOfActing >= 1)
  {
    var n := |nodes|;
    var na := if n < numberOfActing then n else numberOfActing;
    var at := Proposer(n, lookup, height, round);
    if at.Err? {
      return Err;
    }
    var pos := at.value;
    var selected := nodes;
    if n != na {
      selected := SelectFrom(nodes, pos, na);
    }
    return Ok((nodes[pos], selected));
  }

  /** `na` nodes from `pos` on, around the end if need be. */
  method SelectFrom(nodes: seq<Address>, pos: nat, na: nat) returns (selected: seq<Address>)
    requires Distinct(nodes) && pos < |nodes| && na < |nodes|
    ensures |selected| == na && Distinct(selected)
    ensures forall i :: 0 <= i < na ==> selected[i] == nodes[(pos + i) % |nodes|]
    ensures nodes[pos] in selected <==> na >= 1
  {
    selected := nodes[pos..];
    if |selected| > na {
      selected := selected[..na];
    } else if |selected| < na {
      selected := selected + nodes[..na - |selected|];
    }
    CyclicFrom(nodes, pos, na, selected);
  }

  lemma CyclicFrom(nodes: seq<Address>, pos: nat, na: nat, selected: seq<Address>)
    requires Distinct(nodes) && pos < |nodes| && na < |nodes| && |selected| == na
    requires forall i :: 0 <= i < na ==> selected[i] == nodes[Step(pos, i, |nodes|)]
    ensures forall i :: 0 <= i < na ==> selected[i] == nodes[(pos + i) % |nodes|]
    ensures Distinct(selected) && (nodes[pos] in selected <==> na >= 1)
  {
    forall i | 0 <= i < na ensures selected[i] == nodes[(pos + i) % |nodes|] {
      StepIsMod(pos, i, |nodes|);
    }
    assert na >= 1 ==> selected[0] == nodes[pos];
  }

  /** `i` places on from `pos` in a circle of `n`. */
  function Step(pos: nat, i: nat, n: nat): (p: nat)
    requires pos < n && i < n
    ensures p < n
  {
    if pos + i < n then pos + i else pos + i - n
  }

  lemma StepIsMod(pos: nat, i: nat, n: nat)
    requires pos < n && i < n
    ensures Step(pos, i, n) == (pos + i) % n
  {
    if pos + i < n {
      ModIs(pos + i, n, 0, pos + i);
    } else {
      ModIs(pos + i, n, 1, pos + i - n);
    }
  }
}
