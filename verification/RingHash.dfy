/**
 The ring_hash policy: how the ring is built from endpoint weights, how a
 request's hash finds its place on it, and which entry then serves the request.
 Weights are exact reals. The hash function is any function to the naturals.
 */
module RingSizes {
  // ----- How many entries each endpoint gets -----

  function Ceil(x: real): int { -(-x).Floor }

  lemma CeilMonotone(x: real, y: real)
    requires x <= y
    ensures Ceil(x) <= Ceil(y)
  {
  }

  lemma CeilShift(x: real, k: int)
    ensures Ceil(x + k as real) == Ceil(x) + k
  {
  }

  ghost predicate Positive(w: seq<real>) {
    forall i | 0 <= i < |w| :: w[i] > 0.0
  }

  function Total(w: seq<real>, n: nat): real
    requires n <= |w|
  {
    if n == 0 then 0.0 else Total(w, n - 1) + w[n - 1]
  }

  lemma {:induction false} TotalPositive(w: seq<real>, n: nat)
    requires Positive(w) && n <= |w|
    ensures Total(w, n) >= 0.0 && (n > 0 ==> Total(w, n) > 0.0)
  {
    if n > 0 { TotalPositive(w, n - 1); }
  }

  /** The weights divided by their sum. */
  function Normalized(w: seq<real>): (nw: seq<real>)
    requires Positive(w)
    ensures |nw| == |w|
  {
    TotalPositive(w, |w|);
    seq(|w|, i requires 0 <= i < |w| => w[i] / Total(w, |w|))
  }

  lemma {:induction false} NormalizedTotal(w: seq<real>, n: nat)
    requires Positive(w) && w != [] && n <= |w|
    ensures Total(w, |w|) > 0.0 && Total(Normalized(w), n) == Total(w, n) / Total(w, |w|)
  {
    TotalPositive(w, |w|);
    if n > 0 {
      NormalizedTotal(w, n - 1);
      DivideSum(Total(w, n - 1), w[n - 1], Total(w, |w|));
    }
  }

  lemma DivideSum(a: real, b: real, d: real)
    requires d > 0.0
    ensures (a + b) / d == a / d + b / d
  {
  }

  /** Normalized weights are positive and sum to one. */
  lemma {:induction false} NormalizedIsUnit(w: seq<real>)
    requires Positive(w) && w != []
    ensures Positive(Normalized(w)) && Total(Normalized(w), |w|) == 1.0
  {
    NormalizedTotal(w, |w|);
    SelfQuotient(Total(w, |w|));
    forall i | 0 <= i < |w| ensures Normalized(w)[i] > 0.0 {
      QuotientPositive(w[i], Total(w, |w|));
    }
  }

  lemma SelfQuotient(d: real)
    requires d > 0.0
    ensures d / d == 1.0
  {
  }

  lemma QuotientPositive(a: real, d: real)
    requires a > 0.0 && d > 0.0
    ensures a / d > 0.0
  {
  }

  function MinReal(a: real, b: real): real { if a <= b then a else b }

  /** The least of the first `n` normalized weights, at most one. */
  function Least(nw: seq<real>, n: nat): real
    requires n <= |nw|
  {
    if n == 0 then 1.0 else MinReal(nw[n - 1], Least(nw, n - 1))
  }

  lemma {:induction false} LeastIsLeast(nw: seq<real>, n: nat)
    requires Positive(nw) && n <= |nw|
    ensures 0.0 < Least(nw, n) <= 1.0 && forall i | 0 <= i < n :: Least(nw, n) <= nw[i]
  {
    if n > 0 { LeastIsLeast(nw, n - 1); }
  }

  /** What the scale would be if the ring could be as large as it likes. */
  function Uncapped(least: real, minRingSize: nat): real
    requires least > 0.0
  {
    Ceil(least * minRingSize as real) as real / least
  }

  function Scale(least: real, minRingSize: nat, maxRingSize: nat): real
    requires least > 0.0
  {
    MinReal(Uncapped(least, minRingSize), maxRingSize as real)
  }

  lemma UncappedScalesLeastToWhole(least: real, minRingSize: nat)
    requires least > 0.0
    ensures Uncapped(least, minRingSize) * least == Ceil(least * minRingSize as real) as real
    ensures Uncapped(least, minRingSize) >= minRingSize as real
  {
  }

  /** The ring size stays within the configured bounds. */
  lemma ScaleInBounds(least: real, minRingSize: nat, maxRingSize: nat)
    requires least > 0.0
    ensures Scale(least, minRingSize, maxRingSize) <= maxRingSize as real
    ensures minRingSize <= maxRingSize ==> minRingSize as real <= Scale(least, minRingSize, maxRingSize)
    ensures Scale(least, minRingSize, maxRingSize) >= 0.0
  {
  }

  /** How many hashes the first `n` endpoints should have, before rounding up. */
  function Target(nw: seq<real>, scale: real, n: nat): real
    requires n <= |nw|
  {
    scale * Total(nw, n)
  }

  /** How many entries endpoint `i` gets. */
  function Share(nw: seq<real>, scale: real, i: nat): int
    requires i < |nw|
  {
    Ceil(Target(nw, scale, i + 1)) - Ceil(Target(nw, scale, i))
  }

  function Shares(nw: seq<real>, scale: real, n: nat): int
    requires n <= |nw|
  {
    if n == 0 then 0 else Shares(nw, scale, n - 1) + Share(nw, scale, n - 1)
  }

  lemma TargetStep(nw: seq<real>, scale: real, i: nat)
    requires i < |nw|
    ensures Target(nw, scale, i + 1) == Target(nw, scale, i) + scale * nw[i]
  {
  }

  lemma TargetOfNone(nw: seq<real>, scale: real)
    ensures Target(nw, scale, 0) == 0.0
  {
  }

  lemma Product(a: real, b: real)
    requires a >= 0.0 && b >= 0.0
    ensures a * b >= 0.0
  {
  }

  lemma TargetGrows(nw: seq<real>, scale: real, i: nat)
    requires Positive(nw) && scale >= 0.0 && i < |nw|
    ensures Target(nw, scale, i) <= Target(nw, scale, i + 1)
    ensures Share(nw, scale, i) >= 0
  {
  }

  lemma {:induction false} SharesTelescope(nw: seq<real>, scale: real, n: nat)
    requires n <= |nw|
    ensures Shares(nw, scale, n) == Ceil(Target(nw, scale, n))
  {
    if n > 0 { SharesTelescope(nw, scale, n - 1); }
  }

  /** Together the endpoints get exactly ceil(scale) entries. */
  lemma {:induction false} RingHasCeilScale(w: seq<real>, scale: real)
    requires Positive(w) && w != []
    ensures Shares(Normalized(w), scale, |w|) == Ceil(scale)
  {
    NormalizedIsUnit(w);
    SharesTelescope(Normalized(w), scale, |w|);
  }

  ghost predicate Proportional(count: int, nw: seq<real>, scale: real, i: nat)
    requires i < |nw|
  {
    scale * nw[i] - 1.0 < count as real < scale * nw[i] + 1.0
  }

  /** Each endpoint's entries are within one of its proportional share. */
  lemma ShareIsProportional(nw: seq<real>, scale: real, i: nat)
    requires i < |nw|
    ensures Proportional(Share(nw, scale, i), nw, scale, i)
  {
  }

  /** A share that is a whole number is met exactly. */
  lemma WholeShareIsExact(nw: seq<real>, scale: real, i: nat, k: int)
    requires i < |nw| && scale * nw[i] == k as real
    ensures Share(nw, scale, i) == k
  {
  }

  /** A whole number `k` with `lo <= k < hi`. */
  predicate Within(lo: real, k: int, hi: real) { lo <= k as real < hi }

  ghost predicate WholeBetween(lo: real, hi: real) { exists k: int :: Within(lo, k, hi) }

  /** A whole number lies in endpoint `i`'s stretch of the running target. */
  ghost predicate HasWhole(nw: seq<real>, scale: real, i: nat)
    requires i < |nw|
  {
    WholeBetween(Target(nw, scale, i), Target(nw, scale, i + 1))
  }

  /** That is exactly when the endpoint has an entry. */
  lemma OnRingIffWhole(nw: seq<real>, scale: real, i: nat)
    requires i < |nw|
    ensures Share(nw, scale, i) >= 1 <==> HasWhole(nw, scale, i)
  {
    var lo, hi := Target(nw, scale, i), Target(nw, scale, i + 1);
    if Share(nw, scale, i) >= 1 {
      assert Within(lo, Ceil(lo), hi);
    }
    forall k: int | Within(lo, k, hi) ensures Ceil(lo) <= k < Ceil(hi) {
    }
  }

  /** An endpoint whose proportional share is at least one has an entry. */
  lemma WholeShareHasEntry(nw: seq<real>, scale: real, i: nat)
    requires i < |nw| && scale * nw[i] >= 1.0
    ensures Share(nw, scale, i) >= 1
  {
    TargetStep(nw, scale, i);
    CeilShift(Target(nw, scale, i), 1);
    CeilMonotone(Target(nw, scale, i) + 1.0, Target(nw, scale, i + 1));
  }

  lemma LeastHasEntry(least: real, minRingSize: nat)
    requires least > 0.0 && minRingSize > 0
    ensures Ceil(least * minRingSize as real) >= 1
  {
    Product(least, minRingSize as real - 1.0);
  }

  lemma UncappedScale(least: real, minRingSize: nat, maxRingSize: nat)
    requires least > 0.0 && Uncapped(least, minRingSize) <= maxRingSize as real
    ensures var scale := Scale(least, minRingSize, maxRingSize);
            scale >= 0.0 && scale * least == Ceil(least * minRingSize as real) as real
  {
    UncappedScalesLeastToWhole(least, minRingSize);
  }

  lemma ShareFromLeast(nw: seq<real>, scale: real, least: real, k: int, i: nat)
    requires i < |nw| && scale >= 0.0 && nw[i] >= least && scale * least == k as real && k >= 1
    ensures scale * nw[i] >= 1.0 && Share(nw, scale, i) >= 1 && (nw[i] == least ==> Share(nw, scale, i) == k)
  {
    Product(scale, nw[i] - least);
    WholeShareHasEntry(nw, scale, i);
    if nw[i] == least { WholeShareIsExact(nw, scale, i, k); }
  }

  /** Unless the maximum size cuts the ring short that is every endpoint, and the
      lightest has exactly as many entries as its share of the minimum size,
      rounded up. */
  lemma {:induction false} EveryEndpointOnRing(nw: seq<real>, minRingSize: nat, maxRingSize: nat, i: nat)
    requires Positive(nw) && i < |nw| && minRingSize > 0
    requires var least := Least(nw, |nw|); least > 0.0 && Uncapped(least, minRingSize) <= maxRingSize as real
    ensures var least := Least(nw, |nw|);
            var scale := Scale(least, minRingSize, maxRingSize);
            && scale * nw[i] >= 1.0 && Share(nw, scale, i) >= 1
            && (nw[i] == least ==> Share(nw, scale, i) == Ceil(least * minRingSize as real))
  {
    var least := Least(nw, |nw|);
    var scale := Scale(least, minRingSize, maxRingSize);
    LeastIsLeast(nw, |nw|);
    UncappedScale(least, minRingSize, maxRingSize);
    LeastHasEntry(least, minRingSize);
    ShareFromLeast(nw, scale, least, Ceil(least * minRingSize as real), i);
  }

  /** A ring cut short by the maximum may lose an endpoint: one of two equal ones,
      where there is room for one. */
  lemma CappedRingMayMissEndpoints()
    ensures var nw := Normalized([1.0, 1.0]);
            && Least(nw, 2) > 0.0 && Uncapped(Least(nw, 2), 1) > 1.0
            && Share(nw, Scale(Least(nw, 2), 1, 1), 1) == 0
  {
    var nw := HalfEach();
    assert Uncapped(0.5, 1) == 2.0;
    assert Target(nw, 1.0, 1) == 0.5 && Target(nw, 1.0, 2) == 1.0;
  }

  /** Or not: with room for three of the four entries asked for, both are there. */
  lemma CappedRingMayKeepEndpoints()
    ensures var nw := Normalized([1.0, 1.0]);
            && Least(nw, 2) > 0.0 && Uncapped(Least(nw, 2), 4) > 3.0
            && Share(nw, Scale(Least(nw, 2), 4, 3), 0) == 2 && Share(nw, Scale(Least(nw, 2), 4, 3), 1) == 1
  {
    var nw := HalfEach();
    ScaleOfThree();
    SharesOfThree(nw);
  }

  lemma ScaleOfThree()
    ensures Uncapped(0.5, 4) == 4.0 && Scale(0.5, 4, 3) == 3.0
  {
  }

  lemma {:induction false} SharesOfThree(nw: seq<real>)
    requires |nw| == 2 && Total(nw, 0) == 0.0 && Total(nw, 1) == 0.5 && Total(nw, 2) == 1.0
    ensures Share(nw, 3.0, 0) == 2 && Share(nw, 3.0, 1) == 1
  {
    assert Target(nw, 3.0, 0) == 0.0 && Target(nw, 3.0, 1) == 1.5 && Target(nw, 3.0, 2) == 3.0;
  }

  lemma HalfEach() returns (nw: seq<real>)
    ensures nw == Normalized([1.0, 1.0]) && nw == [0.5, 0.5] && Least(nw, 2) == 0.5
    ensures Total(nw, 0) == 0.0 && Total(nw, 1) == 0.5 && Total(nw, 2) == 1.0
  {
    nw := Normalized([1.0, 1.0]);
    assert Total([1.0, 1.0], 2) == 2.0;
    assert nw == [0.5, 0.5];
    assert Least(nw, 1) == 0.5;
    assert Total(nw, 1) == 0.5;
  }
}

module RingHash {
  import opened Common
  import opened RingSizes

  /** The hashes come from the first address. */
  datatype Endpoint = Endpoint(key: EndpointKey, firstAddress: string, weight: real)

  class LeafLoadBalancer {
    const key: EndpointKey
    var state: ConnectivityState
    var connectRequests: nat

    constructor (key: EndpointKey)
      ensures this.key == key && state == IDLE && connectRequests == 0
    {
      this.key := key;
      state := IDLE;
      connectRequests := 0;
    }

    method StartConnecting()
      modifies this`connectRequests
      ensures connectRequests == old(connectRequests) + 1
    {
      connectRequests := connectRequests + 1;
    }
  }

  datatype RingEntry = RingEntry(hash: int, leafBalancer: LeafLoadBalancer)

  ghost predicate SortedByHash(ring: seq<RingEntry>) {
    forall i, j | 0 <= i < j < |ring| :: ring[i].hash <= ring[j].hash
  }

  // ----- Sorting the ring -----

  /** Behind the entries with the same hash: the sort is stable. */
  function Insert(ring: seq<RingEntry>, e: RingEntry): seq<RingEntry> {
    if ring == [] || ring[|ring| - 1].hash <= e.hash then ring + [e]
    else Insert(ring[..|ring| - 1], e) + [ring[|ring| - 1]]
  }

  function SortByHash(ring: seq<RingEntry>): seq<RingEntry> {
    if ring == [] then [] else Insert(SortByHash(ring[..|ring| - 1]), ring[|ring| - 1])
  }

  /** How many entries satisfy `p`. */
  function Count(ring: seq<RingEntry>, p: RingEntry -> bool): nat {
    if ring == [] then 0
    else Count(ring[..|ring| - 1], p) + if p(ring[|ring| - 1]) then 1 else 0
  }

  lemma {:induction false} CountAppend(a: seq<RingEntry>, b: seq<RingEntry>, p: RingEntry -> bool)
    ensures Count(a + b, p) == Count(a, p) + Count(b, p)
  {
    if b == [] {
      assert a + b == a;
    } else {
      CountAppend(a, b[..|b| - 1], p);
      assert (a + b)[..|a + b| - 1] == a + b[..|b| - 1];
    }
  }

  lemma {:induction false} InsertCounts(ring: seq<RingEntry>, e: RingEntry, p: RingEntry -> bool)
    ensures |Insert(ring, e)| == |ring| + 1
    ensures Count(Insert(ring, e), p) == Count(ring, p) + if p(e) then 1 else 0
  {
    if ring == [] || ring[|ring| - 1].hash <= e.hash {
      assert (ring + [e])[..|ring|] == ring;
    } else {
      var front, last := ring[..|ring| - 1], ring[|ring| - 1];
      InsertCounts(front, e, p);
      assert (Insert(front, e) + [last])[..|ring|] == Insert(front, e);
    }
  }

  lemma {:induction false} InsertSorts(ring: seq<RingEntry>, e: RingEntry)
    requires SortedByHash(ring)
    ensures SortedByHash(Insert(ring, e)) && |Insert(ring, e)| == |ring| + 1
    ensures Insert(ring, e)[|ring|] == e || (ring != [] && Insert(ring, e)[|ring|] == ring[|ring| - 1])
  {
    if ring != [] && ring[|ring| - 1].hash > e.hash {
      InsertSorts(ring[..|ring| - 1], e);
    }
  }

  /** The stored ring is a sorted rearrangement of the generated one. */
  lemma {:induction false} SortIsSortedPermutation(ring: seq<RingEntry>, p: RingEntry -> bool)
    ensures SortedByHash(SortByHash(ring)) && |SortByHash(ring)| == |ring|
    ensures Count(SortByHash(ring), p) == Count(ring, p)
  {
    if ring != [] {
      SortIsSortedPermutation(ring[..|ring| - 1], p);
      InsertSorts(SortByHash(ring[..|ring| - 1]), ring[|ring| - 1]);
      InsertCounts(SortByHash(ring[..|ring| - 1]), ring[|ring| - 1], p);
    }
  }

  // ----- Finding a hash's place -----

  /** The least index whose hash is at least `hash`, or 0 if there is none. */
  ghost predicate IsPlace(ring: seq<RingEntry>, hash: int, index: nat) {
    || (index < |ring| && ring[index].hash >= hash && forall i | 0 <= i < index :: ring[i].hash < hash)
    || (index == 0 && forall i | 0 <= i < |ring| :: ring[i].hash < hash)
  }

  datatype PickResult = Delegated(leafBalancer: LeafLoadBalancer) | Queue | Failure

  predicate Usable(state: ConnectivityState) {
    state == READY || state == IDLE || state == CONNECTING
  }

  class RingHashPicker {
    const ring: seq<RingEntry>

    constructor (ring: seq<RingEntry>)
      ensures this.ring == ring
    {
      this.ring := ring;
    }

    method FindIndexForHash(hash: int) returns (index: nat)
      requires SortedByHash(ring)
      ensures IsPlace(ring, hash, index)
    {
      var low, high := 0, |ring|;
      index := 0;
      while low <= high
        invariant 0 <= low <= high <= |ring|
        invariant forall i | 0 <= i < low :: ring[i].hash < hash
        invariant high < |ring| ==> hash <= ring[high].hash
        decreases high - low + 1
      {
        index := (low + high) / 2;
        if index == |ring| {
          index := 0;
          break;
        }
        var midval := ring[index].hash;
        var midval1 := if index == 0 then 0 else ring[index - 1].hash;
        if hash <= midval && hash > midval1 {
          break;
        }
        if midval < hash {
          low := index + 1;
        } else {
          high := index - 1;
        }
        if low > high {
          index := 0;
          break;
        }
      }
    }

    /** Position `i` of the ring read circularly from `start`. */
    function At(start: nat, i: nat): (leaf: LeafLoadBalancer)
      requires ring != []
      ensures exists k | 0 <= k < |ring| :: ring[k].leafBalancer == leaf
    {
      ring[(start + i) % |ring|].leafBalancer
    }

    ghost predicate FirstUsable(start: nat, i: nat)
      requires ring != []
      reads set e | e in ring :: e.leafBalancer
    {
      && i < |ring|
      && Usable(At(start, i).state)
      && forall j: nat | j < i :: !Usable(At(start, j).state)
    }

    /** The entry for the hash, or the first one after it on the circle, that is
        READY, IDLE or CONNECTING serves the call; a call fails only when there is
        none. An IDLE entry is asked to connect, and nothing else changes. */
    method Pick(hash: int) returns (result: PickResult)
      requires SortedByHash(ring)
      modifies (set e | e in ring :: e.leafBalancer)`connectRequests
      ensures result.Failure? <==> forall i | 0 <= i < |ring| :: !Usable(ring[i].leafBalancer.state)
      ensures result.Failure? ==> forall i | 0 <= i < |ring| ::
                ring[i].leafBalancer.connectRequests == old(ring[i].leafBalancer.connectRequests)
      ensures !result.Failure? ==> exists start: nat, i: nat ::
                && ring != [] && IsPlace(ring, hash, start) && FirstUsable(start, i)
                && var leaf := At(start, i);
                   && result == (if leaf.state == READY then Delegated(leaf) else Queue)
                   && forall k | 0 <= k < |ring| :: var l := ring[k].leafBalancer;
                        l.connectRequests == old(l.connectRequests) + if l == leaf && leaf.state == IDLE then 1 else 0
    {
      var firstIndex := FindIndexForHash(hash);
      for i := 0 to |ring|
        invariant forall j: nat | j < i :: !Usable(At(firstIndex, j).state)
        invariant forall k | 0 <= k < |ring| ::
                    ring[k].leafBalancer.connectRequests == old(ring[k].leafBalancer.connectRequests)
      {
        var index := (firstIndex + i) % |ring|;
        assert ring[index].leafBalancer == At(firstIndex, i);
        var entryState := ring[index].leafBalancer.state;
        if entryState == READY {
          assert FirstUsable(firstIndex, i);
          return Delegated(ring[index].leafBalancer);
        }
        if entryState == IDLE {
          assert FirstUsable(firstIndex, i);
          ring[index].leafBalancer.StartConnecting();
          assert FirstUsable(firstIndex, i);
          return Queue;
        }
        if entryState == CONNECTING {
          assert FirstUsable(firstIndex, i);
          return Queue;
        }
      }
      forall k | 0 <= k < |ring| ensures !Usable(ring[k].leafBalancer.state) {
        var i := if k >= firstIndex then k - firstIndex else k + |ring| - firstIndex;
        Wraps(firstIndex + i, |ring|);
        assert At(firstIndex, i) == ring[k].leafBalancer;
      }
      return Failure;
    }
  }

  lemma Wraps(x: nat, n: nat)
    requires x < 2 * n
    ensures x % n == if x < n then x else x - n
  {
  }

  lemma PlaceIsUnique(ring: seq<RingEntry>, hash: int, a: nat, b: nat)
    requires IsPlace(ring, hash, a) && IsPlace(ring, hash, b)
    ensures a == b
  {
  }

  // ----- The generated ring -----

  /** The leaf for a key, as EndpointMap.get finds it. */
  function Find(leaves: seq<LeafLoadBalancer>, key: EndpointKey): (leaf: Option<LeafLoadBalancer>)
    ensures leaf.None? <==> forall l | l in leaves :: l.key != key
    ensures leaf.Some? ==> leaf.value in leaves && leaf.value.key == key
  {
    if leaves == [] then None
    else if leaves[|leaves| - 1].key == key then Some(leaves[|leaves| - 1])
    else Find(leaves[..|leaves| - 1], key)
  }

  /** One endpoint's entries. */
  function Copies(hash: (string, nat) -> nat, address: string, leaf: LeafLoadBalancer, count: int): seq<RingEntry> {
    if count <= 0 then []
    else Copies(hash, address, leaf, count - 1) + [RingEntry(hash(address, count - 1), leaf)]
  }

  ghost predicate AllFound(leaves: seq<LeafLoadBalancer>, endpoints: seq<Endpoint>, n: nat)
    requires n <= |endpoints|
  {
    forall i | 0 <= i < n :: Find(leaves, endpoints[i].key).Some?
  }

  /** The entries of the first `n` endpoints, each with its share. */
  ghost function Generated(hash: (string, nat) -> nat, leaves: seq<LeafLoadBalancer>, endpoints: seq<Endpoint>,
                           nw: seq<real>, scale: real, n: nat): seq<RingEntry>
    requires n <= |endpoints| == |nw| && AllFound(leaves, endpoints, n)
  {
    if n == 0 then []
    else Generated(hash, leaves, endpoints, nw, scale, n - 1)
         + Copies(hash, endpoints[n - 1].firstAddress, Find(leaves, endpoints[n - 1].key).value,
                  Share(nw, scale, n - 1))
  }

  function OfLeaf(leaf: LeafLoadBalancer): RingEntry -> bool { (e: RingEntry) => e.leafBalancer == leaf }

  lemma {:induction false} CountCopies(hash: (string, nat) -> nat, address: string, leaf: LeafLoadBalancer, count: nat,
                                       of: LeafLoadBalancer)
    ensures |Copies(hash, address, leaf, count)| == count
    ensures Count(Copies(hash, address, leaf, count), OfLeaf(of)) == if of == leaf then count else 0
  {
    if count > 0 {
      CountCopies(hash, address, leaf, count - 1, of);
      var c := Copies(hash, address, leaf, count);
      assert c[..count - 1] == Copies(hash, address, leaf, count - 1);
    }
  }

  ghost predicate DistinctKeys(endpoints: seq<Endpoint>) {
    forall i, j | 0 <= i < j < |endpoints| :: endpoints[i].key != endpoints[j].key
  }

  lemma {:induction false} CountGenerated(hash: (string, nat) -> nat, leaves: seq<LeafLoadBalancer>,
                                          endpoints: seq<Endpoint>,
                                          nw: seq<real>, scale: real, n: nat, k: nat)
    requires n <= |endpoints| == |nw| && AllFound(leaves, endpoints, |endpoints|) && DistinctKeys(endpoints)
             && k < |endpoints|
    requires Positive(nw) && scale >= 0.0
    ensures |Generated(hash, leaves, endpoints, nw, scale, n)| == Shares(nw, scale, n)
    ensures Count(Generated(hash, leaves, endpoints, nw, scale, n), OfLeaf(Find(leaves, endpoints[k].key).value))
            == if k < n then Share(nw, scale, k) else 0
  {
    if n > 0 {
      CountGenerated(hash, leaves, endpoints, nw, scale, n - 1, k);
      TargetGrows(nw, scale, n - 1);
      var leaf, of := Find(leaves, endpoints[n - 1].key).value, Find(leaves, endpoints[k].key).value;
      var share := Share(nw, scale, n - 1);
      CountCopies(hash, endpoints[n - 1].firstAddress, leaf, share, of);
      CountAppend(Generated(hash, leaves, endpoints, nw, scale, n - 1),
                  Copies(hash, endpoints[n - 1].firstAddress, leaf, share), OfLeaf(of));
      assert of == leaf <==> k == n - 1;
    }
  }

  /** The ring that an update's endpoints and weights call for. */
  ghost function Ring(hash: (string, nat) -> nat, leaves: seq<LeafLoadBalancer>, endpoints: seq<Endpoint>,
                      w: seq<real>, minRingSize: nat, maxRingSize: nat): seq<RingEntry>
    requires Positive(w) && |w| == |endpoints| && AllFound(leaves, endpoints, |endpoints|)
  {
    SortByHash(Generated(hash, leaves, endpoints, Normalized(w), RingScale(w, minRingSize, maxRingSize), |w|))
  }

  /** The ring that is built: that one, or none if a weight is zero. */
  ghost predicate IsRingOf(ring: seq<RingEntry>, hash: (string, nat) -> nat, leaves: seq<LeafLoadBalancer>,
                           endpoints: seq<Endpoint>, w: seq<real>, minRingSize: nat, maxRingSize: nat)
    requires |w| == |endpoints| && AllFound(leaves, endpoints, |endpoints|)
  {
    if 0.0 in w then ring == []
    else Positive(w) && ring == Ring(hash, leaves, endpoints, w, minRingSize, maxRingSize)
  }

  function RingScale(w: seq<real>, minRingSize: nat, maxRingSize: nat): real
    requires Positive(w)
  {
    PositiveLeast(w);
    Scale(Least(Normalized(w), |w|), minRingSize, maxRingSize)
  }

  lemma {:induction false} PositiveLeast(w: seq<real>)
    requires Positive(w)
    ensures Least(Normalized(w), |w|) > 0.0 && Positive(Normalized(w))
  {
    if w != [] { NormalizedIsUnit(w); }
    LeastIsLeast(Normalized(w), |w|);
  }

  lemma RingScaleInBounds(w: seq<real>, minRingSize: nat, maxRingSize: nat)
    requires Positive(w)
    ensures 0.0 <= RingScale(w, minRingSize, maxRingSize) <= maxRingSize as real
    ensures minRingSize <= maxRingSize ==> minRingSize as real <= RingScale(w, minRingSize, maxRingSize)
  {
    PositiveLeast(w);
    ScaleInBounds(Least(Normalized(w), |w|), minRingSize, maxRingSize);
  }

  /** How many of the ring's entries are endpoint `k`'s. */
  lemma {:induction false} RingCounts(hash: (string, nat) -> nat, leaves: seq<LeafLoadBalancer>,
                                      endpoints: seq<Endpoint>, w: seq<real>, minRingSize: nat, maxRingSize: nat,
                                      k: nat)
    requires Positive(w) && |w| == |endpoints| && AllFound(leaves, endpoints, |endpoints|) && DistinctKeys(endpoints)
    requires k < |endpoints|
    ensures var ring := Ring(hash, leaves, endpoints, w, minRingSize, maxRingSize);
            var scale := RingScale(w, minRingSize, maxRingSize);
            && SortedByHash(ring) && |ring| == Shares(Normalized(w), scale, |w|)
            && Count(ring, OfLeaf(Find(leaves, endpoints[k].key).value)) == Share(Normalized(w), scale, k)
  {
    var nw, scale := Normalized(w), RingScale(w, minRingSize, maxRingSize);
    PositiveLeast(w);
    RingScaleInBounds(w, minRingSize, maxRingSize);
    CountGenerated(hash, leaves, endpoints, nw, scale, |w|, k);
    SortIsSortedPermutation(Generated(hash, leaves, endpoints, nw, scale, |w|),
                            OfLeaf(Find(leaves, endpoints[k].key).value));
  }

  /** The stored ring: sorted, of size ceil(scale), with the scale between the
      configured bounds. */
  lemma RingIsSortedAndSized(hash: (string, nat) -> nat, leaves: seq<LeafLoadBalancer>, endpoints: seq<Endpoint>,
                             w: seq<real>, minRingSize: nat, maxRingSize: nat)
    requires Positive(w) && w != [] && |w| == |endpoints|
    requires AllFound(leaves, endpoints, |endpoints|) && DistinctKeys(endpoints)
    ensures var ring := Ring(hash, leaves, endpoints, w, minRingSize, maxRingSize);
            var scale := RingScale(w, minRingSize, maxRingSize);
            && SortedByHash(ring) && |ring| == Ceil(scale)
            && scale <= maxRingSize as real && (minRingSize <= maxRingSize ==> minRingSize as real <= scale)
  {
    RingCounts(hash, leaves, endpoints, w, minRingSize, maxRingSize, 0);
    RingScaleInBounds(w, minRingSize, maxRingSize);
    RingHasCeilScale(w, RingScale(w, minRingSize, maxRingSize));
  }

  /** Each endpoint has, within one entry, its weight's share of the ring. */
  lemma {:induction false} RingIsProportional(hash: (string, nat) -> nat, leaves: seq<LeafLoadBalancer>,
                                              endpoints: seq<Endpoint>, w: seq<real>, minRingSize: nat,
                                              maxRingSize: nat, k: nat)
    requires Positive(w) && |w| == |endpoints| && AllFound(leaves, endpoints, |endpoints|) && DistinctKeys(endpoints)
    requires k < |endpoints|
    ensures Proportional(Count(Ring(hash, leaves, endpoints, w, minRingSize, maxRingSize),
                               OfLeaf(Find(leaves, endpoints[k].key).value)),
                         Normalized(w), RingScale(w, minRingSize, maxRingSize), k)
  {
    RingCounts(hash, leaves, endpoints, w, minRingSize, maxRingSize, k);
    ShareIsProportional(Normalized(w), RingScale(w, minRingSize, maxRingSize), k);
  }

  lemma {:induction false} Counted(ring: seq<RingEntry>, leaf: LeafLoadBalancer)
    ensures Count(ring, OfLeaf(leaf)) > 0 <==> OnRing(ring, leaf)
  {
    if ring != [] {
      var front := ring[..|ring| - 1];
      Counted(front, leaf);
      if OnRing(front, leaf) {
        var i :| 0 <= i < |front| && front[i].leafBalancer == leaf;
        assert ring[i].leafBalancer == leaf;
      }
    }
  }

  ghost predicate OnRing(ring: seq<RingEntry>, leaf: LeafLoadBalancer) {
    exists i | 0 <= i < |ring| :: ring[i].leafBalancer == leaf
  }

  /** An endpoint's leaf is on the ring exactly if a whole number lies in its
      stretch of the running target. */
  lemma {:induction false} LeafOnRingIffWhole(hash: (string, nat) -> nat, leaves: seq<LeafLoadBalancer>,
                                              endpoints: seq<Endpoint>, w: seq<real>, minRingSize: nat,
                                              maxRingSize: nat, k: nat)
    requires Positive(w) && |w| == |endpoints|
    requires AllFound(leaves, endpoints, |endpoints|) && DistinctKeys(endpoints) && k < |endpoints|
    ensures OnRing(Ring(hash, leaves, endpoints, w, minRingSize, maxRingSize), Find(leaves, endpoints[k].key).value)
            <==> HasWhole(Normalized(w), RingScale(w, minRingSize, maxRingSize), k)
  {
    RingCounts(hash, leaves, endpoints, w, minRingSize, maxRingSize, k);
    Counted(Ring(hash, leaves, endpoints, w, minRingSize, maxRingSize), Find(leaves, endpoints[k].key).value);
    OnRingIffWhole(Normalized(w), RingScale(w, minRingSize, maxRingSize), k);
  }

  /** If the maximum does not cut the ring short, every endpoint's leaf is on it. */
  lemma {:induction false} RingHasEveryLeaf(hash: (string, nat) -> nat, leaves: seq<LeafLoadBalancer>,
                                            endpoints: seq<Endpoint>, w: seq<real>, minRingSize: nat, maxRingSize: nat,
                                            k: nat)
    requires Positive(w) && |w| == |endpoints|
    requires AllFound(leaves, endpoints, |endpoints|) && DistinctKeys(endpoints) && k < |endpoints|
    requires minRingSize > 0 && Least(Normalized(w), |w|) > 0.0
    requires Uncapped(Least(Normalized(w), |w|), minRingSize) <= maxRingSize as real
    ensures OnRing(Ring(hash, leaves, endpoints, w, minRingSize, maxRingSize), Find(leaves, endpoints[k].key).value)
  {
    PositiveLeast(w);
    EveryEndpointOnRing(Normalized(w), minRingSize, maxRingSize, k);
    OnRingIffWhole(Normalized(w), RingScale(w, minRingSize, maxRingSize), k);
    LeafOnRingIffWhole(hash, leaves, endpoints, w, minRingSize, maxRingSize, k);
  }

  /** Only endpoints' leaves are on the ring. */
  lemma {:induction false} GeneratedLeaf(hash: (string, nat) -> nat, leaves: seq<LeafLoadBalancer>,
                                         endpoints: seq<Endpoint>,
                                         nw: seq<real>, scale: real, n: nat, leaf: LeafLoadBalancer) returns (k: nat)
    requires n <= |endpoints| == |nw| && AllFound(leaves, endpoints, n)
    requires Count(Generated(hash, leaves, endpoints, nw, scale, n), OfLeaf(leaf)) > 0
    ensures k < n && Find(leaves, endpoints[k].key).value == leaf
  {
    k := n - 1;
    var own := Find(leaves, endpoints[k].key).value;
    if own != leaf {
      var share := Share(nw, scale, k);
      CountAppend(Generated(hash, leaves, endpoints, nw, scale, k),
                  Copies(hash, endpoints[k].firstAddress, own, share), OfLeaf(leaf));
      if share >= 0 { CountCopies(hash, endpoints[k].firstAddress, own, share, leaf); }
      k := GeneratedLeaf(hash, leaves, endpoints, nw, scale, n - 1, leaf);
    }
  }

  // ----- The policy -----

  /** What a leaf with this key is to weigh: the sum over its endpoints. */
  function WeightOf(endpoints: seq<Endpoint>, n: nat, key: EndpointKey): real
    requires n <= |endpoints|
  {
    if n == 0 then 0.0
    else WeightOf(endpoints, n - 1, key) + if endpoints[n - 1].key == key then endpoints[n - 1].weight else 0.0
  }

  datatype Picker = RingHash(ring: seq<RingEntry>) | Unavailable

  ghost function CountState(leaves: seq<LeafLoadBalancer>, n: nat, s: ConnectivityState): nat
    requires n <= |leaves|
    reads leaves
  {
    if n == 0 then 0 else CountState(leaves, n - 1, s) + if leaves[n - 1].state == s then 1 else 0
  }

  class RingHashLoadBalancer {
    const hash: (string, nat) -> nat
    const ringHashSizeCap: nat
    var leafMap: seq<LeafLoadBalancer>
    var leafWeightMap: map<EndpointKey, real>
    var ring: seq<RingEntry>
    var updatesPaused: bool
    var currentState: ConnectivityState

    constructor (hash: (string, nat) -> nat, ringHashSizeCap: nat)
      ensures leafMap == [] && leafWeightMap == map[] && ring == [] && !updatesPaused && currentState == IDLE
      ensures this.hash == hash && this.ringHashSizeCap == ringHashSizeCap
    {
      this.hash := hash;
      this.ringHashSizeCap := ringHashSizeCap;
      leafMap, leafWeightMap, ring, updatesPaused, currentState := [], map[], [], false, IDLE;
    }

    function WeightFor(e: Endpoint): real
      reads this
    {
      if e.key in leafWeightMap then leafWeightMap[e.key] else 1.0
    }

    /** The hash function has loaded: builds the ring and resumes reporting. If
        building throws, reporting stays paused. */
    method HashLoaded(deduped: seq<Endpoint>, minSize: nat, maxSize: nat)
      returns (report: Option<(ConnectivityState, Picker)>, ghost w: seq<real>)
      requires forall e | e in deduped :: WeightFor(e) >= 0.0
      modifies this`ring, this`updatesPaused, this`currentState
      ensures |w| == |deduped| && forall i | 0 <= i < |w| :: w[i] == WeightFor(deduped[i])
      ensures report.Some? <==> AllFound(leafMap, deduped, |deduped|)
      ensures report.None? ==> updatesPaused == old(updatesPaused) && currentState == old(currentState)
      ensures report.Some? ==>
                && !updatesPaused && currentState == Aggregate(leafMap)
                && IsRingOf(ring, hash, leafMap, deduped, w, Min(minSize, ringHashSizeCap),
                            Min(maxSize, ringHashSizeCap))
                && report.value
                   == (currentState, if currentState == TRANSIENT_FAILURE then Unavailable else RingHash(ring))
    {
      report := None;
      var built;
      built, w := ConstructRing(deduped, minSize, maxSize);
      if built {
        updatesPaused := false;
        report := CalculateAndUpdateState();
      }
    }

    /** The weights of the endpoints, and their sum. */
    method CollectWeights(endpointList: seq<Endpoint>) returns (weights: seq<real>, weightSum: real)
      ensures |weights| == |endpointList| && forall i | 0 <= i < |weights| :: weights[i] == WeightFor(endpointList[i])
      ensures weightSum == Total(weights, |weights|)
    {
      weights, weightSum := [], 0.0;
      for i := 0 to |endpointList|
        invariant |weights| == i && forall j | 0 <= j < i :: weights[j] == WeightFor(endpointList[j])
        invariant weightSum == Total(weights, i)
      {
        var weight := WeightFor(endpointList[i]);
        TotalPrefix(weights, [weight], i);
        weights := weights + [weight];
        weightSum := weightSum + weight;
      }
    }

    /** Builds the ring; throws when an endpoint has lost its leaf to a later
        update, which leaves a partial, unsorted ring behind. A weight of zero makes
        the scale 0/0, which no count of hashes is below: the ring stays empty. */
    method ConstructRing(endpointList: seq<Endpoint>, minSize: nat, maxSize: nat)
      returns (built: bool, ghost w: seq<real>)
      requires forall e | e in endpointList :: WeightFor(e) >= 0.0
      modifies this`ring
      ensures |w| == |endpointList| && forall i | 0 <= i < |w| :: w[i] == WeightFor(endpointList[i])
      ensures built <==> AllFound(leafMap, endpointList, |endpointList|)
      ensures built ==>
                IsRingOf(ring, hash, leafMap, endpointList, w, Min(minSize, ringHashSizeCap),
                         Min(maxSize, ringHashSizeCap))
    {
      ring := [];
      var weights, weightSum := CollectWeights(endpointList);
      w := weights;
      assert forall i | 0 <= i < |w| :: endpointList[i] in endpointList;
      if 0.0 in weights {
        built := HasAllLeaves(endpointList);
        return;
      }
      var nw, minNormalizedWeight := NormalizeWeights(weights, weightSum);
      var scale := Scale(minNormalizedWeight, Min(minSize, ringHashSizeCap), Min(maxSize, ringHashSizeCap));
      ScaleInBounds(minNormalizedWeight, Min(minSize, ringHashSizeCap), Min(maxSize, ringHashSizeCap));
      built := FillRing(endpointList, nw, scale);
      if built {
        ring := SortByHash(ring);
      }
    }

    method HasAllLeaves(endpointList: seq<Endpoint>) returns (found: bool)
      ensures found <==> AllFound(leafMap, endpointList, |endpointList|)
    {
      for i := 0 to |endpointList|
        invariant AllFound(leafMap, endpointList, i)
      {
        if Find(leafMap, endpointList[i].key).None? {
          return false;
        }
      }
      return true;
    }

    /** Gives each endpoint entries until the running target is reached. */
    method FillRing(endpointList: seq<Endpoint>, nw: seq<real>, scale: real) returns (found: bool)
      requires ring == [] && |nw| == |endpointList| && Positive(nw) && scale >= 0.0
      modifies this`ring
      ensures found <==> AllFound(leafMap, endpointList, |endpointList|)
      ensures found ==> ring == Generated(hash, leafMap, endpointList, nw, scale, |nw|)
      ensures !found ==> exists i :: 0 <= i < |nw| && AllFound(leafMap, endpointList, i)
                                     && ring == Generated(hash, leafMap, endpointList, nw, scale, i)
    {
      var currentHashes := 0;
      var targetHashes := 0.0;
      TargetOfNone(nw, scale);
      for i := 0 to |endpointList|
        invariant targetHashes == Target(nw, scale, i) && currentHashes == Ceil(targetHashes)
        invariant AllFound(leafMap, endpointList, i)
        invariant ring == Generated(hash, leafMap, endpointList, nw, scale, i)
      {
        TargetStep(nw, scale, i);
        TargetGrows(nw, scale, i);
        targetHashes := targetHashes + scale * nw[i];
        var leaf := Find(leafMap, endpointList[i].key);
        if leaf.None? {
          return false;
        }
        var added := AddCopies(endpointList[i].firstAddress, leaf.value, currentHashes, targetHashes);
        currentHashes := currentHashes + added;
      }
      return true;
    }

    method AddCopies(address: string, leaf: LeafLoadBalancer, from: int, targetHashes: real) returns (count: int)
      requires from <= Ceil(targetHashes)
      modifies this`ring
      ensures count == Ceil(targetHashes) - from
      ensures ring == old(ring) + Copies(hash, address, leaf, count)
    {
      var currentHashes := from;
      count := 0;
      while currentHashes as real < targetHashes
        invariant 0 <= count && currentHashes == from + count <= Ceil(targetHashes)
        invariant ring == old(ring) + Copies(hash, address, leaf, count)
        decreases Ceil(targetHashes) - currentHashes
      {
        ring := ring + [RingEntry(hash(address, count), leaf)];
        currentHashes := currentHashes + 1;
        count := count + 1;
      }
    }

    /** Takes the new endpoints: one leaf each, old leaves kept where the endpoint
        was there before, and weights added up over repeated endpoints. The ring
        is built from `deduped` later, when the hash function has loaded. */
    method UpdateAddressList(endpointList: seq<Endpoint>) returns (deduped: seq<Endpoint>)
      requires DistinctLeaves(leafMap)
      modifies this`leafMap, this`leafWeightMap, this`updatesPaused
      ensures updatesPaused && DistinctLeaves(leafMap)
      ensures leafWeightMap == Weighed(endpointList, |endpointList|) && deduped == Deduped(endpointList, |endpointList|)
      ensures AllFound(leafMap, endpointList, |endpointList|)
      ensures forall l | l in leafMap :: HasKey(endpointList, |endpointList|, l.key) && (l in old(leafMap) || fresh(l))
      ensures forall l | l in old(leafMap) && HasKey(endpointList, |endpointList|, l.key) :: l in leafMap
    {
      updatesPaused := true;
      leafWeightMap := map[];
      deduped := [];
      for i := 0 to |endpointList|
        invariant updatesPaused && DistinctLeaves(leafMap)
        invariant leafWeightMap == Weighed(endpointList, i) && deduped == Deduped(endpointList, i)
        invariant AllFound(leafMap, endpointList, i)
        invariant forall l | l in leafMap :: l in old(leafMap) || fresh(l)
        invariant forall l | l in old(leafMap) :: l in leafMap
      {
        deduped := TakeEndpoint(endpointList, i, deduped);
      }
      ghost var all := leafMap;
      leafMap := DeleteMissing(leafMap, endpointList);
      AllFoundKept(all, leafMap, endpointList, |endpointList|);
    }

    /** One turn of the update loop. */
    method TakeEndpoint(endpointList: seq<Endpoint>, i: nat, before: seq<Endpoint>) returns (deduped: seq<Endpoint>)
      requires i < |endpointList| && DistinctLeaves(leafMap) && AllFound(leafMap, endpointList, i)
      requires leafWeightMap == Weighed(endpointList, i) && before == Deduped(endpointList, i)
      modifies this`leafMap, this`leafWeightMap
      ensures DistinctLeaves(leafMap) && AllFound(leafMap, endpointList, i + 1)
      ensures leafWeightMap == Weighed(endpointList, i + 1) && deduped == Deduped(endpointList, i + 1)
      ensures forall l | l in leafMap :: l in old(leafMap) || fresh(l)
      ensures forall l | l in old(leafMap) :: l in leafMap
    {
      var endpoint := endpointList[i];
      EnsureLeaf(endpoint.key);
      AllFoundKept(old(leafMap), leafMap, endpointList, i);
      AllFoundNext(leafMap, endpointList, i);
      WeighedIsSum(endpointList, i);
      deduped := before;
      if endpoint.key !in leafWeightMap {
        deduped := deduped + [endpoint];
      }
      leafWeightMap := AddWeight(leafWeightMap, endpoint);
    }

    method EnsureLeaf(key: EndpointKey)
      requires DistinctLeaves(leafMap)
      modifies this`leafMap
      ensures DistinctLeaves(leafMap)
      ensures Find(leafMap, key).Some?
      ensures forall l | l in leafMap :: l in old(leafMap) || fresh(l)
      ensures forall l | l in old(leafMap) :: l in leafMap
    {
      if Find(leafMap, key).None? {
        var leaf := new LeafLoadBalancer(key);
        leafMap := leafMap + [leaf];
        assert leaf in leafMap;
      }
    }

    /** The state to report, from the states of all leaves, and its picker. */
    method CalculateAndUpdateState() returns (report: Option<(ConnectivityState, Picker)>)
      modifies this`currentState
      ensures report.None? <==> updatesPaused
      ensures report.None? ==> currentState == old(currentState)
      ensures report.Some? ==> currentState == Aggregate(leafMap)
                               && report.value
                                  == (currentState,
                                      if currentState == TRANSIENT_FAILURE then Unavailable else RingHash(ring))
    {
      if updatesPaused {
        return None;
      }
      var ready, failed, connecting, idle := 0, 0, 0, 0;
      for i := 0 to |leafMap|
        invariant ready == CountState(leafMap, i, READY) && failed == CountState(leafMap, i, TRANSIENT_FAILURE)
        invariant connecting == CountState(leafMap, i, CONNECTING) && idle == CountState(leafMap, i, IDLE)
      {
        match leafMap[i].state {
          case READY => ready := ready + 1;
          case TRANSIENT_FAILURE => failed := failed + 1;
          case CONNECTING => connecting := connecting + 1;
          case IDLE => idle := idle + 1;
          case SHUTDOWN =>
        }
      }
      if ready > 0 {
        currentState := READY;
      } else if failed > 1 {
        currentState := TRANSIENT_FAILURE;
      } else if connecting > 0 {
        currentState := CONNECTING;
      } else if failed > 0 && |leafMap| > 1 {
        currentState := CONNECTING;
      } else if idle > 0 {
        currentState := IDLE;
      } else {
        currentState := TRANSIENT_FAILURE;
      }
      return Some((currentState, if currentState == TRANSIENT_FAILURE then Unavailable else RingHash(ring)));
    }
  }

  lemma AllFoundKept(before: seq<LeafLoadBalancer>, after: seq<LeafLoadBalancer>, endpoints: seq<Endpoint>, n: nat)
    requires n <= |endpoints| && AllFound(before, endpoints, n)
    requires forall l | l in before && HasKey(endpoints, |endpoints|, l.key) :: l in after
    ensures AllFound(after, endpoints, n)
  {
  }

  lemma {:induction false} AllFoundNext(leaves: seq<LeafLoadBalancer>, endpoints: seq<Endpoint>, n: nat)
    requires n < |endpoints| && AllFound(leaves, endpoints, n) && Find(leaves, endpoints[n].key).Some?
    ensures AllFound(leaves, endpoints, n + 1)
  {
  }

  ghost predicate DistinctLeaves(leaves: seq<LeafLoadBalancer>) {
    forall i, j | 0 <= i < j < |leaves| :: leaves[i].key != leaves[j].key
  }

  method DeleteMissing(leaves: seq<LeafLoadBalancer>, endpoints: seq<Endpoint>) returns (kept: seq<LeafLoadBalancer>)
    requires DistinctLeaves(leaves)
    ensures DistinctLeaves(kept)
    ensures forall l :: l in kept <==> l in leaves && HasKey(endpoints, |endpoints|, l.key)
  {
    kept := [];
    for i := 0 to |leaves|
      invariant DistinctLeaves(kept)
      invariant forall l :: l in kept <==> l in leaves[..i] && HasKey(endpoints, |endpoints|, l.key)
    {
      if HasKey(endpoints, |endpoints|, leaves[i].key) {
        kept := kept + [leaves[i]];
      }
    }
    assert leaves[..|leaves|] == leaves;
  }

  /** One of the first `n` endpoints has the key. */
  predicate HasKey(endpoints: seq<Endpoint>, n: nat, key: EndpointKey)
    requires n <= |endpoints|
  {
    exists i | 0 <= i < n :: endpoints[i].key == key
  }

  /** The first of them that has it. */
  function FirstWith(endpoints: seq<Endpoint>, n: nat, key: EndpointKey): (first: Option<Endpoint>)
    requires n <= |endpoints|
    ensures first.Some? <==> HasKey(endpoints, n, key)
  {
    if n == 0 then None
    else if FirstWith(endpoints, n - 1, key).Some? then FirstWith(endpoints, n - 1, key)
    else if endpoints[n - 1].key == key then Some(endpoints[n - 1]) else None
  }

  /** `firsts` has, for each key of the first `n` endpoints, the first with it. */
  ghost predicate FirstOfEachKey(endpoints: seq<Endpoint>, n: nat, firsts: seq<Endpoint>)
    requires n <= |endpoints|
  {
    && DistinctKeys(firsts)
    && (forall i | 0 <= i < n :: HasKey(firsts, |firsts|, endpoints[i].key))
    && (forall i | 0 <= i < |firsts| :: FirstWith(endpoints, n, firsts[i].key) == Some(firsts[i]))
  }

  lemma {:induction false} UnweighedIsNew(endpoints: seq<Endpoint>, n: nat, key: EndpointKey)
    requires n <= |endpoints| && !HasKey(endpoints, n, key)
    ensures WeightOf(endpoints, n, key) == 0.0
  {
    if n > 0 { UnweighedIsNew(endpoints, n - 1, key); }
  }

  /** The weight map covers the first `n` endpoints' keys and adds up their weights. */
  ghost predicate WeighedFirst(endpoints: seq<Endpoint>, n: nat, weights: map<EndpointKey, real>)
    requires n <= |endpoints|
  {
    && (forall key :: key in weights <==> HasKey(endpoints, n, key))
    && (forall key | key in weights :: weights[key] == WeightOf(endpoints, n, key))
  }

  /** The weight map and the endpoint list after `n` turns of the update loop. */
  function Weighed(endpoints: seq<Endpoint>, n: nat): map<EndpointKey, real>
    requires n <= |endpoints|
  {
    if n == 0 then map[]
    else AddWeight(Weighed(endpoints, n - 1), endpoints[n - 1])
  }

  function AddWeight(m: map<EndpointKey, real>, e: Endpoint): map<EndpointKey, real> {
    m[e.key := (if e.key in m then m[e.key] else 0.0) + e.weight]
  }

  function Deduped(endpoints: seq<Endpoint>, n: nat): seq<Endpoint>
    requires n <= |endpoints|
  {
    if n == 0 then []
    else if HasKey(endpoints, n - 1, endpoints[n - 1].key) then Deduped(endpoints, n - 1)
    else Deduped(endpoints, n - 1) + [endpoints[n - 1]]
  }

  lemma {:induction false} WeighedIsSum(endpoints: seq<Endpoint>, n: nat)
    requires n <= |endpoints|
    ensures WeighedFirst(endpoints, n, Weighed(endpoints, n))
  {
    if n > 0 {
      var e := endpoints[n - 1];
      WeighedIsSum(endpoints, n - 1);
      if e.key !in Weighed(endpoints, n - 1) { UnweighedIsNew(endpoints, n - 1, e.key); }
      assert forall key :: HasKey(endpoints, n, key) <==> HasKey(endpoints, n - 1, key) || key == e.key;
    }
  }

  lemma {:induction false} DedupedIsFirsts(endpoints: seq<Endpoint>, n: nat)
    requires n <= |endpoints|
    ensures FirstOfEachKey(endpoints, n, Deduped(endpoints, n))
  {
    if n > 0 {
      DedupedIsFirsts(endpoints, n - 1);
      OneMoreFirst(endpoints, n - 1, Deduped(endpoints, n - 1), Deduped(endpoints, n));
    }
  }

  lemma OneMoreFirst(endpoints: seq<Endpoint>, n: nat, firsts: seq<Endpoint>, more: seq<Endpoint>)
    requires n < |endpoints| && FirstOfEachKey(endpoints, n, firsts)
    requires more == if HasKey(endpoints, n, endpoints[n].key) then firsts else firsts + [endpoints[n]]
    ensures FirstOfEachKey(endpoints, n + 1, more)
  {
    forall i | 0 <= i < |firsts| ensures HasKey(endpoints, n, firsts[i].key) {
      assert FirstWith(endpoints, n, firsts[i].key).Some?;
    }
    forall i | 0 <= i < |more| ensures FirstWith(endpoints, n + 1, more[i].key) == Some(more[i]) {
      if i < |firsts| {
        assert FirstWith(endpoints, n, firsts[i].key) == Some(firsts[i]);
      }
    }
    forall i | 0 <= i < n + 1 ensures HasKey(more, |more|, endpoints[i].key) {
      KeyIsCovered(endpoints, n, firsts, more, i);
    }
  }

  lemma KeyIsCovered(endpoints: seq<Endpoint>, n: nat, firsts: seq<Endpoint>, more: seq<Endpoint>, i: nat)
    requires i <= n < |endpoints| && forall j | 0 <= j < n :: HasKey(firsts, |firsts|, endpoints[j].key)
    requires more == if HasKey(endpoints, n, endpoints[n].key) then firsts else firsts + [endpoints[n]]
    ensures HasKey(more, |more|, endpoints[i].key)
  {
    if HasKey(endpoints, n, endpoints[i].key) {
      var k :| 0 <= k < n && endpoints[k].key == endpoints[i].key;
      var j :| 0 <= j < |firsts| && firsts[j].key == endpoints[k].key;
      assert more[j].key == endpoints[i].key;
    } else {
      assert i == n && more[|firsts|] == endpoints[i];
    }
  }

  /** The aggregation rules, in order. */
  ghost function Aggregate(leaves: seq<LeafLoadBalancer>): ConnectivityState
    reads leaves
  {
    var count := (s: ConnectivityState) reads leaves => CountState(leaves, |leaves|, s);
    if count(READY) > 0 then READY
    else if count(TRANSIENT_FAILURE) > 1 then TRANSIENT_FAILURE
    else if count(CONNECTING) > 0 then CONNECTING
    else if count(TRANSIENT_FAILURE) > 0 && |leaves| > 1 then CONNECTING
    else if count(IDLE) > 0 then IDLE
    else TRANSIENT_FAILURE
  }

  lemma {:induction false} CountsCoverLeaves(leaves: seq<LeafLoadBalancer>, n: nat)
    requires n <= |leaves| && forall l | l in leaves :: l.state != SHUTDOWN
    ensures CountState(leaves, n, READY) + CountState(leaves, n, TRANSIENT_FAILURE)
            + CountState(leaves, n, CONNECTING) + CountState(leaves, n, IDLE) == n
  {
    if n > 0 {
      CountsCoverLeaves(leaves, n - 1);
      assert leaves[n - 1] in leaves;
    }
  }

  lemma {:induction false} CountedLeaf(leaves: seq<LeafLoadBalancer>, n: nat, s: ConnectivityState) returns (i: nat)
    requires n <= |leaves| && CountState(leaves, n, s) > 0
    ensures i < n && leaves[i].state == s
  {
    i := n - 1;
    if leaves[i].state != s { i := CountedLeaf(leaves, n - 1, s); }
  }

  /** Some entry of the ring can serve a call; otherwise every pick fails. */
  ghost predicate Serves(ring: seq<RingEntry>)
    reads set e | e in ring :: e.leafBalancer
  {
    exists i | 0 <= i < |ring| :: Usable(ring[i].leafBalancer.state)
  }

  /** When every leaf is on the ring, a picker published with a state other than
      TRANSIENT_FAILURE has an entry to serve a call with. */
  lemma PublishedPickerServes(leaves: seq<LeafLoadBalancer>, ring: seq<RingEntry>)
    requires forall l | l in leaves :: l.state != SHUTDOWN && OnRing(ring, l)
    requires Aggregate(leaves) != TRANSIENT_FAILURE
    ensures Serves(ring)
  {
    CountsCoverLeaves(leaves, |leaves|);
    var s := if CountState(leaves, |leaves|, READY) > 0 then READY
             else if CountState(leaves, |leaves|, CONNECTING) > 0 then CONNECTING else IDLE;
    var k := CountedLeaf(leaves, |leaves|, s);
    assert leaves[k] in leaves;
    var i :| 0 <= i < |ring| && ring[i].leafBalancer == leaves[k];
  }

  /** The ring can serve a call exactly if the leaf of some endpoint with a whole
      number in its stretch is usable. */
  lemma {:induction false} RingServesIff(hash: (string, nat) -> nat, leaves: seq<LeafLoadBalancer>,
                                         endpoints: seq<Endpoint>, w: seq<real>, minRingSize: nat, maxRingSize: nat)
    requires Positive(w) && |w| == |endpoints| && AllFound(leaves, endpoints, |endpoints|) && DistinctKeys(endpoints)
    ensures Serves(Ring(hash, leaves, endpoints, w, minRingSize, maxRingSize)) <==>
              exists k :: && 0 <= k < |endpoints| && Usable(Find(leaves, endpoints[k].key).value.state)
                          && HasWhole(Normalized(w), RingScale(w, minRingSize, maxRingSize), k)
  {
    var ring := Ring(hash, leaves, endpoints, w, minRingSize, maxRingSize);
    if i :| 0 <= i < |ring| && Usable(ring[i].leafBalancer.state) {
      var leaf := ring[i].leafBalancer;
      assert OnRing(ring, leaf);
      Counted(ring, leaf);
      SortIsSortedPermutation(Generated(hash, leaves, endpoints, Normalized(w), RingScale(w, minRingSize, maxRingSize),
                                        |w|), OfLeaf(leaf));
      var k := GeneratedLeaf(hash, leaves, endpoints, Normalized(w), RingScale(w, minRingSize, maxRingSize), |w|, leaf);
      LeafOnRingIffWhole(hash, leaves, endpoints, w, minRingSize, maxRingSize, k);
    }
    forall k | 0 <= k < |endpoints| && Usable(Find(leaves, endpoints[k].key).value.state)
               && HasWhole(Normalized(w), RingScale(w, minRingSize, maxRingSize), k)
      ensures Serves(ring)
    {
      LeafOnRingIffWhole(hash, leaves, endpoints, w, minRingSize, maxRingSize, k);
    }
  }

  /** So if every endpoint has a whole number in its stretch, as it has when the
      ring is not cut short, no call fails for want of an entry unless
      TRANSIENT_FAILURE is what was reported. */
  lemma UpdatedRingServes(hash: (string, nat) -> nat, leaves: seq<LeafLoadBalancer>, endpoints: seq<Endpoint>,
                          w: seq<real>, minRingSize: nat, maxRingSize: nat)
    requires Positive(w) && |w| == |endpoints| && AllFound(leaves, endpoints, |endpoints|) && DistinctKeys(endpoints)
    requires DistinctLeaves(leaves) && forall l | l in leaves ::
                                         l.state != SHUTDOWN && HasKey(endpoints, |endpoints|, l.key)
    requires forall k | 0 <= k < |endpoints| :: HasWhole(Normalized(w), RingScale(w, minRingSize, maxRingSize), k)
    requires Aggregate(leaves) != TRANSIENT_FAILURE
    ensures Serves(Ring(hash, leaves, endpoints, w, minRingSize, maxRingSize))
  {
    var ring := Ring(hash, leaves, endpoints, w, minRingSize, maxRingSize);
    forall l | l in leaves ensures OnRing(ring, l) {
      var k :| 0 <= k < |endpoints| && endpoints[k].key == l.key;
      assert Find(leaves, endpoints[k].key) == Some(l);
      LeafOnRingIffWhole(hash, leaves, endpoints, w, minRingSize, maxRingSize, k);
    }
    PublishedPickerServes(leaves, ring);
  }

  /** Otherwise a picker can fail although READY was reported: two equal endpoints
      and room for one, whose leaf has failed while the other's is ready. */
  lemma CappedPickerCanFail(hash: (string, nat) -> nat, leaves: seq<LeafLoadBalancer>, endpoints: seq<Endpoint>)
    requires |leaves| == |endpoints| == 2 && DistinctKeys(endpoints)
    requires leaves[0].key == endpoints[0].key && leaves[1].key == endpoints[1].key
    requires leaves[0].state == TRANSIENT_FAILURE && leaves[1].state == READY
    ensures Aggregate(leaves) == READY && AllFound(leaves, endpoints, 2)
    ensures !Serves(Ring(hash, leaves, endpoints, [1.0, 1.0], 1, 1))
  {
    var w := [1.0, 1.0];
    assert CountState(leaves, 2, READY) == CountState(leaves, 1, READY) + 1;
    assert leaves[0] in leaves && leaves[1] in leaves;
    assert Find(leaves, endpoints[1].key) == Some(leaves[1]);
    assert Find(leaves, endpoints[0].key) == Some(leaves[0]);
    CappedRingMayMissEndpoints();
    OnRingIffWhole(Normalized(w), RingScale(w, 1, 1), 1);
    RingServesIff(hash, leaves, endpoints, w, 1, 1);
  }

  method NormalizeWeights(weights: seq<real>, weightSum: real) returns (nw: seq<real>, minNormalizedWeight: real)
    requires Positive(weights) && weightSum == Total(weights, |weights|)
    ensures nw == Normalized(weights) && Positive(nw)
    ensures minNormalizedWeight == Least(nw, |nw|) && minNormalizedWeight > 0.0
  {
    nw, minNormalizedWeight := [], 1.0;
    TotalPositive(weights, |weights|);
    for i := 0 to |weights|
      invariant nw == Normalized(weights)[..i]
      invariant minNormalizedWeight == Least(Normalized(weights), i)
    {
      nw := nw + [weights[i] / weightSum];
      minNormalizedWeight := MinReal(nw[i], minNormalizedWeight);
    }
    assert nw == Normalized(weights);
    PositiveLeast(weights);
  }

  lemma {:induction false} TotalPrefix(a: seq<real>, b: seq<real>, n: nat)
    requires n <= |a|
    ensures Total(a + b, n) == Total(a, n)
  {
    if n > 0 { TotalPrefix(a, b, n - 1); }
  }
}
