/**
 The pick_first policy: which references, channelz children and listeners it
 holds while it connects to a list of subchannels, picks one, loses it and is
 re-resolved; and how it orders addresses (section 4 of RFC 8305).
 Subchannel callbacks are assumed not to re-enter the policy within a step.
 */
module AddressOrder {
  import opened Common

  datatype SubchannelAddress = Tcp(host: string, port: nat, hostIsIpv6: bool) | Unix(path: string) {
    predicate IsV6() { Tcp? && hostIsIpv6 }
  }

  /** The addresses of one family among the first `n`, in order. */
  function FamilyTo(list: seq<SubchannelAddress>, n: nat, v6: bool): seq<SubchannelAddress>
    requires n <= |list|
  {
    if n == 0 then []
    else if list[n - 1].IsV6() == v6 then FamilyTo(list, n - 1, v6) + [list[n - 1]]
    else FamilyTo(list, n - 1, v6)
  }

  function Family(list: seq<SubchannelAddress>, v6: bool): seq<SubchannelAddress> { FamilyTo(list, |list|, v6) }

  lemma {:induction false} FamilyAgree(a: seq<SubchannelAddress>, b: seq<SubchannelAddress>, n: nat, v6: bool)
    requires n <= |a| && n <= |b| && forall i | 0 <= i < n :: a[i] == b[i]
    ensures FamilyTo(a, n, v6) == FamilyTo(b, n, v6)
  {
    if n > 0 { FamilyAgree(a, b, n - 1, v6); }
  }

  lemma FamilyAppend(list: seq<SubchannelAddress>, a: SubchannelAddress, v6: bool)
    ensures Family(list + [a], v6) == Family(list, v6) + (if a.IsV6() == v6 then [a] else [])
  {
    FamilyAgree(list + [a], list, |list|, v6);
  }

  lemma {:induction false} FamilyOnly(list: seq<SubchannelAddress>, n: nat, v6: bool)
    requires n <= |list|
    ensures forall i | 0 <= i < |FamilyTo(list, n, v6)| :: FamilyTo(list, n, v6)[i].IsV6() == v6
  {
    if n > 0 { FamilyOnly(list, n - 1, v6); }
  }

  /** A list is made of its two families, so the families fix its contents. */
  lemma {:induction false} FamiliesPartition(list: seq<SubchannelAddress>, n: nat)
    requires n <= |list|
    ensures multiset(list[..n]) == multiset(FamilyTo(list, n, true)) + multiset(FamilyTo(list, n, false))
  {
    if n > 0 {
      FamiliesPartition(list, n - 1);
      assert list[..n] == list[..n - 1] + [list[n - 1]];
      assert multiset(list[..n]) == multiset(list[..n - 1]) + multiset{list[n - 1]};
    }
  }

  lemma SameFamiliesSameContents(a: seq<SubchannelAddress>, b: seq<SubchannelAddress>)
    requires forall v6 :: Family(a, v6) == Family(b, v6)
    ensures multiset(a) == multiset(b)
  {
    FamiliesPartition(a, |a|);
    FamiliesPartition(b, |b|);
    assert a[..|a|] == a && b[..|b|] == b;
    assert Family(a, true) == Family(b, true) && Family(a, false) == Family(b, false);
  }

  function Nth(list: seq<SubchannelAddress>, n: nat): seq<SubchannelAddress> {
    if n < |list| then [list[n]] else []
  }

  /** `n` rounds of taking one from each list. */
  function Rounds(first: seq<SubchannelAddress>, second: seq<SubchannelAddress>, n: nat): seq<SubchannelAddress> {
    if n == 0 then [] else Rounds(first, second, n - 1) + Nth(first, n - 1) + Nth(second, n - 1)
  }

  lemma FamilyNth(r: seq<SubchannelAddress>, list: seq<SubchannelAddress>, n: nat, own: bool, other: bool)
    requires own != other && forall i | 0 <= i < |list| :: list[i].IsV6() == own
    ensures Family(r + Nth(list, n), own) == Family(r, own) + Nth(list, n)
    ensures Family(r + Nth(list, n), other) == Family(r, other)
    ensures list[..Min(n, |list|)] + Nth(list, n) == list[..Min(n + 1, |list|)]
  {
    if n < |list| {
      FamilyAppend(r, list[n], own);
      FamilyAppend(r, list[n], other);
    } else {
      assert r + [] == r;
    }
  }

  lemma {:induction false} RoundsFamily(first: seq<SubchannelAddress>, second: seq<SubchannelAddress>, n: nat,
                                        own: bool, other: bool)
    requires own != other
    requires forall i | 0 <= i < |first| :: first[i].IsV6() == own
    requires forall i | 0 <= i < |second| :: second[i].IsV6() == other
    ensures Family(Rounds(first, second, n), own) == first[..Min(n, |first|)]
    ensures Family(Rounds(first, second, n), other) == second[..Min(n, |second|)]
  {
    if n == 0 {
      assert Family([], own) == [] == first[..0] && Family([], other) == [] == second[..0];
    } else {
      var r := Rounds(first, second, n - 1);
      RoundsFamily(first, second, n - 1, own, other);
      OneRound(r, first, second, n - 1, own, other);
      assert Rounds(first, second, n) == r + Nth(first, n - 1) + Nth(second, n - 1);
    }
  }

  lemma OneRound(r: seq<SubchannelAddress>, first: seq<SubchannelAddress>, second: seq<SubchannelAddress>, n: nat,
                 own: bool, other: bool)
    requires own != other
    requires forall i | 0 <= i < |first| :: first[i].IsV6() == own
    requires forall i | 0 <= i < |second| :: second[i].IsV6() == other
    requires Family(r, own) == first[..Min(n, |first|)] && Family(r, other) == second[..Min(n, |second|)]
    ensures Family(r + Nth(first, n) + Nth(second, n), own) == first[..Min(n + 1, |first|)]
    ensures Family(r + Nth(first, n) + Nth(second, n), other) == second[..Min(n + 1, |second|)]
  {
    FamilyNth(r, first, n, own, other);
    FamilyNth(r + Nth(first, n), second, n, other, own);
  }

  lemma {:induction false} RoundsAlternate(first: seq<SubchannelAddress>, second: seq<SubchannelAddress>, n: nat,
                                           k: nat)
    ensures |Rounds(first, second, n)| == Min(n, |first|) + Min(n, |second|)
    ensures k < n && k < |first| && k < |second| ==>
              Rounds(first, second, n)[2 * k] == first[k] && Rounds(first, second, n)[2 * k + 1] == second[k]
  {
    if n > 0 { RoundsAlternate(first, second, n - 1, k); }
  }

  /** Interleaving keeps every address and the order within each family, starts
      with the family of the first address, and alternates while both last. */
  ghost predicate Interleaves(list: seq<SubchannelAddress>, result: seq<SubchannelAddress>)
    requires list != []
  {
    var v6 := list[0].IsV6();
    && multiset(result) == multiset(list)
    && Family(result, true) == Family(list, true) && Family(result, false) == Family(list, false)
    && forall k | 0 <= k < |Family(list, v6)| && k < |Family(list, !v6)| ::
         && 2 * k + 1 < |result|
         && result[2 * k] == Family(list, v6)[k] && result[2 * k + 1] == Family(list, !v6)[k]
  }

  lemma RoundsInterleave(list: seq<SubchannelAddress>, n: nat)
    requires list != [] && n >= |Family(list, true)| && n >= |Family(list, false)|
    ensures var v6 := list[0].IsV6(); Interleaves(list, Rounds(Family(list, v6), Family(list, !v6), n))
  {
    var v6 := list[0].IsV6();
    var first, second := Family(list, v6), Family(list, !v6);
    var result := Rounds(first, second, n);
    FamilyOnly(list, |list|, v6);
    FamilyOnly(list, |list|, !v6);
    RoundsFamily(first, second, n, v6, !v6);
    assert first[..Min(n, |first|)] == first && second[..Min(n, |second|)] == second;
    assert forall b :: Family(result, b) == Family(list, b) by {
      forall b ensures Family(result, b) == Family(list, b) { assert b == v6 || b == !v6; }
    }
    SameFamiliesSameContents(result, list);
    forall k | 0 <= k < |first| && k < |second|
      ensures 2 * k + 1 < |result| && result[2 * k] == first[k] && result[2 * k + 1] == second[k]
    {
      RoundsAlternate(first, second, n, k);
    }
  }

  method SplitFamilies(addressList: seq<SubchannelAddress>)
    returns (ipv6Addresses: seq<SubchannelAddress>, ipv4Addresses: seq<SubchannelAddress>)
    ensures ipv6Addresses == Family(addressList, true) && ipv4Addresses == Family(addressList, false)
  {
    ipv6Addresses, ipv4Addresses := [], [];
    for i := 0 to |addressList|
      invariant ipv6Addresses == FamilyTo(addressList, i, true) && ipv4Addresses == FamilyTo(addressList, i, false)
    {
      if addressList[i].IsV6() {
        ipv6Addresses := ipv6Addresses + [addressList[i]];
      } else {
        ipv4Addresses := ipv4Addresses + [addressList[i]];
      }
    }
  }

  /** A list of addresses that is not empty. */
  type AddressList = s: seq<SubchannelAddress> | s != [] witness [Unix("")]

  function Flatten(endpoints: seq<seq<SubchannelAddress>>): seq<SubchannelAddress> {
    if endpoints == [] then [] else endpoints[0] + Flatten(endpoints[1..])
  }

  method InterleaveAddressFamilies(addressList: seq<SubchannelAddress>) returns (result: seq<SubchannelAddress>)
    requires addressList != []
    ensures Interleaves(addressList, result)
  {
    var ipv6First := addressList[0].IsV6();
    var ipv6Addresses, ipv4Addresses := SplitFamilies(addressList);
    var firstList := if ipv6First then ipv6Addresses else ipv4Addresses;
    var secondList := if ipv6First then ipv4Addresses else ipv6Addresses;
    result := TakeTurns(firstList, secondList);
    RoundsInterleave(addressList, if |firstList| >= |secondList| then |firstList| else |secondList|);
  }

  method TakeTurns(firstList: seq<SubchannelAddress>, secondList: seq<SubchannelAddress>)
    returns (result: seq<SubchannelAddress>)
    ensures result == Rounds(firstList, secondList, if |firstList| >= |secondList| then |firstList| else |secondList|)
  {
    result := [];
    var longest := if |firstList| >= |secondList| then |firstList| else |secondList|;
    var i := 0;
    while i < longest
      invariant i <= longest && result == Rounds(firstList, secondList, i)
    {
      ghost var before := result;
      if i < |firstList| {
        result := result + [firstList[i]];
      }
      assert result == before + Nth(firstList, i);
      if i < |secondList| {
        result := result + [secondList[i]];
      }
      assert result == before + Nth(firstList, i) + Nth(secondList, i);
      i := i + 1;
    }
  }

  /** `draws[i]` is the random index drawn at step `i`. The loop stops before
      index 1, so a list of two is never reordered. */
  method Shuffled<T(==)>(list: seq<T>, draws: seq<nat>) returns (result: seq<T>)
    requires |draws| == |list| && forall i | 0 <= i < |draws| :: draws[i] <= i
    ensures multiset(result) == multiset(list)
    ensures |list| <= 2 ==> result == list
    ensures result == Swapped(list, draws, |list| - 1)
  {
    result := list;
    var i := |result| - 1;
    while i > 1
      invariant |result| == |list| && i < |list|
      invariant multiset(result) == multiset(list)
      invariant |list| <= 2 ==> result == list
      invariant Swapped(list, draws, |list| - 1) == Swapped(result, draws, i)
    {
      var j := draws[i];
      result := result[i := result[j]][j := result[i]];
      i := i - 1;
    }
  }

  /** The exchanges that the draws stand for, from index `i` down to 2. */
  function Swapped<T>(list: seq<T>, draws: seq<nat>, i: int): seq<T>
    requires i < |list| == |draws| && forall k | 0 <= k < |draws| :: draws[k] <= k
    decreases i
  {
    if i <= 1 then list else Swapped(list[i := list[draws[i]]][draws[i] := list[i]], draws, i - 1)
  }

  /** Each place from index 2 on gets what was drawn for it, and keeps it. */
  lemma {:induction false} SwappedAbove<T>(list: seq<T>, draws: seq<nat>, i: int, k: nat)
    requires i < k < |list| == |draws| && forall k | 0 <= k < |draws| :: draws[k] <= k
    ensures |Swapped(list, draws, i)| == |list| && Swapped(list, draws, i)[k] == list[k]
    decreases i
  {
    if i > 1 { SwappedAbove(list[i := list[draws[i]]][draws[i] := list[i]], draws, i - 1, k); }
  }

  lemma {:induction false} LastIsDrawn<T>(list: seq<T>, draws: seq<nat>, i: nat)
    requires 1 < i < |list| == |draws| && forall k | 0 <= k < |draws| :: draws[k] <= k
    ensures |Swapped(list, draws, i)| == |list| && Swapped(list, draws, i)[i] == list[draws[i]]
  {
    SwappedAbove(list[i := list[draws[i]]][draws[i] := list[i]], draws, i - 1, i);
  }
}

module PickFirst {
  import opened Common
  import opened AddressOrder

  /** A real subchannel. Wrappers of the same one count as one. */
  type Subchannel = nat

  datatype SubchannelChild = SubchannelChild(subchannel: Subchannel, hasReportedTransientFailure: bool)

  /** How often a subchannel occurs in a child list. */
  ghost function Occurs(children: seq<SubchannelChild>, s: Subchannel): nat {
    if children == [] then 0
    else Occurs(children[..|children| - 1], s) + (if children[|children| - 1].subchannel == s then 1 else 0)
  }

  lemma {:induction false} OccursNext(children: seq<SubchannelChild>, i: nat, s: Subchannel)
    requires i < |children|
    ensures Occurs(children[..i + 1], s) == Occurs(children[..i], s) + (if children[i].subchannel == s then 1 else 0)
  {
    assert children[..i + 1][..i] == children[..i];
  }

  /** Only the subchannels matter, not what the children have reported. */
  lemma {:induction false} OccursSame(a: seq<SubchannelChild>, b: seq<SubchannelChild>, s: Subchannel)
    requires |a| == |b| && forall i | 0 <= i < |a| :: a[i].subchannel == b[i].subchannel
    ensures Occurs(a, s) == Occurs(b, s)
  {
    if a != [] { OccursSame(a[..|a| - 1], b[..|b| - 1], s); }
  }

  lemma {:induction false} OccursAt(children: seq<SubchannelChild>, i: nat)
    requires i < |children|
    ensures Occurs(children, children[i].subchannel) > 0
  {
    if i < |children| - 1 { OccursAt(children[..|children| - 1], i); }
  }

  lemma {:induction false} OccursSomewhere(children: seq<SubchannelChild>, s: Subchannel)
    requires Occurs(children, s) > 0
    ensures exists i :: 0 <= i < |children| && children[i].subchannel == s
  {
    if children[|children| - 1].subchannel != s { OccursSomewhere(children[..|children| - 1], s); }
  }

  lemma {:induction false} OccursPrefix(children: seq<SubchannelChild>, n: nat, s: Subchannel)
    requires n <= |children|
    ensures Occurs(children[..n], s) <= Occurs(children, s)
    decreases |children| - n
  {
    if n < |children| {
      OccursPrefix(children, n + 1, s);
      OccursNext(children, n, s);
    } else {
      assert children[..n] == children;
    }
  }

  ghost predicate AllFailed(children: seq<SubchannelChild>) {
    forall i | 0 <= i < |children| :: children[i].hasReportedTransientFailure
  }

  /** What the policy owes a subchannel: one per child, one for the pick. */
  ghost function Owed(children: seq<SubchannelChild>, pick: Option<Subchannel>, s: Subchannel): nat {
    Occurs(children, s) + (if pick == Some(s) then 1 else 0)
  }

  type Counts = Subchannel -> int

  function Add(counts: Counts, s: Subchannel, delta: int): Counts {
    (x: Subchannel) => if x == s then counts(x) + delta else counts(x)
  }

  function FreshChildren(subchannels: seq<Subchannel>): seq<SubchannelChild> {
    seq(|subchannels|, i requires 0 <= i < |subchannels| => SubchannelChild(subchannels[i], false))
  }

  function Subchannels(addressList: seq<SubchannelAddress>,
                       createSubchannel: SubchannelAddress -> Subchannel): seq<Subchannel> {
    seq(|addressList|, i requires 0 <= i < |addressList| => createSubchannel(addressList[i]))
  }

  class PickFirstLoadBalancer {
    const reportHealthStatus: bool
    var children: seq<SubchannelChild>
    var currentState: ConnectivityState
    var currentSubchannelIndex: nat
    var currentPick: Option<Subchannel>
    var connectionDelayTimeout: Option<nat>
    var triedAllSubchannels: bool
    var stickyTransientFailureMode: bool
    var requestedResolutionSinceLastUpdate: bool

    var latestAddressList: Option<AddressList>
    /** What the channel's helper was told: states, and how often to re-resolve. */
    var reports: seq<ConnectivityState>
    var reresolutions: nat
    /** The subchannels that were asked to connect, and the indices of the children
        that are to be asked on the next tick. */
    var connectRequests: seq<Subchannel>
    var connectTicks: seq<nat>

    /** What the policy holds outside: subchannel references, channelz children,
        and the subchannels its two listeners are registered on. */
    ghost var refs: Counts
    ghost var channelzChildren: Counts
    ghost var listeners: set<Subchannel>
    ghost var healthWatchers: set<Subchannel>

    /** The references held are the child list's and the pick's, no more and no
        less, whatever path led here. */
    ghost predicate RefsOk()
      reads this
    {
      && (forall s :: refs(s) == Owed(children, currentPick, s))
      && (forall s :: channelzChildren(s) == Owed(children, currentPick, s))
      && (forall s | s in listeners :: refs(s) > 0)
      && healthWatchers == if reportHealthStatus && currentPick.Some? then {currentPick.value} else {}
    }

    /** The state last reported is the one the fields call for. */
    ghost predicate ReportOk()
      reads this
    {
      if currentPick.Some? then currentState == READY || (reportHealthStatus && currentState == TRANSIENT_FAILURE)
      else if children == [] then currentState == IDLE
      else currentState == if stickyTransientFailureMode then TRANSIENT_FAILURE else CONNECTING
    }

    /** The policy listens to every child. */
    ghost predicate HearsAll()
      reads this
    {
      forall i | 0 <= i < |children| :: children[i].subchannel in listeners
    }

    /** Once every child has failed, the policy is sticky and has re-resolved. */
    ghost predicate StickyOk()
      reads this
    {
      children != [] && AllFailed(children) ==> stickyTransientFailureMode && requestedResolutionSinceLastUpdate
    }

    ghost predicate Valid()
      reads this
    {
      RefsOk() && ReportOk() && StickyOk() && (currentPick.Some? ==> currentPick.value in listeners)
    }

    constructor (reportHealthStatus: bool)
      ensures Valid() && children == [] && currentPick == None && currentState == IDLE
      ensures this.reportHealthStatus == reportHealthStatus && !stickyTransientFailureMode
      ensures reports == [] && reresolutions == 0
    {
      this.reportHealthStatus := reportHealthStatus;
      children, currentState, currentSubchannelIndex, currentPick := [], IDLE, 0, None;
      connectionDelayTimeout, triedAllSubchannels, stickyTransientFailureMode := None, false, false;
      requestedResolutionSinceLastUpdate, latestAddressList := false, None;
      reports, reresolutions, connectRequests, connectTicks := [], 0, [], [];
      refs, channelzChildren, listeners, healthWatchers := _ => 0, _ => 0, {}, {};
    }

    /** `unhealthy` is what isHealthy() denies at this moment. */
    method CalculateAndReportNewState(unhealthy: set<Subchannel>)
      modifies this`currentState, this`reports
      ensures ReportOk() && reports == old(reports) + [currentState]
      ensures currentPick.Some? ==>
                currentState ==
                  if reportHealthStatus && currentPick.value in unhealthy then TRANSIENT_FAILURE else READY
    {
      if currentPick.Some? {
        currentState := if reportHealthStatus && currentPick.value in unhealthy then TRANSIENT_FAILURE else READY;
      } else if |children| == 0 {
        currentState := IDLE;
      } else {
        currentState := if stickyTransientFailureMode then TRANSIENT_FAILURE else CONNECTING;
      }
      reports := reports + [currentState];
    }

    method RequestReresolution()
      modifies this`requestedResolutionSinceLastUpdate, this`reresolutions
      ensures requestedResolutionSinceLastUpdate && reresolutions == old(reresolutions) + 1
    {
      requestedResolutionSinceLastUpdate := true;
      reresolutions := reresolutions + 1;
    }

    method AllChildrenHaveReportedTF() returns (all: bool)
      ensures all <==> AllFailed(children)
    {
      for i := 0 to |children|
        invariant AllFailed(children[..i])
      {
        if !children[i].hasReportedTransientFailure {
          return false;
        }
      }
      assert children[..|children|] == children;
      return true;
    }

    method MaybeEnterStickyTransientFailureMode(unhealthy: set<Subchannel>)
      modifies this`requestedResolutionSinceLastUpdate, this`reresolutions, this`stickyTransientFailureMode,
               this`currentState, this`reports, this`connectRequests
      ensures if AllFailed(children) then
                && stickyTransientFailureMode && requestedResolutionSinceLastUpdate
                && reresolutions == old(reresolutions) + (if old(requestedResolutionSinceLastUpdate) then 0 else 1)
                && reports == old(reports) + (if old(stickyTransientFailureMode) then [] else [currentState])
                && connectRequests == old(connectRequests)
                                      + (if old(stickyTransientFailureMode) then [] else ChildSubchannels())
              else Unmoved() && connectRequests == old(connectRequests)
      ensures old(ReportOk()) ==> ReportOk()
      ensures AllFailed(children) && !old(stickyTransientFailureMode) ==> ReportOk()
    {
      var all := AllChildrenHaveReportedTF();
      if !all {
        return;
      }
      if !requestedResolutionSinceLastUpdate {
        RequestReresolution();
      }
      if stickyTransientFailureMode {
        return;
      }
      stickyTransientFailureMode := true;
      AskAllToConnect();
      CalculateAndReportNewState(unhealthy);
    }

    method AskAllToConnect()
      modifies this`connectRequests
      ensures connectRequests == old(connectRequests) + ChildSubchannels()
    {
      for i := 0 to |children|
        invariant connectRequests == old(connectRequests) + ChildSubchannels()[..i]
      {
        assert ChildSubchannels()[..i + 1] == ChildSubchannels()[..i] + [children[i].subchannel];
        connectRequests := connectRequests + [children[i].subchannel];
      }
      assert ChildSubchannels()[..|children|] == ChildSubchannels();
    }

    /** Stickiness is as it was, and the helper was told nothing. */
    twostate predicate Unmoved()
      reads this
    {
      && stickyTransientFailureMode == old(stickyTransientFailureMode)
      && requestedResolutionSinceLastUpdate == old(requestedResolutionSinceLastUpdate)
      && reresolutions == old(reresolutions) && reports == old(reports)
    }

    method RemoveCurrentPick()
      requires RefsOk()
      modifies this`currentPick, this`refs, this`channelzChildren, this`listeners, this`healthWatchers
      ensures RefsOk() && currentPick == None
      ensures listeners == old(listeners) - (if old(currentPick).Some? then {old(currentPick).value} else {})
    {
      if currentPick.Some? {
        var pick := currentPick.value;
        currentPick := None;
        assert refs(pick) > 0 && channelzChildren(pick) > 0;
        refs := Add(refs, pick, -1);
        listeners := listeners - {pick};
        channelzChildren := Add(channelzChildren, pick, -1);
        if reportHealthStatus {
          healthWatchers := healthWatchers - {pick};
        }
      }
    }

    /** References are given up one child at a time; each is there to give up. */
    method ResetSubchannelList()
      requires forall s :: refs(s) >= Occurs(children, s) && channelzChildren(s) >= Occurs(children, s)
      modifies this`children, this`refs, this`channelzChildren, this`listeners, this`currentSubchannelIndex,
               this`triedAllSubchannels, this`requestedResolutionSinceLastUpdate
      ensures children == [] && !triedAllSubchannels && !requestedResolutionSinceLastUpdate
              && currentSubchannelIndex == 0
      ensures forall s :: refs(s) == old(refs)(s) - Occurs(old(children), s)
      ensures forall s :: channelzChildren(s) == old(channelzChildren)(s) - Occurs(old(children), s)
      ensures forall s :: s in listeners <==>
                s in old(listeners) && (Occurs(old(children), s) == 0 || currentPick == Some(s))
    {
      for i := 0 to |children|
        invariant children == old(children)
        invariant forall s :: refs(s) == old(refs)(s) - Occurs(children[..i], s)
        invariant forall s :: channelzChildren(s) == old(channelzChildren)(s) - Occurs(children[..i], s)
        invariant forall s :: s in listeners <==>
                    s in old(listeners) && (Occurs(children[..i], s) == 0 || currentPick == Some(s))
      {
        var s := children[i].subchannel;
        forall x { OccursNext(children, i, x); }
        OccursPrefix(children, i + 1, s);
        if currentPick != Some(s) {
          listeners := listeners - {s};
        }
        assert refs(s) > 0 && channelzChildren(s) > 0;
        refs := Add(refs, s, -1);
        channelzChildren := Add(channelzChildren, s, -1);
      }
      assert children[..|children|] == children;
      currentSubchannelIndex, children, triedAllSubchannels, requestedResolutionSinceLastUpdate := 0, [], false, false;
    }

    method AddPick(s: Subchannel)
      requires RefsOk() && currentPick == None
      modifies this`currentPick, this`refs, this`channelzChildren, this`healthWatchers
      ensures RefsOk() && currentPick == Some(s)
    {
      currentPick := Some(s);
      refs := Add(refs, s, 1);
      if reportHealthStatus {
        healthWatchers := healthWatchers + {s};
      }
      channelzChildren := Add(channelzChildren, s, 1);
    }

    method PickSubchannel(s: Subchannel, unhealthy: set<Subchannel>)
      requires RefsOk() && s in listeners && (currentPick.Some? ==> ReportOk())
      modifies this
      ensures latestAddressList == old(latestAddressList)
      ensures RefsOk() && ReportOk() && s in listeners && currentPick == Some(s)
      ensures old(currentPick) == Some(s) ==>
                children == old(children) && listeners == old(listeners) && currentState == old(currentState)
                && stickyTransientFailureMode == old(stickyTransientFailureMode)
                && requestedResolutionSinceLastUpdate == old(requestedResolutionSinceLastUpdate)
      ensures old(currentPick) != Some(s) ==>
                children == [] && listeners == {s} && !stickyTransientFailureMode && connectionDelayTimeout == None
    {
      if currentPick == Some(s) {
        return;
      }
      SwitchPick(s);
      connectionDelayTimeout := None;
      CalculateAndReportNewState(unhealthy);
    }

    method SwitchPick(s: Subchannel)
      requires RefsOk() && s in listeners && currentPick != Some(s)
      modifies this`stickyTransientFailureMode, this`currentPick, this`refs, this`channelzChildren, this`listeners,
               this`healthWatchers,
               this`children, this`currentSubchannelIndex, this`triedAllSubchannels,
               this`requestedResolutionSinceLastUpdate
      ensures RefsOk() && currentPick == Some(s) && children == [] && listeners == {s} && !stickyTransientFailureMode
    {
      stickyTransientFailureMode := false;
      RemoveCurrentPick();
      AddPick(s);
      ResetSubchannelList();
    }

    /** `states` is what getConnectivityState() answers at this moment. */
    method StartNextSubchannelConnecting(startIndex: nat, states: Subchannel -> ConnectivityState,
                                         unhealthy: set<Subchannel>)
      requires children != [] && AllFailed(children) ==>
                 || (stickyTransientFailureMode && requestedResolutionSinceLastUpdate)
                 || (!triedAllSubchannels
                     && forall i | 0 <= i < |children| :: states(children[i].subchannel) == TRANSIENT_FAILURE)
      modifies this`connectionDelayTimeout, this`currentSubchannelIndex, this`triedAllSubchannels, this`currentState,
               this`reports, this`connectRequests, this`connectTicks,
               this`stickyTransientFailureMode, this`requestedResolutionSinceLastUpdate, this`reresolutions
      ensures StickyOk()
      ensures old(ReportOk()) ==> ReportOk()
      ensures connectionDelayTimeout.Some? ==>
                && Unmoved() && !old(triedAllSubchannels) && connectRequests == old(connectRequests)
                && currentSubchannelIndex == connectionDelayTimeout.value < |children|
                && startIndex <= currentSubchannelIndex
                && states(children[currentSubchannelIndex].subchannel) in {IDLE, CONNECTING}
                && connectTicks == old(connectTicks)
                                   + (if states(children[currentSubchannelIndex].subchannel) == IDLE
                                      then [currentSubchannelIndex] else [])
                && forall i | startIndex <= i < currentSubchannelIndex ::
                     states(children[i].subchannel) !in {IDLE, CONNECTING}
      ensures connectionDelayTimeout.None? ==>
                && triedAllSubchannels && connectTicks == old(connectTicks)
                && (old(triedAllSubchannels) ==> Unmoved())
                && (!old(triedAllSubchannels) ==> forall i | startIndex <= i < |children| ::
                      states(children[i].subchannel) !in {IDLE, CONNECTING})
      ensures connectionDelayTimeout.None? && !old(triedAllSubchannels) && AllFailed(children) ==>
                && stickyTransientFailureMode && requestedResolutionSinceLastUpdate
                && reresolutions == old(reresolutions) + (if old(requestedResolutionSinceLastUpdate) then 0 else 1)
                && reports == old(reports) + (if old(stickyTransientFailureMode) then [] else [currentState])
                && (!old(stickyTransientFailureMode) ==> ReportOk())
    {
      connectionDelayTimeout := None;
      if triedAllSubchannels {
        return;
      }
      for index := 0 to |children|
        invariant forall i | startIndex <= i < index :: states(children[i].subchannel) !in {IDLE, CONNECTING}
      {
        if index >= startIndex {
          var subchannelState := states(children[index].subchannel);
          if subchannelState == IDLE || subchannelState == CONNECTING {
            StartConnecting(index, states);
            return;
          }
        }
      }
      triedAllSubchannels := true;
      MaybeEnterStickyTransientFailureMode(unhealthy);
    }

    method StartConnecting(subchannelIndex: nat, states: Subchannel -> ConnectivityState)
      requires subchannelIndex < |children|
      modifies this`connectionDelayTimeout, this`currentSubchannelIndex, this`connectTicks
      ensures currentSubchannelIndex == subchannelIndex && connectionDelayTimeout == Some(subchannelIndex)
      ensures connectTicks == old(connectTicks)
                              + (if states(children[subchannelIndex].subchannel) == IDLE then [subchannelIndex] else [])
    {
      currentSubchannelIndex := subchannelIndex;
      if states(children[subchannelIndex].subchannel) == IDLE {
        connectTicks := connectTicks + [subchannelIndex];
      }
      connectionDelayTimeout := Some(subchannelIndex);
    }

    /** The next tick after StartConnecting: the child that has the index by now, if
        any, is asked to connect. */
    method ConnectTick()
      requires connectTicks != []
      modifies this`connectTicks, this`connectRequests
      ensures connectTicks == old(connectTicks)[1..]
      ensures connectRequests == old(connectRequests) +
                if old(connectTicks)[0] < |children| then [ChildSubchannels()[old(connectTicks)[0]]] else []
    {
      var subchannelIndex := connectTicks[0];
      connectTicks := connectTicks[1..];
      if subchannelIndex < |children| {
        connectRequests := connectRequests + [children[subchannelIndex].subchannel];
      }
    }

    /** Takes the references of a new child list before the old one goes. */
    method RefChildren(newChildren: seq<SubchannelChild>)
      modifies this`refs, this`channelzChildren
      ensures forall s :: refs(s) == old(refs)(s) + Occurs(newChildren, s)
      ensures forall s :: channelzChildren(s) == old(channelzChildren)(s) + Occurs(newChildren, s)
    {
      for i := 0 to |newChildren|
        invariant forall s :: refs(s) == old(refs)(s) + Occurs(newChildren[..i], s)
        invariant forall s :: channelzChildren(s) == old(channelzChildren)(s) + Occurs(newChildren[..i], s)
      {
        forall x { OccursNext(newChildren, i, x); }
        refs := Add(refs, newChildren[i].subchannel, 1);
        channelzChildren := Add(channelzChildren, newChildren[i].subchannel, 1);
      }
      assert newChildren[..|newChildren|] == newChildren;
    }

    method ReplaceChildren(newChildren: seq<SubchannelChild>)
      requires RefsOk()
      modifies this`children, this`refs, this`channelzChildren, this`listeners, this`currentSubchannelIndex,
               this`triedAllSubchannels, this`requestedResolutionSinceLastUpdate
      ensures RefsOk() && children == newChildren && !triedAllSubchannels
      ensures forall s | s in listeners :: s in old(listeners) && currentPick == Some(s)
      ensures currentPick.Some? && currentPick.value in old(listeners) ==> currentPick.value in listeners
    {
      RefChildren(newChildren);
      ResetSubchannelList();
      children := newChildren;
    }

    /** Marks the children that are failing already. */
    method MarkFailed(states: Subchannel -> ConnectivityState)
      requires RefsOk() && forall i | 0 <= i < |children| :: !children[i].hasReportedTransientFailure
      modifies this`children
      ensures RefsOk() && |children| == |old(children)|
      ensures forall i | 0 <= i < |children| ::
                children[i] ==
                  SubchannelChild(old(children)[i].subchannel, states(old(children)[i].subchannel) == TRANSIENT_FAILURE)
    {
      for i := 0 to |children|
        invariant |children| == |old(children)|
        invariant forall j | 0 <= j < |children| ::
                    children[j] ==
                      if j < i
                      then SubchannelChild(old(children)[j].subchannel,
                                           states(old(children)[j].subchannel) == TRANSIENT_FAILURE)
                                   else old(children)[j]
      {
        if states(children[i].subchannel) == TRANSIENT_FAILURE {
          children := children[i := children[i].(hasReportedTransientFailure := true)];
        }
      }
      forall s ensures Occurs(children, s) == Occurs(old(children), s) {
        OccursSame(children, old(children), s);
      }
    }

    /** Takes a new list of endpoints, each with its addresses; throws when there
        is no address at all. */
    method UpdateAddressList(endpointList: seq<seq<SubchannelAddress>>, shuffleAddressList: bool, draws: seq<nat>,
                             createSubchannel: SubchannelAddress -> Subchannel,
                             states: Subchannel -> ConnectivityState, unhealthy: set<Subchannel>)
      returns (ok: bool)
      requires Valid() && |draws| == |endpointList| && forall i | 0 <= i < |draws| :: draws[i] <= i
      modifies this
      ensures Valid()
      ensures var raw := Flatten(if shuffleAddressList then Swapped(endpointList, draws, |endpointList| - 1)
                                 else endpointList);
              && (ok <==> raw != [])
              && (ok ==> latestAddressList.Some? && Interleaves(raw, latestAddressList.value))
              && (ok && currentPick.None? ==>
                    Subchannels(latestAddressList.value, createSubchannel) == ChildSubchannels())
              && (ok ==> currentState != IDLE)
      ensures !ok ==> unchanged(this)
    {
      var endpoints := endpointList;
      if shuffleAddressList {
        endpoints := Shuffled(endpointList, draws);
      }
      var rawAddressList := Flatten(endpoints);
      if |rawAddressList| == 0 {
        return false;
      }
      var addressList := InterleaveAddressFamilies(rawAddressList);
      latestAddressList := Some(addressList);
      ConnectToAddresses(addressList, createSubchannel, states, unhealthy);
      return true;
    }

    method ConnectToAddresses(addressList: AddressList, createSubchannel: SubchannelAddress -> Subchannel,
                              states: Subchannel -> ConnectivityState, unhealthy: set<Subchannel>)
      requires Valid()
      modifies this
      ensures Valid() && latestAddressList == old(latestAddressList) && currentState != IDLE
      ensures currentPick.None? ==> Subchannels(addressList, createSubchannel) == ChildSubchannels()
    {
      var ready := ConnectToAddressList(Subchannels(addressList, createSubchannel), states, unhealthy);
    }

    /** An idle policy connects to the last list again. */
    method ExitIdle(createSubchannel: SubchannelAddress -> Subchannel, states: Subchannel -> ConnectivityState,
                    unhealthy: set<Subchannel>)
      requires Valid()
      modifies this
      ensures Valid() && latestAddressList == old(latestAddressList)
      ensures if old(currentState) == IDLE && latestAddressList.Some? then currentState != IDLE
              else children == old(children) && currentPick == old(currentPick) && refs == old(refs)
                   && currentState == old(currentState)
    {
      if currentState == IDLE && latestAddressList.Some? {
        ConnectToAddresses(latestAddressList.value, createSubchannel, states, unhealthy);
      }
    }

    ghost function ChildSubchannels(): seq<Subchannel>
      reads this
    {
      seq(|children|, i requires 0 <= i < |children| reads this => children[i].subchannel)
    }

    /** `newSubchannels` is what createSubchannel gave for the address list, and
        `ready` the first of them that is connected already. */
    method ConnectToAddressList(newSubchannels: seq<Subchannel>, states: Subchannel -> ConnectivityState,
                                unhealthy: set<Subchannel>)
      returns (ready: Option<nat>)
      requires Valid() && newSubchannels != []
      modifies this
      ensures latestAddressList == old(latestAddressList)
      ensures Valid()
      ensures FirstReady(newSubchannels, states, ready)
      ensures ready.None? ==>
                && currentPick == old(currentPick) && |children| == |newSubchannels|
                && forall i | 0 <= i < |children| ::
                     children[i] == SubchannelChild(newSubchannels[i], states(newSubchannels[i]) == TRANSIENT_FAILURE)
                     && children[i].subchannel in listeners
      ensures ready.Some? ==> currentPick == Some(newSubchannels[ready.value])
      ensures ready.Some? && old(currentPick) != currentPick ==> children == [] && !stickyTransientFailureMode
      ensures ready.Some? && old(currentPick) == currentPick ==>
                Heard(newSubchannels, ready.value) && stickyTransientFailureMode == old(stickyTransientFailureMode)
      ensures ready.None? ==> HearsAll() && TimerForFirst(newSubchannels, states)
      ensures ready.None? && connectionDelayTimeout.Some? ==>
                stickyTransientFailureMode == old(stickyTransientFailureMode)
    {
      ReplaceChildren(FreshChildren(newSubchannels));
      ready := ListenUntilReady(newSubchannels, states);
      if ready.Some? {
        PickReady(newSubchannels, ready.value, unhealthy);
      } else {
        ConnectChildren(newSubchannels, states, unhealthy);
      }
    }

    /** The children are the list's, and the policy listens to those up to `ready`
        alone: to all of them exactly if the others are repetitions. */
    ghost predicate Heard(subchannels: seq<Subchannel>, ready: nat)
      requires ready < |subchannels|
      reads this
    {
      && children == FreshChildren(subchannels)
      && (forall s :: s in listeners <==> s in subchannels[..ready + 1])
      && (HearsAll() <==> forall j | ready < j < |subchannels| :: subchannels[j] in subchannels[..ready + 1])
    }

    /** A child that is ready is picked. */
    method PickReady(ghost subchannels: seq<Subchannel>, ready: nat, unhealthy: set<Subchannel>)
      requires RefsOk() && ready < |subchannels| && children == FreshChildren(subchannels)
      requires (currentPick.Some? ==> ReportOk() && currentPick.value in listeners)
               && subchannels[ready] in listeners
      requires forall s :: s in listeners <==> currentPick == Some(s) || s in subchannels[..ready + 1]
      modifies this
      ensures RefsOk() && ReportOk() && StickyOk() && currentPick == Some(subchannels[ready])
      ensures currentPick.value in listeners && latestAddressList == old(latestAddressList)
      ensures old(currentPick) != currentPick ==> children == [] && !stickyTransientFailureMode
      ensures old(currentPick) == currentPick ==>
                Heard(subchannels, ready) && stickyTransientFailureMode == old(stickyTransientFailureMode)
    {
      PickSubchannel(children[ready].subchannel, unhealthy);
      if old(currentPick) == currentPick {
        assert subchannels[..ready + 1][ready] == subchannels[ready];
        HearsPrefix(subchannels, ready);
      }
    }

    /** The timer runs for the first child that can connect; if there is none, it
        does not run. */
    ghost predicate TimerForFirst(subchannels: seq<Subchannel>, states: Subchannel -> ConnectivityState)
      reads this
    {
      && (connectionDelayTimeout.Some? ==>
            && connectionDelayTimeout.value < |subchannels|
            && states(subchannels[connectionDelayTimeout.value]) in {IDLE, CONNECTING})
      && forall i | 0 <= i < (if connectionDelayTimeout.Some? then connectionDelayTimeout.value else |subchannels|)
                    && i < |subchannels| ::
           states(subchannels[i]) !in {IDLE, CONNECTING}
    }

    /** Listening to the first few of a list is listening to all of it exactly if
        the others are repetitions. */
    lemma HearsPrefix(subchannels: seq<Subchannel>, r: nat)
      requires children == FreshChildren(subchannels) && r < |subchannels|
      requires forall s :: s in listeners <==> s in subchannels[..r + 1]
      ensures HearsAll() <==> forall j | r < j < |subchannels| :: subchannels[j] in subchannels[..r + 1]
    {
      forall j | 0 <= j <= r ensures subchannels[j] in subchannels[..r + 1] {
        assert subchannels[..r + 1][j] == subchannels[j];
      }
      forall j | 0 <= j < |subchannels| ensures children[j].subchannel == subchannels[j] {
      }
    }

    /** No child is ready: start with the first one that can connect. */
    method ConnectChildren(ghost subchannels: seq<Subchannel>, states: Subchannel -> ConnectivityState,
                           unhealthy: set<Subchannel>)
      requires RefsOk() && !triedAllSubchannels && children == FreshChildren(subchannels)
      modifies this`children, this`connectionDelayTimeout, this`currentSubchannelIndex, this`triedAllSubchannels,
               this`stickyTransientFailureMode, this`requestedResolutionSinceLastUpdate, this`currentState,
               this`reports, this`reresolutions, this`connectRequests, this`connectTicks
      ensures RefsOk() && ReportOk() && StickyOk() && |children| == |subchannels|
      ensures forall i | 0 <= i < |children| ::
                children[i] == SubchannelChild(subchannels[i], states(subchannels[i]) == TRANSIENT_FAILURE)
      ensures TimerForFirst(subchannels, states)
      ensures connectionDelayTimeout.Some? ==> stickyTransientFailureMode == old(stickyTransientFailureMode)
    {
      MarkFailed(states);
      StartFirst(subchannels, states, unhealthy);
    }

    method StartFirst(ghost subchannels: seq<Subchannel>, states: Subchannel -> ConnectivityState,
                      unhealthy: set<Subchannel>)
      requires !triedAllSubchannels && |children| == |subchannels|
      requires forall i | 0 <= i < |children| ::
                 children[i] == SubchannelChild(subchannels[i], states(subchannels[i]) == TRANSIENT_FAILURE)
      modifies this`connectionDelayTimeout, this`currentSubchannelIndex, this`triedAllSubchannels, this`currentState,
               this`stickyTransientFailureMode, this`requestedResolutionSinceLastUpdate, this`reports,
               this`reresolutions, this`connectRequests, this`connectTicks
      ensures ReportOk() && StickyOk() && TimerForFirst(subchannels, states)
      ensures connectionDelayTimeout.Some? ==> stickyTransientFailureMode == old(stickyTransientFailureMode)
    {
      StartNextSubchannelConnecting(0, states, unhealthy);
      CalculateAndReportNewState(unhealthy);
    }

    /** Registers the listener on the children up to the first ready one. */
    method ListenUntilReady(ghost subchannels: seq<Subchannel>, states: Subchannel -> ConnectivityState)
      returns (ready: Option<nat>)
      requires RefsOk() && children == FreshChildren(subchannels) && forall s | s in listeners :: currentPick == Some(s)
      modifies this`listeners
      ensures RefsOk() && old(listeners) <= listeners
      ensures FirstReady(subchannels, states, ready)
      ensures ready.Some? ==> forall s :: s in listeners <==> s in old(listeners) || s in subchannels[..ready.value + 1]
      ensures ready.None? ==> forall j | 0 <= j < |subchannels| :: subchannels[j] in listeners
    {
      for i := 0 to |children|
        invariant RefsOk() && old(listeners) <= listeners
        invariant forall j | 0 <= j < i :: states(subchannels[j]) != READY && subchannels[j] in listeners
        invariant forall s :: s in listeners <==> s in old(listeners) || s in subchannels[..i]
      {
        OccursAt(children, i);
        assert children[i].subchannel == subchannels[i];
        assert subchannels[..i + 1] == subchannels[..i] + [subchannels[i]];
        listeners := listeners + {children[i].subchannel};
        if states(children[i].subchannel) == READY {
          return Some(i);
        }
      }
      return None;
    }

    static ghost predicate FirstReady(subchannels: seq<Subchannel>, states: Subchannel -> ConnectivityState,
                                      ready: Option<nat>) {
      && (ready.Some? ==> ready.value < |subchannels| && states(subchannels[ready.value]) == READY)
      && forall j | 0 <= j < (if ready.Some? then ready.value else |subchannels|) :: states(subchannels[j]) != READY
    }

    /** destroy() leaves the timer running; `Destroyed` is what the timer finds then. */
    ghost predicate Destroyed()
      reads this
    {
      children == [] && currentPick == None && !triedAllSubchannels && !requestedResolutionSinceLastUpdate
    }

    /** The next child is tried. A destroyed policy has tried them all: it asks for
        re-resolution, and reports IDLE exactly if it was not sticky. */
    method DelayTimerFired(states: Subchannel -> ConnectivityState, unhealthy: set<Subchannel>)
      requires (Valid() || Destroyed()) && connectionDelayTimeout.Some?
      modifies this
      ensures children == old(children) && currentPick == old(currentPick)
      ensures old(Valid()) ==> Valid()
      ensures old(Destroyed()) ==>
                && reresolutions == old(reresolutions) + 1
                && reports == old(reports) + (if old(stickyTransientFailureMode) then [] else [IDLE])
                && stickyTransientFailureMode && triedAllSubchannels && connectionDelayTimeout == None
    {
      StartNextSubchannelConnecting(connectionDelayTimeout.value + 1, states, unhealthy);
    }

    /** The pick's health decides between READY and TRANSIENT_FAILURE. */
    method HealthChanged(unhealthy: set<Subchannel>)
      requires Valid()
      modifies this`currentState, this`reports
      ensures Valid() && reports == old(reports) + [currentState]
      ensures currentPick.Some? ==>
                currentState ==
                  if reportHealthStatus && currentPick.value in unhealthy then TRANSIENT_FAILURE else READY
    {
      CalculateAndReportNewState(unhealthy);
    }

    /** The listener on some subchannel fires. */
    method OnSubchannelStateUpdate(s: Subchannel, newState: ConnectivityState, states: Subchannel -> ConnectivityState,
                                   unhealthy: set<Subchannel>)
      requires Valid() && s in listeners
      modifies this
      ensures Valid()
      ensures old(currentPick) == Some(s) && newState != READY ==>
                currentPick == None && children == old(children) && requestedResolutionSinceLastUpdate
                && listeners == old(listeners) - {s} && stickyTransientFailureMode == old(stickyTransientFailureMode)
                && (HearsAll() <==> old(HearsAll()) && Occurs(old(children), s) == 0)
                && (listeners == {} <==> old(listeners) == {s})
      ensures old(currentPick) == Some(s) && newState == READY ==>
                currentPick == old(currentPick) && children == old(children)
      ensures old(currentPick) != Some(s) && newState == READY ==> currentPick == Some(s) && children == []
      ensures old(currentPick) != Some(s) && newState != READY ==>
                currentPick == old(currentPick) && |children| == |old(children)|
      ensures if old(currentPick) == Some(s) then connectRequests == old(connectRequests)
              else connectRequests != [] && connectRequests[|connectRequests| - 1] == s
    {
      if currentPick == Some(s) {
        if newState != READY {
          HearsWithout(s);
          RemoveCurrentPick();
          CalculateAndReportNewState(unhealthy);
          RequestReresolution();
        }
        return;
      }
      ListenersAreChildren();
      for index := 0 to |children|
        invariant children == old(children) && currentPick == old(currentPick) && listeners == old(listeners) && Valid()
        invariant forall j | 0 <= j < index :: children[j].subchannel != s
      {
        if children[index].subchannel == s {
          if newState == READY {
            PickSubchannel(s, unhealthy);
          }
          if newState == TRANSIENT_FAILURE {
            ChildFailed(index, states, unhealthy);
          }
          connectRequests := connectRequests + [s];
          return;
        }
      }
    }

    /** Ceasing to listen to `s` leaves all children heard exactly if all were and
        `s` is not among them. */
    lemma {:induction false} HearsWithout(s: Subchannel)
      ensures (forall i | 0 <= i < |children| :: children[i].subchannel in listeners - {s})
              <==> HearsAll() && Occurs(children, s) == 0
    {
      if Occurs(children, s) > 0 {
        OccursSomewhere(children, s);
      }
      forall i | 0 <= i < |children| ensures Occurs(children, children[i].subchannel) > 0 {
        OccursAt(children, i);
      }
    }

    lemma ListenersAreChildren()
      requires Valid()
      ensures forall s | s in listeners && currentPick != Some(s) ::
                exists i :: 0 <= i < |children| && children[i].subchannel == s
    {
      forall s | s in listeners && currentPick != Some(s)
        ensures exists i :: 0 <= i < |children| && children[i].subchannel == s
      {
        OccursSomewhere(children, s);
      }
    }

    method ChildFailed(index: nat, states: Subchannel -> ConnectivityState, unhealthy: set<Subchannel>)
      requires Valid() && index < |children|
      modifies this`children, this`requestedResolutionSinceLastUpdate, this`stickyTransientFailureMode,
               this`currentState,
               this`connectionDelayTimeout, this`currentSubchannelIndex, this`triedAllSubchannels, this`reports,
               this`reresolutions, this`connectRequests, this`connectTicks
      ensures Valid() && |children| == |old(children)|
      ensures children == old(children)[index := old(children)[index].(hasReportedTransientFailure := true)]
    {
      children := children[index := children[index].(hasReportedTransientFailure := true)];
      forall s ensures Occurs(children, s) == Occurs(old(children), s) {
        OccursSame(children, old(children), s);
      }
      MaybeEnterStickyTransientFailureMode(unhealthy);
      if index == currentSubchannelIndex {
        StartNextSubchannelConnecting(index + 1, states, unhealthy);
      }
    }

    /** Everything held is given back. */
    method Destroy()
      requires Valid()
      modifies this
      ensures Destroyed() && listeners == {} && healthWatchers == {}
      ensures connectionDelayTimeout == old(connectionDelayTimeout)
              && stickyTransientFailureMode == old(stickyTransientFailureMode)
      ensures reports == old(reports) && reresolutions == old(reresolutions)
      ensures forall s :: refs(s) == 0 && channelzChildren(s) == 0
    {
      ResetSubchannelList();
      RemoveCurrentPick();
    }
  }

  /** The policy can lose sight of its children. Re-resolving to a list whose
      first entry is the current pick leaves the list in place with a listener
      on that entry alone; when the pick then disconnects, its listener goes
      too, and the policy reports CONNECTING with no listener on any child. */
  method StuckConnecting(a: Subchannel, b: Subchannel) returns (lb: PickFirstLoadBalancer)
    requires a != b
    ensures fresh(lb) && lb.Valid() && lb.currentState == CONNECTING && lb.currentPick == None
    ensures lb.children == [SubchannelChild(a, false), SubchannelChild(b, false)] && lb.listeners == {}
  {
    lb := new PickFirstLoadBalancer(false);
    var idle := (s: Subchannel) => IDLE;
    var aReady := (s: Subchannel) => if s == a then READY else IDLE;
    var list := [a, b];
    assert aReady(list[0]) == READY;
    var ready := lb.ConnectToAddressList(list, aReady, {});
    assert ready == Some(0);
    ready := lb.ConnectToAddressList(list, aReady, {});
    assert ready == Some(0);
    assert lb.children == [SubchannelChild(a, false), SubchannelChild(b, false)];
    lb.OnSubchannelStateUpdate(a, IDLE, idle, {});
  }

  /** The timer outlives the policy: one that is destroyed while it connects still
      asks for re-resolution, and reports IDLE, when the timer fires. */
  method DestroyedPolicyReports(a: Subchannel) returns (lb: PickFirstLoadBalancer)
    ensures fresh(lb) && lb.children == [] && lb.currentPick == None && lb.reresolutions > 0
    ensures lb.reports != [] && lb.reports[|lb.reports| - 1] == IDLE
  {
    lb := new PickFirstLoadBalancer(false);
    var idle := (s: Subchannel) => IDLE;
    var list := [a];
    assert idle(list[0]) == IDLE;
    var ready := lb.ConnectToAddressList(list, idle, {});
    lb.Destroy();
    lb.DelayTimerFired(idle, {});
  }
}
