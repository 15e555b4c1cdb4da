/**
 The retrying call and the buffer tracker it shares with the channel's other
 calls, in the imperative form of the source. Each method is tied to the state
 machine of `RetryState`, where the properties over runs are proved. Callbacks
 into the application, the listener and the child calls are assumed not to
 re-enter the call within the same step.
 */
module RetryingCalls {
  import opened Common
  import opened RetryState

  /** Sum of the allocations of some calls. */
  ghost function SumOver(m: map<nat, nat>, calls: set<nat>): nat
    requires calls <= m.Keys
  {
    if calls == {} then 0 else var k :| k in calls; m[k] + SumOver(m, calls - {k})
  }

  ghost function Total(m: map<nat, nat>): nat { SumOver(m, m.Keys) }

  /** The sum does not depend on the order in which the calls are taken. */
  lemma {:induction false} SumSplit(m: map<nat, nat>, calls: set<nat>, k: nat)
    requires calls <= m.Keys && k in calls
    ensures SumOver(m, calls) == m[k] + SumOver(m, calls - {k})
    decreases calls
  {
    var j :| j in calls && SumOver(m, calls) == m[j] + SumOver(m, calls - {j});
    if j != k {
      SumSplit(m, calls - {j}, k);
      SumSplit(m, calls - {k}, j);
      assert calls - {j} - {k} == calls - {k} - {j};
    }
  }

  lemma {:induction false} SumAgree(m: map<nat, nat>, n: map<nat, nat>, calls: set<nat>)
    requires calls <= m.Keys && calls <= n.Keys
    requires forall k | k in calls :: m[k] == n[k]
    ensures SumOver(m, calls) == SumOver(n, calls)
    decreases calls
  {
    if calls != {} {
      var k :| k in calls;
      SumSplit(m, calls, k);
      SumSplit(n, calls, k);
      SumAgree(m, n, calls - {k});
    }
  }

  lemma TotalSplit(m: map<nat, nat>, k: nat)
    requires k in m
    ensures Total(m) == m[k] + Total(m - {k})
  {
    SumSplit(m, m.Keys, k);
    assert (m - {k}).Keys == m.Keys - {k};
    SumAgree(m, m - {k}, m.Keys - {k});
  }

  /** Re-charging one call moves the total by exactly the difference. */
  lemma TotalUpdate(m: map<nat, nat>, k: nat, v: nat)
    ensures Total(m[k := v]) == Total(m) - (if k in m then m[k] else 0) + v
  {
    var m' := m[k := v];
    TotalSplit(m', k);
    if k in m {
      TotalSplit(m, k);
      assert m' - {k} == m - {k};
    } else {
      assert m' - {k} == m;
    }
  }

  class MessageBufferTracker {
    const totalLimit: nat
    const limitPerCall: nat
    var totalAllocated: nat
    var allocatedPerCall: map<nat, nat>

    ghost predicate Valid()
      reads this
    {
      && totalAllocated == Total(allocatedPerCall)
      && totalAllocated <= totalLimit
      && forall id | id in allocatedPerCall :: allocatedPerCall[id] <= limitPerCall
    }

    function Allocated(callId: nat): nat
      reads this
    {
      if callId in allocatedPerCall then allocatedPerCall[callId] else 0
    }

    /** Only the account of `callId` may have moved. */
    twostate predicate OthersKept(callId: nat)
      reads this
    {
      forall id | id != callId :: Allocated(id) == old(Allocated(id))
    }

    constructor (totalLimit: nat, limitPerCall: nat)
      ensures Valid() && totalAllocated == 0
      ensures this.totalLimit == totalLimit && this.limitPerCall == limitPerCall
      ensures forall id :: Allocated(id) == 0
    {
      this.totalLimit, this.limitPerCall := totalLimit, limitPerCall;
      totalAllocated, allocatedPerCall := 0, map[];
    }

    /** Any one account is part of the total. */
    lemma AccountFits(callId: nat)
      requires Valid()
      ensures Allocated(callId) <= totalAllocated
    {
      if callId in allocatedPerCall { TotalSplit(allocatedPerCall, callId); }
    }

    method Allocate(size: nat, callId: nat) returns (granted: bool)
      requires Valid()
      modifies this
      ensures Valid() && OthersKept(callId)
      ensures granted <==> old(Allocated(callId)) + size <= limitPerCall && old(totalAllocated) + size <= totalLimit
      ensures Allocated(callId) == old(Allocated(callId)) + (if granted then size else 0)
      ensures totalAllocated == old(totalAllocated) + (if granted then size else 0)
    {
      var currentPerCall := Allocated(callId);
      if limitPerCall - currentPerCall < size || totalLimit - totalAllocated < size {
        return false;
      }
      TotalUpdate(allocatedPerCall, callId, currentPerCall + size);
      allocatedPerCall := allocatedPerCall[callId := currentPerCall + size];
      totalAllocated := totalAllocated + size;
      return true;
    }

    /** `ok` is false where the source throws. */
    method Free(size: nat, callId: nat) returns (ok: bool)
      requires Valid()
      modifies this
      ensures ok <==> size <= old(Allocated(callId))
      ensures OthersKept(callId)
      ensures ok ==> Valid() && Allocated(callId) == old(Allocated(callId)) - size
      ensures ok ==> totalAllocated == old(totalAllocated) - size
    {
      AccountFits(callId);
      if totalAllocated < size {
        return false;
      }
      totalAllocated := totalAllocated - size;
      var currentPerCall := Allocated(callId);
      if currentPerCall < size {
        return false;
      }
      TotalUpdate(allocatedPerCall, callId, currentPerCall - size);
      allocatedPerCall := allocatedPerCall[callId := currentPerCall - size];
      return true;
    }

    /** `ok` is false where the source throws, which is never. */
    method FreeAll(callId: nat) returns (ok: bool)
      requires Valid()
      modifies this
      ensures ok && Valid() && OthersKept(callId) && Allocated(callId) == 0
      ensures totalAllocated == old(totalAllocated) - old(Allocated(callId))
    {
      AccountFits(callId);
      var currentPerCall := Allocated(callId);
      if totalAllocated < currentPerCall {
        return false;
      }
      if callId in allocatedPerCall {
        TotalSplit(allocatedPerCall, callId);
      } else {
        assert allocatedPerCall - {callId} == allocatedPerCall;
      }
      totalAllocated := totalAllocated - currentPerCall;
      allocatedPerCall := allocatedPerCall - {callId};
      return true;
    }
  }

  class RetryingCall {
    const policy: Policy
    const bufferTracker: MessageBufferTracker
    const callNumber: nat

    var state: RetryingCallState
    var underlyingCalls: seq<UnderlyingCall>
    var writeBuffer: seq<WriteBufferEntry>
    var writeBufferOffset: nat
    var transparentRetryUsed: bool
    var attempts: nat
    var committedCallIndex: Option<nat>
    /** Pending timers; each closure holds the index of the child it is about. */
    var hedgingTimer: bool
    var backoffTimers: seq<nat>
    var hedgeStatusTimers: seq<nat>

    ghost var written: seq<WriteOp>
    ghost var delivered: seq<nat>
    ghost var reports: nat
    ghost var notStartedRetries: nat
    /** What was decided about the callback of each write, and which were called. */
    var callbacks: seq<WriteCallback>
    var called: seq<nat>

    ghost function State(): Call
      reads this
    {
      Call(policy, state, underlyingCalls, writeBuffer, writeBufferOffset, transparentRetryUsed, attempts,
           committedCallIndex,
           hedgingTimer, backoffTimers, hedgeStatusTimers, written, delivered, reports, notStartedRetries,
           callbacks, called)
    }

    /** This call's account covers its buffered bytes, and until a status is
        reported it is exactly their sum. */
    ghost predicate TrackerInv()
      reads this, bufferTracker
    {
      && bufferTracker.Valid()
      && Charged(writeBuffer) <= bufferTracker.Allocated(callNumber)
      && (reports == 0 ==> Charged(writeBuffer) == bufferTracker.Allocated(callNumber))
    }

    ghost predicate Valid()
      reads this, bufferTracker
    {
      State().Inv() && TrackerInv()
    }

    /** Valid() implies all that any event below requires. */
    lemma ValidIsReady()
      requires Valid()
      ensures Ready() && TimersOk(backoffTimers, underlyingCalls) && TimersOk(hedgeStatusTimers, underlyingCalls)
      ensures (state == Retry ==> policy.RetryPolicy?) && (state == Hedging ==> policy.HedgingPolicy?)
    {
    }

    /** And every event keeps it. */
    twostate lemma EventKeepsValid(e: Event)
      requires old(Valid()) && Enabled(old(State()), e) && State() == Step(old(State()), e) && TrackerInv()
      ensures Valid() && old(State()).EvolvesTo(State())
    {
      StepKeeps(old(State()), e);
    }

    /** Steps of other calls on the same tracker cannot break this one. */
    twostate lemma StableUnderOthers(other: nat)
      requires old(Valid()) && unchanged(this) && other != callNumber
      requires bufferTracker.Valid() && bufferTracker.OthersKept(other)
      ensures Valid()
    {
    }

    constructor (policy: Policy, bufferTracker: MessageBufferTracker, callNumber: nat)
      requires policy.Valid() && bufferTracker.Valid() && bufferTracker.Allocated(callNumber) == 0
      ensures Valid() && State() == Initial(policy)
      ensures this.policy == policy && this.bufferTracker == bufferTracker && this.callNumber == callNumber
    {
      this.policy, this.bufferTracker, this.callNumber := policy, bufferTracker, callNumber;
      state :=
        match policy
        case RetryPolicy(_) => Retry
        case HedgingPolicy(_) => Hedging
        case NoPolicy => TransparentOnly;
      underlyingCalls, writeBuffer, writeBufferOffset := [], [], 0;
      transparentRetryUsed, attempts, committedCallIndex := false, 0, None;
      hedgingTimer, backoffTimers, hedgeStatusTimers := false, [], [];
      written, delivered, reports, notStartedRetries := [], [], 0, 0;
      callbacks, called := [], [];
    }

    function GetBufferEntry(messageIndex: nat): WriteBufferEntry
      reads this
    {
      if 0 <= messageIndex - writeBufferOffset < |writeBuffer| then writeBuffer[messageIndex - writeBufferOffset]
      else Freed
    }

    function GetNextBufferIndex(): nat
      reads this
    {
      writeBufferOffset + |writeBuffer|
    }

    /** What the helpers may rely on halfway through a step. */
    ghost predicate Ready()
      reads this, bufferTracker
    {
      && TrackerInv() && State().Committable() && (committedCallIndex.Some? ==> state == Committed)
      && (reports == 0 ==>
            if state == Committed then writeBufferOffset <= underlyingCalls[committedCallIndex.value].nextMessageToSend
            else writeBufferOffset == 0)
    }

    method ReportStatus()
      requires bufferTracker.Valid()
      modifies bufferTracker, this`writeBuffer, this`writeBufferOffset, this`reports
      ensures State() == old(State()).ReportStatus()
      ensures TrackerInv() && bufferTracker.OthersKept(callNumber) && bufferTracker.Allocated(callNumber) == 0
    {
      var ok := bufferTracker.FreeAll(callNumber);
      writeBufferOffset := writeBufferOffset + |writeBuffer|;
      writeBuffer := [];
      reports := reports + 1;
    }

    /** Frees and drops what the committed child no longer needs. */
    method ClearSentMessages()
      requires Ready()
      modifies bufferTracker, this`writeBuffer, this`writeBufferOffset
      ensures State() == old(State()).ClearSentMessages()
      ensures TrackerInv() && bufferTracker.OthersKept(callNumber)
    {
      if state != Committed {
        return;
      }
      var earliestNeeded := underlyingCalls[committedCallIndex.value].nextMessageToSend;
      FreeSent(earliestNeeded);
      KeepRest(earliestNeeded);
    }

    /** The account was relieved of what is dropped. */
    method KeepRest(earliestNeeded: nat)
      requires bufferTracker.Valid() && (reports == 0 ==> writeBufferOffset <= earliestNeeded)
      requires var account := bufferTracker.Allocated(callNumber)
                              + ChargedTo(writeBuffer, Before(writeBuffer, earliestNeeded - writeBufferOffset));
               Charged(writeBuffer) <= account && (reports == 0 ==> Charged(writeBuffer) == account)
      modifies this`writeBuffer, this`writeBufferOffset
      ensures TrackerInv() && writeBufferOffset == earliestNeeded
      ensures writeBuffer == JsSlice(old(writeBuffer), earliestNeeded - old(writeBufferOffset))
    {
      ChargedSlice(writeBuffer, earliestNeeded - writeBufferOffset);
      writeBuffer := JsSlice(writeBuffer, earliestNeeded - writeBufferOffset);
      writeBufferOffset := earliestNeeded;
    }

    /** The loop of clearSentMessages. No free in it throws, in any state. */
    method FreeSent(earliestNeeded: nat)
      requires TrackerInv()
      modifies bufferTracker
      ensures bufferTracker.Valid() && bufferTracker.OthersKept(callNumber)
      ensures bufferTracker.Allocated(callNumber) ==
                old(bufferTracker.Allocated(callNumber))
                - ChargedTo(writeBuffer, Before(writeBuffer, earliestNeeded - writeBufferOffset))
    {
      var messageIndex := writeBufferOffset;
      while messageIndex < earliestNeeded
        invariant writeBufferOffset <= messageIndex
        invariant messageIndex <= earliestNeeded || messageIndex == writeBufferOffset
        invariant bufferTracker.Valid() && bufferTracker.OthersKept(callNumber)
        invariant bufferTracker.Allocated(callNumber) ==
                    old(bufferTracker.Allocated(callNumber))
                    - ChargedTo(writeBuffer, Before(writeBuffer, messageIndex - writeBufferOffset))
      {
        var entry := GetBufferEntry(messageIndex);
        if messageIndex - writeBufferOffset < |writeBuffer| {
          ChargedMonotone(writeBuffer, messageIndex - writeBufferOffset + 1, |writeBuffer|);
        }
        if entry.Message? && entry.isAllocated {
          var ok := bufferTracker.Free(|entry.message|, callNumber);
          assert ok;
        }
        messageIndex := messageIndex + 1;
      }
    }

    method CommitCall(index: nat)
      requires Ready() && index < |underlyingCalls|
      modifies bufferTracker, this`state, this`committedCallIndex, this`underlyingCalls, this`writeBuffer,
               this`writeBufferOffset
      ensures State() == old(State()).CommitCall(index)
      ensures TrackerInv() && bufferTracker.OthersKept(callNumber)
    {
      if state == Committed {
        return;
      }
      if underlyingCalls[index].state == Completed {
        return;
      }
      SetCommitted(index);
      ClearSentMessages();
    }

    method SetCommitted(index: nat)
      requires Ready() && index < |underlyingCalls| && state != Committed
      modifies this`state, this`committedCallIndex, this`underlyingCalls
      ensures State() == old(State()).(state := Committed, committedCallIndex := Some(index),
                                       underlyingCalls := CompleteOthers(old(underlyingCalls), index))
      ensures Ready()
    {
      state := Committed;
      committedCallIndex := Some(index);
      CancelOthers(index);
    }

    /** The loop that discards the other children. */
    method CancelOthers(index: nat)
      modifies this`underlyingCalls
      ensures underlyingCalls == CompleteOthers(old(underlyingCalls), index)
    {
      var i := 0;
      while i < |underlyingCalls|
        invariant i <= |underlyingCalls| == |old(underlyingCalls)|
        invariant forall j | 0 <= j < |underlyingCalls| ::
                    underlyingCalls[j] ==
                      if j < i then CompleteOthers(old(underlyingCalls), index)[j] else old(underlyingCalls)[j]
      {
        if i != index && underlyingCalls[i].state != Completed {
          underlyingCalls := underlyingCalls[i := underlyingCalls[i].Complete()];
        }
        i := i + 1;
      }
    }

    method CommitCallWithMostMessages()
      requires Ready()
      modifies bufferTracker, this`state, this`committedCallIndex, this`underlyingCalls, this`writeBuffer,
               this`writeBufferOffset
      ensures State() == old(State()).CommitCallWithMostMessages()
      ensures TrackerInv() && bufferTracker.OthersKept(callNumber)
    {
      if state == Committed {
        return;
      }
      var mostMessages: int, callWithMostMessages: int := -1, -1;
      var index := 0;
      while index < |underlyingCalls|
        invariant index <= |underlyingCalls|
        invariant Furthest(underlyingCalls[..index]) ==
                    if callWithMostMessages < 0 then None else Some(callWithMostMessages)
        invariant mostMessages
                  == if 0 <= callWithMostMessages < index then
                     underlyingCalls[callWithMostMessages].nextMessageToSend else -1
        invariant -1 <= callWithMostMessages < index
      {
        assert underlyingCalls[..index + 1][..index] == underlyingCalls[..index];
        if underlyingCalls[index].state == Active && underlyingCalls[index].nextMessageToSend > mostMessages {
          mostMessages := underlyingCalls[index].nextMessageToSend;
          callWithMostMessages := index;
        }
        index := index + 1;
      }
      assert underlyingCalls[..index] == underlyingCalls;
      if callWithMostMessages == -1 {
        state := TransparentOnly;
      } else {
        CommitCall(callWithMostMessages);
      }
    }

    method SendNextChildMessage(childIndex: nat)
      requires childIndex < |underlyingCalls|
      modifies this`underlyingCalls
      ensures var child := old(underlyingCalls)[childIndex];
              underlyingCalls == old(underlyingCalls)[childIndex := child.Give(GetBufferEntry(child.nextMessageToSend))]
    {
      var childCall := underlyingCalls[childIndex];
      if childCall.state == Completed {
        return;
      }
      match GetBufferEntry(childCall.nextMessageToSend) {
        case Message(m, _, _) => underlyingCalls := underlyingCalls[childIndex := childCall.GiveMessage(m)];
        case HalfClose => underlyingCalls := underlyingCalls[childIndex := childCall.GiveHalfClose()];
        case Freed =>
      }
    }

    method StartNewAttempt()
      modifies this`underlyingCalls
      ensures State() == old(State()).StartNewAttempt()
    {
      var index := |underlyingCalls|;
      underlyingCalls := underlyingCalls + [FRESH_CALL];
      SendNextChildMessage(index);
      assert underlyingCalls == old(underlyingCalls) + [FRESH_CALL.Give(GetBufferEntry(0))];
    }

    /** The loop that hands a fresh write to the children waiting for it. */
    method OfferToAll(index: nat, op: WriteOp)
      modifies this`underlyingCalls
      ensures State() == old(State()).Offer(index, op)
    {
      var i := 0;
      while i < |underlyingCalls|
        invariant i <= |underlyingCalls| == |old(underlyingCalls)|
        invariant forall j | 0 <= j < |underlyingCalls| ::
                    underlyingCalls[j] ==
                      if j < i then OfferAll(old(underlyingCalls), index, op)[j] else old(underlyingCalls)[j]
      {
        if underlyingCalls[i].state == Active && underlyingCalls[i].nextMessageToSend == index {
          match op {
            case Send(m) => underlyingCalls := underlyingCalls[i := underlyingCalls[i].GiveMessage(m)];
            case End => underlyingCalls := underlyingCalls[i := underlyingCalls[i].GiveHalfClose()];
          }
        }
        i := i + 1;
      }
      assert underlyingCalls == OfferAll(old(underlyingCalls), index, op);
    }

    // ----- Events: calls of the application -----

    method Start()
      requires Ready() && attempts == 0 && (state == Hedging ==> policy.HedgingPolicy?)
      modifies this
      ensures TrackerInv() && State() == old(State()).Start()
    {
      attempts := attempts + 1;
      StartNewAttempt();
      MaybeStartHedgingTimer();
    }

    /** Appends an entry whose bytes are already charged. */
    method PushEntry(entry: WriteBufferEntry, ghost op: WriteOp)
      requires bufferTracker.Valid()
      requires Charged(writeBuffer) + entry.Charge() <= bufferTracker.Allocated(callNumber)
      requires reports == 0 ==> Charged(writeBuffer) + entry.Charge() == bufferTracker.Allocated(callNumber)
      modifies this`writeBuffer, this`written, this`callbacks
      ensures State() == old(State()).Buffer(entry, op) && TrackerInv()
    {
      ChargedAppend(writeBuffer, entry);
      writeBuffer := writeBuffer + [entry];
      written := written + [op];
      callbacks := callbacks + [Never];
    }

    /** `granted` is what the tracker decided. */
    method SendMessage(message: Bytes) returns (granted: bool)
      requires Ready()
      modifies this, bufferTracker
      ensures TrackerInv() && bufferTracker.OthersKept(callNumber)
      ensures State() == old(State()).SendMessage(message, granted)
      ensures granted <==>
                && old(bufferTracker.Allocated(callNumber)) + |message| <= bufferTracker.limitPerCall
                && old(bufferTracker.totalAllocated) + |message| <= bufferTracker.totalLimit
    {
      var messageIndex := GetNextBufferIndex();
      granted := bufferTracker.Allocate(|message|, callNumber);
      PushEntry(Message(message, granted, None), Send(message));
      if granted {
        CallAtOnce();
        OfferToAll(messageIndex, Send(message));
      } else {
        SendOverLimit(messageIndex, message);
      }
    }

    /** Over the limit, the call commits to a child, and only that child gets the write. */
    method SendOverLimit(messageIndex: nat, message: Bytes)
      requires Ready()
      modifies this, bufferTracker
      ensures TrackerInv() && bufferTracker.OthersKept(callNumber)
      ensures State() == old(State()).CommitCallWithMostMessages().OfferCommitted(messageIndex, message)
    {
      CommitCallWithMostMessages();
      OfferCommitted(messageIndex, message);
    }

    /** The callback of the write just buffered is called. */
    method CallAtOnce()
      modifies this`callbacks, this`called
      ensures State() == old(State()).CallAtOnce()
    {
      if callbacks != [] {
        called := called + [|callbacks| - 1];
        callbacks := callbacks[|callbacks| - 1 := AtOnce];
      }
    }

    method OfferCommitted(messageIndex: nat, message: Bytes)
      requires committedCallIndex.Some? ==> committedCallIndex.value < |underlyingCalls|
      requires TrackerInv()
      modifies this`underlyingCalls, this`writeBuffer, this`callbacks
      ensures State() == old(State()).OfferCommitted(messageIndex, message) && TrackerInv()
    {
      if committedCallIndex.None? {
        return;
      }
      var index := committedCallIndex.value;
      AttachCallback();
      var call := underlyingCalls[index];
      if call.state == Active && call.nextMessageToSend == messageIndex {
        underlyingCalls := underlyingCalls[index := call.GiveMessage(message)];
      }
    }

    /** The callback is left with the entry of the write just buffered. */
    method AttachCallback()
      requires TrackerInv()
      modifies this`writeBuffer, this`callbacks
      ensures State() == old(State()).AttachCallback() && TrackerInv()
    {
      var n := |writeBuffer| - 1;
      if n >= 0 && writeBuffer[n].Message? && callbacks != [] {
        var entry := writeBuffer[n].(callback := Some(|callbacks| - 1));
        ChargedReplace(writeBuffer, n, entry, |writeBuffer|);
        writeBuffer := writeBuffer[n := entry];
        callbacks := callbacks[|callbacks| - 1 := WithSend];
      }
    }

    method HalfCloseCall()
      requires Ready()
      modifies this
      ensures TrackerInv() && State() == old(State()).HalfCloseCall()
    {
      var halfCloseIndex := GetNextBufferIndex();
      PushEntry(HalfClose, End);
      OfferToAll(halfCloseIndex, End);
    }

    /** The statuses of the cancelled children arrive as later events. */
    method CancelWithStatus()
      requires Ready()
      modifies this, bufferTracker
      ensures TrackerInv() && bufferTracker.OthersKept(callNumber) && bufferTracker.Allocated(callNumber) == 0
      ensures State() == old(State()).ReportStatus()
    {
      ReportStatus();
    }

    // ----- Events: callbacks of the children -----

    method HandleChildWriteCompleted(childIndex: nat)
      requires Ready() && childIndex < |underlyingCalls| && underlyingCalls[childIndex].inFlight > 0
      modifies this, bufferTracker
      ensures TrackerInv() && bufferTracker.OthersKept(callNumber)
      ensures State() == old(State()).HandleChildWriteCompleted(childIndex)
    {
      CallBack(underlyingCalls[childIndex].nextMessageToSend);
      AdvanceChild(childIndex);
    }

    /** The callback that the entry carries, if any, is called. */
    method CallBack(messageIndex: nat)
      modifies this`called
      ensures State() == old(State()).CallBack(messageIndex)
    {
      var entry := GetBufferEntry(messageIndex);
      if entry.Message? && entry.callback.Some? {
        called := called + [entry.callback.value];
      }
    }

    method AdvanceChild(childIndex: nat)
      requires Ready() && childIndex < |underlyingCalls| && underlyingCalls[childIndex].inFlight > 0
      modifies bufferTracker, this`writeBuffer, this`writeBufferOffset, this`underlyingCalls
      ensures TrackerInv() && bufferTracker.OthersKept(callNumber)
      ensures State() == old(State()).AdvanceChild(childIndex)
    {
      ClearSentMessages();
      underlyingCalls := underlyingCalls[childIndex := underlyingCalls[childIndex].WriteDone()];
      SendNextChildMessage(childIndex);
      assert underlyingCalls == old(State()).AdvanceChild(childIndex).underlyingCalls;
    }

    /** Metadata or a message arrives on a child. */
    method OnReceiveData(index: nat)
      requires Ready() && index < |underlyingCalls|
      modifies this, bufferTracker
      ensures TrackerInv() && bufferTracker.OthersKept(callNumber)
      ensures State() == old(State()).OnReceiveData(index)
    {
      CommitCall(index);
      if underlyingCalls[index].state == Active {
        delivered := delivered + [index];
      }
    }

    method HandleChildStatus(callIndex: nat, ok: bool, progress: RpcProgress, listed: bool, pushback: Pushback)
      requires Ready() && callIndex < |underlyingCalls|
      requires (state == Retry ==> policy.RetryPolicy?) && (state == Hedging ==> policy.HedgingPolicy?)
      modifies this, bufferTracker
      ensures TrackerInv() && bufferTracker.OthersKept(callNumber)
      ensures State() == old(State()).HandleChildStatus(callIndex, ok, progress, listed, pushback)
    {
      if underlyingCalls[callIndex].state == Completed {
        return;
      }
      CompleteChild(callIndex);
      if ok {
        CommitAndReport(callIndex);
        return;
      }
      if state == Committed {
        ReportStatus();
        return;
      }
      HandleProgress(callIndex, progress, listed, pushback);
    }

    method CompleteChild(callIndex: nat)
      requires Ready() && callIndex < |underlyingCalls|
      modifies this`underlyingCalls
      ensures Ready() && |underlyingCalls| == |old(underlyingCalls)|
      ensures underlyingCalls[callIndex] == old(underlyingCalls)[callIndex].Complete()
      ensures State() == old(State()).(underlyingCalls := old(underlyingCalls)[callIndex := underlyingCalls[callIndex]])
    {
      underlyingCalls := underlyingCalls[callIndex := underlyingCalls[callIndex].Complete()];
    }

    /** The child is completed already, so that the call does not commit to it. */
    method CommitAndReport(callIndex: nat)
      requires Ready() && callIndex < |underlyingCalls| && underlyingCalls[callIndex].state == Completed
      modifies bufferTracker, this`state, this`committedCallIndex, this`underlyingCalls, this`writeBuffer,
               this`writeBufferOffset, this`reports
      ensures TrackerInv() && bufferTracker.OthersKept(callNumber) && State() == old(State()).ReportStatus()
    {
      CommitCall(callIndex);
      ReportStatus();
    }

    /** The switch over how far the failed attempt had got. */
    method HandleProgress(callIndex: nat, progress: RpcProgress, listed: bool, pushback: Pushback)
      requires Ready() && callIndex < |underlyingCalls| && underlyingCalls[callIndex].state == Completed
               && state != Committed
      requires (state == Retry ==> policy.RetryPolicy?) && (state == Hedging ==> policy.HedgingPolicy?)
      modifies this, bufferTracker
      ensures TrackerInv() && bufferTracker.OthersKept(callNumber)
      ensures State() == old(State()).HandleProgress(callIndex, progress, listed, pushback)
    {
      match progress {
        case NotStarted =>
          StartNewAttempt();
          notStartedRetries := notStartedRetries + 1;
        case Refused =>
          if transparentRetryUsed {
            HandleProcessedStatus(callIndex, listed, pushback);
          } else {
            transparentRetryUsed := true;
            StartNewAttempt();
          }
        case Drop =>
          CommitAndReport(callIndex);
        case Processed =>
          HandleProcessedStatus(callIndex, listed, pushback);
      }
    }

    method HandleProcessedStatus(callIndex: nat, listed: bool, pushback: Pushback)
      requires Ready() && callIndex < |underlyingCalls| && underlyingCalls[callIndex].state == Completed
      requires (state == Retry ==> policy.RetryPolicy?) && (state == Hedging ==> policy.HedgingPolicy?)
      modifies bufferTracker, this`state, this`committedCallIndex, this`underlyingCalls, this`writeBuffer,
               this`writeBufferOffset,
               this`reports, this`backoffTimers, this`hedgeStatusTimers
      ensures TrackerInv() && bufferTracker.OthersKept(callNumber)
      ensures State() == old(State()).HandleProcessedStatus(callIndex, listed, pushback)
    {
      match state {
        case Committed =>
          CommitAndReport(callIndex);
        case TransparentOnly =>
          CommitAndReport(callIndex);
        case Hedging =>
          if listed {
            if pushback.Negative() {
              state := TransparentOnly;
              CommitAndReport(callIndex);
              return;
            }
            hedgeStatusTimers := hedgeStatusTimers + [callIndex];
          } else {
            CommitAndReport(callIndex);
          }
        case Retry =>
          if listed {
            MaybeRetryCall(callIndex, pushback);
          } else {
            CommitAndReport(callIndex);
          }
      }
    }

    method MaybeRetryCall(callIndex: nat, pushback: Pushback)
      requires Ready() && callIndex < |underlyingCalls| && underlyingCalls[callIndex].state == Completed
      requires state == Retry && policy.RetryPolicy?
      modifies bufferTracker, this`state, this`committedCallIndex, this`underlyingCalls, this`writeBuffer,
               this`writeBufferOffset,
               this`reports, this`backoffTimers
      ensures TrackerInv() && bufferTracker.OthersKept(callNumber)
      ensures State() == old(State()).HandleProcessedStatus(callIndex, true, pushback)
    {
      if attempts >= Min(policy.maxAttempts, 5) {
        CommitAndReport(callIndex);
        return;
      }
      if pushback.Negative() {
        state := TransparentOnly;
        CommitAndReport(callIndex);
        return;
      }
      backoffTimers := backoffTimers + [callIndex];
    }

    // ----- Events: timers -----

    method BackoffTimerFired(canRetry: bool)
      requires Ready() && backoffTimers != [] && TimersOk(backoffTimers, underlyingCalls)
      modifies this, bufferTracker
      ensures TrackerInv() && bufferTracker.OthersKept(callNumber)
      ensures State() == old(State()).BackoffTimerFired(canRetry)
    {
      var callIndex := backoffTimers[0];
      backoffTimers := backoffTimers[1..];
      if state != Retry {
        CommitAndReport(callIndex);
        return;
      }
      if canRetry {
        attempts := attempts + 1;
        StartNewAttempt();
      }
    }

    /** The delayed half of a non-fatal hedged status. */
    method HedgeStatusTimerFired(timer: nat)
      requires Ready() && timer < |hedgeStatusTimers| && TimersOk(hedgeStatusTimers, underlyingCalls)
      requires state == Hedging ==> policy.HedgingPolicy?
      modifies this, bufferTracker
      ensures TrackerInv() && bufferTracker.OthersKept(callNumber)
      ensures State() == old(State()).HedgeStatusTimerFired(timer)
    {
      var callIndex := hedgeStatusTimers[timer];
      hedgeStatusTimers := Without(hedgeStatusTimers, timer);
      MaybeStartHedgingAttempt();
      var active := CountActiveCalls();
      if active == 0 {
        CommitAndReport(callIndex);
      }
    }

    method CountActiveCalls() returns (count: nat)
      ensures count == 0 <==> AllCompleted(underlyingCalls)
    {
      count := 0;
      for i := 0 to |underlyingCalls|
        invariant count == 0 <==> forall j | 0 <= j < i :: underlyingCalls[j].state == Completed
      {
        if underlyingCalls[i].state == Active {
          count := count + 1;
        }
      }
    }

    method HedgingTimerFired()
      requires Ready() && hedgingTimer && (state == Hedging ==> policy.HedgingPolicy?)
      modifies this
      ensures TrackerInv() && State() == old(State()).HedgingTimerFired()
    {
      hedgingTimer := false;
      MaybeStartHedgingAttempt();
    }

    method MaybeStartHedgingAttempt()
      requires state == Hedging ==> policy.HedgingPolicy?
      modifies this`attempts, this`underlyingCalls, this`hedgingTimer
      ensures State() == old(State()).MaybeStartHedgingAttempt()
    {
      if state != Hedging {
        return;
      }
      if attempts >= Min(policy.maxAttempts, 5) {
        return;
      }
      attempts := attempts + 1;
      StartNewAttempt();
      MaybeStartHedgingTimer();
    }

    method MaybeStartHedgingTimer()
      requires state == Hedging ==> policy.HedgingPolicy?
      modifies this`hedgingTimer
      ensures State() == old(State()).MaybeStartHedgingTimer()
    {
      hedgingTimer := false;
      if state != Hedging {
        return;
      }
      if attempts >= Min(policy.maxAttempts, 5) {
        return;
      }
      hedgingTimer := true;
    }
  }
}
