/**
 Client retries (gRFC A6) as a state machine: one call fans its application
 writes out to several child attempts, commits to one of them, and keeps the
 writes it may still have to replay in an index-offset buffer. Each callback is
 one atomic step; `RetryingCalls.RetryingCall` is the imperative form.
 */
module RetryState {
  import opened Common

  /** What an application writes, and what a child attempt is handed. */
  datatype WriteOp = Send(message: Bytes) | End

  /** `callback` is the write whose callback the entry carries, if any. */
  datatype WriteBufferEntry =
    | Message(message: Bytes, isAllocated: bool, callback: Option<nat>)
    | HalfClose
    | Freed
  {
    function Charge(): nat {
      if Message? && isAllocated then |message| else 0
    }

    predicate Holds(op: WriteOp) {
      match this
      case Message(m, _, _) => op == Send(m)
      case HalfClose => op == End
      case Freed => false
    }
  }

  /** Bytes charged for the first `n` entries. */
  function ChargedTo(buffer: seq<WriteBufferEntry>, n: nat): nat
    requires n <= |buffer|
  {
    if n == 0 then 0 else ChargedTo(buffer, n - 1) + buffer[n - 1].Charge()
  }

  function Charged(buffer: seq<WriteBufferEntry>): nat { ChargedTo(buffer, |buffer|) }

  lemma {:induction false} ChargedMonotone(buffer: seq<WriteBufferEntry>, m: nat, n: nat)
    requires m <= n <= |buffer|
    ensures ChargedTo(buffer, m) <= ChargedTo(buffer, n)
  {
    if m < n { ChargedMonotone(buffer, m, n - 1); }
  }

  /** Only the entries themselves matter, wherever they sit. */
  lemma {:induction false} ChargedShift(a: seq<WriteBufferEntry>, b: seq<WriteBufferEntry>, at: nat, n: nat)
    requires at + n <= |a| && n <= |b|
    requires forall k | 0 <= k < n :: b[k] == a[at + k]
    ensures ChargedTo(a, at + n) == ChargedTo(a, at) + ChargedTo(b, n)
  {
    if n > 0 { ChargedShift(a, b, at, n - 1); }
  }

  lemma ChargedAppend(buffer: seq<WriteBufferEntry>, entry: WriteBufferEntry)
    ensures Charged(buffer + [entry]) == Charged(buffer) + entry.Charge()
  {
    ChargedShift(buffer + [entry], buffer, 0, |buffer|);
  }

  lemma {:induction false} ChargedReplace(buffer: seq<WriteBufferEntry>, k: nat, entry: WriteBufferEntry, n: nat)
    requires k < |buffer| && n <= |buffer| && entry.Charge() == buffer[k].Charge()
    ensures ChargedTo(buffer[k := entry], n) == ChargedTo(buffer, n)
  {
    if n > 0 { ChargedReplace(buffer, k, entry, n - 1); }
  }

  /** How much of the buffer a slice from `start` leaves behind. */
  function Before(buffer: seq<WriteBufferEntry>, start: int): nat {
    if start <= 0 then 0 else Min(start, |buffer|)
  }

  /** Slicing never raises the charge, even with JavaScript's negative start. */
  lemma {:induction false} ChargedSlice(buffer: seq<WriteBufferEntry>, start: int)
    ensures Charged(JsSlice(buffer, start)) + ChargedTo(buffer, Before(buffer, start)) <= Charged(buffer)
    ensures 0 <= start ==> Charged(JsSlice(buffer, start)) + ChargedTo(buffer, Before(buffer, start)) == Charged(buffer)
  {
    var at := if start > |buffer| then |buffer| else if 0 <= start then start
              else if -start >= |buffer| then 0 else |buffer| + start;
    assert JsSlice(buffer, start) == buffer[at..];
    ChargedShift(buffer, buffer[at..], at, |buffer| - at);
    ChargedMonotone(buffer, Before(buffer, start), at);
  }

  datatype UnderlyingCallState = Active | Completed

  /** A child attempt: its bookkeeping, and what its load-balancing call has
      been handed so far (`inFlight` counts sends whose callback is pending). */
  datatype UnderlyingCall = UnderlyingCall(
    state: UnderlyingCallState, nextMessageToSend: nat, sent: seq<WriteOp>, inFlight: nat)
  {
    function Complete(): UnderlyingCall { this.(state := Completed) }

    function GiveMessage(m: Bytes): UnderlyingCall {
      this.(sent := sent + [Send(m)], inFlight := inFlight + 1)
    }

    function GiveHalfClose(): UnderlyingCall {
      this.(sent := sent + [End], nextMessageToSend := nextMessageToSend + 1)
    }

    /** What sendNextChildMessage does with the entry at nextMessageToSend. */
    function Give(entry: WriteBufferEntry): UnderlyingCall {
      if state == Completed then this
      else match entry
           case Message(m, _, _) => GiveMessage(m)
           case HalfClose => GiveHalfClose()
           case Freed => this
    }

    /** A fresh write at `index` goes to the active children waiting for it. */
    function Offer(index: nat, op: WriteOp): UnderlyingCall {
      if state == Active && nextMessageToSend == index then
        match op
        case Send(m) => GiveMessage(m)
        case End => GiveHalfClose()
      else this
    }

    function WriteDone(): UnderlyingCall
      requires inFlight > 0
    {
      this.(inFlight := inFlight - 1, nextMessageToSend := nextMessageToSend + 1)
    }

    /** The child has been handed exactly a prefix of the writes, in order and
        once each, with at most its last message still in flight. */
    ghost predicate SentPrefixOf(written: seq<WriteOp>) {
      && inFlight <= 1
      && nextMessageToSend + inFlight <= |written|
      && sent == written[..nextMessageToSend + inFlight]
      && (inFlight == 1 ==> written[nextMessageToSend].Send?)
    }

    /** An active child only rests when it has everything, or has half-closed. */
    ghost predicate NotStalled(written: seq<WriteOp>) {
      state == Active && inFlight == 0 ==>
        || nextMessageToSend == |written|
        || (0 < nextMessageToSend <= |written| && written[nextMessageToSend - 1] == End)
    }
  }

  const FRESH_CALL := UnderlyingCall(Active, 0, [], 0)

  function CompleteOthers(calls: seq<UnderlyingCall>, index: nat): seq<UnderlyingCall> {
    seq(|calls|, i requires 0 <= i < |calls| => if i == index then calls[i] else calls[i].Complete())
  }

  function OfferAll(calls: seq<UnderlyingCall>, index: nat, op: WriteOp): seq<UnderlyingCall> {
    seq(|calls|, i requires 0 <= i < |calls| => calls[i].Offer(index, op))
  }

  lemma OfferKeeps(c: UnderlyingCall, written: seq<WriteOp>, op: WriteOp)
    requires c.SentPrefixOf(written)
    ensures c.SentPrefixOf(written + [op])
    ensures c.Offer(|written|, op).SentPrefixOf(written + [op])
    ensures c.NotStalled(written) ==> c.Offer(|written|, op).NotStalled(written + [op])
  {
  }

  datatype RetryingCallState = Retry | Hedging | TransparentOnly | Committed

  datatype Policy = RetryPolicy(maxAttempts: nat) | HedgingPolicy(maxAttempts: nat) | NoPolicy {
    predicate Valid() { NoPolicy? || maxAttempts >= 2 }

    function AttemptLimit(): nat {
      if NoPolicy? then 1 else Min(maxAttempts, 5)
    }
  }

  /** When the callback of an application's write is called: at once, with the end
      of the committed child's send, or never. */
  datatype WriteCallback = AtOnce | WithSend | Never

  datatype RpcProgress = NotStarted | Refused | Drop | Processed

  /** The grpc-retry-pushback-ms trailer after parseInt. */
  datatype Pushback = NoPushback | NotANumber | Millis(ms: int) {
    predicate Negative() { Millis? && ms < 0 }
  }

  // ----- What holds of a call in every reachable state -----

  ghost predicate AllCompleted(calls: seq<UnderlyingCall>) {
    forall i | 0 <= i < |calls| :: calls[i].state == Completed
  }

  /** At most one call is committed, every other child is then completed, and
      only the committed child has delivered anything. */
  ghost predicate CommitOk(state: RetryingCallState, committed: Option<nat>, calls: seq<UnderlyingCall>,
                           delivered: seq<nat>) {
    && (state == Committed <==> committed.Some?)
    && (committed.Some? ==>
          && committed.value < |calls|
          && forall i | 0 <= i < |calls| && i != committed.value :: calls[i].state == Completed)
    && (forall i | 0 <= i < |delivered| :: committed == Some(delivered[i]))
  }

  ghost predicate AtMostOneActive(calls: seq<UnderlyingCall>) {
    forall i, j | 0 <= i < j < |calls| :: calls[i].state == Completed || calls[j].state == Completed
  }

  /** Attempts stay within the limit. In RETRY mode at most one child is live,
      and none while a backoff timer is pending. */
  ghost predicate AttemptsOk(policy: Policy, state: RetryingCallState, calls: seq<UnderlyingCall>, attempts: nat,
                             timers: nat) {
    && attempts <= policy.AttemptLimit()
    && (state == Hedging ==> policy.HedgingPolicy?)
    && (state == Retry ==>
          && policy.RetryPolicy? && timers <= 1 && AtMostOneActive(calls)
          && (timers == 1 ==> attempts < policy.AttemptLimit() && AllCompleted(calls)))
  }

  /** The timers that are left when one has fired. */
  function Without(timers: seq<nat>, k: nat): seq<nat>
    requires k < |timers|
  {
    timers[..k] + timers[k + 1..]
  }

  /** Timers are about completed children. */
  ghost predicate TimersOk(timers: seq<nat>, calls: seq<UnderlyingCall>) {
    forall i | 0 <= i < |timers| :: timers[i] < |calls| && calls[timers[i]].state == Completed
  }

  /** The buffer is the tail of the writes some child may still need, and every
      child has been handed a prefix of the writes. */
  ghost predicate BufferOk(buffer: seq<WriteBufferEntry>, offset: nat, written: seq<WriteOp>,
                           calls: seq<UnderlyingCall>, committed: Option<nat>)
  {
    && offset + |buffer| == |written|
    && (forall k | 0 <= k < |buffer| :: buffer[k].Holds(written[offset + k]))
    && AllInOrder(calls, written)
    && (if committed.Some? then committed.value < |calls| ==> offset <= calls[committed.value].nextMessageToSend
        else offset == 0)
  }

  ghost predicate AllInOrder(calls: seq<UnderlyingCall>, written: seq<WriteOp>) {
    forall i | 0 <= i < |calls| :: calls[i].SentPrefixOf(written)
  }

  ghost predicate NoneStalledIn(calls: seq<UnderlyingCall>, written: seq<WriteOp>) {
    forall i | 0 <= i < |calls| :: calls[i].NotStalled(written)
  }

  /** Offering the write just made leaves every child in order, and none stalled. */
  lemma OfferOk(buffer: seq<WriteBufferEntry>, offset: nat, written: seq<WriteOp>, calls: seq<UnderlyingCall>,
                committed: Option<nat>, op: WriteOp)
    requires BufferOk(buffer, offset, written + [op], calls, committed)
    requires AllInOrder(calls, written) && NoneStalledIn(calls, written)
    ensures BufferOk(buffer, offset, written + [op], OfferAll(calls, |written|, op), committed)
    ensures NoneStalledIn(OfferAll(calls, |written|, op), written + [op])
  {
    forall i | 0 <= i < |calls|
      ensures calls[i].Offer(|written|, op).SentPrefixOf(written + [op])
      ensures calls[i].Offer(|written|, op).NotStalled(written + [op])
    {
      OfferKeeps(calls[i], written, op);
    }
  }

  lemma CompletingKeeps(buffer: seq<WriteBufferEntry>, offset: nat, written: seq<WriteOp>, calls: seq<UnderlyingCall>,
                        index: nat)
    requires BufferOk(buffer, offset, written, calls, None) && index < |calls|
    ensures BufferOk(buffer, offset, written, CompleteOthers(calls, index), Some(index))
    ensures NoneStalledIn(calls, written) ==> NoneStalledIn(CompleteOthers(calls, index), written)
  {
  }

  /** A finished send moves the child on to the next entry of the buffer. */
  lemma WriteDoneKeeps(buffer: seq<WriteBufferEntry>, offset: nat, written: seq<WriteOp>, calls: seq<UnderlyingCall>,
                       committed: Option<nat>, i: nat, entry: WriteBufferEntry)
    requires BufferOk(buffer, offset, written, calls, committed) && i < |calls| && calls[i].inFlight > 0
    requires calls[i].state == Active && committed.Some? ==> committed.value == i
    requires var k := calls[i].nextMessageToSend + 1 - offset;
             entry == if 0 <= k < |buffer| then buffer[k] else Freed
    ensures var moved := calls[i := calls[i].WriteDone().Give(entry)];
            && BufferOk(buffer, offset, written, moved, committed)
            && (NoneStalledIn(calls, written) ==> NoneStalledIn(moved, written))
  {
  }

  /** What the calls of one retrying call may do over time. */
  ghost predicate CallsEvolve(before: seq<UnderlyingCall>, after: seq<UnderlyingCall>) {
    && |before| <= |after|
    && forall i | 0 <= i < |before| ::
         && before[i].sent <= after[i].sent
         && (before[i].state == Completed ==> after[i].state == Completed && after[i].sent == before[i].sent)
  }

  /** The first child that is furthest along among the active ones. */
  ghost predicate FirstFurthest(calls: seq<UnderlyingCall>, index: nat) {
    && index < |calls| && calls[index].state == Active
    && forall j | 0 <= j < |calls| && calls[j].state == Active ::
         calls[j].nextMessageToSend <= calls[index].nextMessageToSend
         && (j < index ==> calls[j].nextMessageToSend < calls[index].nextMessageToSend)
  }

  function Furthest(calls: seq<UnderlyingCall>): (index: Option<nat>)
    ensures index.Some? ==> FirstFurthest(calls, index.value)
    ensures index.None? ==> AllCompleted(calls)
  {
    if calls == [] then None
    else
      var n := |calls| - 1;
      var best := Furthest(calls[..n]);
      if calls[n].state == Active && (best.None? || calls[n].nextMessageToSend > calls[best.value].nextMessageToSend)
      then Some(n) else best
  }

  /** The fields of a retrying call, and the history of writes, deliveries, reported
      statuses, retries of children that never started, what was decided about the
      callback of each write, and the writes whose callbacks were called, in order. */
  datatype Call = Call(
    policy: Policy, state: RetryingCallState, underlyingCalls: seq<UnderlyingCall>,
    writeBuffer: seq<WriteBufferEntry>, writeBufferOffset: nat,
    transparentRetryUsed: bool, attempts: nat, committedCallIndex: Option<nat>,
    hedgingTimer: bool, backoffTimers: seq<nat>, hedgeStatusTimers: seq<nat>,
    written: seq<WriteOp>, delivered: seq<nat>, reports: nat, notStartedRetries: nat,
    callbacks: seq<WriteCallback>, called: seq<nat>)
  {
    ghost predicate Inv() {
      && policy.Valid()
      && CommitOk(state, committedCallIndex, underlyingCalls, delivered)
      && AttemptsOk(policy, state, underlyingCalls, attempts, |backoffTimers|)
      && |underlyingCalls| == attempts + notStartedRetries + (if transparentRetryUsed then 1 else 0)
      && TimersOk(backoffTimers, underlyingCalls) && TimersOk(hedgeStatusTimers, underlyingCalls)
      && (attempts == 0 ==> underlyingCalls == [] && backoffTimers == [] && !hedgingTimer && state != Committed)
      && (reports == 0 ==> BufferInv())
    }

    ghost predicate BufferInv() {
      && BufferOk(writeBuffer, writeBufferOffset, written, underlyingCalls, committedCallIndex)
      && NoneStalledIn(underlyingCalls, written)
    }

    /** What every step keeps: the commitment, no attempt after it, everything
        already sent, and silence towards completed children. */
    ghost predicate EvolvesTo(next: Call) {
      && (committedCallIndex.Some? ==>
            next.committedCallIndex == committedCallIndex && |next.underlyingCalls| == |underlyingCalls|)
      && CallsEvolve(underlyingCalls, next.underlyingCalls)
      && policy == next.policy && written <= next.written && delivered <= next.delivered
      && reports <= next.reports && attempts <= next.attempts
    }

    predicate Committable() {
      state == Committed ==> committedCallIndex.Some? && committedCallIndex.value < |underlyingCalls|
    }

    function GetBufferEntry(messageIndex: nat): WriteBufferEntry {
      if 0 <= messageIndex - writeBufferOffset < |writeBuffer| then writeBuffer[messageIndex - writeBufferOffset]
      else Freed
    }

    function GetNextBufferIndex(): nat { writeBufferOffset + |writeBuffer| }

    function ReportStatus(): Call {
      this.(writeBuffer := [], writeBufferOffset := GetNextBufferIndex(), reports := reports + 1)
    }

    function ClearSentMessages(): Call
      requires Committable()
    {
      if state != Committed then this
      else
        var needed := underlyingCalls[committedCallIndex.value].nextMessageToSend;
        this.(writeBuffer := JsSlice(writeBuffer, needed - writeBufferOffset), writeBufferOffset := needed)
    }

    function CommitCall(index: nat): Call
      requires index < |underlyingCalls|
    {
      if state == Committed || underlyingCalls[index].state == Completed then this
      else
        this.(state := Committed, committedCallIndex := Some(index),
              underlyingCalls := CompleteOthers(underlyingCalls, index))
        .ClearSentMessages()
    }

    function CommitCallWithMostMessages(): Call {
      if state == Committed then this
      else match Furthest(underlyingCalls)
           case None => this.(state := TransparentOnly)
           case Some(index) => CommitCall(index)
    }

    function StartNewAttempt(): Call {
      this.(underlyingCalls := underlyingCalls + [FRESH_CALL.Give(GetBufferEntry(0))])
    }

    function Buffer(entry: WriteBufferEntry, op: WriteOp): Call {
      this.(writeBuffer := writeBuffer + [entry], written := written + [op], callbacks := callbacks + [Never])
    }

    /** The callback of the write just buffered is called. */
    function CallAtOnce(): Call {
      if callbacks == [] then this
      else this.(callbacks := callbacks[|callbacks| - 1 := AtOnce], called := called + [|callbacks| - 1])
    }

    /** The callback is left with the entry just buffered, if the buffer still has it. */
    function AttachCallback(): Call {
      var n := |writeBuffer| - 1;
      if n < 0 || !writeBuffer[n].Message? || callbacks == [] then this
      else this.(writeBuffer := writeBuffer[n := writeBuffer[n].(callback := Some(|callbacks| - 1))],
                 callbacks := callbacks[|callbacks| - 1 := WithSend])
    }

    /** The callback that the entry carries is called. */
    function CallBack(messageIndex: nat): Call {
      var entry := GetBufferEntry(messageIndex);
      if entry.Message? && entry.callback.Some? then this.(called := called + [entry.callback.value]) else this
    }

    function Offer(index: nat, op: WriteOp): Call {
      this.(underlyingCalls := OfferAll(underlyingCalls, index, op))
    }

    function SendMessage(message: Bytes, granted: bool): Call {
      var buffered := Buffer(Message(message, granted, None), Send(message));
      if granted then buffered.CallAtOnce().Offer(GetNextBufferIndex(), Send(message))
      else buffered.CommitCallWithMostMessages().OfferCommitted(GetNextBufferIndex(), message)
    }

    /** A message over the buffer limit goes to the committed child, if any. */
    function OfferCommitted(index: nat, message: Bytes): Call {
      if committedCallIndex.None? || committedCallIndex.value >= |underlyingCalls| then this
      else
        AttachCallback().OfferTo(committedCallIndex.value, index, message)
    }

    function OfferTo(i: nat, index: nat, message: Bytes): Call
      requires i < |underlyingCalls|
    {
      this.(underlyingCalls := underlyingCalls[i := underlyingCalls[i].Offer(index, Send(message))])
    }

    function HalfCloseCall(): Call {
      Buffer(HalfClose, End).Offer(GetNextBufferIndex(), End)
    }

    function HandleChildWriteCompleted(childIndex: nat): Call
      requires childIndex < |underlyingCalls| && underlyingCalls[childIndex].inFlight > 0 && Committable()
    {
      CallBack(underlyingCalls[childIndex].nextMessageToSend).AdvanceChild(childIndex)
    }

    function AdvanceChild(childIndex: nat): Call
      requires childIndex < |underlyingCalls| && underlyingCalls[childIndex].inFlight > 0 && Committable()
    {
      var cleared := ClearSentMessages();
      var child := underlyingCalls[childIndex].WriteDone();
      var given := child.Give(cleared.GetBufferEntry(child.nextMessageToSend));
      cleared.(underlyingCalls := underlyingCalls[childIndex := given])
    }

    function OnReceiveData(index: nat): Call
      requires index < |underlyingCalls|
    {
      var committed := CommitCall(index);
      if committed.underlyingCalls[index].state == Active then committed.(delivered := delivered + [index])
      else committed
    }

    function HandleProcessedStatus(callIndex: nat, listed: bool, pushback: Pushback): Call {
      if !listed then ReportStatus()
      else
        match state
        case Hedging =>
          if pushback.Negative() then this.(state := TransparentOnly).ReportStatus()
          else this.(hedgeStatusTimers := hedgeStatusTimers + [callIndex])
        case Retry =>
          if attempts >= policy.AttemptLimit() then ReportStatus()
          else if pushback.Negative() then this.(state := TransparentOnly).ReportStatus()
          else this.(backoffTimers := backoffTimers + [callIndex])
        case _ => ReportStatus()
    }

    function HandleChildStatus(callIndex: nat, ok: bool, progress: RpcProgress, listed: bool, pushback: Pushback): Call
      requires callIndex < |underlyingCalls|
    {
      if underlyingCalls[callIndex].state == Completed then this
      else
        var finished := this.(underlyingCalls := underlyingCalls[callIndex := underlyingCalls[callIndex].Complete()]);
        if ok || state == Committed then finished.ReportStatus()
        else finished.HandleProgress(callIndex, progress, listed, pushback)
    }

    function HandleProgress(callIndex: nat, progress: RpcProgress, listed: bool, pushback: Pushback): Call {
      if progress == Drop then ReportStatus()
      else if progress == NotStarted then StartNewAttempt().(notStartedRetries := notStartedRetries + 1)
      else if progress == Refused && !transparentRetryUsed then StartNewAttempt().(transparentRetryUsed := true)
      else HandleProcessedStatus(callIndex, listed, pushback)
    }

    function MaybeStartHedgingTimer(): Call {
      this.(hedgingTimer := state == Hedging && attempts < policy.AttemptLimit())
    }

    function MaybeStartHedgingAttempt(): Call {
      if state != Hedging || attempts >= policy.AttemptLimit() then this
      else this.(attempts := attempts + 1).StartNewAttempt().MaybeStartHedgingTimer()
    }

    function Start(): Call {
      this.(attempts := attempts + 1).StartNewAttempt().MaybeStartHedgingTimer()
    }

    function BackoffTimerFired(canRetry: bool): Call
      requires backoffTimers != []
    {
      var fired := this.(backoffTimers := backoffTimers[1..]);
      if state != Retry then fired.ReportStatus()
      else if canRetry then fired.(attempts := attempts + 1).StartNewAttempt()
      else fired
    }

    /** The delays differ, so any of the pending timers may be the next to fire. */
    ghost function HedgeStatusTimerFired(timer: nat): Call
      requires timer < |hedgeStatusTimers|
    {
      var fired := this.(hedgeStatusTimers := Without(hedgeStatusTimers, timer)).MaybeStartHedgingAttempt();
      if AllCompleted(fired.underlyingCalls) then fired.ReportStatus() else fired
    }

    function HedgingTimerFired(): Call {
      this.(hedgingTimer := false).MaybeStartHedgingAttempt()
    }
  }

  /** What can happen to a call: application calls, callbacks of its children,
      and timers. `granted`, `listed` and `canRetry` are the answers of the
      buffer tracker, the service config and the throttler. */
  datatype Event =
    | Start
    | Write(message: Bytes, granted: bool)
    | HalfCloseWrite
    | Cancel
    | ChildWriteCompleted(child: nat)
    | ChildData(child: nat)
    | ChildStatus(child: nat, ok: bool, progress: RpcProgress, listed: bool, pushback: Pushback)
    | BackoffElapsed(canRetry: bool)
    | HedgeStatusElapsed(timer: nat)
    | HedgeDelayElapsed

  /** Events the environment can raise: a call is started once, a child reports
      only what it was asked to send, and only pending timers fire. */
  predicate Enabled(s: Call, e: Event) {
    match e
    case Start => s.attempts == 0
    case ChildWriteCompleted(i) => i < |s.underlyingCalls| && s.underlyingCalls[i].inFlight > 0 && s.Committable()
    case ChildData(i) => i < |s.underlyingCalls|
    case ChildStatus(i, _, _, _, _) => i < |s.underlyingCalls|
    case BackoffElapsed(_) => s.backoffTimers != []
    case HedgeStatusElapsed(k) => k < |s.hedgeStatusTimers|
    case HedgeDelayElapsed => s.hedgingTimer
    case _ => true
  }

  ghost function Step(s: Call, e: Event): Call
    requires Enabled(s, e)
  {
    match e
    case Start => s.Start()
    case Write(m, granted) => s.SendMessage(m, granted)
    case HalfCloseWrite => s.HalfCloseCall()
    case Cancel => s.ReportStatus()
    case ChildWriteCompleted(i) => s.HandleChildWriteCompleted(i)
    case ChildData(i) => s.OnReceiveData(i)
    case ChildStatus(i, ok, progress, listed, pushback) => s.HandleChildStatus(i, ok, progress, listed, pushback)
    case BackoffElapsed(canRetry) => s.BackoffTimerFired(canRetry)
    case HedgeStatusElapsed(k) => s.HedgeStatusTimerFired(k)
    case HedgeDelayElapsed => s.HedgingTimerFired()
  }

  function Initial(policy: Policy): Call {
    Call(policy,
         (match policy case RetryPolicy(_) => Retry case HedgingPolicy(_) => Hedging case NoPolicy => TransparentOnly),
         [], [], 0, false, 0, None, false, [], [], [], [], 0, 0, [], [])
  }

  // ----- Every step keeps the invariant -----

  /** The invariant of a half-finished step: a write may still be on offer. */
  ghost predicate Core(s: Call) {
    && CommitOk(s.state, s.committedCallIndex, s.underlyingCalls, s.delivered)
    && (s.reports == 0 ==>
          BufferOk(s.writeBuffer, s.writeBufferOffset, s.written, s.underlyingCalls, s.committedCallIndex))
  }

  lemma ClearCore(s: Call)
    requires Core(s)
    ensures Core(s.ClearSentMessages())
  {
  }

  /** Committing discards the other children and changes nothing they were sent. */
  lemma CommitCore(s: Call, index: nat)
    requires Core(s) && index < |s.underlyingCalls|
    ensures Core(s.CommitCall(index))
    ensures s.state != Committed && s.underlyingCalls[index].state == Active ==>
              && s.CommitCall(index).state == Committed && s.CommitCall(index).committedCallIndex == Some(index)
              && s.CommitCall(index).underlyingCalls == CompleteOthers(s.underlyingCalls, index)
  {
  }

  lemma NewAttemptCore(s: Call)
    requires Core(s) && s.state != Committed
    ensures Core(s.StartNewAttempt())
    ensures s.reports == 0 && NoneStalledIn(s.underlyingCalls, s.written) ==>
              NoneStalledIn(s.StartNewAttempt().underlyingCalls, s.written)
  {
  }

  lemma WriteCore(s: Call, entry: WriteBufferEntry, op: WriteOp)
    requires Core(s) && entry.Holds(op)
    ensures Core(s.Buffer(entry, op))
  {
  }

  /** A step that starts no child and no timer, and only ends RETRY or HEDGING. */
  lemma CalmStep(s: Call, t: Call)
    requires s.Inv() && Core(t) && CallsEvolve(s.underlyingCalls, t.underlyingCalls)
             && |t.underlyingCalls| == |s.underlyingCalls|
    requires SameControl(s, t) && (s.reports == 0 ==> NoneStalledIn(t.underlyingCalls, t.written))
    requires s.written <= t.written
    requires s.state == Committed ==> t.committedCallIndex == s.committedCallIndex
    requires s.state != Committed ==>
               t.state == s.state || (t.state == Committed && s.underlyingCalls != []) || t.state == TransparentOnly
    ensures t.Inv() && s.EvolvesTo(t)
  {
  }

  lemma OfferEvolves(calls: seq<UnderlyingCall>, index: nat, op: WriteOp)
    ensures CallsEvolve(calls, OfferAll(calls, index, op))
  {
  }

  lemma OfferCore(s: Call, b: Call, t: Call, op: WriteOp)
    requires Core(b) && b.written == s.written + [op] && b.underlyingCalls == s.underlyingCalls
    requires s.reports == 0 ==> s.BufferInv() && s.GetNextBufferIndex() == |s.written|
    requires b.reports == s.reports && t == b.Offer(s.GetNextBufferIndex(), op)
    ensures Core(t) && (s.reports == 0 ==> NoneStalledIn(t.underlyingCalls, t.written))
  {
    if s.reports == 0 {
      OfferOk(b.writeBuffer, b.writeBufferOffset, s.written, b.underlyingCalls, b.committedCallIndex, op);
    }
  }

  /** A write that is offered to all children. */
  lemma OfferStep(s: Call, entry: WriteBufferEntry, op: WriteOp)
    requires s.Inv() && entry.Holds(op)
    ensures var t := s.Buffer(entry, op).Offer(s.GetNextBufferIndex(), op); t.Inv() && s.EvolvesTo(t)
  {
    var b := s.Buffer(entry, op);
    WriteCore(s, entry, op);
    var t := b.Offer(s.GetNextBufferIndex(), op);
    OfferCore(s, b, t, op);
    OfferEvolves(s.underlyingCalls, s.GetNextBufferIndex(), op);
    CalmStep(s, t);
  }

  lemma CommitFurthest(b: Call)
    requires Core(b)
    ensures var c := b.CommitCallWithMostMessages();
            && Core(c) && c.written == b.written && CallsEvolve(b.underlyingCalls, c.underlyingCalls)
            && |c.underlyingCalls| == |b.underlyingCalls|
            && (c.state == Committed
                || (c.state == TransparentOnly && c.underlyingCalls == b.underlyingCalls
                    && AllCompleted(c.underlyingCalls)))
            && (b.state == Committed ==> c == b)
            && (forall w :: NoneStalledIn(b.underlyingCalls, w) ==> NoneStalledIn(c.underlyingCalls, w))
            && (forall w :: AllInOrder(b.underlyingCalls, w) ==> AllInOrder(c.underlyingCalls, w))
  {
    if b.state != Committed && Furthest(b.underlyingCalls).Some? {
      CommitCore(b, Furthest(b.underlyingCalls).value);
    }
  }

  lemma UngrantedOffer(c: Call, written: seq<WriteOp>, index: nat, op: WriteOp)
    requires Core(c) && c.written == written + [op] && c.committedCallIndex.Some?
    requires c.reports == 0 ==>
               index == |written| && AllInOrder(c.underlyingCalls, written) && NoneStalledIn(c.underlyingCalls, written)
    ensures var i := c.committedCallIndex.value;
            var t := c.(underlyingCalls := c.underlyingCalls[i := c.underlyingCalls[i].Offer(index, op)]);
            && Core(t) && CallsEvolve(c.underlyingCalls, t.underlyingCalls)
            && (t.reports == 0 ==> NoneStalledIn(t.underlyingCalls, t.written))
  {
    if c.reports == 0 {
      OfferOk(c.writeBuffer, c.writeBufferOffset, written, c.underlyingCalls, c.committedCallIndex, op);
    }
  }

  lemma CallsEvolveTrans(a: seq<UnderlyingCall>, b: seq<UnderlyingCall>, c: seq<UnderlyingCall>)
    requires CallsEvolve(a, b) && CallsEvolve(b, c)
    ensures CallsEvolve(a, c)
  {
  }

  /** Fields that neither writing nor committing touches. */
  ghost predicate SameControl(s: Call, t: Call) {
    && t.policy == s.policy && t.attempts == s.attempts && t.notStartedRetries == s.notStartedRetries
    && t.transparentRetryUsed == s.transparentRetryUsed && t.hedgingTimer == s.hedgingTimer
    && t.backoffTimers == s.backoffTimers && t.hedgeStatusTimers == s.hedgeStatusTimers
    && t.delivered == s.delivered && t.reports == s.reports
  }

  /** An over-limit write before the message is offered: committed if possible. */
  ghost predicate AfterCommit(s: Call, c: Call, op: WriteOp) {
    && Core(c) && SameControl(s, c) && c.written == s.written + [op]
    && CallsEvolve(s.underlyingCalls, c.underlyingCalls) && |c.underlyingCalls| == |s.underlyingCalls|
    && (s.reports == 0 ==> AllInOrder(c.underlyingCalls, s.written) && NoneStalledIn(c.underlyingCalls, s.written))
    && (c.committedCallIndex.None? ==> AllCompleted(c.underlyingCalls) && c.state == TransparentOnly)
    && (s.state == Committed ==> c.committedCallIndex == s.committedCallIndex)
  }

  lemma UngrantedCommit(s: Call, message: Bytes)
    requires s.Inv()
    ensures var b := s.Buffer(Message(message, false, None), Send(message));
            AfterCommit(s, b.CommitCallWithMostMessages(), Send(message))
  {
    WriteCore(s, Message(message, false, None), Send(message));
    CommitFurthest(s.Buffer(Message(message, false, None), Send(message)));
  }

  /** What is remembered about callbacks concerns nothing else. */
  lemma CallbacksApart(s: Call, callbacks: seq<WriteCallback>, called: seq<nat>)
    ensures var t := s.(callbacks := callbacks, called := called);
            && (s.Inv() <==> t.Inv()) && (forall r: Call :: r.EvolvesTo(s) <==> r.EvolvesTo(t))
            && (forall r: Call :: s.EvolvesTo(r) <==> t.EvolvesTo(r))
  {
  }

  lemma AttachAfterCommit(s: Call, c: Call, op: WriteOp)
    requires AfterCommit(s, c, op) && op.Send?
    ensures AfterCommit(s, c.AttachCallback(), op)
  {
  }

  lemma UngrantedFinish(s: Call, c: Call, message: Bytes)
    requires s.Inv() && AfterCommit(s, c, Send(message))
    ensures var t := c.OfferCommitted(s.GetNextBufferIndex(), message); t.Inv() && s.EvolvesTo(t)
  {
    var t := c.OfferCommitted(s.GetNextBufferIndex(), message);
    if c.committedCallIndex.Some? {
      AttachAfterCommit(s, c, Send(message));
      UngrantedOffer(c.AttachCallback(), s.written, s.GetNextBufferIndex(), Send(message));
      CallsEvolveTrans(s.underlyingCalls, c.underlyingCalls, t.underlyingCalls);
    }
    CalmStep(s, t);
  }

  lemma UngrantedWriteStep(s: Call, message: Bytes)
    requires s.Inv()
    ensures s.SendMessage(message, false).Inv() && s.EvolvesTo(s.SendMessage(message, false))
  {
    UngrantedCommit(s, message);
    UngrantedFinish(s, s.Buffer(Message(message, false, None), Send(message)).CommitCallWithMostMessages(), message);
  }

  lemma WriteGrantedStep(s: Call, message: Bytes)
    requires s.Inv()
    ensures s.SendMessage(message, true).Inv() && s.EvolvesTo(s.SendMessage(message, true))
  {
    var b := s.Buffer(Message(message, true, None), Send(message));
    OfferStep(s, Message(message, true, None), Send(message));
    CallbacksApart(b.Offer(s.GetNextBufferIndex(), Send(message)), b.CallAtOnce().callbacks, b.CallAtOnce().called);
  }

  lemma WriteCompletedCore(s: Call, i: nat)
    requires Core(s) && Enabled(s, ChildWriteCompleted(i))
             && (s.reports == 0 ==> NoneStalledIn(s.underlyingCalls, s.written))
    ensures var t := s.AdvanceChild(i);
            && Core(t) && CallsEvolve(s.underlyingCalls, t.underlyingCalls)
            && (t.reports == 0 ==> NoneStalledIn(t.underlyingCalls, t.written))
  {
    var c := s.ClearSentMessages();
    ClearCore(s);
    if s.reports == 0 {
      WriteDoneKeeps(c.writeBuffer, c.writeBufferOffset, c.written, c.underlyingCalls, c.committedCallIndex, i,
                     c.GetBufferEntry(s.underlyingCalls[i].nextMessageToSend + 1));
    }
  }

  lemma AdvanceStep(s: Call, i: nat)
    requires s.Inv() && Enabled(s, ChildWriteCompleted(i))
    ensures s.AdvanceChild(i).Inv() && s.EvolvesTo(s.AdvanceChild(i))
  {
    WriteCompletedCore(s, i);
    CalmStep(s, s.AdvanceChild(i));
  }

  lemma WriteCompletedStep(s: Call, i: nat)
    requires s.Inv() && Enabled(s, ChildWriteCompleted(i))
    ensures s.HandleChildWriteCompleted(i).Inv() && s.EvolvesTo(s.HandleChildWriteCompleted(i))
  {
    var c := s.CallBack(s.underlyingCalls[i].nextMessageToSend);
    CallbacksApart(s, c.callbacks, c.called);
    AdvanceStep(c, i);
  }

  lemma DataStep(s: Call, i: nat)
    requires s.Inv() && i < |s.underlyingCalls|
    ensures s.OnReceiveData(i).Inv() && s.EvolvesTo(s.OnReceiveData(i))
  {
    CommitCore(s, i);
    if s.state != Committed && s.reports == 0 {
      CompletingKeeps(s.writeBuffer, s.writeBufferOffset, s.written, s.underlyingCalls, i);
    }
  }

  lemma EvolveTrans(a: Call, b: Call, c: Call)
    requires a.EvolvesTo(b) && b.EvolvesTo(c)
    ensures a.EvolvesTo(c)
  {
  }

  lemma ReportStep(s: Call)
    requires s.Inv()
    ensures s.ReportStatus().Inv() && s.EvolvesTo(s.ReportStatus())
  {
  }

  lemma CompleteStep(s: Call, i: nat)
    requires s.Inv() && i < |s.underlyingCalls| && s.underlyingCalls[i].state == Active
    ensures var finished := s.(underlyingCalls := s.underlyingCalls[i := s.underlyingCalls[i].Complete()]);
            && finished.Inv() && s.EvolvesTo(finished) && finished.underlyingCalls[i].state == Completed
            && (s.state == Retry ==> s.backoffTimers == [] && AllCompleted(finished.underlyingCalls))
  {
  }

  /** A transparent retry: the child never reached, or was refused by, the server. */
  lemma TransparentRetryStep(s: Call, next: Call)
    requires s.Inv() && s.state != Committed && s.underlyingCalls != []
    requires s.state == Retry ==> s.backoffTimers == [] && AllCompleted(s.underlyingCalls)
    requires var more := s.StartNewAttempt();
             next == more.(notStartedRetries := s.notStartedRetries + 1)
             || (!s.transparentRetryUsed && next == more.(transparentRetryUsed := true))
    ensures next.Inv() && s.EvolvesTo(next)
  {
    NewAttemptCore(s);
  }

  lemma TimerSet(s: Call, i: nat)
    requires s.Inv() && i < |s.underlyingCalls| && s.underlyingCalls[i].state == Completed
    ensures var t := s.(hedgeStatusTimers := s.hedgeStatusTimers + [i]); t.Inv() && s.EvolvesTo(t)
    ensures s.state == Retry && s.backoffTimers == [] && AllCompleted(s.underlyingCalls)
            && s.attempts < s.policy.AttemptLimit() ==>
              var t := s.(backoffTimers := s.backoffTimers + [i]); t.Inv() && s.EvolvesTo(t)
  {
  }

  lemma ProcessedStep(s: Call, i: nat, listed: bool, pushback: Pushback)
    requires s.Inv() && i < |s.underlyingCalls| && s.underlyingCalls[i].state == Completed
    requires s.state == Retry ==> s.backoffTimers == [] && AllCompleted(s.underlyingCalls)
    ensures var next := s.HandleProcessedStatus(i, listed, pushback); next.Inv() && s.EvolvesTo(next)
  {
    TimerSet(s, i);
    ReportStep(s);
    if s.state != Committed {
      var t := s.(state := TransparentOnly);
      assert t.Inv() && s.EvolvesTo(t);
      ReportStep(t);
      EvolveTrans(s, t, t.ReportStatus());
    }
  }

  lemma ProgressStep(s: Call, i: nat, progress: RpcProgress, listed: bool, pushback: Pushback)
    requires s.Inv() && i < |s.underlyingCalls| && s.underlyingCalls[i].state == Completed && s.state != Committed
    requires s.state == Retry ==> s.backoffTimers == [] && AllCompleted(s.underlyingCalls)
    ensures var next := s.HandleProgress(i, progress, listed, pushback); next.Inv() && s.EvolvesTo(next)
  {
    if progress == Drop {
      ReportStep(s);
    } else if progress == NotStarted || (progress == Refused && !s.transparentRetryUsed) {
      TransparentRetryStep(s, s.HandleProgress(i, progress, listed, pushback));
    } else {
      ProcessedStep(s, i, listed, pushback);
    }
  }

  lemma StatusStep(s: Call, i: nat, ok: bool, progress: RpcProgress, listed: bool, pushback: Pushback)
    requires s.Inv() && i < |s.underlyingCalls|
    ensures var next := s.HandleChildStatus(i, ok, progress, listed, pushback); next.Inv() && s.EvolvesTo(next)
  {
    if s.underlyingCalls[i].state == Active {
      CompleteStep(s, i);
      var finished := s.(underlyingCalls := s.underlyingCalls[i := s.underlyingCalls[i].Complete()]);
      if ok || s.state == Committed {
        ReportStep(finished);
      } else {
        ProgressStep(finished, i, progress, listed, pushback);
      }
      EvolveTrans(s, finished, s.HandleChildStatus(i, ok, progress, listed, pushback));
    }
  }

  lemma AttemptStep(s: Call)
    requires s.Inv() && s.state != Committed && s.attempts < s.policy.AttemptLimit()
    requires s.attempts == 0 || s.state == Hedging
             || (s.state == Retry && AllCompleted(s.underlyingCalls) && s.backoffTimers == [])
    ensures var next := s.(attempts := s.attempts + 1).StartNewAttempt(); next.Inv() && s.EvolvesTo(next)
  {
  }

  lemma HedgingAttemptStep(s: Call)
    requires s.Inv() && s.attempts > 0
    ensures s.MaybeStartHedgingAttempt().Inv() && s.EvolvesTo(s.MaybeStartHedgingAttempt())
  {
    if s.state == Hedging && s.attempts < s.policy.AttemptLimit() { AttemptStep(s); }
  }

  lemma BackoffStep(s: Call, canRetry: bool)
    requires s.Inv() && s.backoffTimers != []
    ensures s.BackoffTimerFired(canRetry).Inv() && s.EvolvesTo(s.BackoffTimerFired(canRetry))
  {
    var fired := s.(backoffTimers := s.backoffTimers[1..]);
    assert fired.Inv();
    if s.state != Retry { ReportStep(fired); } else if canRetry { AttemptStep(fired); }
  }

  lemma HedgeStatusStep(s: Call, k: nat)
    requires s.Inv() && k < |s.hedgeStatusTimers|
    ensures s.HedgeStatusTimerFired(k).Inv() && s.EvolvesTo(s.HedgeStatusTimerFired(k))
  {
    var fired := s.(hedgeStatusTimers := Without(s.hedgeStatusTimers, k));
    assert s.hedgeStatusTimers[k] < |s.underlyingCalls|;
    assert fired.Inv() && s.EvolvesTo(fired);
    HedgingAttemptStep(fired);
    var attempted := fired.MaybeStartHedgingAttempt();
    ReportStep(attempted);
    EvolveTrans(s, fired, attempted);
    EvolveTrans(s, attempted, attempted.ReportStatus());
  }

  /** Every step of every callback keeps the invariant and only moves forward. */
  lemma StepKeeps(s: Call, e: Event)
    requires s.Inv() && Enabled(s, e)
    ensures Step(s, e).Inv() && s.EvolvesTo(Step(s, e))
  {
    match e
    case Start => AttemptStep(s);
    case Write(m, granted) => if granted { WriteGrantedStep(s, m); } else { UngrantedWriteStep(s, m); }
    case HalfCloseWrite => OfferStep(s, HalfClose, End);
    case Cancel => ReportStep(s);
    case ChildWriteCompleted(i) => WriteCompletedStep(s, i);
    case ChildData(i) => DataStep(s, i);
    case ChildStatus(i, ok, progress, listed, pushback) => StatusStep(s, i, ok, progress, listed, pushback);
    case BackoffElapsed(canRetry) => BackoffStep(s, canRetry);
    case HedgeStatusElapsed(k) => HedgeStatusStep(s, k);
    case HedgeDelayElapsed => HedgingAttemptStep(s.(hedgingTimer := false));
  }

  // ----- Whole runs -----

  ghost predicate Runs(s: Call, events: seq<Event>)
    decreases |events|
  {
    events == [] || (Enabled(s, events[0]) && Runs(Step(s, events[0]), events[1..]))
  }

  ghost function Run(s: Call, events: seq<Event>): Call
    requires Runs(s, events)
    decreases |events|
  {
    if events == [] then s else Run(Step(s, events[0]), events[1..])
  }

  lemma {:induction false} RunKeeps(s: Call, events: seq<Event>)
    requires s.Inv() && Runs(s, events)
    ensures Run(s, events).Inv() && s.EvolvesTo(Run(s, events))
    decreases |events|
  {
    if events != [] {
      StepKeeps(s, events[0]);
      RunKeeps(Step(s, events[0]), events[1..]);
      EvolveTrans(s, Step(s, events[0]), Run(s, events));
    }
  }

  /** A child has been handed a gap-free, duplicate-free, in-order prefix of the
      writes, with at most one message in flight; whatever an active child still
      needs is buffered, and it only rests when it has everything or has ended. */
  ghost predicate InOrderReplay(s: Call, c: UnderlyingCall) {
    && c.inFlight <= 1
    && |c.sent| == c.nextMessageToSend + c.inFlight <= |s.written|
    && c.sent == s.written[..|c.sent|]
    && (c.state == Active ==>
          forall k | c.nextMessageToSend <= k < |s.written| :: s.GetBufferEntry(k).Holds(s.written[k]))
    && (c.state == Active && c.inFlight == 0 ==> c.sent == s.written || (c.sent != [] && c.sent[|c.sent| - 1] == End))
  }

  lemma InvReplays(s: Call, i: nat)
    requires s.Inv() && s.reports == 0 && i < |s.underlyingCalls|
    ensures InOrderReplay(s, s.underlyingCalls[i])
  {
    var c := s.underlyingCalls[i];
    assert c.SentPrefixOf(s.written) && c.NotStalled(s.written);
    if c.state == Active {
      assert s.writeBufferOffset <= c.nextMessageToSend;
      forall k | c.nextMessageToSend <= k < |s.written| ensures s.GetBufferEntry(k).Holds(s.written[k]) {
        assert s.writeBuffer[k - s.writeBufferOffset].Holds(s.written[s.writeBufferOffset + (k - s.writeBufferOffset)]);
      }
    }
  }

  /** Replay safety, over every run until a status is reported. */
  lemma {:induction false} ReplaySafety(policy: Policy, events: seq<Event>, child: nat)
    requires policy.Valid() && Runs(Initial(policy), events)
    requires Run(Initial(policy), events).reports == 0
    requires child < |Run(Initial(policy), events).underlyingCalls|
    ensures InOrderReplay(Run(Initial(policy), events), Run(Initial(policy), events).underlyingCalls[child])
  {
    RunKeeps(Initial(policy), events);
    InvReplays(Run(Initial(policy), events), child);
  }

  /** Commitment: over any continuation of any run the committed index never
      changes, no attempt follows it, and only that child ever delivered. The
      attempt limit and the number of children hold throughout. */
  lemma {:induction false} CommitOnce(policy: Policy, before: seq<Event>, after: seq<Event>)
    requires policy.Valid() && Runs(Initial(policy), before) && Runs(Run(Initial(policy), before), after)
    ensures var s := Run(Initial(policy), before); var t := Run(s, after);
            && (s.committedCallIndex.Some? ==>
                  && t.committedCallIndex == s.committedCallIndex && |t.underlyingCalls| == |s.underlyingCalls|
                  && t.attempts == s.attempts)
            && (forall d | d in t.delivered :: t.committedCallIndex == Some(d))
            && t.attempts <= Min(if policy.NoPolicy? then 1 else policy.maxAttempts, 5)
            && |t.underlyingCalls| == t.attempts + t.notStartedRetries + (if t.transparentRetryUsed then 1 else 0)
  {
    RunKeeps(Initial(policy), before);
    RunKeeps(Run(Initial(policy), before), after);
    var s := Run(Initial(policy), before);
    var t := Run(s, after);
    if s.committedCallIndex.Some? { AttemptsFrozen(s, after); }
  }

  lemma {:induction false} AttemptsFrozen(s: Call, events: seq<Event>)
    requires s.Inv() && s.committedCallIndex.Some? && Runs(s, events)
    ensures Run(s, events).attempts == s.attempts
    decreases |events|
  {
    if events != [] {
      StepKeeps(s, events[0]);
      AttemptsFrozen(Step(s, events[0]), events[1..]);
    }
  }

  /** A final status never commits the call, although the source calls
      commitCall on it: the child is completed first. So after an OK status the
      other hedged attempts stay active, and the hedging timer stays armed. */
  lemma StatusNeverCommits(s: Call, i: nat, ok: bool, progress: RpcProgress, listed: bool, pushback: Pushback)
    requires s.Inv() && i < |s.underlyingCalls|
    ensures var t := s.HandleChildStatus(i, ok, progress, listed, pushback);
            && t.committedCallIndex == s.committedCallIndex && (t.state == Committed <==> s.state == Committed)
            && t.hedgingTimer == s.hedgingTimer
            && forall j | 0 <= j < |s.underlyingCalls| && j != i :: t.underlyingCalls[j] == s.underlyingCalls[j]
  {
  }

  /** A retry that costs no attempt: the server never processed the call. */
  predicate MayRetryTransparently(s: Call, ok: bool, progress: RpcProgress) {
    !ok && s.state != Committed && (progress == NotStarted || (progress == Refused && !s.transparentRetryUsed))
  }

  /** A retry that the policy allows: the code is listed, the server does not push
      back for good, and, where retries are sequential, an attempt is left. */
  predicate PolicyAllowsRetry(s: Call, listed: bool, pushback: Pushback) {
    listed && !(pushback.Millis? && pushback.ms < 0)
    && (s.policy.HedgingPolicy? || (s.policy.RetryPolicy? && s.attempts < Min(s.policy.maxAttempts, 5)))
  }

  /** A final status of a live child ends that child and has exactly one of three
      outcomes: a transparent retry at once, a timer of the policy's kind, or a
      report. Which one is decided by what may be retried, whatever the mode. */
  lemma StatusMeansOutcome(s: Call, i: nat, ok: bool, progress: RpcProgress, listed: bool, pushback: Pushback)
    requires s.Inv() && i < |s.underlyingCalls| && s.underlyingCalls[i].state == Active
    ensures var t := s.HandleChildStatus(i, ok, progress, listed, pushback);
            var transparently := MayRetryTransparently(s, ok, progress);
            var later := && !ok && progress != Drop && !transparently && s.state in {Retry, Hedging}
                         && PolicyAllowsRetry(s, listed, pushback);
            && t.underlyingCalls[i].state == Completed
            && |t.underlyingCalls| == |s.underlyingCalls| + (if transparently then 1 else 0)
            && |t.backoffTimers| == |s.backoffTimers| + (if later && s.policy.RetryPolicy? then 1 else 0)
            && |t.hedgeStatusTimers| == |s.hedgeStatusTimers| + (if later && s.policy.HedgingPolicy? then 1 else 0)
            && t.reports == s.reports + (if transparently || later then 0 else 1)
  {
  }

  /** Where retries are sequential, or once the call is committed, a report comes
      only when nothing is left to wait for: no child is live, and no retry is
      pending. */
  lemma ReportIsFinal(s: Call, i: nat, ok: bool, progress: RpcProgress, listed: bool, pushback: Pushback)
    requires s.Inv() && i < |s.underlyingCalls| && s.state in {Retry, Committed}
    ensures var t := s.HandleChildStatus(i, ok, progress, listed, pushback);
            t.reports > s.reports ==> AllCompleted(t.underlyingCalls) && (s.state == Retry ==> t.backoffTimers == [])
  {
    if s.underlyingCalls[i].state == Active && s.state == Committed {
      assert s.committedCallIndex == Some(i);
    }
  }

  // ----- The callbacks of the application's writes -----

  /** The callback that an entry carries. */
  function Carried(entry: WriteBufferEntry): Option<nat> { if entry.Message? then entry.callback else None }

  /** The committed child has completed the sending of write `j`. */
  ghost predicate SentByCommitted(s: Call, j: nat) {
    && s.committedCallIndex.Some? && s.committedCallIndex.value < |s.underlyingCalls|
    && j < s.underlyingCalls[s.committedCallIndex.value].nextMessageToSend
  }

  /** The callback of write `j` is to have been called by now. */
  ghost predicate Due(s: Call, j: nat) {
    && j < |s.callbacks|
    && (s.callbacks[j] == AtOnce || (s.callbacks[j] == WithSend && SentByCommitted(s, j)))
  }

  /** Exactly the callbacks that are due were called, once each. The others that will
      be are with the entries of their writes, which only the committed child sends. */
  ghost predicate CallbacksOk(s: Call) {
    && |s.callbacks| == |s.written|
    && (forall j: nat :: j in s.called <==> Due(s, j)) && Distinct(s.called)
    && (forall k | 0 <= k < |s.writeBuffer| && s.writeBufferOffset + k < |s.callbacks| ::
          Carried(s.writeBuffer[k]) ==
            if s.callbacks[s.writeBufferOffset + k] == WithSend then Some(s.writeBufferOffset + k) else None)
    && (forall j | 0 <= j < |s.callbacks| && s.callbacks[j] == WithSend ::
          s.committedCallIndex.Some? && s.written[j].Send?)
    && (forall i | 0 <= i < |s.underlyingCalls| && s.committedCallIndex != Some(i) :: NotCarrying(s, i))
  }

  /** A child that is not the committed one is not sending a write with a callback. */
  ghost predicate NotCarrying(s: Call, i: nat)
    requires i < |s.underlyingCalls|
  {
    var c := s.underlyingCalls[i];
    c.inFlight > 0 && c.nextMessageToSend < |s.callbacks| ==> s.callbacks[c.nextMessageToSend] != WithSend
  }

  /** Trimming the buffer changes nothing for the entries that stay. */
  lemma TrimCallbacks(s: Call, t: Call, k: nat)
    requires CallbacksOk(s) && k <= |s.writeBuffer|
    requires t == s.(writeBuffer := s.writeBuffer[k..], writeBufferOffset := s.writeBufferOffset + k)
    ensures CallbacksOk(t)
  {
  }

  lemma ClearCallbacks(s: Call)
    requires Core(s) && s.reports == 0 && CallbacksOk(s)
    ensures CallbacksOk(s.ClearSentMessages())
  {
    if s.state == Committed {
      var k := s.underlyingCalls[s.committedCallIndex.value].nextMessageToSend - s.writeBufferOffset;
      assert s.underlyingCalls[s.committedCallIndex.value].SentPrefixOf(s.written);
      TrimCallbacks(s, s.ClearSentMessages(), k);
    }
  }

  lemma CommitCallbacks(s: Call, i: nat)
    requires Core(s) && s.reports == 0 && CallbacksOk(s) && i < |s.underlyingCalls|
    ensures CallbacksOk(s.CommitCall(i))
  {
    if s.state != Committed && s.underlyingCalls[i].state == Active {
      var c := s.(state := Committed, committedCallIndex := Some(i),
                  underlyingCalls := CompleteOthers(s.underlyingCalls, i));
      assert Core(c) && CallbacksOk(c);
      ClearCallbacks(c);
    }
  }

  lemma NewAttemptCallbacks(s: Call)
    requires CallbacksOk(s) && s.committedCallIndex.None?
    ensures CallbacksOk(s.StartNewAttempt())
  {
  }

  lemma BufferCallbacks(s: Call, entry: WriteBufferEntry, op: WriteOp)
    requires CallbacksOk(s) && Carried(entry) == None && s.GetNextBufferIndex() == |s.written|
    requires AllInOrder(s.underlyingCalls, s.written)
    ensures CallbacksOk(s.Buffer(entry, op))
  {
    var t := s.Buffer(entry, op);
    forall j: nat ensures j in t.called <==> Due(t, j) {
      assert j in s.called <==> Due(s, j);
    }
    forall i | 0 <= i < |t.underlyingCalls| && t.committedCallIndex != Some(i) ensures NotCarrying(t, i) {
      assert NotCarrying(s, i) && s.underlyingCalls[i].SentPrefixOf(s.written);
    }
  }

  lemma AtOnceCallbacks(b: Call)
    requires CallbacksOk(b) && b.callbacks != [] && b.callbacks[|b.callbacks| - 1] == Never
    ensures CallbacksOk(b.CallAtOnce())
  {
    var t := b.CallAtOnce();
    var n := |b.callbacks| - 1;
    assert n !in b.called by { assert !Due(b, n); }
    forall j: nat ensures j in t.called <==> Due(t, j) {
      assert j in b.called <==> Due(b, j);
    }
    forall i | 0 <= i < |t.underlyingCalls| && t.committedCallIndex != Some(i) ensures NotCarrying(t, i) {
      assert NotCarrying(b, i);
    }
  }

  /** The write on offer carries no callback. */
  lemma OfferCallbacks(b: Call, index: nat, op: WriteOp)
    requires CallbacksOk(b) && index == |b.written| - 1 && b.callbacks[index] != WithSend
    ensures CallbacksOk(b.Offer(index, op))
  {
    var t := b.Offer(index, op);
    forall j: nat ensures j in t.called <==> Due(t, j) {
      assert j in b.called <==> Due(b, j);
    }
    forall i | 0 <= i < |t.underlyingCalls| && t.committedCallIndex != Some(i) ensures NotCarrying(t, i) {
      assert NotCarrying(b, i);
    }
  }

  /** The entry of the write just made is still the last of the buffer. */
  lemma LastEntryIsNew(c: Call, written: seq<WriteOp>, message: Bytes)
    requires Core(c) && c.reports == 0 && c.committedCallIndex.Some?
    requires c.written == written + [Send(message)] && AllInOrder(c.underlyingCalls, written)
    ensures c.writeBuffer != [] && c.writeBuffer[|c.writeBuffer| - 1].Message?
    ensures c.writeBufferOffset + |c.writeBuffer| == |written| + 1
    ensures forall i | 0 <= i < |c.underlyingCalls| ::
              c.underlyingCalls[i].nextMessageToSend + c.underlyingCalls[i].inFlight <= |written|
  {
    assert c.underlyingCalls[c.committedCallIndex.value].SentPrefixOf(written);
    var last := |c.writeBuffer| - 1;
    assert c.writeBuffer[last].Holds(c.written[c.writeBufferOffset + last]);
  }

  lemma AttachCallbacks(c: Call, n: nat)
    requires CallbacksOk(c) && c.committedCallIndex.Some? && |c.written| == n + 1 && c.written[n].Send?
    requires c.writeBuffer != [] && c.writeBuffer[|c.writeBuffer| - 1].Message?
             && c.writeBufferOffset + |c.writeBuffer| == n + 1
    requires forall i | 0 <= i < |c.underlyingCalls| ::
               c.underlyingCalls[i].nextMessageToSend + c.underlyingCalls[i].inFlight <= n
    requires c.callbacks[n] == Never
    ensures CallbacksOk(c.AttachCallback()) && c.AttachCallback().callbacks == c.callbacks[n := WithSend]
  {
    var t := c.AttachCallback();
    forall k | 0 <= k < |t.writeBuffer|
      ensures Carried(t.writeBuffer[k]) ==
                if t.callbacks[t.writeBufferOffset + k] == WithSend then Some(t.writeBufferOffset + k) else None
    {
      if k < |c.writeBuffer| - 1 { assert Carried(c.writeBuffer[k]) == Carried(t.writeBuffer[k]); }
    }
    forall j: nat ensures j in t.called <==> Due(t, j) {
      assert j in c.called <==> Due(c, j);
    }
    forall i | 0 <= i < |t.underlyingCalls| && t.committedCallIndex != Some(i) ensures NotCarrying(t, i) {
      assert NotCarrying(c, i);
    }
  }

  lemma OfferToCallbacks(c: Call, i: nat, index: nat, message: Bytes)
    requires CallbacksOk(c) && c.committedCallIndex == Some(i) && i < |c.underlyingCalls|
    ensures CallbacksOk(c.OfferTo(i, index, message))
  {
    var t := c.OfferTo(i, index, message);
    forall j: nat ensures j in t.called <==> Due(t, j) {
      assert j in c.called <==> Due(c, j);
    }
    forall x | 0 <= x < |t.underlyingCalls| && t.committedCallIndex != Some(x) ensures NotCarrying(t, x) {
      assert NotCarrying(c, x);
    }
  }

  /** The end of a send: the callback of that very write, if it was left for it. */
  lemma CallBackMeans(s: Call, i: nat)
    requires s.BufferInv() && CallbacksOk(s) && i < |s.underlyingCalls| && s.underlyingCalls[i].inFlight > 0
    ensures var n := s.underlyingCalls[i].nextMessageToSend;
            n < |s.callbacks| && s.CallBack(n).called ==
              s.called + if s.callbacks[n] == WithSend && s.committedCallIndex == Some(i) then [n] else []
  {
    var n := s.underlyingCalls[i].nextMessageToSend;
    assert s.underlyingCalls[i].SentPrefixOf(s.written);
    if s.committedCallIndex != Some(i) { assert NotCarrying(s, i); }
    if n >= s.writeBufferOffset {
      assert Carried(s.writeBuffer[n - s.writeBufferOffset])
             == if s.callbacks[n] == WithSend then Some(n) else None;
    }
  }

  /** A child that is not the committed one moves on. */
  lemma OtherAdvances(s: Call, t: Call, i: nat)
    requires CallbacksOk(s) && i < |s.underlyingCalls| && s.committedCallIndex != Some(i)
    requires t == s.(underlyingCalls := t.underlyingCalls) && |t.underlyingCalls| == |s.underlyingCalls|
    requires forall x | 0 <= x < |s.underlyingCalls| && x != i :: t.underlyingCalls[x] == s.underlyingCalls[x]
    requires s.committedCallIndex.Some? ==> t.underlyingCalls[i].inFlight == 0
    ensures CallbacksOk(t)
  {
    forall j: nat ensures j in t.called <==> Due(t, j) {
      assert j in s.called <==> Due(s, j);
    }
    forall x | 0 <= x < |t.underlyingCalls| && t.committedCallIndex != Some(x) ensures NotCarrying(t, x) {
      assert NotCarrying(s, x);
    }
  }

  /** The committed child moves on, over one write or, with a half-close next, two. */
  lemma CommittedAdvances(s: Call, t: Call, i: nat, n: nat, to: nat)
    requires CallbacksOk(s) && s.committedCallIndex == Some(i) && i < |s.underlyingCalls| && n < |s.callbacks|
    requires n == s.underlyingCalls[i].nextMessageToSend
    requires t == s.(underlyingCalls := t.underlyingCalls, called := t.called)
             && |t.underlyingCalls| == |s.underlyingCalls|
    requires t.called == s.called + if s.callbacks[n] == WithSend then [n] else []
    requires forall x | 0 <= x < |s.underlyingCalls| && x != i :: t.underlyingCalls[x] == s.underlyingCalls[x]
    requires t.underlyingCalls[i].nextMessageToSend == to
    requires to == n + 1 || (to == n + 2 && n + 1 < |s.written| && s.written[n + 1] == End)
    ensures CallbacksOk(t)
  {
    assert s.callbacks[n] == WithSend ==> n !in s.called by { assert n in s.called <==> Due(s, n); }
    forall j: nat ensures j in t.called <==> Due(t, j) {
      assert j in s.called <==> Due(s, j);
    }
    forall x | 0 <= x < |t.underlyingCalls| && t.committedCallIndex != Some(x) ensures NotCarrying(t, x) {
      assert NotCarrying(s, x);
    }
  }

  /** What the end of a send does to the child. */
  lemma GivenNext(c: UnderlyingCall, written: seq<WriteOp>, entry: WriteBufferEntry, given: UnderlyingCall)
    requires c.SentPrefixOf(written) && c.inFlight > 0 && given == c.WriteDone().Give(entry)
    requires var n := c.nextMessageToSend; entry.HalfClose? ==> n + 1 < |written| && written[n + 1] == End
    ensures var n := c.nextMessageToSend;
            given.nextMessageToSend == n + 1
            || (given.nextMessageToSend == n + 2 && n + 1 < |written| && written[n + 1] == End)
    ensures c.state == Completed ==> given.inFlight == 0
  {
  }

  lemma EntryIsEnd(s: Call, messageIndex: nat)
    requires s.BufferInv() && s.GetBufferEntry(messageIndex).HalfClose?
    ensures messageIndex < |s.written| && s.written[messageIndex] == End
  {
    assert s.writeBuffer[messageIndex - s.writeBufferOffset].Holds(
        s.written[s.writeBufferOffset + (messageIndex - s.writeBufferOffset)]);
  }

  /** Trimming has nothing to do with what was called before it. */
  lemma ClearAfterCall(s: Call, called: seq<nat>)
    requires s.Committable()
    ensures s.(called := called).ClearSentMessages() == s.ClearSentMessages().(called := called)
    ensures s.ClearSentMessages().called == s.called
  {
  }

  lemma AdvanceUnfolds(s: Call, i: nat, cleared: Call, given: UnderlyingCall)
    requires Enabled(s, ChildWriteCompleted(i)) && cleared == s.ClearSentMessages()
    requires given == s.underlyingCalls[i].WriteDone().Give(
                        cleared.GetBufferEntry(s.underlyingCalls[i].nextMessageToSend + 1))
    ensures s.HandleChildWriteCompleted(i)
            == cleared.(underlyingCalls := s.underlyingCalls[i := given],
                        called := s.CallBack(s.underlyingCalls[i].nextMessageToSend).called)
  {
    ClearAfterCall(s, s.CallBack(s.underlyingCalls[i].nextMessageToSend).called);
  }

  lemma GivenFor(s: Call, i: nat, given: UnderlyingCall)
    requires s.Inv() && s.reports == 0 && CallbacksOk(s) && Enabled(s, ChildWriteCompleted(i))
    requires given == s.underlyingCalls[i].WriteDone().Give(
                        s.ClearSentMessages().GetBufferEntry(s.underlyingCalls[i].nextMessageToSend + 1))
    ensures var n := s.underlyingCalls[i].nextMessageToSend;
            given.nextMessageToSend == n + 1
            || (given.nextMessageToSend == n + 2 && n + 1 < |s.written| && s.written[n + 1] == End)
    ensures s.committedCallIndex.Some? && s.committedCallIndex != Some(i) ==> given.inFlight == 0
  {
    var c := s.underlyingCalls[i];
    var cleared := s.ClearSentMessages();
    ClearKept(s);
    assert c.SentPrefixOf(s.written);
    var entry := cleared.GetBufferEntry(c.nextMessageToSend + 1);
    if entry.HalfClose? { EntryIsEnd(cleared, c.nextMessageToSend + 1); }
    GivenNext(c, s.written, entry, given);
  }

  lemma AdvanceCallbacks(s: Call, i: nat)
    requires s.Inv() && s.reports == 0 && CallbacksOk(s) && Enabled(s, ChildWriteCompleted(i))
    ensures CallbacksOk(s.HandleChildWriteCompleted(i))
  {
    var n := s.underlyingCalls[i].nextMessageToSend;
    var cleared := s.ClearSentMessages();
    ClearKept(s);
    CallBackMeans(s, i);
    var given := s.underlyingCalls[i].WriteDone().Give(cleared.GetBufferEntry(n + 1));
    AdvanceUnfolds(s, i, cleared, given);
    GivenFor(s, i, given);
    var t := cleared.(underlyingCalls := s.underlyingCalls[i := given], called := s.CallBack(n).called);
    if s.committedCallIndex == Some(i) {
      CommittedAdvances(cleared, t, i, n, given.nextMessageToSend);
    } else {
      OtherAdvances(cleared, t, i);
    }
  }

  lemma ClearKept(s: Call)
    requires s.Inv() && s.reports == 0 && CallbacksOk(s)
    ensures var t := s.ClearSentMessages();
            && t.BufferInv() && CallbacksOk(t) && t.underlyingCalls == s.underlyingCalls && t.written == s.written
            && t.callbacks == s.callbacks && t.called == s.called && t.committedCallIndex == s.committedCallIndex
    ensures AllInOrder(s.underlyingCalls, s.written)
    ensures forall i | 0 <= i < |s.underlyingCalls| && s.committedCallIndex.Some? && s.committedCallIndex != Some(i) ::
              s.underlyingCalls[i].state == Completed
  {
    ClearCallbacks(s);
    ClearCore(s);
  }

  /** An over-limit write once the call has been committed, if it can be. */
  lemma CommitForWrite(s: Call, message: Bytes, c: Call)
    requires s.Inv() && s.reports == 0 && CallbacksOk(s)
    requires c == s.Buffer(Message(message, false, None), Send(message)).CommitCallWithMostMessages()
    ensures CallbacksOk(c) && AfterCommit(s, c, Send(message)) && c.callbacks == s.callbacks + [Never]
    ensures c.committedCallIndex.Some? <==> s.state == Committed || !AllCompleted(s.underlyingCalls)
  {
    var b := s.Buffer(Message(message, false, None), Send(message));
    BufferCallbacks(s, Message(message, false, None), Send(message));
    WriteCore(s, Message(message, false, None), Send(message));
    UngrantedCommit(s, message);
    if Furthest(s.underlyingCalls).Some? {
      CommitCallbacks(b, Furthest(s.underlyingCalls).value);
    }
  }

  lemma AttachForWrite(s: Call, message: Bytes, c: Call)
    requires s.reports == 0 && CallbacksOk(s) && CallbacksOk(c) && AfterCommit(s, c, Send(message))
    requires c.callbacks == s.callbacks + [Never] && c.committedCallIndex.Some?
    ensures CallbacksOk(c.AttachCallback()) && c.AttachCallback().callbacks == s.callbacks + [WithSend]
  {
    LastEntryIsNew(c, s.written, message);
    AttachCallbacks(c, |s.written|);
  }

  /** When the callback of a write is called is decided when the write is made. One
      over the buffer limit that finds no child to commit to is forgotten. */
  lemma CallbackDecided(s: Call, message: Bytes, granted: bool)
    requires s.Inv() && s.reports == 0 && CallbacksOk(s)
    ensures CallbacksOk(s.SendMessage(message, granted))
    ensures s.SendMessage(message, granted).callbacks == s.callbacks +
              [if granted then AtOnce
               else if s.state == Committed || !AllCompleted(s.underlyingCalls) then WithSend else Never]
  {
    var b := s.Buffer(Message(message, granted, None), Send(message));
    if granted {
      BufferCallbacks(s, Message(message, granted, None), Send(message));
      AtOnceCallbacks(b);
      OfferCallbacks(b.CallAtOnce(), |s.written|, Send(message));
    } else {
      var c := b.CommitCallWithMostMessages();
      CommitForWrite(s, message, c);
      if c.committedCallIndex.Some? {
        AttachForWrite(s, message, c);
        OfferToCallbacks(c.AttachCallback(), c.committedCallIndex.value, s.GetNextBufferIndex(), message);
      }
    }
  }

  lemma HalfCloseCallbacks(s: Call)
    requires s.Inv() && s.reports == 0 && CallbacksOk(s)
    ensures CallbacksOk(s.HalfCloseCall())
  {
    BufferCallbacks(s, HalfClose, End);
    OfferCallbacks(s.Buffer(HalfClose, End), |s.written|, End);
  }

  /** Nothing that concerns callbacks is touched; a child may have been added. */
  ghost predicate Quiet(s: Call, t: Call) {
    && t.callbacks == s.callbacks && t.called == s.called && t.written == s.written
    && t.committedCallIndex == s.committedCallIndex
    && t.writeBuffer == s.writeBuffer && t.writeBufferOffset == s.writeBufferOffset
    && (t.underlyingCalls == s.underlyingCalls
        || (s.committedCallIndex.None? && t.underlyingCalls == s.StartNewAttempt().underlyingCalls))
  }

  lemma QuietCallbacks(s: Call, t: Call)
    requires CallbacksOk(s) && Quiet(s, t)
    ensures CallbacksOk(t)
  {
    if t.underlyingCalls != s.underlyingCalls { NewAttemptCallbacks(s); }
    var u := s.(underlyingCalls := t.underlyingCalls);
    assert CallbacksOk(u);
    forall j: nat ensures j in t.called <==> Due(t, j) {
      assert j in u.called <==> Due(u, j);
    }
    forall i | 0 <= i < |t.underlyingCalls| && t.committedCallIndex != Some(i) ensures NotCarrying(t, i) {
      assert NotCarrying(u, i);
    }
  }

  lemma ProcessedIsQuiet(s: Call, i: nat, listed: bool, pushback: Pushback)
    requires var t := s.HandleProcessedStatus(i, listed, pushback); t.reports == s.reports
    ensures Quiet(s, s.HandleProcessedStatus(i, listed, pushback))
  {
  }

  lemma ProgressIsQuiet(s: Call, i: nat, progress: RpcProgress, listed: bool, pushback: Pushback)
    requires s.committedCallIndex.None? && s.HandleProgress(i, progress, listed, pushback).reports == s.reports
    ensures Quiet(s, s.HandleProgress(i, progress, listed, pushback))
  {
    if progress == Processed || (progress == Refused && s.transparentRetryUsed) {
      ProcessedIsQuiet(s, i, listed, pushback);
    }
  }

  lemma StatusCallbacks(s: Call, i: nat, ok: bool, progress: RpcProgress, listed: bool, pushback: Pushback)
    requires s.Inv() && CallbacksOk(s) && i < |s.underlyingCalls|
    requires s.HandleChildStatus(i, ok, progress, listed, pushback).reports == s.reports
    ensures CallbacksOk(s.HandleChildStatus(i, ok, progress, listed, pushback))
  {
    if s.underlyingCalls[i].state == Active {
      var finished := s.(underlyingCalls := s.underlyingCalls[i := s.underlyingCalls[i].Complete()]);
      CompleteCallbacks(s, i);
      ProgressIsQuiet(finished, i, progress, listed, pushback);
      QuietCallbacks(finished, finished.HandleProgress(i, progress, listed, pushback));
    }
  }

  lemma CompleteCallbacks(s: Call, i: nat)
    requires CallbacksOk(s) && i < |s.underlyingCalls|
    ensures CallbacksOk(s.(underlyingCalls := s.underlyingCalls[i := s.underlyingCalls[i].Complete()]))
  {
    var t := s.(underlyingCalls := s.underlyingCalls[i := s.underlyingCalls[i].Complete()]);
    forall j: nat ensures j in t.called <==> Due(t, j) {
      assert j in s.called <==> Due(s, j);
    }
    forall x | 0 <= x < |t.underlyingCalls| && t.committedCallIndex != Some(x) ensures NotCarrying(t, x) {
      assert NotCarrying(s, x);
    }
  }

  lemma HedgingAttemptIsQuiet(s: Call)
    requires s.state == Hedging ==> s.committedCallIndex.None?
    ensures Quiet(s, s.MaybeStartHedgingAttempt())
  {
  }

  lemma TimerIsQuiet(s: Call, e: Event)
    requires s.Inv() && Enabled(s, e) && Step(s, e).reports == s.reports
    requires e.Start? || e.BackoffElapsed?
    ensures Quiet(s, Step(s, e))
  {
  }

  lemma HedgeStatusCallbacks(s: Call, k: nat)
    requires s.Inv() && CallbacksOk(s) && k < |s.hedgeStatusTimers|
    requires s.HedgeStatusTimerFired(k).reports == s.reports
    ensures CallbacksOk(s.HedgeStatusTimerFired(k))
  {
    HedgingAttemptIsQuiet(s.(hedgeStatusTimers := Without(s.hedgeStatusTimers, k)));
    QuietCallbacks(s, s.HedgeStatusTimerFired(k));
  }

  lemma HedgeDelayCallbacks(s: Call)
    requires s.Inv() && CallbacksOk(s)
    ensures CallbacksOk(s.HedgingTimerFired())
  {
    HedgingAttemptIsQuiet(s.(hedgingTimer := false));
    QuietCallbacks(s, s.HedgingTimerFired());
  }

  lemma StepCallbacks(s: Call, e: Event)
    requires s.Inv() && s.reports == 0 && CallbacksOk(s) && Enabled(s, e) && Step(s, e).reports == 0
    ensures CallbacksOk(Step(s, e))
  {
    match e
    case Write(m, granted) => CallbackDecided(s, m, granted);
    case HalfCloseWrite => HalfCloseCallbacks(s);
    case ChildWriteCompleted(i) => AdvanceCallbacks(s, i);
    case ChildData(i) => DataCallbacks(s, i);
    case ChildStatus(i, ok, progress, listed, pushback) => StatusCallbacks(s, i, ok, progress, listed, pushback);
    case Cancel =>
    case HedgeStatusElapsed(k) => HedgeStatusCallbacks(s, k);
    case HedgeDelayElapsed => HedgeDelayCallbacks(s);
    case _ =>
      TimerIsQuiet(s, e);
      QuietCallbacks(s, Step(s, e));
  }

  lemma DataCallbacks(s: Call, i: nat)
    requires Core(s) && s.reports == 0 && CallbacksOk(s) && i < |s.underlyingCalls|
    ensures CallbacksOk(s.OnReceiveData(i))
  {
    CommitCallbacks(s, i);
    QuietCallbacks(s.CommitCall(i), s.OnReceiveData(i));
  }

  lemma {:induction false} CallbacksFrom(s: Call, events: seq<Event>)
    requires s.Inv() && Runs(s, events) && CallbacksOk(s) && Run(s, events).reports == 0
    ensures CallbacksOk(Run(s, events))
    decreases |events|
  {
    if events != [] {
      StepKeeps(s, events[0]);
      RunKeeps(Step(s, events[0]), events[1..]);
      StepCallbacks(s, events[0]);
      CallbacksFrom(Step(s, events[0]), events[1..]);
    }
  }

  /** Over every run until a status is reported: no callback is called twice, and the
      callback of a write has been called exactly if it was called at once, or was
      left to the committed child and that has completed the sending of the write. */
  lemma {:induction false} CallbacksExact(policy: Policy, events: seq<Event>, j: nat)
    requires policy.Valid() && Runs(Initial(policy), events) && Run(Initial(policy), events).reports == 0
    requires j < |Run(Initial(policy), events).written|
    ensures var s := Run(Initial(policy), events);
            && Distinct(s.called) && j < |s.callbacks|
            && (j in s.called <==> s.callbacks[j] == AtOnce || (s.callbacks[j] == WithSend && SentByCommitted(s, j)))
  {
    CallbacksFrom(Initial(policy), events);
    var s := Run(Initial(policy), events);
    assert j in s.called <==> Due(s, j);
  }

  /** What was decided about callbacks stays. */
  lemma StepSettles(s: Call, e: Event)
    requires Enabled(s, e) && |s.callbacks| == |s.written|
    ensures s.callbacks <= Step(s, e).callbacks && |Step(s, e).callbacks| == |Step(s, e).written|
  {
    match e
    case Write(m, granted) => WriteSettles(s, m, granted);
    case HalfCloseWrite =>
    case ChildWriteCompleted(_) =>
    case ChildData(_) =>
    case _ => OthersSettle(s, e);
  }

  lemma CommitSettles(b: Call)
    ensures b.CommitCallWithMostMessages().callbacks == b.callbacks
    ensures b.CommitCallWithMostMessages().written == b.written
  {
  }

  lemma WriteSettles(s: Call, message: Bytes, granted: bool)
    requires |s.callbacks| == |s.written|
    ensures s.callbacks <= s.SendMessage(message, granted).callbacks
    ensures |s.SendMessage(message, granted).callbacks| == |s.SendMessage(message, granted).written|
  {
    if !granted { CommitSettles(s.Buffer(Message(message, granted, None), Send(message))); }
  }

  /** Callbacks are not concerned. */
  ghost predicate Settled(s: Call, t: Call) {
    && t.callbacks == s.callbacks && t.called == s.called && t.written == s.written
    && (t.writeBuffer == s.writeBuffer || t.writeBuffer == [])
  }

  lemma ProcessedSettles(s: Call, i: nat, listed: bool, pushback: Pushback)
    ensures Settled(s, s.HandleProcessedStatus(i, listed, pushback))
  {
  }

  lemma StatusSettles(s: Call, i: nat, ok: bool, progress: RpcProgress, listed: bool, pushback: Pushback)
    requires i < |s.underlyingCalls|
    ensures Settled(s, s.HandleChildStatus(i, ok, progress, listed, pushback))
  {
    var finished := s.(underlyingCalls := s.underlyingCalls[i := s.underlyingCalls[i].Complete()]);
    ProcessedSettles(finished, i, listed, pushback);
  }

  lemma OthersSettle(s: Call, e: Event)
    requires Enabled(s, e)
    requires !e.Write? && !e.HalfCloseWrite? && !e.ChildWriteCompleted? && !e.ChildData?
    ensures Settled(s, Step(s, e))
  {
    if e.ChildStatus? { StatusSettles(s, e.child, e.ok, e.progress, e.listed, e.pushback); }
  }

  /** Only callbacks that were to be called are called or left with entries. This
      holds in every state, reported or not. */
  ghost predicate Remembered(s: Call) {
    && |s.callbacks| == |s.written|
    && (forall j | j in s.called :: j < |s.callbacks| && s.callbacks[j] != Never)
    && (forall k | 0 <= k < |s.writeBuffer| && Carried(s.writeBuffer[k]).Some? ::
          var j := Carried(s.writeBuffer[k]).value; j < |s.callbacks| && s.callbacks[j] == WithSend)
  }

  lemma ClearRemembers(s: Call)
    requires Remembered(s) && s.Committable()
    ensures Remembered(s.ClearSentMessages()) && s.ClearSentMessages().callbacks == s.callbacks
  {
    var t := s.ClearSentMessages();
    forall k | 0 <= k < |t.writeBuffer| ensures t.writeBuffer[k] in s.writeBuffer {
    }
  }

  lemma CommitRemembers(s: Call, i: nat)
    requires Remembered(s) && i < |s.underlyingCalls|
    ensures Remembered(s.CommitCall(i))
  {
    if s.state != Committed && s.underlyingCalls[i].state == Active {
      ClearRemembers(s.(state := Committed, committedCallIndex := Some(i),
                        underlyingCalls := CompleteOthers(s.underlyingCalls, i)));
    }
  }

  lemma AttachRemembers(c: Call)
    requires Remembered(c) && c.callbacks != [] && c.callbacks[|c.callbacks| - 1] == Never
    ensures Remembered(c.AttachCallback())
  {
  }

  lemma WriteRemembers(s: Call, message: Bytes, granted: bool)
    requires Remembered(s)
    ensures Remembered(s.SendMessage(message, granted))
  {
    var b := s.Buffer(Message(message, granted, None), Send(message));
    assert Remembered(b);
    if granted {
      assert Remembered(b.CallAtOnce());
    } else {
      if Furthest(s.underlyingCalls).Some? { CommitRemembers(b, Furthest(s.underlyingCalls).value); }
      AttachRemembers(b.CommitCallWithMostMessages());
    }
  }

  lemma AdvanceRemembers(s: Call, i: nat)
    requires Remembered(s) && Enabled(s, ChildWriteCompleted(i))
    ensures Remembered(s.HandleChildWriteCompleted(i))
  {
    var c := s.CallBack(s.underlyingCalls[i].nextMessageToSend);
    assert Remembered(c);
    ClearRemembers(c);
  }

  lemma OthersRemember(s: Call, e: Event)
    requires Remembered(s) && Enabled(s, e)
    requires !e.Write? && !e.HalfCloseWrite? && !e.ChildWriteCompleted? && !e.ChildData?
    ensures Remembered(Step(s, e))
  {
    OthersSettle(s, e);
  }

  lemma StepRemembers(s: Call, e: Event)
    requires Remembered(s) && Enabled(s, e)
    ensures Remembered(Step(s, e))
  {
    match e
    case Write(m, granted) => WriteRemembers(s, m, granted);
    case HalfCloseWrite =>
    case ChildWriteCompleted(i) => AdvanceRemembers(s, i);
    case ChildData(i) => CommitRemembers(s, i);
    case _ => OthersRemember(s, e);
  }

  lemma {:induction false} RunRemembers(s: Call, events: seq<Event>)
    requires Remembered(s) && Runs(s, events)
    ensures Remembered(Run(s, events)) && s.callbacks <= Run(s, events).callbacks
    decreases |events|
  {
    if events != [] {
      StepRemembers(s, events[0]);
      StepSettles(s, events[0]);
      RunRemembers(Step(s, events[0]), events[1..]);
    }
  }

  /** A write over the buffer limit that finds no child to commit to is forgotten:
      whatever happens later, reports included, its callback is never called. */
  lemma {:induction false} ForgottenWrite(policy: Policy, before: seq<Event>, message: Bytes, after: seq<Event>)
    requires policy.Valid() && Runs(Initial(policy), before)
    requires var s := Run(Initial(policy), before);
             && s.reports == 0 && s.state != Committed && AllCompleted(s.underlyingCalls)
             && Runs(Step(s, Write(message, false)), after)
    ensures var s := Run(Initial(policy), before);
            |s.written| !in Run(Step(s, Write(message, false)), after).called
  {
    RunKeeps(Initial(policy), before);
    CallbacksFrom(Initial(policy), before);
    RunRemembers(Initial(policy), before);
    var s := Run(Initial(policy), before);
    CallbackDecided(s, message, false);
    StepRemembers(s, Write(message, false));
    RunRemembers(Step(s, Write(message, false)), after);
  }

  // ----- Order after a report -----

  /** The buffer holds the latest writes under their own indices. */
  ghost predicate Indexed(s: Call) {
    && s.GetNextBufferIndex() == |s.written|
    && forall k | 0 <= k < |s.writeBuffer| :: s.writeBuffer[k].Holds(s.written[s.writeBufferOffset + k])
  }

  /** What concerns order in the guarantee before a report: the buffer is indexed,
      and every child has been sent a prefix of the writes. */
  ghost predicate Ordered(s: Call) { Indexed(s) && AllInOrder(s.underlyingCalls, s.written) }

  /** Writes that this child was not given yet have left the buffer. */
  predicate Behind(s: Call, i: nat)
    requires i < |s.underlyingCalls|
  {
    s.underlyingCalls[i].nextMessageToSend < s.writeBufferOffset
  }

  /** The child for which the event trims the buffer: the one that the call commits
      to, or the committed one when a write completes. */
  function TrimsFor(s: Call, e: Event): Option<nat>
    requires Enabled(s, e)
  {
    match e
    case ChildWriteCompleted(_) => s.committedCallIndex
    case ChildData(i) => if s.state != Committed && s.underlyingCalls[i].state == Active then Some(i) else None
    case Write(_, granted) => if !granted && s.state != Committed then Furthest(s.underlyingCalls) else None
    case _ => None
  }

  predicate TrimsBack(s: Call, e: Event)
    requires Enabled(s, e)
  {
    var child := TrimsFor(s, e);
    child.Some? && child.value < |s.underlyingCalls| && Behind(s, child.value)
  }

  /** Trimming keeps the indices exactly if it does not move the offset backwards. */
  lemma ClearKeepsIndexIff(s: Call)
    requires Indexed(s) && s.Committable() && s.state == Committed
    requires s.underlyingCalls[s.committedCallIndex.value].nextMessageToSend <= |s.written|
    ensures Indexed(s.ClearSentMessages()) <==> !Behind(s, s.committedCallIndex.value)
  {
  }

  lemma CommitKeepsIndexIff(s: Call, i: nat)
    requires Indexed(s) && s.state != Committed && i < |s.underlyingCalls| && s.underlyingCalls[i].state == Active
    requires s.underlyingCalls[i].nextMessageToSend <= |s.written|
    ensures Indexed(s.CommitCall(i)) <==> !Behind(s, i)
    ensures forall w :: AllInOrder(s.underlyingCalls, w) ==> AllInOrder(s.CommitCall(i).underlyingCalls, w)
    ensures s.CommitCall(i).written == s.written
    ensures s.CommitCall(i).state == Committed && s.CommitCall(i).committedCallIndex == Some(i)
    ensures |s.CommitCall(i).underlyingCalls| == |s.underlyingCalls|
  {
    ClearKeepsIndexIff(s.(state := Committed, committedCallIndex := Some(i),
                          underlyingCalls := CompleteOthers(s.underlyingCalls, i)));
  }

  lemma NewAttemptOrdered(s: Call)
    requires Ordered(s)
    ensures Ordered(s.StartNewAttempt())
  {
  }

  lemma BufferOrdered(s: Call, entry: WriteBufferEntry, op: WriteOp)
    requires Ordered(s) && entry.Holds(op)
    ensures Ordered(s.Buffer(entry, op)) && s.GetNextBufferIndex() == |s.written|
  {
  }

  lemma OfferOrdered(s: Call, entry: WriteBufferEntry, op: WriteOp)
    requires Ordered(s) && entry.Holds(op)
    ensures Ordered(s.Buffer(entry, op).Offer(s.GetNextBufferIndex(), op))
  {
    BufferOrdered(s, entry, op);
    forall i | 0 <= i < |s.underlyingCalls|
      ensures s.underlyingCalls[i].Offer(|s.written|, op).SentPrefixOf(s.written + [op])
    {
      OfferKeeps(s.underlyingCalls[i], s.written, op);
    }
  }

  lemma GiveOrdered(s: Call, i: nat)
    requires Ordered(s) && i < |s.underlyingCalls| && s.underlyingCalls[i].inFlight > 0
    ensures var child := s.underlyingCalls[i].WriteDone();
            Ordered(s.(underlyingCalls :=
              s.underlyingCalls[i := child.Give(s.GetBufferEntry(child.nextMessageToSend))]))
  {
    assert s.underlyingCalls[i].SentPrefixOf(s.written);
  }

  lemma AdvanceOrderIff(s: Call, i: nat)
    requires s.Inv() && Ordered(s) && Enabled(s, ChildWriteCompleted(i))
    ensures Ordered(s.AdvanceChild(i)) <==> !TrimsBack(s, ChildWriteCompleted(i))
  {
    var cleared := s.ClearSentMessages();
    if s.state == Committed {
      assert s.underlyingCalls[s.committedCallIndex.value].SentPrefixOf(s.written);
      ClearKeepsIndexIff(s);
    }
    if Ordered(cleared) { GiveOrdered(cleared, i); }
  }

  lemma WriteCompletedOrderIff(s: Call, i: nat)
    requires s.Inv() && Ordered(s) && Enabled(s, ChildWriteCompleted(i))
    ensures Ordered(s.HandleChildWriteCompleted(i)) <==> !TrimsBack(s, ChildWriteCompleted(i))
  {
    var c := s.CallBack(s.underlyingCalls[i].nextMessageToSend);
    CallbacksApart(s, c.callbacks, c.called);
    assert Ordered(c);
    AdvanceOrderIff(c, i);
  }

  lemma AttachIndexed(c: Call)
    ensures Indexed(c.AttachCallback()) <==> Indexed(c)
  {
    var t := c.AttachCallback();
    forall k, op | 0 <= k < |c.writeBuffer| ensures t.writeBuffer[k].Holds(op) <==> c.writeBuffer[k].Holds(op) {
    }
  }

  /** Offering a message to the committed child leaves the buffer alone. */
  lemma OfferCommittedOrdered(c: Call, written: seq<WriteOp>, message: Bytes)
    requires c.written == written + [Send(message)] && AllInOrder(c.underlyingCalls, written)
    ensures var t := c.OfferCommitted(|written|, message);
            && (Indexed(t) <==> Indexed(c)) && AllInOrder(t.underlyingCalls, t.written)
  {
    AttachIndexed(c);
    forall i | 0 <= i < |c.underlyingCalls|
      ensures c.underlyingCalls[i].SentPrefixOf(c.written)
      ensures c.underlyingCalls[i].Offer(|written|, Send(message)).SentPrefixOf(c.written)
    {
      OfferKeeps(c.underlyingCalls[i], written, Send(message));
    }
  }

  lemma OverLimitOrderIff(s: Call, message: Bytes)
    requires s.Inv() && Ordered(s)
    ensures Ordered(s.SendMessage(message, false)) <==> !TrimsBack(s, Write(message, false))
  {
    var b := s.Buffer(Message(message, false, None), Send(message));
    BufferOrdered(s, Message(message, false, None), Send(message));
    var f := Furthest(s.underlyingCalls);
    if s.state != Committed && f.Some? {
      assert s.underlyingCalls[f.value].SentPrefixOf(s.written);
      CommitKeepsIndexIff(b, f.value);
    }
    OfferCommittedOrdered(b.CommitCallWithMostMessages(), s.written, message);
  }

  lemma ReportOrdered(s: Call)
    requires Ordered(s)
    ensures Ordered(s.ReportStatus())
  {
  }

  lemma ProcessedOrdered(s: Call, i: nat, listed: bool, pushback: Pushback)
    requires Ordered(s)
    ensures Ordered(s.HandleProcessedStatus(i, listed, pushback))
  {
    ReportOrdered(s);
    ReportOrdered(s.(state := TransparentOnly));
  }

  lemma ProgressOrdered(s: Call, i: nat, progress: RpcProgress, listed: bool, pushback: Pushback)
    requires Ordered(s)
    ensures Ordered(s.HandleProgress(i, progress, listed, pushback))
  {
    ReportOrdered(s);
    NewAttemptOrdered(s);
    ProcessedOrdered(s, i, listed, pushback);
  }

  lemma StatusOrdered(s: Call, i: nat, ok: bool, progress: RpcProgress, listed: bool, pushback: Pushback)
    requires Ordered(s) && i < |s.underlyingCalls|
    ensures Ordered(s.HandleChildStatus(i, ok, progress, listed, pushback))
  {
    if s.underlyingCalls[i].state == Active {
      var finished := s.(underlyingCalls := s.underlyingCalls[i := s.underlyingCalls[i].Complete()]);
      assert Ordered(finished);
      ReportOrdered(finished);
      ProgressOrdered(finished, i, progress, listed, pushback);
    }
  }

  lemma HedgingAttemptOrdered(s: Call)
    requires Ordered(s)
    ensures Ordered(s.MaybeStartHedgingAttempt())
  {
    NewAttemptOrdered(s.(attempts := s.attempts + 1));
  }

  lemma BackoffOrdered(s: Call, canRetry: bool)
    requires Ordered(s) && s.backoffTimers != []
    ensures Ordered(s.BackoffTimerFired(canRetry))
  {
    var fired := s.(backoffTimers := s.backoffTimers[1..]);
    ReportOrdered(fired);
    NewAttemptOrdered(fired.(attempts := s.attempts + 1));
  }

  lemma HedgeStatusOrdered(s: Call, k: nat)
    requires Ordered(s) && k < |s.hedgeStatusTimers|
    ensures Ordered(s.HedgeStatusTimerFired(k))
  {
    var fired := s.(hedgeStatusTimers := Without(s.hedgeStatusTimers, k));
    HedgingAttemptOrdered(fired);
    ReportOrdered(fired.MaybeStartHedgingAttempt());
  }

  lemma OtherStepsOrdered(s: Call, e: Event)
    requires s.Inv() && Ordered(s) && Enabled(s, e)
    requires !e.Write? && !e.HalfCloseWrite? && !e.ChildWriteCompleted? && !e.ChildData?
    ensures Ordered(Step(s, e))
  {
    match e
    case Start => NewAttemptOrdered(s.(attempts := s.attempts + 1));
    case ChildStatus(i, ok, progress, listed, pushback) => StatusOrdered(s, i, ok, progress, listed, pushback);
    case BackoffElapsed(canRetry) => BackoffOrdered(s, canRetry);
    case HedgeStatusElapsed(k) => HedgeStatusOrdered(s, k);
    case HedgeDelayElapsed => HedgingAttemptOrdered(s.(hedgingTimer := false));
    case _ => ReportOrdered(s);
  }

  lemma WriteOrderIff(s: Call, message: Bytes, granted: bool)
    requires s.Inv() && Ordered(s)
    ensures Ordered(s.SendMessage(message, granted)) <==> !TrimsBack(s, Write(message, granted))
  {
    if granted { OfferOrdered(s, Message(message, true, None), Send(message)); } else { OverLimitOrderIff(s, message); }
  }

  lemma DeliveredOrdered(c: Call, delivered: seq<nat>)
    ensures Ordered(c.(delivered := delivered)) <==> Ordered(c)
  {
  }

  lemma CommitOrderIff(s: Call, i: nat)
    requires Ordered(s) && i < |s.underlyingCalls|
    ensures Ordered(s.CommitCall(i)) <==>
              !(s.state != Committed && s.underlyingCalls[i].state == Active && Behind(s, i))
  {
    if s.state != Committed && s.underlyingCalls[i].state == Active {
      assert s.underlyingCalls[i].SentPrefixOf(s.written);
      CommitKeepsIndexIff(s, i);
    }
  }

  lemma DataOrderIff(s: Call, i: nat)
    requires s.Inv() && Ordered(s) && i < |s.underlyingCalls|
    ensures Ordered(s.OnReceiveData(i)) <==> !TrimsBack(s, ChildData(i))
  {
    CommitOrderIff(s, i);
    DeliveredOrdered(s.CommitCall(i), s.delivered + [i]);
  }

  /** From an ordered state a step loses the order exactly if it trims back. */
  lemma OrderKeptIff(s: Call, e: Event)
    requires s.Inv() && Ordered(s) && Enabled(s, e)
    ensures Ordered(Step(s, e)) <==> !TrimsBack(s, e)
  {
    match e
    case Write(m, granted) => WriteOrderIff(s, m, granted);
    case HalfCloseWrite => OfferOrdered(s, HalfClose, End);
    case ChildWriteCompleted(i) => WriteCompletedOrderIff(s, i);
    case ChildData(i) => DataOrderIff(s, i);
    case _ => OtherStepsOrdered(s, e);
  }

  ghost predicate OrderedThroughout(s: Call, events: seq<Event>)
    requires Runs(s, events)
    decreases |events|
  {
    Ordered(s) && (events == [] || OrderedThroughout(Step(s, events[0]), events[1..]))
  }

  ghost predicate NeverTrimsBack(s: Call, events: seq<Event>)
    requires Runs(s, events)
    decreases |events|
  {
    events == [] || (!TrimsBack(s, events[0]) && NeverTrimsBack(Step(s, events[0]), events[1..]))
  }

  lemma {:induction false} OrderKeptFrom(s: Call, events: seq<Event>)
    requires s.Inv() && Ordered(s) && Runs(s, events)
    ensures OrderedThroughout(s, events) <==> NeverTrimsBack(s, events)
    decreases |events|
  {
    if events != [] {
      StepKeeps(s, events[0]);
      OrderKeptIff(s, events[0]);
      if Ordered(Step(s, events[0])) { OrderKeptFrom(Step(s, events[0]), events[1..]); }
    }
  }

  /** Over every run, reports or not, the writes reach every child in order exactly
      as long as no event trims the buffer for a child that is behind it. */
  lemma {:induction false} OrderKeptOverRuns(policy: Policy, events: seq<Event>)
    requires policy.Valid() && Runs(Initial(policy), events)
    ensures OrderedThroughout(Initial(policy), events) <==> NeverTrimsBack(Initial(policy), events)
  {
    OrderKeptFrom(Initial(policy), events);
  }

  /** Before a report no event does. After the first one an event does exactly if
      the child it trims for has not completed the sending of every write. */
  lemma FirstReportTrims(s: Call, e: Event)
    requires s.Inv() && s.reports == 0 && Enabled(s, e)
    ensures Ordered(s) && !TrimsBack(s, e)
    ensures TrimsBack(s.ReportStatus(), e) <==>
              TrimsFor(s, e).Some? && s.underlyingCalls[TrimsFor(s, e).value].nextMessageToSend < |s.written|
  {
  }

  /** Lost order shows: with nothing written since the report, the child that is
      committed to behind the buffer is sent the next write at once, over the writes
      it still misses, or with the last of them still in flight. */
  lemma LostOrderShows(s: Call, i: nat, message: Bytes)
    requires s.Inv() && Ordered(s) && s.writeBuffer == [] && i < |s.underlyingCalls| && TrimsBack(s, ChildData(i))
    ensures var before := s.underlyingCalls[i];
            var after := Step(Step(s, ChildData(i)), Write(message, true)).underlyingCalls[i];
            && after.sent == before.sent + [Send(message)]
            && (|before.sent| < |s.written| || (before.inFlight == 1 && after.inFlight == 2))
  {
    assert s.underlyingCalls[i].SentPrefixOf(s.written);
  }

  /** After a report the guarantee is gone: the offset can move backwards, and a
      later write then takes the index of a lost one. Here a call cancelled with
      two writes buffered commits its only child, which is then handed a third
      write (and has two in flight) without the second. */
  lemma ReplayGapAfterReport(a: Bytes, b: Bytes, c: Bytes) returns (events: seq<Event>)
    requires b != c
    ensures Runs(Initial(NoPolicy), events)
    ensures var s := Run(Initial(NoPolicy), events);
            && s.reports == 1 && s.written == [Send(a), Send(b), Send(c)] && |s.underlyingCalls| == 1
            && s.underlyingCalls[0].sent == [Send(a), Send(c)] && s.underlyingCalls[0].inFlight == 2
            && !(s.underlyingCalls[0].sent <= s.written)
  {
    var s0 := Initial(NoPolicy);
    var s1, s2, s3 := TwoWrites(a, b);
    var c2 := FRESH_CALL.GiveMessage(a);
    var s4 := Step(s3, Cancel);
    var s5 := Step(s4, ChildData(0));
    var s6 := Step(s5, Write(c, true));
    assert s5.underlyingCalls == s3.underlyingCalls && s5.writeBufferOffset == 0 && s5.writeBuffer == [];
    var c6 := c2.GiveMessage(c);
    assert c6.sent == [Send(a), Send(c)];
    assert s6.underlyingCalls == [c6];
    assert s6.underlyingCalls[0].sent[1] != s6.written[1];
    events := [Event.Start, Write(a, true), Write(b, true), Cancel, ChildData(0), Write(c, true)];
    RunStates(events, [s0, s1, s2, s3, s4, s5, s6]);
  }

  lemma TwoWrites(a: Bytes, b: Bytes) returns (s1: Call, s2: Call, s3: Call)
    ensures Enabled(Initial(NoPolicy), Event.Start) && s1 == Step(Initial(NoPolicy), Event.Start)
    ensures s2 == Step(s1, Write(a, true)) && s3 == Step(s2, Write(b, true))
    ensures s3 == Call(NoPolicy, TransparentOnly, [FRESH_CALL.GiveMessage(a)],
                       [Message(a, true, None), Message(b, true, None)], 0,
                       false, 1, None, false, [], [], [Send(a), Send(b)], [], 0, 0, [AtOnce, AtOnce], [0, 1])
  {
    s1 := Step(Initial(NoPolicy), Event.Start);
    s2 := Step(s1, Write(a, true));
    s3 := Step(s2, Write(b, true));
    assert s1.underlyingCalls == [FRESH_CALL];
    assert s2.underlyingCalls == [FRESH_CALL.GiveMessage(a)] == s3.underlyingCalls;
    assert s3.writeBuffer == [Message(a, true, None), Message(b, true, None)];
  }

  /** A run is the sequence of its states. */
  lemma {:induction false} RunStates(events: seq<Event>, states: seq<Call>)
    requires |states| == |events| + 1
    requires forall k | 0 <= k < |events| ::
               Enabled(states[k], events[k]) && states[k + 1] == Step(states[k], events[k])
    ensures Runs(states[0], events) && Run(states[0], events) == states[|events|]
    decreases |events|
  {
    if events != [] { RunStates(events[1..], states[1..]); }
  }
}
