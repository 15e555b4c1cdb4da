/**
 Load reports: what clients record about calls and drops, and the reports that
 drain those counters. Whatever is recorded for a cluster while its entry lives is
 in a report sent since or still pending, never both and never lost.
 */
module LoadCounters {
  import opened Common

  /** What is counted for a cluster. */
  datatype Kind = Started(locality: string) | Succeeded(locality: string) | Failed(locality: string)
                | Dropped(category: string) | Uncategorized

  datatype ClusterLocalityStats = ClusterLocalityStats(
    locality: string, callsInProgress: int, callsStarted: nat, callsSucceeded: nat, callsFailed: nat, refcount: int)
  {
    function Count(k: Kind): nat {
      match k
      case Started(l) => if l == locality then callsStarted else 0
      case Succeeded(l) => if l == locality then callsSucceeded else 0
      case Failed(l) => if l == locality then callsFailed else 0
      case _ => 0
    }

    predicate IsNew() { !Active() && callsInProgress == 0 && refcount == 0 }

    predicate Active() { callsStarted > 0 || callsSucceeded > 0 || callsFailed > 0 }

    function Cleared(): ClusterLocalityStats {
      this.(callsStarted := 0, callsSucceeded := 0, callsFailed := 0)
    }
  }

  datatype DroppedRequests = DroppedRequests(category: string, droppedCount: nat) {
    function Count(k: Kind): nat { if k == Dropped(category) then droppedCount else 0 }
  }

  datatype ClusterLoadReport = ClusterLoadReport(
    callsDropped: seq<DroppedRequests>, uncategorizedCallsDropped: nat, localityStats: seq<ClusterLocalityStats>)
  {
    /** What is recorded and not yet reported. */
    function Pending(k: Kind): nat {
      LocalityCount(localityStats, k) + DropCount(callsDropped, k)
      + if k.Uncategorized? then uncategorizedCallsDropped else 0
    }
  }

  function LocalityCount(s: seq<ClusterLocalityStats>, k: Kind): nat {
    if s == [] then 0 else LocalityCount(s[..|s| - 1], k) + s[|s| - 1].Count(k)
  }

  function DropCount(s: seq<DroppedRequests>, k: Kind): nat {
    if s == [] then 0 else DropCount(s[..|s| - 1], k) + s[|s| - 1].Count(k)
  }

  function DropTotal(s: seq<DroppedRequests>): nat {
    if s == [] then 0 else DropTotal(s[..|s| - 1]) + s[|s| - 1].droppedCount
  }

  // ----- Reports -----

  datatype UpstreamLocalityStats = UpstreamLocalityStats(
    locality: string, totalIssuedRequests: nat, totalSuccessfulRequests: nat, totalErrorRequests: nat,
    totalRequestsInProgress: int)
  {
    function Count(k: Kind): nat {
      match k
      case Started(l) => if l == locality then totalIssuedRequests else 0
      case Succeeded(l) => if l == locality then totalSuccessfulRequests else 0
      case Failed(l) => if l == locality then totalErrorRequests else 0
      case _ => 0
    }
  }

  datatype ClusterStats = ClusterStats(
    clusterName: string, clusterServiceName: string, droppedRequests: seq<DroppedRequests>, totalDroppedRequests: nat,
    upstreamLocalityStats: seq<UpstreamLocalityStats>)
  {
    /** Drops without a category show only in the total. */
    function Count(k: Kind): int {
      UpstreamCount(upstreamLocalityStats, k) + DropCount(droppedRequests, k)
      + if k.Uncategorized? then totalDroppedRequests - DropTotal(droppedRequests) else 0
    }
  }

  function UpstreamCount(s: seq<UpstreamLocalityStats>, k: Kind): nat {
    if s == [] then 0 else UpstreamCount(s[..|s| - 1], k) + s[|s| - 1].Count(k)
  }

  type Message = seq<ClusterStats>

  /** What a message says about a cluster. */
  function MessageCount(m: Message, clusterName: string, edsServiceName: string, k: Kind): int {
    if m == [] then 0
    else MessageCount(m[..|m| - 1], clusterName, edsServiceName, k)
         + var c := m[|m| - 1];
           if c.clusterName == clusterName && c.clusterServiceName == edsServiceName then c.Count(k) else 0
  }

  /** What all messages from index `from` on say about a cluster. */
  function Since(sent: seq<Message>, from: nat, clusterName: string, edsServiceName: string, k: Kind): int {
    if |sent| <= from then 0
    else Since(sent[..|sent| - 1], from, clusterName, edsServiceName, k)
         + MessageCount(sent[|sent| - 1], clusterName, edsServiceName, k)
  }

  // ----- Draining the counters -----

  function Upstream(l: ClusterLocalityStats): UpstreamLocalityStats {
    UpstreamLocalityStats(l.locality, l.callsStarted, l.callsSucceeded, l.callsFailed, l.callsInProgress)
  }

  /** Appending to the lists adds to the counts. */
  lemma {:induction false} LocalityCountAppend(s: seq<ClusterLocalityStats>, l: ClusterLocalityStats, k: Kind)
    ensures LocalityCount(s + [l], k) == LocalityCount(s, k) + l.Count(k)
  {
    assert (s + [l])[..|s|] == s;
  }

  lemma {:induction false} UpstreamCountAppend(s: seq<UpstreamLocalityStats>, l: ClusterLocalityStats, k: Kind)
    ensures UpstreamCount(s + [Upstream(l)], k) == UpstreamCount(s, k) + l.Count(k)
  {
    assert (s + [Upstream(l)])[..|s|] == s;
  }

  /** The active localities, and no others, were taken into `upstream` with all their
      counts, and `left` is what remains. */
  ghost predicate Drained(all: seq<ClusterLocalityStats>, upstream: seq<UpstreamLocalityStats>,
                          left: seq<ClusterLocalityStats>) {
    && (forall k :: UpstreamCount(upstream, k) == LocalityCount(all, k) && LocalityCount(left, k) == 0)
    && |left| == |all| && (forall i | 0 <= i < |left| :: left[i] == all[i].Cleared())
    && (forall i | 0 <= i < |all| :: all[i].Active() ==> Upstream(all[i]) in upstream)
    && (forall u | u in upstream :: exists i :: 0 <= i < |all| && u == Upstream(all[i]) && all[i].Active())
  }

  lemma DrainNext(all: seq<ClusterLocalityStats>, upstream: seq<UpstreamLocalityStats>,
                  left: seq<ClusterLocalityStats>, l: ClusterLocalityStats)
    requires Drained(all, upstream, left)
    ensures Drained(all + [l], if l.Active() then upstream + [Upstream(l)] else upstream, left + [l.Cleared()])
  {
    var more := if l.Active() then upstream + [Upstream(l)] else upstream;
    forall k
      ensures UpstreamCount(more, k) == LocalityCount(all + [l], k) && LocalityCount(left + [l.Cleared()], k) == 0
    {
      LocalityCountAppend(all, l, k);
      LocalityCountAppend(left, l.Cleared(), k);
      UpstreamCountAppend(upstream, l, k);
    }
    forall u | u in more
      ensures exists i :: 0 <= i < |all + [l]| && u == Upstream((all + [l])[i]) && (all + [l])[i].Active()
    {
      if u in upstream {
        var i :| 0 <= i < |all| && u == Upstream(all[i]) && all[i].Active();
        assert (all + [l])[i] == all[i];
      } else {
        assert (all + [l])[|all|] == l;
      }
    }
  }

  method DrainLocalities(localityStats: seq<ClusterLocalityStats>)
    returns (upstream: seq<UpstreamLocalityStats>, left: seq<ClusterLocalityStats>)
    ensures Drained(localityStats, upstream, left)
  {
    upstream, left := [], [];
    for i := 0 to |localityStats|
      invariant Drained(localityStats[..i], upstream, left)
    {
      var l := localityStats[i];
      DrainNext(localityStats[..i], upstream, left, l);
      assert localityStats[..i + 1] == localityStats[..i] + [l];
      if l.Active() {
        upstream := upstream + [Upstream(l)];
        left := left + [l.Cleared()];
      } else {
        assert l == l.Cleared();
        left := left + [l];
      }
    }
    assert localityStats[..|localityStats|] == localityStats;
  }

  method DrainDrops(callsDropped: seq<DroppedRequests>) returns (dropped: seq<DroppedRequests>, total: nat)
    ensures forall k :: DropCount(dropped, k) == DropCount(callsDropped, k)
    ensures total == DropTotal(dropped)
    ensures total == 0 ==> forall k :: DropCount(callsDropped, k) == 0
  {
    dropped, total := [], 0;
    for i := 0 to |callsDropped|
      invariant forall k :: DropCount(dropped, k) == DropCount(callsDropped[..i], k)
      invariant total == DropTotal(dropped)
      invariant total == 0 ==> forall j | 0 <= j < i :: callsDropped[j].droppedCount == 0
      invariant total == 0 ==> forall k :: DropCount(callsDropped[..i], k) == 0
    {
      assert callsDropped[..i + 1][..i] == callsDropped[..i];
      if callsDropped[i].droppedCount > 0 {
        var more := dropped + [callsDropped[i]];
        assert more[..|more| - 1] == dropped && DropTotal(more) == DropTotal(dropped) + callsDropped[i].droppedCount;
        dropped := more;
        total := total + callsDropped[i].droppedCount;
      }
    }
    assert callsDropped[..|callsDropped|] == callsDropped;
  }

  /** Takes everything pending into a report, or into none if it is all zero. */
  method Drain(clusterName: string, edsServiceName: string, stats: ClusterLoadReport)
    returns (report: Option<ClusterStats>, left: ClusterLoadReport)
    ensures forall k :: left.Pending(k) == 0
    ensures report.None? ==> forall k :: stats.Pending(k) == 0
    ensures report.Some? ==>
              report.value.clusterName == clusterName && report.value.clusterServiceName == edsServiceName
    ensures report.Some? ==> forall k :: report.value.Count(k) == stats.Pending(k)
    ensures |left.localityStats| == |stats.localityStats|
    ensures forall i | 0 <= i < |left.localityStats| :: left.localityStats[i] == stats.localityStats[i].Cleared()
  {
    var upstream, localities := DrainLocalities(stats.localityStats);
    var dropped, total := DrainDrops(stats.callsDropped);
    total := total + stats.uncategorizedCallsDropped;
    left := ClusterLoadReport([], 0, localities);
    if |upstream| > 0 || total > 0 {
      report := Some(ClusterStats(clusterName, edsServiceName, dropped, total, upstream));
    } else {
      report := None;
    }
  }
}

module LoadReports {
  import opened Common
  import opened LoadCounters

  /** `id` tells an entry from later ones for the same cluster, as the identity of
      the stats object does for those who hold it. */
  datatype StatsMapEntry = StatsMapEntry(
    id: nat, clusterName: string, edsServiceName: string, refCount: int, stats: ClusterLoadReport)
  {
    predicate Names(clusterName: string, edsServiceName: string) {
      this.clusterName == clusterName && this.edsServiceName == edsServiceName
    }
  }

  datatype Duration = Duration(seconds: nat, nanos: nat)

  datatype LoadStatsResponse = LoadStatsResponse(
    sendAllClusters: bool, clusters: seq<string>, loadReportingInterval: Option<Duration>)

  /** A load reporting stream: is it open, was its timer ever set, and does it tick? */
  datatype LrsCallState = LrsCallState(open: bool, statsTimer: bool, ticking: bool)

  // ----- Histories -----

  /** How often each thing was recorded on each entry. */
  type Records = map<(nat, Kind), nat>

  function Rec(r: Records, id: nat, k: Kind): nat { if (id, k) in r then r[(id, k)] else 0 }

  function Record(r: Records, id: nat, k: Kind): Records { r[(id, k) := Rec(r, id, k) + 1] }

  predicate HasLocality(stats: ClusterLoadReport, locality: string) {
    exists i | 0 <= i < |stats.localityStats| :: stats.localityStats[i].locality == locality
  }

  /** Everything recorded is in a report sent since the entry was created, or is
      still pending. */
  ghost predicate Conserved(e: StatsMapEntry, r: Records, from: nat, sent: seq<Message>) {
    forall k :: Rec(r, e.id, k) == Since(sent, from, e.clusterName, e.edsServiceName, k) + e.stats.Pending(k)
  }

  ghost predicate LocalityOk(l: ClusterLocalityStats, id: nat, r: Records) {
    && l.callsInProgress
       == Rec(r, id, Started(l.locality)) - Rec(r, id, Succeeded(l.locality)) - Rec(r, id, Failed(l.locality))
    && l.refcount <= 0
  }

  ghost predicate LocalitiesOk(e: StatsMapEntry, r: Records) {
    && (forall i, j | 0 <= i < j < |e.stats.localityStats| ::
          e.stats.localityStats[i].locality != e.stats.localityStats[j].locality)
    && (forall i | 0 <= i < |e.stats.localityStats| :: LocalityOk(e.stats.localityStats[i], e.id, r))
    && (forall l: string | !HasLocality(e.stats, l) ::
          Rec(r, e.id, Started(l)) == Rec(r, e.id, Succeeded(l)) == Rec(r, e.id, Failed(l)) == 0)
  }

  datatype History = History(records: Records, createdAt: map<nat, nat>, handles: set<(nat, string)>, nextId: nat)

  ghost predicate EntryOk(e: StatsMapEntry, h: History, sent: seq<Message>) {
    && e.id < h.nextId && e.id in h.createdAt && h.createdAt[e.id] <= |sent|
    && Conserved(e, h.records, h.createdAt[e.id], sent)
    && LocalitiesOk(e, h.records)
    && (forall l | (e.id, l) in h.handles :: HasLocality(e.stats, l))
  }

  ghost predicate EntriesApart(m: seq<StatsMapEntry>) {
    forall i, j | 0 <= i < j < |m| :: m[i].id != m[j].id && !m[i].Names(m[j].clusterName, m[j].edsServiceName)
  }

  ghost predicate HistoryOk(m: seq<StatsMapEntry>, h: History, sent: seq<Message>) {
    && EntriesApart(m)
    && (forall i | 0 <= i < |m| :: EntryOk(m[i], h, sent))
    && (forall id, k | (id, k) in h.records :: id < h.nextId)
    && (forall id, l | (id, l) in h.handles :: id < h.nextId)
  }

  // ----- One entry changes -----

  lemma {:induction false} LocalityCountUpdate(s: seq<ClusterLocalityStats>, j: nat, l: ClusterLocalityStats, k: Kind)
    requires j < |s|
    ensures LocalityCount(s[j := l], k) == LocalityCount(s, k) - s[j].Count(k) + l.Count(k)
  {
    var n := |s| - 1;
    if j < n {
      LocalityCountUpdate(s[..n], j, l, k);
      assert s[j := l][..n] == s[..n][j := l];
    } else {
      assert s[j := l][..n] == s[..n];
    }
  }

  lemma {:induction false} DropCountUpdate(s: seq<DroppedRequests>, j: nat, d: DroppedRequests, k: Kind)
    requires j < |s|
    ensures DropCount(s[j := d], k) == DropCount(s, k) - s[j].Count(k) + d.Count(k)
  {
    var n := |s| - 1;
    if j < n {
      DropCountUpdate(s[..n], j, d, k);
      assert s[j := d][..n] == s[..n][j := d];
    } else {
      assert s[j := d][..n] == s[..n];
    }
  }

  /** Recording on one entry is invisible to the others. */
  lemma OtherEntry(e: StatsMapEntry, h: History, sent: seq<Message>, id: nat, k: Kind)
    requires EntryOk(e, h, sent) && e.id != id
    ensures EntryOk(e, h.(records := Record(h.records, id, k)), sent)
  {
  }

  lemma RecordedOk(m: seq<StatsMapEntry>, h: History, sent: seq<Message>, i: nat, stats: ClusterLoadReport, k: Kind)
    requires HistoryOk(m, h, sent) && i < |m|
    requires EntryOk(m[i].(stats := stats), h.(records := Record(h.records, m[i].id, k)), sent)
    ensures HistoryOk(m[i := m[i].(stats := stats)], h.(records := Record(h.records, m[i].id, k)), sent)
  {
    var n := m[i := m[i].(stats := stats)];
    forall j | 0 <= j < |n| ensures EntryOk(n[j], h.(records := Record(h.records, m[i].id, k)), sent) {
      if j != i { OtherEntry(m[j], h, sent, m[i].id, k); }
    }
  }

  /** A drop is recorded. */
  lemma DropRecorded(e: StatsMapEntry, h: History, sent: seq<Message>, stats: ClusterLoadReport, k: Kind)
    requires EntryOk(e, h, sent) && (k.Dropped? || k.Uncategorized?) && stats.localityStats == e.stats.localityStats
    requires forall j :: stats.Pending(j) == e.stats.Pending(j) + if j == k then 1 else 0
    ensures EntryOk(e.(stats := stats), h.(records := Record(h.records, e.id, k)), sent)
  {
    var r := Record(h.records, e.id, k);
    assert forall j :: Rec(r, e.id, j) == Rec(h.records, e.id, j) + if j == k then 1 else 0;
    forall i | 0 <= i < |stats.localityStats| ensures LocalityOk(stats.localityStats[i], e.id, r) {
      assert LocalityOk(e.stats.localityStats[i], e.id, h.records);
    }
    forall l | !HasLocality(stats, l)
      ensures Rec(r, e.id, Started(l)) == Rec(r, e.id, Succeeded(l)) == Rec(r, e.id, Failed(l)) == 0 {
      assert !HasLocality(e.stats, l);
    }
  }

  /** What recording `k` does to a locality's counters. */
  function Counted(l: ClusterLocalityStats, k: Kind): ClusterLocalityStats {
    match k
    case Started(_) => l.(callsStarted := l.callsStarted + 1, callsInProgress := l.callsInProgress + 1)
    case Succeeded(_) => l.(callsSucceeded := l.callsSucceeded + 1, callsInProgress := l.callsInProgress - 1)
    case Failed(_) => l.(callsFailed := l.callsFailed + 1, callsInProgress := l.callsInProgress - 1)
    case _ => l
  }

  lemma CallPending(stats: ClusterLoadReport, j: nat, after: ClusterLocalityStats, k: Kind, x: Kind)
    requires j < |stats.localityStats| && (k.Started? || k.Succeeded? || k.Failed?)
             && k.locality == stats.localityStats[j].locality
    requires after == Counted(stats.localityStats[j], k)
    ensures stats.(localityStats := stats.localityStats[j := after]).Pending(x) ==
              stats.Pending(x) + if x == k then 1 else 0
  {
    LocalityCountUpdate(stats.localityStats, j, after, x);
  }

  lemma CallInProgress(l: ClusterLocalityStats, after: ClusterLocalityStats, id: nat, r: Records, k: Kind)
    requires LocalityOk(l, id, r) && (k.Started? || k.Succeeded? || k.Failed?)
    requires after == if k.locality == l.locality then Counted(l, k) else l
    ensures LocalityOk(after, id, Record(r, id, k))
  {
  }

  lemma CallConserved(e: StatsMapEntry, h: History, sent: seq<Message>, j: nat, after: ClusterLocalityStats, k: Kind)
    requires EntryOk(e, h, sent) && j < |e.stats.localityStats|
    requires (k.Started? || k.Succeeded? || k.Failed?) && k.locality == e.stats.localityStats[j].locality
    requires after == Counted(e.stats.localityStats[j], k)
    ensures Conserved(e.(stats := e.stats.(localityStats := e.stats.localityStats[j := after])),
                      Record(h.records, e.id, k), h.createdAt[e.id], sent)
  {
    forall x { CallPending(e.stats, j, after, k, x); }
  }

  /** A call is recorded for locality `j`. */
  lemma CallRecorded(e: StatsMapEntry, h: History, sent: seq<Message>, j: nat, after: ClusterLocalityStats, k: Kind)
    requires EntryOk(e, h, sent) && j < |e.stats.localityStats|
    requires (k.Started? || k.Succeeded? || k.Failed?) && k.locality == e.stats.localityStats[j].locality
    requires after == Counted(e.stats.localityStats[j], k)
    ensures EntryOk(e.(stats := e.stats.(localityStats := e.stats.localityStats[j := after])),
                    h.(records := Record(h.records, e.id, k)), sent)
  {
    var s := e.stats.localityStats;
    var stats := e.stats.(localityStats := s[j := after]);
    var r := Record(h.records, e.id, k);
    CallConserved(e, h, sent, j, after, k);
    SameLocalities(e.stats, stats);
    forall i | 0 <= i < |s| ensures LocalityOk(stats.localityStats[i], e.id, r) {
      CallInProgress(s[i], stats.localityStats[i], e.id, h.records, k);
    }
    forall l | !HasLocality(stats, l)
      ensures Rec(r, e.id, Started(l)) == Rec(r, e.id, Succeeded(l)) == Rec(r, e.id, Failed(l)) == 0 {
      assert !HasLocality(e.stats, l) && HasLocality(e.stats, k.locality);
    }
  }

  lemma SameLocalities(a: ClusterLoadReport, b: ClusterLoadReport)
    requires |a.localityStats| == |b.localityStats|
    requires forall i | 0 <= i < |a.localityStats| :: a.localityStats[i].locality == b.localityStats[i].locality
    ensures forall l :: HasLocality(a, l) <==> HasLocality(b, l)
  {
  }

  /** An entry gets a locality it did not have. */
  lemma LocalityAdded(e: StatsMapEntry, h: History, sent: seq<Message>, l: ClusterLocalityStats)
    requires EntryOk(e, h, sent) && !HasLocality(e.stats, l.locality) && l.IsNew()
    ensures EntryOk(e.(stats := WithLocality(e.stats, l)), h, sent)
  {
  }

  function WithLocality(stats: ClusterLoadReport, l: ClusterLocalityStats): (r: ClusterLoadReport) {
    stats.(localityStats := stats.localityStats + [l])
  }

  method NewLocality(locality: string) returns (l: ClusterLocalityStats)
    ensures l.locality == locality && l.IsNew()
  {
    l := ClusterLocalityStats(locality, 0, 0, 0, 0, 0);
  }

  /** Only one entry changes, and not what it is called. */
  lemma ReplacedOk(m: seq<StatsMapEntry>, h: History, sent: seq<Message>, i: nat, e: StatsMapEntry)
    requires HistoryOk(m, h, sent) && i < |m| && EntryOk(e, h, sent)
    requires e.id == m[i].id && e.clusterName == m[i].clusterName && e.edsServiceName == m[i].edsServiceName
    ensures HistoryOk(m[i := e], h, sent)
  {
  }

  // ----- The report map and the reporting stream -----

  /** Only the stream in use is open, and only a timer that was set ticks. */
  ghost predicate StreamsOk(states: seq<LrsCallState>, current: Option<nat>) {
    && (current.Some? ==> current.value < |states|)
    && forall i | 0 <= i < |states| ::
         (states[i].open <==> current == Some(i)) && (states[i].ticking ==> states[i].statsTimer)
  }

  function Interval(settings: Option<LoadStatsResponse>): Option<Duration> {
    if settings.Some? then settings.value.loadReportingInterval else None
  }

  class LoadReporter {
    var statsMap: seq<StatsMapEntry>
    var nextId: nat
    var latestLrsSettings: Option<LoadStatsResponse>
    /** Every message sent on a load reporting stream. */
    var sent: seq<Message>
    /** For each message: was its stream still open? */
    ghost var heard: seq<bool>
    /** Every stream so far. A timer that was set is never cleared for good. */
    var lrsCallStates: seq<LrsCallState>
    /** The stream in use. */
    var lrsCallState: Option<nat>
    ghost var records: Records
    /** How many messages had been sent when an entry was created. */
    ghost var createdAt: map<nat, nat>
    /** The locality stats objects that were given out, by entry and locality. */
    ghost var handles: set<(nat, string)>

    ghost function Past(): History
      reads this
    {
      History(records, createdAt, handles, nextId)
    }

    ghost predicate Valid()
      reads this
    {
      HistoryOk(statsMap, Past(), sent) && StreamsOk(lrsCallStates, lrsCallState) && |heard| == |sent|
    }

    constructor ()
      ensures Valid() && statsMap == [] && sent == [] && records == map[] && latestLrsSettings == None
      ensures lrsCallStates == [] && lrsCallState == None && nextId == 0
    {
      statsMap, nextId, latestLrsSettings, sent, heard := [], 0, None, [], [];
      lrsCallStates, lrsCallState := [], None;
      records, createdAt, handles := map[], map[], {};
    }

    /** A stream is opened unless there is one, or nobody needs it; it sends a report
        at once. `refcount` is the number of authorities that use the client. */
    method MaybeStartLrsStream(refcount: nat)
      requires Valid()
      modifies this`lrsCallStates, this`lrsCallState, this`statsMap, this`sent, this`heard
      ensures Valid()
      ensures if old(lrsCallState).Some? || refcount < 1 || old(statsMap) == [] then
                sent == old(sent) && statsMap == old(statsMap) && lrsCallStates == old(lrsCallStates)
                && lrsCallState == old(lrsCallState)
              else
                && lrsCallStates == old(lrsCallStates) + [LrsCallState(true, false, false)]
                && lrsCallState == Some(|old(lrsCallStates)|)
                && Reported(old(statsMap), old(sent)) && heard == old(heard) + [true]
    {
      if lrsCallState.Some? || refcount < 1 || |statsMap| < 1 {
        return;
      }
      lrsCallState := Some(|lrsCallStates|);
      lrsCallStates := lrsCallStates + [LrsCallState(true, false, false)];
      SendStats(|lrsCallStates| - 1);
    }

    /** The stream in use ends. Its timer is not stopped. */
    method HandleLrsStreamEnd()
      requires Valid() && lrsCallState.Some?
      modifies this`lrsCallStates, this`lrsCallState
      ensures Valid() && lrsCallState == None
      ensures var i := old(lrsCallState).value;
              lrsCallStates == old(lrsCallStates)[i := old(lrsCallStates)[i].(open := false)]
    {
      var i := lrsCallState.value;
      lrsCallStates := lrsCallStates[i := lrsCallStates[i].(open := false)];
      lrsCallState := None;
    }

    /** The server says what to report and how often. The timer is set again when the
        interval changes. `ok` is false where the source throws, for want of an
        interval; the old timer has been stopped by then. */
    method HandleResponseMessage(message: LoadStatsResponse) returns (ok: bool)
      requires Valid() && lrsCallState.Some?
      modifies this`lrsCallStates, this`latestLrsSettings
      ensures Valid()
      ensures var i := lrsCallState.value;
              var before := old(lrsCallStates)[i];
              var changed := !before.statsTimer
                             || message.loadReportingInterval != Interval(old(latestLrsSettings));
              && (ok <==> !changed || message.loadReportingInterval.Some?)
              && latestLrsSettings == (if ok then Some(message) else old(latestLrsSettings))
              && lrsCallStates
                 == old(lrsCallStates)[i := before.(statsTimer := before.statsTimer || ok,
                                                    ticking := if changed then ok else before.ticking)]
    {
      var i := lrsCallState.value;
      var s := lrsCallStates[i];
      ok := true;
      if !s.statsTimer || message.loadReportingInterval != Interval(latestLrsSettings) {
        if s.statsTimer {
          s := s.(ticking := false);
        }
        if message.loadReportingInterval.None? {
          ok := false;
        } else {
          s := s.(statsTimer := true, ticking := true);
        }
      }
      lrsCallStates := lrsCallStates[i := s];
      if ok {
        latestLrsSettings := Some(message);
      }
    }

    /** The timer of a stream fires, whether or not the stream is still open. */
    method StatsTimerFired(i: nat)
      requires Valid() && i < |lrsCallStates| && lrsCallStates[i].ticking
      modifies this`statsMap, this`sent, this`heard
      ensures Valid() && Reported(old(statsMap), old(sent)) && heard == old(heard) + [lrsCallState == Some(i)]
    {
      SendStats(i);
    }

    function Find(clusterName: string, edsServiceName: string, n: nat): (i: nat)
      requires n <= |statsMap|
      reads this
      ensures i <= n && (i < n ==> statsMap[i].Names(clusterName, edsServiceName))
      ensures forall j | 0 <= j < i :: !statsMap[j].Names(clusterName, edsServiceName)
    {
      if n == 0 then 0
      else
        var i := Find(clusterName, edsServiceName, n - 1);
        if i < n - 1 then i
        else if statsMap[n - 1].Names(clusterName, edsServiceName) then n - 1 else n
    }

    function FindId(id: nat, n: nat): (i: nat)
      requires n <= |statsMap|
      reads this
      ensures i <= n && (i < n ==> statsMap[i].id == id) && forall j | 0 <= j < i :: statsMap[j].id != id
    {
      if n == 0 then 0
      else
        var i := FindId(id, n - 1);
        if i < n - 1 then i else if statsMap[n - 1].id == id then n - 1 else n
    }

    /** The entry for a cluster, with one more reference; created if missing. */
    method GetOrCreate(clusterName: string, edsServiceName: string) returns (i: nat)
      requires Valid()
      modifies this`statsMap, this`nextId, this`createdAt
      ensures Valid()
      ensures i == old(Find(clusterName, edsServiceName, |statsMap|))
      ensures i < |statsMap| && statsMap[i].Names(clusterName, edsServiceName)
      ensures if i < |old(statsMap)| then
                statsMap == old(statsMap)[i := old(statsMap)[i].(refCount := old(statsMap)[i].refCount + 1)]
              else
                && statsMap == old(statsMap) + [NewEntry(old(nextId), clusterName, edsServiceName)]
                && old(nextId) in createdAt && createdAt[old(nextId)] == |sent|
    {
      i := Find(clusterName, edsServiceName, |statsMap|);
      if i < |statsMap| {
        RefEntry(i);
      } else {
        AddEntry(clusterName, edsServiceName);
      }
    }

    method RefEntry(i: nat)
      requires Valid() && i < |statsMap|
      modifies this`statsMap
      ensures Valid()
      ensures statsMap == old(statsMap)[i := old(statsMap)[i].(refCount := old(statsMap)[i].refCount + 1)]
    {
      var e := statsMap[i].(refCount := statsMap[i].refCount + 1);
      assert EntryOk(statsMap[i], Past(), sent);
      ReplacedOk(statsMap, Past(), sent, i, e);
      statsMap := statsMap[i := e];
    }

    method AddEntry(clusterName: string, edsServiceName: string)
      requires Valid() && forall i | 0 <= i < |statsMap| :: !statsMap[i].Names(clusterName, edsServiceName)
      modifies this`statsMap, this`nextId, this`createdAt
      ensures Valid()
      ensures statsMap == old(statsMap) + [NewEntry(old(nextId), clusterName, edsServiceName)]
      ensures old(nextId) in createdAt && createdAt[old(nextId)] == |sent|
    {
      NewEntryOk(statsMap, Past(), sent, clusterName, edsServiceName);
      statsMap := statsMap + [NewEntry(nextId, clusterName, edsServiceName)];
      createdAt := createdAt[nextId := |sent|];
      nextId := nextId + 1;
    }

    /** A reference to a cluster's entry is given up. */
    method Unref(clusterName: string, edsServiceName: string)
      requires Valid()
      modifies this`statsMap
      ensures Valid()
      ensures var i := old(Find(clusterName, edsServiceName, |statsMap|));
              statsMap == if i == |old(statsMap)| then old(statsMap)
                          else if old(statsMap)[i].refCount == 1 then old(statsMap)[..i] + old(statsMap)[i + 1..]
                          else old(statsMap)[i := old(statsMap)[i].(refCount := old(statsMap)[i].refCount - 1)]
    {
      var i := Find(clusterName, edsServiceName, |statsMap|);
      if i < |statsMap| {
        var e := statsMap[i].(refCount := statsMap[i].refCount - 1);
        if e.refCount == 0 {
          RemovedOk(statsMap, Past(), sent, i);
          statsMap := statsMap[..i] + statsMap[i + 1..];
        } else {
          ReplacedOk(statsMap, Past(), sent, i, e);
          statsMap := statsMap[i := e];
        }
      }
    }

    /** The statistics object for a locality of a cluster. */
    method AddClusterLocalityStats(clusterName: string, edsServiceName: string, locality: string) returns (id: nat)
      requires Valid()
      modifies this`statsMap, this`nextId, this`createdAt, this`handles
      ensures Valid() && handles == old(handles) + {(id, locality)}
      ensures var i := old(Find(clusterName, edsServiceName, |statsMap|));
              && i < |statsMap| == (if i == |old(statsMap)| then i + 1 else |old(statsMap)|)
              && statsMap[i].id == id && statsMap[i].Names(clusterName, edsServiceName)
              && (i == |old(statsMap)| ==> id in createdAt && createdAt[id] == |sent|)
    {
      var i := GetOrCreate(clusterName, edsServiceName);
      id := statsMap[i].id;
      EnsureLocality(i, locality);
      HandleOk(statsMap, Past(), sent, i, locality);
      handles := handles + {(id, locality)};
    }

    method EnsureLocality(i: nat, locality: string)
      requires Valid() && i < |statsMap|
      modifies this`statsMap
      ensures Valid() && |statsMap| == |old(statsMap)| && HasLocality(statsMap[i].stats, locality)
      ensures statsMap == old(statsMap)[i := old(statsMap)[i].(stats := statsMap[i].stats)]
    {
      if !HasLocality(statsMap[i].stats, locality) {
        var l := NewLocality(locality);
        var e := statsMap[i].(stats := WithLocality(statsMap[i].stats, l));
        LocalityAdded(statsMap[i], Past(), sent, l);
        ReplacedOk(statsMap, Past(), sent, i, e);
        assert e.stats.localityStats[|e.stats.localityStats| - 1].locality == locality;
        statsMap := statsMap[i := e];
      }
    }

    /** A call starts or finishes on a locality. The object may belong to an entry
        that is gone; then no report will ever show the call. */
    method AddCall(id: nat, k: Kind)
      requires Valid() && (k.Started? || k.Succeeded? || k.Failed?) && (id, k.locality) in handles
      modifies this`statsMap, this`records
      ensures Valid()
      ensures var i := old(FindId(id, |statsMap|));
              if i == |old(statsMap)| then statsMap == old(statsMap) && records == old(records)
              else records == Record(old(records), id, k)
                   && |statsMap| == |old(statsMap)|
                   && statsMap == old(statsMap)[i := old(statsMap)[i].(stats := statsMap[i].stats)]
    {
      var i := FindId(id, |statsMap|);
      if i < |statsMap| {
        var e := statsMap[i];
        assert EntryOk(e, Past(), sent) && HasLocality(e.stats, k.locality);
        var j := LocalityIndex(e.stats, k.locality);
        var after := Counted(e.stats.localityStats[j], k);
        var stats := e.stats.(localityStats := e.stats.localityStats[j := after]);
        CallRecorded(e, Past(), sent, j, after, k);
        RecordedOk(statsMap, Past(), sent, i, stats, k);
        statsMap := statsMap[i := e.(stats := stats)];
        records := Record(records, id, k);
      }
    }

    /** A call is dropped, in a category or without one. */
    method AddDrop(id: nat, k: Kind)
      requires Valid() && (k.Dropped? || k.Uncategorized?)
      modifies this`statsMap, this`records
      ensures Valid()
      ensures var i := old(FindId(id, |statsMap|));
              if i == |old(statsMap)| then statsMap == old(statsMap) && records == old(records)
              else records == Record(old(records), id, k)
                   && |statsMap| == |old(statsMap)|
                   && statsMap == old(statsMap)[i := old(statsMap)[i].(stats := statsMap[i].stats)]
    {
      var i := FindId(id, |statsMap|);
      if i < |statsMap| {
        var e := statsMap[i];
        assert EntryOk(e, Past(), sent);
        var stats := CountDrop(e.stats, k);
        DropRecorded(e, Past(), sent, stats, k);
        RecordedOk(statsMap, Past(), sent, i, stats, k);
        statsMap := statsMap[i := e.(stats := stats)];
        records := Record(records, id, k);
      }
    }

    /** A locality's statistics object is given up, and with it a reference to the
        entry. Unless that removes the entry, the object stays and goes on counting:
        its reference count was never raised, so it never comes down to zero. */
    method RemoveClusterLocalityStats(clusterName: string, edsServiceName: string, locality: string)
      requires Valid()
      modifies this`statsMap
      ensures Valid()
      ensures var i, before := old(Find(clusterName, edsServiceName, |statsMap|)), old(statsMap);
              if i == |before| then statsMap == before
              else if before[i].refCount == 1 then statsMap == before[..i] + before[i + 1..]
              else |statsMap| == |before| && statsMap == before[i := statsMap[i]]
                   && SameCounters(before[i], statsMap[i]) && statsMap[i].refCount == before[i].refCount - 1
    {
      var i := Find(clusterName, edsServiceName, |statsMap|);
      if i < |statsMap| {
        ReleaseLocality(i, locality);
        assert Find(clusterName, edsServiceName, |statsMap|) == i;
        Unref(clusterName, edsServiceName);
      }
    }

    method ReleaseLocality(i: nat, locality: string)
      requires Valid() && i < |statsMap|
      modifies this`statsMap
      ensures Valid() && |statsMap| == |old(statsMap)| && statsMap == old(statsMap)[i := statsMap[i]]
      ensures SameCounters(old(statsMap)[i], statsMap[i]) && statsMap[i].refCount == old(statsMap)[i].refCount
    {
      var e := statsMap[i];
      var stats := e.stats.(localityStats := Released(e.stats.localityStats, locality));
      assert EntryOk(e, Past(), sent);
      ReleasedOk(e, Past(), sent, stats, locality);
      ReplacedOk(statsMap, Past(), sent, i, e.(stats := stats));
      statsMap := statsMap[i := e.(stats := stats)];
    }

    /** One more message was sent, and the selected clusters' counters moved into it. */
    ghost predicate Reported(before: seq<StatsMapEntry>, sentBefore: seq<Message>)
      reads this
    {
      && |sent| == |sentBefore| + 1 && sent[..|sentBefore|] == sentBefore && |statsMap| == |before|
      && (latestLrsSettings.None? ==> sent[|sentBefore|] == [] && statsMap == before)
      && (latestLrsSettings.Some? ==>
            forall i | 0 <= i < |statsMap| ::
              && statsMap[i].(stats := before[i].stats) == before[i]
              && if Selected(latestLrsSettings.value, statsMap[i].clusterName)
                 then forall k :: statsMap[i].stats.Pending(k) == 0
                 else statsMap[i] == before[i])
    }

    /** Sends one report, on whatever stream the timer belongs to. */
    method SendStats(ghost stream: nat)
      requires Valid() && stream < |lrsCallStates|
      modifies this`statsMap, this`sent, this`heard
      ensures Valid() && Reported(old(statsMap), old(sent)) && heard == old(heard) + [lrsCallStates[stream].open]
    {
      heard := heard + [lrsCallStates[stream].open];
      if latestLrsSettings.None? {
        NothingMoved(statsMap);
        SentOk(statsMap, statsMap, Past(), sent, []);
        sent := sent + [[]];
        return;
      }
      var left, clusterStats := CollectStats(statsMap, latestLrsSettings.value);
      SentOk(statsMap, left, Past(), sent, clusterStats);
      statsMap := left;
      sent := sent + [clusterStats];
    }
  }

  method CollectStats(all: seq<StatsMapEntry>, settings: LoadStatsResponse)
    returns (m: seq<StatsMapEntry>, clusterStats: Message)
    requires EntriesApart(all)
    ensures |m| == |all| && forall j | 0 <= j < |m| :: Moved(all[j], m[j], clusterStats)
    ensures forall j | 0 <= j < |m| ::
              if Selected(settings, m[j].clusterName) then forall k :: m[j].stats.Pending(k) == 0 else m[j] == all[j]
  {
    m, clusterStats := all, [];
    NothingMoved(all);
    for i := 0 to |all|
      invariant |m| == |all| && forall j | i <= j < |m| :: m[j] == all[j]
      invariant forall j | 0 <= j < |m| :: Moved(all[j], m[j], clusterStats)
      invariant forall j | 0 <= j < i ::
                  if Selected(settings, m[j].clusterName) then forall k :: m[j].stats.Pending(k) == 0
                  else m[j] == all[j]
      invariant forall j, k | i <= j < |m| :: MessageCount(clusterStats, m[j].clusterName, m[j].edsServiceName, k) == 0
    {
      if Selected(settings, all[i].clusterName) {
        var report, left := Drain(all[i].clusterName, all[i].edsServiceName, all[i].stats);
        var longer := if report.Some? then clusterStats + [report.value] else clusterStats;
        DrainedMoved(all, m, i, clusterStats, report, left, longer);
        m := m[i := m[i].(stats := left)];
        clusterStats := longer;
      }
    }
  }

  lemma NothingMoved(m: seq<StatsMapEntry>)
    ensures forall i | 0 <= i < |m| :: Moved(m[i], m[i], [])
    ensures forall i, k | 0 <= i < |m| :: MessageCount([], m[i].clusterName, m[i].edsServiceName, k) == 0
  {
  }

  // ----- Releasing localities -----

  function Released(s: seq<ClusterLocalityStats>, locality: string): seq<ClusterLocalityStats> {
    if s == [] then []
    else if s[0].locality != locality then [s[0]] + Released(s[1..], locality)
    else
      var l := s[0].(refcount := s[0].refcount - 1);
      if l.refcount == 0 then s[1..] else [l] + s[1..]
  }

  /** With reference counts that start at zero, releasing never deletes. */
  lemma {:induction false} ReleasedKeeps(s: seq<ClusterLocalityStats>, locality: string)
    requires forall i | 0 <= i < |s| :: s[i].refcount <= 0
    ensures var r := Released(s, locality);
            && |r| == |s|
            && forall i | 0 <= i < |s| :: r[i] == s[i].(refcount := r[i].refcount) && r[i].refcount <= 0
  {
    if s != [] { ReleasedKeeps(s[1..], locality); }
  }

  lemma {:induction false} SameCounts(a: seq<ClusterLocalityStats>, b: seq<ClusterLocalityStats>, k: Kind)
    requires |a| == |b| && forall i | 0 <= i < |a| :: a[i].Count(k) == b[i].Count(k)
    ensures LocalityCount(a, k) == LocalityCount(b, k)
  {
    if a != [] { SameCounts(a[..|a| - 1], b[..|b| - 1], k); }
  }

  lemma {:induction false} ReleasedPending(stats: ClusterLoadReport, locality: string, k: Kind)
    requires forall i | 0 <= i < |stats.localityStats| :: stats.localityStats[i].refcount <= 0
    ensures stats.(localityStats := Released(stats.localityStats, locality)).Pending(k) == stats.Pending(k)
  {
    ReleasedKeeps(stats.localityStats, locality);
    SameCounts(Released(stats.localityStats, locality), stats.localityStats, k);
  }

  /** The same cluster, localities and counts; only reference counts may differ. */
  ghost predicate SameCounters(o: StatsMapEntry, e: StatsMapEntry) {
    && e == o.(stats := e.stats, refCount := e.refCount) && |e.stats.localityStats| == |o.stats.localityStats|
    && forall i | 0 <= i < |o.stats.localityStats| ::
         e.stats.localityStats[i] == o.stats.localityStats[i].(refcount := e.stats.localityStats[i].refcount)
  }

  lemma {:induction false} ReleasedOk(e: StatsMapEntry, h: History, sent: seq<Message>, stats: ClusterLoadReport,
                                      locality: string)
    requires EntryOk(e, h, sent) && stats == e.stats.(localityStats := Released(e.stats.localityStats, locality))
    ensures EntryOk(e.(stats := stats), h, sent) && SameCounters(e, e.(stats := stats))
  {
    var s := e.stats.localityStats;
    forall j | 0 <= j < |s| ensures s[j].refcount <= 0 {
      assert LocalityOk(s[j], e.id, h.records);
    }
    ReleasedKeeps(s, locality);
    SameLocalities(e.stats, stats);
    forall k ensures stats.Pending(k) == e.stats.Pending(k) {
      ReleasedPending(e.stats, locality, k);
    }
    forall j | 0 <= j < |s| ensures LocalityOk(stats.localityStats[j], e.id, h.records) {
      assert LocalityOk(s[j], e.id, h.records);
    }
  }

  // ----- Sending a report -----

  function IndexOf(s: seq<string>, x: string): (i: int)
    ensures i == -1 <==> x !in s
    ensures x in s ==> 0 <= i < |s| && s[i] == x && x !in s[..i]
  {
    if s == [] then -1
    else if s[0] == x then 0
    else
      var i := IndexOf(s[1..], x);
      if i < 0 then -1 else i + 1
  }

  predicate Selected(settings: LoadStatsResponse, clusterName: string) {
    settings.sendAllClusters || IndexOf(settings.clusters, clusterName) > 0
  }

  /** The cluster that the server lists first is never reported by name. */
  lemma FirstClusterIsNotSelected(settings: LoadStatsResponse, clusterName: string)
    requires !settings.sendAllClusters
    ensures Selected(settings, clusterName) <==> clusterName in settings.clusters && settings.clusters[0] != clusterName
  {
  }

  /** What is no longer pending in an entry is in the message. */
  ghost predicate Moved(before: StatsMapEntry, after: StatsMapEntry, m: Message) {
    && after.(stats := before.stats) == before
    && |after.stats.localityStats| == |before.stats.localityStats|
    && (forall i | 0 <= i < |after.stats.localityStats| ::
          var l, o := after.stats.localityStats[i], before.stats.localityStats[i];
          l.locality == o.locality && l.callsInProgress == o.callsInProgress && l.refcount == o.refcount)
    && (forall k ::
          MessageCount(m, before.clusterName, before.edsServiceName, k) + after.stats.Pending(k)
          == before.stats.Pending(k))
  }

  /** One entry's counters move into the message. */
  lemma DrainedMoved(all: seq<StatsMapEntry>, m: seq<StatsMapEntry>, i: nat, message: Message,
                     report: Option<ClusterStats>, left: ClusterLoadReport, longer: Message)
    requires EntriesApart(all) && |m| == |all| && i < |m| && m[i] == all[i]
    requires forall j | 0 <= j < |m| :: Moved(all[j], m[j], message)
    requires forall j, k | i <= j < |m| :: MessageCount(message, m[j].clusterName, m[j].edsServiceName, k) == 0
    requires longer == if report.Some? then message + [report.value] else message
    requires report.None? ==> forall k :: all[i].stats.Pending(k) == 0
    requires report.Some? ==> all[i].Names(report.value.clusterName, report.value.clusterServiceName)
                              && forall k :: report.value.Count(k) == all[i].stats.Pending(k)
    requires forall k :: left.Pending(k) == 0
    requires |left.localityStats| == |all[i].stats.localityStats|
    requires forall j | 0 <= j < |left.localityStats| ::
               left.localityStats[j] == all[i].stats.localityStats[j].Cleared()
    ensures var n := m[i := m[i].(stats := left)];
            && (forall j | 0 <= j < |n| :: Moved(all[j], n[j], longer))
            && (forall j, k | i < j < |n| :: MessageCount(longer, n[j].clusterName, n[j].edsServiceName, k) == 0)
  {
  }

  lemma SentOk(before: seq<StatsMapEntry>, after: seq<StatsMapEntry>, h: History, sent: seq<Message>, m: Message)
    requires HistoryOk(before, h, sent) && |after| == |before|
    requires forall i | 0 <= i < |before| :: Moved(before[i], after[i], m)
    ensures HistoryOk(after, h, sent + [m])
  {
    forall i | 0 <= i < |after| ensures EntryOk(after[i], h, sent + [m]) {
      SentEntryOk(before[i], after[i], h, sent, m);
    }
  }

  lemma SentEntryOk(before: StatsMapEntry, after: StatsMapEntry, h: History, sent: seq<Message>, m: Message)
    requires EntryOk(before, h, sent) && Moved(before, after, m)
    ensures EntryOk(after, h, sent + [m])
  {
  }

  method LocalityIndex(stats: ClusterLoadReport, locality: string) returns (j: nat)
    requires HasLocality(stats, locality)
    ensures j < |stats.localityStats| && stats.localityStats[j].locality == locality
  {
    j := 0;
    while stats.localityStats[j].locality != locality
      invariant j < |stats.localityStats|
      invariant exists i :: j <= i < |stats.localityStats| && stats.localityStats[i].locality == locality
      decreases |stats.localityStats| - j
    {
      j := j + 1;
    }
  }

  method CountDrop(stats: ClusterLoadReport, k: Kind) returns (after: ClusterLoadReport)
    requires k.Dropped? || k.Uncategorized?
    ensures after.localityStats == stats.localityStats
    ensures forall j :: after.Pending(j) == stats.Pending(j) + if j == k then 1 else 0
  {
    if k.Uncategorized? {
      return stats.(uncategorizedCallsDropped := stats.uncategorizedCallsDropped + 1);
    }
    var d := stats.callsDropped;
    for i := 0 to |d| {
      if d[i].category == k.category {
        var more := d[i].(droppedCount := d[i].droppedCount + 1);
        forall j { DropCountUpdate(d, i, more, j); }
        return stats.(callsDropped := d[i := more]);
      }
    }
    var longer := d + [DroppedRequests(k.category, 1)];
    assert longer[..|d|] == d;
    return stats.(callsDropped := longer);
  }

  lemma HandleOk(m: seq<StatsMapEntry>, h: History, sent: seq<Message>, i: nat, locality: string)
    requires HistoryOk(m, h, sent) && i < |m| && HasLocality(m[i].stats, locality)
    ensures HistoryOk(m, h.(handles := h.handles + {(m[i].id, locality)}), sent)
  {
  }

  lemma RemovedOk(m: seq<StatsMapEntry>, h: History, sent: seq<Message>, i: nat)
    requires HistoryOk(m, h, sent) && i < |m|
    ensures HistoryOk(m[..i] + m[i + 1..], h, sent)
  {
  }

  function NewEntry(id: nat, clusterName: string, edsServiceName: string): StatsMapEntry {
    StatsMapEntry(id, clusterName, edsServiceName, 1, ClusterLoadReport([], 0, []))
  }

  lemma NewEntryOk(m: seq<StatsMapEntry>, h: History, sent: seq<Message>, clusterName: string, edsServiceName: string)
    requires HistoryOk(m, h, sent) && forall i | 0 <= i < |m| :: !m[i].Names(clusterName, edsServiceName)
    ensures HistoryOk(m + [NewEntry(h.nextId, clusterName, edsServiceName)],
                      h.(createdAt := h.createdAt[h.nextId := |sent|], nextId := h.nextId + 1), sent)
  {
  }

  /** A locality that calls can be recorded for. */
  method OneLocality(cluster: string, service: string, locality: string) returns (r: LoadReporter, id: nat)
    ensures fresh(r) && r.Valid() && r.records == map[] && (id, locality) in r.handles
    ensures |r.statsMap| == 1 && r.statsMap[0].id == id && r.statsMap[0].Names(cluster, service)
    ensures id in r.createdAt && r.createdAt[id] == 0 && r.sent == [] && r.heard == []
    ensures r.lrsCallState == None && r.lrsCallStates == [] && r.latestLrsSettings == None
  {
    r := new LoadReporter();
    id := r.AddClusterLocalityStats(cluster, service, locality);
  }

  /** And a stream whose timer ticks. */
  method OneStream(cluster: string, service: string, locality: string, settings: LoadStatsResponse)
    returns (r: LoadReporter, id: nat)
    requires settings.loadReportingInterval.Some?
    ensures fresh(r) && r.Valid() && r.records == map[] && (id, locality) in r.handles
    ensures |r.statsMap| == 1 && r.statsMap[0].id == id && r.statsMap[0].Names(cluster, service)
    ensures id in r.createdAt && r.createdAt[id] == 0 && r.sent == [[]] && r.heard == [true]
    ensures r.lrsCallState == Some(0) && |r.lrsCallStates| == 1 && r.lrsCallStates[0].ticking
    ensures r.latestLrsSettings == Some(settings)
  {
    r, id := OneLocality(cluster, service, locality);
    r.MaybeStartLrsStream(1);
    assert r.sent == [[]] && |r.statsMap| == 1;
    var ok := r.HandleResponseMessage(settings);
  }

  /** One call that is still to be reported. */
  method OneCall(cluster: string, service: string, locality: string, settings: LoadStatsResponse)
    returns (r: LoadReporter, id: nat)
    requires settings.loadReportingInterval.Some?
    ensures fresh(r) && r.Valid() && r.records == map[(id, Started(locality)) := 1]
    ensures |r.statsMap| == 1 && r.statsMap[0].id == id && r.statsMap[0].Names(cluster, service)
    ensures id in r.createdAt && r.createdAt[id] == 0 && r.sent == [[]] && r.heard == [true]
    ensures r.lrsCallState == Some(0) && |r.lrsCallStates| == 1 && r.lrsCallStates[0].ticking
    ensures r.latestLrsSettings == Some(settings)
  {
    r, id := OneStream(cluster, service, locality, settings);
    assert r.FindId(id, 1) == 0;
    r.AddCall(id, Started(locality));
  }

  /** The timer of a stream that has ended goes on, and what it drains is lost: here
      the one call that was recorded is in a message that no open stream carried. */
  method EndedStreamDrains(cluster: string, service: string, locality: string, settings: LoadStatsResponse)
    returns (r: LoadReporter)
    requires settings.sendAllClusters && settings.loadReportingInterval.Some?
    ensures fresh(r) && r.Valid() && |r.sent| == 2 && r.heard == [true, false]
    ensures MessageCount(r.sent[1], cluster, service, Started(locality)) == 1
    ensures forall i, k | 0 <= i < |r.statsMap| :: r.statsMap[i].stats.Pending(k) == 0
  {
    var id;
    r, id := OneCall(cluster, service, locality, settings);
    r.HandleLrsStreamEnd();
    OneCallReported(r.records, r.statsMap[0], r.Past(), r.sent, locality);
    r.StatsTimerFired(0);
    OneCallReported(r.records, r.statsMap[0], r.Past(), r.sent, locality);
  }

  /** The call is either still pending or in a message. */
  lemma {:induction false} OneCallReported(records: Records, e: StatsMapEntry, h: History, sent: seq<Message>,
                                           locality: string)
    requires EntryOk(e, h, sent) && h.records == records == map[(e.id, Started(locality)) := 1]
    ensures Since(sent, h.createdAt[e.id], e.clusterName, e.edsServiceName, Started(locality))
            + e.stats.Pending(Started(locality)) == 1
  {
    assert Rec(h.records, e.id, Started(locality)) == 1;
  }
}
