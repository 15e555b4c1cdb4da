/**
 How the xDS cluster resolver names priorities: a priority keeps the name it had
 as long as it can be recognised by its localities, so that the priority policy
 keeps its child; otherwise it gets a name never used before.
 */
module PriorityNames {
  import opened Common

  // ----- Names -----

  function Digit(d: nat): char
    requires d < 10
  {
    '0' + d as char
  }

  function Decimal(n: nat): string {
    if n < 10 then [Digit(n)] else Decimal(n / 10) + [Digit(n % 10)]
  }

  predicate IsDigit(c: char) { '0' <= c <= '9' }

  function Number(digits: string): int
    requires forall i | 0 <= i < |digits| :: IsDigit(digits[i])
  {
    if digits == [] then 0
    else 10 * Number(digits[..|digits| - 1]) + (digits[|digits| - 1] as int - '0' as int)
  }

  lemma {:induction false} DecimalReads(n: nat)
    ensures |Decimal(n)| > 0 && forall i | 0 <= i < |Decimal(n)| :: IsDigit(Decimal(n)[i])
    ensures Number(Decimal(n)) == n
  {
    if n < 10 {
      assert Decimal(n)[..0] == [];
    } else {
      DecimalReads(n / 10);
      assert Decimal(n)[..|Decimal(n)| - 1] == Decimal(n / 10);
    }
  }

  function TrailingDigits(s: string): nat {
    if s != [] && IsDigit(s[|s| - 1]) then TrailingDigits(s[..|s| - 1]) + 1 else 0
  }

  lemma {:induction false} TrailingDigitsAre(prefix: string, digits: string)
    requires prefix != [] && !IsDigit(prefix[|prefix| - 1])
    requires forall i | 0 <= i < |digits| :: IsDigit(digits[i])
    ensures TrailingDigits(prefix + digits) == |digits|
    decreases |digits|
  {
    if digits == [] {
      assert prefix + digits == prefix;
    } else {
      TrailingDigitsAre(prefix, digits[..|digits| - 1]);
      assert (prefix + digits)[..|prefix + digits| - 1] == prefix + digits[..|digits| - 1];
    }
  }

  /** A generated name, before it is written out. */
  datatype PriorityName = PriorityName(cluster: string, childNumber: nat) {
    function ToString(): string {
      "cluster=" + cluster + ", child_number=" + Decimal(childNumber)
    }
  }

  /** Written out, a name still tells its cluster and its number, whatever the
      cluster is called: comparing strings is comparing names. */
  lemma NameInjective(a: PriorityName, b: PriorityName)
    ensures a.ToString() == b.ToString() <==> a == b
  {
    var sep := ", child_number=";
    var p1, p2 := "cluster=" + a.cluster + sep, "cluster=" + b.cluster + sep;
    var d1, d2 := Decimal(a.childNumber), Decimal(b.childNumber);
    DecimalReads(a.childNumber);
    DecimalReads(b.childNumber);
    if p1 + d1 == p2 + d2 {
      TrailingDigitsAre(p1, d1);
      TrailingDigitsAre(p2, d2);
      assert (p1 + d1)[|p1|..] == d1 && (p2 + d2)[|p2|..] == d2;
      assert (p1 + d1)[..|p1|] == p1 && (p2 + d2)[..|p2|] == p2;
      assert p1[8..|p1| - |sep|] == a.cluster && p2[8..|p2| - |sep|] == b.cluster;
    }
  }

  lemma WrittenNamesDistinct(names: seq<PriorityName>)
    ensures Distinct(names) <==> Distinct(seq(|names|, i requires 0 <= i < |names| => names[i].ToString()))
  {
    var written := seq(|names|, i requires 0 <= i < |names| => names[i].ToString());
    forall i, j | 0 <= i < j < |names| ensures names[i] == names[j] <==> written[i] == written[j] {
      NameInjective(names[i], names[j]);
    }
    if Distinct(written) {
      forall i, j | 0 <= i < j < |names| ensures names[i] != names[j] {
        assert written[i] != written[j];
      }
    }
  }

  // ----- Updates -----

  /** The localities of a priority, by the strings localityToName makes of them. */
  type PriorityEntry = seq<string>

  datatype DiscoveryMechanismEntry = DiscoveryMechanismEntry(
    cluster: string, localityPriorities: map<string, nat>, priorityNames: seq<PriorityName>,
    nextPriorityChildNumber: nat)
  {
    /** Names differ, were all generated here, and cover the locality map. */
    ghost predicate Ok() {
      && Distinct(priorityNames)
      && (forall l | l in localityPriorities :: localityPriorities[l] < |priorityNames|)
      && (forall i | 0 <= i < |priorityNames| :: Generated(priorityNames[i], 0, nextPriorityChildNumber))
    }

    /** The name bears one of the numbers from `lo` up to `hi`. */
    ghost predicate Generated(name: PriorityName, lo: nat, hi: nat) {
      name.cluster == cluster && lo <= name.childNumber < hi
    }

    /** A previous priority, at or after `priority`, that shared a locality. */
    ghost predicate Candidate(p: PriorityEntry, priority: nat, previous: nat) {
      previous >= priority &&
      exists l | l in p :: l in localityPriorities && localityPriorities[l] == previous
    }

    /** The least such one, if any. */
    ghost predicate HighestOld(p: PriorityEntry, priority: nat, previous: Option<nat>) {
      match previous
      case None => forall o: nat :: !Candidate(p, priority, o)
      case Some(h) => Candidate(p, priority, h) && forall o: nat | Candidate(p, priority, o) :: h <= o
    }

    /** The naming rule: inherit the name of the least previous priority sharing
        a locality, unless an earlier priority of this update took it. */
    ghost predicate Inherits(previous: Option<nat>, earlier: seq<PriorityName>) {
      previous.Some? && previous.value < |priorityNames| && priorityNames[previous.value] !in earlier
    }

    ghost predicate Named(entry: PriorityEntry, p: nat, earlier: seq<PriorityName>, name: PriorityName, lo: nat,
                          hi: nat) {
      exists previous: Option<nat> :: HighestOld(entry, p, previous) &&
        (if Inherits(previous, earlier) then name == priorityNames[previous.value] else Generated(name, lo, hi))
    }
  }

  /** The new map sends each locality to the last priority that has it. */
  ghost predicate MapsLocalities(update: seq<PriorityEntry>, m: map<string, nat>) {
    && (forall l | l in m :: m[l] < |update| && l in update[m[l]])
    && (forall p, l | 0 <= p < |update| && l in update[p] :: l in m && p <= m[l])
  }

  /** What an update does to an entry. */
  ghost predicate Applied(e: DiscoveryMechanismEntry, update: seq<PriorityEntry>, f: DiscoveryMechanismEntry) {
    && f.cluster == e.cluster && |f.priorityNames| == |update| && e.nextPriorityChildNumber <= f.nextPriorityChildNumber
    && MapsLocalities(update, f.localityPriorities)
    && (forall p | 0 <= p < |update| ::
          e.Named(update[p], p, f.priorityNames[..p], f.priorityNames[p], e.nextPriorityChildNumber,
                  f.nextPriorityChildNumber))
    && (e.nextPriorityChildNumber < f.nextPriorityChildNumber ==>
          exists p | 0 <= p < |update| ::
            e.Generated(f.priorityNames[p], e.nextPriorityChildNumber, f.nextPriorityChildNumber))
  }

  ghost predicate Disjoint(update: seq<PriorityEntry>) {
    && (forall p | 0 <= p < |update| :: update[p] != [])
    && forall p, q, l | 0 <= p < q < |update| && l in update[p] :: l !in update[q]
  }

  /** Reapplying an unchanged update, with nonempty priorities and no shared
      locality, keeps every name and generates none. */
  lemma {:induction false} UnchangedUpdateKeepsNames(e: DiscoveryMechanismEntry, update: seq<PriorityEntry>,
                                                     f: DiscoveryMechanismEntry, g: DiscoveryMechanismEntry)
    requires Disjoint(update) && f.Ok() && Applied(e, update, f) && Applied(f, update, g)
    ensures g.priorityNames == f.priorityNames && g.nextPriorityChildNumber == f.nextPriorityChildNumber
  {
    forall p | 0 <= p < |update| ensures f.HighestOld(update[p], p, Some(p)) {
      OwnPriorityIsHighest(update, f, p);
    }
    KeepsPrefix(update, f, g, |update|);
    forall p | 0 <= p < |update|
      ensures !f.Generated(g.priorityNames[p], f.nextPriorityChildNumber, g.nextPriorityChildNumber)
    {
      NotGeneratedTwice(f, f.priorityNames[p], f.nextPriorityChildNumber, g.nextPriorityChildNumber);
    }
  }

  /** A number is given out once: a fresh name never equals an earlier one. */
  lemma NotGeneratedTwice(e: DiscoveryMechanismEntry, name: PriorityName, now: nat, later: nat)
    requires e.Generated(name, 0, now)
    ensures !e.Generated(name, now, later)
  {
  }

  /** The states an entry goes through under a sequence of updates. */
  ghost predicate Run(run: seq<DiscoveryMechanismEntry>, updates: seq<seq<PriorityEntry>>) {
    && |run| == |updates| + 1
    && (forall i | 0 <= i < |run| :: run[i].Ok())
    && (forall i | 0 <= i < |updates| :: Applied(run[i], updates[i], run[i + 1]))
  }

  lemma {:induction false} NumbersGrow(run: seq<DiscoveryMechanismEntry>, updates: seq<seq<PriorityEntry>>, j: nat,
                                       k: nat)
    requires Run(run, updates) && j <= k < |run|
    ensures run[j].cluster == run[k].cluster && run[j].nextPriorityChildNumber <= run[k].nextPriorityChildNumber
  {
    if j < k {
      NumbersGrow(run, updates, j, k - 1);
      assert Applied(run[k - 1], updates[k - 1], run[k - 1 + 1]);
    }
  }

  /** Over any sequence of updates, a name that was dropped never comes back: one
      in use at two moments was in use all the time between them. */
  lemma {:induction false} DroppedNamesNeverReturn(run: seq<DiscoveryMechanismEntry>, updates: seq<seq<PriorityEntry>>,
                                                   j: nat, k: nat, name: PriorityName)
    requires Run(run, updates) && j <= k < |run|
    requires name in run[j].priorityNames && name in run[k].priorityNames
    ensures forall i | j <= i <= k :: name in run[i].priorityNames
    decreases k
  {
    if j < k {
      NumbersGrow(run, updates, j, k - 1);
      assert run[j].Generated(name, 0, run[j].nextPriorityChildNumber);
      NamesAreInheritedOrNew(run[k - 1], updates[k - 1], run[k - 1 + 1], name);
      DroppedNamesNeverReturn(run, updates, j, k - 1, name);
    }
  }

  lemma NamesAreInheritedOrNew(e: DiscoveryMechanismEntry, update: seq<PriorityEntry>, f: DiscoveryMechanismEntry,
                               name: PriorityName)
    requires Applied(e, update, f) && name in f.priorityNames
    ensures name in e.priorityNames || e.Generated(name, e.nextPriorityChildNumber, f.nextPriorityChildNumber)
  {
  }

  lemma OwnPriorityIsHighest(update: seq<PriorityEntry>, f: DiscoveryMechanismEntry, p: nat)
    requires Disjoint(update) && MapsLocalities(update, f.localityPriorities) && p < |update|
    ensures f.HighestOld(update[p], p, Some(p))
  {
    forall l | l in update[p] ensures l in f.localityPriorities && f.localityPriorities[l] == p {
      assert l in update[f.localityPriorities[l]];
    }
    assert update[p][0] in update[p];
  }

  lemma {:induction false} KeepsPrefix(update: seq<PriorityEntry>, f: DiscoveryMechanismEntry,
                                       g: DiscoveryMechanismEntry, k: nat)
    requires f.Ok() && |f.priorityNames| == |update| && Applied(f, update, g) && k <= |update|
    requires forall p | 0 <= p < |update| :: f.HighestOld(update[p], p, Some(p))
    ensures forall p | 0 <= p < k :: g.priorityNames[p] == f.priorityNames[p]
  {
  }

  // ----- The update loop -----

  method HighestOldPriority(e: DiscoveryMechanismEntry, entry: PriorityEntry, priority: nat)
    returns (highest: Option<nat>)
    ensures e.HighestOld(entry, priority, highest)
  {
    highest := None;
    for i := 0 to |entry|
      invariant e.HighestOld(entry[..i], priority, highest)
    {
      var l := entry[i];
      ghost var before := highest;
      if l in e.localityPriorities {
        var oldPriority := e.localityPriorities[l];
        if oldPriority >= priority && (highest.None? || oldPriority < highest.value) {
          highest := Some(oldPriority);
        }
      }
      OneMoreLocality(e, entry, i, priority, before, highest);
    }
    assert entry[..|entry|] == entry;
  }

  lemma OneMoreLocality(e: DiscoveryMechanismEntry, entry: PriorityEntry, i: nat, priority: nat, before: Option<nat>,
                        after: Option<nat>)
    requires i < |entry| && e.HighestOld(entry[..i], priority, before)
    requires var l := entry[i];
             after == if l in e.localityPriorities && e.localityPriorities[l] >= priority
                         && (before.None? || e.localityPriorities[l] < before.value)
                      then Some(e.localityPriorities[l]) else before
    ensures e.HighestOld(entry[..i + 1], priority, after)
  {
    var l, shorter, longer := entry[i], entry[..i], entry[..i + 1];
    assert longer == shorter + [l];
    forall o: nat
      ensures e.Candidate(longer, priority, o) <==>
                e.Candidate(shorter, priority, o)
                || (o >= priority && l in e.localityPriorities && e.localityPriorities[l] == o)
    {
      assert l in longer;
    }
  }

  method RecordLocalities(m: map<string, nat>, update: seq<PriorityEntry>, priority: nat) returns (n: map<string, nat>)
    requires priority < |update| && MapsLocalities(update[..priority], m)
    ensures MapsLocalities(update[..priority + 1], n)
  {
    n := m;
    for i := 0 to |update[priority]|
      invariant forall l :: l in n <==> l in m || l in update[priority][..i]
      invariant forall l | l in n ::
                  n[l] == if l in update[priority][..i] then priority else m[l]
    {
      n := n[update[priority][i] := priority];
    }
    assert forall l :: l in update[priority] ==> l in n && n[l] == priority;
    assert forall p | 0 <= p < priority :: update[..priority + 1][p] == update[..priority][p];
  }

  method UpdateEntry(e: DiscoveryMechanismEntry, update: seq<PriorityEntry>) returns (f: DiscoveryMechanismEntry)
    requires e.Ok()
    ensures f.Ok() && Applied(e, update, f)
  {
    var names: seq<PriorityName> := [];
    var localityPriorities: map<string, nat> := map[];
    var next := e.nextPriorityChildNumber;
    for priority := 0 to |update|
      invariant |names| == priority && e.nextPriorityChildNumber <= next && Distinct(names)
      invariant MapsLocalities(update[..priority], localityPriorities)
      invariant forall p | 0 <= p < priority :: e.Generated(names[p], 0, next)
      invariant forall p | 0 <= p < priority ::
                  e.Named(update[p], p, names[..p], names[p], e.nextPriorityChildNumber, next)
      invariant e.nextPriorityChildNumber < next ==>
                  exists p | 0 <= p < priority :: e.Generated(names[p], e.nextPriorityChildNumber, next)
    {
      var highest := HighestOldPriority(e, update[priority], priority);
      ghost var before := next;
      var name;
      if highest.None? {
        name := PriorityName(e.cluster, next);
        next := next + 1;
      } else {
        CandidateInRange(e, update[priority], priority, highest.value);
        name := e.priorityNames[highest.value];
        if name in names {
          name := PriorityName(e.cluster, next);
          next := next + 1;
        }
      }
      NameChosen(e, update, names, name, highest, before, next);
      names := names + [name];
      localityPriorities := RecordLocalities(localityPriorities, update, priority);
    }
    assert update[..|update|] == update;
    f := DiscoveryMechanismEntry(e.cluster, localityPriorities, names, next);
    assert forall i | 0 <= i < |names| :: f.Generated(names[i], 0, next) by {
      forall i | 0 <= i < |names| ensures f.Generated(names[i], 0, next) { assert e.Generated(names[i], 0, next); }
    }
  }

  lemma CandidateInRange(e: DiscoveryMechanismEntry, entry: PriorityEntry, priority: nat, previous: nat)
    requires e.Ok() && e.Candidate(entry, priority, previous)
    ensures previous < |e.priorityNames|
  {
  }

  /** One turn of the loop over the priorities. */
  lemma NameChosen(e: DiscoveryMechanismEntry, update: seq<PriorityEntry>, names: seq<PriorityName>, name: PriorityName,
                   highest: Option<nat>, before: nat, next: nat)
    requires e.Ok() && |names| < |update| && e.nextPriorityChildNumber <= before && Distinct(names)
    requires e.HighestOld(update[|names|], |names|, highest)
    requires forall p | 0 <= p < |names| :: e.Generated(names[p], 0, before)
    requires forall p | 0 <= p < |names| ::
               e.Named(update[p], p, names[..p], names[p], e.nextPriorityChildNumber, before)
    requires if e.Inherits(highest, names) then name == e.priorityNames[highest.value] && next == before
             else name == PriorityName(e.cluster, before) && next == before + 1
    requires e.nextPriorityChildNumber < before ==>
               exists p | 0 <= p < |names| :: e.Generated(names[p], e.nextPriorityChildNumber, before)
    ensures var more := names + [name];
            && Distinct(more)
            && (forall p | 0 <= p < |more| :: e.Generated(more[p], 0, next))
            && (forall p | 0 <= p < |more| ::
                  e.Named(update[p], p, more[..p], more[p], e.nextPriorityChildNumber, next))
            && (e.nextPriorityChildNumber < next ==>
                  exists p | 0 <= p < |more| :: e.Generated(more[p], e.nextPriorityChildNumber, next))
  {
    var more := names + [name];
    forall p | 0 <= p < |names|
      ensures e.Generated(more[p], 0, next)
      ensures e.Named(update[p], p, more[..p], more[p], e.nextPriorityChildNumber, next)
    {
      assert more[..p] == names[..p];
      GeneratedLater(e, names[p], 0, before, next);
      NamedLater(e, update[p], p, names[..p], names[p], e.nextPriorityChildNumber, before, next);
    }
    assert more[..|names|] == names;
    if e.Inherits(highest, names) {
      GeneratedLater(e, name, 0, e.nextPriorityChildNumber, next);
    } else {
      assert e.Generated(name, e.nextPriorityChildNumber, next) && e.Generated(name, 0, next);
      forall p | 0 <= p < |names| ensures names[p] != name {
        NotGeneratedTwice(e, names[p], before, next);
        assert e.Generated(name, before, next);
      }
      assert more[|names|] == name;
    }
    assert e.Named(update[|names|], |names|, names, name, e.nextPriorityChildNumber, next);
    if e.nextPriorityChildNumber < before {
      var p :| 0 <= p < |names| && e.Generated(names[p], e.nextPriorityChildNumber, before);
      GeneratedLater(e, names[p], e.nextPriorityChildNumber, before, next);
      assert more[p] == names[p];
    }
  }

  lemma GeneratedLater(e: DiscoveryMechanismEntry, name: PriorityName, lo: nat, hi: nat, later: nat)
    requires e.Generated(name, lo, hi) && hi <= later
    ensures e.Generated(name, lo, later)
  {
  }

  lemma NamedLater(e: DiscoveryMechanismEntry, entry: PriorityEntry, p: nat, earlier: seq<PriorityName>,
                   name: PriorityName, lo: nat, hi: nat, later: nat)
    requires e.Named(entry, p, earlier, name, lo, hi) && hi <= later
    ensures e.Named(entry, p, earlier, name, lo, later)
  {
  }

  // ----- The resolver's full priority list -----

  class XdsClusterResolver {
    var discoveryMechanismList: seq<DiscoveryMechanismEntry>

    ghost predicate Valid()
      reads this
    {
      forall i | 0 <= i < |discoveryMechanismList| :: discoveryMechanismList[i].Ok()
    }

    constructor (clusters: seq<string>)
      ensures Valid() && |discoveryMechanismList| == |clusters|
      ensures forall i | 0 <= i < |clusters| ::
                discoveryMechanismList[i] == DiscoveryMechanismEntry(clusters[i], map[], [], 0)
    {
      discoveryMechanismList := seq(|clusters|, i requires 0 <= i < |clusters| =>
        DiscoveryMechanismEntry(clusters[i], map[], [], 0));
    }

    /** Names all priorities anew; nothing happens until every mechanism has an
        update. */
    method MaybeUpdateChild(latestUpdates: seq<Option<seq<PriorityEntry>>>)
      returns (fullPriorityList: Option<seq<PriorityName>>)
      requires Valid() && |latestUpdates| == |discoveryMechanismList|
      modifies this
      ensures Valid()
      ensures fullPriorityList.None? <==> exists i | 0 <= i < |latestUpdates| :: latestUpdates[i].None?
      ensures fullPriorityList.None? ==> discoveryMechanismList == old(discoveryMechanismList)
      ensures fullPriorityList.Some? ==>
                && |discoveryMechanismList| == |latestUpdates|
                && AllApplied(old(discoveryMechanismList), latestUpdates, discoveryMechanismList)
                && fullPriorityList.value == AllNames(discoveryMechanismList)
      ensures fullPriorityList.Some? && DistinctClusters(old(discoveryMechanismList)) ==>
                Distinct(fullPriorityList.value)
    {
      for i := 0 to |latestUpdates|
        invariant forall j | 0 <= j < i :: latestUpdates[j].Some?
      {
        if latestUpdates[i].None? {
          return None;
        }
      }
      var updated, names := UpdateEntries(discoveryMechanismList, latestUpdates);
      if DistinctClusters(discoveryMechanismList) {
        SameClusters(discoveryMechanismList, latestUpdates, updated);
        NoDuplicates(updated);
      }
      discoveryMechanismList := updated;
      return Some(names);
    }
  }

  /** Every entry got its update. */
  ghost predicate AllApplied(entries: seq<DiscoveryMechanismEntry>, latestUpdates: seq<Option<seq<PriorityEntry>>>,
                             updated: seq<DiscoveryMechanismEntry>)
  {
    && |updated| <= |entries| == |latestUpdates|
    && forall i | 0 <= i < |updated| ::
         latestUpdates[i].Some? && Applied(entries[i], latestUpdates[i].value, updated[i])
  }

  /** The loop over the mechanisms. */
  method UpdateEntries(entries: seq<DiscoveryMechanismEntry>, latestUpdates: seq<Option<seq<PriorityEntry>>>)
    returns (updated: seq<DiscoveryMechanismEntry>, names: seq<PriorityName>)
    requires |entries| == |latestUpdates| && forall i | 0 <= i < |entries| :: entries[i].Ok() && latestUpdates[i].Some?
    ensures |updated| == |entries| && forall i | 0 <= i < |updated| :: updated[i].Ok()
    ensures AllApplied(entries, latestUpdates, updated) && names == AllNames(updated)
  {
    updated, names := [], [];
    for i := 0 to |entries|
      invariant |updated| == i && forall j | 0 <= j < i :: updated[j].Ok()
      invariant AllApplied(entries, latestUpdates, updated) && names == AllNames(updated)
    {
      var entry := UpdateEntry(entries[i], latestUpdates[i].value);
      assert (updated + [entry])[..i] == updated;
      updated := updated + [entry];
      names := names + entry.priorityNames;
    }
  }

  lemma SameClusters(entries: seq<DiscoveryMechanismEntry>, latestUpdates: seq<Option<seq<PriorityEntry>>>,
                     updated: seq<DiscoveryMechanismEntry>)
    requires AllApplied(entries, latestUpdates, updated) && DistinctClusters(entries)
    ensures DistinctClusters(updated)
  {
    forall i | 0 <= i < |updated| ensures updated[i].cluster == entries[i].cluster {
      assert Applied(entries[i], latestUpdates[i].value, updated[i]);
    }
  }

  function AllNames(entries: seq<DiscoveryMechanismEntry>): seq<PriorityName> {
    if entries == [] then [] else AllNames(entries[..|entries| - 1]) + entries[|entries| - 1].priorityNames
  }

  predicate DistinctClusters(entries: seq<DiscoveryMechanismEntry>) {
    forall i, j | 0 <= i < j < |entries| :: entries[i].cluster != entries[j].cluster
  }

  lemma {:induction false} NameHasEntry(entries: seq<DiscoveryMechanismEntry>, name: PriorityName) returns (i: nat)
    requires name in AllNames(entries)
    ensures i < |entries| && name in entries[i].priorityNames
  {
    var n := |entries| - 1;
    if name in entries[n].priorityNames {
      i := n;
    } else {
      i := NameHasEntry(entries[..n], name);
    }
  }

  /** With distinct clusters, no two priorities of the whole list share a name. */
  lemma {:induction false} NoDuplicates(entries: seq<DiscoveryMechanismEntry>)
    requires DistinctClusters(entries) && forall i | 0 <= i < |entries| :: entries[i].Ok()
    ensures Distinct(AllNames(entries))
  {
    if entries != [] {
      var n := |entries| - 1;
      NoDuplicates(entries[..n]);
      forall name | name in AllNames(entries[..n]) ensures name !in entries[n].priorityNames {
        var i := NameHasEntry(entries[..n], name);
        assert name.cluster == entries[i].cluster != entries[n].cluster;
      }
      DistinctAppend(AllNames(entries[..n]), entries[n].priorityNames);
    }
  }

  lemma DistinctAppend(a: seq<PriorityName>, b: seq<PriorityName>)
    requires Distinct(a) && Distinct(b) && forall x | x in b :: x !in a
    ensures Distinct(a + b)
  {
    forall i, j | 0 <= i < j < |a + b| ensures (a + b)[i] != (a + b)[j] {
      if i < |a| <= j {
        assert b[j - |a|] in b && a[i] in a;
      }
    }
  }
}
