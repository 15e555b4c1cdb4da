/**
 The priority policy: children in order of preference, a failover timer for each,
 and the choice of the child that serves. Children do not report while the policy
 is updating them.
 */
module PriorityPolicy {
  import opened Common

  predicate ReadyOrIdle(s: ConnectivityState) { s == READY || s == IDLE }

  // ----- What a child has reported -----

  /** READY or IDLE was reported after the last TRANSIENT_FAILURE. */
  predicate SeenReadyOrIdle(history: seq<ConnectivityState>) {
    history != [] &&
    var last := history[|history| - 1];
    ReadyOrIdle(last) || (last != TRANSIENT_FAILURE && SeenReadyOrIdle(history[..|history| - 1]))
  }

  /** Report `i` is READY or IDLE, and no failure follows it. */
  ghost predicate RecoveredAt(history: seq<ConnectivityState>, i: nat) {
    i < |history| && ReadyOrIdle(history[i]) && forall j | i < j < |history| :: history[j] != TRANSIENT_FAILURE
  }

  /** The same, said without going through the reports one by one. */
  lemma {:induction false} SeenMeansSinceFailure(history: seq<ConnectivityState>)
    ensures SeenReadyOrIdle(history) <==> exists i :: RecoveredAt(history, i)
  {
    if history != [] {
      var n := |history| - 1;
      var front := history[..n];
      SeenMeansSinceFailure(front);
      if ReadyOrIdle(history[n]) {
        assert RecoveredAt(history, n);
      } else if history[n] != TRANSIENT_FAILURE {
        forall i: nat | i < n ensures RecoveredAt(history, i) <==> RecoveredAt(front, i) {
          assert forall j | 0 <= j < n :: history[j] == front[j];
        }
      }
    }
  }

  function Recoveries(history: seq<ConnectivityState>): nat {
    if history == [] then 0
    else Recoveries(history[..|history| - 1]) + if ReadyOrIdle(history[|history| - 1]) then 1 else 0
  }

  lemma {:induction false} OneMoreReport(history: seq<ConnectivityState>, s: ConnectivityState)
    ensures Recoveries(history + [s]) == Recoveries(history) + if ReadyOrIdle(s) then 1 else 0
    ensures SeenReadyOrIdle(history + [s]) <==> ReadyOrIdle(s) || (s != TRANSIENT_FAILURE && SeenReadyOrIdle(history))
  {
  }

  datatype Endpoint = Endpoint(localityPath: Option<seq<string>>, address: string)

  datatype UpdateArgs = UpdateArgs(endpoints: seq<Endpoint>, lbConfig: string, ignoreReresolutionRequests: bool)

  class PriorityChild {
    const name: string
    var connectivityState: ConnectivityState
    var failoverTimer: bool
    var deactivationTimer: bool
    var seenReadyOrIdleSinceTransientFailure: bool
    var latestUpdate: Option<UpdateArgs>
    var destroyCalls: nat
    /** Every state so far, TRANSIENT_FAILURE by the timer included. */
    ghost var history: seq<ConnectivityState>
    /** How often the failover timer was started. */
    ghost var timerStarts: nat
    /** The deactivation timer was set and has neither fired nor been cleared. When it
        fires, `deactivationTimer` stays as it is. */
    ghost var goingPending: bool

    /** While the failover timer runs, the child is connecting or has said nothing;
        and the timer is started once to begin with and then at most once for every
        READY or IDLE. */
    ghost predicate Valid()
      reads this`connectivityState, this`history, this`seenReadyOrIdleSinceTransientFailure, this`failoverTimer,
            this`timerStarts
    {
      && connectivityState == (if history == [] then IDLE else history[|history| - 1])
      && seenReadyOrIdleSinceTransientFailure == SeenReadyOrIdle(history)
      && (failoverTimer ==> history == [] || connectivityState == CONNECTING || connectivityState == SHUTDOWN)
      && timerStarts <= Recoveries(history) + 1
      && (seenReadyOrIdleSinceTransientFailure && !failoverTimer ==> timerStarts <= Recoveries(history))
    }

    constructor (name: string)
      ensures Valid() && this.name == name && connectivityState == IDLE && failoverTimer && !deactivationTimer
              && destroyCalls == 0
      ensures latestUpdate == None && history == [] && !goingPending
    {
      this.name := name;
      connectivityState, failoverTimer, deactivationTimer, destroyCalls := IDLE, true, false, 0;
      seenReadyOrIdleSinceTransientFailure, latestUpdate := false, None;
      history, timerStarts, goingPending := [], 1, false;
    }

    /** The child's own part of a state report. The failover timer starts again
        only when the child connects having been READY or IDLE since it last failed. */
    method UpdateState(s: ConnectivityState)
      requires Valid()
      modifies this`connectivityState, this`failoverTimer, this`seenReadyOrIdleSinceTransientFailure, this`history,
               this`timerStarts
      ensures Valid() && history == old(history) + [s] && connectivityState == s
      ensures failoverTimer && !old(failoverTimer) ==> s == CONNECTING && SeenReadyOrIdle(old(history))
      ensures s == CONNECTING && SeenReadyOrIdle(old(history)) ==> failoverTimer
      ensures s == READY || s == IDLE || s == TRANSIENT_FAILURE ==> !failoverTimer
      ensures timerStarts == old(timerStarts) + if failoverTimer && !old(failoverTimer) then 1 else 0
    {
      OneMoreReport(history, s);
      history := history + [s];
      connectivityState := s;
      if s == CONNECTING {
        if seenReadyOrIdleSinceTransientFailure && !failoverTimer {
          failoverTimer := true;
          timerStarts := timerStarts + 1;
        }
      } else if s == READY || s == IDLE {
        seenReadyOrIdleSinceTransientFailure := true;
        failoverTimer := false;
      } else if s == TRANSIENT_FAILURE {
        seenReadyOrIdleSinceTransientFailure := false;
        failoverTimer := false;
      }
    }

    /** The failover timer counts as a failure. */
    method FailoverTimerFired()
      requires Valid() && failoverTimer
      modifies this`connectivityState, this`failoverTimer, this`seenReadyOrIdleSinceTransientFailure, this`history,
               this`timerStarts
      ensures Valid() && history == old(history) + [TRANSIENT_FAILURE] && !failoverTimer
              && connectivityState == TRANSIENT_FAILURE
      ensures timerStarts == old(timerStarts)
    {
      UpdateState(TRANSIENT_FAILURE);
    }

    method Deactivate()
      modifies this`deactivationTimer, this`goingPending
      ensures deactivationTimer && goingPending == (old(goingPending) || !old(deactivationTimer))
    {
      if !deactivationTimer {
        deactivationTimer, goingPending := true, true;
      }
    }

    method MaybeReactivate()
      modifies this`deactivationTimer, this`goingPending
      ensures !deactivationTimer && goingPending == (old(goingPending) && !old(deactivationTimer))
    {
      if deactivationTimer {
        deactivationTimer, goingPending := false, false;
      }
    }
  }

  ghost predicate JustCreated(child: PriorityChild, update: UpdateArgs)
    reads child`connectivityState, child`failoverTimer, child`destroyCalls, child`latestUpdate
  {
    child.connectivityState == IDLE && child.failoverTimer && child.destroyCalls == 0
    && child.latestUpdate == Some(update)
  }

  /** A state as the parent gets it, with the child whose picker goes with it. */
  datatype Report = Report(state: ConnectivityState, child: PriorityChild?)

  class PriorityLoadBalancer {
    /** The children that exist, used or about to be removed. */
    var children: map<string, PriorityChild>
    var priorities: seq<string>
    var latestUpdates: map<string, UpdateArgs>
    var currentPriority: Option<nat>
    var reports: seq<Report>
    ghost var created: set<PriorityChild>
    ghost var destroyed: bool

    /** Children are kept under their names, and the deactivation timers of those that
        are kept have not fired. */
    ghost predicate Valid()
      reads this`children, children.Values`goingPending, children.Values`deactivationTimer
    {
      forall n | n in children ::
        children[n].name == n && children[n].goingPending == children[n].deactivationTimer
    }

    /** Every child ever created keeps its own invariant, removed or not. */
    ghost predicate Sound()
      reads this`created, created`connectivityState, created`history, created`seenReadyOrIdleSinceTransientFailure,
            created`failoverTimer, created`timerStarts
    {
      forall c | c in created :: c.Valid()
    }

    /** Until the policy is destroyed, a child whose deactivation timer may still fire
        is the one that is kept under its name. */
    ghost predicate Owned()
      reads this`children, this`created, this`destroyed, created`goingPending
    {
      && (forall n | n in children :: children[n] in created)
      && (!destroyed ==> forall c | c in created && c.goingPending :: c.name in children && children[c.name] == c)
    }

    constructor ()
      ensures Valid() && Owned() && Sound() && children == map[] && priorities == []
      ensures latestUpdates == map[] && reports == []
      ensures !destroyed && created == {}
    {
      children, priorities, latestUpdates, currentPriority, reports := map[], [], map[], None, [];
      created, destroyed := {}, false;
    }

    /** Would a child of this name be taken without looking further? One that would
        have to be created would, being IDLE at first. */
    ghost predicate Usable(name: string)
      reads this`children, this`latestUpdates, children.Values`connectivityState, children.Values`failoverTimer
    {
      if name in children then ReadyOrIdle(children[name].connectivityState) || children[name].failoverTimer
      else name in latestUpdates
    }

    /** The first usable priority. */
    ghost predicate FirstUsable(i: nat)
      reads this`children, this`latestUpdates, this`priorities, children.Values`connectivityState,
            children.Values`failoverTimer
    {
      i < |priorities| && Usable(priorities[i]) && forall j | 0 <= j < i :: !Usable(priorities[j])
    }

    /** With none usable: the first priority that is CONNECTING or has no child. */
    ghost predicate FirstToStop(i: nat)
      reads this`children, this`priorities, children.Values`connectivityState
    {
      i < |priorities| && Stops(priorities[i]) && forall j | 0 <= j < i :: !Stops(priorities[j])
    }

    ghost predicate Stops(name: string)
      reads this`children, children.Values`connectivityState
    {
      name in children ==> children[name].connectivityState == CONNECTING
    }

    /** The current priority is the one to serve, as the children are now. */
    ghost predicate IsChoice()
      reads this, children.Values
    {
      && currentPriority.Some? && currentPriority.value < |priorities| && priorities[currentPriority.value] in children
      && var p := currentPriority.value;
         || FirstUsable(p)
         || ((forall i | 0 <= i < |priorities| :: !Usable(priorities[i])) &&
             (FirstToStop(p) || (p == |priorities| - 1 && forall i | 0 <= i < |priorities| :: !Stops(priorities[i]))))
    }

    /** The child that serves is not on its way out. */
    ghost predicate ChoiceIsStaying()
      requires IsChoice()
      reads this, children.Values
    {
      Distinct(priorities) ==> !children[priorities[currentPriority.value]].deactivationTimer
    }

    /** Of the children there are now, at most one is not of `before`, and that one
        was needed: it is listed, configured and just starting. */
    ghost predicate AtMostOneNew(before: map<string, PriorityChild>)
      reads this, children.Values
    {
      || children == before
      || exists n :: && n in children && n in priorities && n in latestUpdates && n !in before
                     && children == before[n := children[n]] && JustCreated(children[n], latestUpdates[n])
    }

    /** Children that are not listed go, or stay, as before. */
    twostate predicate UnlistedKept()
      reads this, children.Values
    {
      forall n | n in old(children) && n !in priorities ::
        n in children && children[n] == old(children)[n]
        && children[n].deactivationTimer == old(children[n].deactivationTimer)
    }

    /** Of the children of `before` all are kept, and there is one of that name,
        created if need be. */
    ghost predicate Extends(before: map<string, PriorityChild>, name: string)
      reads this, children.Values
    {
      && name in children && children == before[name := children[name]]
      && (name in before ==> children == before)
      && (name !in before ==> name in latestUpdates && JustCreated(children[name], latestUpdates[name]))
    }

    /** The state and the picker of the current priority's child were reported. */
    ghost predicate Reported(before: seq<Report>)
      reads this, children.Values
    {
      && currentPriority.Some? && currentPriority.value < |priorities| && priorities[currentPriority.value] in children
      && var child := children[priorities[currentPriority.value]];
         reports == before + [Report(child.connectivityState, child)]
    }

    /** The priorities before `n` that have a child have one that stays. */
    ghost predicate StayingTo(n: nat)
      reads this, children.Values
    {
      forall j | 0 <= j < n && j < |priorities| && priorities[j] in children ::
        !children[priorities[j]].deactivationTimer
    }

    ghost predicate NoneUsable()
      reads this, children.Values
    {
      forall i | 0 <= i < |priorities| :: !Usable(priorities[i])
    }

    /** A policy without children, one that was destroyed for instance, has a child
        again exactly if a listed priority is configured. */
    ghost predicate Revives()
      reads this
    {
      children != map[] <==> exists n | n in priorities :: n in latestUpdates
    }

    method SelectPriority(priority: nat, deactivateLowerPriorities: bool)
      requires Valid() && Owned() && priority < |priorities| && priorities[priority] in children
      modifies this`currentPriority, this`reports, children.Values`deactivationTimer, children.Values`goingPending
      ensures Valid() && Owned() && currentPriority == Some(priority)
      ensures var child := children[priorities[priority]];
              reports == old(reports) + [Report(child.connectivityState, child)]
      ensures forall n | n in children :: children[n].deactivationTimer ==
                (old(children[n].deactivationTimer) || (deactivateLowerPriorities && n in priorities[priority + 1..]))
    {
      currentPriority := Some(priority);
      var chosenChild := children[priorities[priority]];
      reports := reports + [Report(chosenChild.connectivityState, chosenChild)];
      if deactivateLowerPriorities {
        DeactivateFrom(priority + 1);
      }
    }

    method DeactivateFrom(from: nat)
      requires Valid() && Owned() && from <= |priorities|
      modifies children.Values`deactivationTimer, children.Values`goingPending
      ensures Valid() && Owned()
      ensures forall n | n in children ::
                children[n].deactivationTimer == (old(children[n].deactivationTimer) || n in priorities[from..])
    {
      for i := from to |priorities|
        invariant Valid() && Owned()
        invariant forall n | n in children :: children[n].deactivationTimer ==
                    (old(children[n].deactivationTimer) || n in priorities[from..i])
      {
        assert priorities[from..i + 1] == priorities[from..i] + [priorities[i]];
        if priorities[i] in children {
          children[priorities[i]].Deactivate();
        }
      }
      assert priorities[from..|priorities|] == priorities[from..];
    }

    /** Chooses the first usable priority, creating its child if need be and no
        other; failing that the first that is CONNECTING; failing that the last. It
        throws if it comes to a priority that has neither a child nor a configuration
        while looking for a CONNECTING one. */
    method ChoosePriority() returns (ok: bool)
      requires Valid() && Owned() && Sound()
      modifies this`children, this`created, this`currentPriority, this`reports
      modifies children.Values`deactivationTimer, children.Values`goingPending
      ensures Valid() && Owned() && Sound() && UnlistedKept() && old(created) <= created
      ensures priorities == [] ==> ok && children == old(children) && currentPriority == old(currentPriority)
                                   && reports == old(reports) + [Report(TRANSIENT_FAILURE, null)]
      ensures forall i: nat | old(FirstUsable(i)) ::
                ok && currentPriority == Some(i) && Took(old(children), i)
      ensures AtMostOneNew(old(children)) && forall n | n in children && n !in old(children) :: fresh(children[n])
      ensures old(children) == map[] ==> Revives()
      ensures old(NoneUsable()) ==> children == old(children)
      ensures priorities != [] && ok ==> IsChoice() && ChoiceIsStaying() && Reported(old(reports))
      ensures !ok <==> old(NoneUsable()) &&
                       exists i: nat :: old(FirstToStop(i)) && priorities[i] !in old(children)
      ensures (forall name | name in priorities :: name in latestUpdates) ==> ok
    {
      if |priorities| == 0 {
        reports := reports + [Report(TRANSIENT_FAILURE, null)];
        return true;
      }
      var taken := FindUsable();
      if taken.Some? {
        TakeUsable(taken.value);
        return true;
      }
      ok := FallBack();
    }

    /** A usable priority is taken, with its child. */
    method TakeUsable(priority: nat)
      requires Valid() && Owned() && Sound() && FirstUsable(priority) && StayingTo(priority + 1)
      modifies this`children, this`created, this`currentPriority, this`reports
      modifies children.Values`deactivationTimer, children.Values`goingPending
      ensures Valid() && Owned() && Sound() && UnlistedKept() && old(created) <= created
      ensures currentPriority == Some(priority) && Took(old(children), priority) && IsChoice() && ChoiceIsStaying()
      ensures AtMostOneNew(old(children)) && forall n | n in children && n !in old(children) :: fresh(children[n])
      ensures Reported(old(reports)) && (old(children) == map[] ==> Revives())
    {
      EnsureChild(priority);
      SelectUsable(old(children), priority);
    }

    /** A READY or IDLE child sends those after it away; one that is still trying
        does not. */
    method SelectUsable(ghost before: map<string, PriorityChild>, priority: nat)
      requires Valid() && Owned() && FirstUsable(priority) && Extends(before, priorities[priority])
      requires StayingTo(priority + 1)
      modifies this`currentPriority, this`reports, children.Values`deactivationTimer, children.Values`goingPending
      ensures Valid() && Owned() && UnlistedKept() && currentPriority == Some(priority)
      ensures Took(before, priority) && IsChoice() && ChoiceIsStaying() && AtMostOneNew(before)
      ensures Reported(old(reports))
    {
      var child := children[priorities[priority]];
      if child.connectivityState == READY || child.connectivityState == IDLE {
        SelectPriority(priority, true);
      } else {
        SelectPriority(priority, false);
      }
    }

    /** The first loop up to the first usable priority. The children that it comes to
        are put back into use. */
    method FindUsable() returns (taken: Option<nat>)
      requires Valid() && Owned()
      modifies children.Values`deactivationTimer, children.Values`goingPending
      ensures Valid() && Owned() && UnlistedKept()
      ensures taken.Some? ==> FirstUsable(taken.value) && StayingTo(taken.value + 1)
      ensures taken.None? ==> NoneUsable() && StayingTo(|priorities|)
      ensures forall i: nat | old(FirstUsable(i)) :: taken == Some(i)
      ensures taken.None? <==> old(NoneUsable())
    {
      for priority := 0 to |priorities|
        invariant Valid() && Owned() && UnlistedKept() && StayingTo(priority)
        invariant forall j | 0 <= j < priority :: !Usable(priorities[j])
      {
        var childName := priorities[priority];
        if childName !in children {
          if childName !in latestUpdates {
            continue;
          }
          return Some(priority);
        }
        children[childName].MaybeReactivate();
        assert StayingTo(priority + 1);
        var child := children[childName];
        if child.connectivityState == READY || child.connectivityState == IDLE || child.failoverTimer {
          return Some(priority);
        }
      }
      return None;
    }

    /** The child of a usable priority is created if it does not exist. Being IDLE, a
        new child is taken at once. */
    method EnsureChild(priority: nat)
      requires Valid() && Owned() && Sound() && FirstUsable(priority) && StayingTo(priority + 1)
      modifies this`children, this`created
      ensures Valid() && Owned() && Sound() && old(created) <= created
      ensures FirstUsable(priority) && StayingTo(priority + 1) && Extends(old(children), priorities[priority])
      ensures priorities[priority] !in old(children) ==> fresh(children[priorities[priority]])
      ensures forall n | n in old(children) :: n in children && children[n] == old(children)[n]
    {
      var childName := priorities[priority];
      if childName !in children {
        assert forall j | 0 <= j < priority :: priorities[j] != childName;
        CreateChild(childName);
      }
    }

    method CreateChild(childName: string)
      requires Valid() && Owned() && Sound() && childName !in children && childName in latestUpdates
      modifies this`children, this`created
      ensures Valid() && Owned() && Sound() && old(created) <= created && Extends(old(children), childName)
      ensures fresh(children[childName]) && !children[childName].deactivationTimer
      ensures forall n | n in old(children) :: n in children && children[n] == old(children)[n]
    {
      var child := new PriorityChild(childName);
      child.latestUpdate := Some(latestUpdates[childName]);
      children, created := children[childName := child], created + {child};
    }

    /** Priority `i` was taken: its child exists, perhaps newly; the children before
        it are kept, and those after it are on their way out if it is READY or IDLE. */
    ghost predicate Took(before: map<string, PriorityChild>, i: nat)
      reads this, children.Values
    {
      && i < |priorities| && Extends(before, priorities[i])
      && (ReadyOrIdle(children[priorities[i]].connectivityState) ==>
            forall n | n in children && n in priorities[i + 1..] :: children[n].deactivationTimer)
      && forall j | 0 <= j <= i && priorities[j] in children && priorities[j] !in priorities[i + 1..] ::
           !children[priorities[j]].deactivationTimer
    }

    /** The second loop, and the last resort. */
    method FallBack() returns (ok: bool)
      requires Valid() && Owned() && priorities != [] && NoneUsable() && StayingTo(|priorities|)
      modifies this`currentPriority, this`reports, children.Values`deactivationTimer, children.Values`goingPending
      ensures Valid() && Owned()
      ensures !ok <==> exists i: nat :: old(FirstToStop(i)) && priorities[i] !in children
      ensures (forall name | name in priorities :: name in latestUpdates) ==> ok
      ensures ok ==> IsChoice() && ChoiceIsStaying() && Reported(old(reports))
      ensures forall n | n in children :: children[n].deactivationTimer == old(children[n].deactivationTimer)
    {
      for priority := 0 to |priorities|
        invariant Valid() && Owned() && reports == old(reports)
        invariant forall j | 0 <= j < priority :: !old(Stops(priorities[j]))
      {
        if priorities[priority] !in children {
          assert old(FirstToStop(priority)) && !Usable(priorities[priority]);
          return false;
        }
        if children[priorities[priority]].connectivityState == CONNECTING {
          assert old(FirstToStop(priority));
          SelectPriority(priority, false);
          return true;
        }
      }
      assert !old(Stops(priorities[|priorities| - 1]));
      SelectPriority(|priorities| - 1, false);
      return true;
    }

    /** A child reports a state, or its failover timer fires; then the choice is
        made anew. The child need not be among the children any more. */
    method ChildReports(child: PriorityChild, s: ConnectivityState) returns (ok: bool)
      requires Valid() && Owned() && Sound() && child in created
      modifies child`connectivityState, child`failoverTimer, child`seenReadyOrIdleSinceTransientFailure, child`history,
               child`timerStarts
      modifies this`children, this`created, this`currentPriority, this`reports
      modifies children.Values`deactivationTimer, children.Values`goingPending
      ensures Valid() && Owned() && Sound() && old(created) <= created
      ensures child.history == old(child.history) + [s]
      ensures priorities != [] && ok ==> IsChoice()
      ensures (forall name | name in priorities :: name in latestUpdates) ==> ok
      ensures AtMostOneNew(old(children)) && (old(children) == map[] ==> Revives())
    {
      child.UpdateState(s);
      ok := Rechoose();
    }

    method FailoverTimerFired(child: PriorityChild) returns (ok: bool)
      requires Valid() && Owned() && Sound() && child in created && child.failoverTimer
      modifies child`connectivityState, child`failoverTimer, child`seenReadyOrIdleSinceTransientFailure, child`history,
               child`timerStarts
      modifies this`children, this`created, this`currentPriority, this`reports
      modifies children.Values`deactivationTimer, children.Values`goingPending
      ensures Valid() && Owned() && Sound() && old(created) <= created
      ensures child.history == old(child.history) + [TRANSIENT_FAILURE]
              && !child.failoverTimer
      ensures priorities != [] && ok ==> IsChoice()
      ensures (forall name | name in priorities :: name in latestUpdates) ==> ok
      ensures AtMostOneNew(old(children)) && (old(children) == map[] ==> Revives())
    {
      child.FailoverTimerFired();
      ok := Rechoose();
    }

    /** ChoosePriority, with less said about it. */
    method Rechoose() returns (ok: bool)
      requires Valid() && Owned() && Sound()
      modifies this`children, this`created, this`currentPriority, this`reports
      modifies children.Values`deactivationTimer, children.Values`goingPending
      ensures Valid() && Owned() && Sound() && UnlistedKept() && old(created) <= created
      ensures priorities != [] && ok ==> IsChoice()
      ensures (forall name | name in priorities :: name in latestUpdates) ==> ok
      ensures AtMostOneNew(old(children)) && forall n | n in children && n !in old(children) :: fresh(children[n])
      ensures old(children) == map[] ==> Revives()
      ensures old(Updated()) ==> Updated()
      ensures old(UnlistedGo(children)) ==> UnlistedGo(old(children))
    {
      ok := ChoosePriority();
    }

    /** A deactivation timer fires, once: the child is destroyed, and whatever child
        now has its name is dropped. Unless the policy was destroyed while the timer
        ran, that is the same child. Otherwise the one that is dropped lives on,
        undestroyed, and the other is destroyed again (`StaleTimerDropsChild`). */
    method DeactivationTimerFired(child: PriorityChild)
      requires Valid() && Owned() && Sound() && child in created && child.goingPending
      modifies this`children, child`destroyCalls, child`goingPending
      ensures Valid() && Owned() && Sound() && children == old(children) - {child.name} && !child.goingPending
      ensures child.destroyCalls == old(child.destroyCalls) + 1
      ensures child.name in old(children) ==>
                var dropped := old(children)[child.name];
                dropped.destroyCalls > old(dropped.destroyCalls) <==> dropped == child
      ensures !destroyed ==> child.name in old(children) && old(children)[child.name] == child
    {
      children := children - {child.name};
      child.goingPending := false;
      child.destroyCalls := child.destroyCalls + 1;
    }

    /** A whole update is ignored if one endpoint has no locality path. Otherwise
        every configured child is assigned the endpoints whose path starts with its
        name, existing children get theirs at once, those no longer listed begin to
        go, and a priority is chosen. */
    method UpdateAddressList(endpointList: seq<Endpoint>, childConfigs: map<string, (string, bool)>,
                             configPriorities: seq<string>)
      returns (accepted: bool, ok: bool)
      requires Valid() && Owned() && Sound()
      modifies this, children.Values`latestUpdate, children.Values`deactivationTimer, children.Values`goingPending
      ensures Valid() && Owned() && Sound() && destroyed == old(destroyed) && old(created) <= created
      ensures accepted <==> Prioritizable(endpointList, |endpointList|)
      ensures !accepted ==> ok && children == old(children) && priorities == old(priorities)
                            && latestUpdates == old(latestUpdates) && reports == old(reports)
      ensures accepted ==>
                && priorities == configPriorities && Assigned(endpointList, childConfigs, latestUpdates)
                && (priorities != [] && ok ==> IsChoice())
                && ((forall name | name in priorities :: name in childConfigs) ==> ok)
      ensures accepted ==> Updated() && UnlistedGo(old(children))
      ensures accepted ==>
                AtMostOneNew(old(children)) && forall n | n in children && n !in old(children) :: fresh(children[n])
    {
      var buckets := BucketEndpoints(endpointList);
      if buckets.None? {
        return false, true;
      }
      UpdatesAssign(endpointList, childConfigs, buckets.value);
      ok := TakeUpdates(Updates(buckets.value, childConfigs), configPriorities);
      accepted := true;
    }

    method TakeUpdates(updates: map<string, UpdateArgs>, configPriorities: seq<string>) returns (ok: bool)
      requires Valid() && Owned() && Sound()
      modifies this, children.Values`latestUpdate, children.Values`deactivationTimer, children.Values`goingPending
      ensures Valid() && Owned() && Sound() && destroyed == old(destroyed) && old(created) <= created
      ensures priorities == configPriorities && latestUpdates == updates
      ensures priorities != [] && ok ==> IsChoice()
      ensures (forall name | name in priorities :: name in updates) ==> ok
      ensures Updated() && UnlistedGo(old(children))
      ensures AtMostOneNew(old(children)) && forall n | n in children && n !in old(children) :: fresh(children[n])
    {
      TakeOver(updates, configPriorities);
      ok := Rechoose();
    }

    method TakeOver(updates: map<string, UpdateArgs>, configPriorities: seq<string>)
      requires Valid() && Owned() && Sound()
      modifies this`priorities, this`latestUpdates, children.Values`latestUpdate
      modifies children.Values`deactivationTimer, children.Values`goingPending
      ensures Valid() && Owned() && Sound() && Updated() && UnlistedGo(children)
      ensures priorities == configPriorities && latestUpdates == updates
    {
      UpdateExisting(updates, configPriorities);
      DeactivateUnlisted();
    }

    /** Every child that is configured has its update. */
    ghost predicate Updated()
      reads this`children, this`latestUpdates, children.Values`latestUpdate
    {
      forall n | n in children && n in latestUpdates :: children[n].latestUpdate == Some(latestUpdates[n])
    }

    /** Every child of `before` that is not listed is kept with its timer pending. */
    ghost predicate UnlistedGo(before: map<string, PriorityChild>)
      reads this`children, this`priorities, children.Values`goingPending
    {
      forall n | n in before && n !in priorities ::
        n in children && children[n] == before[n] && children[n].goingPending
    }

    /** Existing children that are configured get their updates. */
    method UpdateExisting(updates: map<string, UpdateArgs>, configPriorities: seq<string>)
      requires Valid()
      modifies this`priorities, this`latestUpdates, children.Values`latestUpdate
      ensures Updated() && priorities == configPriorities && latestUpdates == updates
    {
      priorities := configPriorities;
      latestUpdates := updates;
      var names := latestUpdates.Keys;
      while names != {}
        invariant Valid() && names <= updates.Keys && priorities == configPriorities && latestUpdates == updates
        invariant forall n | n in children && n in latestUpdates && n !in names ::
                    children[n].latestUpdate == Some(latestUpdates[n])
      {
        var childName :| childName in names;
        names := names - {childName};
        if childName in children {
          children[childName].latestUpdate := Some(latestUpdates[childName]);
        }
      }
    }

    method DeactivateUnlisted()
      requires Valid() && Owned()
      modifies children.Values`deactivationTimer, children.Values`goingPending
      ensures Valid() && Owned()
      ensures forall n | n in children ::
                children[n].deactivationTimer == (old(children[n].deactivationTimer) || n !in priorities)
    {
      var names := children.Keys;
      while names != {}
        invariant Valid() && Owned() && names <= children.Keys
        invariant forall n | n in children :: children[n].deactivationTimer ==
                    (old(children[n].deactivationTimer) || (n !in names && n !in priorities))
      {
        var childName :| childName in names;
        names := names - {childName};
        if childName !in priorities {
          children[childName].Deactivate();
        }
      }
    }

    /** All children are destroyed. Their timers, the priorities and the updates stay. */
    method Destroy()
      requires Valid() && Owned() && Sound()
      modifies this`children, this`destroyed, children.Values`destroyCalls
      ensures Valid() && Owned() && Sound() && children == map[] && destroyed
      ensures forall n | n in old(children) :: old(children)[n].destroyCalls == old(children[n].destroyCalls) + 1
    {
      DestroyChildren();
      children, destroyed := map[], true;
    }

    method DestroyChildren()
      requires Valid()
      modifies children.Values`destroyCalls
      ensures Valid() && forall n | n in children :: children[n].destroyCalls == old(children[n].destroyCalls) + 1
    {
      var names := children.Keys;
      while names != {}
        invariant Valid() && names <= children.Keys
        invariant forall n | n in children ::
                    children[n].destroyCalls == old(children[n].destroyCalls) + if n in names then 0 else 1
      {
        var childName :| childName in names;
        names := names - {childName};
        children[childName].destroyCalls := children[childName].destroyCalls + 1;
      }
    }
  }

  // ----- Which child an endpoint goes to -----

  predicate Prioritizable(endpoints: seq<Endpoint>, n: nat)
    requires n <= |endpoints|
  {
    forall i | 0 <= i < n :: endpoints[i].localityPath.Some? && |endpoints[i].localityPath.value| > 0
  }

  function Shortened(e: Endpoint): Endpoint
    requires e.localityPath.Some? && |e.localityPath.value| > 0
  {
    e.(localityPath := Some(e.localityPath.value[1..]))
  }

  /** The endpoints for a child, in order, without the child's name. */
  function Bucket(endpoints: seq<Endpoint>, n: nat, name: string): seq<Endpoint>
    requires n <= |endpoints| && Prioritizable(endpoints, n)
  {
    if n == 0 then []
    else Bucket(endpoints, n - 1, name)
         + if endpoints[n - 1].localityPath.value[0] == name then [Shortened(endpoints[n - 1])] else []
  }

  /** Sorts endpoints by the first element of their paths; none if one has no path. */
  method BucketEndpoints(endpointList: seq<Endpoint>) returns (childAddressMap: Option<map<string, seq<Endpoint>>>)
    ensures childAddressMap.Some? <==> Prioritizable(endpointList, |endpointList|)
    ensures childAddressMap.Some? ==> Bucketed(endpointList, |endpointList|, childAddressMap.value)
  {
    var m: map<string, seq<Endpoint>> := map[];
    for i := 0 to |endpointList|
      invariant Prioritizable(endpointList, i)
      invariant Bucketed(endpointList, i, m)
    {
      var endpoint := endpointList[i];
      if endpoint.localityPath.None? || |endpoint.localityPath.value| < 1 {
        return None;
      }
      var childName := endpoint.localityPath.value[0];
      var longer := AddressesFor(m, childName) + [Shortened(endpoint)];
      OneMoreEndpoint(endpointList, i, m, longer);
      m := m[childName := longer];
    }
    return Some(m);
  }

  ghost predicate Bucketed(endpoints: seq<Endpoint>, n: nat, m: map<string, seq<Endpoint>>)
    requires n <= |endpoints| && Prioritizable(endpoints, n)
  {
    forall name: string :: AddressesFor(m, name) == Bucket(endpoints, n, name)
  }

  lemma OneMoreEndpoint(endpoints: seq<Endpoint>, n: nat, m: map<string, seq<Endpoint>>, longer: seq<Endpoint>)
    requires n < |endpoints| && Prioritizable(endpoints, n + 1) && Bucketed(endpoints, n, m)
    requires longer == AddressesFor(m, endpoints[n].localityPath.value[0]) + [Shortened(endpoints[n])]
    ensures Bucketed(endpoints, n + 1, m[endpoints[n].localityPath.value[0] := longer])
  {
    var key := endpoints[n].localityPath.value[0];
    var more := m[key := longer];
    forall name: string ensures AddressesFor(more, name) == Bucket(endpoints, n + 1, name) {
      assert AddressesFor(m, name) == Bucket(endpoints, n, name);
      assert name != key ==> Bucket(endpoints, n, name) + [] == Bucket(endpoints, n, name);
    }
  }

  function AddressesFor(m: map<string, seq<Endpoint>>, name: string): seq<Endpoint> {
    if name in m then m[name] else []
  }

  /** Pairs the configs of the children with their endpoints. */
  function Updates(m: map<string, seq<Endpoint>>, childConfigs: map<string, (string, bool)>): map<string, UpdateArgs> {
    map n | n in childConfigs :: UpdateArgs(AddressesFor(m, n), childConfigs[n].0, childConfigs[n].1)
  }

  /** Each configured child gets its config and the endpoints of its bucket. */
  ghost predicate Assigned(endpoints: seq<Endpoint>, childConfigs: map<string, (string, bool)>,
                           updates: map<string, UpdateArgs>) {
    && updates.Keys == childConfigs.Keys && Prioritizable(endpoints, |endpoints|)
    && forall n | n in childConfigs ::
         updates[n] == UpdateArgs(Bucket(endpoints, |endpoints|, n), childConfigs[n].0, childConfigs[n].1)
  }

  lemma UpdatesAssign(endpoints: seq<Endpoint>, childConfigs: map<string, (string, bool)>,
                      m: map<string, seq<Endpoint>>)
    requires Prioritizable(endpoints, |endpoints|) && Bucketed(endpoints, |endpoints|, m)
    ensures Assigned(endpoints, childConfigs, Updates(m, childConfigs))
  {
  }

  /** A policy with one child that has just been created. */
  method OnePriority(name: string, config: (string, bool))
    returns (policy: PriorityLoadBalancer, child: PriorityChild)
    ensures fresh(policy) && policy.Valid() && policy.Owned() && policy.Sound() && !policy.destroyed
    ensures fresh(child) && child in policy.created && policy.children == map[name := child]
    ensures policy.priorities == [name] && name in policy.latestUpdates
    ensures child.failoverTimer && child.destroyCalls == 0
  {
    policy := new PriorityLoadBalancer();
    var accepted, ok := policy.UpdateAddressList([], map[name := config], [name]);
    child := policy.children[name];
    assert policy.children == map[name := child];
  }

  /** A destroyed policy comes back to life when a failover timer that was left
      running fires: it creates a child again and reports its state. */
  method DestroyedPolicyRevives(name: string, config: (string, bool)) returns (policy: PriorityLoadBalancer)
    ensures fresh(policy) && policy.children.Keys == {name} && policy.children[name].destroyCalls == 0
  {
    var child;
    policy, child := OnePriority(name, config);
    policy.Destroy();
    assert name in policy.priorities && name in policy.latestUpdates;
    var ok := policy.FailoverTimerFired(child);
  }

  /** A child is no longer listed, and its timer runs; then the policy is destroyed. */
  method UnlistedAndDestroyed(name: string, config: (string, bool))
    returns (policy: PriorityLoadBalancer, stale: PriorityChild)
    ensures fresh(policy) && policy.Valid() && policy.Owned() && policy.Sound() && policy.children == map[]
    ensures fresh(stale) && stale in policy.created && stale.name == name
    ensures stale.goingPending && stale.destroyCalls == 1
  {
    policy, stale := OnePriority(name, config);
    var accepted, ok := policy.UpdateAddressList([], map[name := config], []);
    assert policy.children[name] == stale;
    policy.Destroy();
  }

  /** A deactivation timer that was left running can drop a child undestroyed: here
      the child is no longer listed, the policy is destroyed, the child's name is
      listed again, and the timer of the old child fires. */
  method StaleTimerDropsChild(name: string, config: (string, bool))
    returns (policy: PriorityLoadBalancer, stale: PriorityChild, dropped: PriorityChild)
    ensures fresh(policy) && stale in policy.created && dropped in policy.created && stale != dropped
    ensures policy.children == map[] && policy.priorities == [name]
    ensures dropped.name == name && dropped.destroyCalls == 0 && stale.destroyCalls == 2
  {
    policy, stale := UnlistedAndDestroyed(name, config);
    var accepted, ok := policy.UpdateAddressList([], map[name := config], [name]);
    dropped := policy.children[name];
    policy.DeactivationTimerFired(stale);
  }
}
