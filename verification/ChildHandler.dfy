/**
 The graceful switch between child policies: a new kind of policy is built beside
 the current one and takes over when it has something better than CONNECTING to
 report. Children do not call back while the handler is calling them, except
 possibly from their constructors (see UpdateState).
 */
module ChildHandler {
  import opened Common

  /** A parsed config: the name of its policy and the rest. */
  datatype LbConfig = LbConfig(name: string, rest: string)

  class ChildPolicy {
    const name: string
    var destroyCalls: nat
    var updates: seq<LbConfig>

    constructor (name: string)
      ensures this.name == name && destroyCalls == 0 && updates == []
    {
      this.name := name;
      destroyCalls, updates := 0, [];
    }

    method UpdateAddressList(lbConfig: LbConfig)
      modifies this`updates
      ensures updates == old(updates) + [lbConfig]
    {
      updates := updates + [lbConfig];
    }

    method Destroy()
      modifies this`destroyCalls
      ensures destroyCalls == old(destroyCalls) + 1
    {
      destroyCalls := destroyCalls + 1;
    }
  }

  /** A state as the parent gets it, with the child it came from. */
  datatype Report = Report(child: ChildPolicy?, state: ConnectivityState)

  class ChildLoadBalancerHandler {
    /** Subclasses may ask for a new instance more often than when the name changes. */
    const configUpdateRequiresNewPolicyInstance: (LbConfig, LbConfig) -> bool
    var currentChild: ChildPolicy?
    var pendingChild: ChildPolicy?
    var latestConfig: Option<LbConfig>
    var reports: seq<Report>
    /** Every child ever created, in order. */
    ghost var created: seq<ChildPolicy>

    ghost predicate Valid()
      reads this, created
    {
      && (forall a: LbConfig, b: LbConfig | a.name != b.name :: configUpdateRequiresNewPolicyInstance(a, b))
      && (forall i, j | 0 <= i < j < |created| :: created[i] != created[j])
      && (pendingChild != null ==>
            currentChild != null && currentChild in created && pendingChild in created && currentChild != pendingChild)
      && (currentChild != null ==> currentChild in created && Latest() == created[|created| - 1])
      && (forall c | c in created :: c.destroyCalls == if c == currentChild || c == pendingChild then 0 else 1)
      && (forall c | c in created :: forall u | u in c.updates :: u.name == c.name)
      && (currentChild != null ==> latestConfig.Some? && latestConfig.value.name == Latest().name)
    }

    /** The child that updates go to. */
    ghost function Latest(): ChildPolicy
      requires currentChild != null
      reads this
    {
      if pendingChild != null then pendingChild else currentChild
    }

    constructor (requiresNew: (LbConfig, LbConfig) -> bool)
      requires forall a: LbConfig, b: LbConfig | a.name != b.name :: requiresNew(a, b)
      ensures configUpdateRequiresNewPolicyInstance == requiresNew
      ensures Valid() && currentChild == null && pendingChild == null && created == [] && reports == []
    {
      configUpdateRequiresNewPolicyInstance := requiresNew;
      currentChild, pendingChild, latestConfig, reports := null, null, None, [];
      created := [];
    }

    /** An update goes to the newest child, which has the kind of policy the update
        names; it is a new child exactly when the config asks for one or there was none.
        A pending child that is replaced is destroyed; the current one stays. */
    method UpdateAddressList(lbConfig: LbConfig)
      requires Valid()
      modifies this, created
      ensures Valid() && currentChild != null && reports == old(reports) && latestConfig == Some(lbConfig)
      ensures old(currentChild) != null ==> currentChild == old(currentChild)
      ensures var isNew := old(currentChild) == null
              || configUpdateRequiresNewPolicyInstance(old(latestConfig).value, lbConfig);
              && created == old(created) + (if isNew then [Latest()] else [])
              && (isNew ==> fresh(Latest()))
      ensures Latest().name == lbConfig.name
      ensures Latest().updates == (if fresh(Latest()) then [] else old(Latest().updates)) + [lbConfig]
      ensures forall c | c in old(created) && c != Latest() :: c.updates == old(c.updates)
    {
      var childToUpdate: ChildPolicy;
      if currentChild == null || latestConfig.None?
         || configUpdateRequiresNewPolicyInstance(latestConfig.value, lbConfig) {
        var newChild := new ChildPolicy(lbConfig.name);
        if currentChild == null {
          currentChild := newChild;
          childToUpdate := newChild;
        } else {
          if pendingChild != null {
            pendingChild.Destroy();
          }
          pendingChild := newChild;
          childToUpdate := newChild;
        }
        created := created + [newChild];
      } else {
        childToUpdate := if pendingChild == null then currentChild else pendingChild;
      }
      latestConfig := Some(lbConfig);
      childToUpdate.UpdateAddressList(lbConfig);
    }

    /** A child's helper reports a state. Only the current child, or a pending one
        that is past CONNECTING and so becomes current, reaches the parent; a child
        that was destroyed never does. A helper has no child yet (null) while the
        child's constructor runs: then the comparison with an absent pending child
        succeeds, and the current child is lost. */
    method UpdateState(child: ChildPolicy?, connectivityState: ConnectivityState)
      requires Valid() && (child == null || child in created)
      modifies this`currentChild, this`pendingChild, this`reports, created
      ensures Valid()
      ensures if child == old(pendingChild) && connectivityState != CONNECTING then
                && currentChild == child && pendingChild == null
                && reports == old(reports) + [Report(child, connectivityState)]
                && (old(currentChild) != null ==> old(currentChild).destroyCalls == 1)
              else
                && currentChild == old(currentChild) && pendingChild == old(pendingChild)
                && reports == old(reports) +
                     if child == currentChild && child != pendingChild then [Report(child, connectivityState)] else []
      ensures child != null && old(child.destroyCalls) > 0 ==> reports == old(reports)
      ensures child != null && reports != old(reports) ==> currentChild == child
      ensures forall c | c in created ::
                c.updates == old(c.updates) && (c != old(currentChild) ==> c.destroyCalls == old(c.destroyCalls))
    {
      if child == pendingChild {
        if connectivityState == CONNECTING {
          return;
        }
        if currentChild != null {
          currentChild.Destroy();
        }
        currentChild := pendingChild;
        pendingChild := null;
      } else if child != currentChild {
        return;
      }
      reports := reports + [Report(child, connectivityState)];
    }

    /** Only the newest child's requests for re-resolution get through. */
    method RequestReresolution(child: ChildPolicy) returns (forwarded: bool)
      requires Valid()
      ensures forwarded <==> currentChild != null && child == Latest()
      ensures forwarded && child in created ==> child == created[|created| - 1]
    {
      var latestChild := if pendingChild != null then pendingChild else currentChild;
      forwarded := child == latestChild;
    }

    /** Afterwards every child ever created has been destroyed, once. */
    method Destroy()
      requires Valid()
      modifies this`currentChild, this`pendingChild, created
      ensures Valid() && currentChild == null && pendingChild == null
      ensures forall c | c in created :: c.destroyCalls == 1 && c.updates == old(c.updates)
    {
      if currentChild != null {
        currentChild.Destroy();
        currentChild := null;
      }
      if pendingChild != null {
        pendingChild.Destroy();
        pendingChild := null;
      }
    }
  }
}
