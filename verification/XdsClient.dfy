/**
 The xDS client's watch table and its mirror in the subscription maps of the
 aggregated discovery streams, which come and go (state-of-the-world variant of
 the Envoy xDS transport protocol).
 */
module XdsSubscriptions {
  import opened Common

  type TypeUrl = string
  type Authority = string
  type Key = string

  /** A discovery request, as far as subscriptions and acknowledgements go. */
  datatype DiscoveryRequest = DiscoveryRequest(typeUrl: TypeUrl, nonce: string, error: bool,
                                               names: set<(Authority, Key)>)

  datatype ResourceTypeState = ResourceTypeState(nonce: string, error: bool, subscribed: map<Authority, set<Key>>)

  /** One discovery stream: its subscription maps and what was written to it. */
  datatype AdsCallState = AdsCallState(typeStates: map<TypeUrl, ResourceTypeState>, sent: seq<DiscoveryRequest>) {
    ghost function Keys(): set<(TypeUrl, Authority, Key)> {
      set t, a, k | t in typeStates && a in typeStates[t].subscribed && k in typeStates[t].subscribed[a] :: (t, a, k)
    }

    /** No map of the nest is empty. */
    ghost predicate Pruned() {
      forall t | t in typeStates ::
        && typeStates[t].subscribed != map[]
        && forall a | a in typeStates[t].subscribed :: typeStates[t].subscribed[a] != {}
    }

    function ResourceNamesForRequest(t: TypeUrl): set<(Authority, Key)> {
      if t !in typeStates then {}
      else set a, k | a in typeStates[t].subscribed && k in typeStates[t].subscribed[a] :: (a, k)
    }

    function UpdateNames(t: TypeUrl): AdsCallState {
      if t !in typeStates then this
      else this.(sent := sent
                 + [DiscoveryRequest(t, typeStates[t].nonce, typeStates[t].error, ResourceNamesForRequest(t))])
    }

    predicate HasSubscribedResources() {
      exists t | t in typeStates :: exists a | a in typeStates[t].subscribed :: |typeStates[t].subscribed[a]| > 0
    }

    function Subscribe(t: TypeUrl, a: Authority, k: Key, delaySend: bool): AdsCallState {
      var typeState := if t in typeStates then typeStates[t] else ResourceTypeState("", false, map[]);
      var keys := if a in typeState.subscribed then typeState.subscribed[a] else {};
      var next := this.(typeStates := typeStates[t := typeState.(subscribed := typeState.subscribed[a := keys + {k}])]);
      if k in keys || delaySend then next else next.UpdateNames(t)
    }

    function Unsubscribe(t: TypeUrl, a: Authority, k: Key): AdsCallState {
      if t !in typeStates || a !in typeStates[t].subscribed then this
      else
        var keys := typeStates[t].subscribed[a] - {k};
        var subscribed := if keys == {} then typeStates[t].subscribed - {a} else typeStates[t].subscribed[a := keys];
        var states := if subscribed == map[] then typeStates - {t}
                      else typeStates[t := typeStates[t].(subscribed := subscribed)];
        this.(typeStates := states).UpdateNames(t)
    }

    /** A response for a live type: remember its nonce and verdict, answer it. */
    function Acknowledge(t: TypeUrl, nonce: string, error: bool): AdsCallState {
      if t !in typeStates then this
      else this.(typeStates := typeStates[t := typeStates[t].(nonce := nonce, error := error)]).UpdateNames(t)
    }
  }

  /** The newest request for a type on a stream: what the server goes by. */
  function LastRequest(sent: seq<DiscoveryRequest>, t: TypeUrl): Option<DiscoveryRequest> {
    if sent == [] then None
    else if sent[|sent| - 1].typeUrl == t then Some(sent[|sent| - 1])
    else LastRequest(sent[..|sent| - 1], t)
  }

  /** The server has been told of a type exactly what is subscribed, with the
      nonce and the verdict of the last response. */
  ghost predicate UpToDate(ads: AdsCallState, t: TypeUrl) {
    t in ads.typeStates &&
    LastRequest(ads.sent, t) ==
      Some(DiscoveryRequest(t, ads.typeStates[t].nonce, ads.typeStates[t].error, ads.ResourceNamesForRequest(t)))
  }

  ghost predicate AllUpToDate(ads: AdsCallState) {
    forall t | t in ads.typeStates :: UpToDate(ads, t)
  }

  lemma UpdateNamesTells(ads: AdsCallState, t: TypeUrl)
    ensures ads.UpdateNames(t).typeStates == ads.typeStates
    ensures t in ads.typeStates ==> UpToDate(ads.UpdateNames(t), t)
    ensures forall u | u != t :: LastRequest(ads.UpdateNames(t).sent, u) == LastRequest(ads.sent, u)
  {
  }

  lemma SubscribeAdds(ads: AdsCallState, t: TypeUrl, a: Authority, k: Key, delaySend: bool)
    ensures ads.Subscribe(t, a, k, delaySend).Keys() == ads.Keys() + {(t, a, k)}
    ensures delaySend ==> ads.Subscribe(t, a, k, delaySend).sent == ads.sent
  {
  }

  lemma SubscribePruned(ads: AdsCallState, t: TypeUrl, a: Authority, k: Key, delaySend: bool)
    requires ads.Pruned()
    ensures ads.Subscribe(t, a, k, delaySend).Pruned()
  {
  }

  lemma SubscribeTells(ads: AdsCallState, t: TypeUrl, a: Authority, k: Key)
    requires AllUpToDate(ads)
    ensures AllUpToDate(ads.Subscribe(t, a, k, false))
  {
    var next := ads.Subscribe(t, a, k, false);
    UpdateNamesTells(next.(sent := ads.sent), t);
    forall u | u in next.typeStates ensures UpToDate(next, u) {
      if u != t {
        assert UpToDate(ads, u) && next.ResourceNamesForRequest(u) == ads.ResourceNamesForRequest(u);
      } else if t in ads.typeStates && a in ads.typeStates[t].subscribed && k in ads.typeStates[t].subscribed[a] {
        assert ads.typeStates[t].subscribed[a] + {k} == ads.typeStates[t].subscribed[a];
        assert next.typeStates[t].subscribed == ads.typeStates[t].subscribed;
        assert UpToDate(ads, t);
      }
    }
  }

  lemma UnsubscribeAt(ads: AdsCallState, t: TypeUrl, a: Authority, k: Key, u: TypeUrl, b: Authority, l: Key)
    ensures (u, b, l) in ads.Unsubscribe(t, a, k).Keys() <==> (u, b, l) in ads.Keys() && (u, b, l) != (t, a, k)
  {
    if t in ads.typeStates && a in ads.typeStates[t].subscribed {
      var subscribed := ads.typeStates[t].subscribed;
      if (u, b, l) in ads.Keys() && (u, b, l) != (t, a, k) {
        if u != t {
          assert u in ads.typeStates - {t};
        } else if b != a {
          assert b in subscribed - {a} && b in subscribed[a := subscribed[a] - {k}];
        } else {
          assert l in subscribed[a] - {k} && a in subscribed[a := subscribed[a] - {k}];
        }
      }
    }
  }

  lemma UnsubscribeRemoves(ads: AdsCallState, t: TypeUrl, a: Authority, k: Key)
    ensures ads.Unsubscribe(t, a, k).Keys() == ads.Keys() - {(t, a, k)}
  {
    forall u, b, l {
      UnsubscribeAt(ads, t, a, k, u, b, l);
    }
  }

  lemma UnsubscribePruned(ads: AdsCallState, t: TypeUrl, a: Authority, k: Key)
    requires ads.Pruned()
    ensures ads.Unsubscribe(t, a, k).Pruned()
  {
  }

  lemma UnsubscribeTells(ads: AdsCallState, t: TypeUrl, a: Authority, k: Key)
    requires AllUpToDate(ads)
    ensures AllUpToDate(ads.Unsubscribe(t, a, k))
  {
  }

  lemma AcknowledgeKeeps(ads: AdsCallState, t: TypeUrl, nonce: string, error: bool)
    ensures var next := ads.Acknowledge(t, nonce, error);
            && next.Keys() == ads.Keys()
            && (ads.Pruned() ==> next.Pruned())
            && (AllUpToDate(ads) ==> AllUpToDate(next))
            && (if t in ads.typeStates
                then UpToDate(next, t) && next.typeStates[t].nonce == nonce && next.typeStates[t].error == error
                else next == ads)
  {
  }

  lemma LiveTypeHasKey(ads: AdsCallState, t: TypeUrl)
    requires ads.Pruned()
    ensures t in ads.typeStates ==> exists a, k :: (t, a, k) in ads.Keys()
  {
    if t in ads.typeStates {
      var a :| a in ads.typeStates[t].subscribed;
      var k :| k in ads.typeStates[t].subscribed[a];
      assert (t, a, k) in ads.Keys();
    }
  }

  /** Dropping the last resource of a type sends nothing: the server is told of
      an unsubscription if and only if the type has other resources left. */
  lemma {:induction false} LastOfTypeIsSilent(ads: AdsCallState, t: TypeUrl, a: Authority, k: Key)
    requires ads.Pruned() && AllUpToDate(ads) && (t, a, k) in ads.Keys()
    ensures var next := ads.Unsubscribe(t, a, k);
            && LastRequest(next.sent, t).Some?
            && (LastRequest(next.sent, t).value.names == next.ResourceNamesForRequest(t) <==>
                  exists b, l :: (t, b, l) in ads.Keys() && (b, l) != (a, k))
  {
    var next := ads.Unsubscribe(t, a, k);
    UnsubscribeRemoves(ads, t, a, k);
    UnsubscribePruned(ads, t, a, k);
    UnsubscribeTells(ads, t, a, k);
    assert UpToDate(ads, t);
    if exists b, l :: (t, b, l) in ads.Keys() && (b, l) != (a, k) {
      var b, l :| (t, b, l) in ads.Keys() && (b, l) != (a, k);
      assert (t, b, l) in next.Keys();
      assert UpToDate(next, t);
    } else {
      LiveTypeHasKey(next, t);
      assert next.sent == ads.sent;
      assert (a, k) in ads.ResourceNamesForRequest(t);
    }
  }

  lemma HasSubscribedMeans(ads: AdsCallState)
    ensures ads.HasSubscribedResources() <==> ads.Keys() != {}
  {
    if ads.HasSubscribedResources() {
      var t :| t in ads.typeStates && exists a | a in ads.typeStates[t].subscribed ::
                                        |ads.typeStates[t].subscribed[a]| > 0;
      var a :| a in ads.typeStates[t].subscribed && |ads.typeStates[t].subscribed[a]| > 0;
      var k :| k in ads.typeStates[t].subscribed[a];
      assert (t, a, k) in ads.Keys();
    }
    if t, a, k :| (t, a, k) in ads.Keys() {
      assert ads.typeStates[t].subscribed[a] != {};
    }
  }
}

module XdsClients {
  import opened Common
  import opened XdsSubscriptions

  type Watcher = nat

  /** A resource is in the table as long as it has a watcher. */
  type ResourceMap = map<TypeUrl, map<Key, set<Watcher>>>

  datatype AuthorityState = AuthorityState(client: nat, resourceMap: ResourceMap)

  type AuthorityMap = map<Authority, AuthorityState>

  /** A client of one server: its stream, if any, and its backoff timer.
      `backoffRunning` is what isRunning() says, which can be false while the
      timer is armed: a timer that fires clears the flag after its callback,
      and that callback may have armed the next timer. */
  datatype SingleServerClient = SingleServerClient(
    refcount: int, adsCallState: Option<AdsCallState>, backoffRunning: bool, backoffArmed: bool)

  /** The keys of the authorities that a client serves. */
  ghost function TableKeys(m: AuthorityMap, c: nat): set<(TypeUrl, Authority, Key)> {
    set a, t, k | a in m && m[a].client == c && t in m[a].resourceMap && k in m[a].resourceMap[t] :: (t, a, k)
  }

  function WatchersOf(m: AuthorityMap, t: TypeUrl, a: Authority, k: Key): set<Watcher> {
    if a in m && t in m[a].resourceMap && k in m[a].resourceMap[t] then m[a].resourceMap[t][k] else {}
  }

  /** No level of the table is empty. */
  ghost predicate Pruned(resourceMap: ResourceMap) {
    && resourceMap != map[]
    && forall t | t in resourceMap ::
         resourceMap[t] != map[] && forall k | k in resourceMap[t] :: resourceMap[t][k] != {}
  }

  ghost predicate TablePruned(m: AuthorityMap) {
    forall a | a in m :: Pruned(m[a].resourceMap)
  }

  ghost function AuthoritiesOf(m: AuthorityMap, c: nat): set<Authority> {
    set a | a in m && m[a].client == c
  }

  /** The stream's maps hold exactly the given keys, and the server knows. */
  ghost predicate StreamOk(ads: AdsCallState, keys: set<(TypeUrl, Authority, Key)>) {
    ads.Keys() == keys && ads.Pruned() && AllUpToDate(ads)
  }

  /** A client is referenced once per authority; a live stream mirrors the table
      and is needed; a client that needs a stream has one or is about to. */
  ghost predicate ClientOk(client: SingleServerClient, authorities: set<Authority>,
                           keys: set<(TypeUrl, Authority, Key)>) {
    && client.refcount == |authorities|
    && (client.adsCallState.Some? ==> client.refcount > 0 && StreamOk(client.adsCallState.value, keys))
    && (client.backoffRunning ==> client.backoffArmed)
    && (client.refcount > 0 && client.adsCallState.None? ==> client.backoffArmed)
  }

  ghost predicate ClientsOk(clients: map<nat, SingleServerClient>, m: AuthorityMap) {
    forall c | c in clients :: ClientOk(clients[c], AuthoritiesOf(m, c), TableKeys(m, c))
  }

  ghost predicate TableOk(serverFor: map<Authority, nat>, m: AuthorityMap, clients: map<nat, SingleServerClient>) {
    && TablePruned(m)
    && forall a | a in m :: a in serverFor && m[a].client == serverFor[a] && m[a].client in clients
  }

  /** An authority of a client has a key: no keys, no references. */
  lemma KeysMeanReferences(m: AuthorityMap, c: nat)
    requires TablePruned(m)
    ensures AuthoritiesOf(m, c) != {} <==> TableKeys(m, c) != {}
  {
    if AuthoritiesOf(m, c) != {} {
      var a :| a in AuthoritiesOf(m, c);
      var t :| t in m[a].resourceMap;
      var k :| k in m[a].resourceMap[t];
      assert (t, a, k) in TableKeys(m, c);
    }
    if t, a, k :| (t, a, k) in TableKeys(m, c) {
      assert a in AuthoritiesOf(m, c);
    }
  }

  ghost predicate SameBut(before: map<nat, SingleServerClient>, after: map<nat, SingleServerClient>, c: nat) {
    after.Keys == before.Keys + {c} && forall d | d in before && d != c :: after[d] == before[d]
  }

  /** Replacing the state of one client, and the table only for its authorities. */
  lemma ReplaceClient(before: map<nat, SingleServerClient>, after: map<nat, SingleServerClient>, c: nat,
                      m: AuthorityMap, n: AuthorityMap, a: Authority)
    requires ClientsOk(before, m) && SameBut(before, after, c)
    requires forall b | b != a :: (b in m <==> b in n) && (b in m ==> m[b] == n[b])
    requires (a in m ==> m[a].client == c) && (a in n ==> n[a].client == c)
    requires ClientOk(after[c], AuthoritiesOf(n, c), TableKeys(n, c))
    ensures ClientsOk(after, n)
  {
    forall d | d in before && d != c
      ensures AuthoritiesOf(m, d) == AuthoritiesOf(n, d) && TableKeys(m, d) == TableKeys(n, d)
    {
    }
  }

  /** A client whose stream goes, or is answered, is what it was otherwise. */
  lemma {:induction false} AcknowledgedOk(client: SingleServerClient, authorities: set<Authority>,
                                          keys: set<(TypeUrl, Authority, Key)>, t: TypeUrl, nonce: string, error: bool)
    requires ClientOk(client, authorities, keys) && client.adsCallState.Some?
    ensures var next := client.adsCallState.value.Acknowledge(t, nonce, error);
            && ClientOk(client.(adsCallState := Some(next)), authorities, keys)
            && (t in next.typeStates ==>
                  LastRequest(next.sent, t) == Some(DiscoveryRequest(t, nonce, error, next.ResourceNamesForRequest(t))))
  {
    AcknowledgeKeeps(client.adsCallState.value, t, nonce, error);
  }

  lemma RestartedOk(client: SingleServerClient, next: SingleServerClient, authorities: set<Authority>,
                    keys: set<(TypeUrl, Authority, Key)>)
    requires ClientOk(client, authorities, keys) && next.refcount == client.refcount
    requires next.adsCallState.Some? ==>
               next == client || (next.refcount > 0 && StreamOk(next.adsCallState.value, keys))
    requires next.backoffRunning || (next.refcount > 0 && next.adsCallState.None?) ==> next.backoffArmed
    ensures ClientOk(next, authorities, keys)
  {
  }

  lemma ReplaceStream(before: map<nat, SingleServerClient>, after: map<nat, SingleServerClient>, c: nat,
                      m: AuthorityMap)
    requires ClientsOk(before, m) && SameBut(before, after, c)
    requires ClientOk(after[c], AuthoritiesOf(m, c), TableKeys(m, c))
    ensures ClientsOk(after, m)
  {
  }

  function AddKey(resourceMap: ResourceMap, t: TypeUrl, k: Key, watcher: Watcher): ResourceMap {
    var keyMap := if t in resourceMap then resourceMap[t] else map[];
    var watchers := if k in keyMap then keyMap[k] else {};
    resourceMap[t := keyMap[k := watchers + {watcher}]]
  }

  function RemoveKey(resourceMap: ResourceMap, t: TypeUrl, k: Key, watcher: Watcher): ResourceMap
    requires t in resourceMap && k in resourceMap[t]
  {
    var watchers := resourceMap[t][k] - {watcher};
    var keyMap := if watchers != {} then resourceMap[t][k := watchers] else resourceMap[t] - {k};
    if keyMap != map[] then resourceMap[t := keyMap] else resourceMap - {t}
  }

  lemma RemoveKeyPruned(resourceMap: ResourceMap, t: TypeUrl, k: Key, watcher: Watcher)
    requires Pruned(resourceMap) && t in resourceMap && k in resourceMap[t]
    ensures RemoveKey(resourceMap, t, k, watcher) == map[] || Pruned(RemoveKey(resourceMap, t, k, watcher))
  {
  }

  lemma PutPruned(m: AuthorityMap, a: Authority, authorityState: AuthorityState)
    requires TablePruned(m)
    ensures Pruned(authorityState.resourceMap) ==> TablePruned(m[a := authorityState])
    ensures TablePruned(m - {a})
  {
  }

  /** The table with one more watcher, and with the authority bound to `c`. */
  function AddWatcher(m: AuthorityMap, c: nat, t: TypeUrl, a: Authority, k: Key, watcher: Watcher): AuthorityMap {
    var authorityState := if a in m then m[a] else AuthorityState(c, map[]);
    m[a := authorityState.(resourceMap := AddKey(authorityState.resourceMap, t, k, watcher))]
  }

  lemma AddWatcherMeans(m: AuthorityMap, c: nat, t: TypeUrl, a: Authority, k: Key, watcher: Watcher)
    requires TablePruned(m) && (a in m ==> m[a].client == c)
    ensures var n := AddWatcher(m, c, t, a, k, watcher);
            && TablePruned(n) && n.Keys == m.Keys + {a} && n[a].client == c
            && (forall b | b != a :: (b in m <==> b in n) && (b in m ==> m[b] == n[b]))
  {
  }

  lemma AddWatcherAuthorities(m: AuthorityMap, c: nat, t: TypeUrl, a: Authority, k: Key, watcher: Watcher)
    requires a in m ==> m[a].client == c
    ensures AuthoritiesOf(AddWatcher(m, c, t, a, k, watcher), c) == AuthoritiesOf(m, c) + {a}
  {
  }

  lemma AddWatcherKeys(m: AuthorityMap, c: nat, t: TypeUrl, a: Authority, k: Key, watcher: Watcher)
    requires a in m ==> m[a].client == c
    ensures TableKeys(AddWatcher(m, c, t, a, k, watcher), c) == TableKeys(m, c) + {(t, a, k)}
  {
  }

  lemma AddWatcherWatchers(m: AuthorityMap, c: nat, t: TypeUrl, a: Authority, k: Key, watcher: Watcher)
    ensures forall u, b, l :: WatchersOf(AddWatcher(m, c, t, a, k, watcher), u, b, l) ==
              WatchersOf(m, u, b, l) + (if (u, b, l) == (t, a, k) then {watcher} else {})
  {
  }

  /** The table with one watcher less, pruned. */
  function RemoveWatcher(m: AuthorityMap, t: TypeUrl, a: Authority, k: Key, watcher: Watcher): AuthorityMap {
    if a !in m || t !in m[a].resourceMap || k !in m[a].resourceMap[t] then m
    else
      var resourceMap := RemoveKey(m[a].resourceMap, t, k, watcher);
      if resourceMap != map[] then m[a := m[a].(resourceMap := resourceMap)] else m - {a}
  }

  /** What is left of an authority when a key goes. */
  lemma RemoveWatcherPrunes(m: AuthorityMap, t: TypeUrl, a: Authority, k: Key, watcher: Watcher)
    requires TablePruned(m)
    ensures var n := RemoveWatcher(m, t, a, k, watcher);
            && TablePruned(n)
            && (forall b | b != a :: (b in m <==> b in n) && (b in m ==> m[b] == n[b]))
            && (a in n ==> a in m && n[a].client == m[a].client)
  {
    if a in m && t in m[a].resourceMap && k in m[a].resourceMap[t] {
      RemoveKeyPruned(m[a].resourceMap, t, k, watcher);
      PutPruned(m, a, m[a].(resourceMap := RemoveKey(m[a].resourceMap, t, k, watcher)));
    }
  }

  lemma RemoveWatcherAt(m: AuthorityMap, t: TypeUrl, a: Authority, k: Key, watcher: Watcher, u: TypeUrl, b: Authority,
                        l: Key)
    requires TablePruned(m)
    ensures WatchersOf(RemoveWatcher(m, t, a, k, watcher), u, b, l) ==
              WatchersOf(m, u, b, l) - (if (u, b, l) == (t, a, k) then {watcher} else {})
  {
    if b == a && a in m && t in m[a].resourceMap && k in m[a].resourceMap[t] {
      if u == t && l != k && l in m[a].resourceMap[t] {
        assert l in m[a].resourceMap[t] - {k};
      } else if u != t && u in m[a].resourceMap {
        assert u in m[a].resourceMap - {t};
      }
    }
  }

  lemma RemoveWatcherWatchers(m: AuthorityMap, t: TypeUrl, a: Authority, k: Key, watcher: Watcher)
    requires TablePruned(m)
    ensures forall u, b, l :: WatchersOf(RemoveWatcher(m, t, a, k, watcher), u, b, l) ==
              WatchersOf(m, u, b, l) - (if (u, b, l) == (t, a, k) then {watcher} else {})
  {
    forall u, b, l { RemoveWatcherAt(m, t, a, k, watcher, u, b, l); }
  }

  /** In a pruned table, being a key is having a watcher. */
  lemma WatchedIsInTable(m: AuthorityMap, c: nat, t: TypeUrl, a: Authority, k: Key)
    requires TablePruned(m)
    ensures (t, a, k) in TableKeys(m, c) <==> a in m && m[a].client == c && WatchersOf(m, t, a, k) != {}
  {
  }

  lemma UnwatchedIsEmpty(m: AuthorityMap, c: nat)
    requires TablePruned(m) && forall t, a, k :: WatchersOf(m, t, a, k) == {}
    ensures TableKeys(m, c) == {}
  {
    forall t, a, k ensures (t, a, k) !in TableKeys(m, c) {
      WatchedIsInTable(m, c, t, a, k);
    }
  }

  /** A key leaves the table exactly with its last watcher. */
  lemma RemoveWatcherKeys(m: AuthorityMap, c: nat, t: TypeUrl, a: Authority, k: Key, watcher: Watcher)
    requires TablePruned(m) && (a in m ==> m[a].client == c)
    ensures TableKeys(RemoveWatcher(m, t, a, k, watcher), c) ==
              TableKeys(m, c) - (if WatchersOf(m, t, a, k) <= {watcher} then {(t, a, k)} else {})
  {
    var n := RemoveWatcher(m, t, a, k, watcher);
    RemoveWatcherPrunes(m, t, a, k, watcher);
    forall u, b, l
      ensures (u, b, l) in TableKeys(n, c) <==>
                (u, b, l) in TableKeys(m, c) - (if WatchersOf(m, t, a, k) <= {watcher} then {(t, a, k)} else {})
    {
      WatchedIsInTable(m, c, u, b, l);
      WatchedIsInTable(n, c, u, b, l);
      RemoveWatcherAt(m, t, a, k, watcher, u, b, l);
    }
  }

  lemma RemoveWatcherAuthorities(m: AuthorityMap, c: nat, t: TypeUrl, a: Authority, k: Key, watcher: Watcher)
    requires a in m && m[a].client == c
    ensures var n := RemoveWatcher(m, t, a, k, watcher);
            AuthoritiesOf(n, c) == AuthoritiesOf(m, c) - (if a in n then {} else {a})
  {
  }

  /** The client's part of dropping a key: unsubscribe, close an empty stream,
      and give up the reference of an authority that is gone. */
  ghost predicate DropStep(before: SingleServerClient, after: SingleServerClient, t: TypeUrl, a: Authority, k: Key,
                           gone: bool) {
    && after.refcount == before.refcount - (if gone then 1 else 0)
    && after.backoffArmed == before.backoffArmed && after.backoffRunning == before.backoffRunning
    && (before.adsCallState.None? ==> after.adsCallState.None?)
    && (before.adsCallState.Some? ==>
          var next := before.adsCallState.value.Unsubscribe(t, a, k);
          after.adsCallState == if next.HasSubscribedResources() then Some(next) else None)
  }

  /** A key that keeps a watcher changes nothing for the client. */
  lemma StillWatched(m: AuthorityMap, c: nat, t: TypeUrl, a: Authority, k: Key, watcher: Watcher)
    requires TablePruned(m) && (t, a, k) in TableKeys(m, c) && !(WatchersOf(m, t, a, k) <= {watcher})
    ensures var n := RemoveWatcher(m, t, a, k, watcher);
            TableKeys(n, c) == TableKeys(m, c) && AuthoritiesOf(n, c) == AuthoritiesOf(m, c)
  {
    RemoveWatcherKeys(m, c, t, a, k, watcher);
    var w :| w in WatchersOf(m, t, a, k) && w != watcher;
    assert w in m[a].resourceMap[t][k] - {watcher};
  }

  /** Dropping a key from the table and from the stream keeps them in step; the
      stream is closed exactly when the client's last reference goes. */
  lemma DropKeyKeepsClient(m: AuthorityMap, n: AuthorityMap, c: nat, t: TypeUrl, a: Authority, k: Key, watcher: Watcher,
                           before: SingleServerClient, after: SingleServerClient)
    requires TablePruned(m) && (t, a, k) in TableKeys(m, c) && WatchersOf(m, t, a, k) <= {watcher}
    requires n == RemoveWatcher(m, t, a, k, watcher) && ClientOk(before, AuthoritiesOf(m, c), TableKeys(m, c))
    requires DropStep(before, after, t, a, k, a !in n)
    ensures ClientOk(after, AuthoritiesOf(n, c), TableKeys(n, c))
    ensures before.adsCallState.Some? ==> (after.adsCallState.None? <==> TableKeys(n, c) == {})
  {
    RemoveWatcherPrunes(m, t, a, k, watcher);
    RemoveWatcherKeys(m, c, t, a, k, watcher);
    RemoveWatcherAuthorities(m, c, t, a, k, watcher);
    KeysMeanReferences(n, c);
    if before.adsCallState.Some? {
      UnsubscribeRemoves(before.adsCallState.value, t, a, k);
      UnsubscribePruned(before.adsCallState.value, t, a, k);
      UnsubscribeTells(before.adsCallState.value, t, a, k);
      HasSubscribedMeans(before.adsCallState.value.Unsubscribe(t, a, k));
    }
  }

  lemma WatchKeeps(serverFor: map<Authority, nat>, m: AuthorityMap, before: map<nat, SingleServerClient>,
                   after: map<nat, SingleServerClient>,
                   c: nat, t: TypeUrl, a: Authority, k: Key, watcher: Watcher)
    requires TableOk(serverFor, m, before) && ClientsOk(before, m) && SameBut(before, after, c)
    requires if a in m then m[a].client == c else a in serverFor && serverFor[a] == c
    requires var n := AddWatcher(m, c, t, a, k, watcher);
             ClientOk(after[c], AuthoritiesOf(n, c), TableKeys(n, c))
    ensures var n := AddWatcher(m, c, t, a, k, watcher);
            && TableOk(serverFor, n, after) && ClientsOk(after, n)
            && (forall u, b, l :: WatchersOf(n, u, b, l) ==
                  WatchersOf(m, u, b, l) + (if (u, b, l) == (t, a, k) then {watcher} else {}))
  {
    AddWatcherMeans(m, c, t, a, k, watcher);
    AddWatcherWatchers(m, c, t, a, k, watcher);
    ReplaceClient(before, after, c, m, AddWatcher(m, c, t, a, k, watcher), a);
  }

  lemma CancelKeeps(serverFor: map<Authority, nat>, m: AuthorityMap, before: map<nat, SingleServerClient>,
                    after: map<nat, SingleServerClient>,
                    c: nat, t: TypeUrl, a: Authority, k: Key, watcher: Watcher)
    requires TableOk(serverFor, m, before) && ClientsOk(before, m) && SameBut(before, after, c) && a in m
             && m[a].client == c
    requires var n := RemoveWatcher(m, t, a, k, watcher);
             ClientOk(after[c], AuthoritiesOf(n, c), TableKeys(n, c))
    ensures var n := RemoveWatcher(m, t, a, k, watcher);
            TableOk(serverFor, n, after) && ClientsOk(after, n)
  {
    RemoveWatcherPrunes(m, t, a, k, watcher);
    ReplaceClient(before, after, c, m, RemoveWatcher(m, t, a, k, watcher), a);
  }

  datatype XdsResourceName = XdsResourceName(authority: Authority, key: Key)

  function FullTypeUrl(t: TypeUrl): string { "type.googleapis.com/" + t }

  /** Which of a client's streams ends. */
  datatype Stream = Current | Ended | Orphan

  function Streams(counts: map<nat, nat>, c: nat): nat { if c in counts then counts[c] else 0 }

  class XdsClient {
    /** The bootstrap: which server an authority is served by. */
    const serverFor: map<Authority, nat>
    var authorityStateMap: AuthorityMap
    var clients: map<nat, SingleServerClient>
    /** By client: the streams it ended whose end has not been reported yet, and the
        open streams that are not its current one. */
    var ending: map<nat, nat>
    var orphans: map<nat, nat>
    /** The resource type object that was first used for a type URL. */
    var typeRegistry: map<TypeUrl, nat>

    ghost predicate Valid()
      reads this
    {
      && TableOk(serverFor, authorityStateMap, clients)
      && ClientsOk(clients, authorityStateMap)
    }

    constructor (serverFor: map<Authority, nat>)
      ensures Valid() && authorityStateMap == map[] && clients == map[] && this.serverFor == serverFor
      ensures ending == map[] && orphans == map[] && typeRegistry == map[]
    {
      this.serverFor := serverFor;
      authorityStateMap, clients := map[], map[];
      ending, orphans, typeRegistry := map[], map[], map[];
    }

    /** Opening a stream: subscribe to all that the table holds for the client,
        then send one request per type. */
    method NewAdsCall(c: nat) returns (ads: AdsCallState)
      ensures StreamOk(ads, TableKeys(authorityStateMap, c))
    {
      ads := AdsCallState(map[], []);
      var authorities := authorityStateMap.Keys;
      while authorities != {}
        invariant authorities <= authorityStateMap.Keys
        invariant ads.Pruned() && ads.sent == []
        invariant ads.Keys() == set x | x in TableKeys(authorityStateMap, c) && x.1 !in authorities
        decreases authorities
      {
        var authority :| authority in authorities;
        ghost var before := ads.Keys();
        if authorityStateMap[authority].client == c {
          ads := SubscribeAuthority(authority, authorityStateMap[authority].resourceMap, ads);
        }
        authorities := authorities - {authority};
        assert ads.Keys() == before + set x | x in TableKeys(authorityStateMap, c) && x.1 == authority;
      }
      assert ads.Keys() == TableKeys(authorityStateMap, c);
      var types := ads.typeStates.Keys;
      while types != {}
        invariant types <= ads.typeStates.Keys
        invariant ads.Pruned() && ads.Keys() == TableKeys(authorityStateMap, c)
        invariant forall t | t in ads.typeStates && t !in types :: UpToDate(ads, t)
        decreases types
      {
        var t :| t in types;
        UpdateNamesTells(ads, t);
        ghost var before := ads;
        ads := ads.UpdateNames(t);
        types := types - {t};
        forall u | u in ads.typeStates && u !in types ensures UpToDate(ads, u) {
          if u != t {
            assert UpToDate(before, u) && ads.ResourceNamesForRequest(u) == before.ResourceNamesForRequest(u);
          }
        }
      }
    }

    /** The two inner loops, over the types and keys of one authority. */
    static method SubscribeAuthority(authority: Authority, resourceMap: ResourceMap, before: AdsCallState)
      returns (ads: AdsCallState)
      requires before.Pruned() && before.sent == []
      ensures ads.Pruned() && ads.sent == []
      ensures ads.Keys() == before.Keys() + set t, k | t in resourceMap && k in resourceMap[t] :: (t, authority, k)
    {
      ads := before;
      var types := resourceMap.Keys;
      while types != {}
        invariant types <= resourceMap.Keys && ads.Pruned() && ads.sent == []
        invariant ads.Keys() == before.Keys() + set t, k | t in resourceMap && t !in types && k in resourceMap[t] ::
                                                  (t, authority, k)
        decreases types
      {
        var typeUrl :| typeUrl in types;
        var keys := resourceMap[typeUrl].Keys;
        ghost var sofar := ads.Keys();
        while keys != {}
          invariant keys <= resourceMap[typeUrl].Keys && ads.Pruned() && ads.sent == []
          invariant ads.Keys() == sofar + set k | k in resourceMap[typeUrl] && k !in keys :: (typeUrl, authority, k)
          decreases keys
        {
          var key :| key in keys;
          SubscribeAdds(ads, typeUrl, authority, key, true);
          SubscribePruned(ads, typeUrl, authority, key, true);
          ads := ads.Subscribe(typeUrl, authority, key, true);
          keys := keys - {key};
        }
        types := types - {typeUrl};
      }
    }

    method MaybeStartAdsStream(c: nat)
      requires c in clients
      modifies this`clients
      ensures c in clients && clients == old(clients)[c := clients[c]]
      ensures clients[c].refcount == old(clients[c]).refcount
      ensures old(clients[c]).adsCallState.Some? || clients[c].refcount < 1 ==> clients == old(clients)
      ensures old(clients[c]).adsCallState.None? && clients[c].refcount >= 1 ==>
                && clients[c].adsCallState.Some?
                && StreamOk(clients[c].adsCallState.value, TableKeys(authorityStateMap, c))
                && clients[c].backoffRunning && clients[c].backoffArmed
    {
      if clients[c].adsCallState.Some? || clients[c].refcount < 1 {
        return;
      }
      var ads := NewAdsCall(c);
      clients := clients[c := clients[c].(adsCallState := Some(ads), backoffRunning := true, backoffArmed := true)];
    }

    /** Subscribes to a key that has just entered the table. */
    method Subscribe(c: nat, t: TypeUrl, a: Authority, k: Key)
      requires c in clients && (t, a, k) in TableKeys(authorityStateMap, c)
      requires clients[c].refcount == |AuthoritiesOf(authorityStateMap, c)|
      requires clients[c].backoffRunning ==> clients[c].backoffArmed
      requires clients[c].adsCallState.Some? ==>
                 var ads := clients[c].adsCallState.value;
                 ads.Pruned() && AllUpToDate(ads) && ads.Keys() == TableKeys(authorityStateMap, c) - {(t, a, k)}
      modifies this`clients
      ensures c in clients && SameBut(old(clients), clients, c)
      ensures ClientOk(clients[c], AuthoritiesOf(authorityStateMap, c), TableKeys(authorityStateMap, c))
              && clients[c].adsCallState.Some?
    {
      assert a in AuthoritiesOf(authorityStateMap, c);
      MaybeStartAdsStream(c);
      if clients[c].adsCallState.Some? {
        var ads := clients[c].adsCallState.value;
        SubscribeAdds(ads, t, a, k, false);
        SubscribePruned(ads, t, a, k, false);
        SubscribeTells(ads, t, a, k);
        clients := clients[c := clients[c].(adsCallState := Some(ads.Subscribe(t, a, k, false)))];
      }
    }

    method Unsubscribe(c: nat, t: TypeUrl, a: Authority, k: Key)
      requires c in clients
      requires clients[c].adsCallState.Some? ==> clients[c].adsCallState.value.Pruned()
      modifies this`clients, this`ending
      ensures c in clients && SameBut(old(clients), clients, c)
      ensures clients[c] == old(clients[c]).(adsCallState := clients[c].adsCallState)
      ensures old(clients[c]).adsCallState.None? ==> clients[c].adsCallState.None?
      ensures old(clients[c]).adsCallState.Some? ==>
                var next := old(clients[c]).adsCallState.value.Unsubscribe(t, a, k);
                clients[c].adsCallState == if next.HasSubscribedResources() then Some(next) else None
      ensures forall d :: Streams(ending, d) == old(Streams(ending, d)) +
                if d == c && old(clients[c]).adsCallState.Some? && clients[c].adsCallState.None? then 1 else 0
    {
      if clients[c].adsCallState.Some? {
        clients := clients[c := clients[c].(adsCallState := Some(clients[c].adsCallState.value.Unsubscribe(t, a, k)))];
      }
      if clients[c].adsCallState.Some? && !clients[c].adsCallState.value.HasSubscribedResources() {
        clients := clients[c := clients[c].(adsCallState := None)];
        ending := ending[c := Streams(ending, c) + 1];
      }
    }

    /** The client of an authority, created and referenced on first use. */
    method RefAuthority(a: Authority) returns (c: nat)
      requires Valid() && (a in authorityStateMap || a in serverFor)
      modifies this`clients
      ensures c == if a in authorityStateMap then authorityStateMap[a].client else serverFor[a]
      ensures c in clients && SameBut(old(clients), clients, c)
      ensures clients[c].refcount == |AuthoritiesOf(authorityStateMap, c) + {a}|
      ensures clients[c].backoffRunning ==> clients[c].backoffArmed
      ensures clients[c].adsCallState.Some? ==> StreamOk(clients[c].adsCallState.value, TableKeys(authorityStateMap, c))
      ensures a in authorityStateMap ==> clients == old(clients)
    {
      if a in authorityStateMap {
        c := authorityStateMap[a].client;
        assert AuthoritiesOf(authorityStateMap, c) + {a} == AuthoritiesOf(authorityStateMap, c);
        return;
      }
      c := serverFor[a];
      if c !in clients {
        clients := clients[c := SingleServerClient(0, None, false, false)];
        assert AuthoritiesOf(authorityStateMap, c) == {};
      }
      clients := clients[c := clients[c].(refcount := clients[c].refcount + 1)];
    }

    /** `name` is the parsed resource name, if it can be parsed. `ok` is false where
        the source throws: another type object was used for the type URL before, the
        name cannot be parsed, or the bootstrap does not know the authority. */
    method WatchResource(resourceType: nat, t: TypeUrl, name: Option<XdsResourceName>, watcher: Watcher)
      returns (ok: bool)
      requires Valid()
      modifies this`typeRegistry, this`authorityStateMap, this`clients
      ensures Valid()
      ensures ok <==> && (t in old(typeRegistry) ==> old(typeRegistry)[t] == resourceType)
                      && name.Some?
                      && (name.value.authority in old(authorityStateMap) || name.value.authority in serverFor)
      ensures typeRegistry == if t in old(typeRegistry) then old(typeRegistry)
                              else old(typeRegistry)[t := resourceType][FullTypeUrl(t) := resourceType]
      ensures !ok ==> authorityStateMap == old(authorityStateMap) && clients == old(clients)
      ensures ok ==> Watched(t, name.value.authority, name.value.key, watcher, old(authorityStateMap))
    {
      if t in typeRegistry {
        if typeRegistry[t] != resourceType {
          return false;
        }
      } else {
        typeRegistry := typeRegistry[t := resourceType][FullTypeUrl(t) := resourceType];
      }
      if name.None? {
        return false;
      }
      var a, k := name.value.authority, name.value.key;
      if a !in authorityStateMap && a !in serverFor {
        return false;
      }
      var c := AddWatch(t, a, k, watcher);
      WatchKeeps(serverFor, old(authorityStateMap), old(clients), clients, c, t, a, k, watcher);
      return true;
    }

    /** The watcher is entered, no other entry is touched, and a resource that was not
        watched before has a stream. */
    ghost predicate Watched(t: TypeUrl, a: Authority, k: Key, watcher: Watcher, before: AuthorityMap)
      reads this
    {
      && (forall u, b, l :: WatchersOf(authorityStateMap, u, b, l) ==
            WatchersOf(before, u, b, l) + (if (u, b, l) == (t, a, k) then {watcher} else {}))
      && a in authorityStateMap && authorityStateMap[a].client in clients
      && (WatchersOf(before, t, a, k) == {} ==> clients[authorityStateMap[a].client].adsCallState.Some?)
    }

    /** A watch that does not throw, as its client sees it. */
    method AddWatch(t: TypeUrl, a: Authority, k: Key, watcher: Watcher) returns (c: nat)
      requires Valid() && (a in authorityStateMap || a in serverFor)
      modifies this`authorityStateMap, this`clients
      ensures c == (if a in old(authorityStateMap) then old(authorityStateMap)[a].client else serverFor[a])
      ensures SameBut(old(clients), clients, c)
              && authorityStateMap == AddWatcher(old(authorityStateMap), c, t, a, k, watcher)
      ensures ClientOk(clients[c], AuthoritiesOf(authorityStateMap, c), TableKeys(authorityStateMap, c))
      ensures (t, a, k) !in TableKeys(old(authorityStateMap), c) ==> clients[c].adsCallState.Some?
    {
      c := RefAuthority(a);
      var isNewSubscription := EnterWatcher(c, t, a, k, watcher);
      AddWatcherAuthorities(old(authorityStateMap), c, t, a, k, watcher);
      AddWatcherKeys(old(authorityStateMap), c, t, a, k, watcher);
      if isNewSubscription {
        Subscribe(c, t, a, k);
      }
    }

    /** The table's part of a watch. */
    method EnterWatcher(c: nat, t: TypeUrl, a: Authority, k: Key, watcher: Watcher) returns (isNewSubscription: bool)
      requires a in authorityStateMap ==> authorityStateMap[a].client == c
      modifies this`authorityStateMap
      ensures authorityStateMap == AddWatcher(old(authorityStateMap), c, t, a, k, watcher)
      ensures isNewSubscription <==> (t, a, k) !in TableKeys(old(authorityStateMap), c)
    {
      var authorityState := if a in authorityStateMap then authorityStateMap[a] else AuthorityState(c, map[]);
      var keyMap := if t in authorityState.resourceMap then authorityState.resourceMap[t] else map[];
      isNewSubscription := k !in keyMap;
      var watchers := if isNewSubscription then {} else keyMap[k];
      keyMap := keyMap[k := watchers + {watcher}];
      authorityState := authorityState.(resourceMap := authorityState.resourceMap[t := keyMap]);
      authorityStateMap := authorityStateMap[a := authorityState];
    }

    /** The name can be parsed; otherwise this throws at once. */
    method CancelResourceWatch(t: TypeUrl, a: Authority, k: Key, watcher: Watcher)
      requires Valid()
      modifies this`authorityStateMap, this`clients, this`ending
      ensures Valid()
      ensures forall u, b, l :: WatchersOf(authorityStateMap, u, b, l) ==
                WatchersOf(old(authorityStateMap), u, b, l) - (if (u, b, l) == (t, a, k) then {watcher} else {})
      ensures a !in old(authorityStateMap) ==> clients == old(clients) && ending == old(ending)
      ensures a in old(authorityStateMap) ==>
                var c := old(authorityStateMap)[a].client;
                && SameBut(old(clients), clients, c) && c in old(clients)
                && StreamClosedIfUnused(c, old(clients)[c], old(ending))
    {
      if a !in authorityStateMap || t !in authorityStateMap[a].resourceMap
         || k !in authorityStateMap[a].resourceMap[t] {
        if a in authorityStateMap { KeysMeanReferences(authorityStateMap, authorityStateMap[a].client); }
        return;
      }
      var c := authorityStateMap[a].client;
      RemoveWatcherWatchers(authorityStateMap, t, a, k, watcher);
      RemoveWatch(c, t, a, k, watcher);
      CancelKeeps(serverFor, old(authorityStateMap), old(clients), clients, c, t, a, k, watcher);
    }

    /** The client's stream is ended exactly if nothing of the client is watched any
        more, and then its end is still to be reported. */
    ghost predicate StreamClosedIfUnused(c: nat, before: SingleServerClient, endingBefore: map<nat, nat>)
      requires c in clients
      reads this
    {
      && (clients[c].adsCallState.Some? <==> before.adsCallState.Some? && TableKeys(authorityStateMap, c) != {})
      && forall d :: Streams(ending, d) == Streams(endingBefore, d) +
                       if d == c && before.adsCallState.Some? && clients[c].adsCallState.None? then 1 else 0
    }

    /** A cancellation of a resource in the table, as its client sees it. */
    method RemoveWatch(c: nat, t: TypeUrl, a: Authority, k: Key, watcher: Watcher)
      requires TablePruned(authorityStateMap) && a in authorityStateMap && authorityStateMap[a].client == c
      requires t in authorityStateMap[a].resourceMap && k in authorityStateMap[a].resourceMap[t]
      requires c in clients
               && ClientOk(clients[c], AuthoritiesOf(authorityStateMap, c), TableKeys(authorityStateMap, c))
      modifies this`authorityStateMap, this`clients, this`ending
      ensures SameBut(old(clients), clients, c)
              && authorityStateMap == RemoveWatcher(old(authorityStateMap), t, a, k, watcher)
      ensures ClientOk(clients[c], AuthoritiesOf(authorityStateMap, c), TableKeys(authorityStateMap, c))
      ensures StreamClosedIfUnused(c, old(clients)[c], old(ending))
    {
      if authorityStateMap[a].resourceMap[t][k] - {watcher} == {} {
        DropKey(c, t, a, k, watcher);
        DropKeyKeepsClient(old(authorityStateMap), authorityStateMap, c, t, a, k, watcher, old(clients)[c], clients[c]);
      } else {
        var gone := LeaveWatcher(t, a, k, watcher);
        StillWatched(old(authorityStateMap), c, t, a, k, watcher);
        assert (t, a, k) in TableKeys(authorityStateMap, c);
      }
    }

    /** The last watcher of a key leaves: unsubscribe, prune, unreference. */
    method DropKey(c: nat, t: TypeUrl, a: Authority, k: Key, watcher: Watcher)
      requires c in clients && (clients[c].adsCallState.Some? ==> clients[c].adsCallState.value.Pruned())
      requires a in authorityStateMap && t in authorityStateMap[a].resourceMap
               && k in authorityStateMap[a].resourceMap[t]
      modifies this`authorityStateMap, this`clients, this`ending
      ensures authorityStateMap == RemoveWatcher(old(authorityStateMap), t, a, k, watcher)
      ensures c in clients && SameBut(old(clients), clients, c)
      ensures DropStep(old(clients)[c], clients[c], t, a, k, a !in authorityStateMap)
      ensures forall d :: Streams(ending, d) == old(Streams(ending, d)) +
                if d == c && old(clients[c]).adsCallState.Some? && clients[c].adsCallState.None? then 1 else 0
    {
      Unsubscribe(c, t, a, k);
      var gone := LeaveWatcher(t, a, k, watcher);
      if gone {
        clients := clients[c := clients[c].(refcount := clients[c].refcount - 1)];
      }
    }

    /** The table's part of a cancellation; `gone` when the authority's last key
        went with it. */
    method LeaveWatcher(t: TypeUrl, a: Authority, k: Key, watcher: Watcher) returns (gone: bool)
      requires a in authorityStateMap && t in authorityStateMap[a].resourceMap
               && k in authorityStateMap[a].resourceMap[t]
      modifies this`authorityStateMap
      ensures authorityStateMap == RemoveWatcher(old(authorityStateMap), t, a, k, watcher)
      ensures gone <==> a !in authorityStateMap
    {
      var authorityState := authorityStateMap[a];
      var watchers := authorityState.resourceMap[t][k] - {watcher};
      var keyMap := authorityState.resourceMap[t][k := watchers];
      if watchers == {} {
        keyMap := authorityState.resourceMap[t] - {k};
      }
      authorityState := authorityState.(resourceMap := authorityState.resourceMap[t := keyMap]);
      if keyMap == map[] {
        authorityState := authorityState.(resourceMap := authorityStateMap[a].resourceMap - {t});
      }
      authorityStateMap := authorityStateMap[a := authorityState];
      gone := authorityState.resourceMap == map[];
      if gone {
        authorityStateMap := authorityStateMap - {a};
        assert authorityStateMap == old(authorityStateMap) - {a};
      }
    }

    /** A discovery stream of the client ends: the current one, one that the client
        ended before, or one that it lost sight of. If another than the current one
        ends while there is a current one, then that is lost sight of in turn: it
        stays open, unended, beside the one that replaces it. */
    method HandleAdsStreamEnd(c: nat, which: Stream)
      requires Valid() && c in clients
      requires match which
               case Current => clients[c].adsCallState.Some?
               case Ended => Streams(ending, c) > 0
               case Orphan => Streams(orphans, c) > 0
      modifies this`clients, this`ending, this`orphans
      ensures Valid() && c in clients && SameBut(old(clients), clients, c)
      ensures clients[c].adsCallState.Some? <==> !old(clients[c]).backoffRunning && clients[c].refcount > 0
      ensures clients[c].refcount == old(clients[c]).refcount
      ensures Streams(ending, c) == old(Streams(ending, c)) - (if which == Ended then 1 else 0)
      ensures Streams(orphans, c) == old(Streams(orphans, c)) - (if which == Orphan then 1 else 0)
                                     + (if which != Current && old(clients[c]).adsCallState.Some? then 1 else 0)
    {
      match which {
        case Current =>
        case Ended => ending := ending[c := Streams(ending, c) - 1];
        case Orphan => orphans := orphans[c := Streams(orphans, c) - 1];
      }
      if which != Current && clients[c].adsCallState.Some? {
        orphans := orphans[c := Streams(orphans, c) + 1];
      }
      ForgetStream(c);
    }

    method ForgetStream(c: nat)
      requires Valid() && c in clients
      modifies this`clients
      ensures Valid() && c in clients && SameBut(old(clients), clients, c)
      ensures clients[c].adsCallState.Some? <==> !old(clients[c]).backoffRunning && clients[c].refcount > 0
      ensures clients[c].refcount == old(clients[c]).refcount
    {
      ghost var authorities, keys := AuthoritiesOf(authorityStateMap, c), TableKeys(authorityStateMap, c);
      assert ClientOk(clients[c], authorities, keys);
      clients := clients[c := clients[c].(adsCallState := None)];
      if !clients[c].backoffRunning {
        MaybeStartAdsStream(c);
      }
      RestartedOk(old(clients)[c], clients[c], authorities, keys);
      ReplaceStream(old(clients), clients, c, authorityStateMap);
    }

    /** The backoff timer fires. */
    method BackoffElapsed(c: nat)
      requires Valid() && c in clients && clients[c].backoffArmed
      modifies this`clients
      ensures Valid() && c in clients && SameBut(old(clients), clients, c)
      ensures clients[c].refcount > 0 ==> clients[c].adsCallState.Some?
      ensures !clients[c].backoffRunning
      ensures clients[c].backoffArmed <==> clients[c].refcount > 0 && old(clients[c]).adsCallState.None?
    {
      clients := clients[c := clients[c].(backoffArmed := false)];
      MaybeStartAdsStream(c);
      clients := clients[c := clients[c].(backoffRunning := false)];
      ReplaceStream(old(clients), clients, c, authorityStateMap);
    }

    /** A discovery response, `error` telling whether any resource in it was bad. */
    method HandleResponseMessage(c: nat, t: TypeUrl, nonce: string, error: bool)
      requires Valid() && c in clients && clients[c].adsCallState.Some?
      modifies this`clients
      ensures Valid() && c in clients && SameBut(old(clients), clients, c) && clients[c].adsCallState.Some?
      ensures var ads := clients[c].adsCallState.value;
              t in ads.typeStates ==>
                LastRequest(ads.sent, t) == Some(DiscoveryRequest(t, nonce, error, ads.ResourceNamesForRequest(t)))
    {
      var ads := clients[c].adsCallState.value;
      AcknowledgedOk(clients[c], AuthoritiesOf(authorityStateMap, c), TableKeys(authorityStateMap, c), t, nonce,
                     error);
      clients := clients[c := clients[c].(adsCallState := Some(ads.Acknowledge(t, nonce, error)))];
      ReplaceStream(old(clients), clients, c, authorityStateMap);
    }
  }

  /** A client that watches one resource. */
  method OneWatch(t: TypeUrl, name: XdsResourceName, watcher: Watcher) returns (client: XdsClient)
    ensures fresh(client) && client.Valid() && client.serverFor == map[name.authority := 0]
    ensures client.ending == client.orphans == map[] && t in client.typeRegistry && client.typeRegistry[t] == 0
    ensures 0 in client.clients && client.clients[0].adsCallState.Some?
    ensures name.authority in client.authorityStateMap && client.authorityStateMap[name.authority].client == 0
    ensures forall u, b, l :: WatchersOf(client.authorityStateMap, u, b, l) ==
                                if (u, b, l) == (t, name.authority, name.key) then {watcher} else {}
  {
    client := new XdsClient(map[name.authority := 0]);
    var ok := client.WatchResource(0, t, Some(name), watcher);
    assert client.authorityStateMap[name.authority].client == 0;
  }

  /** It gives the resource up: the stream is ending. */
  method GivenUp(t: TypeUrl, name: XdsResourceName, watcher: Watcher) returns (client: XdsClient)
    ensures fresh(client) && client.Valid() && client.serverFor == map[name.authority := 0]
    ensures client.orphans == map[] && t in client.typeRegistry && client.typeRegistry[t] == 0
    ensures WatchersOf(client.authorityStateMap, t, name.authority, name.key) == {}
    ensures Streams(client.ending, 0) == 1
  {
    client := OneWatch(t, name, watcher);
    client.CancelResourceWatch(t, name.authority, name.key, watcher);
    UnwatchedIsEmpty(client.authorityStateMap, 0);
  }

  /** And watches it again: there is a second stream. */
  method WatchTwice(t: TypeUrl, name: XdsResourceName, watcher: Watcher) returns (client: XdsClient)
    ensures fresh(client) && client.Valid() && client.orphans == map[]
    ensures 0 in client.clients && client.clients[0].adsCallState.Some? && Streams(client.ending, 0) == 1
  {
    client := GivenUp(t, name, watcher);
    var ok := client.WatchResource(0, t, Some(name), watcher);
    assert client.authorityStateMap[name.authority].client == 0;
  }

  /** A stream that ends late makes the client lose sight of its current one: when
      the end of the first stream is reported only now, the second stays open beside
      the third, which the timer starts unless the client did at once. */
  method LateEndLosesStream(t: TypeUrl, name: XdsResourceName, watcher: Watcher) returns (client: XdsClient)
    ensures fresh(client) && client.Valid() && 0 in client.clients
    ensures client.clients[0].adsCallState.Some? && Streams(client.orphans, 0) == 1
  {
    client := WatchTwice(t, name, watcher);
    client.HandleAdsStreamEnd(0, Ended);
    if client.clients[0].adsCallState.None? {
      client.BackoffElapsed(0);
    }
  }
}
