/**
 The lifecycle manager inside the SiYuan plugin `PluginHighlight`
 (src/index.ts): the callback set, the registry of mounted Vue apps, the
 activity counter and the highlight-owner register, together with the part of
 the host they act on (the overlay nodes in the DOM, the event-bus calls and
 the `unmount` calls on apps), which is kept in fields of the same object.
 */
module Plugin {
  import opened Host
  import RefCount

  class PluginHighlight {
    // The plugin's own fields.
    var searchComponentCallbacks: set<Callback>
    var searchApps: map<Element, App>
    var activeSearchComponentsCount: int
    var lastHighlightComponent: Option<Element>

    // The host, abstracted: the DOM nodes carrying the marker class and where
    // they sit, the calls made on the event bus, the apps unmounted so far, and
    // the history of highlight claims.
    var overlays: map<Element, Slot>
    ghost var bus: seq<BusCall>
    ghost var unmounted: seq<App>
    ghost var claims: seq<Element>

    /**
     Every registered app has its overlay node in the DOM and vice versa; no
     two overlays share a place; every registry entry owns its own app, which
     has not been unmounted; no app is ever unmounted twice; the owner register
     holds the last claim.
     */
    ghost predicate Valid()
      reads this
    {
      && searchApps.Keys == overlays.Keys
      && SlotsUnique(overlays)
      && (forall e1, e2 :: e1 in searchApps && e2 in searchApps && e1 != e2 ==> searchApps[e1] != searchApps[e2])
      && (forall e :: e in searchApps ==> searchApps[e] !in unmounted)
      && Distinct(unmounted)
      && lastHighlightComponent == (if claims == [] then None else Some(claims[|claims| - 1]))
    }

    /** The part of the state the mount and unmount notifications act on. */
    ghost function Subscription(): RefCount.State
      reads this
    {
      RefCount.State(searchComponentCallbacks, activeSearchComponentsCount, bus)
    }

    constructor ()
      ensures Valid()
      ensures searchComponentCallbacks == {} && searchApps == map[] && activeSearchComponentsCount == 0 && lastHighlightComponent == None
      ensures overlays == map[] && bus == [] && unmounted == [] && claims == []
      ensures RefCount.Inv(Subscription())
    {
      searchComponentCallbacks := {};
      searchApps := map[];
      activeSearchComponentsCount := 0;
      lastHighlightComponent := None;
      overlays := map[];
      bus := [];
      unmounted := [];
      claims := [];
    }

    /** A search component has just painted the shared highlights: it becomes the owner. */
    method UpdateLastHighlightComponent(element: Element)
      requires Valid()
      modifies this`lastHighlightComponent, this`claims
      ensures Valid()
      ensures claims == old(claims) + [element]
      ensures GetLastHighlightComponent() == Some(element)
      ensures forall x :: IsLastHighlightComponent(x) <==> x == element
    {
      lastHighlightComponent := Some(element);
      claims := claims + [element];
    }

    /** The owner is the element of the latest claim, or none before any claim. */
    function GetLastHighlightComponent(): (r: Option<Element>)
      requires Valid()
      reads this
      ensures r == if claims == [] then None else Some(claims[|claims| - 1])
    {
      lastHighlightComponent
    }

    /** `element` is the owner iff it made the latest claim, whatever came before. */
    function IsLastHighlightComponent(element: Element): (r: bool)
      requires Valid()
      reads this
      ensures r <==> claims != [] && claims[|claims| - 1] == element
      ensures r <==> GetLastHighlightComponent() == Some(element)
    {
      lastHighlightComponent == Some(element)
    }

    /** A search component's mount hook: register, count, subscribe on the 0 to 1 edge. */
    method OnSearchComponentMounted(callback: Callback)
      requires Valid()
      modifies this`searchComponentCallbacks, this`activeSearchComponentsCount, this`bus
      ensures Valid()
      ensures Subscription() == RefCount.Mounted(old(Subscription()), callback)
      ensures searchComponentCallbacks == old(searchComponentCallbacks) + {callback}
      ensures activeSearchComponentsCount == old(activeSearchComponentsCount) + 1
      ensures bus == if activeSearchComponentsCount == 1 then old(bus) + [On(WsMain)] else old(bus)
      ensures RefCount.Inv(old(Subscription())) ==> RefCount.Inv(Subscription())
    {
      searchComponentCallbacks := searchComponentCallbacks + {callback};
      activeSearchComponentsCount := activeSearchComponentsCount + 1;
      if activeSearchComponentsCount == 1 {
        bus := bus + [On(WsMain)];
      }
      if RefCount.Inv(old(Subscription())) {
        RefCount.ApplyPreservesInv(old(Subscription()), RefCount.Mount(callback));
      }
    }

    /**
     A search component's unmount hook: forget the callback if one is given,
     decrement without a lower bound, unsubscribe on reaching 0.
     */
    method OnSearchComponentUnmounted(callback: Option<Callback>)
      requires Valid()
      modifies this`searchComponentCallbacks, this`activeSearchComponentsCount, this`bus
      ensures Valid()
      ensures Subscription() == RefCount.Unmounted(old(Subscription()), callback)
      ensures searchComponentCallbacks == if callback.Some? then old(searchComponentCallbacks) - {callback.value} else old(searchComponentCallbacks)
      ensures activeSearchComponentsCount == old(activeSearchComponentsCount) - 1
      ensures bus == if activeSearchComponentsCount == 0 then old(bus) + [Off(WsMain)] else old(bus)
      ensures RefCount.Inv(old(Subscription())) ==> RefCount.Inv(Subscription())
    {
      if callback.Some? {
        searchComponentCallbacks := searchComponentCallbacks - {callback.value};
      }
      activeSearchComponentsCount := activeSearchComponentsCount - 1;
      if activeSearchComponentsCount == 0 {
        bus := bus + [Off(WsMain)];
      }
      if RefCount.Inv(old(Subscription())) {
        RefCount.ApplyPreservesInv(old(Subscription()), RefCount.Unmount(callback));
      }
    }

    /** The dispatcher: every registered callback is invoked once with the event; nothing changes. */
    method HandleEventBusEvent<E(==)>(event: E) returns (calls: seq<Invocation<E>>)
      ensures forall i :: 0 <= i < |calls| ==> calls[i].event == event
      ensures Targets(calls) == searchComponentCallbacks
      ensures forall i, j :: 0 <= i < j < |calls| ==> calls[i].callback != calls[j].callback
    {
      var pending := searchComponentCallbacks;
      calls := [];
      while pending != {}
        invariant pending <= searchComponentCallbacks
        invariant forall i :: 0 <= i < |calls| ==> calls[i].event == event && calls[i].callback !in pending
        invariant Targets(calls) == searchComponentCallbacks - pending
        invariant forall i, j :: 0 <= i < j < |calls| ==> calls[i].callback != calls[j].callback
        decreases pending
      {
        var cb :| cb in pending;
        ghost var before := calls;
        calls := calls + [Invocation(cb, event)];
        pending := pending - {cb};
        assert calls[..|calls| - 1] == before;
      }
    }

    /**
     Close every search panel: each registered app is unmounted once, the
     registry is emptied, the counter is set to 0 and every overlay node is
     removed. The callback set and the event bus are not touched.
     */
    method CloseSearchDialog()
      requires Valid()
      modifies this`searchApps, this`activeSearchComponentsCount, this`overlays, this`unmounted
      ensures Valid()
      ensures searchApps == map[] && activeSearchComponentsCount == 0 && overlays == map[]
      ensures |unmounted| == |old(unmounted)| + |old(searchApps)|
      ensures unmounted[..|old(unmounted)|] == old(unmounted)
      ensures forall e :: e in old(searchApps) ==> old(searchApps)[e] in unmounted[|old(unmounted)|..]
      ensures forall a :: a in unmounted[|old(unmounted)|..] ==> a in old(searchApps).Values
      ensures Subscription() == RefCount.Reset(old(Subscription()))
    {
      ghost var s0 := Subscription();
      ghost var u0 := unmounted;
      var apps := searchApps;
      var keys := apps.Keys;
      while keys != {}
        modifies this`unmounted
        invariant keys <= apps.Keys
        invariant |unmounted| + |keys| == |u0| + |apps|
        invariant |u0| <= |unmounted| && unmounted[..|u0|] == u0
        invariant Distinct(unmounted)
        invariant forall e :: e in apps && e !in keys ==> apps[e] in unmounted[|u0|..]
        invariant forall a :: a in unmounted[|u0|..] ==> a in apps.Values
        invariant forall e :: e in keys ==> apps[e] !in unmounted
        decreases keys
      {
        var k :| k in keys;
        ghost var before := unmounted;
        unmounted := unmounted + [apps[k]];
        keys := keys - {k};
        assert unmounted[|u0|..] == before[|u0|..] + [apps[k]];
      }
      searchApps := map[];
      activeSearchComponentsCount := 0;
      RemoveAllOverlays();
      assert overlays.Keys == {} == searchApps.Keys;
      assert Subscription() == s0.(count := 0);
    }

    /** Remove every node carrying the marker class from the DOM. */
    method RemoveAllOverlays()
      modifies this`overlays
      ensures overlays == map[]
    {
      var existing := overlays.Keys;
      while existing != {}
        modifies this`overlays
        invariant existing == overlays.Keys
        decreases existing
      {
        var e :| e in existing;
        overlays := overlays - {e};
        existing := existing - {e};
      }
      assert forall e :: e !in overlays;
    }

    /**
     Close one search panel: unmount and forget the app registered for
     `element`, if any, and remove that node from the DOM. Every other entry
     and node, the counter and the callback set stay as they were; the
     panel's own unmount hook is a separate call.
     */
    method CloseCurrentSearchDialog(element: Element)
      requires Valid()
      modifies this`searchApps, this`overlays, this`unmounted
      ensures Valid()
      ensures searchApps == old(searchApps) - {element}
      ensures overlays == old(overlays) - {element}
      ensures unmounted == if element in old(searchApps) then old(unmounted) + [old(searchApps)[element]] else old(unmounted)
      ensures Subscription() == old(Subscription())
    {
      if element in searchApps {
        var app := searchApps[element];
        unmounted := unmounted + [app];
        searchApps := searchApps - {element};
      }
      overlays := overlays - {element};
    }

    /** Every target already finds a panel. */
    predicate Covered(isMobile: bool, edits: seq<Element>)
      reads this
    {
      forall c :: c in edits ==> Found(isMobile, overlays, c)
    }

    /**
     The body of the loop over the targets: if the lookup finds no panel,
     create an overlay node (a child of `edit` on desktop, the next sibling
     of `edit` on mobile), mount a new app into it and register it; otherwise
     only the existing panel's input is focused, which changes no state.
     */
    method OpenIn(isMobile: bool, edit: Element) returns (created: Option<Element>)
      requires Valid()
      modifies this`searchApps, this`overlays
      ensures Valid()
      ensures Found(isMobile, overlays, edit)
      ensures Found(isMobile, old(overlays), edit) <==> created == None
      ensures created == None ==> overlays == old(overlays) && searchApps == old(searchApps)
      ensures created.Some? ==>
                && fresh(created.value) && created.value !in old(overlays)
                && overlays == old(overlays)[created.value := SlotFor(isMobile, edit)]
                && Extends(old(searchApps), searchApps)
                && created.value in searchApps && fresh(searchApps[created.value])
    {
      var existing := Found(isMobile, overlays, edit);
      if existing {
        created := None;
      } else {
        var element := new Element();
        overlays := overlays[element := SlotFor(isMobile, edit)];
        var app := new App();
        searchApps := searchApps[element := app];
        created := Some(element);
        assert overlays[element] == SlotFor(isMobile, edit);
      }
    }

    /**
     Open a search panel in every target that has none; `edits` is the
     host's list of targets (the active tab containers on desktop, the
     editor on mobile). Returns the overlay nodes it created, each with its
     newly mounted app.
     */
    method AddSearchElement(isMobile: bool, edits: seq<Element>) returns (created: seq<Element>)
      requires Valid()
      modifies this`searchApps, this`overlays
      ensures Valid()
      ensures Grown(old(overlays), overlays, created)
      ensures Extends(old(searchApps), searchApps)
      ensures Covered(isMobile, edits)
      ensures old(Covered(isMobile, edits)) <==> created == []
      ensures created == [] ==> overlays == old(overlays) && searchApps == old(searchApps)
      ensures !isMobile ==> forall o :: o in created ==>
                overlays[o].Inside? && overlays[o].container in edits && !HasOverlayIn(old(overlays), overlays[o].container)
      ensures isMobile ==> |created| == (if old(overlays) == map[] && edits != [] then 1 else 0)
      ensures isMobile && created != [] ==> overlays[created[0]] == After(edits[0])
    {
      created := [];
      ghost var o0, a0 := overlays, searchApps;
      OpenProgressStart(isMobile, o0, edits);
      for i := 0 to |edits|
        invariant Valid()
        invariant OpenProgress(isMobile, o0, overlays, created, edits, i)
        invariant Extends(a0, searchApps)
        invariant created == [] ==> searchApps == a0
      {
        ghost var o, a := overlays, searchApps;
        var n := OpenIn(isMobile, edits[i]);
        if n.Some? {
          OpenProgressAdd(isMobile, o0, o, created, edits, i, n.value);
          created := created + [n.value];
        } else {
          OpenProgressKeep(isMobile, o0, o, created, edits, i);
        }
      }
      assert edits[..|edits|] == edits;
      assert old(Covered(isMobile, edits)) <==> forall j :: 0 <= j < |edits| ==> Found(isMobile, o0, edits[j]);
    }
  }
}
