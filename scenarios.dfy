/**
 Clients of `PluginHighlight` that play the roles the Vue search component
 and the host play at run time: opening panels, the component's mount and
 unmount hooks, closing panels and claiming the highlights. Each proves,
 from the class's contracts alone, what the sequence of calls leaves behind.
 */
module Scenarios {
  import opened Host
  import opened Plugin

  /**
   A close of one panel as it happens at run time: `closeCurrentSearchDialog`
   unmounts the app, whose unmount hook then reports the component's callback.
   The other panels, their nodes and their callbacks are untouched and the
   counter drops by exactly one.
   */
  method CloseOneAndNotify(p: PluginHighlight, element: Element, callback: Callback)
    requires p.Valid()
    modifies p
    ensures p.Valid()
    ensures p.searchApps == old(p.searchApps) - {element}
    ensures p.overlays == old(p.overlays) - {element}
    ensures p.searchComponentCallbacks == old(p.searchComponentCallbacks) - {callback}
    ensures p.activeSearchComponentsCount == old(p.activeSearchComponentsCount) - 1
    ensures p.bus == if p.activeSearchComponentsCount == 0 then old(p.bus) + [Off(WsMain)] else old(p.bus)
    ensures p.lastHighlightComponent == old(p.lastHighlightComponent)
  {
    p.CloseCurrentSearchDialog(element);
    p.OnSearchComponentUnmounted(Some(callback));
  }

  /** Opening a single desktop pane that has no panel creates exactly one node, inside it. */
  method OpenOne(p: PluginHighlight, pane: Element) returns (e: Element)
    requires p.Valid() && !HasOverlayIn(p.overlays, pane)
    modifies p
    ensures p.Valid()
    ensures e !in old(p.overlays) && p.overlays == old(p.overlays)[e := Inside(pane)]
    ensures e in p.searchApps && Extends(old(p.searchApps), p.searchApps)
    ensures p.searchApps.Keys == old(p.searchApps.Keys) + {e}
    ensures p.searchComponentCallbacks == old(p.searchComponentCallbacks) && p.activeSearchComponentsCount == old(p.activeSearchComponentsCount)
    ensures p.bus == old(p.bus) && p.unmounted == old(p.unmounted) && p.lastHighlightComponent == old(p.lastHighlightComponent)
  {
    assert pane in [pane] && !Found(false, p.overlays, pane);
    assert !p.Covered(false, [pane]);
    var created := p.AddSearchElement(false, [pane]);
    assert created != [];
    e := created[0];
    SameSlotSameNode(p.overlays, e, created[|created| - 1]);
    assert created == [e];
    assert p.overlays == old(p.overlays)[e := Inside(pane)];
  }

  /**
   Opening a desktop pane that has no panel, followed by the new component's
   mount hook with its callback.
   */
  method OpenAndMount(p: PluginHighlight, pane: Element) returns (e: Element, cb: Callback)
    requires p.Valid() && !HasOverlayIn(p.overlays, pane)
    modifies p
    ensures p.Valid() && fresh(cb)
    ensures e !in old(p.overlays) && p.overlays == old(p.overlays)[e := Inside(pane)]
    ensures p.searchApps.Keys == old(p.searchApps.Keys) + {e}
    ensures p.searchComponentCallbacks == old(p.searchComponentCallbacks) + {cb}
    ensures p.activeSearchComponentsCount == old(p.activeSearchComponentsCount) + 1
    ensures p.bus == if p.activeSearchComponentsCount == 1 then old(p.bus) + [On(WsMain)] else old(p.bus)
  {
    e := OpenOne(p, pane);
    cb := new Callback();
    p.OnSearchComponentMounted(cb);
  }

  /**
   Two editing panes: open search in the first, then in the second, close
   the first panel, then the second. The event bus sees exactly one `on`
   and one `off`, the counter is back at 0 and nothing is left registered.
   */
  method TwoPanes(pane1: Element, pane2: Element) returns (p: PluginHighlight)
    requires pane1 != pane2
    ensures fresh(p) && p.Valid()
    ensures p.bus == [On(WsMain), Off(WsMain)]
    ensures p.activeSearchComponentsCount == 0 && p.searchComponentCallbacks == {}
    ensures p.searchApps == map[] && p.overlays == map[]
  {
    p := new PluginHighlight();
    var e1, cb1 := OpenAndMount(p, pane1);
    assert p.activeSearchComponentsCount == 1 && p.bus == [On(WsMain)];
    assert p.overlays == map[e1 := Inside(pane1)];
    var e2, cb2 := OpenAndMount(p, pane2);
    assert p.activeSearchComponentsCount == 2 && p.bus == [On(WsMain)];
    assert p.overlays.Keys == {e1, e2} && p.searchComponentCallbacks == {cb1, cb2} && cb1 != cb2;

    CloseOneAndNotify(p, e1, cb1);
    assert p.activeSearchComponentsCount == 1 && p.bus == [On(WsMain)] && p.searchComponentCallbacks == {cb2};

    CloseOneAndNotify(p, e2, cb2);
    assert p.searchApps.Keys == {} && p.overlays.Keys == {};
  }

  /**
   Calling the open operation twice in a row: the second call creates
   nothing and leaves the registry and the DOM as the first call left them.
   */
  method OpenTwice(p: PluginHighlight, isMobile: bool, edits: seq<Element>)
    returns (first: seq<Element>, second: seq<Element>, ghost once: map<Element, Slot>, ghost onceApps: map<Element, App>)
    requires p.Valid()
    modifies p
    ensures p.Valid()
    ensures second == []
    ensures p.overlays == once && p.searchApps == onceApps
    ensures Grown(old(p.overlays), once, first)
  {
    first := p.AddSearchElement(isMobile, edits);
    once, onceApps := p.overlays, p.searchApps;
    second := p.AddSearchElement(isMobile, edits);
  }

  /**
   Three panels paint in the order a, b, c: the owner is c and only c
   passes the ownership test, whatever a and b are.
   */
  method ClaimInOrder(a: Element, b: Element, c: Element) returns (owner: Option<Element>, aOwns: bool, bOwns: bool, cOwns: bool)
    ensures owner == Some(c)
    ensures cOwns && (aOwns <==> a == c) && (bOwns <==> b == c)
  {
    var p := new PluginHighlight();
    p.UpdateLastHighlightComponent(a);
    p.UpdateLastHighlightComponent(b);
    p.UpdateLastHighlightComponent(c);
    owner := p.GetLastHighlightComponent();
    aOwns := p.IsLastHighlightComponent(a);
    bOwns := p.IsLastHighlightComponent(b);
    cOwns := p.IsLastHighlightComponent(c);
  }
}
