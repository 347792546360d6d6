/**
 The host environment of the search-and-highlight plugin, reduced to what the
 lifecycle manager observes: DOM elements and Vue applications as opaque
 objects, the callbacks of the mounted search components, the calls made on
 the host's event bus, and the overlay nodes the plugin has put into the DOM.
 */
module Host {

  /** A DOM element. Only its identity matters to the manager. */
  class Element {
    constructor () { }
  }

  /** A mounted Vue application. It is opaque; its only use is `unmount`. */
  class App {
    constructor () { }
  }

  /** The event callback a search component registers. Identity, as in a JS `Set`. */
  class Callback {
    constructor () { }
  }

  datatype Option<+T> = None | Some(value: T)

  /** The marker class every overlay node carries (`CLASS_NAME`). */
  const ClassName: string := "highlight-search-result"

  /** The event-bus topic the manager subscribes its dispatcher to. */
  const WsMain: string := "ws-main"

  /** One call on the host's event bus, always with the manager's single dispatcher. */
  datatype BusCall = On(topic: string) | Off(topic: string)

  /**
   Where an overlay node sits in the DOM: appended as the last child of a tab
   container (desktop), or inserted right after the editor (mobile).
   */
  datatype Slot = Inside(container: Element) | After(editor: Element)

  /** One invocation of a registered callback with an event. */
  datatype Invocation<E> = Invocation(callback: Callback, event: E)

  /**
   The desktop lookup `container.querySelector(".highlight-search-result")`:
   does some overlay node sit inside `container`?
   */
  predicate HasOverlayIn(overlays: map<Element, Slot>, container: Element)
  {
    exists o :: o in overlays && overlays[o] == Inside(container)
  }

  /** No two overlay nodes occupy the same place. */
  ghost predicate SlotsUnique(overlays: map<Element, Slot>)
  {
    forall o1, o2 :: o1 in overlays && o2 in overlays && o1 != o2 ==> overlays[o1] != overlays[o2]
  }

  lemma SameSlotSameNode(overlays: map<Element, Slot>, o1: Element, o2: Element)
    requires SlotsUnique(overlays) && o1 in overlays && o2 in overlays
    ensures overlays[o1] == overlays[o2] ==> o1 == o2
  {
  }

  ghost predicate Distinct<T>(s: seq<T>)
  {
    forall i, j :: 0 <= i < j < |s| ==> s[i] != s[j]
  }

  /** The callbacks a sequence of invocations reaches. */
  function Targets<E>(calls: seq<Invocation<E>>): set<Callback>
  {
    if calls == [] then {} else Targets(calls[..|calls| - 1]) + {calls[|calls| - 1].callback}
  }

  /**
   The lookup for an existing panel before opening one for `edit`: inside
   `edit` on desktop; anywhere in the document on mobile.
   */
  predicate Found(isMobile: bool, overlays: map<Element, Slot>, edit: Element)
  {
    if isMobile then overlays != map[] else HasOverlayIn(overlays, edit)
  }

  /** Where a new overlay for `edit` goes. */
  function SlotFor(isMobile: bool, edit: Element): Slot
  {
    if isMobile then After(edit) else Inside(edit)
  }

  /** `m` keeps every entry of `m0`. */
  ghost predicate Extends<V>(m0: map<Element, V>, m: map<Element, V>)
  {
    forall e :: e in m0 ==> e in m && m[e] == m0[e]
  }

  /** `o` is `o0` with the distinct new nodes `created` added. */
  ghost predicate Grown(o0: map<Element, Slot>, o: map<Element, Slot>, created: seq<Element>)
  {
    && Extends(o0, o)
    && (forall e :: e in o ==> e in o0 || e in created)
    && (forall j :: 0 <= j < |created| ==> created[j] in o && created[j] !in o0)
    && Distinct(created)
  }

  /**
   After the first `i` targets of `edits` have been handled, starting from
   the overlays `o0`: each of them finds a panel; nodes were created only if
   one of them found none; on desktop each new node sits inside a target
   that had no panel; on mobile at most one node was created, after the
   first target, and only if the document had no panel.
   */
  ghost predicate OpenProgress(isMobile: bool, o0: map<Element, Slot>, o: map<Element, Slot>,
                               created: seq<Element>, edits: seq<Element>, i: nat)
  {
    && i <= |edits|
    && Grown(o0, o, created)
    && (forall j :: 0 <= j < i ==> Found(isMobile, o, edits[j]))
    && (created == [] <==> forall j :: 0 <= j < i ==> Found(isMobile, o0, edits[j]))
    && (created == [] ==> o == o0)
    && (!isMobile ==> forall e :: e in created ==>
          e in o && o[e].Inside? && o[e].container in edits[..i] && !HasOverlayIn(o0, o[e].container))
    && (isMobile ==> |created| == (if o0 == map[] && i > 0 then 1 else 0))
    && (isMobile && created != [] ==> created[0] in o && o[created[0]] == After(edits[0]))
  }

  lemma OpenProgressStart(isMobile: bool, o0: map<Element, Slot>, edits: seq<Element>)
    ensures OpenProgress(isMobile, o0, o0, [], edits, 0)
  {
  }

  /** Adding entries never hides a panel that a lookup already finds. */
  lemma FoundExtends(isMobile: bool, o: map<Element, Slot>, o': map<Element, Slot>, edit: Element)
    requires Extends(o, o')
    ensures Found(isMobile, o, edit) ==> Found(isMobile, o', edit)
  {
    if Found(isMobile, o, edit) {
      if !isMobile {
        var w :| w in o && o[w] == Inside(edit);
        assert w in o' && o'[w] == Inside(edit);
      } else {
        var w :| w in o;
        assert w in o';
      }
    }
  }

  /** Handling target `i` when the lookup finds a panel: nothing is added. */
  lemma OpenProgressKeep(isMobile: bool, o0: map<Element, Slot>, o: map<Element, Slot>,
                         created: seq<Element>, edits: seq<Element>, i: nat)
    requires OpenProgress(isMobile, o0, o, created, edits, i) && i < |edits|
    requires Found(isMobile, o, edits[i])
    ensures OpenProgress(isMobile, o0, o, created, edits, i + 1)
  {
    assert edits[..i + 1] == edits[..i] + [edits[i]];
    if created == [] {
      assert o == o0;
    }
  }

  /** Handling target `i` when the lookup finds no panel: the new node `n` is added in its slot. */
  lemma OpenProgressAdd(isMobile: bool, o0: map<Element, Slot>, o: map<Element, Slot>,
                        created: seq<Element>, edits: seq<Element>, i: nat, n: Element)
    requires OpenProgress(isMobile, o0, o, created, edits, i) && i < |edits|
    requires !Found(isMobile, o, edits[i]) && n !in o
    ensures OpenProgress(isMobile, o0, o[n := SlotFor(isMobile, edits[i])], created + [n], edits, i + 1)
  {
    assert edits[..i + 1] == edits[..i] + [edits[i]];
    var o' := o[n := SlotFor(isMobile, edits[i])];
    var c' := created + [n];
    assert Extends(o, o');
    forall j | 0 <= j < i + 1
      ensures Found(isMobile, o', edits[j])
    {
      FoundExtends(isMobile, o, o', edits[j]);
      assert o'[n] == SlotFor(isMobile, edits[i]);
    }
    FoundExtends(isMobile, o0, o, edits[i]);
    assert !(forall j :: 0 <= j < i + 1 ==> Found(isMobile, o0, edits[j]));
    if isMobile {
      assert created == [];
    } else {
      forall e | e in c'
        ensures e in o' && o'[e].Inside? && o'[e].container in edits[..i + 1] && !HasOverlayIn(o0, o'[e].container)
      {
      }
    }
  }
}
