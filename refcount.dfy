/**
 The reference-counted subscription of `PluginHighlight` as pure state:
 the callback set, the activity counter and the log of event-bus calls.
 The class methods `OnSearchComponentMounted`, `OnSearchComponentUnmounted`
 and `CloseSearchDialog` are specified by `Mounted`, `Unmounted` and `Reset`;
 the lemmas here say what any sequence of such notifications does.
 */
module RefCount {
  import opened Host

  datatype State = State(callbacks: set<Callback>, count: int, bus: seq<BusCall>)

  /** A notification a search component sends from its mount or unmount hook. */
  datatype Notification = Mount(cb: Callback) | Unmount(given: Option<Callback>)

  /** `onSearchComponentMounted`: add, increment, subscribe on reaching 1. */
  function Mounted(s: State, cb: Callback): (r: State)
    ensures r.callbacks == s.callbacks + {cb} && r.count == s.count + 1
    ensures r.bus == s.bus || r.bus == s.bus + [On(WsMain)]
    ensures r.bus != s.bus <==> s.count == 0
  {
    var n := s.count + 1;
    State(s.callbacks + {cb}, n, if n == 1 then s.bus + [On(WsMain)] else s.bus)
  }

  /** `onSearchComponentUnmounted`: remove if given, decrement (no floor), unsubscribe on reaching 0. */
  function Unmounted(s: State, cb: Option<Callback>): (r: State)
    ensures r.callbacks <= s.callbacks
    ensures cb.Some? ==> cb.value !in r.callbacks
    ensures forall c :: c in s.callbacks && cb != Some(c) ==> c in r.callbacks
    ensures r.count == s.count - 1
    ensures r.bus == s.bus || r.bus == s.bus + [Off(WsMain)]
    ensures r.bus != s.bus <==> s.count == 1
  {
    var n := s.count - 1;
    State(if cb.Some? then s.callbacks - {cb.value} else s.callbacks, n,
          if n == 0 then s.bus + [Off(WsMain)] else s.bus)
  }

  /** What `closeSearchDialog` does to this state: the counter is set to 0, nothing else. */
  function Reset(s: State): (r: State)
    ensures r.count == 0 && r.callbacks == s.callbacks && r.bus == s.bus
  {
    s.(count := 0)
  }

  function Apply(s: State, n: Notification): State
  {
    match n
    case Mount(cb) => Mounted(s, cb)
    case Unmount(cb) => Unmounted(s, cb)
  }

  function Run(s: State, ns: seq<Notification>): State
    decreases |ns|
  {
    if ns == [] then s else Run(Apply(s, ns[0]), ns[1..])
  }

  function Mounts(cbs: seq<Callback>): seq<Notification>
  {
    if cbs == [] then [] else [Mount(cbs[0])] + Mounts(cbs[1..])
  }

  /** The unmount notifications of a run of hooks, each with or without its callback. */
  function Unmounts(us: seq<Option<Callback>>): seq<Notification>
  {
    if us == [] then [] else [Unmount(us[0])] + Unmounts(us[1..])
  }

  /** The callbacks a run of unmount notifications names. */
  function Given(us: seq<Option<Callback>>): set<Callback>
  {
    if us == [] then {} else (if us[0].Some? then {us[0].value} else {}) + Given(us[1..])
  }

  /** The dispatcher is attached: the last bus call was `on`. */
  predicate Subscribed(bus: seq<BusCall>)
  {
    |bus| > 0 && bus[|bus| - 1] == On(WsMain)
  }

  /** The bus log is on, off, on, off, ...: never two subscriptions or two unsubscriptions in a row. */
  predicate Alternating(bus: seq<BusCall>)
  {
    forall i :: 0 <= i < |bus| ==> bus[i] == if i % 2 == 0 then On(WsMain) else Off(WsMain)
  }

  /** The ref-count invariant: calls alternate, and the dispatcher is attached iff the counter is positive. */
  predicate Inv(s: State)
  {
    Alternating(s.bus) && (Subscribed(s.bus) <==> s.count > 0)
  }

  lemma AlternatingParity(bus: seq<BusCall>)
    requires Alternating(bus)
    ensures Subscribed(bus) <==> |bus| % 2 == 1
  {
    if |bus| > 0 {
      assert bus[|bus| - 1] == if (|bus| - 1) % 2 == 0 then On(WsMain) else Off(WsMain);
    }
  }

  /** One mount or unmount notification keeps the invariant, even when the counter goes below 0. */
  lemma ApplyPreservesInv(s: State, n: Notification)
    requires Inv(s)
    ensures Inv(Apply(s, n))
  {
    AlternatingParity(s.bus);
    var t := Apply(s, n);
    if |t.bus| > |s.bus| {
      assert t.bus == s.bus + [t.bus[|s.bus|]];
      AlternatingParity(t.bus);
    }
  }

  /** The invariant holds after every sequence of notifications. */
  lemma {:induction false} RunPreservesInv(s: State, ns: seq<Notification>)
    requires Inv(s)
    ensures Inv(Run(s, ns))
    decreases |ns|
  {
    if ns != [] {
      ApplyPreservesInv(s, ns[0]);
      RunPreservesInv(Apply(s, ns[0]), ns[1..]);
    }
  }

  lemma {:induction false} RunAppend(s: State, a: seq<Notification>, b: seq<Notification>)
    ensures Run(s, a + b) == Run(Run(s, a), b)
    decreases |a|
  {
    if a == [] {
      assert a + b == b;
    } else {
      assert (a + b)[0] == a[0];
      assert (a + b)[1..] == a[1..] + b;
      RunAppend(Apply(s, a[0]), a[1..], b);
    }
  }

  /** A run of mounts from a non-negative counter subscribes once, and only if it starts at 0. */
  lemma {:induction false} MountsRun(s: State, cbs: seq<Callback>)
    requires s.count >= 0
    ensures Run(s, Mounts(cbs)).count == s.count + |cbs|
    ensures Run(s, Mounts(cbs)).callbacks == s.callbacks + set c | c in cbs
    ensures Run(s, Mounts(cbs)).bus == s.bus + if s.count == 0 && cbs != [] then [On(WsMain)] else []
    decreases |cbs|
  {
    if cbs != [] {
      var t := Mounted(s, cbs[0]);
      MountsRun(t, cbs[1..]);
      assert (set c | c in cbs) == {cbs[0]} + set c | c in cbs[1..];
    }
  }

  /** A run of unmounts that does not take the counter below 0 unsubscribes once, and only if it ends at 0. */
  lemma {:induction false} UnmountsRun(s: State, us: seq<Option<Callback>>)
    requires s.count >= |us|
    ensures Run(s, Unmounts(us)).count == s.count - |us|
    ensures Run(s, Unmounts(us)).callbacks == s.callbacks - Given(us)
    ensures Run(s, Unmounts(us)).bus == s.bus + if s.count == |us| && us != [] then [Off(WsMain)] else []
    decreases |us|
  {
    if us != [] {
      var t := Unmounted(s, us[0]);
      UnmountsRun(t, us[1..]);
      assert t.callbacks == s.callbacks - (if us[0].Some? then {us[0].value} else {});
    }
  }

  function MountThenUnmount(cbs: seq<Callback>, us: seq<Option<Callback>>): seq<Notification>
  {
    Mounts(cbs) + Unmounts(us)
  }

  /**
   n mounts followed by any n unmounts, from a counter of 0, make exactly one
   `on` and one `off` call (none when n is 0) and return the counter to 0,
   whatever callbacks the unmount hooks pass, in whatever order, and whether
   they pass one at all. The callbacks left registered are the old ones plus
   the mounted ones minus those the unmounts named; in every state along the
   way in which the counter is positive the dispatcher is attached.
   */
  lemma BalancedRun(s: State, cbs: seq<Callback>, us: seq<Option<Callback>>)
    requires Inv(s) && s.count == 0 && |us| == |cbs|
    ensures Run(s, MountThenUnmount(cbs, us)).count == 0
    ensures Run(s, MountThenUnmount(cbs, us)).callbacks == (s.callbacks + set c | c in cbs) - Given(us)
    ensures Run(s, MountThenUnmount(cbs, us)).bus == s.bus + if cbs == [] then [] else [On(WsMain), Off(WsMain)]
    ensures forall k :: 0 <= k <= |MountThenUnmount(cbs, us)| ==>
              (Run(s, MountThenUnmount(cbs, us)[..k]).count > 0 ==> Subscribed(Run(s, MountThenUnmount(cbs, us)[..k]).bus))
  {
    var ns := MountThenUnmount(cbs, us);
    RunAppend(s, Mounts(cbs), Unmounts(us));
    MountsRun(s, cbs);
    var mid := Run(s, Mounts(cbs));
    UnmountsRun(mid, us);
    forall k | 0 <= k <= |ns|
      ensures Run(s, ns[..k]).count > 0 ==> Subscribed(Run(s, ns[..k]).bus)
    {
      RunPreservesInv(s, ns[..k]);
    }
  }

  /**
   A stray unmount notification at counter 0 takes the counter to -1 without
   an `off`; the next component to mount then brings it back to 0 and does
   not subscribe, although its callback is registered.
   */
  lemma StrayUnmountSkipsSubscribe(s: State, cb: Callback)
    requires Inv(s) && s.count == 0
    ensures Unmounted(s, None).count == -1 && Unmounted(s, None).bus == s.bus
    ensures Mounted(Unmounted(s, None), cb).count == 0
    ensures cb in Mounted(Unmounted(s, None), cb).callbacks
    ensures !Subscribed(Mounted(Unmounted(s, None), cb).bus)
  {
  }

  /**
   `closeSearchDialog` on its own, while components are active, leaves the
   dispatcher attached with the counter at 0; the next mount then calls `on`
   a second time without an `off` in between.
   */
  lemma ResetWhileActive(s: State, cb: Callback)
    requires Inv(s) && s.count > 0
    ensures Reset(s).count == 0 && Subscribed(Reset(s).bus) && !Inv(Reset(s))
    ensures Mounted(Reset(s), cb).bus == s.bus + [On(WsMain)]
    ensures !Alternating(Mounted(Reset(s), cb).bus)
  {
    var b := Mounted(Reset(s), cb).bus;
    assert b[|b| - 2] == On(WsMain) && b[|b| - 1] == On(WsMain);
    AlternatingParity(s.bus);
  }

  /**
   When the unmount hook of each of the `count` active components runs before
   the counter is reset (as happens when `app.unmount()` fires them), the
   last hook unsubscribes, the reset changes nothing, and the invariant holds.
   */
  lemma HooksThenReset(s: State, us: seq<Option<Callback>>)
    requires Inv(s) && s.count == |us|
    ensures Reset(Run(s, Unmounts(us))) == Run(s, Unmounts(us))
    ensures Inv(Reset(Run(s, Unmounts(us))))
    ensures !Subscribed(Reset(Run(s, Unmounts(us))).bus)
  {
    UnmountsRun(s, us);
    RunPreservesInv(s, Unmounts(us));
  }
}
