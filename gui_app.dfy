/** The desktop client's bookkeeping: the open windows with their ids, the
    queue of window events, and the table of API requests seen on the wire
    with their state. The drawing is not part of this model. */
module GuiApp {
  import opened Wrappers
  import opened Strings
  import opened Clock

  /** egui derives a window's id from a string; the string stands for it. */
  type WindowId = string

  /** A window, seen only through its title and how often its `on_spawn` hook
      ran. */
  datatype Window = Window(title: string, spawns: nat)

  datatype AppEvent = SpawnWindow(window: Window) | PopWindow(id: WindowId)

  /** An API request, seen through its URL. */
  type Request = string

  /** `RequestState`: waiting since an instant, or answered with a status code
      after a duration in nanoseconds. */
  datatype RequestState =
    | Pending(req: Request, startedAt: int)
    | Finished(req: Request, code: nat, duration: nat)

  // ---------------------------------------------------------------------------
  // windows
  // ---------------------------------------------------------------------------

  function OnSpawn(w: Window): Window {
    w.(spawns := w.spawns + 1)
  }

  /** The id of the window opened when the counter stood at `c`. */
  function WindowName(c: nat): WindowId {
    "window-" + NatToString(c)
  }

  lemma WindowNameInjective(a: nat, b: nat)
    requires WindowName(a) == WindowName(b)
    ensures a == b
  {
    assert WindowName(a)[7..] == NatToString(a);
    assert WindowName(b)[7..] == NatToString(b);
    NatToStringInjective(a, b);
  }

  /** No two windows share an id, and no id is one the counter has still to
      hand out. */
  ghost predicate WindowsOk(ws: seq<(WindowId, Window)>, counter: nat) {
    && (forall i, j :: 0 <= i < j < |ws| ==> ws[i].0 != ws[j].0)
    && (forall i, c :: 0 <= i < |ws| && counter <= c ==> ws[i].0 != WindowName(c))
  }

  /** `add_boxed_window` on values: the window, after its `on_spawn` hook,
      goes last under the counter's id, and the counter moves on. */
  function AddWindow(ws: seq<(WindowId, Window)>, counter: nat, w: Window): (seq<(WindowId, Window)>, nat) {
    (ws + [(WindowName(counter), OnSpawn(w))], counter + 1)
  }

  /** Opening a window keeps the ids apart. */
  lemma AddWindowKeepsOk(ws: seq<(WindowId, Window)>, counter: nat, w: Window)
    requires WindowsOk(ws, counter)
    ensures WindowsOk(AddWindow(ws, counter, w).0, AddWindow(ws, counter, w).1)
  {
    var (ws', c') := AddWindow(ws, counter, w);
    forall i, c | 0 <= i < |ws'| && c' <= c ensures ws'[i].0 != WindowName(c) {
      if i == |ws| && ws'[i].0 == WindowName(c) {
        WindowNameInjective(counter, c);
      }
    }
  }

  /** The first window with the id, as the search in `process_events` finds
      it. */
  function FindWindow(ws: seq<(WindowId, Window)>, id: WindowId): (r: Option<nat>)
    ensures r.Some? ==> r.value < |ws| && ws[r.value].0 == id
    ensures r.Some? ==> forall k :: 0 <= k < r.value ==> ws[k].0 != id
    ensures r.None? ==> forall k :: 0 <= k < |ws| ==> ws[k].0 != id
    decreases |ws|
  {
    if ws == [] then None
    else if ws[0].0 == id then Some(0)
    else match FindWindow(ws[1..], id)
      case None => None
      case Some(k) => Some(k + 1)
  }

  /** `Vec::swap_remove`: the last element takes the place of the one removed. */
  function SwapRemove<T>(s: seq<T>, i: nat): (r: seq<T>)
    requires i < |s|
    ensures |r| == |s| - 1
    ensures forall k :: 0 <= k < |r| && k != i ==> r[k] == s[k]
    ensures i < |r| ==> r[i] == s[|s| - 1]
  {
    s[i := s[|s| - 1]][..|s| - 1]
  }

  /** Exactly the one element goes. */
  lemma SwapRemoveMultiset<T>(s: seq<T>, i: nat)
    requires i < |s|
    ensures multiset(SwapRemove(s, i)) == multiset(s) - multiset{s[i]}
  {
    var n := |s| - 1;
    if i == n {
      assert s == s[..n] + [s[n]];
      assert SwapRemove(s, i) == s[..n];
    } else {
      assert s == s[..i] + [s[i]] + s[i + 1..n] + [s[n]];
      assert SwapRemove(s, i) == s[..i] + [s[n]] + s[i + 1..n];
    }
  }

  /** One event: a spawn opens the window; a pop removes the window with the
      id, or panics (`None`) when there is none. */
  function Step(ws: seq<(WindowId, Window)>, counter: nat, e: AppEvent): Option<(seq<(WindowId, Window)>, nat)> {
    match e
    case SpawnWindow(w) => Some(AddWindow(ws, counter, w))
    case PopWindow(id) =>
      match FindWindow(ws, id)
      case None => None
      case Some(i) => Some((SwapRemove(ws, i), counter))
  }

  /** The events handled in queue order; `None` when one of them panics. */
  function ApplyEvents(ws: seq<(WindowId, Window)>, counter: nat, events: seq<AppEvent>): Option<(seq<(WindowId, Window)>, nat)>
    decreases |events|
  {
    if events == [] then Some((ws, counter))
    else
      match Step(ws, counter, events[0])
      case None => None
      case Some((ws', c')) => ApplyEvents(ws', c', events[1..])
  }

  /** The events from `i` on are the event at `i` and then the rest. */
  lemma ApplyEventsUnfold(ws: seq<(WindowId, Window)>, counter: nat, events: seq<AppEvent>, i: nat)
    requires i < |events|
    ensures ApplyEvents(ws, counter, events[i..]) ==
              match Step(ws, counter, events[i])
              case None => None
              case Some((ws', c')) => ApplyEvents(ws', c', events[i + 1..])
  {
    assert events[i..][0] == events[i] && events[i..][1..] == events[i + 1..];
  }

  /** Popping a window whose id is open removes that window and no other, and
      the id is then gone; popping an id that is not open panics. */
  lemma PopRemovesWindow(ws: seq<(WindowId, Window)>, counter: nat, id: WindowId)
    requires WindowsOk(ws, counter)
    ensures Step(ws, counter, PopWindow(id)).None? <==> forall k :: 0 <= k < |ws| ==> ws[k].0 != id
    ensures Step(ws, counter, PopWindow(id)).Some? ==>
              var (ws', c') := Step(ws, counter, PopWindow(id)).value;
              var i := FindWindow(ws, id).value;
              && c' == counter
              && multiset(ws') == multiset(ws) - multiset{ws[i]}
              && (forall k :: 0 <= k < |ws'| ==> ws'[k].0 != id)
  {
    match FindWindow(ws, id)
    case None =>
    case Some(i) =>
      SwapRemoveMultiset(ws, i);
      var ws' := SwapRemove(ws, i);
      forall k | 0 <= k < |ws'| ensures ws'[k].0 != id {
        if k == i {
          assert ws'[k] == ws[|ws| - 1];
        } else {
          assert ws'[k] == ws[k];
        }
      }
  }

  /** Every event keeps the ids apart. */
  lemma StepKeepsOk(ws: seq<(WindowId, Window)>, counter: nat, e: AppEvent)
    requires WindowsOk(ws, counter) && Step(ws, counter, e).Some?
    ensures WindowsOk(Step(ws, counter, e).value.0, Step(ws, counter, e).value.1)
  {
    match e
    case SpawnWindow(w) => AddWindowKeepsOk(ws, counter, w);
    case PopWindow(id) =>
      var i := FindWindow(ws, id).value;
      var ws' := SwapRemove(ws, i);
      forall a, b | 0 <= a < b < |ws'| ensures ws'[a].0 != ws'[b].0 {
        var a0 := if a == i then |ws| - 1 else a;
        var b0 := if b == i then |ws| - 1 else b;
        assert ws'[a] == ws[a0] && ws'[b] == ws[b0];
      }
      forall k, c | 0 <= k < |ws'| && counter <= c ensures ws'[k].0 != WindowName(c) {
        var k0 := if k == i then |ws| - 1 else k;
        assert ws'[k] == ws[k0];
      }
  }

  /** However long the queue, window ids stay pairwise distinct. */
  lemma {:induction false} ApplyKeepsOk(ws: seq<(WindowId, Window)>, counter: nat, events: seq<AppEvent>)
    requires WindowsOk(ws, counter) && ApplyEvents(ws, counter, events).Some?
    ensures WindowsOk(ApplyEvents(ws, counter, events).value.0, ApplyEvents(ws, counter, events).value.1)
    decreases |events|
  {
    if events != [] {
      StepKeepsOk(ws, counter, events[0]);
      var (ws', c') := Step(ws, counter, events[0]).value;
      ApplyKeepsOk(ws', c', events[1..]);
    }
  }

  /** The queue is handled in order: handling it in two parts is handling it
      whole. */
  lemma {:induction false} ApplyEventsAppend(ws: seq<(WindowId, Window)>, counter: nat, e1: seq<AppEvent>, e2: seq<AppEvent>)
    requires ApplyEvents(ws, counter, e1).Some?
    ensures ApplyEvents(ws, counter, e1 + e2)
         == ApplyEvents(ApplyEvents(ws, counter, e1).value.0, ApplyEvents(ws, counter, e1).value.1, e2)
    decreases |e1|
  {
    if e1 == [] {
      assert e1 + e2 == e2;
    } else {
      assert (e1 + e2)[0] == e1[0] && (e1 + e2)[1..] == e1[1..] + e2;
      var (ws', c') := Step(ws, counter, e1[0]).value;
      ApplyEventsAppend(ws', c', e1[1..], e2);
    }
  }

  // ---------------------------------------------------------------------------
  // requests
  // ---------------------------------------------------------------------------

  /** The new requests, each `(id, request, clock at insertion)`, entered as
      pending in order, each replacing any entry under its id. */
  function Inserted(m: map<nat, RequestState>, received: seq<(nat, Request, int)>): map<nat, RequestState>
    decreases |received|
  {
    if received == [] then m
    else
      var (id, req, now) := received[0];
      Inserted(m[id := Pending(req, now)], received[1..])
  }

  /** One status `(id, code, clock at the update)`: a pending request is
      finished with the code and the time since it started; a finished one is
      left as it was; an unknown id panics (`None`). */
  function StatusStep(m: map<nat, RequestState>, status: (nat, nat, int)): Option<map<nat, RequestState>> {
    var (id, code, now) := status;
    if id !in m then None
    else
      match m[id]
      case Pending(req, startedAt) => Some(m[id := Finished(req, code, Elapsed(startedAt, now))])
      case other => Some(m[id := other])
  }

  function Updated(m: map<nat, RequestState>, statuses: seq<(nat, nat, int)>): Option<map<nat, RequestState>>
    decreases |statuses|
  {
    if statuses == [] then Some(m)
    else
      match StatusStep(m, statuses[0])
      case None => None
      case Some(m') => Updated(m', statuses[1..])
  }

  /** After the inserts, the table holds the old ids and the new ones; every
      new id is pending with the last request received under it, and every
      other entry is as it was. */
  lemma {:induction false} InsertedEntries(m: map<nat, RequestState>, received: seq<(nat, Request, int)>, id: nat)
    ensures id in Inserted(m, received) <==> id in m || exists i :: 0 <= i < |received| && received[i].0 == id
    ensures (forall i :: 0 <= i < |received| ==> received[i].0 != id) && id in m
            ==> Inserted(m, received)[id] == m[id]
    ensures forall i :: 0 <= i < |received| && received[i].0 == id
                        && (forall j :: i < j < |received| ==> received[j].0 != id)
                    ==> Inserted(m, received)[id] == Pending(received[i].1, received[i].2)
    decreases |received|
  {
    if received != [] {
      var (id0, req, now) := received[0];
      var rest := received[1..];
      InsertedEntries(m[id0 := Pending(req, now)], rest, id);
      forall i | 0 < i < |received| ensures received[i] == rest[i - 1] {
      }
      if exists i :: 0 <= i < |rest| && rest[i].0 == id {
        var i :| 0 <= i < |rest| && rest[i].0 == id;
        assert received[i + 1].0 == id;
      }
      forall i | 0 <= i < |received| && received[i].0 == id
                 && (forall j :: i < j < |received| ==> received[j].0 != id)
        ensures Inserted(m, received)[id] == Pending(received[i].1, received[i].2)
      {
        if i > 0 {
          forall j | i - 1 < j < |rest| ensures rest[j].0 != id {
            assert rest[j] == received[j + 1];
          }
        } else {
          forall j | 0 <= j < |rest| ensures rest[j].0 != id {
            assert rest[j] == received[j + 1];
          }
        }
      }
    }
  }

  /** A status never drops an entry and never moves one back: pending becomes
      finished with the code, finished stays as it was, and other ids are not
      touched; an unknown id panics. */
  lemma StatusTransitions(m: map<nat, RequestState>, status: (nat, nat, int))
    ensures StatusStep(m, status).None? <==> status.0 !in m
    ensures StatusStep(m, status).Some? ==>
              var m' := StatusStep(m, status).value;
              && m'.Keys == m.Keys
              && (forall k :: k in m && k != status.0 ==> m'[k] == m[k])
              && m'[status.0].Finished?
              && m'[status.0].req == m[status.0].req
              && (m[status.0].Pending? ==>
                    m'[status.0].code == status.1 && m'[status.0].duration == Elapsed(m[status.0].startedAt, status.2))
              && (m[status.0].Finished? ==> m'[status.0] == m[status.0])
  {
  }

  /** The statuses never shrink the table, and every request they name ends
      finished. */
  lemma {:induction false} UpdatedFinishes(m: map<nat, RequestState>, statuses: seq<(nat, nat, int)>)
    requires Updated(m, statuses).Some?
    ensures Updated(m, statuses).value.Keys == m.Keys
    ensures forall i :: 0 <= i < |statuses| ==> statuses[i].0 in m
    ensures forall i :: 0 <= i < |statuses| ==> Updated(m, statuses).value[statuses[i].0].Finished?
    ensures forall k :: k in m && m[k].Finished? ==> Updated(m, statuses).value[k] == m[k]
    decreases |statuses|
  {
    if statuses != [] {
      StatusTransitions(m, statuses[0]);
      var m' := StatusStep(m, statuses[0]).value;
      var rest := statuses[1..];
      UpdatedFinishes(m', rest);
      var r := Updated(m, statuses).value;
      forall i | 0 <= i < |statuses| ensures statuses[i].0 in m && r[statuses[i].0].Finished? {
        if i > 0 {
          assert statuses[i] == rest[i - 1];
        }
      }
    }
  }

  /** `App`. */
  class App {
    var windows: seq<(WindowId, Window)>
    var eventQueue: seq<AppEvent>
    var counter: nat
    var requests: map<nat, RequestState>

    ghost predicate Valid()
      reads this
    {
      WindowsOk(windows, counter)
    }

    /** `App::new`: no windows, no events, no requests; the counter at 0. */
    constructor ()
      ensures windows == [] && eventQueue == [] && counter == 0 && requests == map[]
      ensures Valid()
    {
      windows := [];
      eventQueue := [];
      counter := 0;
      requests := map[];
    }

    /** `add_boxed_window`. */
    method AddBoxedWindow(window: Window)
      modifies this
      ensures (windows, counter) == AddWindow(old(windows), old(counter), window)
      ensures eventQueue == old(eventQueue) && requests == old(requests)
      ensures old(Valid()) ==> Valid()
    {
      var w := OnSpawn(window);
      if Valid() {
        AddWindowKeepsOk(windows, counter, window);
      }
      windows := windows + [(WindowName(counter), w)];
      counter := counter + 1;
    }

    /** `process_events`: the queue is taken whole and emptied, and its events
      are handled in order; the caller guarantees no pop names a window that is
      not open by then. */
    method ProcessEvents()
      modifies this
      requires ApplyEvents(windows, counter, eventQueue).Some?
      ensures (windows, counter) == ApplyEvents(old(windows), old(counter), old(eventQueue)).value
      ensures eventQueue == [] && requests == old(requests)
      ensures old(Valid()) ==> Valid()
    {
      if |eventQueue| == 0 {
        return;
      }
      ghost var valid := Valid();
      if valid {
        ApplyKeepsOk(windows, counter, eventQueue);
      }
      var queue := eventQueue;
      eventQueue := [];
      ghost var target := ApplyEvents(windows, counter, queue);
      var i := 0;
      while i < |queue|
        invariant 0 <= i <= |queue|
        invariant ApplyEvents(windows, counter, queue[i..]) == target
        invariant eventQueue == [] && requests == old(requests)
      {
        ApplyEventsUnfold(windows, counter, queue, i);
        match queue[i] {
          case SpawnWindow(w) =>
            AddBoxedWindow(w);
          case PopWindow(id) =>
            var j := 0;
            while j < |windows| && windows[j].0 != id
              invariant 0 <= j <= |windows|
              invariant forall k :: 0 <= k < j ==> windows[k].0 != id
            {
              j := j + 1;
            }
            assert FindWindow(windows, id).Some?;
            assert j < |windows|;
            assert j == FindWindow(windows, id).value;
            ghost var after := SwapRemove(windows, j);
            windows := windows[j := windows[|windows| - 1]][..|windows| - 1];
            assert windows == after;
        }
        i := i + 1;
      }
      assert queue[i..] == [];
    }

    /** `update_requests`: first the requests received since the last frame
      are entered as pending, then the statuses received are applied; the
      caller guarantees every status names a request known by then. */
    method UpdateRequests(received: seq<(nat, Request, int)>, statuses: seq<(nat, nat, int)>)
      modifies this
      requires Updated(Inserted(requests, received), statuses).Some?
      ensures requests == Updated(Inserted(old(requests), received), statuses).value
      ensures windows == old(windows) && eventQueue == old(eventQueue) && counter == old(counter)
    {
      ghost var inserted := Inserted(requests, received);
      var i := 0;
      while i < |received|
        invariant 0 <= i <= |received|
        invariant Inserted(requests, received[i..]) == inserted
        invariant windows == old(windows) && eventQueue == old(eventQueue) && counter == old(counter)
      {
        assert received[i..][0] == received[i] && received[i..][1..] == received[i + 1..];
        var (id, req, now) := received[i];
        requests := requests[id := Pending(req, now)];
        i := i + 1;
      }
      assert received[i..] == [];
      ghost var target := Updated(requests, statuses);
      var k := 0;
      while k < |statuses|
        invariant 0 <= k <= |statuses|
        invariant Updated(requests, statuses[k..]) == target
        invariant windows == old(windows) && eventQueue == old(eventQueue) && counter == old(counter)
      {
        assert statuses[k..][0] == statuses[k] && statuses[k..][1..] == statuses[k + 1..];
        var (id, code, now) := statuses[k];
        ghost var before := requests;
        var prev := requests[id];
        requests := requests - {id};
        var next := match prev
          case Pending(req, startedAt) => Finished(req, code, Elapsed(startedAt, now))
          case other => other;
        requests := requests[id := next];
        assert requests == before[id := next];
        assert StatusStep(before, statuses[k]) == Some(requests);
        k := k + 1;
      }
      assert statuses[k..] == [];
    }
  }
}
