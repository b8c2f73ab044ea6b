/** Typed signal/slot channels (`add_event<k>` / `run_event<k>`, src/vfs/vfs-dir.hxx).
    One registry holds every connection; each connection remembers the event
    kind it was added for, and emission of kind `k` reaches only the connected
    slots added with `k`, in registration order. */
module Signals {

  /** One `sigc::connection`: its id, the kind it listens to, and the handler. */
  datatype Slot<K, H> = Slot(conn: nat, kind: K, handler: H, connected: bool)

  datatype Registry<K, H> = Registry(slots: seq<Slot<K, H>>, nextConn: nat)

  /** Connection ids are distinct and below the next id to hand out. */
  ghost predicate Valid<K, H>(r: Registry<K, H>)
  {
    && (forall i :: 0 <= i < |r.slots| ==> r.slots[i].conn < r.nextConn)
    && (forall i, j :: 0 <= i < j < |r.slots| ==> r.slots[i].conn < r.slots[j].conn)
  }

  function Empty<K, H>(): (r: Registry<K, H>)
    ensures Valid(r)
  {
    Registry([], 0)
  }

  /** `add_event<k>(fun)`: connect `h` to channel `k`; returns the new registry
      and the connection id that can later be disconnected. */
  function AddEvent<K, H>(r: Registry<K, H>, k: K, h: H): (res: (Registry<K, H>, nat))
    requires Valid(r)
    ensures Valid(res.0)
    ensures res.0.slots == r.slots + [Slot(res.1, k, h, true)]
    ensures forall i :: 0 <= i < |r.slots| ==> r.slots[i].conn != res.1
  {
    (Registry(r.slots + [Slot(r.nextConn, k, h, true)], r.nextConn + 1), r.nextConn)
  }

  /** `connection.disconnect()`: the slot with id `c` stops receiving. */
  function Disconnect<K, H>(r: Registry<K, H>, c: nat): (r': Registry<K, H>)
    requires Valid(r)
    ensures Valid(r')
    ensures |r'.slots| == |r.slots|
    ensures forall i :: 0 <= i < |r.slots| ==>
      r'.slots[i] == if r.slots[i].conn == c then r.slots[i].(connected := false) else r.slots[i]
  {
    Registry(DisconnectSlots(r.slots, c), r.nextConn)
  }

  function DisconnectSlots<K, H>(s: seq<Slot<K, H>>, c: nat): (s': seq<Slot<K, H>>)
    ensures |s'| == |s|
    ensures forall i :: 0 <= i < |s| ==>
      s'[i] == if s[i].conn == c then s[i].(connected := false) else s[i]
  {
    if |s| == 0 then []
    else [if s[0].conn == c then s[0].(connected := false) else s[0]] + DisconnectSlots(s[1..], c)
  }

  /** `run_event<k>(...)`: the handlers reached, in registration order. */
  function RunEvent<K(==), H>(r: Registry<K, H>, k: K): (hs: seq<H>)
    ensures |hs| <= |r.slots|
    ensures forall j :: 0 <= j < |hs| ==>
      exists i :: 0 <= i < |r.slots| && r.slots[i].connected && r.slots[i].kind == k && r.slots[i].handler == hs[j]
    ensures forall i :: 0 <= i < |r.slots| && r.slots[i].connected && r.slots[i].kind == k ==>
      r.slots[i].handler in hs
  {
    ReachedAll(r.slots, k);
    Reached(r.slots, k)
  }

  lemma ReachedAll<K, H>(s: seq<Slot<K, H>>, k: K)
    ensures |Reached(s, k)| <= |s|
    ensures forall j :: 0 <= j < |Reached(s, k)| ==>
      exists i :: 0 <= i < |s| && s[i].connected && s[i].kind == k && s[i].handler == Reached(s, k)[j]
    ensures forall i :: 0 <= i < |s| && s[i].connected && s[i].kind == k ==> s[i].handler in Reached(s, k)
  {
    var hs := Reached(s, k);
    ReachedLength(s, k);
    forall j | 0 <= j < |hs|
      ensures exists i :: 0 <= i < |s| && s[i].connected && s[i].kind == k && s[i].handler == hs[j]
    {
      ReachedExactly(s, k, hs[j]);
    }
    forall i | 0 <= i < |s| && s[i].connected && s[i].kind == k
      ensures s[i].handler in hs
    {
      ReachedExactly(s, k, s[i].handler);
    }
  }

  lemma {:induction false} ReachedLength<K, H>(s: seq<Slot<K, H>>, k: K)
    ensures |Reached(s, k)| <= |s|
  {
    if |s| > 0 {
      ReachedLength(s[1..], k);
    }
  }

  function Reached<K(==), H>(s: seq<Slot<K, H>>, k: K): seq<H>
  {
    if |s| == 0 then []
    else (if s[0].connected && s[0].kind == k then [s[0].handler] else []) + Reached(s[1..], k)
  }

  /** Every handler reached by channel `k` was connected to channel `k`, and
      every connected slot of channel `k` is reached. */
  lemma {:induction false} ReachedExactly<K, H>(s: seq<Slot<K, H>>, k: K, h: H)
    ensures h in Reached(s, k) <==>
      exists i :: 0 <= i < |s| && s[i].connected && s[i].kind == k && s[i].handler == h
  {
    if |s| > 0 {
      ReachedExactly(s[1..], k, h);
      if h in Reached(s[1..], k) {
        var i :| 0 <= i < |s[1..]| && s[1..][i].connected && s[1..][i].kind == k && s[1..][i].handler == h;
        assert s[i + 1] == s[1..][i];
      }
      if exists i :: 0 <= i < |s| && s[i].connected && s[i].kind == k && s[i].handler == h {
        var i :| 0 <= i < |s| && s[i].connected && s[i].kind == k && s[i].handler == h;
        if i > 0 {
          assert s[1..][i - 1] == s[i];
        }
      }
    }
  }

  lemma {:induction false} ReachedAppend<K, H>(s: seq<Slot<K, H>>, t: seq<Slot<K, H>>, k: K)
    ensures Reached(s + t, k) == Reached(s, k) + Reached(t, k)
  {
    if |s| == 0 {
      assert s + t == t;
    } else {
      assert (s + t)[1..] == s[1..] + t;
      ReachedAppend(s[1..], t, k);
    }
  }

  /** Adding a handler to channel `k` leaves every other channel's audience
      unchanged, and appends the handler to channel `k`'s audience. */
  lemma AddEventIsolated<K, H>(r: Registry<K, H>, k: K, h: H, k2: K)
    requires Valid(r)
    ensures RunEvent(AddEvent(r, k, h).0, k2) ==
      RunEvent(r, k2) + (if k2 == k then [h] else [])
  {
    var s := AddEvent(r, k, h).0.slots;
    ReachedAppend(r.slots, [Slot(r.nextConn, k, h, true)], k2);
    assert [Slot(r.nextConn, k, h, true)][1..] == [];
  }

  lemma {:induction false} ReachedDisconnectFresh<K, H>(s: seq<Slot<K, H>>, c: nat, k: K)
    requires forall i :: 0 <= i < |s| ==> s[i].conn != c
    ensures Reached(DisconnectSlots(s, c), k) == Reached(s, k)
  {
    if |s| > 0 {
      assert DisconnectSlots(s, c) == [s[0]] + DisconnectSlots(s[1..], c);
      ReachedDisconnectFresh(s[1..], c, k);
    }
  }

  /** Connecting and then disconnecting the returned connection restores every
      channel's audience (the load-task subscription that the directory
      destructor disconnects, src/vfs/vfs-dir.cxx:66-67, 76). */
  lemma AddThenDisconnect<K, H>(r: Registry<K, H>, k: K, h: H, k2: K)
    requires Valid(r)
    ensures RunEvent(Disconnect(AddEvent(r, k, h).0, AddEvent(r, k, h).1), k2) == RunEvent(r, k2)
  {
    var (r1, c) := AddEvent(r, k, h);
    var s := r.slots;
    var last := Slot(c, k, h, true);
    assert r1.slots == s + [last];
    assert DisconnectSlots(s + [last], c) == DisconnectSlots(s, c) + [last.(connected := false)];
    ReachedAppend(DisconnectSlots(s, c), [last.(connected := false)], k2);
    assert [last.(connected := false)][1..] == [];
    ReachedDisconnectFresh(s, c, k2);
  }
}
