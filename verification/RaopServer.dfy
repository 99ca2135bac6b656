/** The session tables of raop.c in place: fixed arrays of sixteen slots searched by loops, and the
    handlers that create, hand over and destroy sessions. */
module RaopServer {
  import opened Sessions

  /** One kind of session, audio or mirror: its active slots, and the ledger of what was created and
      destroyed. */
  class Pool {
    var slots: array<nat>
    var created: nat
    ghost var gone: multiset<nat>

    ghost predicate Ready() reads this { slots.Length == SLOTS }

    ghost function Ledger(): Table
      reads this, slots
    {
      Table(slots[..], created, gone)
    }

    constructor ()
      ensures Ready() && Ledger() == EmptyTable() && fresh(slots)
    {
      slots := new nat[SLOTS](_ => 0);
      created := 0;
      gone := multiset{};
    }

    /** raop_has_active_rtp, raop_has_active_mirror */
    method HasActive(id: nat) returns (found: bool)
      requires Ready()
      ensures found == (id in slots[..])
    {
      for i := 0 to SLOTS
        invariant id !in slots[..i]
      {
        if slots[i] == id {
          return true;
        }
      }
      return false;
    }

    /** raop_add_active_rtp, raop_add_active_mirror: nothing happens when every slot is taken. */
    method AddActive(id: nat)
      requires Ready()
      modifies slots
      ensures slots[..] == Add(old(slots[..]), id)
    {
      var known := HasActive(id);
      if id == 0 || known {
        return;
      }
      for i := 0 to SLOTS
        invariant FirstFree(slots[..], 0) == FirstFree(slots[..], i)
        invariant slots[..] == old(slots[..])
      {
        if slots[i] == 0 {
          slots[i] := id;
          return;
        }
      }
    }

    /** raop_remove_active_rtp, raop_remove_active_mirror */
    method RemoveActive(id: nat)
      requires Ready()
      modifies slots
      ensures slots[..] == Remove(old(slots[..]), id)
    {
      for i := 0 to SLOTS
        invariant forall k :: 0 <= k < i ==> slots[k] == if old(slots[k]) == id then 0 else old(slots[k])
        invariant forall k :: i <= k < SLOTS ==> slots[k] == old(slots[k])
      {
        if slots[i] == id {
          slots[i] := 0;
        }
      }
    }

    /** A new session, entered in a slot if there is one. */
    method Init() returns (id: nat)
      requires Ready()
      modifies this`created, slots
      ensures id == old(created) + 1 && Ledger() == Create(old(Ledger()))
    {
      created := created + 1;
      id := created;
      AddActive(id);
    }

    /** raop_rtp_destroy, raop_rtp_mirror_destroy */
    method DestroySession(id: nat)
      modifies this`gone
      ensures Ledger() == Destroy(old(Ledger()), id)
    {
      gone := gone + multiset{id};
    }

    method DropSession(id: nat)
      requires Ready() && id != 0
      modifies this`gone, slots
      ensures Ledger() == Drop(old(Ledger()), id)
    {
      DropIs(Ledger(), id);
      RemoveActive(id);
      DestroySession(id);
    }

    /** What conn_destroy does with a session. */
    method LeaveSession(id: nat)
      requires Ready()
      modifies this`gone
      ensures Ledger() == Leave(old(Ledger()), id)
    {
      if id != 0 {
        var active := HasActive(id);
        if !active {
          DestroySession(id);
        }
      }
    }

    method EndSlot(i: nat)
      requires Ready() && i < SLOTS
      modifies this`gone, slots
      ensures slots[i] == 0 && forall k :: 0 <= k < SLOTS && k != i ==> slots[k] == old(slots[k])
      ensures gone == old(gone) + (if old(slots[i]) == 0 then multiset{} else multiset{old(slots[i])})
    {
      if slots[i] != 0 {
        DestroySession(slots[i]);
        slots[i] := 0;
      }
    }

    /** raop_destroy_active_sessions */
    method DestroyActive()
      requires Ready()
      modifies this`gone, slots
      ensures Ledger() == Drain(old(Ledger()))
    {
      ghost var before := slots[..];
      for i := 0 to SLOTS
        invariant forall k :: 0 <= k < i ==> slots[k] == 0
        invariant forall k :: i <= k < SLOTS ==> slots[k] == before[k]
        invariant gone == old(gone) + Entries(before[..i])
      {
        EntriesNext(before, i);
        EndSlot(i);
      }
      assert before[..SLOTS] == before;
      DrainedTable(before, slots[..], created, old(gone));
    }

    /** Empty slots, and every session that was in one destroyed. */
    static lemma DrainedTable(before: seq<nat>, after: seq<nat>, created: nat, gone: multiset<nat>)
      requires |after| == |before| && forall k :: 0 <= k < |after| ==> after[k] == 0
      ensures Table(after, created, gone + Entries(before)) == Drain(Table(before, created, gone))
    {
      assert after == seq(|before|, _ => 0);
    }
  }

  class Raop {
    const rtps: Pool
    const mirrors: Pool
    var conns: map<nat, Conn>

    ghost predicate Ready()
      reads this, rtps, mirrors
    {
      && rtps != mirrors && rtps.slots != mirrors.slots
      && rtps.Ready() && mirrors.Ready()
    }

    ghost function State(): Server
      reads this, rtps, mirrors, rtps.slots, mirrors.slots
    {
      Server(rtps.Ledger(), mirrors.Ledger(), conns)
    }

    constructor ()
      ensures Ready() && State() == Start()
      ensures fresh(rtps) && fresh(mirrors) && fresh(rtps.slots) && fresh(mirrors.slots)
    {
      rtps := new Pool();
      mirrors := new Pool();
      conns := map[];
    }

    /** conn_init, for a sender that is not rejected */
    method ConnInit(c: nat)
      requires Ready() && c !in conns
      modifies this
      ensures Ready() && State() == Step(old(State()), Connect(c))
    {
      conns := conns[c := Conn(0, 0, 0, false, false, false)];
    }

    /** raop_handler_setup, from the point where the request's property list has been read */
    method HandleSetup(c: nat, r: Request)
      requires Ready() && c in conns
      modifies this, rtps, mirrors, rtps.slots, mirrors.slots
      ensures Ready() && State() == Step(old(State()), Setup(c, r))
      ensures rtps.slots == old(rtps.slots) && mirrors.slots == old(mirrors.slots)
    {
      var conn := conns[c];
      if conn.setup == 0 && r.keys {
        conn := conn.(setup := conn.setup + 1);
        if r.eivOk && r.ekeyOk {
          var rtp, mirror := 0, 0;
          if r.audioMade {
            rtp := rtps.Init();
          }
          if r.mirrorMade {
            mirror := mirrors.Init();
          }
          conn := conn.(rtp := rtp, mirror := mirror);
        }
      } else if conn.setup == 0 {
        return;
      } else if (r.typed && r.streamType == 110) || (!r.typed && conn.setup == 1) {
        conn := conn.(setup := if conn.setup < 2 then 2 else conn.setup + 1);
        if r.stream && r.streamId && conn.mirror != 0 {
          conn := conn.(mirrorStarted := true, notified := false);
        }
      } else if (r.typed && r.streamType == 96) || conn.setup >= 2 {
        if !r.stream || !r.codecOk {
          return;
        }
        conn := conn.(setup := if conn.setup < 3 then 3 else conn.setup + 1);
        if conn.rtp != 0 && r.decoderOk {
          conn := conn.(audioStarted := true);
        }
      } else {
        return;
      }
      conns := conns[c := conn];
    }

    /** The TEARDOWN branch of conn_request */
    method HandleTeardown(c: nat, audio: bool, mirror: bool)
      requires Ready() && c in conns
      modifies this, rtps, mirrors, rtps.slots, mirrors.slots
      ensures Ready() && State() == Step(old(State()), Teardown(c, audio, mirror))
      ensures rtps.slots == old(rtps.slots) && mirrors.slots == old(mirrors.slots)
    {
      var teardownAudio, teardownMirror := audio, mirror;
      if !audio && !mirror {
        teardownAudio, teardownMirror := true, true;
      }
      var conn := conns[c];
      var hadMirrorStream := teardownMirror && conn.mirrorStarted && conn.mirror != 0;
      if teardownAudio && conn.rtp != 0 {
        rtps.DropSession(conn.rtp);
        conn := conn.(rtp := 0, audioStarted := false);
      }
      if teardownAudio && conn.mirror != 0 && !conn.mirrorStarted {
        mirrors.DropSession(conn.mirror);
        conn := conn.(mirror := 0);
      }
      if teardownMirror && conn.mirror != 0 {
        mirrors.DropSession(conn.mirror);
        conn := conn.(mirror := 0, mirrorStarted := false);
      }
      if hadMirrorStream {
        conn := conn.(notified := true);
      }
      conns := conns[c := conn];
    }

    /** conn_destroy */
    method ConnDestroy(c: nat)
      requires Ready() && c in conns
      modifies this, rtps, mirrors
      ensures Ready() && State() == Step(old(State()), Disconnect(c))
      ensures rtps.slots == old(rtps.slots) && mirrors.slots == old(mirrors.slots)
    {
      rtps.LeaveSession(conns[c].rtp);
      mirrors.LeaveSession(conns[c].mirror);
      conns := conns - {c};
    }

    /** raop_destroy: the connections that are left close, in the order of the listener's table, and then
        the slots are emptied. */
    method RaopDestroy(order: seq<nat>)
      requires Ready()
      modifies this, rtps, mirrors, rtps.slots, mirrors.slots
      ensures State() == Shutdown(old(State()), order)
    {
      for i := 0 to |order|
        invariant Ready() && State() == CloseAll(old(State()), order[..i])
        invariant rtps.slots == old(rtps.slots) && mirrors.slots == old(mirrors.slots)
      {
        assert order[..i + 1][..i] == order[..i];
        if order[i] in conns {
          ConnDestroy(order[i]);
        }
      }
      assert order[..|order|] == order;
      rtps.DestroyActive();
      mirrors.DestroyActive();
    }
  }
}
