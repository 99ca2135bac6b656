/** Ownership of media sessions in raop.c and raop_handlers.h. A session is a number above 0; 0 stands
    for a null pointer. The same rules hold for audio and for mirror sessions. */
module Sessions {
  const SLOTS := 16

  /** The active slots, how many sessions were ever created, and every call that destroyed one. */
  datatype Table = Table(slots: seq<nat>, created: nat, gone: multiset<nat>)

  predicate Live(t: Table, id: nat) { 1 <= id <= t.created && t.gone[id] == 0 }

  /** The first free slot from i on. */
  function FirstFree(slots: seq<nat>, i: nat): (j: nat)
    requires i <= |slots|
    ensures i <= j <= |slots| && (j < |slots| ==> slots[j] == 0)
    ensures forall k :: i <= k < j ==> slots[k] != 0
    decreases |slots| - i
  {
    if i == |slots| || slots[i] == 0 then i else FirstFree(slots, i + 1)
  }

  /** A session is added once, and not at all when every slot is taken. */
  function Add(slots: seq<nat>, id: nat): (r: seq<nat>)
    ensures |r| == |slots|
  {
    if id == 0 || id in slots then slots else
      var j := FirstFree(slots, 0);
      if j < |slots| then slots[j := id] else slots
  }

  function Remove(slots: seq<nat>, id: nat): (r: seq<nat>)
    ensures |r| == |slots|
  {
    seq(|slots|, i requires 0 <= i < |slots| => if slots[i] == id then 0 else slots[i])
  }

  /** The sessions in the slots. */
  function Entries(slots: seq<nat>): multiset<nat> {
    if slots == [] then multiset{}
    else Entries(slots[..|slots| - 1]) + (if slots[|slots| - 1] == 0 then multiset{} else multiset{slots[|slots| - 1]})
  }

  function Create(t: Table): Table {
    Table(Add(t.slots, t.created + 1), t.created + 1, t.gone)
  }

  function Destroy(t: Table, id: nat): Table { t.(gone := t.gone + multiset{id}) }

  /** What TEARDOWN does with a connection's session. */
  function Drop(t: Table, id: nat, fold: nat := 3): (r: Table)
    ensures r.created == t.created && |r.slots| == |t.slots|
  {
    if fold > 0 then Drop(t, id, fold - 1)
    else if id == 0 then t
    else Destroy(t.(slots := Remove(t.slots, id)), id)
  }

  lemma {:induction false} DropIs(t: Table, id: nat, fold: nat := 3)
    ensures Drop(t, id, fold) == if id == 0 then t else Destroy(t.(slots := Remove(t.slots, id)), id)
  {
    if fold > 0 {
      DropIs(t, id, fold - 1);
    }
  }

  /** What closing a connection does with its session: one in a slot stays alive. */
  function Leave(t: Table, id: nat): Table {
    if id != 0 && id !in t.slots then Destroy(t, id) else t
  }

  /** What destroying the server does with the slots. */
  function Drain(t: Table): Table {
    Table(seq(|t.slots|, _ => 0), t.created, t.gone + Entries(t.slots))
  }

  /** Slots and connections refer only to live sessions, no session twice, and every live session is in
      a slot or belongs to a connection. No session was destroyed twice. */
  ghost predicate OwnedParts(t: Table, held: map<nat, nat>) {
    && (forall id :: t.gone[id] <= 1 && (t.gone[id] == 1 ==> 1 <= id <= t.created))
    && (forall i :: 0 <= i < |t.slots| && t.slots[i] != 0 ==> Live(t, t.slots[i]))
    && (forall i, j :: 0 <= i < j < |t.slots| && t.slots[i] != 0 ==> t.slots[i] != t.slots[j])
    && (forall c :: c in held && held[c] != 0 ==> Live(t, held[c]))
    && (forall c, d :: c in held && d in held && c != d && held[c] != 0 ==> held[c] != held[d])
    && (forall id :: Live(t, id) ==> id in t.slots || id in held.Values)
  }

  /** Lemma OwnedIs opens the definition. */
  ghost predicate Owned(t: Table, held: map<nat, nat>, fold: nat := 3) {
    if fold > 0 then Owned(t, held, fold - 1) else OwnedParts(t, held)
  }

  lemma {:induction false} OwnedIs(t: Table, held: map<nat, nat>, fold: nat := 3)
    ensures Owned(t, held, fold) == OwnedParts(t, held)
  {
    if fold > 0 {
      OwnedIs(t, held, fold - 1);
    }
  }

  lemma AddSlots(slots: seq<nat>, id: nat)
    requires id !in slots && id != 0
    ensures forall x :: x != 0 && x != id ==> (x in Add(slots, id) <==> x in slots)
    ensures forall i :: 0 <= i < |slots| && Add(slots, id)[i] != 0 ==> Add(slots, id)[i] == slots[i] || Add(slots, id)[i] == id
    ensures forall i, j :: 0 <= i < j < |slots| && Add(slots, id)[i] == id ==> Add(slots, id)[j] != id
  {
    var r, j := Add(slots, id), FirstFree(slots, 0);
    forall x | x != 0 && x != id
      ensures x in r <==> x in slots
    {
      if x in slots {
        var i :| 0 <= i < |slots| && slots[i] == x;
        assert r[i] == x;
      }
    }
  }

  /** A connection without a session gets a new one. */
  lemma CreateOwned(t: Table, held: map<nat, nat>, c: nat)
    requires Owned(t, held) && c in held && held[c] == 0
    ensures Owned(Create(t), held[c := t.created + 1])
  {
    OwnedIs(t, held);
    OwnedIs(Create(t), held[c := t.created + 1]);
    var id := t.created + 1;
    var u, now := Create(t), held[c := id];
    AddSlots(t.slots, id);
    forall x | Live(u, x)
      ensures x in u.slots || x in now.Values
    {
      if x == id {
        assert now[c] == id;
      } else if x in t.slots {
      } else {
        assert Live(t, x);
        var d :| d in held && held[d] == x;
        assert now[d] == x;
      }
    }
  }

  /** A connection gives up a session of its own, whether or not it has a slot. */
  lemma DropOwned(t: Table, held: map<nat, nat>, c: nat)
    requires Owned(t, held) && c in held
    ensures Owned(Drop(t, held[c]), held[c := 0])
  {
    OwnedIs(t, held);
    OwnedIs(Drop(t, held[c]), held[c := 0]);
    DropIs(t, held[c]);
    var id := held[c];
    if id != 0 {
      var u, now := Drop(t, id), held[c := 0];
      forall x | Live(u, x)
        ensures x in u.slots || x in now.Values
      {
        if x in t.slots {
          var i :| 0 <= i < |t.slots| && t.slots[i] == x;
          assert u.slots[i] == x;
        } else {
          assert Live(t, x);
          var d :| d in held && held[d] == x;
          assert now[d] == x;
        }
      }
    } else {
      assert held[c := 0] == held;
    }
  }

  /** A connection goes away: its session ends unless a slot keeps it. */
  lemma LeaveOwned(t: Table, held: map<nat, nat>, c: nat)
    requires Owned(t, held) && c in held
    ensures Owned(Leave(t, held[c]), held - {c})
  {
    OwnedIs(t, held);
    OwnedIs(Leave(t, held[c]), held - {c});
    var u, now := Leave(t, held[c]), held - {c};
    forall x | Live(u, x)
      ensures x in u.slots || x in now.Values
    {
      if x !in t.slots {
        assert Live(t, x);
        var d :| d in held && held[d] == x;
        assert d != c;
        assert now[d] == x;
      }
    }
  }

  lemma JoinOwned(t: Table, held: map<nat, nat>, c: nat)
    requires Owned(t, held) && c !in held
    ensures Owned(t, held[c := 0])
  {
    OwnedIs(t, held);
    OwnedIs(t, held[c := 0]);
    var now := held[c := 0];
    forall x | Live(t, x)
      ensures x in t.slots || x in now.Values
    {
      if x !in t.slots {
        var d :| d in held && held[d] == x;
        assert now[d] == x;
      }
    }
  }

  lemma EntriesNext(slots: seq<nat>, i: nat)
    requires i < |slots|
    ensures Entries(slots[..i + 1]) == Entries(slots[..i]) + (if slots[i] == 0 then multiset{} else multiset{slots[i]})
  {
    assert slots[..i + 1][..i] == slots[..i];
  }

  lemma {:induction false} EntriesCount(slots: seq<nat>, id: nat)
    requires id != 0
    requires forall i, j :: 0 <= i < j < |slots| && slots[i] != 0 ==> slots[i] != slots[j]
    ensures Entries(slots)[id] == if id in slots then 1 else 0
    ensures Entries(slots)[0] == 0
  {
    if slots != [] {
      EntriesCount(slots[..|slots| - 1], id);
    }
  }

  /** Once no connection is left, destroying the slots' sessions ends every session exactly once. */
  lemma DrainEnds(t: Table, held: map<nat, nat>)
    requires Owned(t, held) && forall c :: c in held ==> held[c] == 0
    ensures forall id :: 1 <= id <= t.created ==> Drain(t).gone[id] == 1
    ensures forall id :: !(1 <= id <= t.created) ==> Drain(t).gone[id] == 0
    ensures forall i :: 0 <= i < |t.slots| ==> Drain(t).slots[i] == 0
  {
    OwnedIs(t, held);
    forall id: nat
      ensures Drain(t).gone[id] == if 1 <= id <= t.created then 1 else 0
    {
      EntriesCount(t.slots, if id == 0 then 1 else id);
      if Live(t, id) {
        assert id !in held.Values;
      }
    }
  }

  /** A connection: its two sessions, the SETUP counter, and what was started. */
  datatype Conn = Conn(rtp: nat, mirror: nat, setup: nat, audioStarted: bool, mirrorStarted: bool, notified: bool)

  datatype Server = Server(rtps: Table, mirrors: Table, conns: map<nat, Conn>)

  function HeldRtps(conns: map<nat, Conn>): map<nat, nat> { map c | c in conns :: conns[c].rtp }

  function HeldMirrors(conns: map<nat, Conn>): map<nat, nat> { map c | c in conns :: conns[c].mirror }

  ghost predicate Valid(s: Server) {
    && |s.rtps.slots| == |s.mirrors.slots| == SLOTS
    && Owned(s.rtps, HeldRtps(s.conns)) && Owned(s.mirrors, HeldMirrors(s.conns))
  }

  /** What a SETUP request asks and how it fares: key material present and usable, whether each session
      can be made, the stream and its type, its connection id, and whether the audio codec is supported. */
  datatype Request = Request(keys: bool, eivOk: bool, ekeyOk: bool, audioMade: bool, mirrorMade: bool,
                             stream: bool, typed: bool, streamType: nat, streamId: bool, codecOk: bool, decoderOk: bool)

  datatype Event =
    | Connect(c: nat)
    | Setup(c: nat, request: Request)
    | Teardown(c: nat, audio: bool, mirror: bool)
    | Disconnect(c: nat)

  /** SETUP, by the counter and the stream type. Only the first SETUP with keys makes sessions. */
  function SetupConn(s: Server, c: nat, r: Request): Server
    requires c in s.conns
  {
    var conn := s.conns[c];
    if conn.setup == 0 then
      if !r.keys then s
      else if !r.eivOk || !r.ekeyOk then s.(conns := s.conns[c := conn.(setup := 1)])
      else
        var made := conn.(setup := 1,
          rtp := if r.audioMade then s.rtps.created + 1 else 0,
          mirror := if r.mirrorMade then s.mirrors.created + 1 else 0);
        Server(if r.audioMade then Create(s.rtps) else s.rtps,
               if r.mirrorMade then Create(s.mirrors) else s.mirrors,
               s.conns[c := made])
    else if (r.typed && r.streamType == 110) || (!r.typed && conn.setup == 1) then
      var counted := conn.(setup := if conn.setup < 2 then 2 else conn.setup + 1);
      if r.stream && r.streamId && conn.mirror != 0 then
        s.(conns := s.conns[c := counted.(mirrorStarted := true, notified := false)])
      else s.(conns := s.conns[c := counted])
    else if (r.typed && r.streamType == 96) || conn.setup >= 2 then
      if !r.stream || !r.codecOk then s
      else
        var counted := conn.(setup := if conn.setup < 3 then 3 else conn.setup + 1);
        if conn.rtp != 0 && r.decoderOk then s.(conns := s.conns[c := counted.(audioStarted := true)])
        else s.(conns := s.conns[c := counted])
    else s
  }

  /** TEARDOWN of the named stream types, or of both when it names none. An audio teardown also ends a
      mirror session that was never started. */
  function TeardownConn(s: Server, c: nat, audio: bool, mirror: bool): Server
    requires c in s.conns
  {
    var conn := s.conns[c];
    var wantAudio := audio || !mirror;
    var wantMirror := mirror || !audio;
    var dropAudio := wantAudio && conn.rtp != 0;
    var dropMirror := conn.mirror != 0 && (wantMirror || (wantAudio && !conn.mirrorStarted));
    var stopped := wantMirror && conn.mirrorStarted && conn.mirror != 0;
    Server(if dropAudio then Drop(s.rtps, conn.rtp) else s.rtps,
           if dropMirror then Drop(s.mirrors, conn.mirror) else s.mirrors,
           s.conns[c := Conn(if dropAudio then 0 else conn.rtp, if dropMirror then 0 else conn.mirror, conn.setup,
                             conn.audioStarted && !dropAudio, conn.mirrorStarted && !stopped,
                             conn.notified || stopped)])
  }

  function Close(s: Server, c: nat): Server
    requires c in s.conns
  {
    Server(Leave(s.rtps, s.conns[c].rtp), Leave(s.mirrors, s.conns[c].mirror), s.conns - {c})
  }

  /** One event; events for connections that do not exist change nothing. */
  function Step(s: Server, e: Event): Server {
    match e
    case Connect(c) => if c in s.conns then s else s.(conns := s.conns[c := Conn(0, 0, 0, false, false, false)])
    case Setup(c, r) => if c in s.conns then SetupConn(s, c, r) else s
    case Teardown(c, audio, mirror) => if c in s.conns then TeardownConn(s, c, audio, mirror) else s
    case Disconnect(c) => if c in s.conns then Close(s, c) else s
  }

  function Run(s: Server, events: seq<Event>): Server {
    if events == [] then s else Step(Run(s, events[..|events| - 1]), events[|events| - 1])
  }

  /** A connection has sessions only after its first SETUP, so that SETUP cannot lose one. */
  predicate Counted(s: Server) {
    forall c :: c in s.conns && s.conns[c].setup == 0 ==> s.conns[c].rtp == 0 && s.conns[c].mirror == 0
  }

  lemma HeldUpdate(conns: map<nat, Conn>, c: nat, v: Conn)
    ensures HeldRtps(conns[c := v]) == HeldRtps(conns)[c := v.rtp]
    ensures HeldMirrors(conns[c := v]) == HeldMirrors(conns)[c := v.mirror]
    ensures HeldRtps(conns - {c}) == HeldRtps(conns) - {c} && HeldMirrors(conns - {c}) == HeldMirrors(conns) - {c}
    ensures c in conns ==> HeldRtps(conns)[c := conns[c].rtp] == HeldRtps(conns)
    ensures c in conns ==> HeldMirrors(conns)[c := conns[c].mirror] == HeldMirrors(conns)
  {
  }

  /** Changing flags and counters moves no session. */
  lemma FlagsValid(s: Server, c: nat, v: Conn)
    requires Valid(s) && Counted(s) && c in s.conns && v.setup > 0
    requires v.rtp == s.conns[c].rtp && v.mirror == s.conns[c].mirror
    ensures Valid(s.(conns := s.conns[c := v])) && Counted(s.(conns := s.conns[c := v]))
  {
    HeldUpdate(s.conns, c, v);
  }

  /** The first SETUP with keys makes the connection's sessions. */
  lemma FirstSetupValid(s: Server, c: nat, audio: bool, mirror: bool, v: Conn)
    requires Valid(s) && Counted(s) && c in s.conns && s.conns[c].setup == 0 && v.setup > 0
    requires v.rtp == (if audio then s.rtps.created + 1 else 0)
    requires v.mirror == (if mirror then s.mirrors.created + 1 else 0)
    ensures var t := Server(if audio then Create(s.rtps) else s.rtps,
                            if mirror then Create(s.mirrors) else s.mirrors, s.conns[c := v]);
      Valid(t) && Counted(t)
  {
    HeldUpdate(s.conns, c, v);
    if audio {
      CreateOwned(s.rtps, HeldRtps(s.conns), c);
    }
    if mirror {
      CreateOwned(s.mirrors, HeldMirrors(s.conns), c);
    }
  }

  lemma SetupValid(s: Server, c: nat, r: Request)
    requires Valid(s) && Counted(s) && c in s.conns
    ensures Valid(SetupConn(s, c, r)) && Counted(SetupConn(s, c, r))
  {
    var conn := s.conns[c];
    var v := SetupConn(s, c, r).conns[c];
    if conn.setup == 0 && r.keys && r.eivOk && r.ekeyOk {
      FirstSetupValid(s, c, r.audioMade, r.mirrorMade, v);
    } else if SetupConn(s, c, r) != s {
      FlagsValid(s, c, v);
    }
  }

  lemma TeardownValid(s: Server, c: nat, audio: bool, mirror: bool)
    requires Valid(s) && Counted(s) && c in s.conns
    ensures Valid(TeardownConn(s, c, audio, mirror)) && Counted(TeardownConn(s, c, audio, mirror))
  {
    HeldUpdate(s.conns, c, TeardownConn(s, c, audio, mirror).conns[c]);
    DropOwned(s.rtps, HeldRtps(s.conns), c);
    DropOwned(s.mirrors, HeldMirrors(s.conns), c);
  }

  lemma CloseValid(s: Server, c: nat)
    requires Valid(s) && Counted(s) && c in s.conns
    ensures Valid(Close(s, c)) && Counted(Close(s, c))
  {
    HeldUpdate(s.conns, c, s.conns[c]);
    LeaveOwned(s.rtps, HeldRtps(s.conns), c);
    LeaveOwned(s.mirrors, HeldMirrors(s.conns), c);
  }

  /** Every event keeps ownership in order. */
  lemma StepValid(s: Server, e: Event)
    requires Valid(s) && Counted(s)
    ensures Valid(Step(s, e)) && Counted(Step(s, e))
  {
    match e
    case Connect(c) =>
      if c !in s.conns {
        HeldUpdate(s.conns, c, Conn(0, 0, 0, false, false, false));
        JoinOwned(s.rtps, HeldRtps(s.conns), c);
        JoinOwned(s.mirrors, HeldMirrors(s.conns), c);
      }
    case Setup(c, r) => if c in s.conns { SetupValid(s, c, r); }
    case Teardown(c, audio, mirror) => if c in s.conns { TeardownValid(s, c, audio, mirror); }
    case Disconnect(c) => if c in s.conns { CloseValid(s, c); }
  }

  function EmptyTable(): Table { Table(seq(SLOTS, _ => 0), 0, multiset{}) }

  function Start(): Server { Server(EmptyTable(), EmptyTable(), map[]) }

  /** In every reachable state no slot and no connection refers to a destroyed session, and nothing is
      lost: a session that is neither in a slot nor held by a connection has been destroyed, once. */
  lemma {:induction false} RunValid(events: seq<Event>)
    ensures Valid(Run(Start(), events)) && Counted(Run(Start(), events))
  {
    if events == [] {
      assert Run(Start(), events) == Start();
      assert HeldRtps(map[]) == map[] && HeldMirrors(map[]) == map[];
      OwnedIs(EmptyTable(), map[]);
    } else {
      RunValid(events[..|events| - 1]);
      StepValid(Run(Start(), events[..|events| - 1]), events[|events| - 1]);
    }
  }

  /** Said of the slots and the connections of a reachable state. */
  lemma NoDangling(events: seq<Event>)
    ensures var s := Run(Start(), events);
      && |s.rtps.slots| == |s.mirrors.slots| == SLOTS
      && (forall i :: 0 <= i < SLOTS && s.rtps.slots[i] != 0 ==> Live(s.rtps, s.rtps.slots[i]))
      && (forall i :: 0 <= i < SLOTS && s.mirrors.slots[i] != 0 ==> Live(s.mirrors, s.mirrors.slots[i]))
      && (forall c :: c in s.conns && s.conns[c].rtp != 0 ==> Live(s.rtps, s.conns[c].rtp))
      && (forall c :: c in s.conns && s.conns[c].mirror != 0 ==> Live(s.mirrors, s.conns[c].mirror))
  {
    var s := Run(Start(), events);
    RunValid(events);
    OwnedIs(s.rtps, HeldRtps(s.conns));
    OwnedIs(s.mirrors, HeldMirrors(s.conns));
    forall c | c in s.conns
      ensures s.conns[c].rtp != 0 ==> Live(s.rtps, s.conns[c].rtp)
      ensures s.conns[c].mirror != 0 ==> Live(s.mirrors, s.conns[c].mirror)
    {
      assert HeldRtps(s.conns)[c] == s.conns[c].rtp && HeldMirrors(s.conns)[c] == s.conns[c].mirror;
    }
  }

  /** Stopping the server closes the connections that are left, in some order. */
  function CloseAll(s: Server, order: seq<nat>): Server {
    if order == [] then s else
      var t := CloseAll(s, order[..|order| - 1]);
      var c := order[|order| - 1];
      if c in t.conns then Close(t, c) else t
  }

  lemma {:induction false} CloseAllValid(s: Server, order: seq<nat>)
    requires Valid(s) && Counted(s)
    ensures var t := CloseAll(s, order);
      Valid(t) && Counted(t) && (forall c :: c in t.conns ==> c in s.conns && c !in order)
      && t.rtps.created == s.rtps.created && t.mirrors.created == s.mirrors.created
  {
    if order != [] {
      CloseAllValid(s, order[..|order| - 1]);
      var t := CloseAll(s, order[..|order| - 1]);
      var c := order[|order| - 1];
      if c in t.conns {
        CloseValid(t, c);
      }
      assert order == order[..|order| - 1] + [c];
    }
  }

  /** raop_destroy: the connections close, then the slots' sessions end. */
  function Shutdown(s: Server, order: seq<nat>): Server {
    var t := CloseAll(s, order);
    Server(Drain(t.rtps), Drain(t.mirrors), t.conns)
  }

  /** Each session was destroyed exactly once, nothing else was, and no slot refers to one. */
  ghost predicate AllEnded(t: Table) {
    && (forall id :: t.gone[id] == if 1 <= id <= t.created then 1 else 0)
    && (forall i :: 0 <= i < |t.slots| ==> t.slots[i] == 0)
  }

  /** In every run that ends with the server destroyed, every audio and mirror session ever created is
      destroyed exactly once, also when the tables were full. */
  lemma RunEndsClean(events: seq<Event>, order: seq<nat>)
    requires forall c :: c in Run(Start(), events).conns ==> c in order
    ensures var s := Run(Start(), events); var t := Shutdown(s, order);
      AllEnded(t.rtps) && AllEnded(t.mirrors) && t.conns == map[]
      && t.rtps.created == s.rtps.created && t.mirrors.created == s.mirrors.created
  {
    var s := Run(Start(), events);
    RunValid(events);
    CloseAllValid(s, order);
    var t := CloseAll(s, order);
    assert forall c :: c !in t.conns;
    DrainEnds(t.rtps, HeldRtps(t.conns));
    DrainEnds(t.mirrors, HeldMirrors(t.conns));
  }
}
