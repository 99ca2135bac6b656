/** The audio reorder buffer of raop_buffer.c: 64 slots indexed by the sequence number
    modulo 64, updated in place. Decryption and decoding of a payload are represented by
    their result. */
module RaopBuffer {
  import Arith
  import opened Bytes
  import opened Playout

  /** RAOP_PACKET_LEN */
  const PacketLen: int := 32768

  /** raop_buffer_entry_t, as far as playing needs it. */
  datatype Entry = Entry(available: bool, seqnum: U16, timestamp: int, audio: seq<Byte>)

  /** The packet checks before the buffer is looked at: the length, and the marker packet
      that carries no audio. */
  predicate TooShortOrLong(data: seq<Byte>) {
    |data| < 12 || |data| > PacketLen
  }

  predicate NoAudioMarker(data: seq<Byte>) {
    |data| == 16 && data[12] == 0 && data[13] == 0x68 && data[14] == 0x34 && data[15] == 0
  }

  function SeqnumOf(data: seq<Byte>): U16
    requires |data| >= 12
  {
    256 * (data[2] as int) + data[3]
  }

  function TimestampOf(data: seq<Byte>): int
    requires |data| >= 12
  {
    0x100_0000 * (data[4] as int) + 0x1_0000 * (data[5] as int) + 0x100 * (data[6] as int) + data[7]
  }

  /** The packet in a slot, if it is the one for this position. */
  ghost predicate Waits(entries: seq<Entry>, q: int)
    requires |entries| == Length
  {
    entries[Seq(q) % Length].available && entries[Seq(q) % Length].seqnum == Seq(q)
  }

  ghost function FrameAt(entries: seq<Entry>, q: int): Frame
    requires |entries| == Length
  {
    Frame(entries[Seq(q) % Length].timestamp, entries[Seq(q) % Length].audio)
  }

  ghost function WaitingPackets(entries: seq<Entry>, empty: bool, next: int, end: int): map<int, Frame>
    requires |entries| == Length
  {
    if empty then map[] else map q | next <= q < end && Waits(entries, q) :: FrameAt(entries, q)
  }

  /** The packets that wait, by position. Lemma PendingIs opens the definition. */
  ghost function PendingOf(entries: seq<Entry>, empty: bool, next: int, end: int, fold: nat := 3): map<int, Frame>
    requires |entries| == Length
  {
    if fold == 0 then WaitingPackets(entries, empty, next, end) else PendingOf(entries, empty, next, end, fold - 1)
  }

  lemma {:induction false} PendingIs(entries: seq<Entry>, empty: bool, next: int, end: int, fold: nat := 3)
    requires |entries| == Length
    ensures PendingOf(entries, empty, next, end, fold) == WaitingPackets(entries, empty, next, end)
  {
    if fold > 0 {
      PendingIs(entries, empty, next, end, fold - 1);
    }
  }

  /** Every available slot holds the packet of a position in the window, in its place. */
  ghost predicate SlotsFit(entries: seq<Entry>, empty: bool, next: int, end: int)
    requires |entries| == Length
  {
    forall i :: 0 <= i < Length && entries[i].available ==>
      !empty && entries[i].seqnum % Length == i && 0 <= SeqCmp(entries[i].seqnum, Seq(next)) < end - next
  }

  function Unavailable(entries: seq<Entry>): (r: seq<Entry>)
    ensures |r| == |entries| && forall i :: 0 <= i < |r| ==> !r[i].available
  {
    seq(|entries|, i requires 0 <= i < |entries| => entries[i].(available := false, audio := []))
  }

  /** A slot in a fitting buffer that is taken by another number is free for a position
      in the window or just ahead of it: a waiting packet is never overwritten. */
  lemma SlotFree(entries: seq<Entry>, empty: bool, next: int, end: int, q: int)
    requires |entries| == Length && SlotsFit(entries, empty, next, end) && end <= next + Length
    requires next <= q < next + Length && entries[Seq(q) % Length].available
    ensures entries[Seq(q) % Length].seqnum == Seq(q) && q < end
  {
    var e := entries[Seq(q) % Length];
    var r := next + SeqCmp(e.seqnum, Seq(next));
    SeqCmpSelf(e.seqnum, next);
    SlotsDiffer(q, r);
  }

  /** Storing into a free slot adds one position. */
  lemma Store(entries: seq<Entry>, empty: bool, next: int, end: int, q: int, e: Entry)
    requires |entries| == Length && SlotsFit(entries, empty, next, end) && next <= end <= next + Length
    requires next <= q < next + Length && !entries[Seq(q) % Length].available
    requires e.available && e.seqnum == Seq(q)
    ensures var entries' := entries[Seq(q) % Length := e];
            && SlotsFit(entries', false, next, Max(end, q + 1))
            && PendingOf(entries', false, next, Max(end, q + 1))
               == PendingOf(entries, empty, next, end)[q := Frame(e.timestamp, e.audio)]
  {
    var j := Seq(q) % Length;
    var entries' := entries[j := e];
    SeqCmpIs(q, next);
    forall r | next <= r < Max(end, q + 1) && r != q
      ensures Waits(entries', r) <==> Waits(entries, r)
    {
      if Seq(r) % Length == j {
        SlotsDiffer(r, q);
      }
    }
    forall r | next <= r < Max(end, q + 1) && r != q && Waits(entries, r)
      ensures !empty && r < end
    {
      SlotFree(entries, empty, next, end, r);
    }
    PendingIs(entries, empty, next, end);
    PendingIs(entries', false, next, Max(end, q + 1));
    var before, after := PendingOf(entries, empty, next, end), PendingOf(entries', false, next, Max(end, q + 1));
    assert forall r :: r in after <==> r == q || r in before;
  }

  /** Clearing the first slot removes the first position. */
  lemma Release(entries: seq<Entry>, next: int, end: int, e: Entry)
    requires |entries| == Length && SlotsFit(entries, false, next, end) && next < end <= next + Length
    requires !e.available
    ensures var entries' := entries[Seq(next) % Length := e];
            && SlotsFit(entries', false, next + 1, end)
            && PendingOf(entries', false, next + 1, end) == PendingOf(entries, false, next, end) - {next}
  {
    var j := Seq(next) % Length;
    var entries' := entries[j := e];
    forall i | 0 <= i < Length && entries'[i].available
      ensures 0 <= SeqCmp(entries'[i].seqnum, Seq(next + 1)) < end - (next + 1)
    {
      var r := next + SeqCmp(entries[i].seqnum, Seq(next));
      SeqCmpSelf(entries[i].seqnum, next);
      assert r != next;
      SeqCmpIs(r, next + 1);
    }
    forall r | next < r < end
      ensures Waits(entries', r) <==> Waits(entries, r)
    {
      if Seq(r) % Length == j {
        SlotsDiffer(r, next);
      }
    }
    PendingIs(entries, false, next, end);
    PendingIs(entries', false, next + 1, end);
  }

  /** The fields of the buffer as one value, with the stream position of `first`. */
  datatype State = State(entries: seq<Entry>, empty: bool, first: U16, last: U16, next: int)

  ghost function EndOf(s: State): int {
    s.next + SeqCmp(s.last, s.first) + 1
  }

  ghost function ViewOf(s: State): Playout
    requires |s.entries| == Length
  {
    Playout(s.empty, s.next, EndOf(s), PendingOf(s.entries, s.empty, s.next, EndOf(s)))
  }

  ghost predicate ValidState(s: State) {
    && |s.entries| == Length
    && Seq(s.next) == s.first
    && s.next <= EndOf(s) <= s.next + Length
    && SlotsFit(s.entries, s.empty, s.next, EndOf(s))
    && Ordered(ViewOf(s))
  }

  lemma FreshState(entries: seq<Entry>)
    requires |entries| == Length && forall i :: 0 <= i < Length ==> !entries[i].available
    ensures ValidState(State(entries, true, 0, 0, 0)) && ViewOf(State(entries, true, 0, 0, 0)) == Fresh().p
  {
    PendingIs(entries, true, 0, 1);
  }

  /** The two ways to flush. */
  lemma FlushAway(s: State)
    requires ValidState(s)
    ensures var t := s.(entries := Unavailable(s.entries), empty := true);
            ValidState(t) && ViewOf(t) == Flushed(ViewOf(s), -1)
  {
    PendingIs(Unavailable(s.entries), true, s.next, EndOf(s));
  }

  lemma FlushTo(s: State, n: U16)
    requires ValidState(s)
    ensures var t := State(Unavailable(s.entries), s.empty, n, Seq(n as int - 1), s.next + SeqCmp(n, s.first));
            ValidState(t) && ViewOf(t) == Flushed(ViewOf(s), n)
  {
    var q := s.next + SeqCmp(n, s.first);
    SeqCmpSelf(n, s.next);
    Predecessor(n);
    var t := State(Unavailable(s.entries), s.empty, n, Seq(n as int - 1), q);
    assert EndOf(t) == q;
    PendingIs(t.entries, t.empty, q, q);
    assert PendingOf(t.entries, t.empty, q, q) == map[];
  }

  lemma Predecessor(n: U16)
    ensures SeqCmp(Seq(n as int - 1), n) == -1
  {
  }

  /** An entry after its packet was taken. */
  function Released(e: Entry): Entry {
    if e.available then e.(available := false, audio := []) else e
  }

  /** Taking the first position. */
  lemma TakeFirst(s: State)
    requires ValidState(s) && !s.empty && s.next < EndOf(s)
    ensures var j := s.first % Length;
            var t := s.(entries := s.entries[j := Released(s.entries[j])], first := Seq(s.first + 1), next := s.next + 1);
            ValidState(t)
            && ViewOf(t) == ViewOf(s).(next := s.next + 1, pending := ViewOf(s).pending - {s.next})
  {
    var j := s.first % Length;
    var t := s.(entries := s.entries[j := Released(s.entries[j])], first := Seq(s.first + 1), next := s.next + 1);
    EndStays(s);
    Release(s.entries, s.next, EndOf(s), Released(s.entries[j]));
  }

  /** In a buffer in use, a slot is available exactly when the position within reach that
      belongs to it waits, and it then holds that packet. */
  lemma SlotPending(s: State, q: int)
    requires ValidState(s) && !s.empty && s.next <= q < s.next + Length
    ensures var e := s.entries[Seq(q) % Length];
            && (e.available <==> q in ViewOf(s).pending)
            && (e.available ==> e.seqnum == Seq(q) && ViewOf(s).pending[q] == Frame(e.timestamp, e.audio))
  {
    PendingIs(s.entries, s.empty, s.next, EndOf(s));
    if s.entries[Seq(q) % Length].available {
      SlotFree(s.entries, s.empty, s.next, EndOf(s), q);
    }
  }

  lemma EndStays(s: State)
    requires Seq(s.next) == s.first && s.next < EndOf(s) <= s.next + Length
    ensures Seq(s.next + 1) == Seq(s.first + 1)
    ensures SeqCmp(s.last, Seq(s.first + 1)) == SeqCmp(s.last, s.first) - 1
  {
  }

  ghost predicate AllUnavailable(entries: seq<Entry>) {
    forall i :: 0 <= i < |entries| ==> !entries[i].available
  }

  /** An empty buffer has no available slot. */
  lemma EmptySlots(s: State)
    requires ValidState(s) && s.empty
    ensures AllUnavailable(s.entries)
  {
  }

  /** The first packet after a start: the window is this packet alone. */
  lemma StoreFirst(entries: seq<Entry>, n: U16, q: int, e: Entry)
    requires |entries| == Length && AllUnavailable(entries) && Seq(q) == n && e.available && e.seqnum == n
    ensures var t := State(entries[n % Length := e], false, n, n, q);
            ValidState(t) && ViewOf(t) == Playout(false, q, q + 1, map[q := Frame(e.timestamp, e.audio)])
  {
    PendingIs(entries, true, q, q);
    Store(entries, true, q, q, q, e);
    assert SeqCmp(n, n) == 0;
  }

  /** A packet within reach of the window. */
  lemma StoreNext(s: State, n: U16, e: Entry)
    requires ValidState(s) && !s.empty && 0 <= SeqCmp(n, s.first) < Length
    requires !s.entries[n % Length].available && e.available && e.seqnum == n
    ensures var t := s.(entries := s.entries[n % Length := e], last := if SeqCmp(n, s.last) > 0 then n else s.last);
            var q := s.next + SeqCmp(n, s.first);
            ValidState(t)
            && ViewOf(t) == Playout(false, s.next, Max(EndOf(s), q + 1), ViewOf(s).pending[q := Frame(e.timestamp, e.audio)])
  {
    var q := s.next + SeqCmp(n, s.first);
    SeqCmpSelf(n, s.next);
    Store(s.entries, s.empty, s.next, EndOf(s), q, e);
    LastAfter(s, n);
    OrderedAfter(ViewOf(s), q, Frame(e.timestamp, e.audio));
  }

  lemma OrderedAfter(p: Playout, q: int, f: Frame)
    requires Ordered(p) && !p.empty && p.next <= q < p.next + Length
    ensures Ordered(Playout(false, p.next, Max(p.end, q + 1), p.pending[q := f]))
  {
  }

  lemma LastAfter(s: State, n: U16)
    requires Seq(s.next) == s.first && s.next <= EndOf(s) <= s.next + Length && 0 <= SeqCmp(n, s.first) < Length
    ensures EndOf(s.(last := if SeqCmp(n, s.last) > 0 then n else s.last)) == Max(EndOf(s), s.next + SeqCmp(n, s.first) + 1)
  {
    LastPosition(s, n);
  }

  /** Comparing with the last number compares positions. */
  lemma LastPosition(s: State, n: U16)
    requires Seq(s.next) == s.first && s.next <= EndOf(s) <= s.next + Length && 0 <= SeqCmp(n, s.first) < Length
    ensures SeqCmp(n, s.last) > 0 <==> s.next + SeqCmp(n, s.first) >= EndOf(s)
  {
    SeqCmpSelf(n, s.next);
    SeqCmpSelf(s.last, s.next);
    SeqCmpIs(s.next + SeqCmp(n, s.first), s.next + SeqCmp(s.last, s.first));
  }

  /** A slot taken without moving the last number, as when the decoder cannot be made:
      the buffer stays consistent exactly when the packet lies within the window. */
  lemma StoreWithoutLast(s: State, n: U16, e: Entry)
    requires ValidState(s) && (!s.empty ==> 0 <= SeqCmp(n, s.first) < Length)
    requires !s.entries[n % Length].available && e.available && e.seqnum == n
    ensures ValidState(s.(entries := s.entries[n % Length := e])) <==> !s.empty && s.next + SeqCmp(n, s.first) < EndOf(s)
  {
    var t := s.(entries := s.entries[n % Length := e]);
    assert t.entries[n % Length].available;
    if !s.empty && s.next + SeqCmp(n, s.first) < EndOf(s) {
      StoreNext(s, n, e);
      LastPosition(s, n);
    }
  }

  /** seqnum_cmp against first + 64, for a packet that is not late. */
  lemma BeyondReach(n: U16, first: U16)
    requires SeqCmp(n, first) >= 0
    ensures SeqCmp(n, Seq(first + Length)) >= 0 <==> SeqCmp(n, first) >= Length
  {
  }

  /** The buffer once packet n has been put in its slot. */
  ghost function Filled(s: State, n: U16, f: Frame): Playout
    requires |s.entries| == Length
  {
    var q := s.next + SeqCmp(n, s.first);
    if s.empty then Playout(false, q, q + 1, map[q := f])
    else Playout(false, s.next, Max(EndOf(s), q + 1), ViewOf(s).pending[q := f])
  }

  /** The duplicate test: a slot in use for a packet within reach holds that very packet. */
  lemma SlotTaken(s: State, n: U16)
    requires ValidState(s) && (!s.empty ==> 0 <= SeqCmp(n, s.first) < Length)
    ensures var e := s.entries[n % Length];
            && (e.available ==> e.seqnum == n)
            && (e.available <==> s.next + SeqCmp(n, s.first) in ViewOf(s).pending)
  {
    var q := s.next + SeqCmp(n, s.first);
    SeqCmpSelf(n, s.next);
    PendingIs(s.entries, s.empty, s.next, EndOf(s));
    if !s.empty {
      SlotPending(s, q);
    }
  }

  /** From s0, room for packet n has been made, giving s1. */
  ghost predicate Room(s0: State, s1: State, n: U16) {
    && ValidState(s0) && ValidState(s1) && s0.empty == s1.empty
    && (!s1.empty ==> 0 <= SeqCmp(n, s1.first) < Length)
    && (!Restarts(ViewOf(s0), n) ==> s1 == s0 && Position(ViewOf(s0), n) >= s0.next)
    && (Restarts(ViewOf(s0), n) ==>
          && AllUnavailable(s1.entries)
          && s1.next + SeqCmp(n, s1.first) == Position(ViewOf(s0), n)
          && (!s1.empty ==> s1.next == EndOf(s1) && s1.first == n))
  }

  /** With room made, the slot is taken exactly when the packet is a copy. */
  lemma RoomSlot(s0: State, s1: State, n: U16)
    requires Room(s0, s1, n)
    ensures var e := s1.entries[n % Length];
            && (e.available ==> SeqCmp(e.seqnum, n) == 0)
            && (e.available <==> !Accepts(ViewOf(s0), n))
  {
    SlotTaken(s1, n);
  }

  /** Filling the room is what the arrival does to the buffer. */
  lemma RoomFilled(s0: State, s1: State, n: U16)
    requires Room(s0, s1, n)
    ensures Accepts(ViewOf(s0), n) ==> forall f :: Filled(s1, n, f) == Arrive(ViewOf(s0), n, f)
    ensures s1.next + SeqCmp(n, s1.first) < EndOf(s1) && !s1.empty <==> !s0.empty && Position(ViewOf(s0), n) < EndOf(s0)
  {
    if Accepts(ViewOf(s0), n) && Restarts(ViewOf(s0), n) && !s0.empty {
      assert SeqCmp(n, n) == 0;
      PendingIs(s1.entries, s1.empty, s1.next, EndOf(s1));
      assert ViewOf(s1).pending == map[];
    }
  }

  lemma SeqShift(a: int, k: int)
    ensures Seq(Seq(a) + k) == Seq(a + k)
  {
    assert a == 0x1_0000 * (a / 0x1_0000) + Seq(a);
    Arith.QuotientUnique(a + k, 0x1_0000, a / 0x1_0000 + (Seq(a) + k) / 0x1_0000, (Seq(a) + k) % 0x1_0000);
  }

  lemma ResendNothing(s: State)
    requires ValidState(s) && SeqCmp(s.first, s.last) >= 0
    ensures ResendRequest(s) == None
  {
    Opposite(s.first, s.last);
  }

  lemma Opposite(a: U16, b: U16)
    ensures SeqCmp(b, a) == -SeqCmp(a, b) || SeqCmp(a, b) == SeqCmp(b, a) == -0x8000
  {
  }

  lemma ResendRange(s: State)
    requires ValidState(s) && SeqCmp(s.first, s.last) < 0
    ensures EndOf(s) > s.next + 1
  {
    Opposite(s.first, s.last);
  }

  /** The slot looked at is the one of position next + k. */
  lemma ResendSlot(s: State, k: nat)
    requires ValidState(s) && k < SeqCmp(s.last, s.first)
    ensures s.entries[Seq(s.first + k) % Length].available <==> !s.empty && s.next + k in ViewOf(s).pending
  {
    if s.empty {
      EmptySlots(s);
    } else {
      SeqShift(s.next, k);
      SlotPending(s, s.next + k);
    }
  }

  /** What is asked for again: the packets missing at the front. When the buffer has been
      emptied, the old range. */
  ghost function ResendRequest(s: State): Option<(U16, int)>
    requires ValidState(s)
  {
    var count := if EndOf(s) <= s.next then 0
                 else if s.empty then SeqCmp(s.last, s.first)
                 else Missing(ViewOf(s), s.next);
    if count > 0 then Some((s.first, count)) else None
  }

  lemma NothingWaits(p: Playout)
    requires Ordered(p) && (p.empty || p.end <= p.next)
    ensures p.pending == map[]
  {
    assert forall q :: q in p.pending ==> p.next <= q < p.end;
    assert p.pending.Keys == {};
  }

  /** The request names the gap at the front exactly when the buffer is in use or its old
      numbers span at most one packet. */
  lemma RequestExactly(s: State)
    requires ValidState(s)
    ensures NamesGap(ViewOf(s), ResendRequest(s)) <==> !s.empty || SeqCmp(s.last, s.first) <= 0
  {
    var p := ViewOf(s);
    if !s.empty && p.next < p.end {
      MissingIsGap(p, p.next);
    } else {
      NothingWaits(p);
    }
  }

  /** The loop's state: the first k positions are missing. */
  ghost predicate ResendsFrom(s: State, k: nat)
    requires ValidState(s)
  {
    && k <= SeqCmp(s.last, s.first)
    && (!s.empty ==> Missing(ViewOf(s), s.next) == k + Missing(ViewOf(s), s.next + k))
  }

  lemma ResendStep(s: State, k: nat)
    requires ValidState(s) && ResendsFrom(s, k) && k < SeqCmp(s.last, s.first)
    ensures var taken := s.entries[Seq(s.first + k) % Length].available;
            && (taken ==> !s.empty && Missing(ViewOf(s), s.next + k) == 0)
            && (!taken ==> ResendsFrom(s, k + 1))
  {
    ResendSlot(s, k);
  }

  lemma ResendEnd(s: State, k: nat)
    requires ValidState(s) && ResendsFrom(s, k) && EndOf(s) > s.next
    requires k == SeqCmp(s.last, s.first) || (!s.empty && Missing(ViewOf(s), s.next + k) == 0)
    ensures ResendRequest(s) == if k == 0 then None else Some((s.first, k))
  {
  }

  /** Whether a packet is stored by a buffer in state p. */
  predicate Stored(p: Playout, data: seq<Byte>) {
    !TooShortOrLong(data) && !NoAudioMarker(data) && Accepts(p, SeqnumOf(data))
  }

  class Buffer {
    var isEmpty: bool
    var firstSeqnum: U16
    var lastSeqnum: U16
    const entries: array<Entry>
    const audioBufferSize: nat
    /** The stream position that firstSeqnum stands for. */
    ghost var next: int

    ghost function Fields(): State
      reads this, entries
    {
      State(entries[..], isEmpty, firstSeqnum, lastSeqnum, next)
    }

    ghost function End(): int
      reads this, entries
    {
      EndOf(Fields())
    }

    ghost predicate Valid()
      reads this, entries
    {
      ValidState(Fields())
    }

    ghost function View(): Playout
      reads this, entries
      requires Valid()
    {
      ViewOf(Fields())
    }

    /** raop_buffer_init */
    constructor (size: nat)
      ensures Valid() && fresh(entries) && View() == Fresh().p
    {
      audioBufferSize := size;
      isEmpty, firstSeqnum, lastSeqnum, next := true, 0, 0, 0;
      entries := new Entry[Length](_ => Entry(false, 0, 0, []));
      new;
      FreshState(entries[..]);
    }

    /** The clearing loop of raop_buffer_flush. */
    method ClearEntries()
      requires entries.Length == Length
      modifies entries
      ensures entries[..] == Unavailable(old(entries[..]))
    {
      var i := 0;
      while i < Length
        invariant 0 <= i <= Length
        invariant forall k :: 0 <= k < i ==> entries[k] == old(entries[k]).(available := false, audio := [])
        invariant forall k :: i <= k < Length ==> entries[k] == old(entries[k])
      {
        entries[i] := entries[i].(available := false, audio := []);
        i := i + 1;
      }
    }

    /** raop_buffer_flush */
    method Flush(nextSeq: int)
      requires Valid()
      modifies this, entries
      ensures Valid() && View() == Flushed(old(View()), nextSeq)
      ensures entries[..] == Unavailable(old(entries[..]))
      ensures 0 <= nextSeq <= 0xffff ==> firstSeqnum == nextSeq
    {
      ghost var s := Fields();
      ClearEntries();
      if nextSeq < 0 || nextSeq > 0xffff {
        isEmpty := true;
        FlushAway(s);
      } else {
        next := next + SeqCmp(nextSeq, firstSeqnum);
        firstSeqnum := nextSeq;
        lastSeqnum := Seq(nextSeq - 1);
        FlushTo(s, nextSeq);
      }
    }

    /** raop_buffer_dequeue: the audio, and for a packet its timestamp. */
    method Dequeue(noResend: bool) returns (r: Option<Output>)
      requires Valid()
      modifies this, entries
      ensures Valid() && View() == Take(old(View()), noResend)
      ensures r == if Gives(old(View()), noResend) then Some(OutputAt(old(View()).pending, old(View()).next)) else None
    {
      ghost var s := Fields();
      var buflen := SeqCmp(lastSeqnum, firstSeqnum) + 1;
      if isEmpty || buflen <= 0 {
        return None;
      }
      TakeFirst(s);
      SlotPending(s, next);
      var j := firstSeqnum % Length;
      var entry := entries[j];
      if !noResend && !entry.available && buflen < Length {
        return None;
      }
      entries[j] := Released(entry);
      firstSeqnum, next := Seq(firstSeqnum + 1), next + 1;
      assert entries[..] == s.entries[j := Released(entry)];
      r := Some(if entry.available then Audio(Frame(entry.timestamp, entry.audio)) else Silence);
    }

    /** The lateness test and the flush that makes room for packet n. */
    method MakeRoom(n: U16)
      requires Valid() && (!isEmpty ==> SeqCmp(n, firstSeqnum) >= 0)
      modifies this, entries
      ensures Room(old(Fields()), Fields(), n)
    {
      ghost var s := Fields();
      if !isEmpty {
        BeyondReach(n, firstSeqnum);
      } else {
        EmptySlots(s);
      }
      if SeqCmp(n, Seq(firstSeqnum + Length)) >= 0 {
        SeqCmpSelf(n, next);
        Flush(n);
        assert SeqCmp(n, n) == 0;
      }
    }

    /** raop_buffer_queue: 1 for a stored packet, 0 for an ignored one, -1 for an error.
        `decoded` is the audio of the payload, or None when no decoder can be created. */
    method Queue(data: seq<Byte>, decoded: Option<seq<Byte>>) returns (ret: int)
      requires Valid()
      modifies this, entries
      ensures ret == if TooShortOrLong(data) then -1
                     else if !Stored(old(View()), data) then 0
                     else if decoded.None? then -1 else 1
      ensures !Stored(old(View()), data) ==> Valid() && View() == old(View())
      ensures Stored(old(View()), data) && decoded.Some? ==>
                Valid() && View() == Arrive(old(View()), SeqnumOf(data), Frame(TimestampOf(data), decoded.value))
      ensures Stored(old(View()), data) && decoded.None? ==>
                (Valid() <==> !old(isEmpty) && Position(old(View()), SeqnumOf(data)) < old(End()))
    {
      if TooShortOrLong(data) {
        return -1;
      }
      var n := SeqnumOf(data);
      if NoAudioMarker(data) {
        return 0;
      }
      if !isEmpty && SeqCmp(n, firstSeqnum) < 0 {
        return 0;
      }
      ret := Insert(n, TimestampOf(data), decoded);
    }

    /** The part of raop_buffer_queue for a packet that is not late. */
    method Insert(n: U16, timestamp: int, decoded: Option<seq<Byte>>) returns (ret: int)
      requires Valid() && (!isEmpty ==> SeqCmp(n, firstSeqnum) >= 0)
      modifies this, entries
      ensures ret == if !Accepts(old(View()), n) then 0 else if decoded.None? then -1 else 1
      ensures !Accepts(old(View()), n) ==> Valid() && View() == old(View())
      ensures Accepts(old(View()), n) && decoded.Some? ==>
                Valid() && View() == Arrive(old(View()), n, Frame(timestamp, decoded.value))
      ensures Accepts(old(View()), n) && decoded.None? ==>
                (Valid() <==> !old(isEmpty) && Position(old(View()), n) < old(End()))
    {
      ghost var s := Fields();
      MakeRoom(n);
      var entry := entries[n % Length];
      RoomSlot(s, Fields(), n);
      RoomFilled(s, Fields(), n);
      if entry.available && SeqCmp(entry.seqnum, n) == 0 {
        return 0;
      }
      ret := Fill(n, timestamp, decoded);
    }

    /** Storing the packet and moving the sequence numbers. */
    method Fill(n: U16, timestamp: int, decoded: Option<seq<Byte>>) returns (ret: int)
      requires Valid() && !entries[n % Length].available
      requires !isEmpty ==> 0 <= SeqCmp(n, firstSeqnum) < Length
      requires isEmpty ==> AllUnavailable(entries[..])
      modifies this, entries
      ensures ret == if decoded.None? then -1 else 1
      ensures decoded.Some? ==> Valid() && View() == Filled(old(Fields()), n, Frame(timestamp, decoded.value))
      ensures decoded.None? ==> (Valid() <==> !old(isEmpty) && old(next + SeqCmp(n, firstSeqnum)) < old(End()))
    {
      ghost var s := Fields();
      var j := n % Length;
      var e := Entry(true, n, timestamp, if decoded.Some? then decoded.value else entries[j].audio);
      entries[j] := e;
      assert entries[..] == s.entries[j := e];
      if decoded.None? {
        StoreWithoutLast(s, n, e);
        return -1;
      }
      UpdateSeqnums(n, s, e);
      return 1;
    }

    /** The sequence numbers after a packet has been put in its slot. */
    method UpdateSeqnums(n: U16, ghost s: State, ghost e: Entry)
      requires ValidState(s) && !s.entries[n % Length].available && e.available && e.seqnum == n
      requires Fields() == s.(entries := s.entries[n % Length := e])
      requires !s.empty ==> 0 <= SeqCmp(n, s.first) < Length
      requires s.empty ==> AllUnavailable(s.entries)
      modifies this
      ensures entries[..] == old(entries[..])
      ensures Valid() && View() == Filled(s, n, Frame(e.timestamp, e.audio))
    {
      if isEmpty {
        SeqCmpSelf(n, next);
        StoreFirst(s.entries, n, next + SeqCmp(n, firstSeqnum), e);
        next := next + SeqCmp(n, firstSeqnum);
        firstSeqnum, lastSeqnum, isEmpty := n, n, false;
      } else {
        StoreNext(s, n, e);
      }
      if SeqCmp(n, lastSeqnum) > 0 {
        lastSeqnum := n;
      }
    }

    /** raop_buffer_handle_resends: the first number and the count that are asked for
        again, if any. On an emptied buffer the range of the old numbers is still looked
        at. */
    method HandleResends() returns (request: Option<(U16, int)>)
      requires Valid()
      ensures request == ResendRequest(Fields())
      ensures NamesGap(View(), request) <==> !isEmpty || SeqCmp(lastSeqnum, firstSeqnum) <= 0
    {
      RequestExactly(Fields());
      if SeqCmp(firstSeqnum, lastSeqnum) >= 0 {
        ResendNothing(Fields());
        return None;
      }
      var k := 0;
      ResendRange(Fields());
      var range := SeqCmp(lastSeqnum, firstSeqnum);
      while k < range
        invariant 0 <= k <= range
        invariant ResendsFrom(Fields(), k)
      {
        ResendStep(Fields(), k);
        if entries[Seq(firstSeqnum + k) % Length].available {
          break;
        }
        k := k + 1;
      }
      ResendEnd(Fields(), k);
      request := if k == 0 then None else Some((firstSeqnum, k));
    }
  }

  /** Packets 5 and 7 arrive in a new buffer, which is then emptied. */
  lemma TwoArrive(f: Frame, g: Frame)
    ensures Accepts(Fresh().p, 5) && Arrive(Fresh().p, 5, f) == Playout(false, 5, 6, map[5 := f])
    ensures var p := Playout(false, 5, 6, map[5 := f]);
            Accepts(p, 7) && Flushed(Arrive(p, 7, g), -1) == Playout(true, 5, 8, map[])
  {
  }

  /** A packet without audio. */
  predicate IsPacket(data: seq<Byte>, n: U16) {
    !TooShortOrLong(data) && !NoAudioMarker(data) && SeqnumOf(data) == n
  }

  /** What is asked for then: the two packets from 5 on, though 5 had arrived and nothing
      waits. */
  method AskAfterFlush(buffer: Buffer, five: seq<Byte>, seven: seq<Byte>) returns (request: Option<(U16, int)>)
    requires buffer.Valid() && buffer.View() == Fresh().p && IsPacket(five, 5) && IsPacket(seven, 7)
    modifies buffer, buffer.entries
    ensures request == Some((5, 2)) && buffer.Valid() && !NamesGap(buffer.View(), request)
  {
    TwoArrive(Frame(TimestampOf(five), []), Frame(TimestampOf(seven), []));
    var _ := buffer.Queue(five, Some([]));
    var _ := buffer.Queue(seven, Some([]));
    buffer.Flush(-1);
    AskedAfterFlush(buffer.Fields());
    request := buffer.HandleResends();
  }

  lemma AskedAfterFlush(s: State)
    requires ValidState(s) && ViewOf(s) == Playout(true, 5, 8, map[])
    ensures ResendRequest(s) == Some((5, 2))
  {
  }

  /** Such a run from the start. */
  method StaleRequest() returns (request: Option<(U16, int)>)
    ensures request == Some((5, 2))
  {
    var buffer := new Buffer(480);
    var five: seq<Byte> := [0x80, 0x60, 0, 5, 0, 0, 0, 0, 0, 0, 0, 0];
    var seven: seq<Byte> := [0x80, 0x60, 0, 7, 0, 0, 0, 0, 0, 0, 0, 0];
    request := AskAfterFlush(buffer, five, seven);
  }
}
