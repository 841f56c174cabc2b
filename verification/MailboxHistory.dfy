// Runs of the mailbox.  Every critical section is one atomic step, so a run of any
// number of producers and consumers is a sequence of send, receive and flush events.
// A world pairs the shared image with the full history of what happened to it.
module MailboxHistory {
  import opened Arithmetic
  import opened Common
  import opened MailboxLayout
  import opened MailboxWrap
  import opened MailboxRing

  datatype Event =
    | SendEv(channel: byte, payload: seq<byte>, flags: nat, pid: u32)
    | RecvEv(mask: u32)
    | FlushEv

  datatype Msg = Msg(id: u32, pid: u32, channel: byte, flags: byte, payload: seq<byte>)

  // `sent` holds every accepted message.  The other sequences hold positions in it:
  // handed out, stepped over by a receive, thrown away by a flush.  Positions from
  // `tailPos` on are still in the window; `base` is where the last flush left off.
  datatype World = World(
    im: Image,
    sent: seq<Msg>,
    received: seq<nat>, delivered: seq<RecvResult>,
    skipped: seq<nat>, flushed: seq<nat>,
    base: nat, tailPos: nat, skippedNow: nat, receivedAtFlush: nat)
  {
    predicate Shape()
    {
      && im.Valid()
      && base <= tailPos <= |sent|
      && receivedAtFlush <= |received|
    }
  }

  function Init(depth: nat, msgSize: nat, stride: nat): (w: World)
    requires Allowed(depth, msgSize, stride)
    ensures Counters(w) && Fates(w) && Contents(w)
  {
    World(Create(depth, msgSize, stride), [], [], [], [], [], 0, 0, 0, 0)
  }

  function Range(a: nat, b: nat): (r: seq<nat>)
    requires a <= b
    ensures |r| == b - a
    ensures forall i | 0 <= i < |r| :: r[i] == a + i
  {
    seq(b - a, i requires 0 <= i => a + i)
  }

  function Step(w: World, ev: Event): (w': World)
    requires w.Shape()
    ensures w'.im.Valid()
  {
    match ev
    case SendEv(channel, payload, flags, pid) =>
      var (im', r) := Send(w.im, channel, payload, flags, pid);
      if r.Sent? then
        w.(im := im', sent := w.sent + [Msg(r.id, pid, channel, flags % 256, payload)])
      else
        w.(im := im')
    case RecvEv(mask) =>
      var (im', r) := Recv(w.im, mask, w.im.msgSize);
      (match Scan(w.im, mask, 0)
       case None => w
       case Some(k) =>
         w.(im := im',
            received := w.received + [w.tailPos + k], delivered := w.delivered + [r],
            skipped := w.skipped + Range(w.tailPos, w.tailPos + k),
            tailPos := w.tailPos + k + 1, skippedNow := w.skippedNow + k))
    case FlushEv =>
      w.(im := Flush(w.im),
         flushed := w.flushed + Range(w.tailPos, |w.sent|),
         base := |w.sent|, tailPos := |w.sent|, skippedNow := 0, receivedAtFlush := |w.received|)
  }

  // ---------------------------------------------------------------- counters

  // Conservation, for every stride, every mask and every wrap of the indices.
  ghost predicate Counters(w: World)
  {
    && w.Shape()
    && w.im.head == (|w.sent| - w.base) % WORD
    && w.im.tail == (w.tailPos - w.base) % WORD
    && |w.sent| - w.tailPos <= w.im.count <= w.im.depth
    && w.im.count == (|w.sent| - w.tailPos) + w.skippedNow
    && w.skippedNow < w.im.depth
    && w.im.totalSent == |w.sent| % WORD
    && w.im.totalRecv == |w.received| % WORD
    && |w.delivered| == |w.received|
    && |w.sent| == |w.received| + |w.skipped| + |w.flushed| + (|w.sent| - w.tailPos)
  }

  lemma LiveIsWindow(w: World)
    requires Counters(w)
    ensures w.im.Live() == |w.sent| - w.tailPos
  {
    Sub32Reduces(|w.sent| - w.base, w.tailPos - w.base);
    DivUnique(|w.sent| - w.tailPos, WORD, 0, |w.sent| - w.tailPos);
  }

  lemma CountersStep(w: World, ev: Event)
    requires Counters(w)
    ensures Counters(Step(w, ev))
  {
    match ev
    case SendEv(channel, payload, flags, pid) => CountersSend(w, ev);
    case RecvEv(mask) => CountersRecv(w, ev);
    case FlushEv =>
  }

  lemma CountersSend(w: World, ev: Event)
    requires Counters(w) && ev.SendEv?
    ensures Counters(Step(w, ev))
  {
    hide Send, Step;
    SendCounts(w, ev);
    Add32Reduces(|w.sent| - w.base, 1);
    Add32Reduces(|w.sent|, 1);
  }

  // A send, accepted or not, as far as the counters go.
  lemma SendCounts(w: World, ev: Event)
    requires w.Shape() && ev.SendEv?
    ensures var w' := Step(w, ev);
            var accepted := |ev.payload| <= w.im.msgSize && w.im.count < w.im.depth;
            && w'.Shape() && w'.im.depth == w.im.depth
            && |w'.sent| == |w.sent| + (if accepted then 1 else 0)
            && w'.im.head == (if accepted then Add32(w.im.head, 1) else w.im.head)
            && w'.im.count == (if accepted then Add32(w.im.count, 1) else w.im.count)
            && w'.im.totalSent == (if accepted then Add32(w.im.totalSent, 1) else w.im.totalSent)
            && w' == w.(im := w'.im, sent := w'.sent)
            && w'.im.tail == w.im.tail && w'.im.totalRecv == w.im.totalRecv
  {
    hide EncodeHeader, DecodeHeader, Splice;
  }

  lemma CountersRecv(w: World, ev: Event)
    requires Counters(w) && ev.RecvEv?
    ensures Counters(Step(w, ev))
  {
    hide EncodeHeader, DecodeHeader;
    LiveIsWindow(w);
    ScanIsFirstMatch(w.im, ev.mask, 0);
    var k := Scan(w.im, ev.mask, 0);
    if k.Some? {
      Add32Reduces(w.tailPos - w.base, k.value);
      Add32Reduces(w.tailPos - w.base + k.value, 1);
      Add32Reduces(|w.received|, 1);
      assert Step(w, ev).im == Remove(w.im, k.value);
    }
  }

  // ---------------------------------------------------------------- where every message went

  ghost predicate Increasing(s: seq<nat>)
  {
    forall i, j | 0 <= i < j < |s| :: s[i] < s[j]
  }

  ghost predicate Below(s: seq<nat>, n: nat)
  {
    forall i | 0 <= i < |s| :: s[i] < n
  }

  // The i-th message sent carries id i + 1, in 32 bits; every message that left the window
  // was handed out, stepped over or flushed, in increasing order of sending, and only one
  // of the three befell it.
  ghost predicate Fates(w: World)
  {
    && (forall i | 0 <= i < |w.sent| :: w.sent[i].id == (i + 1) % WORD)
    && Increasing(w.received) && Increasing(w.skipped) && Increasing(w.flushed)
    && Below(w.received, w.tailPos) && Below(w.skipped, w.tailPos) && Below(w.flushed, w.tailPos)
    && (forall p | p in w.received :: p !in w.skipped && p !in w.flushed)
    && (forall p | p in w.skipped :: p !in w.flushed)
    && (forall p: nat | p < w.tailPos :: p in w.received || p in w.skipped || p in w.flushed)
  }

  lemma AppendAbove(s: seq<nat>, t: seq<nat>, n: nat)
    requires Increasing(s) && Below(s, n) && Increasing(t) && forall i | 0 <= i < |t| :: n <= t[i]
    ensures Increasing(s + t)
    ensures forall p | p in t :: p !in s
    ensures forall p :: p in s + t <==> p in s || p in t
  {
  }

  lemma RangeMembers(a: nat, b: nat)
    requires a <= b
    ensures Increasing(Range(a, b))
    ensures forall p: nat :: p in Range(a, b) <==> a <= p < b
  {
    forall p: nat | a <= p < b ensures p in Range(a, b) {
      assert Range(a, b)[p - a] == p;
    }
  }

  lemma FatesStep(w: World, ev: Event)
    requires Counters(w) && Fates(w)
    ensures Fates(Step(w, ev))
  {
    hide EncodeHeader, DecodeHeader;
    match ev
    case SendEv(_, _, _, _) =>
      Add32Reduces(|w.sent|, 1);
    case RecvEv(mask) =>
      var k := Scan(w.im, mask, 0);
      if k.Some? {
        FatesRecv(w, k.value, Step(w, ev));
      }
    case FlushEv =>
      RangeMembers(w.tailPos, |w.sent|);
      AppendAbove(w.flushed, Range(w.tailPos, |w.sent|), w.tailPos);
  }

  lemma FatesRecv(w: World, k: nat, w': World)
    requires w.Shape() && Fates(w)
    requires w'.received == w.received + [w.tailPos + k]
    requires w'.skipped == w.skipped + Range(w.tailPos, w.tailPos + k)
    requires w'.flushed == w.flushed && w'.tailPos == w.tailPos + k + 1 && w'.sent == w.sent
    ensures Fates(w')
  {
    RangeMembers(w.tailPos, w.tailPos + k);
    AppendAbove(w.skipped, Range(w.tailPos, w.tailPos + k), w.tailPos);
    AppendAbove(w.received, [w.tailPos + k], w.tailPos);
  }

  // ---------------------------------------------------------------- contents

  // The record under 32-bit index idx is message m, header and payload.
  ghost predicate Holds(im: Image, idx: u32, m: Msg)
    requires im.Valid()
  {
    && |m.payload| < 0x1_0000 && |m.payload| <= im.msgSize
    && ReadHeader(im.mem, im.Offset(idx)) == Header(m.id, 0, 0, m.pid, m.channel, m.flags, |m.payload|)
    && ReadPayload(im.mem, im.Offset(idx), |m.payload|) == m.payload
  }

  // The 32-bit index under which position p was stored.
  function IndexOf(w: World, p: nat): u32
    requires w.base <= p
  {
    (p - w.base) % WORD
  }

  function Delivery(m: Msg): RecvResult
    requires |m.payload| < 0x1_0000
  {
    Got(m.id, m.channel, m.flags, |m.payload|, Some(m.payload))
  }

  // The window holds what was sent and everything handed out is what was sent.
  ghost predicate Contents(w: World)
  {
    && w.Shape()
    && |w.delivered| == |w.received|
    && (forall p | w.tailPos <= p < |w.sent| :: Stored(w, p))
    && (forall i | 0 <= i < |w.received| :: HandedOut(w, w.received[i], w.delivered[i]))
  }

  ghost predicate Stored(w: World, p: nat)
    requires w.Shape() && w.tailPos <= p < |w.sent|
  {
    Fitting(w.im, w.sent[p]) && Holds(w.im, IndexOf(w, p), w.sent[p])
  }

  ghost predicate HandedOut(w: World, p: nat, r: RecvResult)
  {
    p < |w.sent| && |w.sent[p].payload| < 0x1_0000 && r == Delivery(w.sent[p])
  }

  // Small enough for its slot and for the 16-bit size field.
  predicate Fitting(im: Image, m: Msg)
  {
    HEADER + |m.payload| <= im.stride && |m.payload| < 0x1_0000
  }

  // A send that cannot disturb an unread record: what the caller can check beforehand.
  // With the allocated stride and depth a power of two only the size bound is left.
  predicate SafeSend(im: Image, payload: seq<byte>)
    requires im.Valid()
  {
    && HEADER + |payload| <= im.stride && |payload| < 0x1_0000
    && WindowSafe(im.tail, im.Live() + 1, im.depth)
  }

  predicate Safe(w: World, ev: Event)
    requires w.Shape()
  {
    ev.SendEv? && |ev.payload| <= w.im.msgSize && w.im.count < w.im.depth ==> SafeSend(w.im, ev.payload)
  }

  lemma SendStores(im: Image, channel: byte, payload: seq<byte>, flags: nat, pid: u32)
    requires im.Valid() && |payload| <= im.msgSize && |payload| < 0x1_0000 && im.count < im.depth
    ensures var (im', r) := Send(im, channel, payload, flags, pid);
            r.Sent? && Holds(im', im.head, Msg(r.id, pid, channel, flags % 256, payload))
  {
    hide EncodeHeader, DecodeHeader;
    var h := NewHeader(im, channel, |payload|, flags, pid);
    RecordReadsBack(im.mem, im.Offset(im.head), h, payload, |payload|);
    assert payload[..|payload|] == payload;
  }

  lemma SendKeeps(im: Image, channel: byte, payload: seq<byte>, flags: nat, pid: u32, idx: u32, m: Msg)
    requires im.Valid() && im.count < im.depth && |payload| <= im.msgSize
    requires Holds(im, idx, m) && Fitting(im, m) && HEADER + |payload| <= im.stride
    requires idx % im.depth != im.head % im.depth
    ensures Holds(Send(im, channel, payload, flags, pid).0, idx, m)
  {
    hide EncodeHeader, DecodeHeader;
    var data := EncodeHeader(NewHeader(im, channel, |payload|, flags, pid)) + payload;
    var off := im.Offset(idx);
    SlotsApart(im.stride, im.head % im.depth, idx % im.depth, im.stride - HEADER);
    SpliceElsewhere(im.mem, im.Offset(im.head), data, off, HEADER);
    SpliceElsewhere(im.mem, im.Offset(im.head), data, off + HEADER, |m.payload|);
  }

  // A live position never shares its slot with the next free one when the send is safe.
  lemma HeadSlotIsFree(w: World, p: nat)
    requires Counters(w) && w.tailPos <= p < |w.sent| && |w.sent| - w.tailPos < w.im.depth
    requires WindowSafe(w.im.tail, w.im.Live() + 1, w.im.depth)
    ensures IndexOf(w, p) % w.im.depth != w.im.head % w.im.depth
  {
    LiveIsWindow(w);
    DivUnique(w.im.tail, WORD, 0, w.im.tail);
    SafePairDiffers(w.tailPos - w.base, w.im.Live() + 1, w.im.depth, p - w.base, |w.sent| - w.base);
  }

  lemma ContentsSend(w: World, ev: Event)
    requires Counters(w) && Contents(w) && ev.SendEv? && Safe(w, ev)
    ensures Contents(Step(w, ev))
  {
    hide EncodeHeader, DecodeHeader, WindowSafe;
    if |ev.payload| <= w.im.msgSize && w.im.count < w.im.depth {
      SendStores(w.im, ev.channel, ev.payload, ev.flags, ev.pid);
      forall p: nat | w.tailPos <= p <= |w.sent| ensures Stored(Step(w, ev), p) {
        StoredAfterSend(w, ev, p);
      }
      ContentsAfterSend(w, Step(w, ev).sent[|w.sent|], Step(w, ev));
    } else {
      ContentsAfterRefusal(w, Step(w, ev));
    }
  }

  // An accepted send, spelled out.
  lemma AcceptedSend(w: World, ev: Event)
    requires Counters(w) && ev.SendEv? && |ev.payload| <= w.im.msgSize && w.im.count < w.im.depth
    ensures var (im', r) := Send(w.im, ev.channel, ev.payload, ev.flags, ev.pid);
            && r.Sent? && im'.stride == w.im.stride
            && im'.bytesSent == Add64(w.im.bytesSent, |ev.payload|) && im'.bytesRecv == w.im.bytesRecv
            && Step(w, ev)
               == w.(im := im', sent := w.sent + [Msg(r.id, ev.pid, ev.channel, ev.flags % 256, ev.payload)])
  {
  }

  lemma RefusedRecv(w: World, mask: u32)
    requires Counters(w) && Scan(w.im, mask, 0) == None
    ensures Step(w, RecvEv(mask)) == w
  {
  }

  // A receive that finds a record, spelled out.
  lemma AcceptedRecv(w: World, mask: u32, k: u32)
    requires Counters(w) && Scan(w.im, mask, 0) == Some(k)
    ensures var w' := Step(w, RecvEv(mask));
            && w'.sent == w.sent && w'.base == w.base && w'.tailPos == w.tailPos + k + 1
            && w'.received == w.received + [w.tailPos + k]
            && w'.skipped == w.skipped + Range(w.tailPos, w.tailPos + k)
            && w'.flushed == w.flushed && w'.receivedAtFlush == w.receivedAtFlush
            && w'.im.bytesSent == w.im.bytesSent
            && w'.im.bytesRecv == Add64(w.im.bytesRecv, w.im.HeaderAt(k).size)
  {
    hide DecodeHeader, Scan, Deliver, Range;
  }

  // The next message goes where head says, and no message moves.
  lemma HeadIndex(w: World, w': World)
    requires Counters(w) && w'.base == w.base
    ensures IndexOf(w, |w.sent|) == w.im.head
    ensures forall p: nat | w.base <= p :: IndexOf(w', p) == IndexOf(w, p)
  {
  }

  lemma StoredAfterSend(w: World, ev: Event, p: nat)
    requires Counters(w) && Contents(w) && ev.SendEv? && Safe(w, ev)
    requires |ev.payload| <= w.im.msgSize && w.im.count < w.im.depth && w.tailPos <= p <= |w.sent|
    ensures Stored(Step(w, ev), p)
  {
    hide EncodeHeader, DecodeHeader, WindowSafe, Step, Send, Holds, Start, IndexOf;
    AcceptedSend(w, ev);
    HeadIndex(w, Step(w, ev));
    if p == |w.sent| {
      SendStores(w.im, ev.channel, ev.payload, ev.flags, ev.pid);
    } else {
      assert Stored(w, p);
      HeadSlotIsFree(w, p);
      SendKeeps(w.im, ev.channel, ev.payload, ev.flags, ev.pid, IndexOf(w, p), w.sent[p]);
    }
  }

  lemma ContentsAfterRefusal(w: World, w': World)
    requires Contents(w) && w'.Shape() && w' == w.(im := w'.im)
    requires w'.im == w.im.(dropped := w'.im.dropped)
    ensures Contents(w')
  {
    forall p: nat | w.tailPos <= p < |w.sent| ensures Stored(w', p) {
      assert Stored(w, p);
    }
    forall i | 0 <= i < |w'.received| ensures HandedOut(w', w'.received[i], w'.delivered[i]) {
      assert HandedOut(w, w.received[i], w.delivered[i]);
    }
  }

  lemma ContentsAfterSend(w: World, m: Msg, w': World)
    requires Contents(w) && w'.Shape() && w'.sent == w.sent + [m]
    requires w'.received == w.received && w'.delivered == w.delivered && w'.tailPos == w.tailPos
    requires forall p: nat | w.tailPos <= p <= |w.sent| :: Stored(w', p)
    ensures Contents(w')
  {
    forall i | 0 <= i < |w'.received| ensures HandedOut(w', w'.received[i], w'.delivered[i]) {
      assert HandedOut(w, w.received[i], w.delivered[i]);
    }
  }

  lemma WindowIndex(w: World, k: u32)
    requires Counters(w)
    ensures w.im.Index(k) == IndexOf(w, w.tailPos + k)
  {
    Add32Reduces(w.tailPos - w.base, k);
  }

  lemma HeldIsDelivered(im: Image, k: u32, m: Msg)
    requires im.Valid() && Holds(im, im.Index(k), m)
    ensures Deliver(im, k, im.msgSize) == Delivery(m)
  {
  }

  lemma ContentsRecv(w: World, ev: Event)
    requires Counters(w) && Contents(w) && ev.RecvEv?
    ensures Contents(Step(w, ev))
  {
    hide EncodeHeader, DecodeHeader;
    CountersStep(w, ev);
    LiveIsWindow(w);
    ScanIsFirstMatch(w.im, ev.mask, 0);
    var k := Scan(w.im, ev.mask, 0);
    if k.Some? {
      WindowIndex(w, k.value);
      assert Stored(w, w.tailPos + k.value);
      HeldIsDelivered(w.im, k.value, w.sent[w.tailPos + k.value]);
      ContentsAfterRecv(w, k.value, Step(w, ev));
    }
  }

  lemma ContentsAfterRecv(w: World, k: u32, w': World)
    requires Contents(w) && w'.Shape() && w.tailPos + k < |w.sent|
    requires w'.im.mem == w.im.mem
    requires w'.im.depth == w.im.depth && w'.im.stride == w.im.stride && w'.im.msgSize == w.im.msgSize
    requires w'.sent == w.sent && w'.base == w.base && w'.tailPos == w.tailPos + k + 1
    requires w'.received == w.received + [w.tailPos + k]
    requires |w.sent[w.tailPos + k].payload| < 0x1_0000
    requires w'.delivered == w.delivered + [Delivery(w.sent[w.tailPos + k])]
    ensures Contents(w')
  {
    forall p: nat | w'.tailPos <= p < |w'.sent| ensures Stored(w', p) {
      assert Stored(w, p);
    }
    forall i | 0 <= i < |w'.received| ensures HandedOut(w', w'.received[i], w'.delivered[i]) {
      if i < |w.received| {
        assert HandedOut(w, w.received[i], w.delivered[i]);
      }
    }
  }
}
