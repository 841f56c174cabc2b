// Which configurations deliver every message as it was sent in every run: exactly those
// with the allocated stride, sizes of 16 bits and a depth that divides 2^32.  Each of the
// others has a run, made of sends and receives alone, that hands out something else.
module MailboxFaults {
  import opened Arithmetic
  import opened Common
  import opened MailboxLayout
  import opened MailboxWrap
  import opened MailboxRing
  import opened MailboxHistory
  import opened MailboxRuns
  import opened MailboxJams

  predicate Good(depth: nat, msgSize: nat, stride: nat)
    requires 0 < depth
  {
    stride == HEADER + msgSize && msgSize < 0x1_0000 && WORD % depth == 0
  }

  // Everything handed out is the message that was sent: id, channel, flags, size, bytes.
  ghost predicate Faithful(w: World)
  {
    |w.delivered| == |w.received| && forall i | 0 <= i < |w.received| :: HandedOut(w, w.received[i], w.delivered[i])
  }

  // ---------------------------------------------------------------- receiving everything

  // A receive that listens to every channel, spelled out.
  lemma TakesFirst(w: World)
    requires Counters(w) && w.tailPos < |w.sent|
    ensures var w' := Step(w, RecvEv(ALL_CHANNELS));
            && Counters(w') && w'.sent == w.sent && w'.base == w.base && w'.skippedNow == w.skippedNow
            && w'.tailPos == w.tailPos + 1
            && w'.received == w.received + [w.tailPos]
            && w'.delivered == w.delivered + [Deliver(w.im, 0, w.im.msgSize)]
            && w'.im.depth == w.im.depth && w'.im.msgSize == w.im.msgSize && w'.im.stride == w.im.stride
  {
    hide Scan, Deliver, Counters;
    FirstToAll(w);
    CountersStep(w, RecvEv(ALL_CHANNELS));
    assert Range(w.tailPos, w.tailPos) == [];
  }

  // The last of a run's deliveries, when the run ends in a receive.
  lemma LastDelivery(w0: World, evs: seq<Event>)
    requires Counters(w0) && Run(w0, evs).tailPos < |Run(w0, evs).sent|
    ensures var w, w' := Run(w0, evs), Run(w0, evs + [RecvEv(ALL_CHANNELS)]);
            && w' == Step(w, RecvEv(ALL_CHANNELS)) && w'.sent == w.sent
            && w'.received == w.received + [w.tailPos]
            && w'.delivered == w.delivered + [Deliver(w.im, 0, w.im.msgSize)]
  {
    hide Run, Step, Deliver;
    RunAppend(w0, evs, [RecvEv(ALL_CHANNELS)]);
    RunOne(Run(w0, evs), RecvEv(ALL_CHANNELS));
    TakesFirst(Run(w0, evs));
  }

  // If what the last delivery hands out is not what was sent, the run is not faithful.
  lemma WrongDelivery(w0: World, evs: seq<Event>)
    requires Counters(w0)
    requires var w := Run(w0, evs);
             w.tailPos < |w.sent| && !HandedOut(w, w.tailPos, Deliver(w.im, 0, w.im.msgSize))
    ensures !Faithful(Run(w0, evs + [RecvEv(ALL_CHANNELS)]))
  {
    hide Run, Step, Deliver;
    var w, w' := Run(w0, evs), Run(w0, evs + [RecvEv(ALL_CHANNELS)]);
    LastDelivery(w0, evs);
    var n := |w.received|;
    assert |w.delivered| == n;
    assert w'.received[n] == w.tailPos && w'.delivered[n] == Deliver(w.im, 0, w.im.msgSize);
  }

  // ---------------------------------------------------------------- the kernel's stride

  // At the bare-header stride the record sent next leaves this one's header alone and
  // replaces its first payload byte by the low byte of its own id.
  lemma NextSendReachesPayload(im: Image, c: byte, p: seq<byte>, d: byte, q: seq<byte>, flags: nat, pid: u32)
    requires im.Valid() && im.stride == HEADER && im.head % im.depth + 1 < im.depth && im.head < WORD - 1
    requires im.count + 1 < im.depth && 0 < |p| <= im.msgSize && |q| <= im.msgSize
    ensures var im1 := Send(im, c, p, flags, pid).0;
            var im2 := Send(im1, d, q, flags, pid).0;
            && ReadHeader(im2.mem, im2.Offset(im.head)) == NewHeader(im, c, |p|, flags, pid)
            && ReadPayload(im2.mem, im2.Offset(im.head), |p|)[0] == Add32(im1.totalSent, 1) % 256
  {
    hide EncodeHeader, DecodeHeader, Splice, ReadHeader, ReadPayload;
    var im1 := Send(im, c, p, flags, pid).0;
    var h, h2 := NewHeader(im, c, |p|, flags, pid), NewHeader(im1, d, |q|, flags, pid);
    SendIs(im, c, p, flags, pid);
    SendIs(im1, d, q, flags, pid);
    NextSlot(im);
    var off := im.Offset(im.head);
    KernelStrideOverwritesPayload(im.mem, off, h, p, h2, q);
    RecordReadsBack(im.mem, off, h, p, 0);
    HeaderElsewhere(im1.mem, off + HEADER, EncodeHeader(h2) + q, off);
  }

  lemma NextSlot(im: Image)
    requires im.Valid() && im.stride == HEADER && im.head % im.depth + 1 < im.depth && im.head < WORD - 1
    ensures im.Offset(Add32(im.head, 1)) == im.Offset(im.head) + HEADER
  {
    DivUnique(im.head + 1, im.depth, im.head / im.depth, im.head % im.depth + 1);
  }

  lemma HeaderElsewhere(m: seq<byte>, off: nat, data: seq<byte>, b: nat)
    requires off + |data| <= |m| && b + HEADER <= off
    ensures ReadHeader(Splice(m, off, data), b) == ReadHeader(m, b)
  {
    hide DecodeHeader, Splice;
    SpliceElsewhere(m, off, data, b, HEADER);
  }

  // A send with any payload at all replaces the low byte of the id of the unread record
  // in the slot after its own.
  lemma PayloadReachesHeader(im: Image, c: byte, p: seq<byte>, flags: nat, pid: u32, k: u32)
    requires im.Valid() && im.stride == HEADER && im.count < im.depth && 0 < |p| <= im.msgSize
    requires im.Index(k) % im.depth == im.head % im.depth + 1
    ensures var im' := Send(im, c, p, flags, pid).0;
            im'.Index(k) == im.Index(k) && im'.HeaderAt(k).msgId % 256 == p[0]
  {
    hide EncodeHeader, DecodeHeader, Splice, ReadHeader;
    SendIs(im, c, p, flags, pid);
    var off := im.Offset(im.head);
    assert im.Offset(im.Index(k)) == off + HEADER;
    var data := EncodeHeader(NewHeader(im, c, |p|, flags, pid)) + p;
    SpliceAt(im.mem, off, data, HEADER);
    IdFromBytes(Send(im, c, p, flags, pid).0.mem, off + HEADER);
  }

  lemma IdFromBytes(m: seq<byte>, off: nat)
    requires off + HEADER <= |m|
    ensures ReadHeader(m, off).msgId % 256 == m[off]
  {
    var s := m[off..off + HEADER];
    var x := FromLe32(s[0..4]);
    var hi := s[1] as int + 256 * (s[2] as int + 256 * (s[3] as int));
    assert x == s[0] as int + 256 * hi;
    DivUnique(x, 256, hi, s[0] as int);
  }

  lemma FirstTwoSends(im: Image, p: seq<byte>, q: seq<byte>)
    requires im.Valid() && im.stride == HEADER && im.head == 0 && im.count == 0
    requires 0 < |p| <= im.msgSize && |q| <= im.msgSize
    ensures var im1 := Send(im, 0, p, 0, 0).0;
            var im2 := Send(im1, 0, q, 0, 0).0;
            && ReadHeader(im2.mem, im2.Offset(0)) == NewHeader(im, 0, |p|, 0, 0)
            && ReadPayload(im2.mem, im2.Offset(0), |p|)[0] == Add32(im1.totalSent, 1) % 256
  {
    hide Send, ReadHeader, ReadPayload;
    DivUnique(0, im.depth, 0, 0);
    NextSendReachesPayload(im, 0, p, 0, q, 0, 0);
  }

  lemma DeliverIs(im: Image)
    requires im.Valid() && im.tail == 0 && Scan(im, ALL_CHANNELS, 0) == Some(0)
    ensures im.Offset(0) + HEADER + im.msgSize <= |im.mem|
    ensures var h := ReadHeader(im.mem, im.Offset(0));
            && Recv(im, ALL_CHANNELS, im.msgSize).1 == Deliver(im, 0, im.msgSize)
            && (h.size <= im.msgSize ==>
                  Deliver(im, 0, im.msgSize)
                  == Got(h.msgId, h.channel, h.flags, h.size, Some(ReadPayload(im.mem, im.Offset(0), h.size))))
  {
    hide ReadHeader, ReadPayload, Scan;
  }

  // The receive that follows, on the image.
  lemma FirstDelivery(im: Image, p: seq<byte>, q: seq<byte>)
    requires im.Valid() && im.stride == HEADER && im.head == 0 && im.tail == 0 && im.count == 0 && im.totalSent == 0
    requires 0 < |p| <= im.msgSize && |p| < 0x1_0000 && |q| <= im.msgSize
    requires Scan(Send(Send(im, 0, p, 0, 0).0, 0, q, 0, 0).0, ALL_CHANNELS, 0) == Some(0)
    ensures var im2 := Send(Send(im, 0, p, 0, 0).0, 0, q, 0, 0).0;
            Corrupted(im2, |p|)
  {
    hide Send, Scan, Recv, Deliver, ReadHeader, ReadPayload, Splice;
    var im1 := Send(im, 0, p, 0, 0).0;
    assert im1.totalSent == 1 && im1.tail == 0 && im1.count < im1.depth by { SendTotals(im, p); }
    SendIs(im, 0, p, 0, 0);
    SendIs(im1, 0, q, 0, 0);
    FirstTwoSends(im, p, q);
    DeliverIs(Send(im1, 0, q, 0, 0).0);
  }

  lemma SendTotals(im: Image, p: seq<byte>)
    requires im.Valid() && im.head == 0 && im.count == 0 && im.totalSent == 0 && |p| <= im.msgSize
    ensures var im1 := Send(im, 0, p, 0, 0).0;
            im1.totalSent == 1 && im1.tail == im.tail && im1.count == 1 < im1.depth
  {
    hide EncodeHeader, Splice;
  }

  // A receive by all gets the first message with the id it was sent under and its size,
  // and 2 for its first byte.
  ghost predicate Corrupted(im: Image, size: nat)
    requires im.Valid()
  {
    var r := Recv(im, ALL_CHANNELS, im.msgSize).1;
    && r == Deliver(im, 0, im.msgSize)
    && r.Got? && r.id == 1 && r.size == size
    && r.data.Some? && |r.data.value| == size > 0 && r.data.value[0] == 2
  }

  // So: a message that carries data, any second message, a receive of the first.
  lemma KernelPayloadRun(depth: nat, msgSize: nat, p: seq<byte>, q: seq<byte>)
    requires Allowed(depth, msgSize, HEADER) && 0 < |p| <= msgSize && |p| < 0x1_0000 && |q| <= msgSize
    ensures var w := Run(Init(depth, msgSize, HEADER), [SendEv(0, p, 0, 0)] + [SendEv(0, q, 0, 0)]);
            w.tailPos == 0 && |w.sent| == 2 && w.sent[0].payload == p && Corrupted(w.im, |p|)
  {
    hide Send, Step, Run, Scan, Corrupted;
    var w0 := Init(depth, msgSize, HEADER);
    var ev, next := SendEv(0, p, 0, 0), SendEv(0, q, 0, 0);
    CountersStep(w0, ev);
    var w1 := Step(w0, ev);
    CountersStep(w1, next);
    var w2 := Step(w1, next);
    RunOne(w0, ev);
    RunOne(w1, next);
    RunAppend(w0, [ev], [next]);
    AcceptedSend(w0, ev);
    SendIs(w0.im, 0, p, 0, 0);
    AcceptedSend(w1, next);
    FirstToAll(w2);
    FirstDelivery(w0.im, p, q);
  }

  lemma SecondRoundReachesHeader(im: Image, x: byte)
    requires im.Valid() && im.stride == HEADER && im.count < im.depth && im.head == im.depth && im.tail == 1
    ensures var im' := Send(im, 0, [x], 0, 0).0;
            im'.Index(0) == 1 && im'.HeaderAt(0).msgId % 256 == x
  {
    hide Send, ReadHeader;
    DivUnique(im.depth, im.depth, 1, 0);
    DivUnique(1, im.depth, 0, 1);
    PayloadReachesHeader(im, 0, [x], 0, 0, 0);
  }

  // And: every slot filled with an empty message, one received, a message of one byte x
  // into the freed slot, and a receive of the second message, which now bears an id that
  // ends in x.
  lemma KernelHeaderRun(depth: nat, msgSize: nat, x: byte) returns (evs: seq<Event>)
    requires Allowed(depth, msgSize, HEADER)
    ensures var w := Run(Init(depth, msgSize, HEADER), evs);
            var r := Recv(w.im, ALL_CHANNELS, w.im.msgSize).1;
            && w.tailPos == 1 < |w.sent| && w.sent[1].id == 2
            && r == Deliver(w.im, 0, w.im.msgSize) && r.Got? && r.id % 256 == x
  {
    hide Send, Step, Run, Scan, Sends, Fates, EncodeHeader, DecodeHeader, ReadHeader, ReadPayload;
    var w0 := Init(depth, msgSize, HEADER);
    var fill, take, ev := Sends(depth, 0), [RecvEv(ALL_CHANNELS)], SendEv(0, [x], 0, 0);
    evs := fill + take + [ev];
    SendsRun(w0, depth, 0);
    var w1 := Run(w0, fill);
    RunAppend(w0, fill, take);
    RunOne(w1, RecvEv(ALL_CHANNELS));
    TakesFirst(w1);
    var w2 := Run(w1, take);
    RunAppend(w0, fill + take, [ev]);
    RunOne(w2, ev);
    RunFates(w0, evs);
    AcceptedSend(w2, ev);
    SendIs(w2.im, 0, [x], 0, 0);
    SecondRoundReachesHeader(w2.im, x);
    FirstToAll(Run(w0, evs));
    IdOf(Run(w0, evs), 1);
  }

  lemma IdOf(w: World, p: nat)
    requires Fates(w) && p < |w.sent|
    ensures w.sent[p].id == (p + 1) % WORD
  {
    hide Increasing, Below;
  }

  lemma KernelStrideFails(depth: nat, msgSize: nat) returns (evs: seq<Event>)
    requires Allowed(depth, msgSize, HEADER)
    ensures !Faithful(Run(Init(depth, msgSize, HEADER), evs))
  {
    hide Run, Deliver, Recv;
    KernelPayloadRun(depth, msgSize, [0], []);
    var sends := [SendEv(0, [0], 0, 0)] + [SendEv(0, [], 0, 0)];
    WrongDelivery(Init(depth, msgSize, HEADER), sends);
    evs := sends + [RecvEv(ALL_CHANNELS)];
  }

  // ---------------------------------------------------------------- sizes past 16 bits

  lemma LargeSizeFails(depth: nat, msgSize: nat, stride: nat) returns (evs: seq<Event>)
    requires Allowed(depth, msgSize, stride) && 0x1_0000 <= msgSize
    ensures !Faithful(Run(Init(depth, msgSize, stride), evs))
  {
    hide Run, Deliver, Step, Send;
    var w0 := Init(depth, msgSize, stride);
    var ev := SendEv(0, Zeros(0x1_0000), 0, 0);
    RunOne(w0, ev);
    AcceptedSend(w0, ev);
    WrongDelivery(w0, [ev]);
    evs := [ev] + [RecvEv(ALL_CHANNELS)];
  }

  // ---------------------------------------------------------------- depths that do not divide 2^32

  // n times: an empty message sent and received.
  function Pairs(n: nat): seq<Event>
  {
    if n == 0 then [] else [SendEv(0, [], 0, 0)] + [RecvEv(ALL_CHANNELS)] + Pairs(n - 1)
  }

  // Nothing in the window, nothing stepped over, nothing flushed.
  ghost predicate Drained(w: World, n: nat)
  {
    Counters(w) && w.tailPos == |w.sent| == n && w.base == 0 && w.skippedNow == 0
  }

  lemma OnePair(w: World, n: nat)
    requires Drained(w, n)
    ensures var w' := Run(w, [SendEv(0, [], 0, 0)] + [RecvEv(ALL_CHANNELS)]);
            && Drained(w', n + 1)
            && w'.im.depth == w.im.depth && w'.im.msgSize == w.im.msgSize && w'.im.stride == w.im.stride
  {
    hide Run, Step, Send;
    var ev := SendEv(0, [], 0, 0);
    CountersStep(w, ev);
    OneSent(w, 0);
    RunOne(w, ev);
    RunAppend(w, [ev], [RecvEv(ALL_CHANNELS)]);
    RunOne(Step(w, ev), RecvEv(ALL_CHANNELS));
    TakesFirst(Step(w, ev));
  }

  lemma {:induction false} PairsRun(w: World, m: nat, n: nat)
    requires Drained(w, m)
    ensures var w' := Run(w, Pairs(n));
            && Drained(w', m + n)
            && w'.im.depth == w.im.depth && w'.im.msgSize == w.im.msgSize && w'.im.stride == w.im.stride
    decreases n
  {
    hide Run, Drained;
    DrainedFacts(w, m);
    if n == 0 {
      assert Pairs(0) == [];
      RunNone(w);
    } else {
      var pair := [SendEv(0, [], 0, 0)] + [RecvEv(ALL_CHANNELS)];
      OnePair(w, m);
      DrainedFacts(Run(w, pair), m + 1);
      RunAppend(w, pair, Pairs(n - 1));
      PairsRun(Run(w, pair), m + 1, n - 1);
    }
  }

  lemma RunNone(w: World)
    requires Counters(w)
    ensures Run(w, []) == w
  {
  }

  // For every depth that does not divide 2^32 a run that leads to the wrap: one message
  // short of 2^32 sent and received, then as many unread ones as are still safe.
  lemma WrapIsReached(depth: nat, msgSize: nat, stride: nat, last: nat) returns (evs: seq<Event>)
    requires Allowed(depth, msgSize, stride) && WORD % depth != 0 && last == WORD - 1
    ensures var w := Run(Init(depth, msgSize, stride), evs);
            var r := WORD % depth;
            && w.im.depth == depth && w.im.msgSize == msgSize && w.im.stride == stride
            && w.tailPos == last && w.base == 0 && w.skippedNow == 0 && |w.sent| == last + r
            && w.im.Live() == r == w.im.count < depth
            && w.im.tail == last && w.im.head == w.im.totalSent == r - 1
            && WindowSafe(w.im.tail, r, depth) && !WindowSafe(w.im.tail, r + 1, depth)
  {
    hide Run, Drained, Pairs, Sends;
    var w0, r := Init(depth, msgSize, stride), WORD % depth;
    assert Drained(w0, 0) by { StartsDrained(depth, msgSize, stride); }
    PairsRun(w0, 0, last);
    var w1 := Run(w0, Pairs(last));
    DrainedFacts(w1, last);
    SendsRun(w1, r, 0);
    RunAppend(w0, Pairs(last), Sends(r, 0));
    evs := Pairs(last) + Sends(r, 0);
    var w2 := Run(w1, Sends(r, 0));
    LiveIsWindow(w2);
    DivUnique(last, WORD, 0, last);
    DivUnique(last + r, WORD, 1, r - 1);
  }

  lemma StartsDrained(depth: nat, msgSize: nat, stride: nat)
    requires Allowed(depth, msgSize, stride)
    ensures Drained(Init(depth, msgSize, stride), 0)
  {
  }

  lemma DrainedFacts(w: World, n: nat)
    requires Drained(w, n)
    ensures Counters(w) && w.im.count == 0 && w.tailPos == |w.sent| == n && w.base == 0 && w.skippedNow == 0
  {
  }

  // One more send, and the first unread message is handed out under the id of the last.
  lemma WrapFails(depth: nat, msgSize: nat, stride: nat, last: nat) returns (evs: seq<Event>)
    requires Allowed(depth, msgSize, stride) && WORD % depth != 0 && last == WORD - 1
    ensures !Faithful(Run(Init(depth, msgSize, stride), evs))
  {
    hide Run, Step, Send, Faithful, WindowSafe, Image.HeaderAt;
    var w0, r := Init(depth, msgSize, stride), WORD % depth;
    var before := WrapIsReached(depth, msgSize, stride, last);
    var w, ev := Run(w0, before), SendEv(0, [], 0, 0);
    RunAppend(w0, before, [ev]);
    RunOne(w, ev);
    RunFates(w0, before + [ev]);
    AcceptedSend(w, ev);
    var w' := Step(w, ev);
    SlotBeforeWrap(0, depth);
    DivUnique(r - 1, depth, 0, r - 1);
    SendLandsOn(w.im, 0, [], 0, 0, 0);
    IdOf(w', last);
    WrongDelivery(w0, before + [ev]);
    evs := before + [ev] + [RecvEv(ALL_CHANNELS)];
  }

  // ---------------------------------------------------------------- the exact condition

  // Every run delivers every message as it was sent, and keeps every unread one as it was
  // sent, exactly at the good configurations.
  lemma DeliversIff(depth: nat, msgSize: nat, stride: nat)
    requires Allowed(depth, msgSize, stride)
    ensures (forall evs: seq<Event> :: Faithful(Run(Init(depth, msgSize, stride), evs)))
            <==> Good(depth, msgSize, stride)
    ensures (forall evs: seq<Event> :: Contents(Run(Init(depth, msgSize, stride), evs)))
            <==> Good(depth, msgSize, stride)
  {
    hide Run, Contents, Faithful;
    var w0 := Init(depth, msgSize, stride);
    forall evs: seq<Event> ensures Contents(Run(w0, evs)) ==> Faithful(Run(w0, evs)) {
      if Contents(Run(w0, evs)) { ContentsFaithful(Run(w0, evs)); }
    }
    if Good(depth, msgSize, stride) {
      forall evs: seq<Event> ensures Contents(Run(w0, evs)) {
        GoodConfigIsSafe(w0, evs);
        RunContents(w0, evs);
      }
    } else {
      var evs := BadConfigFails(depth, msgSize, stride);
      assert !Contents(Run(w0, evs));
    }
  }

  lemma BadConfigFails(depth: nat, msgSize: nat, stride: nat) returns (evs: seq<Event>)
    requires Allowed(depth, msgSize, stride) && !Good(depth, msgSize, stride)
    ensures !Faithful(Run(Init(depth, msgSize, stride), evs))
  {
    hide Run, Faithful;
    if stride == HEADER {
      evs := KernelStrideFails(depth, msgSize);
    } else if 0x1_0000 <= msgSize {
      evs := LargeSizeFails(depth, msgSize, stride);
    } else {
      evs := WrapFails(depth, msgSize, stride, WORD - 1);
    }
  }

  lemma ContentsFaithful(w: World)
    requires Contents(w)
    ensures Faithful(w)
  {
    hide Stored, HandedOut;
  }

  // ---------------------------------------------------------------- poll

  lemma NothingLive(w: World)
    requires Counters(w) && w.tailPos == |w.sent|
    ensures forall mask: u32 :: Recv(w.im, mask, w.im.msgSize).1 == WouldBlock
  {
    hide Scan;
    forall mask: u32 ensures Recv(w.im, mask, w.im.msgSize).1 == WouldBlock {
      EmptyWindowBlocks(w, mask);
    }
  }

  // Channel 0, channel 1, a receive for channel 1 alone: the poll bit says readable, and
  // no receive with any mask finds anything.
  lemma PollDisagrees(depth: nat, msgSize: nat, stride: nat)
    requires Allowed(depth, msgSize, stride)
    ensures var im := Run(Init(depth, msgSize, stride), Sends(1, 0) + Sends(1, 1) + [RecvEv(2)]).im;
            Readable(im) && forall mask: u32 :: Recv(im, mask, im.msgSize).1 == WouldBlock
  {
    hide Step, Contents, Run, Scan, Sends, Recv;
    var w0 := Init(depth, msgSize, stride);
    SendsRun(w0, 1, 0);
    SendsSafe(w0, 1, 0);
    RunContents(w0, Sends(1, 0));
    var w1 := Run(w0, Sends(1, 0));
    SendsRun(w1, 1, 1);
    SendsSafe(w1, 1, 1);
    RunContents(w1, Sends(1, 1));
    var w2 := Run(w1, Sends(1, 1));
    RunAppend(w0, Sends(1, 0), Sends(1, 1));
    RunAppend(w0, Sends(1, 0) + Sends(1, 1), [RecvEv(2)]);
    RunOne(w2, RecvEv(2));
    TakesLast(w2);
    NothingLive(Step(w2, RecvEv(2)));
  }
}
