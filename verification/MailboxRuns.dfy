// Theorems about every run of the mailbox, i.e. every interleaving of sends, receives
// and flushes by any number of processes with any channel masks.
module MailboxRuns {
  import opened Arithmetic
  import opened Common
  import opened MailboxLayout
  import opened MailboxWrap
  import opened MailboxRing
  import opened MailboxHistory

  // ---------------------------------------------------------------- conservation

  // The counters stay consistent at every stride, for arbitrary masks and wraps.
  ghost function Run(w: World, evs: seq<Event>): (w': World)
    requires Counters(w)
    ensures Counters(w')
    decreases |evs|
  {
    if evs == [] then w
    else
      CountersStep(w, evs[0]);
      Run(Step(w, evs[0]), evs[1..])
  }

  lemma {:induction false} RunFates(w: World, evs: seq<Event>)
    requires Counters(w) && Fates(w)
    ensures Fates(Run(w, evs))
    decreases |evs|
  {
    if evs != [] {
      CountersStep(w, evs[0]);
      FatesStep(w, evs[0]);
      RunFates(Step(w, evs[0]), evs[1..]);
    }
  }

  // Whatever the masks: live messages plus those stepped over make up `count`, which
  // never underflows or passes depth; those stepped over never reach it; and every
  // message ever sent is received, stepped over, flushed or live, and only one of these.
  lemma Conservation(depth: nat, msgSize: nat, stride: nat, evs: seq<Event>)
    requires Allowed(depth, msgSize, stride)
    ensures var w := Run(Init(depth, msgSize, stride), evs);
            && Fates(w)
            && w.im.Live() == |w.sent| - w.tailPos
            && 0 <= w.im.Live() <= w.im.count <= w.im.depth
            && w.im.count == w.im.Live() + w.skippedNow
            && w.skippedNow < w.im.depth
            && |w.sent| == |w.received| + |w.skipped| + |w.flushed| + w.im.Live()
            && w.im.totalSent == |w.sent| % WORD
            && w.im.totalRecv == |w.received| % WORD
  {
    RunFates(Init(depth, msgSize, stride), evs);
    LiveIsWindow(Run(Init(depth, msgSize, stride), evs));
  }

  // ---------------------------------------------------------------- who can proceed

  // Neither a send of an acceptable size nor a receive with any mask can proceed.
  ghost predicate Stuck(im: Image)
    requires im.Valid()
  {
    && (forall channel: byte, payload: seq<byte>, flags: nat, pid: u32 | |payload| <= im.msgSize ::
          Send(im, channel, payload, flags, pid).1 == NoBufs)
    && (forall mask: u32 :: Recv(im, mask, im.msgSize).1 == WouldBlock)
  }

  lemma EmptyWindowBlocks(w: World, mask: u32)
    requires Counters(w) && w.tailPos == |w.sent|
    ensures Scan(w.im, mask, 0) == None
  {
    LiveIsWindow(w);
    ScanIsFirstMatch(w.im, mask, 0);
  }

  // A receive that listens to every channel takes the first live record.
  lemma FirstToAll(w: World)
    requires Counters(w) && w.tailPos < |w.sent|
    ensures Scan(w.im, ALL_CHANNELS, 0) == Some(0)
  {
    hide DecodeHeader;
    LiveIsWindow(w);
    ScanIsFirstMatch(w.im, ALL_CHANNELS, 0);
    AllChannelsMatch(w.im.HeaderAt(0).channel);
    assert Selects(w.im, ALL_CHANNELS, 0);
  }

  // In every reachable state some send or some receive can proceed.
  lemma NeverStuck(depth: nat, msgSize: nat, stride: nat, evs: seq<Event>)
    requires Allowed(depth, msgSize, stride)
    ensures !Stuck(Run(Init(depth, msgSize, stride), evs).im)
  {
    hide EncodeHeader, DecodeHeader, Run;
    var w := Run(Init(depth, msgSize, stride), evs);
    if w.im.count < w.im.depth {
      assert Send(w.im, 0, [], 0, 0).1 != NoBufs;
    } else {
      FirstToAll(w);
      assert Recv(w.im, ALL_CHANNELS, w.im.msgSize).1 != WouldBlock;
    }
  }

  // A send of acceptable size is accepted exactly while live messages and those stepped
  // over leave room: what a receive steps over is capacity lost.
  lemma AcceptedIff(w: World, channel: byte, payload: seq<byte>, flags: nat, pid: u32)
    requires Counters(w) && |payload| <= w.im.msgSize
    ensures Send(w.im, channel, payload, flags, pid).1.Sent? <==> w.im.Live() + w.skippedNow < w.im.depth
  {
    hide EncodeHeader;
    LiveIsWindow(w);
  }

  // ... until the next flush: no send or receive gives any of it back.
  lemma {:induction false} LossLastsUntilFlush(w: World, evs: seq<Event>)
    requires Counters(w) && forall i | 0 <= i < |evs| :: !evs[i].FlushEv?
    ensures w.skippedNow <= Run(w, evs).skippedNow && Run(w, evs).im.depth == w.im.depth
    decreases |evs|
  {
    hide EncodeHeader, DecodeHeader;
    if evs != [] {
      CountersStep(w, evs[0]);
      StepKeepsConfig(w, evs[0]);
      LossLastsUntilFlush(Step(w, evs[0]), evs[1..]);
    }
  }

  lemma {:induction false} RunAppend(w: World, evs: seq<Event>, more: seq<Event>)
    requires Counters(w)
    ensures Run(w, evs + more) == Run(Run(w, evs), more)
    decreases |evs|
  {
    if evs == [] {
      assert evs + more == more;
    } else {
      CountersStep(w, evs[0]);
      assert (evs + more)[1..] == evs[1..] + more;
      RunAppend(Step(w, evs[0]), evs[1..], more);
    }
  }

  // ---------------------------------------------------------------- what is delivered

  ghost predicate AllSafe(w: World, evs: seq<Event>)
    requires Counters(w)
    decreases |evs|
  {
    evs == [] || (Safe(w, evs[0]) && (CountersStep(w, evs[0]); AllSafe(Step(w, evs[0]), evs[1..])))
  }

  lemma ContentsStep(w: World, ev: Event)
    requires Counters(w) && Contents(w) && Safe(w, ev)
    ensures Contents(Step(w, ev))
  {
    match ev
    case SendEv(_, _, _, _) => ContentsSend(w, ev);
    case RecvEv(_) => ContentsRecv(w, ev);
    case FlushEv => ContentsFlush(w);
  }

  lemma ContentsFlush(w: World)
    requires Counters(w) && Contents(w)
    ensures Contents(Step(w, FlushEv))
  {
    var w' := Step(w, FlushEv);
    forall i | 0 <= i < |w'.received| ensures HandedOut(w', w'.received[i], w'.delivered[i]) {
      assert HandedOut(w, w.received[i], w.delivered[i]);
    }
  }

  // Byte for byte, whatever happened to the other slots in between, a message is
  // handed out as it was sent.
  lemma {:induction false} RunContents(w: World, evs: seq<Event>)
    requires Counters(w) && Contents(w) && AllSafe(w, evs)
    ensures Contents(Run(w, evs))
    decreases |evs|
  {
    if evs != [] {
      CountersStep(w, evs[0]);
      ContentsStep(w, evs[0]);
      RunContents(Step(w, evs[0]), evs[1..]);
    }
  }

  // Over any safe run from creation, across consumers and flushes, message ids handed out
  // are strictly increasing and name the messages sent (until 2^32 have been sent).
  lemma IdsIncrease(depth: nat, msgSize: nat, stride: nat, evs: seq<Event>, i: nat, j: nat)
    requires Allowed(depth, msgSize, stride) && AllSafe(Init(depth, msgSize, stride), evs)
    requires var w := Run(Init(depth, msgSize, stride), evs);
             |w.sent| < WORD && i < j < |w.received|
    ensures var w := Run(Init(depth, msgSize, stride), evs);
            && |w.delivered| == |w.received| && w.received[i] < |w.sent| && |w.sent[w.received[i]].payload| < 0x1_0000
            && w.delivered[i].Got? && w.delivered[j].Got?
            && w.delivered[i].id == w.received[i] + 1 && w.delivered[i].id < w.delivered[j].id
            && w.delivered[i] == Delivery(w.sent[w.received[i]])
  {
    hide Contents, Fates, Counters, Run, AllSafe;
    var w := Run(Init(depth, msgSize, stride), evs);
    RunFates(Init(depth, msgSize, stride), evs);
    RunContents(Init(depth, msgSize, stride), evs);
    IdAt(w, i);
    IdAt(w, j);
    ReceivedIncreases(w, i, j);
  }

  lemma IdAt(w: World, i: nat)
    requires Counters(w) && Fates(w) && Contents(w) && |w.sent| < WORD && i < |w.received|
    ensures |w.delivered| == |w.received| && w.received[i] < |w.sent|
    ensures |w.sent[w.received[i]].payload| < 0x1_0000 && w.delivered[i] == Delivery(w.sent[w.received[i]])
    ensures w.delivered[i].id == w.received[i] + 1
  {
    hide Increasing, Below, Stored;
    assert HandedOut(w, w.received[i], w.delivered[i]);
  }

  lemma ReceivedIncreases(w: World, i: nat, j: nat)
    requires Fates(w) && i < j < |w.received|
    ensures w.received[i] < w.received[j]
  {
    hide Below;
  }

  // ---------------------------------------------------------------- FIFO

  // A receive whose mask covers every channel that is queued.
  ghost predicate Covering(w: World, ev: Event)
    requires w.Shape()
  {
    ev.RecvEv? ==> forall p: nat | w.tailPos <= p < |w.sent| :: Matches(w.sent[p].channel, ev.mask)
  }

  ghost predicate AllCover(w: World, evs: seq<Event>)
    requires Counters(w)
    decreases |evs|
  {
    evs == [] || (Covering(w, evs[0]) && (CountersStep(w, evs[0]); AllCover(Step(w, evs[0]), evs[1..])))
  }

  // Since the last flush a prefix of what was sent has been received, in order.
  ghost predicate Fifo(w: World)
    requires w.Shape()
  {
    && w.skipped == [] && w.skippedNow == 0
    && w.received[w.receivedAtFlush..] == Range(w.base, w.tailPos)
  }

  lemma FirstIsTaken(w: World, mask: u32)
    requires Counters(w) && Contents(w) && Covering(w, RecvEv(mask))
    ensures Scan(w.im, mask, 0) == if w.tailPos < |w.sent| then Some(0) else None
  {
    LiveIsWindow(w);
    if w.tailPos < |w.sent| {
      WindowIndex(w, 0);
      assert Stored(w, w.tailPos);
      assert Selects(w.im, mask, 0);
    } else {
      EmptyWindowBlocks(w, mask);
    }
  }

  lemma RangeExtends(a: nat, b: nat)
    requires a <= b
    ensures Range(a, b + 1) == Range(a, b) + [b]
  {
  }

  lemma FifoStep(w: World, ev: Event)
    requires Counters(w) && Contents(w) && Fifo(w)
    requires Covering(w, ev)
    ensures Step(w, ev).Shape() && Fifo(Step(w, ev))
  {
    hide EncodeHeader, DecodeHeader;
    CountersStep(w, ev);
    if ev.RecvEv? {
      FirstIsTaken(w, ev.mask);
      RangeExtends(w.base, w.tailPos);
      assert Range(w.tailPos, w.tailPos) == [];
    }
  }

  lemma {:induction false} RunFifo(w: World, evs: seq<Event>)
    requires Counters(w) && Contents(w) && Fifo(w) && AllSafe(w, evs) && AllCover(w, evs)
    ensures Fifo(Run(w, evs))
    decreases |evs|
  {
    if evs != [] {
      CountersStep(w, evs[0]);
      ContentsStep(w, evs[0]);
      FifoStep(w, evs[0]);
      RunFifo(Step(w, evs[0]), evs[1..]);
    }
  }

  // Whole-run FIFO: when every receive covers the queued channels, what was handed out
  // since the last flush is a prefix of what was sent since then, the window holds the
  // rest in order, and `count` is exactly head minus tail.
  lemma FifoRefinement(depth: nat, msgSize: nat, stride: nat, evs: seq<Event>)
    requires Allowed(depth, msgSize, stride)
    requires AllSafe(Init(depth, msgSize, stride), evs) && AllCover(Init(depth, msgSize, stride), evs)
    ensures var w := Run(Init(depth, msgSize, stride), evs);
            var n := w.tailPos - w.base;
            && n == |w.received| - w.receivedAtFlush
            && w.im.count == w.im.Live() == |w.sent| - w.tailPos
            && (forall i | 0 <= i < n :: PrefixReceived(w, i))
            && (forall k: u32 | k < w.im.Live() :: Waiting(w, k))
  {
    var w0 := Init(depth, msgSize, stride);
    RunContents(w0, evs);
    RunFifo(w0, evs);
    FifoReading(Run(w0, evs));
  }

  // The i-th message handed out since the last flush is the i-th one sent since then.
  ghost predicate PrefixReceived(w: World, i: nat)
  {
    w.receivedAtFlush + i < |w.delivered| && HandedOut(w, w.base + i, w.delivered[w.receivedAtFlush + i])
  }

  // The k-th record of the window is the k-th message sent and not yet received.
  ghost predicate Waiting(w: World, k: u32)
  {
    w.Shape() && HandedOut(w, w.tailPos + k, Deliver(w.im, k, w.im.msgSize))
  }

  lemma FifoReading(w: World)
    requires Counters(w) && Contents(w) && Fifo(w)
    ensures w.tailPos - w.base == |w.received| - w.receivedAtFlush
    ensures w.im.count == w.im.Live() == |w.sent| - w.tailPos
    ensures forall i | 0 <= i < w.tailPos - w.base :: PrefixReceived(w, i)
    ensures forall k: u32 | k < w.im.Live() :: Waiting(w, k)
  {
    LiveIsWindow(w);
    forall i | 0 <= i < w.tailPos - w.base ensures PrefixReceived(w, i) {
      var j := w.receivedAtFlush + i;
      assert w.received[j] == w.received[w.receivedAtFlush..][i] == w.base + i;
      assert HandedOut(w, w.received[j], w.delivered[j]);
    }
    forall k: u32 | k < w.im.Live() ensures Waiting(w, k) {
      WindowWaits(w, k);
    }
  }

  lemma WindowWaits(w: World, k: u32)
    requires Counters(w) && Contents(w) && w.tailPos + k < |w.sent|
    ensures Waiting(w, k)
  {
    WindowIndex(w, k);
    assert Stored(w, w.tailPos + k);
    HeldIsDelivered(w.im, k, w.sent[w.tailPos + k]);
  }

  // ---------------------------------------------------------------- when sends are safe

  lemma StepKeepsConfig(w: World, ev: Event)
    requires Counters(w)
    ensures var im' := Step(w, ev).im;
            im'.depth == w.im.depth && im'.msgSize == w.im.msgSize && im'.stride == w.im.stride
  {
  }

  // At the allocated stride, with payloads that fit the 16-bit size field and a depth
  // that divides 2^32, every run is safe: nothing is asked of the callers.
  lemma {:induction false} GoodConfigIsSafe(w: World, evs: seq<Event>)
    requires Counters(w)
    requires w.im.stride == HEADER + w.im.msgSize && w.im.msgSize < 0x1_0000 && WORD % w.im.depth == 0
    ensures AllSafe(w, evs)
    decreases |evs|
  {
    if evs != [] {
      CountersStep(w, evs[0]);
      StepKeepsConfig(w, evs[0]);
      GoodConfigIsSafe(Step(w, evs[0]), evs[1..]);
    }
  }

  // Otherwise: an accepted send for which the window would straddle the wrap badly
  // puts its record on top of one nobody has read.
  lemma UnsafeWrapOverwritesUnread(w: World, ev: Event) returns (k: u32)
    requires Counters(w) && ev.SendEv? && |ev.payload| <= w.im.msgSize && w.im.count < w.im.depth
    requires WindowSafe(w.im.tail, w.im.Live(), w.im.depth)
    requires !WindowSafe(w.im.tail, w.im.Live() + 1, w.im.depth)
    ensures k < w.im.Live() && Step(w, ev).im.Index(k) == w.im.Index(k)
    ensures Step(w, ev).im.HeaderAt(k).msgId == Step(w, ev).sent[|w.sent|].id
  {
    hide EncodeHeader, DecodeHeader, WindowSafe, Image.HeaderAt;
    k := SlotTaken(w);
    SendLandsOn(w.im, ev.channel, ev.payload, ev.flags, ev.pid, k);
    AcceptedSend(w, ev);
  }

  // The live record whose slot is the next one to be written.
  lemma SlotTaken(w: World) returns (k: u32)
    requires Counters(w) && w.im.count < w.im.depth
    requires WindowSafe(w.im.tail, w.im.Live(), w.im.depth)
    requires !WindowSafe(w.im.tail, w.im.Live() + 1, w.im.depth)
    ensures k < w.im.Live() && w.im.Index(k) % w.im.depth == w.im.head % w.im.depth
  {
    hide WindowSafe;
    LiveIsWindow(w);
    var t, n := w.tailPos - w.base, w.im.Live();
    WindowSafeReduced(t, n, w.im.depth);
    WindowSafeReduced(t, n + 1, w.im.depth);
    var x, y := UnsafeWindowCollides(t, n + 1, w.im.depth);
    if y < t + n {
      SafePairDiffers(t, n, w.im.depth, x, y);
    }
    k := x - t;
    WindowIndex(w, k);
  }

  // What an accepted send changes in the image.
  lemma SendIs(im: Image, channel: byte, payload: seq<byte>, flags: nat, pid: u32)
    requires im.Valid() && |payload| <= im.msgSize && im.count < im.depth
    ensures im.Offset(im.head) + HEADER + |payload| <= |im.mem|
    ensures var im' := Send(im, channel, payload, flags, pid).0;
            && im'.mem == Splice(im.mem, im.Offset(im.head),
                                 EncodeHeader(NewHeader(im, channel, |payload|, flags, pid)) + payload)
            && im'.tail == im.tail && im'.depth == im.depth && im'.stride == im.stride && im'.msgSize == im.msgSize
            && forall idx: u32 :: im'.Offset(idx) == im.Offset(idx)
  {
    hide EncodeHeader, DecodeHeader, Splice;
  }

  // The record it writes, read back: the header and any prefix of the payload.
  lemma SendWrites(im: Image, channel: byte, payload: seq<byte>, flags: nat, pid: u32, n: nat)
    requires im.Valid() && |payload| <= im.msgSize && im.count < im.depth && n <= |payload|
    ensures var im' := Send(im, channel, payload, flags, pid).0;
            && ReadHeader(im'.mem, im'.Offset(im.head)) == NewHeader(im, channel, |payload|, flags, pid)
            && ReadPayload(im'.mem, im'.Offset(im.head), n) == payload[..n]
  {
    hide EncodeHeader, DecodeHeader, Splice, Send, NewHeader, ReadHeader, ReadPayload, Start;
    SendIs(im, channel, payload, flags, pid);
    RecordReadsBack(im.mem, im.Offset(im.head), NewHeader(im, channel, |payload|, flags, pid), payload, n);
  }

  // A send into the slot of the record at distance k replaces that record.
  lemma SendLandsOn(im: Image, channel: byte, payload: seq<byte>, flags: nat, pid: u32, k: u32)
    requires im.Valid() && |payload| <= im.msgSize && im.count < im.depth
    requires im.Index(k) % im.depth == im.head % im.depth
    ensures var im' := Send(im, channel, payload, flags, pid).0;
            im'.Index(k) == im.Index(k) && im'.HeaderAt(k) == NewHeader(im, channel, |payload|, flags, pid)
  {
    hide EncodeHeader, DecodeHeader, Splice, Send, NewHeader, ReadHeader;
    SendIs(im, channel, payload, flags, pid);
    SendWrites(im, channel, payload, flags, pid, 0);
  }

  lemma WindowSafeReduced(t: nat, n: nat, depth: nat)
    requires 0 < depth
    ensures WindowSafe(t, n, depth) == WindowSafe(t % WORD, n, depth)
  {
    DivUnique(t % WORD, WORD, 0, t % WORD);
  }

  // A payload past 65535 bytes is stored whole but its size field is cut to 16 bits,
  // so only the first size mod 2^16 bytes are ever handed out.
  lemma OversizeIsTruncated(im: Image, channel: byte, payload: seq<byte>, flags: nat, pid: u32)
    requires im.Valid() && |payload| <= im.msgSize && im.count < im.depth
    ensures var im' := Send(im, channel, payload, flags, pid).0;
            var n := |payload| % 0x1_0000;
            && n <= |payload| && im'.Offset(im.head) + HEADER + |payload| <= |im'.mem|
            && ReadHeader(im'.mem, im'.Offset(im.head)).size == n
            && ReadPayload(im'.mem, im'.Offset(im.head), n) == payload[..n]
            && (n == |payload| <==> |payload| < 0x1_0000)
  {
    hide EncodeHeader, DecodeHeader, Send, ReadHeader, ReadPayload, Start, NewHeader;
    var n := |payload| % 0x1_0000;
    NewHeaderSize(im, channel, |payload|, flags, pid);
    SendIs(im, channel, payload, flags, pid);
    SendWrites(im, channel, payload, flags, pid, n);
  }

  lemma NewHeaderSize(im: Image, channel: byte, size: nat, flags: nat, pid: u32)
    ensures var n := NewHeader(im, channel, size, flags, pid).size;
            n == size % 0x1_0000 && n <= size && (n == size <==> size < 0x1_0000)
  {
  }

  // Sent to an empty mailbox and received, such a payload comes out cut.
  lemma OversizeIsDelivered(w: World, channel: byte, payload: seq<byte>, flags: nat, pid: u32)
    requires Counters(w) && w.tailPos == |w.sent| && w.im.count < w.im.depth && |payload| <= w.im.msgSize
    ensures var w' := Step(w, SendEv(channel, payload, flags, pid));
            var n := |payload| % 0x1_0000;
            n <= |payload| && Recv(w'.im, ALL_CHANNELS, w'.im.msgSize).1
            == Got(Add32(w.im.totalSent, 1), channel, flags % 256, n, Some(payload[..n]))
  {
    hide EncodeHeader, DecodeHeader, Send, Step, ReadHeader, ReadPayload, Start, Scan, Splice;
    var ev := SendEv(channel, payload, flags, pid);
    var w' := Step(w, ev);
    AcceptedSend(w, ev);
    CountersStep(w, ev);
    SendIs(w.im, channel, payload, flags, pid);
    LiveIsWindow(w);
    LiveIsWindow(w');
    FirstToAll(w');
    SendWrites(w.im, channel, payload, flags, pid, |payload| % 0x1_0000);
  }

  // ---------------------------------------------------------------- peek and poll

  // A peek names what the next receive with that mask gets, or that it gets nothing,
  // and still does so after any number of safe sends by others.
  lemma {:induction false} PeekPredictsRecv(w: World, mask: u32, evs: seq<Event>)
    requires Counters(w) && Contents(w) && AllSafe(w, evs)
    requires forall i | 0 <= i < |evs| :: evs[i].SendEv?
    ensures var r := Peek(w.im, mask, w.im.msgSize);
            var w' := Run(w, evs);
            && (r.Got? ==> Recv(w'.im, mask, w'.im.msgSize).1 == r)
            && (evs == [] ==> Recv(w'.im, mask, w'.im.msgSize).1 == r)
    decreases |evs|
  {
    if evs != [] && Peek(w.im, mask, w.im.msgSize).Got? {
      CountersStep(w, evs[0]);
      ContentsStep(w, evs[0]);
      PeekSurvivesSend(w, mask, evs[0]);
      PeekPredictsRecv(Step(w, evs[0]), mask, evs[1..]);
    }
  }

  lemma PeekSurvivesSend(w: World, mask: u32, ev: Event)
    requires Counters(w) && Contents(w) && ev.SendEv? && Safe(w, ev)
    requires Peek(w.im, mask, w.im.msgSize).Got?
    ensures var w' := Step(w, ev);
            Peek(w'.im, mask, w'.im.msgSize) == Peek(w.im, mask, w.im.msgSize)
  {
    hide EncodeHeader, DecodeHeader;
    var w' := Step(w, ev);
    CountersStep(w, ev);
    ContentsStep(w, ev);
    LiveIsWindow(w);
    LiveIsWindow(w');
    ScanIsFirstMatch(w.im, mask, 0);
    var k := Scan(w.im, mask, 0).value;
    forall i: u32 | i <= k ensures Selects(w'.im, mask, i) == Selects(w.im, mask, i) {
      SameRecord(w, w', i);
    }
    SameRecord(w, w', k);
    SameScan(w.im, w'.im, mask, 0, k);
  }

  lemma SameRecord(w: World, w': World, i: u32)
    requires Counters(w) && Counters(w') && Contents(w) && Contents(w')
    requires w.sent <= w'.sent && w.tailPos == w'.tailPos && w.tailPos + i < |w.sent|
    ensures Deliver(w'.im, i, w'.im.msgSize) == Deliver(w.im, i, w.im.msgSize)
  {
    WindowWaits(w, i);
    WindowWaits(w', i);
  }

  lemma {:induction false} SameScan(im: Image, im': Image, mask: u32, i: u32, k: u32)
    requires im.Valid() && im'.Valid() && im.depth == im'.depth && im.Live() <= im.depth && im'.Live() <= im.depth
    requires i <= k < im.Live() && k < im'.Live()
    requires Scan(im, mask, i) == Some(k)
    requires forall j: u32 | j <= k :: Selects(im', mask, j) == Selects(im, mask, j)
    ensures Scan(im', mask, i) == Some(k)
    decreases k - i
  {
    hide Selects;
    ScanIsFirstMatch(im, mask, i);
    IndexIsHeadIff(im, i);
    IndexIsHeadIff(im', i);
    assert Selects(im', mask, i) == Selects(im, mask, i);
    if !Selects(im, mask, i) {
      SameScan(im, im', mask, i + 1, k);
    }
  }

  // On a first-in first-out run the poll bit is exact for every covering mask.
  lemma PollExactOnFifo(depth: nat, msgSize: nat, stride: nat, evs: seq<Event>, mask: u32)
    requires Allowed(depth, msgSize, stride)
    requires AllSafe(Init(depth, msgSize, stride), evs) && AllCover(Init(depth, msgSize, stride), evs)
    requires Covering(Run(Init(depth, msgSize, stride), evs), RecvEv(mask))
    ensures var im := Run(Init(depth, msgSize, stride), evs).im;
            Readable(im) <==> Recv(im, mask, im.msgSize).1.Got?
  {
    hide Run, AllSafe, AllCover;
    var w0 := Init(depth, msgSize, stride);
    assert Fifo(w0);
    RunContents(w0, evs);
    RunFifo(w0, evs);
    FirstIsTaken(Run(w0, evs), mask);
  }

  // The poll bit agrees with a receive that covers the queued channels exactly when
  // something is live or nothing has been stepped over.
  lemma PollAgreesIff(w: World, mask: u32)
    requires Counters(w) && Contents(w) && Covering(w, RecvEv(mask))
    ensures (Readable(w.im) <==> Recv(w.im, mask, w.im.msgSize).1.Got?)
            <==> w.im.Live() > 0 || w.skippedNow == 0
  {
    LiveIsWindow(w);
    FirstIsTaken(w, mask);
  }

  // ---------------------------------------------------------------- read

  // The short form of read hands out the message's bytes; on an empty window it takes
  // the positive error code for a size and hands out that many zero bytes, so the two
  // cannot be told apart exactly when the message is seven zeros.
  lemma ReadOnEmpty(w: World, mask: u32)
    requires Counters(w) && Contents(w)
    ensures var (k, out) := (Scan(w.im, mask, 0), ReadOut(w.im, mask).1);
            && (k.Some? ==> w.tailPos + k.value < |w.sent| && out == w.sent[w.tailPos + k.value].payload)
            && (k.None? ==> out == Zeros(7) && ReadOut(w.im, mask).0 == w.im)
            && (out == Zeros(7) <==> k.None? || w.sent[w.tailPos + k.value].payload == Zeros(7))
  {
    hide DecodeHeader, Scan;
    LiveIsWindow(w);
    ScanIsFirstMatch(w.im, mask, 0);
    var k := Scan(w.im, mask, 0);
    if k.Some? {
      WindowWaits(w, k.value);
      var m := w.sent[w.tailPos + k.value].payload;
      assert (m + Zeros(w.im.msgSize - |m|))[..|m|] == m;
    }
  }
}
