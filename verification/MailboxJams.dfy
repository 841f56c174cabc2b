// What receivers that listen to some channels only can do to a mailbox: the jam in which
// neither senders nor these receivers can go on, when it occurs, how long it lasts, and a
// run that reaches it with one message left in the window.
module MailboxJams {
  import opened Arithmetic
  import opened Common
  import opened MailboxLayout
  import opened MailboxRing
  import opened MailboxHistory
  import opened MailboxRuns

  // No send of an acceptable size and no receive with one of the masks can proceed.
  ghost predicate Jammed(im: Image, masks: set<u32>)
    requires im.Valid()
  {
    && (forall channel: byte, payload: seq<byte>, flags: nat, pid: u32 | |payload| <= im.msgSize ::
          Send(im, channel, payload, flags, pid).1 == NoBufs)
    && (forall mask: u32 | mask in masks :: Recv(im, mask, im.msgSize).1 == WouldBlock)
  }

  // No message in the window is on a channel that one of the masks selects.
  ghost predicate Unheard(w: World, masks: set<u32>)
  {
    forall p: nat, mask: u32 | w.tailPos <= p < |w.sent| && mask in masks :: !Matches(w.sent[p].channel, mask)
  }

  lemma SelectsBySent(w: World, mask: u32, k: u32)
    requires Counters(w) && Contents(w) && w.tailPos + k < |w.sent|
    ensures Selects(w.im, mask, k) <==> Matches(w.sent[w.tailPos + k].channel, mask)
  {
    hide DecodeHeader;
    WindowWaits(w, k);
  }

  // What a receive finds, in terms of the messages sent.
  lemma ScanBySent(w: World, mask: u32)
    requires Counters(w) && Contents(w)
    ensures var k := Scan(w.im, mask, 0);
            && (k.Some? ==> w.tailPos + k.value < |w.sent| && Matches(w.sent[w.tailPos + k.value].channel, mask))
            && forall p: nat | w.tailPos <= p < (if k.Some? then w.tailPos + k.value else |w.sent|) ::
                 !Matches(w.sent[p].channel, mask)
  {
    hide Scan, Matches, Selects;
    LiveIsWindow(w);
    ScanIsFirstMatch(w.im, mask, 0);
    var k := Scan(w.im, mask, 0);
    if k.Some? { SelectsBySent(w, mask, k.value); }
    forall p: nat | w.tailPos <= p < (if k.Some? then w.tailPos + k.value else |w.sent|)
      ensures !Matches(w.sent[p].channel, mask)
    {
      assert !Selects(w.im, mask, p - w.tailPos);
      SelectsBySent(w, mask, p - w.tailPos);
    }
  }

  // The jam occurs exactly when the queue counts as full and none of the receivers
  // listens to any channel that is live.
  lemma JammedIff(w: World, masks: set<u32>)
    requires Counters(w) && Contents(w)
    ensures Jammed(w.im, masks) <==> w.im.count == w.im.depth && Unheard(w, masks)
  {
    hide Scan, Matches, EncodeHeader, DecodeHeader, Deliver;
    forall mask: u32 | mask in masks
      ensures Recv(w.im, mask, w.im.msgSize).1 == WouldBlock <==>
                forall p: nat | w.tailPos <= p < |w.sent| :: !Matches(w.sent[p].channel, mask)
    {
      ScanBySent(w, mask);
      DeliverGot(w.im, mask);
    }
    if w.im.count < w.im.depth {
      assert Send(w.im, 0, [], 0, 0).1 != NoBufs;
    }
  }

  lemma DeliverGot(im: Image, mask: u32)
    requires im.Valid()
    ensures Recv(im, mask, im.msgSize).1 == WouldBlock <==> Scan(im, mask, 0).None?
  {
    hide Scan;
  }

  // It lasts through any sends and any receives by these receivers: nothing is accepted
  // and nothing handed out until someone flushes or another receiver comes along.
  lemma {:induction false} JamPersists(w: World, masks: set<u32>, evs: seq<Event>)
    requires Counters(w) && Jammed(w.im, masks)
    requires forall i | 0 <= i < |evs| :: !evs[i].FlushEv? && (evs[i].RecvEv? ==> evs[i].mask in masks)
    ensures var w' := Run(w, evs);
            w'.sent == w.sent && w'.received == w.received && Jammed(w'.im, masks)
    decreases |evs|
  {
    hide Scan, EncodeHeader, DecodeHeader, Jammed;
    if evs != [] {
      CountersStep(w, evs[0]);
      JamStep(w, masks, evs[0]);
      JamPersists(Step(w, evs[0]), masks, evs[1..]);
    }
  }

  lemma JamStep(w: World, masks: set<u32>, ev: Event)
    requires Counters(w) && Jammed(w.im, masks) && !ev.FlushEv? && (ev.RecvEv? ==> ev.mask in masks)
    ensures var w' := Step(w, ev);
            w'.sent == w.sent && w'.received == w.received && Jammed(w'.im, masks)
  {
    hide Scan, EncodeHeader, DecodeHeader;
    assert Send(w.im, 0, [], 0, 0).1 == NoBufs;
    var w' := Step(w, ev);
    if ev.RecvEv? {
      DeliverGot(w.im, ev.mask);
    } else {
      assert w'.im == w.im.(dropped := w'.im.dropped);
      forall mask: u32 | mask in masks ensures Recv(w'.im, mask, w'.im.msgSize).1 == WouldBlock {
        assert Recv(w.im, mask, w.im.msgSize).1 == WouldBlock;
        DeliverGot(w.im, mask);
        SameScanDropped(w.im, w'.im.dropped, mask, 0);
        DeliverGot(w'.im, mask);
      }
    }
  }

  lemma {:induction false} SameScanDropped(im: Image, dropped: u32, mask: u32, k: u32)
    requires im.Valid()
    ensures Scan(im.(dropped := dropped), mask, k) == Scan(im, mask, k)
    decreases im.depth - k
  {
    hide DecodeHeader, Matches;
    if k < im.depth { SameScanDropped(im, dropped, mask, k + 1); }
  }

  // ---------------------------------------------------------------- a run into the jam

  // n empty messages on channel c.
  function Sends(n: nat, c: byte): seq<Event>
  {
    if n == 0 then [] else [SendEv(c, [], 0, 0)] + Sends(n - 1, c)
  }

  // w' is w after n accepted sends on channel c.
  ghost predicate Sent(w: World, n: nat, c: byte, w': World)
  {
    && |w'.sent| == |w.sent| + n && w.sent <= w'.sent
    && (forall p: nat | |w.sent| <= p < |w'.sent| :: w'.sent[p].channel == c)
    && w'.tailPos == w.tailPos && w'.base == w.base && w'.skippedNow == w.skippedNow
    && w'.received == w.received && w'.delivered == w.delivered
    && w'.im.depth == w.im.depth && w'.im.msgSize == w.im.msgSize && w'.im.stride == w.im.stride
    && w'.im.tail == w.im.tail
  }

  lemma OneSent(w: World, c: byte)
    requires Counters(w) && w.im.count < w.im.depth
    ensures Sent(w, 1, c, Step(w, SendEv(c, [], 0, 0)))
  {
    hide EncodeHeader;
    AcceptedSend(w, SendEv(c, [], 0, 0));
  }

  lemma {:induction false} SendsRun(w: World, n: nat, c: byte)
    requires Counters(w) && w.im.count + n <= w.im.depth
    ensures Sent(w, n, c, Run(w, Sends(n, c)))
    decreases n
  {
    hide Step;
    if n > 0 {
      var ev := SendEv(c, [], 0, 0);
      CountersStep(w, ev);
      OneSent(w, c);
      SendsRun(Step(w, ev), n - 1, c);
      assert Sends(n, c)[1..] == Sends(n - 1, c);
    }
  }

  lemma {:induction false} SendsSafe(w: World, n: nat, c: byte)
    requires Counters(w) && w.im.count + n <= w.im.depth && w.im.tail == 0
    ensures AllSafe(w, Sends(n, c))
    decreases n
  {
    hide Step;
    if n > 0 {
      var ev := SendEv(c, [], 0, 0);
      LiveIsWindow(w);
      CountersStep(w, ev);
      OneSent(w, c);
      SendsSafe(Step(w, ev), n - 1, c);
      assert Sends(n, c)[1..] == Sends(n - 1, c);
    }
  }

  // From any configuration: all but one of the slots filled on channel 0, one message on
  // channel 1, and a receive for channel 1 alone.  The bound on what can be stepped over
  // is met, and the mailbox now holds one message at a time.
  lemma BoundIsMet(depth: nat, msgSize: nat, stride: nat) returns (evs: seq<Event>)
    requires Allowed(depth, msgSize, stride)
    ensures var w := Run(Init(depth, msgSize, stride), evs);
            && Contents(w) && w.im.depth == depth
            && w.skippedNow == depth - 1 && w.im.Live() == 0 && w.im.count == depth - 1
  {
    hide Step, Contents, Run, Scan;
    var w0 := Init(depth, msgSize, stride);
    var fill, one := Sends(depth - 1, 0), Sends(1, 1);
    evs := fill + one + [RecvEv(2)];
    SendsRun(w0, depth - 1, 0);
    SendsSafe(w0, depth - 1, 0);
    RunContents(w0, fill);
    var w1 := Run(w0, fill);
    SendsRun(w1, 1, 1);
    SendsSafe(w1, 1, 1);
    RunContents(w1, one);
    var w2 := Run(w1, one);
    RunAppend(w0, fill, one);
    RunAppend(w0, fill + one, [RecvEv(2)]);
    RunOne(w2, RecvEv(2));
    TakesLast(w2);
  }

  lemma RunOne(w: World, ev: Event)
    requires Counters(w)
    ensures Run(w, [ev]) == Step(w, ev)
  {
    hide Step;
    CountersStep(w, ev);
  }

  // All records on channel 0 but the last, which is on channel 1: a receive for channel 1
  // steps over the others.
  lemma TakesLast(w: World)
    requires Counters(w) && Contents(w) && w.tailPos < |w.sent|
    requires forall p: nat | w.tailPos <= p < |w.sent| :: w.sent[p].channel == if p == |w.sent| - 1 then 1 else 0
    ensures var w' := Step(w, RecvEv(2));
            && Counters(w') && Contents(w') && w'.im.depth == w.im.depth
            && w'.skippedNow == w.skippedNow + (|w.sent| - 1 - w.tailPos)
            && w'.im.Live() == 0 && w'.im.count == w'.skippedNow
            && w'.tailPos == |w'.sent| == |w.sent|
            && |w'.received| == |w.received| + 1
  {
    hide Scan, Contents, DecodeHeader, Matches;
    BitsOfTwo();
    ScanBySent(w, 2);
    var k, last := Scan(w.im, 2, 0), |w.sent| - 1;
    assert Matches(w.sent[last].channel, 2);
    assert k.Some? && w.tailPos + k.value == |w.sent| - 1;
    CountersStep(w, RecvEv(2));
    ContentsRecv(w, RecvEv(2));
    LiveIsWindow(Step(w, RecvEv(2)));
  }

  lemma BitsOfTwo()
    ensures !Matches(0, 2) && Matches(1, 2)
  {
    assert Bit(2, 1) == Bit(1, 0);
  }

  lemma OneSafe(w: World, c: byte)
    requires Counters(w) && w.im.Live() == 0
    ensures AllSafe(w, Sends(1, c))
  {
    hide Step;
    var ev := SendEv(c, [], 0, 0);
    CountersStep(w, ev);
    assert Sends(1, c) == [ev];
    assert Safe(w, ev);
  }

  // One more message on channel 0 jams the mailbox for receivers of channel 1, though it
  // holds one message only.
  lemma JamIsReached(depth: nat, msgSize: nat, stride: nat) returns (evs: seq<Event>)
    requires Allowed(depth, msgSize, stride)
    ensures var w := Run(Init(depth, msgSize, stride), evs);
            Jammed(w.im, {2}) && w.im.Live() == 1
  {
    hide Step, Contents, Run, Scan, Jammed, AllSafe, Matches;
    var w0 := Init(depth, msgSize, stride);
    var before := BoundIsMet(depth, msgSize, stride);
    evs := before + Sends(1, 0);
    var w1 := Run(w0, before);
    RunAppend(w0, before, Sends(1, 0));
    SendsRun(w1, 1, 0);
    OneSafe(w1, 0);
    RunContents(w1, Sends(1, 0));
    var w2 := Run(w1, Sends(1, 0));
    LiveIsWindow(w1);
    LiveIsWindow(w2);
    BitsOfTwo();
    JammedIff(w2, {2});
  }
}
