// Per-channel order and byte totals, for arbitrary masks.
module MailboxChannels {
  import opened Arithmetic
  import opened Common
  import opened MailboxLayout
  import opened MailboxRing
  import opened MailboxHistory
  import opened MailboxRuns

  // Those of the given positions that were sent on channel c, in the same order.
  ghost function OnChannel(sent: seq<Msg>, ps: seq<nat>, c: byte): seq<nat>
    requires Below(ps, |sent|)
  {
    if ps == [] then []
    else (if sent[ps[0]].channel == c then [ps[0]] else []) + OnChannel(sent, ps[1..], c)
  }

  lemma {:induction false} OnChannelAppend(sent: seq<Msg>, ps: seq<nat>, qs: seq<nat>, c: byte)
    requires Below(ps, |sent|) && Below(qs, |sent|)
    ensures Below(ps + qs, |sent|)
    ensures OnChannel(sent, ps + qs, c) == OnChannel(sent, ps, c) + OnChannel(sent, qs, c)
  {
    if ps == [] {
      assert ps + qs == qs;
    } else {
      assert (ps + qs)[0] == ps[0] && (ps + qs)[1..] == ps[1..] + qs;
      OnChannelAppend(sent, ps[1..], qs, c);
    }
  }

  lemma {:induction false} OffChannel(sent: seq<Msg>, ps: seq<nat>, c: byte)
    requires Below(ps, |sent|) && forall i | 0 <= i < |ps| :: sent[ps[i]].channel != c
    ensures OnChannel(sent, ps, c) == []
  {
    if ps != [] {
      OffChannel(sent, ps[1..], c);
    }
  }

  lemma {:induction false} OnChannelLaterSends(sent: seq<Msg>, sent': seq<Msg>, ps: seq<nat>, c: byte)
    requires Below(ps, |sent|) && sent <= sent'
    ensures OnChannel(sent', ps, c) == OnChannel(sent, ps, c)
  {
    if ps != [] {
      OnChannelLaterSends(sent, sent', ps[1..], c);
    }
  }

  // Since the last flush, channel c has lost nothing: its received messages are all of
  // its messages up to the window, in the order they were sent.
  ghost predicate ChannelInOrder(w: World, c: byte)
  {
    && w.Shape() && Below(w.received, |w.sent|)
    && OnChannel(w.sent, w.received[w.receivedAtFlush..], c) == OnChannel(w.sent, Range(w.base, w.tailPos), c)
  }

  lemma ChannelStep(w: World, ev: Event, c: byte)
    requires Counters(w) && Fates(w) && Contents(w) && ChannelInOrder(w, c)
    requires ev.RecvEv? ==> Matches(c, ev.mask)
    ensures ChannelInOrder(Step(w, ev), c)
  {
    hide EncodeHeader, DecodeHeader;
    CountersStep(w, ev);
    FatesStep(w, ev);
    match ev
    case SendEv(_, _, _, _) =>
      OnChannelLaterSends(w.sent, Step(w, ev).sent, w.received[w.receivedAtFlush..], c);
      OnChannelLaterSends(w.sent, Step(w, ev).sent, Range(w.base, w.tailPos), c);
    case RecvEv(mask) =>
      ChannelRecv(w, mask, c);
    case FlushEv =>
      assert Step(w, ev).received[|w.received|..] == [] && Range(|w.sent|, |w.sent|) == [];
  }

  lemma ChannelRecv(w: World, mask: u32, c: byte)
    requires Counters(w) && Contents(w) && ChannelInOrder(w, c) && Matches(c, mask)
    requires Step(w, RecvEv(mask)).Shape() && Below(Step(w, RecvEv(mask)).received, |w.sent|)
    ensures ChannelInOrder(Step(w, RecvEv(mask)), c)
  {
    hide Step, Scan, Contents, Counters, OnChannel;
    var k := Scan(w.im, mask, 0);
    if k.Some? {
      AcceptedRecv(w, mask, k.value);
      SkippedOffChannel(w, mask, k.value, c);
      ChannelAfterRecv(w, k.value, Step(w, RecvEv(mask)), c);
    } else {
      RefusedRecv(w, mask);
    }
  }

  // A receive that listens to channel c steps over no message of channel c.
  lemma SkippedOffChannel(w: World, mask: u32, k: u32, c: byte)
    requires Counters(w) && Contents(w) && Matches(c, mask) && Scan(w.im, mask, 0) == Some(k)
    ensures w.tailPos + k < |w.sent|
    ensures OnChannel(w.sent, Range(w.tailPos, w.tailPos + k), c) == []
  {
    hide DecodeHeader;
    TakenSize(w, mask, k);
    LiveIsWindow(w);
    ScanIsFirstMatch(w.im, mask, 0);
    var ps := Range(w.tailPos, w.tailPos + k);
    forall i | 0 <= i < |ps| ensures w.sent[ps[i]].channel != c {
      assert !Selects(w.im, mask, i);
      RefusedChannel(w, mask, i, c);
    }
    OffChannel(w.sent, ps, c);
  }

  lemma RefusedChannel(w: World, mask: u32, i: u32, c: byte)
    requires Counters(w) && Contents(w) && Matches(c, mask) && w.tailPos + i < |w.sent|
    requires !Selects(w.im, mask, i)
    ensures w.sent[w.tailPos + i].channel != c
  {
    hide DecodeHeader;
    WindowWaits(w, i);
  }

  lemma ChannelAfterRecv(w: World, k: u32, w': World, c: byte)
    requires w'.Shape() && Below(w'.received, |w.sent|) && ChannelInOrder(w, c) && w.tailPos + k < |w.sent|
    requires w'.sent == w.sent && w'.base == w.base && w'.tailPos == w.tailPos + k + 1
    requires w'.received == w.received + [w.tailPos + k] && w'.receivedAtFlush == w.receivedAtFlush
    requires OnChannel(w.sent, Range(w.tailPos, w.tailPos + k), c) == []
    ensures ChannelInOrder(w', c)
  {
    hide OnChannel, Range;
    var p, earlier := w.tailPos + k, w.received[w.receivedAtFlush..];
    DropAppend(w.received, w.receivedAtFlush, p);
    OnChannelGrows(w.sent, earlier, w.base, w.tailPos, p, c);
  }

  lemma DropAppend(s: seq<nat>, n: nat, x: nat)
    requires n <= |s|
    ensures (s + [x])[n..] == s[n..] + [x]
  {
  }

  // One more message taken after a stretch with none of the channel.
  lemma OnChannelGrows(sent: seq<Msg>, earlier: seq<nat>, a: nat, b: nat, p: nat, c: byte)
    requires Below(earlier, |sent|) && a <= b <= p < |sent|
    requires OnChannel(sent, earlier, c) == OnChannel(sent, Range(a, b), c)
    requires OnChannel(sent, Range(b, p), c) == []
    ensures Below(earlier + [p], |sent|)
    ensures OnChannel(sent, earlier + [p], c) == OnChannel(sent, Range(a, p + 1), c)
  {
    hide OnChannel;
    OnChannelAppend(sent, earlier, [p], c);
    RangeSplit(a, b, p);
    OnChannelAppend(sent, Range(a, b), Range(b, p), c);
    RangeExtends(a, p);
    OnChannelAppend(sent, Range(a, p), [p], c);
  }

  lemma RangeSplit(a: nat, b: nat, p: nat)
    requires a <= b <= p
    ensures Range(a, p) == Range(a, b) + Range(b, p)
  {
  }

  // In every safe run in which all receivers listen to channel c, whatever else their
  // masks say, channel c is first-in first-out without loss.
  lemma {:induction false} ChannelFifo(w: World, evs: seq<Event>, c: byte)
    requires Counters(w) && Fates(w) && Contents(w) && ChannelInOrder(w, c) && AllSafe(w, evs)
    requires forall i | 0 <= i < |evs| && evs[i].RecvEv? :: Matches(c, evs[i].mask)
    ensures ChannelInOrder(Run(w, evs), c)
    decreases |evs|
  {
    if evs != [] {
      CountersStep(w, evs[0]);
      FatesStep(w, evs[0]);
      ContentsStep(w, evs[0]);
      ChannelStep(w, evs[0], c);
      ChannelFifo(Step(w, evs[0]), evs[1..], c);
    }
  }

  // ---------------------------------------------------------------- bytes

  ghost function Bytes(sent: seq<Msg>, ps: seq<nat>): nat
    requires Below(ps, |sent|)
  {
    if ps == [] then 0 else Bytes(sent, ps[..|ps| - 1]) + |sent[ps[|ps| - 1]].payload|
  }

  lemma {:induction false} BytesAppend(sent: seq<Msg>, ps: seq<nat>, qs: seq<nat>)
    requires Below(ps, |sent|) && Below(qs, |sent|)
    ensures Below(ps + qs, |sent|)
    ensures Bytes(sent, ps + qs) == Bytes(sent, ps) + Bytes(sent, qs)
  {
    if qs == [] {
      assert ps + qs == ps;
    } else {
      var n := |qs| - 1;
      assert (ps + qs)[..|ps + qs| - 1] == ps + qs[..n];
      BytesAppend(sent, ps, qs[..n]);
    }
  }

  lemma {:induction false} BytesLaterSends(sent: seq<Msg>, sent': seq<Msg>, ps: seq<nat>)
    requires Below(ps, |sent|) && sent <= sent'
    ensures Bytes(sent', ps) == Bytes(sent, ps)
  {
    if ps != [] {
      BytesLaterSends(sent, sent', ps[..|ps| - 1]);
    }
  }

  // The 64-bit byte counters count what was sent and received, and every byte sent is
  // accounted for.
  ghost predicate BytesConserved(w: World)
  {
    && w.Shape()
    && Below(w.received, |w.sent|) && Below(w.skipped, |w.sent|) && Below(w.flushed, |w.sent|)
    && w.im.bytesSent == Low64(Bytes(w.sent, Range(0, |w.sent|)))
    && w.im.bytesRecv == Low64(Bytes(w.sent, w.received))
    && Bytes(w.sent, Range(0, |w.sent|)) ==
       Bytes(w.sent, w.received) + Bytes(w.sent, w.skipped) + Bytes(w.sent, w.flushed)
       + Bytes(w.sent, Range(w.tailPos, |w.sent|))
  }

  lemma BytesStep(w: World, ev: Event)
    requires Counters(w) && Fates(w) && Contents(w) && Safe(w, ev) && BytesConserved(w)
    ensures BytesConserved(Step(w, ev))
  {
    hide EncodeHeader, DecodeHeader;
    CountersStep(w, ev);
    FatesStep(w, ev);
    match ev
    case SendEv(_, payload, _, _) =>
      if |payload| <= w.im.msgSize && w.im.count < w.im.depth {
        BytesSend(w, ev);
      }
    case RecvEv(mask) =>
      BytesRecv(w, mask);
    case FlushEv =>
      BytesAppend(w.sent, w.flushed, Range(w.tailPos, |w.sent|));
      assert Range(|w.sent|, |w.sent|) == [];
  }

  lemma BytesSend(w: World, ev: Event)
    requires Counters(w) && BytesConserved(w)
    requires ev.SendEv? && |ev.payload| <= w.im.msgSize && w.im.count < w.im.depth && Step(w, ev).Shape()
    ensures BytesConserved(Step(w, ev))
  {
    AcceptedSend(w, ev);
    hide Step, Send, Low64, Add64;
    var n, sent' := |w.sent|, Step(w, ev).sent;
    BytesLaterSends(w.sent, sent', w.received);
    BytesLaterSends(w.sent, sent', w.skipped);
    BytesLaterSends(w.sent, sent', w.flushed);
    OneMoreSent(w.sent, sent', 0);
    OneMoreSent(w.sent, sent', w.tailPos);
    Add64Reduces(Bytes(w.sent, Range(0, n)), |ev.payload|);
  }

  lemma OneMoreSent(sent: seq<Msg>, sent': seq<Msg>, from: nat)
    requires sent < sent' && |sent'| == |sent| + 1 && from <= |sent|
    ensures Bytes(sent', Range(from, |sent'|)) == Bytes(sent, Range(from, |sent|)) + |sent'[|sent|].payload|
  {
    var n := |sent|;
    BytesLaterSends(sent, sent', Range(from, n));
    RangeExtends(from, n);
    assert (Range(from, n) + [n])[..n - from] == Range(from, n);
  }

  lemma BytesRecv(w: World, mask: u32)
    requires Counters(w) && Contents(w) && BytesConserved(w)
    requires Step(w, RecvEv(mask)).Shape() && Below(Step(w, RecvEv(mask)).received, |w.sent|)
    requires Below(Step(w, RecvEv(mask)).skipped, |w.sent|)
    ensures BytesConserved(Step(w, RecvEv(mask)))
  {
    hide Step, Scan, Contents, Counters, Bytes, DecodeHeader;
    var k := Scan(w.im, mask, 0);
    if k.Some? {
      TakenSize(w, mask, k.value);
      AcceptedRecv(w, mask, k.value);
      BytesAfterRecv(w, k.value, Step(w, RecvEv(mask)));
    } else {
      RefusedRecv(w, mask);
    }
  }

  // The size field of the record a receive takes is the length of its payload.
  lemma TakenSize(w: World, mask: u32, k: u32)
    requires Counters(w) && Contents(w) && Scan(w.im, mask, 0) == Some(k)
    ensures w.tailPos + k < |w.sent|
    ensures w.im.HeaderAt(k).size == |w.sent[w.tailPos + k].payload|
  {
    hide DecodeHeader, Start;
    LiveIsWindow(w);
    ScanIsFirstMatch(w.im, mask, 0);
    WindowWaits(w, k);
  }

  lemma BytesAfterRecv(w: World, k: u32, w': World)
    requires BytesConserved(w) && w'.Shape() && w.tailPos + k < |w.sent|
    requires Below(w'.received, |w.sent|) && Below(w'.skipped, |w.sent|)
    requires w'.sent == w.sent && w'.tailPos == w.tailPos + k + 1 && w'.flushed == w.flushed
    requires w'.received == w.received + [w.tailPos + k]
    requires w'.skipped == w.skipped + Range(w.tailPos, w.tailPos + k)
    requires |w.sent[w.tailPos + k].payload| < 0x1_0000 && w'.im.bytesSent == w.im.bytesSent
    requires w'.im.bytesRecv == Add64(w.im.bytesRecv, |w.sent[w.tailPos + k].payload|)
    ensures BytesConserved(w')
  {
    hide Bytes, Low64, Add64;
    OneMoreReceived(w.sent, w.received, w.skipped, w.tailPos, w.tailPos + k);
    Add64Reduces(Bytes(w.sent, w.received), |w.sent[w.tailPos + k].payload|);
  }

  lemma OneMoreReceived(sent: seq<Msg>, received: seq<nat>, skipped: seq<nat>, from: nat, p: nat)
    requires Below(received, |sent|) && Below(skipped, |sent|) && from <= p < |sent|
    requires Below(skipped + Range(from, p), |sent|)
    ensures Bytes(sent, received + [p]) == Bytes(sent, received) + |sent[p].payload|
    ensures Bytes(sent, received + [p]) + Bytes(sent, skipped + Range(from, p)) + Bytes(sent, Range(p + 1, |sent|))
            == Bytes(sent, received) + Bytes(sent, skipped) + Bytes(sent, Range(from, |sent|))
  {
    WindowSplits(sent, from, p);
    BytesAppend(sent, received, [p]);
    BytesAppend(sent, skipped, Range(from, p));
    assert Bytes(sent, [p]) == |sent[p].payload|;
  }

  lemma WindowSplits(sent: seq<Msg>, from: nat, p: nat)
    requires from <= p < |sent|
    ensures Bytes(sent, Range(from, |sent|)) ==
            Bytes(sent, Range(from, p)) + |sent[p].payload| + Bytes(sent, Range(p + 1, |sent|))
  {
    var n := |sent|;
    assert Range(from, n) == Range(from, p) + [p] + Range(p + 1, n);
    BytesAppend(sent, Range(from, p), [p]);
    BytesAppend(sent, Range(from, p) + [p], Range(p + 1, n));
    assert Bytes(sent, [p]) == |sent[p].payload|;
  }

  lemma {:induction false} RunBytes(w: World, evs: seq<Event>)
    requires Counters(w) && Fates(w) && Contents(w) && BytesConserved(w) && AllSafe(w, evs)
    ensures BytesConserved(Run(w, evs))
    decreases |evs|
  {
    if evs != [] {
      CountersStep(w, evs[0]);
      FatesStep(w, evs[0]);
      ContentsStep(w, evs[0]);
      BytesStep(w, evs[0]);
      RunBytes(Step(w, evs[0]), evs[1..]);
    }
  }

  // A fresh mailbox satisfies both, so both hold of every safe run from creation.
  lemma FreshHolds(depth: nat, msgSize: nat, stride: nat, c: byte)
    requires Allowed(depth, msgSize, stride)
    ensures ChannelInOrder(Init(depth, msgSize, stride), c)
    ensures BytesConserved(Init(depth, msgSize, stride))
  {
    var w := Init(depth, msgSize, stride);
    assert Range(0, 0) == [] && w.received[0..] == [];
  }
}
