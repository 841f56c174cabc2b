// Which channels a mask selects, in terms of powers of two, and what that makes of a
// receive: by one channel, and by several.
module MailboxMasks {
  import opened Arithmetic
  import opened Common
  import opened MailboxLayout
  import opened MailboxWrap
  import opened MailboxRing
  import opened MailboxHistory
  import opened MailboxRuns
  import opened MailboxJams

  function Power(n: nat): (p: nat)
    ensures 0 < p
  {
    if n == 0 then 1 else 2 * Power(n - 1)
  }

  lemma HalfTwice(m: nat, p: nat)
    requires 0 < p
    ensures m / (2 * p) == m / 2 / p
  {
    var q, r := m / 2 / p, m / 2 % p;
    assert m == 2 * (q * p + r) + m % 2;
    assert 2 * (q * p) == q * (2 * p);
    DivUnique(m, 2 * p, q, 2 * r + m % 2);
  }

  lemma {:induction false} BitIff(mask: nat, c: nat)
    ensures Bit(mask, c) <==> mask / Power(c) % 2 == 1
  {
    if c > 0 {
      BitIff(mask / 2, c - 1);
      HalfTwice(mask, Power(c - 1));
    }
  }

  // A mask selects a channel below 32 exactly when the channel's bit is set in it.
  lemma MatchesIff(c: byte, mask: u32)
    requires c < 32
    ensures Matches(c, mask) <==> mask / Power(c) % 2 == 1
  {
    BitIff(mask, c);
  }

  lemma {:induction false} PowerGrows(m: nat, n: nat)
    requires m <= n
    ensures Power(m) <= Power(n)
  {
    if m < n { PowerGrows(m, n - 1); }
  }

  lemma Power32()
    ensures Power(32) == WORD
  {
    assert Power(8) == 0x100;
    assert Power(16) == 0x1_0000;
    assert Power(24) == 0x100_0000;
  }

  // The mask of one channel.
  function OnlyChannel(c: byte): (mask: u32)
    requires c < 32
    ensures mask == Power(c)
  {
    PowerGrows(c + 1, 32);
    Power32();
    Power(c)
  }

  lemma {:induction false} BitOfPower(c: nat, d: nat)
    ensures Bit(Power(c), d) <==> c == d
  {
    if c > 0 && d > 0 {
      BitOfPower(c - 1, d - 1);
      assert Power(c) / 2 == Power(c - 1);
    } else if d > 0 {
      assert Power(0) / 2 == 0;
      NoBits(d - 1);
    }
  }

  lemma {:induction false} NoBits(c: nat)
    ensures !Bit(0, c)
  {
    if c > 0 { NoBits(c - 1); }
  }

  // It selects that channel and no other below 32.
  lemma OnlyChannelSelects(c: byte, d: byte)
    requires c < 32 && d < 32
    ensures Matches(d, OnlyChannel(c)) <==> c == d
  {
    BitOfPower(c, d);
  }

  // The bitwise union of two masks.
  function Union(a: nat, b: nat): nat
  {
    if a == 0 then b else if b == 0 then a
    else (if a % 2 == 1 || b % 2 == 1 then 1 else 0) + 2 * Union(a / 2, b / 2)
  }

  lemma {:induction false} UnionSelects(a: nat, b: nat, c: nat)
    ensures Bit(Union(a, b), c) <==> Bit(a, c) || Bit(b, c)
    decreases a
  {
    if a == 0 || b == 0 {
      NoBits(c);
    } else if c > 0 {
      assert Union(a, b) / 2 == Union(a / 2, b / 2);
      UnionSelects(a / 2, b / 2, c - 1);
    }
  }

  lemma {:induction false} UnionFits(a: nat, b: nat, n: nat)
    requires a < Power(n) && b < Power(n)
    ensures Union(a, b) < Power(n)
    decreases n
  {
    if a != 0 && b != 0 { UnionFits(a / 2, b / 2, n - 1); }
  }

  // It selects the channels that either does.
  lemma UnionMatches(a: u32, b: u32, c: byte)
    ensures Union(a, b) < WORD
    ensures Matches(c, Union(a, b)) <==> Matches(c, a) || Matches(c, b)
  {
    Power32();
    UnionFits(a, b, 32);
    UnionSelects(a, b, c % 32);
  }

  // ---------------------------------------------------------------- receives

  // p is the first unread message that the test passes.
  ghost predicate FirstUnread(w: World, test: byte -> bool, p: nat)
  {
    && w.tailPos <= p < |w.sent| && test(w.sent[p].channel)
    && forall q: nat | w.tailPos <= q < p :: !test(w.sent[q].channel)
  }

  // Every unread message is on a channel the C shift is defined for.
  ghost predicate LowChannels(w: World)
  {
    forall p: nat | w.tailPos <= p < |w.sent| :: w.sent[p].channel < 32
  }

  // In every safe run, what a receive with a mask does is said by the bits of the mask:
  // it hands out the first unread message on a channel below 32 whose bit is set, as it was
  // sent, and the window then starts behind it; and it fails, changing nothing, exactly
  // when there is none.
  lemma RecvByBits(depth: nat, msgSize: nat, stride: nat, evs: seq<Event>, mask: u32)
    requires Allowed(depth, msgSize, stride) && AllSafe(Init(depth, msgSize, stride), evs)
    requires LowChannels(Run(Init(depth, msgSize, stride), evs))
    ensures var w := Run(Init(depth, msgSize, stride), evs);
            RecvSays(w, mask, (c: byte) => mask / Power(c) % 2 == 1)
  {
    hide Run, AllSafe, Contents, Matches;
    var w0 := Init(depth, msgSize, stride);
    RunContents(w0, evs);
    var w := Run(w0, evs);
    assert LowChannels(w);
    forall p: nat | w.tailPos <= p < |w.sent|
      ensures Matches(w.sent[p].channel, mask) <==> mask / Power(w.sent[p].channel) % 2 == 1
    {
      MatchesIff(w.sent[p].channel, mask);
    }
    RecvByTest(w, mask, (c: byte) => mask / Power(c) % 2 == 1);
  }

  // So a receive for one channel alone hands out the first unread message of that channel
  // and fails exactly when there is none.
  lemma RecvOneChannel(depth: nat, msgSize: nat, stride: nat, evs: seq<Event>, c: byte)
    requires Allowed(depth, msgSize, stride) && AllSafe(Init(depth, msgSize, stride), evs) && c < 32
    requires LowChannels(Run(Init(depth, msgSize, stride), evs))
    ensures var w := Run(Init(depth, msgSize, stride), evs);
            RecvSays(w, OnlyChannel(c), (d: byte) => d == c)
  {
    hide Run, AllSafe, Contents, Matches, OnlyChannel;
    var w0 := Init(depth, msgSize, stride);
    RunContents(w0, evs);
    var w := Run(w0, evs);
    assert LowChannels(w);
    forall p: nat | w.tailPos <= p < |w.sent|
      ensures Matches(w.sent[p].channel, OnlyChannel(c)) <==> w.sent[p].channel == c
    {
      OnlyChannelSelects(c, w.sent[p].channel);
    }
    RecvByTest(w, OnlyChannel(c), (d: byte) => d == c);
  }

  // What a receive does, told by a test on channels.
  ghost predicate RecvSays(w: World, mask: u32, test: byte -> bool)
    requires w.Shape()
  {
    var (im, r) := Recv(w.im, mask, w.im.msgSize);
    && (r == WouldBlock <==> forall p: nat | w.tailPos <= p < |w.sent| :: !test(w.sent[p].channel))
    && (r == WouldBlock ==> im == w.im)
    && (forall p: nat | FirstUnread(w, test, p) ::
          HandedOut(w, p, r) && im.tail == (p + 1 - w.base) % WORD)
  }

  lemma RecvByTest(w: World, mask: u32, test: byte -> bool)
    requires Counters(w) && Contents(w)
    requires forall p: nat | w.tailPos <= p < |w.sent| :: Matches(w.sent[p].channel, mask) <==> test(w.sent[p].channel)
    ensures RecvSays(w, mask, test)
  {
    hide Scan, Matches, Deliver;
    ScanBySent(w, mask);
    DeliverGot(w.im, mask);
    var k := Scan(w.im, mask, 0);
    forall p: nat | FirstUnread(w, test, p)
      ensures HandedOut(w, p, Recv(w.im, mask, w.im.msgSize).1)
      ensures Recv(w.im, mask, w.im.msgSize).0.tail == (p + 1 - w.base) % WORD
    {
      assert Matches(w.sent[p].channel, mask);
      assert k.Some? && p == w.tailPos + k.value;
      TakesRecord(w, mask, k.value);
    }
  }

  lemma TakesRecord(w: World, mask: u32, k: u32)
    requires Counters(w) && Contents(w) && Scan(w.im, mask, 0) == Some(k) && w.tailPos + k < |w.sent|
    ensures HandedOut(w, w.tailPos + k, Recv(w.im, mask, w.im.msgSize).1)
    ensures Recv(w.im, mask, w.im.msgSize).0.tail == (w.tailPos + k + 1 - w.base) % WORD
  {
    hide Scan, Deliver, Contents;
    WindowWaits(w, k);
    WindowIndex(w, k);
    Add32Reduces(w.tailPos + k - w.base, 1);
  }
}
