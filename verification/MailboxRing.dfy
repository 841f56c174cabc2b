// The mailbox operations as functions on the shared-memory image: what one
// critical section of mbox_kern.c does to the queue header and the entries area.
module MailboxRing {
  import opened Arithmetic
  import opened Common
  import opened MailboxLayout

  const MIN_DEPTH: nat := 2
  const MAX_DEPTH: nat := 4096
  const MIN_SIZE: nat := 64
  const MAX_SIZE: nat := 1024 * 1024

  // The configurations mbox_create accepts, at either stride.
  predicate Allowed(depth: nat, msgSize: nat, stride: nat)
  {
    && MIN_DEPTH <= depth <= MAX_DEPTH
    && MIN_SIZE <= msgSize <= MAX_SIZE
    && (stride == HEADER || stride == HEADER + msgSize)
  }

  // Queue header fields plus the entries area.  The stride is header plus msgSize
  // in the allocation and the library, the bare header in the kernel.
  datatype Image = Image(
    depth: nat, msgSize: nat, stride: nat,
    head: u32, tail: u32, count: u32,
    totalSent: u32, totalRecv: u32, dropped: u32,
    bytesSent: u64, bytesRecv: u64,
    mem: seq<byte>)
  {
    predicate Valid()
    {
      && Allowed(depth, msgSize, stride)
      && |mem| == Start(depth, HEADER + msgSize)
    }

    // Byte offset of the slot of a 32-bit index.
    function Offset(idx: u32): (off: nat)
      requires Valid()
      ensures off + HEADER + msgSize <= |mem|
    {
      RecordInBounds(depth, msgSize, stride, idx % depth);
      Start(idx % depth, stride)
    }

    // Number of indices from tail up to head, in 32-bit arithmetic.
    function Live(): u32
    {
      Sub32(head, tail)
    }

    // The k-th index of the window and the record stored under it.
    function Index(k: u32): u32
    {
      Add32(tail, k)
    }

    function HeaderAt(k: u32): Header
      requires Valid()
    {
      ReadHeader(mem, Offset(Index(k)))
    }
  }

  datatype SendResult = Sent(id: u32) | TooBig | NoBufs
  datatype RecvResult =
    | Got(id: u32, channel: byte, flags: byte, size: u16, data: Option<seq<byte>>)
    | WouldBlock

  function Create(depth: nat, msgSize: nat, stride: nat): Image
  {
    Image(depth, msgSize, stride, 0, 0, 0, 0, 0, 0, 0, 0, seq(Start(depth, HEADER + msgSize), i => 0))
  }

  // The record an accepted send writes.
  function NewHeader(im: Image, channel: byte, size: nat, flags: nat, pid: u32): Header
  {
    Header(Add32(im.totalSent, 1), 0, 0, pid, channel, flags % 256, size % 0x1_0000)
  }

  function Send(im: Image, channel: byte, payload: seq<byte>, flags: nat, pid: u32): (r: (Image, SendResult))
    requires im.Valid()
    ensures r.0.Valid()
  {
    if |payload| > im.msgSize then (im, TooBig)
    else if im.count >= im.depth then
      (if flags % 2 == 1 then im.(dropped := Add32(im.dropped, 1)) else im, NoBufs)
    else
      var h := NewHeader(im, channel, |payload|, flags, pid);
      assert im.Offset(im.head) + HEADER + |payload| <= |im.mem|;
      var im' := im.(
        mem := Splice(im.mem, im.Offset(im.head), EncodeHeader(h) + payload),
        head := Add32(im.head, 1),
        count := Add32(im.count, 1),
        totalSent := Add32(im.totalSent, 1),
        bytesSent := Add64(im.bytesSent, |payload|));
      (im', Sent(h.msgId))
  }

  // Bit c of the mask: `(1 << c) & mask` is nonzero.
  predicate Bit(mask: nat, c: nat)
  {
    if c == 0 then mask % 2 == 1 else Bit(mask / 2, c - 1)
  }

  // The channel test, with the shift count taken modulo the word width.
  predicate Matches(channel: byte, mask: u32)
  {
    Bit(mask, channel % 32)
  }

  predicate Selects(im: Image, mask: u32, k: u32)
    requires im.Valid()
  {
    Matches(im.HeaderAt(k).channel, mask)
  }

  // The scan shared by receive and peek: distance from tail of the first matching record.
  function Scan(im: Image, mask: u32, k: u32): (r: Option<u32>)
    requires im.Valid()
    decreases im.depth - k
  {
    if k >= im.depth || im.Index(k) == im.head then None
    else if Selects(im, mask, k) then Some(k)
    else Scan(im, mask, k + 1)
  }

  // What is handed out for the record at distance k; the payload is copied only
  // when it fits the caller's buffer.
  function Deliver(im: Image, k: u32, max: nat): RecvResult
    requires im.Valid() && max <= im.msgSize
  {
    var h := im.HeaderAt(k);
    Got(h.msgId, h.channel, h.flags, h.size,
        if h.size <= max then Some(ReadPayload(im.mem, im.Offset(im.Index(k)), h.size)) else None)
  }

  // Take the record at distance k out: tail moves past it, count drops by one.
  function Remove(im: Image, k: u32): (im': Image)
    requires im.Valid()
    ensures im'.Valid()
  {
    im.(tail := Add32(im.Index(k), 1),
        count := Sub32(im.count, 1),
        totalRecv := Add32(im.totalRecv, 1),
        bytesRecv := Add64(im.bytesRecv, im.HeaderAt(k).size))
  }

  function Recv(im: Image, mask: u32, max: nat): (r: (Image, RecvResult))
    requires im.Valid() && max <= im.msgSize
    ensures r.0.Valid()
  {
    match Scan(im, mask, 0)
    case None => (im, WouldBlock)
    case Some(k) => (Remove(im, k), Deliver(im, k, max))
  }

  function Peek(im: Image, mask: u32, max: nat): RecvResult
    requires im.Valid() && max <= im.msgSize
  {
    match Scan(im, mask, 0)
    case None => WouldBlock
    case Some(k) => Deliver(im, k, max)
  }

  function Flush(im: Image): (im': Image)
    requires im.Valid()
    ensures im'.Valid()
  {
    im.(head := 0, tail := 0, count := 0)
  }

  predicate Readable(im: Image) { im.count > 0 }
  predicate Writable(im: Image) { im.count < im.depth }

  const ALL_CHANNELS: u32 := 0xFFFF_FFFF

  function Ones(n: nat): nat
  {
    if n == 0 then 0 else 2 * Ones(n - 1) + 1
  }

  lemma {:induction false} OnesHasBit(n: nat, c: nat)
    requires c < n
    ensures Bit(Ones(n), c)
  {
    if c > 0 {
      OnesHasBit(n - 1, c - 1);
      assert Ones(n) / 2 == Ones(n - 1);
    }
  }

  // Every channel is selected by the all-ones mask.
  lemma AllChannelsMatch(channel: byte)
    ensures Matches(channel, ALL_CHANNELS)
  {
    assert Ones(8) == 0xFF;
    assert Ones(16) == 0xFFFF;
    assert Ones(24) == 0xFF_FFFF;
    assert Ones(32) == ALL_CHANNELS;
    OnesHasBit(32, channel % 32);
  }

  // The scan answers exactly: the first live record whose channel the mask selects.
  lemma {:induction false} ScanIsFirstMatch(im: Image, mask: u32, k: u32)
    requires im.Valid() && im.Live() <= im.depth && k <= im.Live()
    ensures FirstMatch(im, mask, k, Scan(im, mask, k))
    decreases im.depth - k
  {
    IndexIsHeadIff(im, k);
    if k < im.Live() && !Selects(im, mask, k) {
      ScanIsFirstMatch(im, mask, k + 1);
      assert Scan(im, mask, k) == Scan(im, mask, k + 1);
      FirstMatchFromNext(im, mask, k, Scan(im, mask, k + 1));
    }
  }

  ghost predicate FirstMatch(im: Image, mask: u32, k: nat, r: Option<u32>)
    requires im.Valid()
  {
    && (r.Some? ==> k <= r.value < im.Live() && Selects(im, mask, r.value))
    && forall i: u32 | k <= i < if r.Some? then r.value else im.Live() :: !Selects(im, mask, i)
  }

  lemma FirstMatchFromNext(im: Image, mask: u32, k: u32, r: Option<u32>)
    requires im.Valid() && k < im.depth && !Selects(im, mask, k) && FirstMatch(im, mask, k + 1, r)
    ensures FirstMatch(im, mask, k, r)
  {
  }

  // The scan's test `idx != head` sees the end of the window and nothing before it.
  lemma IndexIsHeadIff(im: Image, k: u32)
    requires im.Valid() && k <= im.Live()
    ensures im.Index(k) == im.head <==> k == im.Live()
  {
  }

  // The C functions return the id or size as an int and a failure as -MBOX_ERR_X,
  // where MBOX_ERR_X is itself negative.
  function SendReturn(r: SendResult): int
  {
    match r
    case Sent(id) => if id < 0x8000_0000 then id else id - 0x1_0000_0000
    case TooBig => 8
    case NoBufs => 5
  }

  function RecvReturn(r: RecvResult): int
  {
    match r
    case Got(_, _, _, size, _) => size
    case WouldBlock => 7
  }

  // A failed send is reported by the same integer as the send of one of two ids.
  lemma SendReturnAmbiguousIff(id: u32)
    ensures (exists r: SendResult :: !r.Sent? && SendReturn(r) == SendReturn(Sent(id)))
            <==> id == 5 || id == 8
  {
    if id == 5 {
      assert SendReturn(NoBufs) == SendReturn(Sent(id));
    } else if id == 8 {
      assert SendReturn(TooBig) == SendReturn(Sent(id));
    }
  }

  function Zeros(n: nat): (s: seq<byte>)
    ensures |s| == n
  {
    seq(n, i => 0)
  }

  // The short form of read: a receive into a zeroed buffer of msgSize bytes, of which as
  // many are handed out as the receive returned.
  function ReadOut(im: Image, mask: u32): (Image, seq<byte>)
    requires im.Valid()
  {
    var (im', r) := Recv(im, mask, im.msgSize);
    var tmp := match r
      case Got(_, _, _, _, Some(data)) =>
        if |data| <= im.msgSize then data + Zeros(im.msgSize - |data|) else Zeros(im.msgSize)
      case _ => Zeros(im.msgSize);
    (im', if RecvReturn(r) <= im.msgSize then tmp[..RecvReturn(r)] else tmp)
  }
}
