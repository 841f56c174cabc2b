// The mailbox instance as the kernel module holds it: header fields and a byte
// array, updated in place.  Every method is proved equal to the function of the
// same name in MailboxRing, at either stride.
module MailboxDevice {
  import opened Arithmetic
  import opened Common
  import opened MailboxLayout
  import opened MailboxAnswers
  import Ring = MailboxRing

  class Mailbox {
    const depth: nat
    const msgSize: nat
    const stride: nat
    var head: u32
    var tail: u32
    var count: u32
    var totalSent: u32
    var totalRecv: u32
    var dropped: u32
    var bytesSent: u64
    var bytesRecv: u64
    const entries: array<byte>

    ghost function Abs(): Ring.Image
      reads this, entries
    {
      Ring.Image(depth, msgSize, stride, head, tail, count, totalSent, totalRecv, dropped,
                 bytesSent, bytesRecv, entries[..])
    }

    ghost predicate Valid()
      reads this, entries
    {
      Abs().Valid()
    }

    constructor (depth: nat, msgSize: nat, stride: nat)
      ensures this.depth == depth && this.msgSize == msgSize && this.stride == stride
      ensures fresh(entries) && Abs() == Ring.Create(depth, msgSize, stride)
    {
      this.depth, this.msgSize, this.stride := depth, msgSize, stride;
      head, tail, count := 0, 0, 0;
      totalSent, totalRecv, dropped := 0, 0, 0;
      bytesSent, bytesRecv := 0, 0;
      entries := new byte[Start(depth, HEADER + msgSize)](i => 0);
      new;
      assert entries[..] == Ring.Create(depth, msgSize, stride).mem;
    }

    // mbox_create: range checks, then allocation.
    static method Create(depth: nat, msgSize: nat, stride: nat, memoryOk: bool) returns (m: Mailbox?)
      requires stride == HEADER || stride == HEADER + msgSize
      ensures m != null <==> Ring.Allowed(depth, msgSize, stride) && memoryOk
      ensures m != null ==> fresh(m) && fresh(m.entries) && m.Valid()
                            && m.Abs() == Ring.Create(depth, msgSize, stride)
      ensures m != null <==> 2 <= depth <= 4096 && 64 <= msgSize <= 1048576 && memoryOk
      ensures m != null ==> m.head == m.tail == m.count == m.totalSent == m.totalRecv == m.dropped == 0
                            && m.bytesSent == m.bytesRecv == 0 && m.depth == depth && m.msgSize == msgSize
                            && m.entries.Length == depth * (20 + msgSize)
                            && forall i | 0 <= i < m.entries.Length :: m.entries[i] == 0
    {
      if depth < Ring.MIN_DEPTH || depth > Ring.MAX_DEPTH { return null; }
      if msgSize < Ring.MIN_SIZE || msgSize > Ring.MAX_SIZE { return null; }
      if !memoryOk { return null; }
      m := new Mailbox(depth, msgSize, stride);
      StartIsProduct(depth, 20 + msgSize);
    }

    method Enqueue(channel: byte, payload: seq<byte>, flags: nat, pid: u32) returns (r: Ring.SendResult)
      requires Valid()
      modifies this, entries
      ensures Valid()
      ensures Abs() == Ring.Send(old(Abs()), channel, payload, flags, pid).0
      ensures r == Ring.Send(old(Abs()), channel, payload, flags, pid).1
      ensures Sends(old(Abs()), channel, payload, flags, pid, Abs(), r)
    {
      hide Sends, Start, EncodeHeader;
      SendAnswers(Abs(), channel, payload, flags, pid);
      if |payload| > msgSize {
        return Ring.TooBig;
      }
      if count >= depth {
        if flags % 2 == 1 {
          dropped := Add32(dropped, 1);
        }
        return Ring.NoBufs;
      }
      ghost var was := Abs();
      var h := Header(Add32(totalSent, 1), 0, 0, pid, channel, flags % 256, |payload| % 0x1_0000);
      var off := Offset(head);
      CopyIn(entries, off, EncodeHeader(h) + payload);
      head := Add32(head, 1);
      count := Add32(count, 1);
      totalSent := Add32(totalSent, 1);
      bytesSent := Add64(bytesSent, |payload|);
      r := Ring.Sent(h.msgId);
    }

    // Offset of the slot of a 32-bit index (mbox_get_entry).
    function Offset(idx: u32): (off: nat)
      requires Valid()
      reads this, entries
      ensures off == Abs().Offset(idx)
      ensures off == idx % depth * stride
      ensures off + HEADER + msgSize <= entries.Length
    {
      assert Abs().Offset(idx) + HEADER + msgSize <= |Abs().mem|;
      StartIsProduct(idx % depth, stride);
      Start(idx % depth, stride)
    }

    // The loop shared by dequeue and peek: walk from tail to the first record whose
    // channel the mask selects.
    method FindMatch(mask: u32) returns (found: bool, idx: u32, ghost k: u32)
      requires Valid()
      ensures found <==> Ring.Scan(Abs(), mask, 0).Some?
      ensures found ==> idx == Abs().Index(Ring.Scan(Abs(), mask, 0).value) && k == Ring.Scan(Abs(), mask, 0).value
    {
      hide DecodeHeader, Start, Ring.Bit;
      ghost var im := Abs();
      idx, k := tail, 0;
      var tries: u32 := 0;
      while tries < depth && idx != head
        invariant k == tries && idx == im.Index(k)
        invariant Ring.Scan(im, mask, 0) == Ring.Scan(im, mask, k)
        decreases depth - tries
      {
        var h := HeaderOf(idx, k);
        if Ring.Matches(h.channel, mask) {
          return true, idx, k;
        }
        idx := Add32(idx, 1);
        tries, k := tries + 1, k + 1;
      }
      found := false;
    }

    method HeaderOf(idx: u32, ghost k: u32) returns (h: Header)
      requires Valid() && idx == Abs().Index(k)
      ensures h == Abs().HeaderAt(k)
    {
      var off := Offset(idx);
      h := DecodeHeader(entries[off..off + HEADER]);
      assert entries[off..off + HEADER] == entries[..][off..off + HEADER];
    }

    // Hand out the record under idx.
    method CopyOut(idx: u32, max: nat, ghost k: u32) returns (r: Ring.RecvResult)
      requires Valid() && idx == Abs().Index(k) && max <= msgSize
      ensures r == Ring.Deliver(Abs(), k, max)
    {
      var h := HeaderOf(idx, k);
      var data := None;
      if h.size <= max {
        var off := Offset(idx) + HEADER;
        data := Some(entries[off..off + h.size]);
        assert entries[off..off + h.size] == entries[..][off..off + h.size];
      }
      r := Ring.Got(h.msgId, h.channel, h.flags, h.size, data);
    }

    // One non-blocking attempt of mbox_dequeue.
    method Dequeue(mask: u32, max: nat) returns (r: Ring.RecvResult)
      requires Valid() && max <= msgSize
      modifies this
      ensures Valid()
      ensures Abs() == Ring.Recv(old(Abs()), mask, max).0
      ensures r == Ring.Recv(old(Abs()), mask, max).1
      ensures Receives(old(Abs()), max, Abs(), r)
    {
      hide Receives, Ring.Scan, Start;
      RecvAnswers(Abs(), mask, max);
      var found, idx, k := FindMatch(mask);
      if !found {
        return Ring.WouldBlock;
      }
      r := CopyOut(idx, max, k);
      Remove(idx, r.size, k);
    }

    // Remove from queue: tail moves past the record, count drops by one.
    method Remove(idx: u32, size: u16, ghost k: u32)
      requires Valid() && idx == Abs().Index(k) && size == Abs().HeaderAt(k).size
      modifies this
      ensures Abs() == Ring.Remove(old(Abs()), k)
    {
      tail := Add32(idx, 1);
      count := Sub32(count, 1);
      totalRecv := Add32(totalRecv, 1);
      bytesRecv := Add64(bytesRecv, size);
      assert entries[..] == old(entries[..]);
    }

    method Peek(mask: u32, max: nat) returns (r: Ring.RecvResult)
      requires Valid() && max <= msgSize
      ensures r == Ring.Peek(Abs(), mask, max)
    {
      var found, idx, k := FindMatch(mask);
      if !found {
        return Ring.WouldBlock;
      }
      r := CopyOut(idx, max, k);
    }

    method Flush()
      requires Valid()
      modifies this
      ensures Valid() && Abs() == Ring.Flush(old(Abs()))
      ensures head == tail == count == 0 && entries[..] == old(entries[..])
      ensures totalSent == old(totalSent) && totalRecv == old(totalRecv) && dropped == old(dropped)
      ensures bytesSent == old(bytesSent) && bytesRecv == old(bytesRecv)
    {
      head := 0;
      tail := 0;
      count := 0;
    }

    method Poll() returns (readable: bool, writable: bool)
      ensures readable == Ring.Readable(Abs()) && writable == Ring.Writable(Abs())
      ensures (readable <==> count != 0) && (writable <==> count < depth)
    {
      readable := count > 0;
      writable := count < depth;
    }
  }

  // memcpy of a block into the shared area.
  method CopyIn(a: array<byte>, off: nat, data: seq<byte>)
    requires off + |data| <= a.Length
    modifies a
    ensures a[..] == Splice(old(a[..]), off, data)
  {
    forall i | 0 <= i < |data| {
      a[off + i] := data[i];
    }
  }
}
