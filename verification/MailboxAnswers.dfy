// What a call on the mailbox answers and does to the fields and bytes of the shared area,
// in the limits of the code and the offsets of the record's layout.
module MailboxAnswers {
  import opened Arithmetic
  import opened Common
  import opened MailboxLayout
  import opened MailboxRing

  // A number of 32 bits at a place in memory, low byte first.
  predicate Word(m: seq<byte>, at: nat, x: int)
  {
    && at + 4 <= |m|
    && x == m[at] as int + 0x100 * m[at + 1] as int + 0x1_0000 * m[at + 2] as int + 0x100_0000 * m[at + 3] as int
  }

  // A record: id, two zero time stamps, sender, channel, low byte of the flags, low 16 bits
  // of the length, and the payload from the twentieth byte on.
  predicate RecordAt(m: seq<byte>, at: nat, id: int, pid: int, channel: int, flags: nat, payload: seq<byte>)
  {
    && at + 20 + |payload| <= |m|
    && Word(m, at, id) && Word(m, at + 4, 0) && Word(m, at + 8, 0) && Word(m, at + 12, pid)
    && m[at + 16] == channel && m[at + 17] == flags % 256
    && m[at + 18] as int + 256 * m[at + 19] as int == |payload| % 0x1_0000
    && m[at + 20..at + 20 + |payload|] == payload
  }

  // Nothing but the n bytes at a place differs.
  predicate KeptAround(m: seq<byte>, m': seq<byte>, at: nat, n: nat)
  {
    |m'| == |m| && forall i | 0 <= i < |m| && !(at <= i < at + n) :: m'[i] == m[i]
  }

  // A send: too long, refused for a full count, or stored at slot `head % depth`.
  ghost predicate Sends(im: Image, channel: byte, payload: seq<byte>, flags: nat, pid: u32, im': Image, r: SendResult)
    requires 0 < im.depth
  {
    if |payload| > im.msgSize then r == TooBig && im' == im
    else if im.count >= im.depth then
      && r == NoBufs
      && im' == im.(dropped := (im.dropped + flags % 2) % 0x1_0000_0000)
    else
      var id := (im.totalSent + 1) % 0x1_0000_0000;
      var at := im.head % im.depth * im.stride;
      && r == Sent(id)
      && im'.head == (im.head + 1) % 0x1_0000_0000 && im'.count == im.count + 1
      && im'.totalSent == id && im'.bytesSent == (im.bytesSent + |payload|) % 0x1_0000_0000_0000_0000
      && RecordAt(im'.mem, at, id, pid, channel, flags, payload)
      && KeptAround(im.mem, im'.mem, at, 20 + |payload|)
      && im' == im.(head := im'.head, count := im'.count, totalSent := id, bytesSent := im'.bytesSent, mem := im'.mem)
  }

  lemma WordAt(m: seq<byte>, at: nat, x: u32)
    requires at + 4 <= |m| && m[at..at + 4] == Le32(x)
    ensures Word(m, at, x)
  {
    var s := m[at..at + 4];
    assert s[0] == m[at] && s[1] == m[at + 1] && s[2] == m[at + 2] && s[3] == m[at + 3];
  }

  lemma HeaderParts(h: Header, s: seq<byte>)
    requires s == EncodeHeader(h)
    ensures s[0..4] == Le32(h.msgId) && s[4..8] == Le32(h.sec) && s[8..12] == Le32(h.nsec) && s[12..16] == Le32(h.pid)
    ensures s[16] == h.channel && s[17] == h.flags && s[18..] == Le16(h.size)
  {
  }

  lemma SliceOfSlice(m: seq<byte>, at: nat, n: nat, i: nat, j: nat)
    requires at + n <= |m| && i <= j <= n
    ensures m[at..at + n][i..j] == m[at + i..at + j]
  {
    var s := m[at..at + n];
    forall k | i <= k < j ensures s[k] == m[at + k] {
    }
    assert s[i..j] == m[at + i..at + j];
  }

  lemma RecordBytes(m: seq<byte>, at: nat, h: Header, flags: nat, payload: seq<byte>)
    requires at + 20 + |payload| <= |m|
    requires h.sec == 0 == h.nsec && h.size == |payload| % 0x1_0000 && h.flags == flags % 256
    requires m[at..at + 20] == EncodeHeader(h) && m[at + 20..at + 20 + |payload|] == payload
    ensures RecordAt(m, at, h.msgId, h.pid, h.channel, flags, payload)
  {
    hide EncodeHeader, Word;
    var s := m[at..at + 20];
    HeaderParts(h, s);
    SliceOfSlice(m, at, 20, 0, 4);
    SliceOfSlice(m, at, 20, 4, 8);
    SliceOfSlice(m, at, 20, 8, 12);
    SliceOfSlice(m, at, 20, 12, 16);
    assert m[at + 16] == s[16] && m[at + 17] == s[17] && m[at + 18] == s[18..][0] && m[at + 19] == s[18..][1];
    WordAt(m, at, h.msgId);
    WordAt(m, at + 4, 0);
    WordAt(m, at + 8, 0);
    WordAt(m, at + 12, h.pid);
  }

  lemma StoredRecord(m: seq<byte>, at: nat, h: Header, flags: nat, payload: seq<byte>)
    requires at + 20 + |payload| <= |m|
    requires h.sec == 0 == h.nsec && h.size == |payload| % 0x1_0000 && h.flags == flags % 256
    ensures var m' := Splice(m, at, EncodeHeader(h) + payload);
            && RecordAt(m', at, h.msgId, h.pid, h.channel, flags, payload)
            && KeptAround(m, m', at, 20 + |payload|)
  {
    hide EncodeHeader, RecordAt;
    var data := EncodeHeader(h) + payload;
    var m' := Splice(m, at, data);
    SpliceHere(m, at, data);
    assert m'[at..at + 20] == m'[at..at + |data|][..20] == EncodeHeader(h);
    assert m'[at + 20..at + 20 + |payload|] == m'[at..at + |data|][20..] == payload;
    RecordBytes(m', at, h, flags, payload);
  }

  lemma SendAnswers(im: Image, channel: byte, payload: seq<byte>, flags: nat, pid: u32)
    requires im.Valid()
    ensures var (im', r) := Send(im, channel, payload, flags, pid);
            Sends(im, channel, payload, flags, pid, im', r)
  {
    hide EncodeHeader, RecordAt, Start, Splice, KeptAround;
    if |payload| <= im.msgSize && im.count < im.depth {
      StartIsProduct(im.head % im.depth, im.stride);
      StoredRecord(im.mem, im.Offset(im.head), NewHeader(im, channel, |payload|, flags, pid), flags, payload);
    }
  }

  // What the C function returns for it: 8 for too long a payload, 5 for a full count, and
  // otherwise the id as a signed number.  Readers are woken for a return of 0 or more that
  // is not the first: also by a refused send, and not by ids from 2^31 on.
  lemma SendCode(im: Image, channel: byte, payload: seq<byte>, flags: nat, pid: u32)
    requires im.Valid()
    ensures var ret := SendReturn(Send(im, channel, payload, flags, pid).1);
            var id := (im.totalSent + 1) % 0x1_0000_0000;
            && (|payload| > im.msgSize ==> ret == 8)
            && (|payload| <= im.msgSize && im.count >= im.depth ==> ret == 5)
            && (|payload| <= im.msgSize && im.count < im.depth ==>
                  -0x8000_0000 <= ret < 0x8000_0000 && (ret == id || ret == id - 0x1_0000_0000))
            && (ret < 0 <==> |payload| <= im.msgSize && im.count < im.depth && id >= 0x8000_0000)
  {
    hide Send, RecordAt, KeptAround;
    SendAnswers(im, channel, payload, flags, pid);
  }

  // A receive: either nothing changes, or one record is taken off the counters.
  ghost predicate Receives(im: Image, max: nat, im': Image, r: RecvResult)
  {
    if r == WouldBlock then im' == im
    else
      && im'.count == (im.count - 1) % 0x1_0000_0000
      && im'.totalRecv == (im.totalRecv + 1) % 0x1_0000_0000
      && im'.bytesRecv == (im.bytesRecv + r.size) % 0x1_0000_0000_0000_0000
      && (r.data.Some? <==> r.size <= max) && (r.data.Some? ==> |r.data.value| == r.size)
      && im' == im.(tail := im'.tail, count := im'.count, totalRecv := im'.totalRecv, bytesRecv := im'.bytesRecv)
  }

  lemma RecvAnswers(im: Image, mask: u32, max: nat)
    requires im.Valid() && max <= im.msgSize
    ensures var (im', r) := Recv(im, mask, max); Receives(im, max, im', r)
  {
    hide Scan, DecodeHeader, Start;
  }

  // The short form of read hands out the payload when one was received that fits, as many
  // zeros as the buffer is long when its record claims more than that, and seven zeros
  // when there was none.
  lemma ReadAnswers(im: Image, mask: u32)
    requires im.Valid()
    ensures var (im', r) := Recv(im, mask, im.msgSize);
            var (im'', out) := ReadOut(im, mask);
            && im'' == im'
            && (r == WouldBlock ==> |out| == 7)
            && (r.Got? && r.size <= im.msgSize ==> r.data == Some(out))
            && (r.Got? && r.size > im.msgSize ==> |out| == im.msgSize)
            && (r == WouldBlock || r.size > im.msgSize ==> forall i | 0 <= i < |out| :: out[i] == 0)
  {
    hide Scan, DecodeHeader, Start, Recv;
    RecvAnswers(im, mask, im.msgSize);
  }
}
