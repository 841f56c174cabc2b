// Byte layout of one mailbox record (struct mbox_msg_entry) inside the entries
// area that follows the queue header.
module MailboxLayout {
  import opened Arithmetic

  type byte = b: int | 0 <= b < 256

  type u16 = x: int | 0 <= x < 0x1_0000

  const HEADER: nat := 20

  datatype Header = Header(msgId: u32, sec: u32, nsec: u32, pid: u32, channel: byte, flags: byte, size: u16)

  function Le16(x: u16): (s: seq<byte>)
    ensures |s| == 2
  {
    [x % 256, x / 256 % 256]
  }

  function Le32(x: u32): (s: seq<byte>)
    ensures |s| == 4
  {
    Le16(x % 0x1_0000) + Le16(x / 0x1_0000)
  }

  function FromLe16(s: seq<byte>): (x: u16)
    requires |s| == 2
  {
    (s[0] as int) + 256 * (s[1] as int)
  }

  function FromLe32(s: seq<byte>): (x: u32)
    requires |s| == 4
  {
    FromLe16(s[..2]) + 0x1_0000 * FromLe16(s[2..])
  }

  lemma Le16RoundTrip(x: u16)
    ensures FromLe16(Le16(x)) == x
  {
  }

  lemma Le32RoundTrip(x: u32)
    ensures FromLe32(Le32(x)) == x
  {
    Le16RoundTrip(x % 0x1_0000);
    Le16RoundTrip(x / 0x1_0000);
  }

  function EncodeHeader(h: Header): (s: seq<byte>)
    ensures |s| == HEADER
  {
    Le32(h.msgId) + Le32(h.sec) + Le32(h.nsec) + Le32(h.pid) + [h.channel, h.flags] + Le16(h.size)
  }

  function DecodeHeader(s: seq<byte>): Header
    requires |s| == HEADER
  {
    Header(FromLe32(s[0..4]), FromLe32(s[4..8]), FromLe32(s[8..12]), FromLe32(s[12..16]),
           s[16], s[17], FromLe16(s[18..20]))
  }

  lemma HeaderRoundTrip(h: Header)
    ensures DecodeHeader(EncodeHeader(h)) == h
  {
    var s := EncodeHeader(h);
    assert s[0..4] == Le32(h.msgId);
    assert s[4..8] == Le32(h.sec);
    assert s[8..12] == Le32(h.nsec);
    assert s[12..16] == Le32(h.pid);
    assert s[18..20] == Le16(h.size);
    Le32RoundTrip(h.msgId);
    Le32RoundTrip(h.sec);
    Le32RoundTrip(h.nsec);
    Le32RoundTrip(h.pid);
    Le16RoundTrip(h.size);
  }

  // Memory m after the bytes `data` have been copied to offset `off`.
  function Splice(m: seq<byte>, off: nat, data: seq<byte>): (m': seq<byte>)
    requires off + |data| <= |m|
    ensures |m'| == |m|
  {
    m[..off] + data + m[off + |data|..]
  }

  function ReadHeader(m: seq<byte>, off: nat): Header
    requires off + HEADER <= |m|
  {
    DecodeHeader(m[off..off + HEADER])
  }

  function ReadPayload(m: seq<byte>, off: nat, n: nat): (p: seq<byte>)
    requires off + HEADER + n <= |m|
    ensures |p| == n
  {
    m[off + HEADER..off + HEADER + n]
  }

  predicate Apart(a: nat, n: nat, b: nat, k: nat)
  {
    a + n <= b || b + k <= a
  }

  // Reading k bytes at b is unaffected by writing any n bytes at a, whatever was
  // there and whatever is written.
  ghost predicate Unaffected(len: nat, a: nat, n: nat, b: nat, k: nat)
    requires a + n <= len && b + k <= len
  {
    forall m: seq<byte>, data: seq<byte> | |m| == len && |data| == n ::
      Splice(m, a, data)[b..b + k] == m[b..b + k]
  }

  // That is so exactly when the two ranges are disjoint.
  lemma UnaffectedIff(len: nat, a: nat, n: nat, b: nat, k: nat)
    requires a + n <= len && b + k <= len && 0 < n && 0 < k
    ensures Unaffected(len, a, n, b, k) <==> Apart(a, n, b, k)
  {
    if Apart(a, n, b, k) {
      forall m: seq<byte>, data: seq<byte> | |m| == len && |data| == n
        ensures Splice(m, a, data)[b..b + k] == m[b..b + k]
      {
        SpliceElsewhere(m, a, data, b, k);
      }
    } else {
      var m, data := OverlapIsSeen(len, a, n, b, k);
    }
  }

  lemma OverlapIsSeen(len: nat, a: nat, n: nat, b: nat, k: nat) returns (m: seq<byte>, data: seq<byte>)
    requires a + n <= len && b + k <= len && 0 < n && 0 < k && !Apart(a, n, b, k)
    ensures |m| == len && |data| == n && Splice(m, a, data)[b..b + k] != m[b..b + k]
  {
    m, data := seq(len, i => 0), seq(n, i => 1);
    var p := if a <= b then b else a;
    SpliceAt(m, a, data, p - a);
    var before, after := m[b..b + k], Splice(m, a, data)[b..b + k];
    assert before[p - b] == 0 && after[p - b] == 1;
  }

  lemma SpliceAt(m: seq<byte>, off: nat, data: seq<byte>, i: nat)
    requires off + |data| <= |m| && i < |data|
    ensures Splice(m, off, data)[off + i] == data[i]
  {
  }

  lemma SpliceElsewhere(m: seq<byte>, off: nat, data: seq<byte>, b: nat, k: nat)
    requires off + |data| <= |m| && b + k <= |m| && Apart(off, |data|, b, k)
    ensures Splice(m, off, data)[b..b + k] == m[b..b + k]
  {
    var m' := Splice(m, off, data);
    forall i | b <= i < b + k ensures m'[i] == m[i] {
    }
    assert m'[b..b + k] == m[b..b + k];
  }

  lemma SpliceHere(m: seq<byte>, off: nat, data: seq<byte>)
    requires off + |data| <= |m|
    ensures Splice(m, off, data)[off..off + |data|] == data
  {
  }

  // A record written at off reads back as written: the header, and any prefix of the payload.
  lemma RecordReadsBack(m: seq<byte>, off: nat, h: Header, payload: seq<byte>, n: nat)
    requires off + HEADER + |payload| <= |m| && n <= |payload|
    ensures var m' := Splice(m, off, EncodeHeader(h) + payload);
            ReadHeader(m', off) == h && ReadPayload(m', off, n) == payload[..n]
  {
    var data := EncodeHeader(h) + payload;
    var m' := Splice(m, off, data);
    SpliceHere(m, off, data);
    HeaderRoundTrip(h);
    assert m'[off..off + HEADER] == m'[off..off + |data|][..HEADER] == EncodeHeader(h);
    assert ReadPayload(m', off, n) == m'[off..off + |data|][HEADER..HEADER + n] == payload[..n];
  }

  // Start of slot k when consecutive slots lie `stride` bytes apart, i.e. k * stride.
  function Start(k: nat, stride: nat): nat
  {
    if k == 0 then 0 else Start(k - 1, stride) + stride
  }

  lemma {:induction false} StartIsProduct(k: nat, stride: nat)
    ensures Start(k, stride) == k * stride
  {
    if k > 0 {
      StartIsProduct(k - 1, stride);
    }
  }

  lemma {:induction false} LaterSlotStarts(j: nat, k: nat, stride: nat)
    requires j < k
    ensures Start(j, stride) + stride <= Start(k, stride)
  {
    if j + 1 < k {
      LaterSlotStarts(j, k - 1, stride);
    }
  }

  // A record of up to `n` payload bytes in slot k stays clear of a record of up to
  // `n` payload bytes in any other slot when the stride covers header and payload.
  lemma SlotsApart(stride: nat, j: nat, k: nat, n: nat)
    requires HEADER + n <= stride && j != k
    ensures Apart(Start(j, stride), HEADER + n, Start(k, stride), HEADER + n)
  {
    if j < k {
      LaterSlotStarts(j, k, stride);
    } else {
      LaterSlotStarts(k, j, stride);
    }
  }

  // ... and that is the only way: a ring of two or more slots is free of overlap for
  // payloads of up to n bytes exactly when the stride is at least header plus n.
  lemma StrideSafeIff(depth: nat, stride: nat, n: nat)
    requires 2 <= depth
    ensures (forall j, k :: 0 <= j < depth && 0 <= k < depth && j != k ==>
               Apart(Start(j, stride), HEADER + n, Start(k, stride), HEADER + n))
            <==> HEADER + n <= stride
  {
    if HEADER + n <= stride {
      forall j, k | 0 <= j < depth && 0 <= k < depth && j != k
        ensures Apart(Start(j, stride), HEADER + n, Start(k, stride), HEADER + n)
      {
        SlotsApart(stride, j, k, n);
      }
    } else {
      assert Start(0, stride) == 0 && Start(1, stride) == Start(0, stride) + stride;
      assert !Apart(Start(0, stride), HEADER + n, Start(1, stride), HEADER + n);
    }
  }

  // Every record stays inside the allocation, at the kernel's stride (the bare
  // header) and at the allocated one (header plus msgSize).
  lemma {:induction false} RecordInBounds(depth: nat, msgSize: nat, stride: nat, k: nat)
    requires k < depth && stride <= HEADER + msgSize
    ensures Start(k, stride) + HEADER + msgSize <= Start(depth, HEADER + msgSize)
  {
    if k > 0 {
      RecordInBounds(depth - 1, msgSize, stride, k - 1);
    } else if depth > 1 {
      RecordInBounds(depth - 1, msgSize, stride, 0);
    }
  }

  // What the kernel's own stride does: the record written to the next slot
  // replaces the first payload byte of this one by the low byte of its message id.
  lemma KernelStrideOverwritesPayload(m: seq<byte>, off: nat, h: Header, p: seq<byte>, h2: Header, p2: seq<byte>)
    requires 0 < |p| && off + HEADER + |p| <= |m| && off + HEADER + HEADER + |p2| <= |m|
    ensures var m1 := Splice(m, off, EncodeHeader(h) + p);
            var m2 := Splice(m1, off + HEADER, EncodeHeader(h2) + p2);
            ReadPayload(m2, off, |p|)[0] == h2.msgId % 256
  {
    var m1 := Splice(m, off, EncodeHeader(h) + p);
    var data := EncodeHeader(h2) + p2;
    FirstByte(h2);
    SpliceAt(m1, off + HEADER, data, 0);
    ReadPayloadFirst(Splice(m1, off + HEADER, data), off, |p|);
  }

  lemma FirstByte(h: Header)
    ensures EncodeHeader(h)[0] == h.msgId % 256
  {
    var x := h.msgId;
    var r := x % 0x1_0000;
    DivUnique(x, 256, 256 * (x / 0x1_0000) + r / 256, r % 256);
    assert EncodeHeader(h)[0] == Le32(x)[0] == r % 256;
  }

  lemma ReadPayloadFirst(m: seq<byte>, off: nat, n: nat)
    requires off + HEADER + n <= |m| && 0 < n
    ensures ReadPayload(m, off, n)[0] == m[off + HEADER]
  {
  }
}
