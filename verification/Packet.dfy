/** Whole frames: the builder's packet as bytes, the parser's reading of arbitrary bytes, the
    round trip between them and the checksums inside. */
module Packets {
  import opened Options
  import opened Checksum
  import opened Wire

  type Addr = a: seq<byte> | |a| == 4 witness [0, 0, 0, 0]

  const AF_INET: seq<byte> := [0, 0, 0, 2]

  // ----------------------------------------------------------------------- the bytes

  function TcpFront(s: Seg): (b: seq<byte>)
    ensures |b| == 16
  {
    Be16(s.sport) + Be16(s.dport) + Be32(s.sq) + Be32(s.ack)
    + [(5 + WireLen(s.opt) / 4) % 16 * 16, s.flags] + Be16(s.win)
  }

  /** What follows the checksum field: the urgent pointer, the options and the payload. */
  function TcpBack(s: Seg): seq<byte> {
    [0, 0] + OptionBytes(s.opt) + s.payload
  }

  function TcpBytes(s: Seg, sum: u16): seq<byte> {
    TcpFront(s) + Be16(sum) + TcpBack(s)
  }

  function TcpLength(s: Seg): nat {
    TCP_LEN + WireLen(s.opt) + |s.payload|
  }

  function TotalLength(s: Seg): nat {
    IP_LEN + TcpLength(s)
  }

  function IpFront(total: nat, id: u16): (b: seq<byte>)
    ensures |b| == 10
  {
    [0x45, 0] + Be16(total % 0x1_0000) + Be16(id) + [0, 0, 64, PROTO_TCP]
  }

  function IpBytes(total: nat, id: u16, sum: u16, src: Addr, dst: Addr): (b: seq<byte>)
    ensures |b| == 20
  {
    IpFront(total, id) + Be16(sum) + (src + dst)
  }

  function Pseudo(src: Addr, dst: Addr, len: nat): (b: seq<byte>)
    ensures |b| == 12
  {
    src + dst + [0, PROTO_TCP] + Be16(len % 0x1_0000)
  }

  function IpSum(total: nat, id: u16, src: Addr, dst: Addr): u16 {
    Fold(Sum(IpBytes(total, id, 0, src, dst)))
  }

  function TcpSum(s: Seg, src: Addr, dst: Addr): u16 {
    Fold((Sum(Pseudo(src, dst, TcpLength(s))) + Sum(TcpBytes(s, 0))) % WIDE)
  }

  function IpHeader(s: Seg, src: Addr, dst: Addr, id: u16): (b: seq<byte>)
    ensures |b| == 20
  {
    IpBytes(TotalLength(s), id, IpSum(TotalLength(s), id, src, dst), src, dst)
  }

  function TcpSegment(s: Seg, src: Addr, dst: Addr): seq<byte> {
    TcpBytes(s, TcpSum(s, src, dst))
  }

  /** The frame: address family, IP header, TCP segment. */
  function Frame(s: Seg, src: Addr, dst: Addr, id: u16): seq<byte> {
    AF_INET + IpHeader(s, src, dst, id) + TcpSegment(s, src, dst)
  }

  lemma TcpBytesLength(s: Seg, sum: u16)
    ensures |TcpBytes(s, sum)| == TcpLength(s)
  {
    WireLenIsEncoded(s.opt);
  }

  /** What the builder accepts: at most 40 bytes of options, and room for the frame. */
  predicate Fits(s: Seg, cap: nat) {
    WireLen(s.opt) <= 40 && 4 + TotalLength(s) <= cap
  }

  // ----------------------------------------------------------------------- the parser

  /** The TCP segment inside a frame, if the frame holds one. */
  function TcpOf(f: seq<byte>): Option<seq<byte>> {
    if |f| < 24 || Get32(f, 0) != 2 then None
    else if f[4] / 16 != 4 || f[4] % 16 < 5 || f[13] != PROTO_TCP then None
    else
      var ihl, total := f[4] % 16 * 4, Get16(f, 6);
      if total > |f| - 4 || ihl + TCP_LEN > total then None
      else Some(f[4 + ihl..4 + total])
  }

  function DataOffset(t: seq<byte>): nat
    requires |t| >= TCP_LEN
  {
    t[12] / 16 * 4
  }

  /** The segment that bytes with a whole TCP header spell. */
  function SegOf(t: seq<byte>): Option<Seg>
    requires |t| >= TCP_LEN
  {
    var doff := DataOffset(t);
    if doff < TCP_LEN || doff > |t| then None
    else Some(Seg(Get16(t, 0), Get16(t, 2), Get32(t, 4), Get32(t, 8), t[13], Get16(t, 14),
                  Walk(t[TCP_LEN..doff], NO_OPTIONS), t[doff..]))
  }

  function Parse(f: seq<byte>): Option<Seg> {
    ReadTcp(TcpOf(f))
  }

  function ReadTcp(t: Option<seq<byte>>): Option<Seg> {
    if t.None? || |t.value| < TCP_LEN then None else SegOf(t.value)
  }

  /** The TCP segment t as a packet whose length field says n carries it. */
  function Cut(t: seq<byte>, n: nat): Option<seq<byte>>
    requires n <= IP_LEN + |t|
  {
    if n < IP_LEN + TCP_LEN then None else Some(t[..n - IP_LEN])
  }

  /** A parsed payload is shorter than the 16-bit length field allows a packet to be. */
  lemma ParsedIsShort(f: seq<byte>)
    ensures Parse(f).Some? ==> |Parse(f).value.payload| <= 0xffff - IP_LEN - TCP_LEN
  {
  }

  lemma FrontFields(s: Seg)
    ensures var t := TcpFront(s);
            && At(t, 0, Be16(s.sport)) && At(t, 2, Be16(s.dport)) && At(t, 4, Be32(s.sq)) && At(t, 8, Be32(s.ack))
            && t[12] == (5 + WireLen(s.opt) / 4) % 16 * 16 && t[13] == s.flags && At(t, 14, Be16(s.win))
  {
  }

  lemma AtPrefix(a: seq<byte>, t: seq<byte>, i: nat, b: seq<byte>)
    requires At(a, i, b) && |a| <= |t| && t[..|a|] == a
    ensures At(t, i, b)
  {
    assert t[i..i + |b|] == a[i..i + |b|];
  }

  /** The header fields of any bytes that begin with the segment's header. */
  lemma HeaderReads(s: Seg, t: seq<byte>)
    requires |t| >= TCP_LEN && t[..16] == TcpFront(s)
    ensures Get16(t, 0) == s.sport && Get16(t, 2) == s.dport && Get32(t, 4) == s.sq && Get32(t, 8) == s.ack
    ensures t[13] == s.flags && Get16(t, 14) == s.win
  {
    var a := TcpFront(s);
    FrontFields(s);
    AtPrefix(a, t, 0, Be16(s.sport));
    AtPrefix(a, t, 2, Be16(s.dport));
    AtPrefix(a, t, 4, Be32(s.sq));
    AtPrefix(a, t, 8, Be32(s.ack));
    AtPrefix(a, t, 14, Be16(s.win));
    Get16Reads(t, 0, s.sport);
    Get16Reads(t, 2, s.dport);
    Get32Reads(t, 4, s.sq);
    Get32Reads(t, 8, s.ack);
    Get16Reads(t, 14, s.win);
    assert t[13] == t[..16][13];
  }

  /** Four bits hold the data offset of every segment the builder accepts. */
  lemma OffsetReads(s: Seg, t: seq<byte>)
    requires |t| >= TCP_LEN && t[..16] == TcpFront(s) && WireLen(s.opt) <= 40
    ensures DataOffset(t) == TCP_LEN + WireLen(s.opt)
  {
    FrontFields(s);
    assert t[12] == t[..16][12];
    WireLenIsEncoded(s.opt);
    OffsetBits(WireLen(s.opt) / 4);
  }

  lemma OffsetBits(w: nat)
    requires w <= 10
    ensures (5 + w) % 16 * 16 / 16 * 4 == TCP_LEN + 4 * w
  {
  }

  /** Where options and payload lie. */
  lemma TcpParts(s: Seg, sum: u16)
    ensures var t, doff := TcpBytes(s, sum), TCP_LEN + WireLen(s.opt);
            && |t| == TcpLength(s) && t[..16] == TcpFront(s)
            && t[TCP_LEN..doff] == OptionBytes(s.opt) && t[doff..] == s.payload
  {
    WireLenIsEncoded(s.opt);
    Slices(TcpFront(s), Be16(sum), OptionBytes(s.opt), s.payload, WireLen(s.opt));
  }

  lemma Slices(a: seq<byte>, b: seq<byte>, o: seq<byte>, p: seq<byte>, n: nat)
    requires |a| == 16 && |b| == 2 && |o| == n
    ensures var t := a + b + ([0, 0] + o + p);
            |t| == TCP_LEN + n + |p| && t[..16] == a && t[TCP_LEN..TCP_LEN + n] == o && t[TCP_LEN + n..] == p
  {
  }

  lemma AcceptedBlocks(o: TcpOptions)
    requires WireLen(o) <= 40
    ensures |o.blocks| <= 4
  {
  }

  lemma SegmentRoundTrip(s: Seg, sum: u16)
    requires WireLen(s.opt) <= 40
    ensures |TcpBytes(s, sum)| >= TCP_LEN && SegOf(TcpBytes(s, sum)) == Some(s)
  {
    var t := TcpBytes(s, sum);
    TcpParts(s, sum);
    OffsetReads(s, t);
    AcceptedBlocks(s.opt);
    OptionsRoundTrip(s.opt);
    SegReads(s, t, DataOffset(t));
  }

  lemma SegReads(s: Seg, t: seq<byte>, doff: nat)
    requires TCP_LEN <= doff <= |t| && t[..16] == TcpFront(s) && doff == DataOffset(t)
    requires Walk(t[TCP_LEN..doff], NO_OPTIONS) == s.opt && t[doff..] == s.payload
    ensures SegOf(t) == Some(s)
  {
    HeaderReads(s, t);
  }

  /** A proper prefix of a segment is never read as that segment. */
  lemma PrefixDiffers(s: Seg, sum: u16, n: nat)
    requires WireLen(s.opt) <= 40 && TCP_LEN <= n < TcpLength(s) && |TcpBytes(s, sum)| == TcpLength(s)
    ensures SegOf(TcpBytes(s, sum)[..n]) != Some(s)
  {
    var t := TcpBytes(s, sum)[..n];
    TcpParts(s, sum);
    assert t[..16] == TcpBytes(s, sum)[..16];
    OffsetReads(s, t);
  }

  lemma IpFields(total: nat, id: u16)
    ensures var h := IpFront(total, id); h[0] == 0x45 && h[9] == PROTO_TCP && At(h, 2, Be16(total % 0x1_0000))
  {
  }

  /** The parser finds the segment behind the built header, cut where the length field says. */
  lemma FrameOpens(total: nat, id: u16, sum: u16, src: Addr, dst: Addr, t: seq<byte>)
    requires total == IP_LEN + |t| && |t| >= TCP_LEN
    ensures TcpOf(AF_INET + IpBytes(total, id, sum, src, dst) + t) == Cut(t, total % 0x1_0000)
  {
    var h := IpBytes(total, id, sum, src, dst);
    var f := AF_INET + h + t;
    FrameIndex(h, t, f);
    IpFields(total, id);
    var a := IpFront(total, id);
    assert h[..10] == a;
    assert f[4] == a[0] && f[13] == a[9];
    assert f[6] == a[2] && f[7] == a[3];
    assert a[2..4] == Be16(total % 0x1_0000);
    Get16Reads(a, 2, total % 0x1_0000);
  }

  lemma FrameIndex(h: seq<byte>, t: seq<byte>, f: seq<byte>)
    requires |h| == 20 && f == AF_INET + h + t
    ensures |f| == 24 + |t| && Get32(f, 0) == 2
    ensures forall i :: 0 <= i < 20 ==> f[4 + i] == h[i]
    ensures forall n :: 0 <= n <= |t| ==> f[24..24 + n] == t[..n]
  {
    assert f[..4] == AF_INET;
    assert f[0] == 0 && f[1] == 0 && f[2] == 0 && f[3] == 2;
    assert f[24..] == t;
    forall n | 0 <= n <= |t|
      ensures f[24..24 + n] == t[..n]
    {
    }
  }

  /** Round trip: for every segment the builder accepts, parsing the frame returns the segment
      if and only if the packet's length fits the 16-bit length field. */
  lemma RoundTripExactly(s: Seg, src: Addr, dst: Addr, id: u16)
    requires WireLen(s.opt) <= 40
    ensures Parse(Frame(s, src, dst, id)) == Some(s) <==> TotalLength(s) <= 0xffff
  {
    var sum, total := TcpSum(s, src, dst), TotalLength(s);
    TcpBytesLength(s, sum);
    RoundTripOf(s, total, id, IpSum(total, id, src, dst), src, dst, sum, TcpBytes(s, sum));
  }

  lemma RoundTripOf(s: Seg, total: nat, id: u16, ipSum: u16, src: Addr, dst: Addr, sum: u16, t: seq<byte>)
    requires WireLen(s.opt) <= 40 && total == TotalLength(s) && t == TcpBytes(s, sum) && |t| == TcpLength(s)
    ensures Parse(AF_INET + IpBytes(total, id, ipSum, src, dst) + t) == Some(s) <==> total <= 0xffff
  {
    FrameOpens(total, id, ipSum, src, dst, t);
    LengthField(total);
    ReadsCut(s, sum, t, total % 0x1_0000);
  }

  lemma LengthField(total: nat)
    ensures total % 0x1_0000 <= total && (total % 0x1_0000 == total <==> total <= 0xffff)
  {
  }

  lemma ReadsCut(s: Seg, sum: u16, t: seq<byte>, n: nat)
    requires WireLen(s.opt) <= 40 && t == TcpBytes(s, sum) && |t| == TcpLength(s) && n <= IP_LEN + |t|
    ensures ReadTcp(Cut(t, n)) == Some(s) <==> n == IP_LEN + |t|
  {
    if n >= IP_LEN + TCP_LEN {
      CutReads(s, sum, t, n - IP_LEN);
    }
  }

  lemma CutReads(s: Seg, sum: u16, t: seq<byte>, n: nat)
    requires WireLen(s.opt) <= 40 && t == TcpBytes(s, sum) && |t| == TcpLength(s) && TCP_LEN <= n <= |t|
    ensures SegOf(t[..n]) == Some(s) <==> n == |t|
  {
    if n == |t| {
      assert t[..n] == t;
      SegmentRoundTrip(s, sum);
    } else {
      PrefixDiffers(s, sum, n);
    }
  }

  // --------------------------------------------------------------------- checksums

  /** The bytes p, chained after an accumulator k, pass the receiver's check. */
  ghost predicate Verifies(k: nat, p: seq<byte>) {
    Fold((k + Sum(p)) % WIDE) == 0
  }

  lemma StoredVerifies(k: nat, a: seq<byte>, b: seq<byte>, c: u16, zeroed: seq<byte>, p: seq<byte>)
    requires |a| % 2 == 0 && zeroed == a + Be16(0) + b && p == a + Be16(c) + b
    requires c == Fold((k + Sum(zeroed)) % WIDE)
    ensures Verifies(k, p)
  {
    ChainedSum(k, zeroed);
    ChainedSum(k, p);
    StoredChecksumVerifies(k, a, b);
  }

  lemma {:induction false} ChainedSum(k: nat, p: seq<byte>)
    ensures (k + Sum(p)) % WIDE == (k + Total(p)) % WIDE
  {
    WideAdd(Total(p), k);
  }

  lemma IpVerifies(n: nat, id: u16, src: Addr, dst: Addr, sum: u16)
    requires sum == IpSum(n, id, src, dst)
    ensures Verifies(0, IpBytes(n, id, sum, src, dst))
  {
    StoredVerifies(0, IpFront(n, id), src + dst, sum, IpBytes(n, id, 0, src, dst), IpBytes(n, id, sum, src, dst));
  }

  /** Every IP header the builder writes folds to zero. */
  lemma IpHeaderVerifies(s: Seg, src: Addr, dst: Addr, id: u16)
    ensures Verifies(0, IpHeader(s, src, dst, id))
  {
    IpVerifies(TotalLength(s), id, src, dst, IpSum(TotalLength(s), id, src, dst));
  }

  /** Pseudo-header and segment, chained, fold to zero, whatever the payload's length. */
  lemma TcpSegmentVerifies(s: Seg, src: Addr, dst: Addr)
    ensures Verifies(Sum(Pseudo(src, dst, TcpLength(s))), TcpSegment(s, src, dst))
  {
    StoredVerifies(Sum(Pseudo(src, dst, TcpLength(s))), TcpFront(s), TcpBack(s), TcpSum(s, src, dst),
                   TcpBytes(s, 0), TcpSegment(s, src, dst));
  }

  lemma {:induction false} VerifiesTruly(p: seq<byte>, t: seq<byte>)
    requires |p| % 2 == 0 && |p + t| <= 0x2_0000 && Verifies(Sum(p), t)
    ensures Reduce(Total(p + t)) == 0xffff
  {
    SmallTotal(p + t);
    TotalConcat(p, t);
    NoWrap(Total(p), Total(t));
  }

  lemma {:induction false} SmallTotal(p: seq<byte>)
    requires |p| <= 0x2_0000
    ensures Total(p) < WIDE
  {
    TotalBound(p);
  }

  lemma NoWrap(a: nat, b: nat)
    requires a + b < WIDE && Fold((a % WIDE + b % WIDE) % WIDE) == 0
    ensures Reduce(a + b) == 0xffff
  {
    assert a % WIDE == a && b % WIDE == b && (a + b) % WIDE == a + b;
  }

  /** Within the length field the 32-bit accumulator never wraps, so what folds to zero is the
      sum of RFC 1071 over pseudo-header and segment laid end to end. */
  lemma TcpSegmentVerifiesTruly(s: Seg, src: Addr, dst: Addr)
    requires TotalLength(s) <= 0xffff
    ensures Reduce(Total(Pseudo(src, dst, TcpLength(s)) + TcpSegment(s, src, dst))) == 0xffff
  {
    TcpSegmentVerifies(s, src, dst);
    TcpBytesLength(s, TcpSum(s, src, dst));
    VerifiesTruly(Pseudo(src, dst, TcpLength(s)), TcpSegment(s, src, dst));
  }
}
