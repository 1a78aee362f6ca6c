/** Where every byte of a frame stands and what it means, as RFC 791, RFC 793 and RFC 2018 lay it
    out: the builder's frame byte by byte, exactly which frames the parser reads and what it reads
    from them, and the option field as a list of options. */
module Layout {
  import opened Options
  import opened Checksum
  import opened Wire
  import opened Packets
  import opened SeqSpace
  import opened Reassembling

  /** Big-endian numbers at index i. */
  function Num16(b: seq<byte>, i: nat): int
    requires i + 2 <= |b|
  {
    var hi: int, lo: int := b[i], b[i + 1];
    256 * hi + lo
  }

  function Num32(b: seq<byte>, i: nat): int
    requires i + 4 <= |b|
  {
    0x1_0000 * Num16(b, i) + Num16(b, i + 2)
  }

  lemma Be16Is(b: seq<byte>, i: nat, v: u16)
    requires At(b, i, Be16(v))
    ensures Num16(b, i) == v
  {
    Get16Reads(b, i, v);
  }

  // ------------------------------------------------------------------- the built frame

  /** The IP header fields of RFC 791, section 3.1, behind the four bytes of the address family. */
  ghost predicate IpFieldsAre(f: seq<byte>, total: nat, id: u16, src: Addr, dst: Addr) {
    && |f| >= 24 && f[..4] == [0, 0, 0, 2] && f[4] == 0x45 && f[5] == 0
    && Num16(f, 6) == total % 0x1_0000 && Num16(f, 8) == id && f[10] == 0 && f[11] == 0
    && f[12] == 64 && f[13] == 6 && f[16..20] == src && f[20..24] == dst
  }

  /** The TCP header fields of RFC 793, section 3.1, in a segment with n bytes of options. */
  ghost predicate TcpFieldsAre(t: seq<byte>, s: Seg, n: nat) {
    && |t| >= 20 && Num16(t, 0) == s.sport && Num16(t, 2) == s.dport && Num32(t, 4) == s.sq && Num32(t, 8) == s.ack
    && t[12] == (20 + n) / 4 % 16 * 16 && t[13] == s.flags && Num16(t, 14) == s.win && t[18] == 0 && t[19] == 0
  }

  lemma IpHeaderBytes(total: nat, id: u16, sum: u16, src: Addr, dst: Addr)
    ensures var h := IpBytes(total, id, sum, src, dst);
            && h[0] == 0x45 && h[1] == 0 && At(h, 2, Be16(total % 0x1_0000)) && At(h, 4, Be16(id))
            && h[6] == 0 && h[7] == 0 && h[8] == 64 && h[9] == 6 && At(h, 12, src) && At(h, 16, dst)
  {
    var front := IpFront(total, id);
    var h := IpBytes(total, id, sum, src, dst);
    assert front[0] == 0x45 && front[1] == 0 && front[6] == 0 && front[7] == 0 && front[8] == 64 && front[9] == 6;
    assert front[2..4] == Be16(total % 0x1_0000) && front[4..6] == Be16(id);
    assert h[..10] == front;
    assert h[2..4] == h[..10][2..4] && h[4..6] == h[..10][4..6];
    assert h[12..] == src + dst;
    assert h[12..16] == h[12..][..4] && h[16..20] == h[12..][4..];
  }

  lemma IpFieldsOf(h: seq<byte>, t: seq<byte>, total: nat, id: u16, sum: u16, src: Addr, dst: Addr)
    requires h == IpBytes(total, id, sum, src, dst)
    ensures IpFieldsAre(AF_INET + h + t, total, id, src, dst)
  {
    var f := AF_INET + h + t;
    IpHeaderBytes(total, id, sum, src, dst);
    Be16Is(h, 2, total % 0x1_0000);
    Be16Is(h, 4, id);
    Behind(AF_INET, h, t, f);
    assert f[..4] == AF_INET;
    assert f[16..20] == f[4..24][12..16] && f[20..24] == f[4..24][16..20];
  }

  lemma Behind(a: seq<byte>, h: seq<byte>, t: seq<byte>, f: seq<byte>)
    requires |a| == 4 && |h| == 20 && f == a + h + t
    ensures |f| == 24 + |t| && f[4..24] == h && f[24..] == t
    ensures forall i :: 4 <= i < 24 ==> f[i] == h[i - 4]
  {
  }

  lemma WordCount(w: nat)
    requires w % 4 == 0
    ensures (5 + w / 4) % 16 * 16 == (20 + w) / 4 % 16 * 16
  {
    assert (20 + w) / 4 == 5 + w / 4;
  }

  lemma TcpFieldsOf(s: Seg, sum: u16)
    ensures TcpFieldsAre(TcpBytes(s, sum), s, WireLen(s.opt))
  {
    var t, a := TcpBytes(s, sum), TcpFront(s);
    FrontFields(s);
    TcpParts(s, sum);
    FrontNumbers(s, t);
    WireLenIsEncoded(s.opt);
    WordCount(WireLen(s.opt));
    assert t[12] == t[..16][12] && t[13] == t[..16][13];
    assert t[18..] == TcpBack(s);
    assert t[18] == t[18..][0] && t[19] == t[18..][1];
  }

  lemma FrontNumbers(s: Seg, t: seq<byte>)
    requires |t| >= TCP_LEN && t[..16] == TcpFront(s)
    ensures Num16(t, 0) == s.sport && Num16(t, 2) == s.dport && Num32(t, 4) == s.sq && Num32(t, 8) == s.ack
    ensures Num16(t, 14) == s.win
  {
    HeaderReads(s, t);
  }

  lemma TailOf(f: seq<byte>, t: seq<byte>, n: nat)
    requires |f| >= 24 && f[24..] == t && 20 + n <= |t|
    ensures f[44..44 + n] == t[20..20 + n] && f[44 + n..] == t[20 + n..]
  {
    assert t[20..20 + n] == f[24..][20..20 + n];
  }

  /** The frame's parts: the headers' fields, then the options and the payload to the end. */
  ghost predicate FrameOf(f: seq<byte>, s: Seg, src: Addr, dst: Addr, id: u16, opts: seq<byte>) {
    var n := |opts|;
    && |f| == 44 + n + |s.payload| && IpFieldsAre(f, 40 + n + |s.payload|, id, src, dst)
    && TcpFieldsAre(f[24..], s, n) && f[44..44 + n] == opts && f[44 + n..] == s.payload
  }

  lemma FrameFrom(s: Seg, src: Addr, dst: Addr, id: u16, h: seq<byte>, t: seq<byte>, opts: seq<byte>, total: nat, ipSum: u16)
    requires h == IpBytes(total, id, ipSum, src, dst) && total == 40 + |opts| + |s.payload|
    requires |t| == 20 + |opts| + |s.payload| && TcpFieldsAre(t, s, |opts|)
    requires t[20..20 + |opts|] == opts && t[20 + |opts|..] == s.payload
    ensures FrameOf(AF_INET + h + t, s, src, dst, id, opts)
  {
    var f := AF_INET + h + t;
    IpFieldsOf(h, t, total, id, ipSum, src, dst);
    Behind(AF_INET, h, t, f);
    TailOf(f, t, |opts|);
  }

  /** Every byte of a built frame but the two checksums. */
  lemma FrameIs(s: Seg, src: Addr, dst: Addr, id: u16)
    ensures FrameOf(Frame(s, src, dst, id), s, src, dst, id, OptionBytes(s.opt))
  {
    var opts, sum, total := OptionBytes(s.opt), TcpSum(s, src, dst), TotalLength(s);
    WireLenIsEncoded(s.opt);
    TcpParts(s, sum);
    TcpFieldsOf(s, sum);
    FrameFrom(s, src, dst, id, IpHeader(s, src, dst, id), TcpBytes(s, sum), opts, total, IpSum(total, id, src, dst));
  }

  /** The addresses, a zero, the protocol and the segment's length, as RFC 793 puts them before the
      segment for its checksum, read off the frame. */
  function PseudoOf(f: seq<byte>, n: u16): seq<byte>
    requires |f| >= 24
  {
    f[16..24] + [0, f[13], n / 256, n % 256]
  }

  ghost predicate SumsUp(f: seq<byte>) {
    && 24 <= |f| < 24 + 0x1_0000 && Reduce(Total(f[4..24])) == 0xffff
    && Reduce(Total(PseudoOf(f, |f| - 24) + f[24..])) == 0xffff
  }

  lemma PseudoReads(f: seq<byte>, src: Addr, dst: Addr, n: u16)
    requires |f| >= 24 && f[16..20] == src && f[20..24] == dst && f[13] == 6
    ensures PseudoOf(f, n) == Pseudo(src, dst, n)
  {
    PseudoIs(src, dst, n);
    assert f[16..24] == src + dst;
  }

  /** The two checksums as their receiver computes them from the frame alone: the header sums to
      all ones, and so do pseudo-header and segment. */
  lemma FrameSums(s: Seg, src: Addr, dst: Addr, id: u16)
    requires TotalLength(s) <= 0xffff
    ensures SumsUp(Frame(s, src, dst, id))
  {
    var f, t := Frame(s, src, dst, id), TcpSegment(s, src, dst);
    Behind(AF_INET, IpHeader(s, src, dst, id), t, f);
    FrameIs(s, src, dst, id);
    TcpBytesLength(s, TcpSum(s, src, dst));
    HeaderSums(s, src, dst, id);
    PseudoReads(f, src, dst, |t|);
    TcpSegmentVerifiesTruly(s, src, dst);
  }

  lemma PseudoIs(src: Addr, dst: Addr, n: u16)
    ensures Pseudo(src, dst, n) == src + dst + [0, 6, n / 256, n % 256]
  {
    assert n % 0x1_0000 == n;
  }

  lemma HeaderSums(s: Seg, src: Addr, dst: Addr, id: u16)
    ensures Reduce(Total(IpHeader(s, src, dst, id))) == 0xffff
  {
    var h := IpHeader(s, src, dst, id);
    IpHeaderVerifies(s, src, dst, id);
    SmallTotal(h);
    NoWrap(0, Total(h));
  }

  // -------------------------------------------------------------------- what is parsed

  /** Length of the IP header, the length field, where the TCP header begins, and its length. */
  function HeaderLen(f: seq<byte>): int
    requires |f| >= 24
  {
    var first: int := f[4];
    4 * (first - 64)
  }

  function OffsetLen(f: seq<byte>, b: int): int
    requires 0 <= b && b + 20 <= |f|
  {
    var offset: int := f[b + 12];
    offset / 16 * 4
  }

  /** The frame is of family 2 and holds IPv4 with a header of at least 20 bytes, TCP, and a length
      field that the frame holds and that holds both headers. */
  ghost predicate Inside(f: seq<byte>) {
    && |f| >= 24 && f[0] == 0 && f[1] == 0 && f[2] == 0 && f[3] == 2
    && 64 <= f[4] < 80 && HeaderLen(f) >= 20 && f[13] == 6
    && Num16(f, 6) <= |f| - 4 && HeaderLen(f) + 20 <= Num16(f, 6)
  }

  /** And the data offset is at least 20 and within the length field. */
  ghost predicate HoldsTcp(f: seq<byte>) {
    Inside(f) && 20 <= OffsetLen(f, 4 + HeaderLen(f)) <= Num16(f, 6) - HeaderLen(f)
  }

  lemma Nibbles(x: byte)
    ensures x / 16 == 4 <==> 64 <= x < 80
    ensures 64 <= x < 80 ==> x % 16 == x - 64
  {
  }

  lemma FamilyIs(f: seq<byte>)
    requires |f| >= 4
    ensures Get32(f, 0) == 2 <==> f[0] == 0 && f[1] == 0 && f[2] == 0 && f[3] == 2
  {
  }

  lemma TcpOfExactly(f: seq<byte>)
    ensures TcpOf(f).Some? <==> Inside(f)
    ensures Inside(f) ==> TcpOf(f) == Some(f[4 + HeaderLen(f)..4 + Num16(f, 6)])
  {
    if |f| >= 24 {
      FamilyIs(f);
      Nibbles(f[4]);
    }
  }

  /** The parser reads a frame if and only if it holds a TCP segment. */
  lemma ParsesExactly(f: seq<byte>)
    ensures Parse(f).Some? <==> HoldsTcp(f)
  {
    TcpOfExactly(f);
    if Inside(f) {
      var b, e := 4 + HeaderLen(f), 4 + Num16(f, 6);
      var t := f[b..e];
      assert t[12] == f[b + 12];
    }
  }

  /** A segment with the header's numbers at their places from b on, the options between the
      header and the data offset d, and the payload from there to e. */
  ghost predicate ReadFrom(s: Seg, f: seq<byte>, b: nat, d: nat, e: nat) {
    && 20 <= d && b + d <= e <= |f|
    && s.sport == Num16(f, b) && s.dport == Num16(f, b + 2) && s.sq == Num32(f, b + 4) && s.ack == Num32(f, b + 8)
    && s.flags == f[b + 13] && s.win == Num16(f, b + 14)
    && s.opt == Walk(f[b + 20..b + d], NO_OPTIONS) && s.payload == f[b + d..e]
  }

  lemma SegReadFrom(f: seq<byte>, b: nat, d: nat, e: nat)
    requires 20 <= d && b + d <= e <= |f| && d == OffsetLen(f, b)
    ensures SegOf(f[b..e]).Some? && ReadFrom(SegOf(f[b..e]).value, f, b, d, e)
  {
    var t := f[b..e];
    ReadsAt(f, b, e, t);
    SliceOf(f, b, e, 20, d);
    SliceOf(f, b, e, d, e - b);
  }

  lemma SliceOf(f: seq<byte>, b: nat, e: nat, i: nat, j: nat)
    requires b <= e <= |f| && i <= j <= e - b
    ensures f[b..e][i..j] == f[b + i..b + j]
  {
    var t, u, v := f[b..e], f[b..e][i..j], f[b + i..b + j];
    assert |u| == j - i == |v|;
    forall k | 0 <= k < |u|
      ensures u[k] == v[k]
    {
      assert u[k] == t[i + k] == f[b + (i + k)];
    }
  }

  lemma ParsedAt(f: seq<byte>, b: nat, d: nat, e: nat)
    requires HoldsTcp(f) && b == 4 + HeaderLen(f) && d == OffsetLen(f, b) && e == 4 + Num16(f, 6)
    ensures Parse(f).Some? && ReadFrom(Parse(f).value, f, b, d, e)
  {
    TcpOfExactly(f);
    SegReadFrom(f, b, d, e);
  }

  /** And what it reads lies where the header lengths and the length field say. */
  lemma ParsedIs(f: seq<byte>)
    requires HoldsTcp(f)
    ensures Parse(f).Some?
    ensures var b := 4 + HeaderLen(f); ReadFrom(Parse(f).value, f, b, OffsetLen(f, b), 4 + Num16(f, 6))
  {
    var b := 4 + HeaderLen(f);
    ParsedAt(f, b, OffsetLen(f, b), 4 + Num16(f, 6));
  }

  lemma ReadsAt(f: seq<byte>, b: nat, e: nat, t: seq<byte>)
    requires b + 20 <= e <= |f| && t == f[b..e]
    ensures Get16(t, 0) == Num16(f, b) && Get16(t, 2) == Num16(f, b + 2) && Get16(t, 14) == Num16(f, b + 14)
    ensures Get32(t, 4) == Num32(f, b + 4) && Get32(t, 8) == Num32(f, b + 8)
    ensures t[12] == f[b + 12] && t[13] == f[b + 13]
  {
  }

  // ------------------------------------------------------------------- the option field

  /** A padding byte, or an option: its kind and what follows its length byte. */
  datatype Item = Pad | Opt(kind: byte, body: seq<byte>)

  ghost predicate WellFormed(i: Item) {
    i.Opt? ==> i.kind >= 2 && |i.body| <= 253
  }

  ghost predicate AllWellFormed(items: seq<Item>) {
    forall i :: 0 <= i < |items| ==> WellFormed(items[i])
  }

  function Spelled(i: Item): seq<byte> {
    if i.Pad? then [1] else [i.kind, (2 + |i.body|) % 256] + i.body
  }

  function SpelledAll(items: seq<Item>): seq<byte> {
    if items == [] then [] else Spelled(items[0]) + SpelledAll(items[1..])
  }

  /** No option begins here: the field is over, ends the list, or is cut short. */
  ghost predicate Stops(tail: seq<byte>) {
    tail == [] || tail[0] == 0 || (tail[0] >= 2 && (|tail| == 1 || tail[1] < 2 || tail[1] > |tail|))
  }

  /** The body of the last option of this kind and length. */
  function LastBody(items: seq<Item>, kind: byte, len: nat): Option<seq<byte>> {
    if items == [] then None
    else
      var later := LastBody(items[1..], kind, len);
      if later.Some? then later
      else if items[0].Opt? && items[0].kind == kind && |items[0].body| == len then Some(items[0].body)
      else None
  }

  /** The blocks of all SACK options, in order. */
  function AllBlocks(items: seq<Item>): seq<SeqRange> {
    if items == [] then []
    else (if items[0].Opt? && items[0].kind == 5 then ReadBlocks(items[0].body) else []) + AllBlocks(items[1..])
  }

  /** What the options say: of each kind the last of its proper length counts, the blocks of all
      SACK options add up, and no other option says anything. */
  ghost predicate Says(items: seq<Item>, o: TcpOptions) {
    && (var m := LastBody(items, 2, 2); if m.Some? && |m.value| == 2 then o.mss == Some(Num16(m.value, 0)) else o.mss == None)
    && (o.sackPermitted <==> LastBody(items, 4, 0).Some?)
    && (var w := LastBody(items, 3, 1); if w.Some? && |w.value| == 1 then o.wscale == Some(w.value[0]) else o.wscale == None)
    && o.blocks == AllBlocks(items)
  }

  /** What is read later wins over acc. */
  function Over(acc: TcpOptions, o: TcpOptions): TcpOptions {
    TcpOptions(if o.mss.Some? then o.mss else acc.mss, acc.sackPermitted || o.sackPermitted,
               acc.blocks + o.blocks, if o.wscale.Some? then o.wscale else acc.wscale)
  }

  lemma {:induction false} LastBodyFits(items: seq<Item>, kind: byte, len: nat)
    ensures LastBody(items, kind, len).Some? ==> |LastBody(items, kind, len).value| == len
    decreases |items|
  {
    if items != [] {
      LastBodyFits(items[1..], kind, len);
    }
  }

  /** What one item contributes. */
  function Alone(i: Item): TcpOptions {
    if i.Pad? then NO_OPTIONS
    else if i.kind == 2 && |i.body| == 2 then NO_OPTIONS.(mss := Some(Word(i.body[0], i.body[1])))
    else if i.kind == 4 && |i.body| == 0 then NO_OPTIONS.(sackPermitted := true)
    else if i.kind == 3 && |i.body| == 1 then NO_OPTIONS.(wscale := Some(i.body[0]))
    else if i.kind == 5 then NO_OPTIONS.(blocks := ReadBlocks(i.body))
    else NO_OPTIONS
  }

  lemma ApplyIs(acc: TcpOptions, o: seq<byte>, kind: byte, body: seq<byte>)
    requires |o| == 2 + |body| && o[0] == kind && o[2..] == body && kind >= 2
    ensures Apply(acc, o) == Over(acc, Alone(Opt(kind, body)))
  {
    assert acc.blocks + [] == acc.blocks;
    assert |body| > 0 ==> o[2] == o[2..][0];
    assert |body| > 1 ==> o[3] == o[2..][1];
  }

  lemma {:induction false} StopsWalk(tail: seq<byte>, acc: TcpOptions)
    requires Stops(tail)
    ensures Walk(tail, acc) == acc
  {
  }

  lemma {:induction false} WalkItem(i: Item, rest: seq<byte>, acc: TcpOptions)
    requires WellFormed(i)
    ensures Walk(Spelled(i) + rest, acc) == Walk(rest, Over(acc, Alone(i)))
  {
    assert acc.blocks + [] == acc.blocks;
    if i.Pad? {
      assert ([1] + rest)[1..] == rest;
    } else {
      WalkStep(Spelled(i), rest, acc);
      ApplyIs(acc, Spelled(i), i.kind, i.body);
    }
  }

  lemma OverTwice(acc: TcpOptions, a: TcpOptions, b: TcpOptions)
    ensures Over(Over(acc, a), b) == Over(acc, Over(a, b))
  {
    assert acc.blocks + a.blocks + b.blocks == acc.blocks + (a.blocks + b.blocks);
  }

  lemma SaysCons(items: seq<Item>, o: TcpOptions)
    requires items != [] && WellFormed(items[0]) && Says(items[1..], o)
    ensures Says(items, Over(Alone(items[0]), o))
  {
    LastBodyFits(items[1..], 2, 2);
    LastBodyFits(items[1..], 3, 1);
  }

  lemma {:induction false} NothingSaid(items: seq<Item>, tail: seq<byte>, acc: TcpOptions)
    requires items == [] && Stops(tail)
    ensures Walk(SpelledAll(items) + tail, acc) == Over(acc, NO_OPTIONS) && Says(items, NO_OPTIONS)
  {
    assert SpelledAll(items) + tail == tail;
    StopsWalk(tail, acc);
    assert acc.blocks + [] == acc.blocks;
  }

  lemma {:induction false} SpelledFirst(items: seq<Item>, tail: seq<byte>)
    requires items != []
    ensures SpelledAll(items) + tail == Spelled(items[0]) + (SpelledAll(items[1..]) + tail)
  {
    Rejoin(Spelled(items[0]), SpelledAll(items[1..]), tail);
  }

  lemma Rejoin(a: seq<byte>, b: seq<byte>, c: seq<byte>)
    ensures a + b + c == a + (b + c)
  {
  }

  lemma WellFormedRest(items: seq<Item>)
    requires AllWellFormed(items) && items != []
    ensures WellFormed(items[0]) && AllWellFormed(items[1..])
  {
  }

  /** The walk over well-formed items reads what they say, whatever follows the end. */
  lemma {:induction false} WalkSays(items: seq<Item>, tail: seq<byte>, acc: TcpOptions) returns (o: TcpOptions)
    requires AllWellFormed(items) && Stops(tail)
    ensures Walk(SpelledAll(items) + tail, acc) == Over(acc, o) && Says(items, o)
    decreases |items|
  {
    if items == [] {
      NothingSaid(items, tail, acc);
      o := NO_OPTIONS;
    } else {
      var one := Alone(items[0]);
      WellFormedRest(items);
      SpelledFirst(items, tail);
      WalkItem(items[0], SpelledAll(items[1..]) + tail, acc);
      var later := WalkSays(items[1..], tail, Over(acc, one));
      o := Over(one, later);
      OverTwice(acc, one, later);
      SaysCons(items, later);
    }
  }

  lemma FirstItem(f: seq<byte>) returns (first: Item, n: nat)
    requires !Stops(f)
    ensures WellFormed(first) && 0 < n <= |f| && Spelled(first) == f[..n]
  {
    if f[0] == 1 {
      first, n := Pad, 1;
    } else {
      n := f[1];
      first := Opt(f[0], f[2..n]);
    }
  }

  /** Every field is a list of options and an end. */
  lemma {:induction false} FieldSplits(f: seq<byte>) returns (items: seq<Item>, tail: seq<byte>)
    ensures AllWellFormed(items) && Stops(tail) && f == SpelledAll(items) + tail
    decreases |f|
  {
    if Stops(f) {
      items, tail := [], f;
    } else {
      var first, n := FirstItem(f);
      var later;
      later, tail := FieldSplits(f[n..]);
      items := [first] + later;
      FieldJoins(f, n, first, later, tail);
    }
  }

  lemma {:induction false} FieldJoins(f: seq<byte>, n: nat, first: Item, later: seq<Item>, tail: seq<byte>)
    requires n <= |f| && Spelled(first) == f[..n] && f[n..] == SpelledAll(later) + tail
    ensures f == SpelledAll([first] + later) + tail
  {
    assert ([first] + later)[1..] == later;
    assert f == f[..n] + f[n..];
    assert f[..n] + (SpelledAll(later) + tail) == f[..n] + SpelledAll(later) + tail;
  }

  /** Whatever the field holds, the walk reads what its options say. */
  lemma OptionsMean(f: seq<byte>) returns (items: seq<Item>, tail: seq<byte>)
    ensures AllWellFormed(items) && Stops(tail) && f == SpelledAll(items) + tail && Says(items, Walk(f, NO_OPTIONS))
  {
    items, tail := FieldSplits(f);
    var o := WalkSays(items, tail, NO_OPTIONS);
    assert [] + o.blocks == o.blocks;
    assert Over(NO_OPTIONS, o) == o;
  }

  /** An option of another kind, or of these kinds with another length, is stepped over. */
  lemma {:induction false} OthersIgnored(i: Item, rest: seq<byte>, acc: TcpOptions)
    requires WellFormed(i) && i.Opt? && i.kind != 5
    requires !(i.kind == 2 && |i.body| == 2) && !(i.kind == 3 && |i.body| == 1) && !(i.kind == 4 && |i.body| == 0)
    ensures Walk(Spelled(i) + rest, acc) == Walk(rest, acc)
  {
    WalkItem(i, rest, acc);
    assert acc.blocks + [] == acc.blocks;
  }

  lemma NumsBehind(b: seq<byte>, rest: seq<byte>, j: nat)
    requires |b| >= 8 && rest == b[8..] && j + 4 <= |rest|
    ensures Num32(rest, j) == Num32(b, j + 8)
  {
    assert rest[j] == b[j + 8] && rest[j + 1] == b[j + 9] && rest[j + 2] == b[j + 10] && rest[j + 3] == b[j + 11];
  }

  /** Block number i, at byte j, is the one read there. */
  ghost predicate BlockAt(b: seq<byte>, bs: seq<SeqRange>, i: nat, j: nat) {
    i < |bs| && j + 8 <= |b| && bs[i] == SeqRange(Num32(b, j), Num32(b, j + 4))
  }

  lemma {:induction false} BlockRead(b: seq<byte>, i: nat, j: nat)
    requires j == 8 * i && j + 8 <= |b|
    ensures BlockAt(b, ReadBlocks(b), i, j)
    decreases |b|
  {
    if i > 0 {
      var rest := b[8..];
      BlockRead(rest, i - 1, j - 8);
      NumsBehind(b, rest, j - 8);
      NumsBehind(b, rest, j - 4);
    }
  }

  lemma {:induction false} BlocksCount(b: seq<byte>)
    ensures |ReadBlocks(b)| == |b| / 8
    decreases |b|
  {
    if |b| >= 8 {
      BlocksCount(b[8..]);
    }
  }

  /** A SACK option's body read as blocks: as many as fit, eight bytes each. */
  lemma {:induction false} BlocksAre(b: seq<byte>, i: nat)
    ensures |ReadBlocks(b)| == |b| / 8
    ensures i < |b| / 8 ==> BlockAt(b, ReadBlocks(b), i, 8 * i)
  {
    BlocksCount(b);
    if i < |b| / 8 {
      BlockRead(b, i, 8 * i);
    }
  }

  // --------------------------------------------------------------------- what is encoded

  /** The options in the order they are written; two padding bytes align the blocks. */
  function ItemsOf(o: TcpOptions): seq<Item> {
    (if o.mss.Some? then [Opt(2, [o.mss.value / 256, o.mss.value % 256])] else [])
    + (if o.sackPermitted then [Opt(4, [])] else [])
    + (if o.wscale.Some? then [Opt(3, [o.wscale.value])] else [])
    + (if o.blocks != [] then [Pad, Pad, Opt(5, BlockBytes(o.blocks))] else [])
  }

  lemma {:induction false} SpelledConcat(a: seq<Item>, b: seq<Item>)
    ensures SpelledAll(a + b) == SpelledAll(a) + SpelledAll(b)
    decreases |a|
  {
    if a == [] {
      assert a + b == b;
    } else {
      assert (a + b)[1..] == a[1..] + b;
      SpelledConcat(a[1..], b);
    }
  }

  lemma {:induction false} SpelledOne(i: Item)
    ensures SpelledAll([i]) == Spelled(i)
  {
    assert [i][1..] == [];
  }

  lemma {:induction false} SackSpelled(o: TcpOptions)
    requires o.blocks != []
    ensures SpelledAll([Pad, Pad, Opt(5, BlockBytes(o.blocks))]) == SackBytes(o)
  {
    var sack := Opt(5, BlockBytes(o.blocks));
    assert [Pad, Pad, sack] == [Pad] + ([Pad] + [sack]);
    SpelledConcat([Pad], [Pad] + [sack]);
    SpelledConcat([Pad], [sack]);
    SpelledOne(Pad);
    SpelledOne(sack);
  }

  lemma {:induction false} BareIsItems(o: TcpOptions)
    ensures SpelledAll(ItemsOf(o)) == Bare(o)
  {
    var m := if o.mss.Some? then [Opt(2, [o.mss.value / 256, o.mss.value % 256])] else [];
    var p := if o.sackPermitted then [Opt(4, [])] else [];
    var w := if o.wscale.Some? then [Opt(3, [o.wscale.value])] else [];
    var k := if o.blocks != [] then [Pad, Pad, Opt(5, BlockBytes(o.blocks))] else [];
    FixedSpelled(o, m, p, w);
    if o.blocks != [] {
      SackSpelled(o);
    }
    FourSpelled(m, p, w, k);
  }

  lemma {:induction false} FourSpelled(m: seq<Item>, p: seq<Item>, w: seq<Item>, k: seq<Item>)
    ensures SpelledAll(m + p + w + k) == SpelledAll(m) + SpelledAll(p) + SpelledAll(w) + SpelledAll(k)
  {
    SpelledConcat(m + p + w, k);
    SpelledConcat(m + p, w);
    SpelledConcat(m, p);
  }

  /** The option field: the options spelled out, and zero bytes up to a multiple of four. */
  lemma {:induction false} OptionFieldIs(o: TcpOptions)
    ensures var n := |SpelledAll(ItemsOf(o))|; var b := OptionBytes(o);
            && n <= |b| < n + 4 && |b| % 4 == 0 && b[..n] == SpelledAll(ItemsOf(o)) && forall i :: n <= i < |b| ==> b[i] == 0
  {
    WireLenIsEncoded(o);
    BareIsItems(o);
    Padded(Bare(o), Padding(|Bare(o)|), OptionBytes(o));
  }

  lemma Padded(a: seq<byte>, pad: seq<byte>, b: seq<byte>)
    requires b == a + pad && forall i :: 0 <= i < |pad| ==> pad[i] == 0
    ensures b[..|a|] == a && forall i :: |a| <= i < |b| ==> b[i] == 0
  {
  }

  lemma {:induction false} FixedSpelled(o: TcpOptions, m: seq<Item>, p: seq<Item>, w: seq<Item>)
    requires m == if o.mss.Some? then [Opt(2, [o.mss.value / 256, o.mss.value % 256])] else []
    requires p == if o.sackPermitted then [Opt(4, [])] else []
    requires w == if o.wscale.Some? then [Opt(3, [o.wscale.value])] else []
    ensures SpelledAll(m) == MssBytes(o) && SpelledAll(p) == PermittedBytes(o) && SpelledAll(w) == ScaleBytes(o)
  {
    if o.mss.Some? {
      SpelledOne(m[0]);
    }
    if o.sackPermitted {
      SpelledOne(p[0]);
    }
    if o.wscale.Some? {
      SpelledOne(w[0]);
    }
  }

  /** The blocks are written eight bytes each, start and end. */
  lemma {:induction false} BlocksWritten(bs: seq<SeqRange>, i: nat)
    requires i < |bs|
    ensures BlockAt(BlockBytes(bs), bs, i, 8 * i)
  {
    BlocksRoundTrip(bs);
    BlockRead(BlockBytes(bs), i, 8 * i);
  }
}
