/** IPv4 and TCP segments on the wire: the option encoder, the packet builder that writes a
    byte buffer, and the parser that walks it. */
module Wire {
  import opened Options
  import opened Checksum
  import opened SeqSpace
  import opened Reassembling

  datatype TcpOptions = TcpOptions(mss: Option<u16>, sackPermitted: bool, blocks: seq<SeqRange>, wscale: Option<byte>)

  datatype Seg = Seg(
    sport: u16, dport: u16, sq: u32, ack: u32, flags: byte, win: u16,
    opt: TcpOptions, payload: seq<byte>)

  const EOL: byte := 0
  const NOP: byte := 1
  const MSS: byte := 2
  const WSCALE: byte := 3
  const SACK_PERMITTED: byte := 4
  const SACK: byte := 5
  const IP_LEN: int := 20
  const TCP_LEN: int := 20
  const PROTO_TCP: byte := 6

  const NO_OPTIONS := TcpOptions(None, false, [], None)

  // --------------------------------------------------------------------- byte order

  function Be16(v: u16): (b: seq<byte>)
    ensures |b| == 2
  {
    [v / 256, v % 256]
  }

  function Be32(v: u32): (b: seq<byte>)
    ensures |b| == 4
  {
    Be16(v / 0x1_0000) + Be16(v % 0x1_0000)
  }

  function Get16(p: seq<byte>, i: nat): u16
    requires i + 2 <= |p|
  {
    Word(p[i], p[i + 1])
  }

  function Get32(p: seq<byte>, i: nat): u32
    requires i + 4 <= |p|
  {
    Word(p[i], p[i + 1]) * 0x1_0000 + Word(p[i + 2], p[i + 3])
  }

  /** The bytes b stand in p at i. */
  ghost predicate At(p: seq<byte>, i: int, b: seq<byte>) {
    0 <= i && i + |b| <= |p| && p[i..i + |b|] == b
  }

  lemma Get16Reads(p: seq<byte>, i: nat, v: u16)
    requires At(p, i, Be16(v))
    ensures Get16(p, i) == v
  {
    var w := p[i..i + 2];
    assert w[0] == p[i] && w[1] == p[i + 1];
  }

  lemma Get32Reads(p: seq<byte>, i: nat, v: u32)
    requires At(p, i, Be32(v))
    ensures Get32(p, i) == v
  {
    var hi, lo := v / 0x1_0000, v % 0x1_0000;
    var w := p[i..i + 4];
    assert w[..2] == Be16(hi) && w[2..] == Be16(lo);
    assert p[i..i + 2] == w[..2] && p[i + 2..i + 4] == w[2..];
    Get16Reads(p, i, hi);
    Get16Reads(p, i + 2, lo);
  }

  // ------------------------------------------------------------------------ options

  function MssBytes(o: TcpOptions): (b: seq<byte>)
    ensures |b| == if o.mss.Some? then 4 else 0
  {
    if o.mss.Some? then [MSS, 4] + Be16(o.mss.value) else []
  }

  function PermittedBytes(o: TcpOptions): (b: seq<byte>)
    ensures |b| == if o.sackPermitted then 2 else 0
  {
    if o.sackPermitted then [SACK_PERMITTED, 2] else []
  }

  function ScaleBytes(o: TcpOptions): (b: seq<byte>)
    ensures |b| == if o.wscale.Some? then 3 else 0
  {
    if o.wscale.Some? then [WSCALE, 3, o.wscale.value] else []
  }

  function BlockBytes(bs: seq<SeqRange>): (b: seq<byte>)
    ensures |b| == 8 * |bs|
  {
    if bs == [] then [] else Be32(bs[0].start) + Be32(bs[0].end) + BlockBytes(bs[1..])
  }

  function SackBytes(o: TcpOptions): (b: seq<byte>)
    ensures |b| == if o.blocks == [] then 0 else 4 + 8 * |o.blocks|
  {
    if o.blocks == [] then [] else [NOP, NOP, SACK, (2 + 8 * |o.blocks|) % 256] + BlockBytes(o.blocks)
  }

  function Bare(o: TcpOptions): seq<byte> {
    MssBytes(o) + PermittedBytes(o) + ScaleBytes(o) + SackBytes(o)
  }

  /** Zero to three end-of-list bytes, up to a multiple of four. */
  function Padding(n: nat): (b: seq<byte>)
    ensures |b| == (4 - n % 4) % 4 && forall i :: 0 <= i < |b| ==> b[i] == EOL
  {
    seq((4 - n % 4) % 4, i => EOL)
  }

  /** The option field as encode lays it out. */
  function OptionBytes(o: TcpOptions): seq<byte> {
    Bare(o) + Padding(|Bare(o)|)
  }

  /** The length counted option by option, rounded up to whole words. */
  function WireLen(o: TcpOptions): nat {
    (Counted(o) + 3) / 4 * 4
  }

  function Counted(o: TcpOptions): nat {
    (if o.mss.Some? then 4 else 0) + (if o.wscale.Some? then 3 else 0)
    + (if o.sackPermitted then 2 else 0) + (if o.blocks != [] then 4 + 8 * |o.blocks| else 0)
  }

  lemma CountedIsBare(o: TcpOptions)
    ensures Counted(o) == |Bare(o)|
  {
  }

  /** The two ways of counting agree. */
  lemma WireLenIsEncoded(o: TcpOptions)
    ensures WireLen(o) == |OptionBytes(o)| && WireLen(o) % 4 == 0
  {
    CountedIsBare(o);
    RoundUp(Counted(o));
  }

  lemma RoundUp(n: nat)
    ensures (n + 3) / 4 * 4 == n + (4 - n % 4) % 4
  {
  }

  /** Reads 8-byte blocks while they fit. */
  function ReadBlocks(b: seq<byte>): seq<SeqRange> {
    if |b| < 8 then [] else [SeqRange(Get32(b, 0), Get32(b, 4))] + ReadBlocks(b[8..])
  }

  /** What one option of kind k and bytes o (kind and length included) adds. */
  function Apply(acc: TcpOptions, o: seq<byte>): TcpOptions
    requires |o| >= 2
  {
    var len := |o|;
    if o[0] == MSS then (if len == 4 then acc.(mss := Some(Get16(o, 2))) else acc)
    else if o[0] == SACK_PERMITTED then (if len == 2 then acc.(sackPermitted := true) else acc)
    else if o[0] == WSCALE then (if len == 3 then acc.(wscale := Some(o[2])) else acc)
    else if o[0] == SACK then acc.(blocks := acc.blocks + ReadBlocks(o[2..]))
    else acc
  }

  /** The option walk over what is left of the field. */
  function Walk(o: seq<byte>, acc: TcpOptions): TcpOptions
    decreases |o|
  {
    if o == [] || o[0] == EOL then acc
    else if o[0] == NOP then Walk(o[1..], acc)
    else if |o| < 2 || o[1] < 2 || o[1] > |o| then acc
    else Walk(o[o[1]..], Apply(acc, o[..o[1]]))
  }

  lemma {:induction false} BlocksRoundTrip(bs: seq<SeqRange>)
    ensures ReadBlocks(BlockBytes(bs)) == bs
    decreases |bs|
  {
    if bs != [] {
      var b := BlockBytes(bs);
      var first, second, rest := Be32(bs[0].start), Be32(bs[0].end), BlockBytes(bs[1..]);
      assert b == first + second + rest;
      assert At(b, 0, first) && At(b, 4, second) && b[8..] == rest;
      Get32Reads(b, 0, bs[0].start);
      Get32Reads(b, 4, bs[0].end);
      BlocksRoundTrip(bs[1..]);
    }
  }

  /** One well-formed option is applied and stepped over. */
  lemma {:induction false} WalkStep(o: seq<byte>, rest: seq<byte>, acc: TcpOptions)
    requires 2 <= |o| < 256 && o[0] != EOL && o[0] != NOP && o[1] == |o|
    ensures Walk(o + rest, acc) == Walk(rest, Apply(acc, o))
  {
    var t := o + rest;
    assert t[0] == o[0] && t[1] == |o| && t[..|o|] == o && t[|o|..] == rest;
  }

  lemma {:induction false} WalkNops(o: seq<byte>, rest: seq<byte>, acc: TcpOptions)
    ensures Walk([NOP, NOP] + o + rest, acc) == Walk(o + rest, acc)
  {
    var t := [NOP, NOP] + o + rest;
    assert t[1..][1..] == o + rest;
    assert t[1..][0] == NOP;
  }

  lemma {:induction false} WalkMss(o: TcpOptions, rest: seq<byte>, acc: TcpOptions)
    requires acc.mss == None
    ensures Walk(MssBytes(o) + rest, acc) == Walk(rest, acc.(mss := o.mss))
  {
    var b := MssBytes(o);
    if o.mss.Some? {
      assert b[2..4] == Be16(o.mss.value);
      Get16Reads(b, 2, o.mss.value);
      WalkStep(b, rest, acc);
    } else {
      assert b + rest == rest;
    }
  }

  lemma {:induction false} WalkPermitted(o: TcpOptions, rest: seq<byte>, acc: TcpOptions)
    requires !acc.sackPermitted
    ensures Walk(PermittedBytes(o) + rest, acc) == Walk(rest, acc.(sackPermitted := o.sackPermitted))
  {
    if o.sackPermitted {
      WalkStep(PermittedBytes(o), rest, acc);
    } else {
      assert PermittedBytes(o) + rest == rest;
    }
  }

  lemma {:induction false} WalkScale(o: TcpOptions, rest: seq<byte>, acc: TcpOptions)
    requires acc.wscale == None
    ensures Walk(ScaleBytes(o) + rest, acc) == Walk(rest, acc.(wscale := o.wscale))
  {
    if o.wscale.Some? {
      WalkStep(ScaleBytes(o), rest, acc);
    } else {
      assert ScaleBytes(o) + rest == rest;
    }
  }

  lemma {:induction false} ApplySack(b: seq<byte>, bs: seq<SeqRange>, acc: TcpOptions)
    requires |b| >= 2 && b[0] == SACK && b[2..] == BlockBytes(bs) && acc.blocks == []
    ensures Apply(acc, b) == acc.(blocks := bs)
  {
    BlocksRoundTrip(bs);
    assert acc.blocks + bs == bs;
  }

  lemma {:induction false} WalkSack(o: TcpOptions, rest: seq<byte>, acc: TcpOptions)
    requires acc.blocks == [] && |o.blocks| <= 31
    ensures Walk(SackBytes(o) + rest, acc) == Walk(rest, acc.(blocks := o.blocks))
  {
    if o.blocks != [] {
      var b := [SACK, 2 + 8 * |o.blocks|] + BlockBytes(o.blocks);
      assert SackBytes(o) == [NOP, NOP] + b;
      WalkNops(b, rest, acc);
      assert b[2..] == BlockBytes(o.blocks);
      ApplySack(b, o.blocks, acc);
      WalkStep(b, rest, acc);
    } else {
      assert SackBytes(o) + rest == rest;
    }
  }

  lemma Regroup(a: seq<byte>, b: seq<byte>, c: seq<byte>, d: seq<byte>, e: seq<byte>)
    ensures a + b + c + d + e == a + (b + (c + (d + e)))
  {
    assert a + b + c + d + e == a + b + c + (d + e);
    assert a + b + c + (d + e) == a + b + (c + (d + e));
    assert a + b + (c + (d + e)) == a + (b + (c + (d + e)));
  }

  /** The option walk reads back what the encoder wrote. */
  lemma OptionsRoundTrip(o: TcpOptions)
    requires |o.blocks| <= 31
    ensures Walk(OptionBytes(o), NO_OPTIONS) == o
  {
    var pad := Padding(|Bare(o)|);
    var sack := SackBytes(o) + pad;
    var scale := ScaleBytes(o) + sack;
    var permitted := PermittedBytes(o) + scale;
    Regroup(MssBytes(o), PermittedBytes(o), ScaleBytes(o), SackBytes(o), pad);
    WalkMss(o, permitted, NO_OPTIONS);
    WalkPermitted(o, scale, NO_OPTIONS.(mss := o.mss));
    WalkScale(o, sack, NO_OPTIONS.(mss := o.mss, sackPermitted := o.sackPermitted));
    WalkSack(o, pad, NO_OPTIONS.(mss := o.mss, sackPermitted := o.sackPermitted, wscale := o.wscale));
  }
}
