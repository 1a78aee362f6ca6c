/** The codec as it runs: encode and build write a byte buffer through a moving index, parse
    walks a frame, each proved against the byte-level definitions. */
module Codec {
  import opened Options
  import opened Checksum
  import opened Wire
  import opened Packets
  import Layout
  import Reassembling

  // ------------------------------------------------------------------------- writing

  /** From position i on, b has been written; before and behind it nothing changed. */
  ghost predicate Wrote(was: seq<byte>, i: nat, b: seq<byte>, now: seq<byte>) {
    && |was| == |now| && i + |b| <= |was|
    && now[..i] == was[..i] && now[i..i + |b|] == b && now[i + |b|..] == was[i + |b|..]
  }

  lemma WroteNothing(s: seq<byte>, i: nat)
    requires i <= |s|
    ensures Wrote(s, i, [], s)
  {
  }

  lemma WroteTwice(x: seq<byte>, i: nat, b: seq<byte>, y: seq<byte>, j: nat, c: seq<byte>, z: seq<byte>)
    requires Wrote(x, i, b, y) && j == i + |b| && Wrote(y, j, c, z)
    ensures Wrote(x, i, b + c, z)
  {
    var k := j + |c|;
    assert z[..i] == z[..j][..i] == y[..j][..i] == y[..i];
    assert z[i..j] == z[..j][i..] == y[..j][i..] == y[i..j];
    assert z[i..k] == z[i..j] + z[j..k];
    assert z[k..] == y[k..] == y[j..][|c|..] == x[j..][|c|..] == x[k..];
  }

  /** Copies b to position i. */
  method Append(out: array<byte>, i: nat, b: seq<byte>) returns (j: nat)
    requires i + |b| <= out.Length
    modifies out
    ensures j == i + |b| && Wrote(old(out[..]), i, b, out[..])
  {
    j := i;
    while j < i + |b|
      invariant i <= j <= i + |b|
      invariant out[..i] == old(out[..i]) && out[i..j] == b[..j - i] && out[j..] == old(out[j..])
    {
      ghost var was, behind := out[i..j], out[j..];
      out[j] := b[j - i];
      assert out[i..j + 1] == was + [b[j - i]];
      assert out[j + 1..] == behind[1..];
      j := j + 1;
    }
  }

  method Put16(out: array<byte>, i: nat, v: u16)
    requires i + 2 <= out.Length
    modifies out
    ensures Wrote(old(out[..]), i, Be16(v), out[..])
  {
    out[i], out[i + 1] := v / 256, v % 256;
  }

  method EncodeMss(o: TcpOptions, out: array<byte>, i: nat) returns (j: nat)
    requires i + |MssBytes(o)| <= out.Length
    modifies out
    ensures j == i + |MssBytes(o)| && Wrote(old(out[..]), i, MssBytes(o), out[..])
  {
    j := i;
    if o.mss.Some? {
      j := Append(out, i, [MSS, 4] + Be16(o.mss.value));
    }
  }

  method EncodePermitted(o: TcpOptions, out: array<byte>, i: nat) returns (j: nat)
    requires i + |PermittedBytes(o)| <= out.Length
    modifies out
    ensures j == i + |PermittedBytes(o)| && Wrote(old(out[..]), i, PermittedBytes(o), out[..])
  {
    j := i;
    if o.sackPermitted {
      j := Append(out, i, [SACK_PERMITTED, 2]);
    }
  }

  method EncodeScale(o: TcpOptions, out: array<byte>, i: nat) returns (j: nat)
    requires i + |ScaleBytes(o)| <= out.Length
    modifies out
    ensures j == i + |ScaleBytes(o)| && Wrote(old(out[..]), i, ScaleBytes(o), out[..])
  {
    j := i;
    if o.wscale.Some? {
      j := Append(out, i, [WSCALE, 3, o.wscale.value]);
    }
  }

  method EncodeBlocks(bs: seq<Reassembling.SeqRange>, out: array<byte>, i: nat) returns (j: nat)
    requires i + 8 * |bs| <= out.Length
    modifies out
    ensures j == i + 8 * |bs| && Wrote(old(out[..]), i, BlockBytes(bs), out[..])
  {
    j := i;
    WroteNothing(out[..], i);
    for k := 0 to |bs|
      invariant j == i + 8 * k && Wrote(old(out[..]), i, BlockBytes(bs[..k]), out[..])
    {
      ghost var was := out[..];
      var b := Be32(bs[k].start) + Be32(bs[k].end);
      j := Append(out, j, b);
      BlocksSnoc(bs, k);
      WroteTwice(old(out[..]), i, BlockBytes(bs[..k]), was, i + 8 * k, b, out[..]);
    }
    assert bs[..|bs|] == bs;
  }

  lemma BlocksSnoc(bs: seq<Reassembling.SeqRange>, k: nat)
    requires k < |bs|
    ensures BlockBytes(bs[..k + 1]) == BlockBytes(bs[..k]) + (Be32(bs[k].start) + Be32(bs[k].end))
  {
    assert bs[..k + 1] == bs[..k] + [bs[k]];
    BlocksConcat(bs[..k], bs[k]);
  }

  lemma {:induction false} BlocksConcat(a: seq<Reassembling.SeqRange>, b: Reassembling.SeqRange)
    ensures BlockBytes(a + [b]) == BlockBytes(a) + (Be32(b.start) + Be32(b.end))
    decreases |a|
  {
    if a == [] {
      assert a + [b] == [b] && [b][1..] == [];
      assert BlockBytes([b]) == Be32(b.start) + Be32(b.end) + [];
    } else {
      assert (a + [b])[1..] == a[1..] + [b];
      BlocksConcat(a[1..], b);
    }
  }

  method EncodeSack(o: TcpOptions, out: array<byte>, i: nat) returns (j: nat)
    requires i + |SackBytes(o)| <= out.Length
    modifies out
    ensures j == i + |SackBytes(o)| && Wrote(old(out[..]), i, SackBytes(o), out[..])
  {
    j := i;
    if o.blocks != [] {
      var head: seq<byte> := [NOP, NOP, SACK, (2 + 8 * |o.blocks|) % 256];
      var k := Append(out, i, head);
      ghost var was := out[..];
      j := EncodeBlocks(o.blocks, out, k);
      WroteTwice(old(out[..]), i, head, was, k, BlockBytes(o.blocks), out[..]);
    }
  }

  method PadToWord(out: array<byte>, i: nat) returns (j: nat)
    requires i + |Padding(i)| <= out.Length
    modifies out
    ensures j == i + |Padding(i)| && Wrote(old(out[..]), i, Padding(i), out[..])
  {
    j := i;
    ghost var end := i + |Padding(i)|;
    while j % 4 != 0
      invariant i <= j <= end && (j % 4 == 0 ==> j == end)
      invariant out[..i] == old(out[..i]) && out[j..] == old(out[j..])
      invariant forall k :: i <= k < j ==> out[k] == EOL
      decreases end - j
    {
      ghost var behind := out[j..];
      out[j] := EOL;
      assert out[j + 1..] == behind[1..];
      j := j + 1;
    }
    assert out[i..j] == Padding(i);
  }

  method EncodeFixed(o: TcpOptions, out: array<byte>) returns (i: nat)
    requires |MssBytes(o) + PermittedBytes(o) + ScaleBytes(o)| <= out.Length
    modifies out
    ensures i == |MssBytes(o) + PermittedBytes(o) + ScaleBytes(o)|
    ensures Wrote(old(out[..]), 0, MssBytes(o) + PermittedBytes(o) + ScaleBytes(o), out[..])
  {
    var m := EncodeMss(o, out, 0);
    ghost var first := out[..];
    var p := EncodePermitted(o, out, m);
    ghost var second := out[..];
    WroteTwice(old(out[..]), 0, MssBytes(o), first, m, PermittedBytes(o), second);
    i := EncodeScale(o, out, p);
    WroteTwice(old(out[..]), 0, MssBytes(o) + PermittedBytes(o), second, p, ScaleBytes(o), out[..]);
  }

  /** Writes the option field and returns its length. */
  method Encode(o: TcpOptions, out: array<byte>) returns (i: nat)
    requires |OptionBytes(o)| <= out.Length
    modifies out
    ensures i == |OptionBytes(o)| && Wrote(old(out[..]), 0, OptionBytes(o), out[..])
  {
    var fixedLen := EncodeFixed(o, out);
    ghost var first := out[..];
    var n := EncodeSack(o, out, fixedLen);
    ghost var second := out[..];
    WroteTwice(old(out[..]), 0, MssBytes(o) + PermittedBytes(o) + ScaleBytes(o), first, fixedLen, SackBytes(o), second);
    i := PadToWord(out, n);
    WroteTwice(old(out[..]), 0, Bare(o), second, n, Padding(n), out[..]);
  }

  /** Storing c over z in the middle of what was written. */
  lemma Overwrote(x: seq<byte>, i: nat, a: seq<byte>, z: seq<byte>, b: seq<byte>, y: seq<byte>, k: nat, c: seq<byte>, w: seq<byte>)
    requires Wrote(x, i, a + z + b, y) && k == i + |a| && |c| == |z| && Wrote(y, k, c, w)
    ensures Wrote(x, i, a + c + b, w)
  {
    var m, n := k + |c|, k + |c| + |b|;
    var abc := a + z + b;
    assert y[i..n] == abc;
    assert y[i..k] == abc[..|a|] == a && y[m..n] == abc[|a| + |z|..] == b;
    assert w[..i] == w[..k][..i] == y[..k][..i] == y[..i];
    assert w[i..k] == w[..k][i..] == y[..k][i..] == y[i..k];
    assert w[m..n] == w[m..][..|b|] == y[m..][..|b|] == y[m..n];
    assert w[n..] == w[m..][|b|..] == y[m..][|b|..] == y[n..];
    assert w[i..n] == w[i..k] + w[k..m] + w[m..n];
  }

  /** The IP header: fields, zero checksum, addresses; then the checksum over them. */
  method WriteIp(out: array<byte>, i: nat, total: nat, id: u16, src: Addr, dst: Addr) returns (j: nat)
    requires i + IP_LEN <= out.Length
    modifies out
    ensures j == i + IP_LEN && Wrote(old(out[..]), i, IpBytes(total, id, IpSum(total, id, src, dst), src, dst), out[..])
  {
    var front := [0x45, 0] + Be16(total % 0x1_0000) + Be16(id) + [0, 0, 64, PROTO_TCP];
    j := Append(out, i, front + Be16(0) + (src + dst));
    ghost var zeroed := out[..];
    var sum := SumBe16(out[i..j]);
    assert out[i..j] == IpBytes(total, id, 0, src, dst);
    var c := FoldCarries(sum);
    Put16(out, i + 10, c);
    Overwrote(old(out[..]), i, IpFront(total, id), Be16(0), src + dst, zeroed, i + 10, Be16(c), out[..]);
  }

  /** The TCP segment: header with zero checksum, options, payload; then the checksum over the
      pseudo-header chained with it. */
  method WriteTcp(out: array<byte>, i: nat, s: Seg, opts: seq<byte>, src: Addr, dst: Addr) returns (j: nat)
    requires opts == OptionBytes(s.opt) && |opts| == WireLen(s.opt) && i + TcpLength(s) <= out.Length
    modifies out
    ensures j == i + TcpLength(s) && Wrote(old(out[..]), i, TcpSegment(s, src, dst), out[..])
  {
    j := WriteZeroed(out, i, s, opts);
    ghost var zeroed := out[..];
    TcpBytesLength(s, 0);
    assert out[i..j] == TcpBytes(s, 0);
    var c := TcpChecksum(out[i..j], s, src, dst);
    Put16(out, i + 16, c);
    Overwrote(old(out[..]), i, TcpFront(s), Be16(0), TcpBack(s), zeroed, i + 16, Be16(c), out[..]);
  }

  method TcpChecksum(t: seq<byte>, s: Seg, src: Addr, dst: Addr) returns (c: u16)
    requires t == TcpBytes(s, 0)
    ensures c == TcpSum(s, src, dst)
  {
    var pseudo := src + dst + [0, PROTO_TCP] + Be16(TcpLength(s) % 0x1_0000);
    var ph := SumBe16(pseudo);
    var th := SumBe16(t);
    c := FoldCarries((ph + th) % WIDE);
  }

  method WriteZeroed(out: array<byte>, i: nat, s: Seg, opts: seq<byte>) returns (j: nat)
    requires opts == OptionBytes(s.opt) && |opts| == WireLen(s.opt) && i + TcpLength(s) <= out.Length
    modifies out
    ensures j == i + TcpLength(s) && Wrote(old(out[..]), i, TcpBytes(s, 0), out[..])
  {
    var h := WriteHeader(out, i, s);
    ghost var x := out[..];
    var back := [0, 0] + opts + s.payload;
    j := Append(out, h, back);
    WroteTwice(old(out[..]), i, TcpFront(s) + Be16(0), x, h, back, out[..]);
  }

  method WriteHeader(out: array<byte>, i: nat, s: Seg) returns (j: nat)
    requires i + 18 <= out.Length
    modifies out
    ensures j == i + 18 && Wrote(old(out[..]), i, TcpFront(s) + Be16(0), out[..])
  {
    j := Append(out, i, Be16(s.sport) + Be16(s.dport) + Be32(s.sq) + Be32(s.ack)
      + [(5 + WireLen(s.opt) / 4) % 16 * 16, s.flags] + Be16(s.win) + Be16(0));
  }

  /** Builds the frame, or refuses without touching the buffer. */
  method Build(out: array<byte>, src: Addr, dst: Addr, s: Seg, id: u16) returns (n: nat)
    modifies out
    ensures Fits(s, out.Length) ==> n == 4 + TotalLength(s) && Wrote(old(out[..]), 0, Frame(s, src, dst, id), out[..])
    ensures !Fits(s, out.Length) ==> n == 0 && out[..] == old(out[..])
    ensures n == 0 <==> |OptionBytes(s.opt)| > 40 || 44 + |OptionBytes(s.opt)| + |s.payload| > out.Length
    ensures n > 0 ==> n <= out.Length && Layout.FrameOf(out[..n], s, src, dst, id, OptionBytes(s.opt))
  {
    WireLenIsEncoded(s.opt);
    var optlen := WireLen(s.opt);
    if optlen > 40 {
      return 0;
    }
    var optbuf := new byte[40](_ => 0);
    var e := Encode(s.opt, optbuf);
    var opts := optbuf[..optlen];
    if 4 + TotalLength(s) > out.Length {
      return 0;
    }
    n := WriteFrame(out, src, dst, s, id, opts);
    Layout.FrameIs(s, src, dst, id);
  }

  method WriteFrame(out: array<byte>, src: Addr, dst: Addr, s: Seg, id: u16, opts: seq<byte>) returns (n: nat)
    requires opts == OptionBytes(s.opt) && |opts| == WireLen(s.opt) && 4 + TotalLength(s) <= out.Length
    modifies out
    ensures n == 4 + TotalLength(s) && Wrote(old(out[..]), 0, Frame(s, src, dst, id), out[..])
  {
    var i := Append(out, 0, AF_INET);
    ghost var first := out[..];
    var h := WriteIp(out, i, TotalLength(s), id, src, dst);
    ghost var second := out[..];
    WroteTwice(old(out[..]), 0, AF_INET, first, i, IpHeader(s, src, dst, id), second);
    n := WriteTcp(out, h, s, opts, src, dst);
    WroteTwice(old(out[..]), 0, AF_INET + IpHeader(s, src, dst, id), second, h, TcpSegment(s, src, dst), out[..]);
  }

  // ------------------------------------------------------------------------- reading

  method ReadSackBlocks(o: seq<byte>) returns (bs: seq<Reassembling.SeqRange>)
    ensures bs == ReadBlocks(o)
  {
    bs := [];
    var b := 0;
    while b + 8 <= |o|
      invariant b <= |o| && bs + ReadBlocks(o[b..]) == ReadBlocks(o)
    {
      ReadBlocksAt(o, b);
      bs := bs + [Reassembling.SeqRange(Get32(o, b), Get32(o, b + 4))];
      b := b + 8;
    }
  }

  lemma ReadBlocksAt(o: seq<byte>, b: nat)
    requires b + 8 <= |o|
    ensures ReadBlocks(o[b..]) == [Reassembling.SeqRange(Get32(o, b), Get32(o, b + 4))] + ReadBlocks(o[b + 8..])
  {
    assert o[b..][8..] == o[b + 8..];
  }

  /** The switch over one option's kind. */
  method ApplyOption(acc: TcpOptions, o: seq<byte>) returns (r: TcpOptions)
    requires |o| >= 2
    ensures r == Apply(acc, o)
  {
    r := acc;
    if o[0] == MSS {
      if |o| == 4 {
        r := r.(mss := Some(Get16(o, 2)));
      }
    } else if o[0] == SACK_PERMITTED {
      if |o| == 2 {
        r := r.(sackPermitted := true);
      }
    } else if o[0] == WSCALE {
      if |o| == 3 {
        r := r.(wscale := Some(o[2]));
      }
    } else if o[0] == SACK {
      var bs := ReadSackBlocks(o[2..]);
      r := r.(blocks := r.blocks + bs);
    }
  }

  method WalkOptions(o: seq<byte>) returns (r: TcpOptions)
    ensures r == Walk(o, NO_OPTIONS)
  {
    r := NO_OPTIONS;
    var i := 0;
    while i < |o|
      invariant i <= |o| && Walk(o[i..], r) == Walk(o, NO_OPTIONS)
      decreases |o| - i
    {
      var kind := o[i];
      if kind == EOL {
        break;
      }
      if kind == NOP {
        assert o[i..][1..] == o[i + 1..];
        i := i + 1;
        continue;
      }
      if i + 1 >= |o| {
        break;
      }
      var len := o[i + 1];
      if len < 2 || i + len > |o| {
        break;
      }
      assert o[i..][..len] == o[i..i + len] && o[i..][len..] == o[i + len..];
      r := ApplyOption(r, o[i..i + len]);
      i := i + len;
    }
  }

  /** Reads one frame; None for anything that is not a well-formed IPv4 TCP segment. */
  method ParseFrame(f: seq<byte>) returns (r: Option<Seg>)
    ensures r == Parse(f) && (r.Some? <==> Layout.HoldsTcp(f))
    ensures r.Some? ==> var b := 4 + Layout.HeaderLen(f);
                        Layout.ReadFrom(r.value, f, b, Layout.OffsetLen(f, b), 4 + Layout.Num16(f, 6))
  {
    Layout.ParsesExactly(f);
    if Layout.HoldsTcp(f) {
      Layout.ParsedIs(f);
    }
    if |f| < 4 || Get32(f, 0) != 2 || |f| < 4 + IP_LEN {
      return None;
    }
    if f[4] / 16 != 4 {
      return None;
    }
    var ihl := f[4] % 16 * 4;
    if ihl < IP_LEN || f[13] != PROTO_TCP {
      return None;
    }
    var total := Get16(f, 6);
    if total > |f| - 4 || ihl + TCP_LEN > total {
      return None;
    }
    r := ParseTcp(f[4 + ihl..4 + total]);
  }

  method ParseTcp(t: seq<byte>) returns (r: Option<Seg>)
    requires |t| >= TCP_LEN
    ensures r == SegOf(t)
  {
    var doff := t[12] / 16 * 4;
    if doff < TCP_LEN || doff > |t| {
      return None;
    }
    var opt := WalkOptions(t[TCP_LEN..doff]);
    r := Some(Seg(Get16(t, 0), Get16(t, 2), Get32(t, 4), Get32(t, 8), t[13], Get16(t, 14), opt, t[doff..]));
  }
}
