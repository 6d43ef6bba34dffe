/** The modified UTF-8 transport of the wire protocol (tcp.c): every byte is sent as one or two bytes,
    zero as two (section 4.4.7 of the Java Virtual Machine Specification), and decoded again whatever
    pieces the network delivers. */
module TcpUtf8 {
  import opened Bytes

  const BUFSIZE := 4096

  // --- the code ----------------------------------------------------------------------------------------

  function EncodeChar(c: byte): (e: seq<byte>)
    ensures 1 <= |e| <= 2
  {
    if c == 0 then [0xC0, 0x80]
    else if c <= 0x7F then [c]
    else [0xC0 + c / 64, 0x80 + c % 64]
  }

  function Encode(s: seq<byte>): seq<byte> {
    if s == [] then [] else EncodeChar(s[0]) + Encode(s[1..])
  }

  /** Number of bytes of the character that starts with byte c. */
  function Width(c: byte): (n: nat)
    ensures 1 <= n <= 3
  {
    if c < 0x80 then 1 else if c < 0xE0 then 2 else 3
  }

  /** The low eight bits of an encoded character. */
  function DecodeChar(e: seq<byte>): byte
    requires e != [] && |e| == Width(e[0])
  {
    if |e| == 1 then e[0]
    else if |e| == 2 then ((e[0] as int - 0xC0) * 64 + e[1] as int - 0x80) % 256
    else ((e[0] as int - 0xE0) * 4096 + (e[1] as int - 0x80) * 64 + e[2] as int - 0x80) % 256
  }

  /** The bytes are whole characters. */
  predicate Whole(s: seq<byte>)
    decreases |s|
  {
    s == [] || (Width(s[0]) <= |s| && Whole(s[Width(s[0])..]))
  }

  function Decode(s: seq<byte>): seq<byte>
    requires Whole(s)
    decreases |s|
  {
    if s == [] then [] else [DecodeChar(s[..Width(s[0])])] + Decode(s[Width(s[0])..])
  }

  lemma CharBack(c: byte)
    ensures Width(EncodeChar(c)[0]) == |EncodeChar(c)| && DecodeChar(EncodeChar(c)) == c
  {
  }

  lemma WholeSplit(e: seq<byte>, s: seq<byte>)
    requires e != [] && |e| == Width(e[0])
    ensures Whole(e + s) <==> Whole(s)
    ensures Whole(s) ==> Decode(e + s) == [DecodeChar(e)] + Decode(s)
  {
    assert (e + s)[..|e|] == e && (e + s)[|e|..] == s;
  }

  /** Decoding undoes encoding. */
  lemma {:induction false} RoundTrip(s: seq<byte>)
    ensures Whole(Encode(s)) && Decode(Encode(s)) == s
  {
    if s != [] {
      CharBack(s[0]);
      RoundTrip(s[1..]);
      WholeSplit(EncodeChar(s[0]), Encode(s[1..]));
    }
  }

  lemma {:induction false} EncodeConcat(s: seq<byte>, t: seq<byte>)
    ensures Encode(s + t) == Encode(s) + Encode(t)
  {
    if s == [] {
      assert s + t == t;
    } else {
      assert (s + t)[1..] == s[1..] + t;
      EncodeConcat(s[1..], t);
    }
  }

  /** A text that starts with one character, cut after a nonempty whole part. */
  lemma FirstCut(e: seq<byte>, more: seq<byte>, p: seq<byte>, rest: seq<byte>)
    requires e + more == p + rest && |e| <= |p|
    ensures p == e + p[|e|..] && more == p[|e|..] + rest
  {
    assert p[..|e|] == (p + rest)[..|e|] == e;
    assert more == (e + more)[|e|..] == (p + rest)[|e|..];
  }

  /** Whole characters cut from the front of an encoding are the encoding of a prefix. */
  lemma {:induction false} WholePrefix(s: seq<byte>, p: seq<byte>, rest: seq<byte>) returns (k: nat)
    requires Encode(s) == p + rest && Whole(p)
    ensures k <= |s| && p == Encode(s[..k]) && rest == Encode(s[k..])
    ensures Decode(p) == s[..k]
    decreases |s|
  {
    if p == [] {
      k := 0;
      assert s[0..] == s && p + rest == rest;
    } else {
      assert s != [];
      var e := EncodeChar(s[0]);
      CharBack(s[0]);
      assert (p + rest)[0] == p[0] == e[0];
      FirstCut(e, Encode(s[1..]), p, rest);
      var j := WholePrefix(s[1..], p[|e|..], rest);
      k := j + 1;
      assert s[..k] == [s[0]] + s[1..][..j] && s[k..] == s[1..][j..];
      assert s[..k][1..] == s[1..][..j];
    }
  }

  // --- the network ----------------------------------------------------------------------------------------

  /** A connection: the bytes sent and not yet received. Every piece is of arbitrary size. */
  class Network {
    var wire: seq<byte>

    /** send: some of the bytes are taken, or (0) time runs out, or (-1) the connection fails. */
    method Send(bytes: seq<byte>) returns (n: int)
      requires bytes != []
      modifies this
      ensures -1 <= n <= |bytes|
      ensures wire == old(wire) + if n > 0 then bytes[..n] else []
    {
      n :| -1 <= n <= |bytes|;
      if n > 0 {
        wire := wire + bytes[..n];
      }
    }

    /** recv: between one and `max` bytes, or none if the connection has ended. */
    method Recv(max: nat) returns (bytes: seq<byte>)
      requires max > 0
      modifies this
      ensures |bytes| <= max && old(wire) == bytes + wire
    {
      var n :| 0 <= n <= max && n <= |wire|;
      bytes := wire[..n];
      wire := wire[n..];
    }
  }

  // --- tcpsend ---------------------------------------------------------------------------------------------

  /** Flush the byte buffer: send until everything is taken. False on failure or timeout. */
  method Flush(net: Network, bytebuffer: seq<byte>) returns (status: int)
    modifies net
    ensures status == 1 || status == 0 || status == -1
    ensures status == 1 ==> net.wire == old(net.wire) + bytebuffer
    ensures exists k :: 0 <= k <= |bytebuffer| && net.wire == old(net.wire) + bytebuffer[..k]
  {
    var cnt := 0;
    assert net.wire == old(net.wire) + bytebuffer[..0];
    while cnt < |bytebuffer|
      invariant 0 <= cnt <= |bytebuffer| && net.wire == old(net.wire) + bytebuffer[..cnt]
    {
      var i1 := net.Send(bytebuffer[cnt..]);
      if i1 <= 0 {
        return i1;
      }
      assert bytebuffer[..cnt] + bytebuffer[cnt..][..i1] == bytebuffer[..cnt + i1];
      cnt := cnt + i1;
    }
    assert bytebuffer[..cnt] == bytebuffer;
    return 1;
  }

  /** Flush a buffer that continues what has been sent of `whole`. */
  method FlushNext(net: Network, bytebuffer: seq<byte>, ghost was: seq<byte>, ghost sent: seq<byte>, ghost whole: seq<byte>)
    returns (status: int)
    requires net.wire == was + sent && sent + bytebuffer <= whole
    modifies net
    ensures status == 1 || status == 0 || status == -1
    ensures status == 1 ==> net.wire == was + (sent + bytebuffer)
    ensures exists p :: p <= whole && net.wire == was + p
  {
    status := Flush(net, bytebuffer);
    ghost var k :| 0 <= k <= |bytebuffer| && net.wire == (was + sent) + bytebuffer[..k];
    assert net.wire == was + (sent + bytebuffer[..k]);
    assert sent + bytebuffer[..k] == (sent + bytebuffer)[..|sent| + k] == whole[..|sent| + k];
  }

  /** tcpsend: the number of characters sent, all of them, or else 0 or -1; in every case what went out
      is a prefix of the encoding. */
  method TcpSend(net: Network, buffer: seq<byte>) returns (count: int)
    modifies net
    ensures count == |buffer| || count == 0 || count == -1
    ensures count == |buffer| ==> net.wire == old(net.wire) + Encode(buffer)
    ensures exists p :: p <= Encode(buffer) && net.wire == old(net.wire) + p
  {
    hide Encode, EncodeChar;
    EncodeNone();
    ghost var was := net.wire;
    assert was == was + [];
    if buffer == [] {
      return 0;
    }
    var bytebuffer: seq<byte>, bufcnt := [], 0;
    ghost var sent: seq<byte> := [];
    assert buffer[..0] == [];
    while true
      invariant 0 <= bufcnt <= |buffer| && net.wire == was + sent
      invariant sent + bytebuffer == Encode(buffer[..bufcnt])
      decreases |buffer| - bufcnt
    {
      Prefixes(buffer, bufcnt);
      if |bytebuffer| > BUFSIZE - 3 || bufcnt == |buffer| {
        var status := FlushNext(net, bytebuffer, was, sent, Encode(buffer));
        if status != 1 {
          return status;
        }
        sent := sent + bytebuffer;
        if bufcnt == |buffer| {
          assert buffer[..bufcnt] == buffer;
          return bufcnt;
        }
        bytebuffer := [];
        assert sent + bytebuffer == sent;
      }
      EncodeMore(buffer, bufcnt);
      assert sent + (bytebuffer + EncodeChar(buffer[bufcnt])) == (sent + bytebuffer) + EncodeChar(buffer[bufcnt]);
      bytebuffer := bytebuffer + EncodeChar(buffer[bufcnt]);
      bufcnt := bufcnt + 1;
    }
  }

  lemma EncodeNone()
    ensures Encode([]) == []
  {
  }

  lemma EncodeMore(s: seq<byte>, n: nat)
    requires n < |s|
    ensures Encode(s[..n + 1]) == Encode(s[..n]) + EncodeChar(s[n])
  {
    assert s[..n + 1] == s[..n] + [s[n]];
    EncodeConcat(s[..n], [s[n]]);
    assert Encode([s[n]]) == EncodeChar(s[n]) + Encode([]);
  }

  lemma Prefixes(s: seq<byte>, n: nat)
    requires n <= |s|
    ensures Encode(s[..n]) <= Encode(s)
  {
    EncodeConcat(s[..n], s[n..]);
    assert s == s[..n] + s[n..];
  }

  // --- tcprecv ---------------------------------------------------------------------------------------------

  /** What tcprecv has accumulated after the first bytes t of a character. */
  function Partial(t: seq<byte>): byte
    requires t != [] && |t| <= Width(t[0])
  {
    if |t| == Width(t[0]) then DecodeChar(t)
    else if Width(t[0]) == 2 then ((t[0] as int - 0xC0) * 64) % 256
    else if |t| == 1 then ((t[0] as int - 0xE0) * 4096) % 256
    else ((t[0] as int - 0xE0) * 4096 + (t[1] as int - 0x80) * 64) % 256
  }

  /** Eight-bit accumulation is accumulation of the low eight bits. */
  lemma ModAdd(x: int, y: int)
    ensures (x % 256 + y) % 256 == (x + y) % 256
  {
    assert x == 256 * (x / 256) + x % 256;
  }

  lemma PartialStep(t: seq<byte>, b: byte)
    requires t != [] && |t| < Width(t[0])
    ensures |t| + 1 == Width(t[0]) ==> (Partial(t) + b as int - 0x80) % 256 == Partial(t + [b])
    ensures |t| + 1 < Width(t[0]) ==> (Partial(t) + (b as int - 0x80) * 64) % 256 == Partial(t + [b])
  {
    var lead := t[0] as int;
    ModAdd((lead - 0xC0) * 64, b as int - 0x80);
    if Width(t[0]) == 3 {
      if |t| == 1 {
        ModAdd((lead - 0xE0) * 4096, (b as int - 0x80) * 64);
      } else {
        ModAdd((lead - 0xE0) * 4096 + (t[1] as int - 0x80) * 64, b as int - 0x80);
      }
    }
  }

  lemma {:induction false} WholeMore(p: seq<byte>, e: seq<byte>)
    requires Whole(p) && e != [] && |e| == Width(e[0])
    ensures Whole(p + e) && Decode(p + e) == Decode(p) + [DecodeChar(e)]
    decreases |p|
  {
    if p == [] {
      assert p + e == e && e[|e|..] == [] && e[..|e|] == e;
    } else {
      var w := Width(p[0]);
      WholeMore(p[w..], e);
      assert p + e == p[..w] + (p[w..] + e);
      WholeSplit(p[..w], p[w..] + e);
    }
  }

  lemma {:induction false} DecodeShorter(p: seq<byte>)
    requires Whole(p)
    ensures |Decode(p)| <= |p|
    decreases |p|
  {
    if p != [] {
      DecodeShorter(p[Width(p[0])..]);
    }
  }

  lemma DecodeNone()
    ensures Whole([]) && Decode([]) == []
  {
  }

  /** Accumulate the bytes at hand of one character, in eight bits. */
  method Accumulate(t: seq<byte>) returns (c1: byte)
    requires t != [] && |t| <= Width(t[0])
    ensures c1 == Partial(t)
  {
    c1 := t[0];
    if c1 >= 0x80 {
      assert t[..1] == [t[0]];
      if c1 < 0xE0 {
        c1 := ((c1 as int - 0xC0) * 64) % 256;
        if |t| == 1 {
          return;
        }
        PartialStep([t[0]], t[1]);
        assert t == [t[0]] + [t[1]];
        hide Partial;
        c1 := (c1 as int + t[1] as int - 0x80) % 256;
      } else {
        c1 := ((c1 as int - 0xE0) * 4096) % 256;
        if |t| == 1 {
          return;
        }
        PartialStep([t[0]], t[1]);
        hide Partial;
        c1 := (c1 as int + (t[1] as int - 0x80) * 64) % 256;
        if |t| == 2 {
          assert t == [t[0]] + [t[1]];
          return;
        }
        PartialStep([t[0]] + [t[1]], t[2]);
        assert t == [t[0]] + [t[1]] + [t[2]];
        c1 := (c1 as int + t[2] as int - 0x80) % 256;
      }
    }
  }

  /** The decoding loop over one received piece: whole characters, and the accumulated start of a
      character that is cut off, with the number of bytes it still needs. */
  method DecodePiece(bytes: seq<byte>) returns (out: seq<byte>, c1: byte, need: nat, ghost tail: seq<byte>)
    ensures |tail| <= |bytes| && bytes == bytes[..|bytes| - |tail|] + tail
    ensures Whole(bytes[..|bytes| - |tail|]) && out == Decode(bytes[..|bytes| - |tail|])
    ensures need == 0 <==> tail == []
    ensures need > 0 ==> |tail| + need == Width(tail[0]) && c1 == Partial(tail)
  {
    hide Whole, Decode, Partial, DecodeChar;
    out, c1, need, tail := [], 0, 0, [];
    DecodeNone();
    var i1 := 0;
    while i1 < |bytes|
      invariant 0 <= i1 <= |bytes| && need == 0 && tail == []
      invariant Whole(bytes[..i1]) && out == Decode(bytes[..i1])
    {
      var lead := bytes[i1];
      var w := Width(lead);
      if i1 + w > |bytes| {
        tail := bytes[i1..];
        need := i1 + w - |bytes|;
        c1 := Accumulate(bytes[i1..]);
        return;
      }
      var e := bytes[i1..i1 + w];
      c1 := Accumulate(e);
      PartialDone(e);
      WholeMore(bytes[..i1], e);
      assert bytes[..i1] + e == bytes[..i1 + w];
      out := out + [c1];
      i1 := i1 + w;
    }
    assert bytes[..|bytes|] == bytes;
  }

  /** Receive the rest of a character that was cut off, byte by byte if need be. */
  method Complete(net: Network, c0: byte, need0: nat, ghost tail: seq<byte>)
    returns (ok: bool, c1: byte, ghost e: seq<byte>)
    requires 0 < need0 && tail != [] && |tail| + need0 == Width(tail[0]) && c0 == Partial(tail)
    modifies net
    ensures ok ==> tail <= e && |e| == Width(e[0]) && c1 == DecodeChar(e)
    ensures ok ==> old(tail + net.wire) == e + net.wire
    ensures |net.wire| <= |old(net.wire)|
  {
    hide Partial, DecodeChar;
    c1, e := c0, tail;
    var bytecnt := need0;
    while true
      invariant 0 < bytecnt && tail <= e && |e| + bytecnt == Width(e[0]) && c1 == Partial(e)
      invariant old(tail + net.wire) == e + net.wire && |net.wire| <= |old(net.wire)|
      decreases bytecnt
    {
      var bytebuffer := net.Recv(bytecnt);
      if bytebuffer == [] {
        return false, c1, e;
      }
      PartialStep(e, bytebuffer[0]);
      if bytecnt == 1 {
        c1 := (c1 as int + bytebuffer[0] as int - 0x80) % 256;
      } else {
        c1 := (c1 as int + (bytebuffer[0] as int - 0x80) * 64) % 256;
        if |bytebuffer| == 1 {
          e := e + [bytebuffer[0]];
          bytecnt := 1;
          continue;
        }
        PartialStep(e + [bytebuffer[0]], bytebuffer[1]);
        c1 := (c1 as int + bytebuffer[1] as int - 0x80) % 256;
      }
      assert bytebuffer == if bytecnt == 1 then [bytebuffer[0]] else [bytebuffer[0]] + [bytebuffer[1]];
      assert e + ([bytebuffer[0]] + bytebuffer[1..]) == (e + [bytebuffer[0]]) + bytebuffer[1..];
      e := e + bytebuffer;
      PartialDone(e);
      return true, c1, e;
    }
  }

  lemma PartialDone(t: seq<byte>)
    requires t != [] && |t| == Width(t[0])
    ensures Partial(t) == DecodeChar(t)
  {
  }

  /** tcprecv with decoding: whatever pieces arrive, a successful call has used up whole characters and
      returns them, at least one and at most `length`. */
  method TcpRecv(net: Network, length: int) returns (code: int, out: seq<byte>)
    modifies net
    ensures length <= 0 ==> code == 0
    ensures length > 0 ==> code == -1 || 0 < code <= length
    ensures code > 0 ==> code == |out|
    ensures code > 0 ==> exists p :: old(net.wire) == p + net.wire && Whole(p) && out == Decode(p)
    ensures |net.wire| <= |old(net.wire)|
  {
    hide Whole, Decode, Partial, DecodeChar, Width;
    if length <= 0 {
      return 0, [];
    }
    ghost var was := net.wire;
    var bytecnt := if BUFSIZE > length then length else BUFSIZE;
    var bytes := net.Recv(bytecnt);
    if bytes == [] {
      return -1, [];
    }
    var c1, need;
    ghost var tail;
    out, c1, need, tail := DecodePiece(bytes);
    ghost var p := bytes[..|bytes| - |tail|];
    DecodeShorter(p);
    if need > 0 {
      var ok;
      ghost var e, mid := [], net.wire;
      assert was == p + (tail + mid);
      ok, c1, e := Complete(net, c1, need, tail);
      if !ok {
        return -1, [];
      }
      assert was == p + (e + net.wire);
      WholeMore(p, e);
      out := out + [c1];
      p := p + e;
    } else {
      assert p == bytes;
    }
    assert was == p + net.wire;
    DecodeSome(p);
    return |out|, out;
  }

  lemma DecodeSome(p: seq<byte>)
    requires Whole(p)
    ensures p != [] ==> Decode(p) != []
  {
  }

  // --- transport -------------------------------------------------------------------------------------------

  function Flatten(msgs: seq<seq<byte>>): seq<byte> {
    if msgs == [] then [] else msgs[0] + Flatten(msgs[1..])
  }

  /** Send messages one after the other, as long as sending succeeds. */
  method SendAll(net: Network, msgs: seq<seq<byte>>) returns (ok: bool)
    modifies net
    ensures ok ==> net.wire == old(net.wire) + Encode(Flatten(msgs))
  {
    hide Encode;
    var k := 0;
    EncodeNone();
    assert msgs[0..] == msgs && net.wire + [] == net.wire;
    ghost var done: seq<byte> := [];
    assert done + Flatten(msgs) == Flatten(msgs);
    while k < |msgs|
      invariant 0 <= k <= |msgs|
      invariant done + Flatten(msgs[k..]) == Flatten(msgs)
      invariant net.wire == old(net.wire) + Encode(done)
    {
      var n := TcpSend(net, msgs[k]);
      if n != |msgs[k]| {
        return false;
      }
      EncodeConcat(done, msgs[k]);
      assert msgs[k..][1..] == msgs[k + 1..];
      assert done + (msgs[k] + Flatten(msgs[k + 1..])) == (done + msgs[k]) + Flatten(msgs[k + 1..]);
      assert old(net.wire) + Encode(done) + Encode(msgs[k]) == old(net.wire) + (Encode(done) + Encode(msgs[k]));
      done := done + msgs[k];
      k := k + 1;
    }
    assert msgs[k..] == [] && done + [] == done;
    ok := true;
  }

  /** UTF-8 TRANSPORT: receiving, with any lengths and in any pieces, returns what was sent, or a prefix of it. `late` is the part
      of the encoding that has not arrived, and may cut a character. Every successful call ends on a character boundary; when all
      that has arrived is used up, it is the encoding of what was returned, which is everything unless something is late. */
  method ReceiveAll(net: Network, ghost sent: seq<byte>, ghost late: seq<byte>) returns (got: seq<byte>, ok: bool)
    requires net.wire + late == Encode(sent)
    modifies net
    ensures got <= sent
    ensures ok ==> net.wire == [] && old(net.wire) == Encode(got) && late == Encode(sent[|got|..]) && (late == [] ==> got == sent)
    ensures !ok ==> exists lost :: old(net.wire) == Encode(got) + lost && |net.wire| <= |lost|
  {
    hide Encode, Whole, Decode;
    got := [];
    ghost var was := net.wire;
    EncodeNone();
    assert sent[0..] == sent && [] + was == was;
    while net.wire != []
      invariant got <= sent && net.wire + late == Encode(sent[|got|..]) && was == Encode(got) + net.wire
      decreases |sent| - |got|
    {
      var length :| length > 0;
      ghost var wire := net.wire;
      var code, out := TcpRecv(net, length);
      if code <= 0 {
        return got, false;
      }
      ghost var left := sent[|got|..];
      ghost var p :| wire == p + net.wire && Whole(p) && out == Decode(p);
      assert p + net.wire + late == p + (net.wire + late);
      var k := WholePrefix(left, p, net.wire + late);
      assert got + left[..k] <= sent && left[k..] == sent[|got| + k..];
      EncodeConcat(got, out);
      assert Encode(got) + (p + net.wire) == (Encode(got) + p) + net.wire;
      got := got + out;
    }
    assert net.wire + late == late && Encode(got) + net.wire == Encode(got);
    EncodeSome(sent[|got|..]);
    ok := true;
  }

  lemma EncodeSome(s: seq<byte>)
    ensures Encode(s) == [] <==> s == []
  {
  }
}
