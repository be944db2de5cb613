/** The length-prefixed framing of tcp_server/src/protocol.cpp over a byte stream that the kernel may
    cut anywhere. Requests and responses have the same layout: `tag` is the request type or the
    response status. */
module Framing {
  import opened Bits
  import opened Options

  const MAX_PAYLOAD: nat := 65535

  datatype Message = Message(id: nat, tag: byte, payload: seq<byte>)

  /** What a C++ value of the struct can hold. */
  predicate Representable(m: Message) {
    m.id < U32
  }

  predicate Fits(m: Message) {
    Representable(m) && |m.payload| <= MAX_PAYLOAD
  }

  /** Network byte order. */
  function WordBytes(x: nat): seq<byte>
    requires x < U32
  {
    [x / 0x100_0000, x / 0x1_0000 % 256, x / 256 % 256, x % 256]
  }

  function Word(s: seq<byte>): (x: nat)
    requires |s| == 4
    ensures x < U32
  {
    var a: nat := s[0];
    var b: nat := s[1];
    var c: nat := s[2];
    var d: nat := s[3];
    0x100_0000 * a + 0x1_0000 * b + 256 * c + d
  }

  lemma WordRoundTrip(x: nat)
    requires x < U32
    ensures Word(WordBytes(x)) == x
  {
    assert x / 0x1_0000 == (x / 256) / 256 && x / 0x100_0000 == (x / 0x1_0000) / 256;
  }

  lemma WordBytesRoundTrip(s: seq<byte>)
    requires |s| == 4
    ensures WordBytes(Word(s)) == s
  {
    var a: nat := s[0];
    var b: nat := 256 * a + s[1];
    var c: nat := 256 * b + s[2];
    var x: nat := 256 * c + s[3];
    assert x == Word(s);
    assert x / 256 == c && c / 256 == b && b / 256 == a;
    assert x / 0x1_0000 == b && x / 0x100_0000 == a;
  }

  function Header(m: Message): seq<byte>
    requires Fits(m)
  {
    WordBytes(5 + |m.payload|) + WordBytes(m.id) + [m.tag]
  }

  function Encode(m: Message): seq<byte>
    requires Fits(m)
  {
    Header(m) + m.payload
  }

  /** Done with the bytes left over; Rejected after the length word; or Short, for a stream that ends
      inside a frame. */
  datatype Decoded = Done(message: Message, rest: seq<byte>) | Rejected | Short

  predicate Acceptable(length: nat) {
    5 <= length && length - 5 <= MAX_PAYLOAD
  }

  function Decode(s: seq<byte>): Decoded {
    if |s| < 4 then Short
    else
      var length := Word(s[..4]);
      if !Acceptable(length) then Rejected
      else if |s| < 4 + length then Short
      else Done(Message(Word(s[4..8]), s[8], s[9..4 + length]), s[4 + length..])
  }

  /** Decoding inverts encoding, whatever follows. */
  lemma RoundTrip(m: Message, rest: seq<byte>)
    requires Fits(m)
    ensures Decode(Encode(m) + rest) == Done(m, rest)
  {
    hide Word;
    hide WordBytes;
    var s := Encode(m) + rest;
    var n := 5 + |m.payload|;
    WordLength(n);
    WordLength(m.id);
    WordRoundTrip(n);
    WordRoundTrip(m.id);
    assert s[..4] == WordBytes(n);
    assert s[4..8] == WordBytes(m.id);
    assert s[8] == m.tag;
    assert s[9..4 + n] == m.payload;
    assert s[4 + n..] == rest;
  }

  lemma WordLength(x: nat)
    requires x < U32
    ensures |WordBytes(x)| == 4
  {
  }

  /** Four bytes, the most significant first. */
  predicate Spells(s: seq<byte>, x: nat) {
    |s| == 4 && x == s[3] as int + 256 * (s[2] as int + 256 * (s[1] as int + 256 * (s[0] as int)))
  }

  lemma WordSpells(s: seq<byte>)
    requires |s| == 4
    ensures forall x: nat :: Spells(s, x) <==> x == Word(s)
  {
  }

  /** The bytes on the wire: the length of what follows and the id, each in four bytes with the most
      significant first, the tag, and the payload, of at most 65535 bytes. */
  lemma WireFormat(m: Message)
    ensures Fits(m) <==> m.id < 0x1_0000_0000 && |m.payload| <= 65535
    ensures Fits(m) ==>
              var e := Encode(m);
              && |e| == 9 + |m.payload|
              && Spells(e[..4], 5 + |m.payload|)
              && Spells(e[4..8], m.id)
              && e[8] == m.tag && e[9..] == m.payload
  {
    if Fits(m) {
      hide Word;
      hide WordBytes;
      hide Spells;
      var n, e := 5 + |m.payload|, Encode(m);
      WordLength(n);
      WordLength(m.id);
      WordRoundTrip(n);
      WordRoundTrip(m.id);
      WordSpells(WordBytes(n));
      WordSpells(WordBytes(m.id));
      assert e[..4] == WordBytes(n) && e[4..8] == WordBytes(m.id) && e[9..] == m.payload;
    }
  }

  /** Which streams are refused: with at least a length word, those whose length does not cover the id
      and the tag, or covers more than 65535 bytes besides; others wait for all their bytes. */
  lemma WireRefused(s: seq<byte>)
    ensures |s| < 4 ==> Decode(s) == Short
    ensures |s| >= 4 ==>
              && (Decode(s) == Rejected <==> exists n: nat :: Spells(s[..4], n) && (n < 5 || n > 65540))
              && (Decode(s) == Short <==> exists n: nat :: Spells(s[..4], n) && 5 <= n <= 65540 && |s| < 4 + n)
  {
    hide Word;
    hide Spells;
    if |s| >= 4 {
      WordSpells(s[..4]);
      assert Spells(s[..4], Word(s[..4]));
    }
  }

  /** Conversely, a successful decode consumed exactly the encoding of its result. */
  lemma DecodeIsExact(s: seq<byte>)
    requires Decode(s).Done?
    ensures Fits(Decode(s).message) && s == Encode(Decode(s).message) + Decode(s).rest
  {
    var d := Decode(s);
    WordBytesRoundTrip(s[..4]);
    WordBytesRoundTrip(s[4..8]);
    hide Word;
    hide WordBytes;
    var n := Word(s[..4]);
    assert s == s[..4] + s[4..8] + [s[8]] + s[9..4 + n] + s[4 + n..];
  }

  // ---- lists of messages ----------------------------------------------------------------------

  function EncodeAll(ms: seq<Message>): seq<byte>
    requires forall i :: 0 <= i < |ms| ==> Fits(ms[i])
  {
    if ms == [] then [] else Encode(ms[0]) + EncodeAll(ms[1..])
  }

  /** Decode frames until one is rejected or short. */
  function DecodeAll(s: seq<byte>): (seq<Message>, seq<byte>)
    decreases |s|
  {
    match Decode(s)
    case Done(m, rest) =>
      var (ms, left) := DecodeAll(rest);
      ([m] + ms, left)
    case _ => ([], s)
  }

  lemma NothingLeft()
    ensures Decode([]) == Short
  {
  }

  lemma Shorter(s: seq<byte>)
    ensures Decode(s).Done? ==> |Decode(s).rest| < |s|
  {
  }

  /** A stream of whole frames decodes to the same messages, with nothing left. */
  lemma {:induction false} ListRoundTrip(ms: seq<Message>)
    requires forall i :: 0 <= i < |ms| ==> Fits(ms[i])
    ensures DecodeAll(EncodeAll(ms)) == (ms, [])
  {
    hide Encode;
    hide Decode;
    if ms == [] {
      NothingLeft();
    } else {
      ListRoundTrip(ms[1..]);
      RoundTrip(ms[0], EncodeAll(ms[1..]));
      Shorter(EncodeAll(ms));
      assert [ms[0]] + ms[1..] == ms;
    }
  }

  /** Whatever the stream, what was decoded and what is left make it up exactly. */
  lemma {:induction false} ListIsExact(s: seq<byte>)
    ensures var (ms, left) := DecodeAll(s);
            && (forall i :: 0 <= i < |ms| ==> Fits(ms[i]))
            && s == EncodeAll(ms) + left && !Decode(left).Done?
    decreases |s|
  {
    var d := Decode(s);
    if d.Done? {
      DecodeIsExact(s);
      ListIsExact(d.rest);
      var (ms, left) := DecodeAll(d.rest);
      assert ([d.message] + ms)[1..] == ms;
      assert Encode(d.message) + (EncodeAll(ms) + left) == (Encode(d.message) + EncodeAll(ms)) + left;
    }
  }

  // ---- the socket -----------------------------------------------------------------------------

  /** One direction of a connection. `kernel` decides how many bytes each call moves: a positive
      answer is cut to what was asked for and what there is, the rest are errors. `incoming` is all
      that the peer will ever send; reading past it is the end of the stream. */
  class Socket {
    const kernel: nat -> int
    var calls: nat
    var sent: seq<byte>
    var incoming: seq<byte>

    constructor (kernel: nat -> int, incoming: seq<byte>)
      ensures this.kernel == kernel && this.incoming == incoming && sent == [] && calls == 0
    {
      this.kernel, this.incoming, sent, calls := kernel, incoming, [], 0;
    }

    method Send(buf: seq<byte>) returns (r: int)
      modifies this`sent, this`calls
      ensures r <= |buf|
      ensures sent == old(sent) + (if r > 0 then buf[..r] else [])
      ensures buf != [] && kernel(old(calls)) > 0 ==> r > 0
    {
      r := kernel(calls);
      calls := calls + 1;
      if r > |buf| {
        r := |buf|;
      }
      if r > 0 {
        sent := sent + buf[..r];
      }
    }

    method Recv(n: nat) returns (r: int, data: seq<byte>)
      modifies this`incoming, this`calls
      ensures r <= n && r <= |old(incoming)| && data == (if r > 0 then old(incoming)[..r] else [])
      ensures incoming == (if r > 0 then old(incoming)[r..] else old(incoming))
      ensures n > 0 && old(incoming) != [] && kernel(old(calls)) > 0 ==> r > 0
    {
      r := kernel(calls);
      calls := calls + 1;
      if r > n {
        r := n;
      }
      if r > |incoming| {
        r := |incoming|;
      }
      data := [];
      if r > 0 {
        data := incoming[..r];
        incoming := incoming[r..];
      }
    }
  }

  /** The kernel always makes progress. */
  ghost predicate Progress(kernel: nat -> int) {
    forall i: nat :: kernel(i) > 0
  }

  /** All of `buf`, or on failure a proper prefix of it, reaches the wire. */
  method SendExact(socket: Socket, buf: seq<byte>) returns (ok: bool, ghost n: nat)
    modifies socket`sent, socket`calls
    ensures n <= |buf| && (ok <==> n == |buf|)
    ensures socket.sent == old(socket.sent) + buf[..n]
    ensures Progress(socket.kernel) ==> ok
  {
    var done := 0;
    while done < |buf|
      invariant done <= |buf| && socket.sent == old(socket.sent) + buf[..done]
    {
      var r := socket.Send(buf[done..]);
      if r <= 0 {
        return false, done;
      }
      assert buf[..done] + buf[done..][..r] == buf[..done + r];
      done := done + r;
    }
    return true, done;
  }

  /** Exactly the next `n` bytes; fails, on a progressing kernel, only when the stream is too short. */
  method RecvExact(socket: Socket, n: nat) returns (ok: bool, data: seq<byte>)
    modifies socket`incoming, socket`calls
    ensures data + socket.incoming == old(socket.incoming)
    ensures |data| <= n && (ok <==> |data| == n)
    ensures Progress(socket.kernel) ==> (ok <==> |old(socket.incoming)| >= n)
  {
    data := [];
    while |data| < n
      invariant |data| <= n && data + socket.incoming == old(socket.incoming)
      decreases n - |data|
    {
      var r, more := socket.Recv(n - |data|);
      if r <= 0 {
        return false, data;
      }
      data := data + more;
    }
    ok := true;
  }

  /** `send_request` and `send_response`: an oversized payload is refused before anything is sent;
      otherwise the wire gets the encoding, or a proper prefix of it on failure. */
  method SendMessage(socket: Socket, m: Message) returns (ok: bool, ghost n: nat)
    requires Representable(m)
    modifies socket`sent, socket`calls
    ensures |m.payload| > 65535 ==> !ok && socket.sent == old(socket.sent)
    ensures |m.payload| <= 65535 ==> Fits(m)
    ensures Fits(m) ==> n <= |Encode(m)| && socket.sent == old(socket.sent) + Encode(m)[..n]
    ensures Fits(m) ==> (ok <==> n == |Encode(m)|)
    ensures Fits(m) && Progress(socket.kernel) ==> ok
  {
    hide WordBytes;
    if |m.payload| > MAX_PAYLOAD {
      return false, 0;
    }
    var length := WordBytes(5 + |m.payload|);
    var id := WordBytes(m.id);
    WordLength(5 + |m.payload|);
    WordLength(m.id);
    ghost var start := socket.sent;
    assert Encode(m) == [] + length + (id + [m.tag] + m.payload);
    ok, n := SendPiece(socket, length, [], id + [m.tag] + m.payload, start);
    if !ok {
      return;
    }
    assert Encode(m) == length + id + ([m.tag] + m.payload);
    ok, n := SendPiece(socket, id, length, [m.tag] + m.payload, start);
    if !ok {
      return;
    }
    assert Encode(m) == length + id + [m.tag] + m.payload;
    ok, n := SendPiece(socket, [m.tag], length + id, m.payload, start);
    if !ok {
      return;
    }
    assert Encode(m) == length + id + [m.tag] + m.payload + [];
    if m.payload != [] {
      ok, n := SendPiece(socket, m.payload, length + id + [m.tag], [], start);
    }
  }

  /** One field of a frame, when the fields before it have been sent. */
  method SendPiece(socket: Socket, piece: seq<byte>, ghost before: seq<byte>, ghost after: seq<byte>,
                   ghost start: seq<byte>)
    returns (ok: bool, ghost n: nat)
    requires piece != [] && socket.sent == start + before
    modifies socket`sent, socket`calls
    ensures n <= |before| + |piece| && socket.sent == start + (before + piece + after)[..n]
    ensures if ok then n == |before| + |piece| && socket.sent == start + (before + piece) else n < |before| + |piece|
    ensures Progress(socket.kernel) ==> ok
  {
    ghost var k;
    ok, k := SendExact(socket, piece);
    n := |before| + k;
    assert (before + piece + after)[..n] == before + piece[..k];
  }

  /** `recv_request` and `recv_response`: what is returned is what Decode says, whatever way the
      stream is cut; and a message is returned only for exactly the bytes of its encoding. */
  method RecvMessage(socket: Socket) returns (r: Option<Message>)
    modifies socket`incoming, socket`calls
    ensures r.Some? ==> Fits(r.value) && old(socket.incoming) == Encode(r.value) + socket.incoming
    ensures r.Some? ==> Decode(old(socket.incoming)) == Done(r.value, socket.incoming)
    ensures Progress(socket.kernel) ==> (r.Some? <==> Decode(old(socket.incoming)).Done?)
  {
    hide Word;
    hide WordBytes;
    ghost var stream := socket.incoming;
    var ok, lengthBytes := RecvExact(socket, 4);
    if !ok {
      return None;
    }
    assert stream[..4] == lengthBytes;
    var length := Word(lengthBytes);
    if length < 5 || length - 5 > MAX_PAYLOAD {
      return None;
    }
    var idBytes, tagByte, payload;
    ok, idBytes := RecvExact(socket, 4);
    if !ok {
      return None;
    }
    ok, tagByte := RecvExact(socket, 1);
    if !ok {
      return None;
    }
    payload := [];
    if length > 5 {
      ok, payload := RecvExact(socket, length - 5);
      if !ok {
        return None;
      }
    }
    assert stream == lengthBytes + idBytes + tagByte + payload + socket.incoming;
    assert stream[4..8] == idBytes && stream[8] == tagByte[0] && stream[9..4 + length] == payload;
    assert stream[4 + length..] == socket.incoming;
    r := Some(Message(Word(idBytes), tagByte[0], payload));
    DecodeIsExact(stream);
  }

  lemma {:induction false} EncodeAllAppend(ms: seq<Message>, m: Message)
    requires (forall i :: 0 <= i < |ms| ==> Fits(ms[i])) && Fits(m)
    ensures EncodeAll(ms + [m]) == EncodeAll(ms) + Encode(m)
  {
    hide Encode;
    if ms == [] {
      assert ms + [m] == [m] && EncodeAll([m]) == Encode(m) + EncodeAll([]);
    } else {
      EncodeAllAppend(ms[1..], m);
      assert (ms + [m])[1..] == ms[1..] + [m];
      assert Encode(ms[0]) + (EncodeAll(ms[1..]) + Encode(m)) == (Encode(ms[0]) + EncodeAll(ms[1..])) + Encode(m);
    }
  }

  /** End to end: any messages that fit, sent over one kernel's fragmentation and received over
      another's, arrive as the same list, and the stream is used up exactly. */
  method Exchange(ms: seq<Message>, sender: nat -> int, receiver: nat -> int) returns (got: seq<Message>)
    requires forall i :: 0 <= i < |ms| ==> Fits(ms[i])
    requires Progress(sender) && Progress(receiver)
    ensures got == ms
  {
    hide Encode;
    hide Decode;
    var out := new Socket(sender, []);
    for i := 0 to |ms|
      invariant fresh(out) && out.kernel == sender && out.sent == EncodeAll(ms[..i])
    {
      var ok, n := SendMessage(out, ms[i]);
      assert Encode(ms[i])[..n] == Encode(ms[i]);
      EncodeAllAppend(ms[..i], ms[i]);
      assert ms[..i] + [ms[i]] == ms[..i + 1];
    }
    assert ms[..|ms|] == ms;
    var inn := new Socket(receiver, out.sent);
    got := [];
    for i := 0 to |ms|
      invariant fresh(inn) && inn.kernel == receiver
      invariant got == ms[..i] && inn.incoming == EncodeAll(ms[i..])
    {
      RoundTrip(ms[i], EncodeAll(ms[i + 1..]));
      assert ms[i..][1..] == ms[i + 1..];
      var r := RecvMessage(inn);
      got := got + [r.value];
      assert ms[..i] + [ms[i]] == ms[..i + 1];
    }
    assert inn.incoming == [];
  }
}
