/**
 The socket transport: a four-byte length and a checkpoint go out, a four-byte length and a
 receipt come back, in pieces of any size, before a deadline.
 */
module ForwarderSocket {
  import opened Bytes
  import opened ForwarderWire

  const FRAME_SIZE: nat := 96
  const RESPONSE_SIZE: nat := 104

  /** What a non-blocking socket call reports: bytes moved, "try again", or an error. */
  datatype SocketIo = Bytes(count: nat) | Again | Broken

  /** A connected socket: what has gone out on it and what has been taken in from the peer. */
  class Socket {
    var sent: seq<byte>
    var received: seq<byte>
    /** How many more waits end before the deadline has passed. */
    var patience: nat
    /** Whether no call fails, finds nothing to do, or sees the peer close. */
    const smooth: bool

    constructor (waits: nat, faultless: bool)
      ensures sent == [] && received == [] && patience == waits && smooth == faultless
    {
      sent, received, patience, smooth := [], [], waits, faultless;
    }

    /** Waits for readiness: false when the deadline passed, or the poll failed. */
    method Wait() returns (ready: bool)
      modifies this`patience
      ensures ready ==> patience < old(patience)
      ensures smooth && old(patience) > 0 ==> ready && patience == old(patience) - 1
    {
      if patience == 0 {
        return false;
      }
      patience := patience - 1;
      ready := *;
      ready := ready || smooth;
    }

    method Send(data: seq<byte>) returns (r: SocketIo)
      modifies this`sent
      ensures r.Bytes? ==> r.count <= |data| && sent == old(sent) + data[..r.count]
      ensures !r.Bytes? ==> sent == old(sent)
      ensures smooth && |data| > 0 ==> r.Bytes? && r.count > 0
    {
      var trouble: SocketIo := *;
      if !smooth && !trouble.Bytes? {
        return trouble;
      }
      var n: nat :| 0 <= n <= |data| && (smooth && |data| > 0 ==> n > 0);
      sent := sent + data[..n];
      return Bytes(n);
    }

    /** The peer decides what arrives. */
    method Recv(buffer: array<byte>, at: nat, want: nat) returns (r: SocketIo)
      requires at + want <= buffer.Length
      modifies this`received, buffer
      ensures r.Bytes? ==>
                && r.count <= want
                && received == old(received) + buffer[at..at + r.count]
                && buffer[..at] == old(buffer[..at])
      ensures !r.Bytes? ==> received == old(received) && buffer[..] == old(buffer[..])
      ensures smooth && want > 0 ==> r.Bytes? && r.count > 0
    {
      var trouble: SocketIo := *;
      if !smooth && !trouble.Bytes? {
        return trouble;
      }
      var n: nat :| 0 <= n <= want && (smooth && want > 0 ==> n > 0);
      for i := 0 to n
        invariant buffer[..at] == old(buffer[..at])
        invariant received == old(received) + buffer[at..at + i]
      {
        var b: byte := *;
        ghost var before := buffer[at..at + i];
        buffer[at + i] := b;
        assert buffer[at..at + i + 1] == before + [b];
        received := received + [b];
      }
      return Bytes(n);
    }
  }

  function Frame(body: seq<byte>): seq<byte> {
    ToBE(|body|, 4) + body
  }

  /** Sends all of `frame`, whatever the pieces. */
  method SendAll(socket: Socket, frame: seq<byte>) returns (ok: bool)
    modifies socket`sent, socket`patience
    ensures old(socket.sent) <= socket.sent <= old(socket.sent) + frame
    ensures ok ==> socket.sent == old(socket.sent) + frame
    ensures socket.smooth && old(socket.patience) >= |frame| ==> ok && socket.patience >= old(socket.patience) - |frame|
  {
    var sent := 0;
    while sent < |frame|
      invariant 0 <= sent <= |frame|
      invariant socket.sent == old(socket.sent) + frame[..sent]
      invariant socket.smooth && old(socket.patience) >= |frame| ==> socket.patience >= old(socket.patience) - sent
      decreases socket.patience
    {
      var ready := socket.Wait();
      if !ready {
        return false;
      }
      var r := socket.Send(frame[sent..]);
      match r
      case Bytes(n) =>
        assert frame[..sent] + frame[sent..][..n] == frame[..sent + n];
        if n == 0 {
          return false;
        }
        sent := sent + n;
      case Again =>
      case Broken =>
        return false;
    }
    return true;
  }

  lemma PieceAdded(before: seq<byte>, got: seq<byte>, piece: seq<byte>)
    ensures (before + got) + piece == before + (got + piece)
    ensures before <= before + (got + piece)
    ensures |got| >= 4 ==> (got + piece)[..4] == got[..4]
    ensures |got + piece| >= 4 ==>
              (before + (got + piece))[|before|..|before| + 4] == (got + piece)[..4]
  {
  }

  /** One wait and one receive: nothing arrives, or a piece of what is wanted. */
  method ReceivePiece(socket: Socket, response: array<byte>, at: nat, want: nat) returns (ok: bool, n: nat)
    requires at + want <= response.Length && 0 < want
    modifies socket`received, socket`patience, response
    ensures n <= want && socket.received == old(socket.received) + response[at..at + n]
    ensures response[..at] == old(response[..at])
    ensures ok ==> socket.patience < old(socket.patience)
    ensures socket.smooth && old(socket.patience) > 0 ==> ok && n > 0 && socket.patience == old(socket.patience) - 1
  {
    var ready := socket.Wait();
    if !ready {
      return false, 0;
    }
    ghost var before := response[..];
    var r := socket.Recv(response, at, want);
    match r {
      case Bytes(k) =>
        return k > 0, k;
      case Again =>
        assert response[..at] == before[..at];
        return true, 0;
      case Broken =>
        assert response[..at] == before[..at];
        return false, 0;
    }
  }

  /**
   Receives the length and, when it is that of a receipt, the receipt. The receive call never
   asks for more than the rest of the part being read, so nothing beyond it is taken.
   */
  method ReceiveResponse(socket: Socket, response: array<byte>) returns (ok: bool)
    requires response.Length == RESPONSE_SIZE
    modifies socket`received, socket`patience, response
    ensures ok ==>
              && socket.received == old(socket.received) + response[..]
              && FromBE(response[..4]) == RECEIPT_SIZE
    ensures old(socket.received) <= socket.received
    ensures |socket.received| <= |old(socket.received)| + RESPONSE_SIZE
    ensures socket.smooth && old(socket.patience) >= RESPONSE_SIZE ==>
              var n := |old(socket.received)|;
              |socket.received| >= n + 4 && (ok <==> FromBE(socket.received[n..n + 4]) == RECEIPT_SIZE)
  {
    hide FromBE;
    var received, expected := 0, 4;
    ghost var before := socket.received;
    ghost var got: seq<byte> := [];
    while received < expected
      invariant 0 <= received <= expected <= RESPONSE_SIZE
      invariant got == response[..received] && socket.received == before + got
      invariant expected == if received < 4 then 4 else RESPONSE_SIZE
      invariant received >= 4 ==> FromBE(got[..4]) == RECEIPT_SIZE
      invariant socket.smooth && old(socket.patience) >= RESPONSE_SIZE ==> socket.patience >= old(socket.patience) - received
      decreases socket.patience
    {
      var ok, n := ReceivePiece(socket, response, received, expected - received);
      PieceAdded(before, got, response[received..received + n]);
      assert response[..received + n] == got + response[received..received + n];
      got := got + response[received..received + n];
      if !ok {
        return false;
      }
      var first := received < 4;
      received := received + n;
      if first && received == 4 {
        var length := LoadBE(response, 0, 4);
        assert response[0..4] == got[..4];
        if length != RECEIPT_SIZE {
          return false;
        }
        expected := RESPONSE_SIZE;
      }
    }
    PieceAdded(before, got, []);
    assert got + [] == got == response[..];
    return true;
  }

  /**
   alrios_forwarder_socket_send. On success exactly one frame holding the checkpoint went out
   and exactly one frame holding the returned receipt came in, however the bytes were cut up.
   */
  method SocketSend(socket: Socket, checkpoint: seq<byte>, receiptBuf: array<byte>)
    returns (status: FwdStatus, receiptLen: nat)
    modifies socket, receiptBuf
    ensures |checkpoint| != CHECKPOINT_SIZE || receiptBuf.Length < RECEIPT_SIZE ==>
              status == BadArgument && socket.sent == old(socket.sent) && socket.received == old(socket.received)
    ensures status == Accepted || status == Transport || status == BadArgument
    ensures status == Accepted ==>
              && receiptLen == RECEIPT_SIZE <= receiptBuf.Length
              && socket.sent == old(socket.sent) + Frame(checkpoint)
              && socket.received == old(socket.received) + Frame(receiptBuf[..receiptLen])
    ensures status != Accepted ==> receiptLen == 0 && receiptBuf[..] == old(receiptBuf[..])
    ensures socket.smooth && old(socket.patience) >= FRAME_SIZE + RESPONSE_SIZE && status != BadArgument ==>
              var n := |old(socket.received)|;
              |socket.received| >= n + 4 && (status == Accepted <==> FromBE(socket.received[n..n + 4]) == RECEIPT_SIZE)
    ensures status == BadArgument ==> |checkpoint| != CHECKPOINT_SIZE || receiptBuf.Length < RECEIPT_SIZE
    ensures status == Transport ==>
              && old(socket.sent) <= socket.sent <= old(socket.sent) + Frame(checkpoint)
              && |socket.received| <= |old(socket.received)| + RESPONSE_SIZE
  {
    receiptLen := 0;
    if |checkpoint| != CHECKPOINT_SIZE || receiptBuf.Length < RECEIPT_SIZE {
      return BadArgument, 0;
    }
    var fails: bool := *;
    if fails && !socket.smooth {
      // the socket cannot be made non-blocking, or polled
      return Transport, 0;
    }
    var frame := Frame(checkpoint);
    var ok := SendAll(socket, frame);
    if !ok {
      return Transport, 0;
    }
    var response := new byte[RESPONSE_SIZE](_ => 0);
    ok := ReceiveResponse(socket, response);
    if !ok {
      return Transport, 0;
    }
    var receipt := response[4..];
    CopyIn(receiptBuf, 0, receipt);
    assert receiptBuf[..RECEIPT_SIZE] == receipt;
    ToFromBE(response[..4]);
    assert response[..] == response[..4] + receipt;
    return Accepted, RECEIPT_SIZE;
  }

  /** Frames are self-delimiting: the stream of frames determines the bodies. */
  lemma FrameInjective(first: seq<byte>, second: seq<byte>, rest: seq<byte>, others: seq<byte>)
    requires |first| < U32 && |second| < U32 && Frame(first) + rest == Frame(second) + others
    ensures first == second && rest == others
  {
    var s, t := Frame(first) + rest, Frame(second) + others;
    assert s[..4] == ToBE(|first|, 4) && t[..4] == ToBE(|second|, 4);
    Pow256Values();
    FromToBE(|first|, 4);
    FromToBE(|second|, 4);
    assert s[4..4 + |first|] == first && t[4..4 + |second|] == second;
    assert s[4 + |first|..] == rest && t[4 + |second|..] == others;
  }
}
