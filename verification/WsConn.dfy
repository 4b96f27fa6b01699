/** The connection: reads frames from what the peer has sent and appends frames to what it is sent. A write
    may fail after any part of its bytes. */
module WsConn {
  import opened Bytes
  import opened Wrappers
  import opened WsCodec
  import M = WsMessages
  import opened WsMessages

  class Conn {
    /** The bytes the peer sent that are not read yet. */
    var unread: bytes
    /** The bytes written so far. */
    var written: bytes

    constructor (input: bytes)
      ensures unread == input && written == []
    {
      unread, written := input, [];
    }

    /** Reads exactly `n` bytes; at the end of the stream it takes what is left and fails. */
    method ReadFull(n: nat) returns (ok: bool, data: bytes)
      modifies this`unread
      ensures ok <==> n <= |old(unread)|
      ensures ok ==> data == old(unread)[..n] && unread == old(unread)[n..]
      ensures !ok ==> unread == []
    {
      if n <= |unread| {
        ok, data, unread := true, unread[..n], unread[n..];
      } else {
        ok, data, unread := false, unread, [];
      }
    }

    /** Reads and unmasks one frame. */
    method ReadFrame() returns (fin: bool, opcode: byte, payload: bytes, err: Option<Error>)
      modifies this`unread
      ensures match Parse(old(unread))
        case Got(f, rest) => err == None && unread == rest && f == Frame(fin, opcode, payload)
        case Failed(e, rest) => err == Some(e) && unread == rest
    {
      fin, opcode, payload := false, 0, [];
      var ok, h := ReadFull(2);
      if !ok { return false, 0, [], Some(EndOfStream); }
      fin, opcode := h[0] >= 128, h[0] % 16;
      var masked, length: nat := h[1] >= 128, h[1] % 128;
      if length == 126 || length == 127 {
        var ext;
        ok, ext := ReadFull(if length == 126 then 2 else 8);
        if !ok { return false, 0, [], Some(EndOfStream); }
        length := FromBig(ext);
        assert ext == old(unread)[2..2 + |ext|] && unread == old(unread)[2 + |ext|..];
      }
      payload, err := ReadPayload(fin, opcode, masked, length);
    }

    /** The mask key, if there is one, and the payload, unmasked in place. */
    method ReadPayload(ghost fin: bool, ghost opcode: byte, masked: bool, length: nat) returns (payload: bytes, err: Option<Error>)
      modifies this`unread
      ensures match ParsePayload(fin, opcode, masked, length, old(unread))
        case Got(f, rest) => err == None && unread == rest && f == Frame(fin, opcode, payload)
        case Failed(e, rest) => err == Some(e) && unread == rest
    {
      if length > MAX_PAYLOAD { return [], Some(PayloadTooLong(length)); }
      var ok, key := true, [];
      if masked {
        ok, key := ReadFull(4);
        if !ok { return [], Some(EndOfStream); }
      }
      var body;
      ok, body := ReadFull(length);
      if !ok { return [], Some(EndOfStream); }
      assert body == old(unread)[|key|..|key| + length] && unread == old(unread)[|key| + length..];
      if !masked { return body, None; }
      var buffer := new byte[length](i requires 0 <= i < length => body[i]);
      assert buffer[..] == body;
      Unmask(buffer, key);
      payload, err := buffer[..], None;
    }

    /** Combines every byte of the buffer with its byte of the key. */
    static method Unmask(buffer: array<byte>, key: bytes)
      requires |key| == 4
      modifies buffer
      ensures buffer[..] == Masked(old(buffer[..]), key)
    {
      for i := 0 to buffer.Length
        invariant forall k :: 0 <= k < i ==> buffer[k] == Xor(old(buffer[k]), key[k % 4])
        invariant forall k :: i <= k < buffer.Length ==> buffer[k] == old(buffer[k])
      {
        buffer[i] := Xor(buffer[i], key[i % 4]);
      }
    }

    /** The header byte by byte. */
    static lemma HeaderForm(opcode: byte, n: nat)
      ensures Header(opcode, n) ==
        if n < 126 then [WithFin(opcode), n]
        else if n < 65536 then [WithFin(opcode), 126, n / 256 % 256, n % 256]
        else [WithFin(opcode), 127] + Big(n, 8)
    {
      assert Big(n, 2) == Big(n / 256, 1) + [n % 256];
      assert Big(n / 256, 1) == [] + [n / 256 % 256];
    }

    /** `now` is `before` and then a part of what was to follow. */
    static predicate Between(before: bytes, now: bytes, after: bytes) { before <= now <= after }

    /** Writes to the network. */
    method Write(data: bytes) returns (ok: bool)
      modifies this`written
      ensures Between(old(written), written, old(written) + data)
      ensures ok ==> written == old(written) + data
    {
      var sent :| 0 <= sent <= |data|;
      ok := *;
      if sent < |data| {
        ok := false;
      }
      written := written + data[..sent];
    }

    /** Writes one final frame, not masked; when it fails, a part of the frame has gone out. */
    method WriteFrame(opcode: byte, payload: bytes) returns (ok: bool)
      requires |payload| < Pow256(8)
      modifies this`written
      ensures Between(old(written), written, old(written) + ServerFrame(opcode, payload))
      ensures ok ==> written == old(written) + ServerFrame(opcode, payload)
    {
      hide Header, Big, Pow256;
      HeaderForm(opcode, |payload|);
      var b0 := if opcode < 128 then 128 + opcode else opcode;
      var n := |payload|;
      var header: bytes;
      if n < 126 {
        header := [b0, n];
      } else if n < 65536 {
        header := [b0, 126, n / 256 % 256, n % 256];
      } else {
        header := [b0, 127] + Big(n, 8);
      }
      assert ServerFrame(opcode, payload) == header + payload;
      ghost var frame := old(written) + header + payload;
      assert old(written) + ServerFrame(opcode, payload) == frame;
      ok := Write(header);
      if !ok {
        return;
      }
      if |payload| > 0 {
        ok := Write(payload);
      }
    }

    /** Joins the fragments that follow the first one, until the last. */
    method ReadFragments(kind: byte, first: bytes) returns (outcome: Outcome)
      modifies this`unread
      ensures Reassemble(kind, first, old(unread)) == Read(outcome, unread, [])
    {
      var msg, fin := first, false;
      while !fin
        invariant !fin ==> Reassemble(kind, msg, unread) == Reassemble(kind, first, old(unread))
        invariant fin ==> Reassemble(kind, first, old(unread)) == Read(Message(kind, msg), unread, [])
        decreases if fin then 0 else 1 + |unread|
      {
        var opcode, payload, err;
        fin, opcode, payload, err := ReadFrame();
        if err.Some? { return Broken(err.value); }
        if opcode != OP_CONTINUATION { return Broken(ExpectedContinuation); }
        msg := msg + payload;
      }
      return Message(kind, msg);
    }

    /** The rest of the read lies ahead, and `sent` is what was written for the part behind. */
    ghost predicate Ahead(before: Read, sent: bytes)
      reads this
    {
      before == Prefixed(sent, M.ReadMessage(unread))
    }

    /** Reads the next message; see `WsMessages.ReadMessage`. Every frame that can be read has a payload
        that can be written back. A pong that cannot be written ends the read, with the ping consumed and a
        part of what is due written; whether the close frame can be echoed makes no difference. */
    method ReadMessage() returns (outcome: Outcome, ghost pongFailed: bool)
      modifies this
      ensures var r := M.ReadMessage(old(unread));
        && Between(old(written), written, old(written) + r.written)
        && (!pongFailed ==> outcome == r.outcome && unread == r.rest)
        && (!pongFailed && outcome != Broken(ClosedByPeer) ==> written == old(written) + r.written)
        && (pongFailed ==> outcome == Broken(WriteFailed) && exists sent :: Ahead(r, sent) && Between(old(written), written, old(written) + sent))
    {
      hide Parse, ServerFrame, Reassemble, Pow256, Header, M.ReadMessage, Between;
      ghost var r, sent := M.ReadMessage(unread), [];
      pongFailed := false;
      assert r == Prefixed([], r);
      while true
        invariant written == old(written) + sent
        invariant Ahead(r, sent)
        decreases |unread|
      {
        ReadMessageStep(unread);
        ghost var due := M.ReadMessage(unread).written;
        AllSent(old(written), sent, due);
        var fin, opcode, payload, err := ReadFrame();
        if err.Some? { return Broken(err.value), false; }
        if opcode == OP_TEXT || opcode == OP_BINARY {
          if fin { return Message(opcode, payload), false; }
          outcome := ReadFragments(opcode, payload);
          return;
        }
        if opcode == OP_PING {
          PowersOf256();
          ghost var pong, later := ServerFrame(OP_PONG, payload), M.ReadMessage(unread).written;
          assert due == pong + later;
          var ok := WriteFrame(OP_PONG, payload);
          PartSent(old(written), sent, pong, later, written);
          sent := sent + pong;
          assert Ahead(r, sent);
          if !ok {
            return Broken(WriteFailed), true;
          }
        } else if opcode == OP_CLOSE {
          PowersOf256();
          assert due == ServerFrame(OP_CLOSE, payload) + [];
          var _ := WriteFrame(OP_CLOSE, payload);
          PartSent(old(written), sent, ServerFrame(OP_CLOSE, payload), [], written);
          return Broken(ClosedByPeer), false;
        } else if opcode != OP_PONG {
          return Broken(UnknownOpcode(opcode)), false;
        }
      }
    }

    static lemma AllSent(before: bytes, sent: bytes, due: bytes)
      ensures due == [] ==> before + (sent + due) == before + sent && Between(before, before + sent, before + (sent + due))
    {
      if due == [] { assert sent + due == sent; }
    }

    /** A part of a frame on top of what was sent before. */
    static lemma PartSent(before: bytes, sent: bytes, frame: bytes, later: bytes, now: bytes)
      requires Between(before + sent, now, before + sent + frame)
      ensures sent + (frame + later) == sent + frame + later
      ensures before + sent + frame == before + (sent + frame)
      ensures Between(before, now, before + (sent + frame))
      ensures Between(before, now, before + (sent + (frame + later)))
    {
      assert before + sent + frame <= before + sent + frame + later;
      assert before + sent + frame + later == before + (sent + (frame + later));
      assert before <= before + sent;
    }

    /** The same read with something written before. */
    static ghost function Prefixed(sent: bytes, r: Read): Read { r.(written := sent + r.written) }
  }
}
