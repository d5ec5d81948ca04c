/** What the C client sends: resize, handshake and input, built in buffers, against the server's codec. */
module ClientSend {
  import opened Bits
  import opened Framing
  import opened Protocol

  /** The socket, as the bytes written to it. */
  class Socket {
    var sent: Bytes

    /** A packet goes out behind its length. */
    method SendPacket(payload: Bytes)
      requires |payload| < U32
      modifies this
      ensures sent == old(sent) + Frame(payload)
    {
      hide BigEndian;
      sent := sent + BigEndian(|payload|, 4);
      sent := sent + payload;
    }

    method SendResize(rows: u16, cols: u16)
      modifies this
      ensures sent == old(sent) + Frame(Serialize(ClientResize(rows, cols)))
    {
      hide BigEndian;
      var payload := new byte[5];
      payload[0] := 2;
      assert payload[..1] == [2];
      Put(payload, 1, BigEndian(rows, 2), [2]);
      Put(payload, 3, BigEndian(cols, 2), [2] + BigEndian(rows, 2));
      SendPacket(payload[..]);
    }

    /** The key length is cut to 16 bits, and that many bytes of the key are sent. */
    method SendHandshake(key: Bytes, rows: u16, cols: u16)
      modifies this
      ensures sent == old(sent) + Frame(Serialize(ClientHandshake(key[..|key| % U16], rows, cols)))
    {
      hide BigEndian, Serialize, Frame;
      var keyLen := |key| % U16;
      var payload := new byte[1 + 2 + keyLen + 2 + 2];
      payload[0] := 6;
      var n, k, r, c := BigEndian(keyLen, 2), key[..keyLen], BigEndian(rows, 2), BigEndian(cols, 2);
      assert payload[..1] == [6];
      Put(payload, 1, n, [6]);
      Put(payload, 3, k, [6] + n);
      Put(payload, 3 + keyLen, r, [6] + n + k);
      Put(payload, 5 + keyLen, c, [6] + n + k + r);
      HandshakeInParts(k, rows, cols);
      SendPacket(payload[..]);
    }

    method SendInput(data: Bytes)
      requires 5 + |data| < U32
      modifies this
      ensures sent == old(sent) + Frame(Serialize(ClientInput(data)))
    {
      hide BigEndian, Serialize, Frame;
      var payload := new byte[1 + 4 + |data|];
      payload[0] := 1;
      assert payload[..1] == [1];
      assert |data| % U32 == |data|;
      Put(payload, 1, BigEndian(|data| % U32, 4), [1]);
      Put(payload, 5, data, [1] + BigEndian(|data| % U32, 4));
      InputInParts(data);
      SendPacket(payload[..]);
    }
  }

  /** memcpy, behind what is already there. */
  method Put(a: array<byte>, at: nat, s: Bytes, ghost before: Bytes)
    requires at + |s| <= a.Length && a[..at] == before
    modifies a
    ensures a[..at + |s|] == before + s
    ensures at + |s| == a.Length ==> a[..] == before + s
  {
    forall i | 0 <= i < |s| {
      a[at + i] := s[i];
    }
  }

  /** The server reads each of these packets as it was meant, whatever follows. */
  lemma ServerReads(p: Packet, more: Bytes)
    requires Encodable(p)
    ensures DecodeOne(Frame(Serialize(p)) + more) == Item(p, more)
  {
    hide Encodable, Serialize, Deserialize, Frame, HasFrame, FirstLength;
    SerializedSize(p);
    FrameParts(Serialize(p), more);
    PacketRoundTrip(p);
  }
}
