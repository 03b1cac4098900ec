/** The read side of conn.go: the connection's read fields and the methods that update them. */
module FrameReader {
  import opened Bytes
  import opened Masking
  import opened Frames
  import opened Reading
  import Utf8

  const NO_FRAME: int := -1
  const WORD_SIZE: nat := 8

  /** The readers put on top of the low-level one: the decompressor, and on top of that the UTF-8 validator. */
  datatype Stack = Stack(inflates: bool, validates: bool)

  const NO_STACK := Stack(false, false)

  class Conn {
    const isServer: bool
    const inflates: bool                // newDecompressionReader is set
    const bufSize: nat                  // of the bufio reader
    const end: ReadError                // what the transport reports after its last octet
    const accepts: Event -> bool
    const skipUTF8: bool
    var readLimit: int

    var input: seq<byte>                // octets still to come from the transport, through the bufio reader
    var readErr: Option<ReadError>
    var readRemaining: int
    var readFinal: bool
    var readLength: int
    var readMaskPos: nat
    var readMaskKey: Key
    var readDecompress: bool
    var messageReader: MessageReader?
    var readUTF8State: nat              // carried over the frames of a text message
    var readUTF8Codepoint: int
    var events: seq<Event>              // calls of handlers and Close frames asked for

    /** br is the size of a bufio reader taken over from the server's handshake. */
    constructor (isServer: bool, inflates: bool, limit: int, readBufferSize: int, br: Option<nat>,
                 input: seq<byte>, end: ReadError, accepts: Event -> bool, skipUTF8: bool)
      ensures Valid() && messageReader == null && fresh(this) && this.skipUTF8 == skipUTF8
      ensures Cfg() == Config(isServer, inflates, limit, bufSize, end, accepts)
      ensures br.Some? ==> bufSize == br.value
      ensures br == None && readBufferSize == 0 ==> bufSize == 4096
      ensures br == None && readBufferSize >= MAX_CONTROL_PAYLOAD ==> bufSize == readBufferSize
      ensures br == None && readBufferSize != 0 && readBufferSize < MAX_CONTROL_PAYLOAD ==>
        bufSize == MAX_CONTROL_PAYLOAD
      ensures State() == NewState(input)
    {
      this.isServer, this.inflates, this.end, this.accepts := isServer, inflates, end, accepts;
      var size := readBufferSize;
      if br == None {
        if size == 0 {
          size := 4096;
        } else if size < MAX_CONTROL_PAYLOAD {
          size := MAX_CONTROL_PAYLOAD;        // must be large enough for a control frame
        }
      }
      bufSize := if br == None then size else br.value;
      this.skipUTF8, readUTF8State, readUTF8Codepoint := skipUTF8, Utf8.ACCEPT, 0;
      readLimit, this.input := limit, input;
      readErr, readRemaining, readFinal, readLength := None, 0, true, 0;
      readMaskPos, readMaskKey, readDecompress := 0, Key(0, 0, 0, 0), false;
      messageReader, events := null, [];
    }

    predicate Valid()
      reads this
    {
      readRemaining >= 0 && readUTF8State < 9
    }

    function Cfg(): Config
      reads this
    {
      Config(isServer, inflates, readLimit, bufSize, end, accepts)
    }

    function State(): Reading.State
      requires Valid()
      reads this
    {
      Reading.State(input, readRemaining, readFinal, readLength, readMaskPos, readMaskKey, readDecompress,
                    readErr, messageReader != null, events)
    }

    /** What reading a frame leaves alone. */
    twostate predicate Kept()
      reads this
    {
      readLimit == old(readLimit) && readUTF8State == old(readUTF8State)
    }

    method SetReadRemaining(n: int) returns (err: Option<ReadError>)
      modifies this`readRemaining
      ensures n < 0 ==> err == Some(LimitExceeded) && readRemaining == old(readRemaining)
      ensures n >= 0 ==> err == None && readRemaining == n
    {
      if n < 0 {
        return Some(LimitExceeded);
      }
      readRemaining := n;
      err := None;
    }

    /** c.read: the next n octets, or all that are left and an error. */
    method ReadOctets(n: nat) returns (p: seq<byte>, err: Option<ReadError>)
      modifies this`input
      ensures n <= |old(input)| ==> err == None && p == old(input)[..n] && input == old(input)[n..]
      ensures n > |old(input)| ==> err == Some(Short(Cfg())) && input == []
    {
      if n <= |input| {
        p, err := input[..n], None;
        input := input[n..];
      } else {
        p, err := input, Some(if end == EOF then UnexpectedEOF else end);
        input := [];
      }
    }

    /**
     c.br.Read on the first `size` octets of b: any number of octets, and the end once they have run out. Only a
     read at least as long as the bufio reader's own buffer goes to the transport with b itself, and only then can
     octets and the end come together.
     */
    method BufioRead(b: array<byte>, size: nat) returns (n: nat, err: Option<ReadError>)
      requires size <= b.Length
      modifies this`input, b
      ensures n <= size && n <= |old(input)| && input == old(input)[n..]
      ensures b[..n] == old(input)[..n] && b[n..] == old(b[n..])
      ensures err.Some? ==> err.value == end && input == [] && (n > 0 ==> size >= bufSize)
    {
      var m: int := *;
      n := if 0 <= m <= size && m <= |input| then m else 0;
      forall i | 0 <= i < n {
        b[i] := input[i];
      }
      input := input[n..];
      var ended: bool := *;
      err := if ended && input == [] && (n == 0 || size >= bufSize) then Some(end) else None;
    }

    method HandleProtocolError() returns (err: Option<ReadError>)
      modifies this`events
      ensures events == old(events) + [CloseSent(1002)] && err == Some(Protocol)
    {
      events := events + [CloseSent(1002)];
      err := Some(Protocol);
    }

    method CallHandler(e: Event) returns (err: Option<ReadError>)
      modifies this`events
      ensures events == old(events) + [e] && err == if accepts(e) then None else Some(Handler)
    {
      events := events + [e];
      err := if accepts(e) then None else Some(Handler);
    }

    /** What a pair of return values of advanceFrame means. */
    static predicate Returned(frameType: int, err: Option<ReadError>, o: Outcome) {
      match o
      case Accepted(opcode) => frameType == opcode && err == None
      case Refused(e) => frameType == NO_FRAME && err == Some(e)
    }

    method AdvanceFrame() returns (frameType: int, err: Option<ReadError>)
      requires Valid()
      modifies this
      ensures Valid() && messageReader == old(messageReader) && Kept()
      ensures var r := Reading.AdvanceFrame(old(Cfg()), old(State()));
              State() == r.0 && Returned(frameType, err, r.1)
    {
      // 1. Skip remainder of previous frame.
      if readRemaining > 0 {
        if readRemaining > |input| {
          input := [];
          return NO_FRAME, Some(end);
        }
        input := input[readRemaining..];
      }
      frameType, err := ReadHeader();
    }

    method ReadHeader() returns (frameType: int, err: Option<ReadError>)
      requires Valid()
      modifies this
      ensures Valid() && messageReader == old(messageReader) && Kept()
      ensures var r := Reading.ReadHead(old(Cfg()), old(State()));
              State() == r.0 && Returned(frameType, err, r.1)
    {
      hide Reading.ReadLength, HeadRefused;
      // 2. Read and parse first two bytes of frame header.
      var p;
      p, err := ReadOctets(2);
      if err != None {
        return NO_FRAME, err;
      }
      var h := ParseHead(p[0], p[1]);
      var _ := SetReadRemaining(h.len);
      var errors := CheckHead(h);
      if errors > 0 {
        err := HandleProtocolError();
        return NO_FRAME, err;
      }
      frameType, err := ReadBody(h.opcode, h.masked, h);
    }

    /** Collects the errors in the first two octets; readDecompress and readFinal are updated on the way. */
    method CheckHead(h: Head) returns (errors: nat)
      requires Valid() && readRemaining == h.len
      modifies this`readDecompress, this`readFinal
      ensures errors > 0 <==> HeadRefused(Cfg(), old(readFinal), h)
      ensures State() == AfterHead(Cfg(), old(State()), h)
    {
      errors := 0;
      readDecompress := false;
      if h.rsv1 {
        if inflates {
          readDecompress := true;
        } else {
          errors := errors + 1;
        }
      }
      if h.rsv2 {
        errors := errors + 1;
      }
      if h.rsv3 {
        errors := errors + 1;
      }
      if IsControl(h.opcode) {
        if readRemaining > MAX_CONTROL_PAYLOAD {
          errors := errors + 1;
        }
        if !h.fin {
          errors := errors + 1;
        }
      } else if IsData(h.opcode) {
        if !readFinal {
          errors := errors + 1;
        }
        readFinal := h.fin;
      } else if h.opcode == CONTINUATION {
        if readFinal {
          errors := errors + 1;
        }
        readFinal := h.fin;
      } else {
        errors := errors + 1;
      }
      if h.masked != isServer {
        errors := errors + 1;
      }
    }

    method ReadBody(opcode: nat, mask: bool, ghost h: Head) returns (frameType: int, err: Option<ReadError>)
      requires Valid() && opcode == h.opcode && mask == h.masked && readRemaining < 128
      modifies this
      ensures Valid() && messageReader == old(messageReader) && Kept()
      ensures var r := Reading.ReadLength(old(Cfg()), old(State()), h);
              State() == r.0 && Returned(frameType, err, r.1)
    {
      hide Reading.ReadKey, FromBE;
      // 3. Read and parse frame length.
      var p;
      if readRemaining == 126 {
        p, err := ReadOctets(2);
        if err != None {
          return NO_FRAME, err;
        }
        SmallLength(p);
        var _ := SetReadRemaining(FromBE(p));
      } else if readRemaining == 127 {
        p, err := ReadOctets(8);
        if err != None {
          return NO_FRAME, err;
        }
        LargeLength(p);
        assert Pow256(8) == 0x1_0000_0000_0000_0000;
        err := SetReadRemaining(ToInt64(FromBE(p)));
        if err != None {
          return NO_FRAME, err;
        }
      }
      frameType, err := ReadMask(opcode, mask, h);
    }

    method ReadMask(opcode: nat, mask: bool, ghost h: Head) returns (frameType: int, err: Option<ReadError>)
      requires Valid() && opcode == h.opcode && mask == h.masked
      modifies this
      ensures Valid() && messageReader == old(messageReader) && Kept()
      ensures var r := Reading.ReadKey(old(Cfg()), old(State()), h);
              State() == r.0 && Returned(frameType, err, r.1)
    {
      hide Reading.FinishControl;
      // 4. Handle frame masking.
      if mask {
        readMaskPos := 0;
        var p;
        p, err := ReadOctets(4);
        if err != None {
          return NO_FRAME, err;
        }
        readMaskKey := Key(p[0], p[1], p[2], p[3]);
      }
      // 5. For text and binary messages, enforce read limit and return.
      if !IsControl(opcode) {
        readLength := AddInt64(readLength, readRemaining);
        if readLength < 0 {
          return NO_FRAME, Some(LimitExceeded);
        }
        if readLimit > 0 && readLength > readLimit {
          events := events + [CloseSent(1009)];
          return NO_FRAME, Some(LimitExceeded);
        }
        return opcode, None;
      }
      frameType, err := ReadControl(opcode);
    }

    method ReadControl(opcode: nat) returns (frameType: int, err: Option<ReadError>)
      requires Valid()
      modifies this
      ensures Valid() && messageReader == old(messageReader) && Kept()
      ensures var r := Reading.FinishControl(old(Cfg()), old(State()), opcode);
              State() == r.0 && Returned(frameType, err, r.1)
    {
      hide Reading.ProcessControl;
      // 6. Read control frame payload.
      var payload: seq<byte> := [];
      if readRemaining > 0 {
        payload, err := ReadOctets(readRemaining);
        var _ := SetReadRemaining(0);
        if err != None {
          return NO_FRAME, err;
        }
        if isServer {
          payload := UnmaskPayload(readMaskKey, payload);
        }
      }
      frameType, err := ProcessControl(opcode, payload);
    }

    method ProcessControl(opcode: nat, payload: seq<byte>) returns (frameType: int, err: Option<ReadError>)
      requires Valid()
      modifies this`events
      ensures var r := Reading.ProcessControl(Cfg(), old(State()), opcode, payload);
              State() == r.0 && Returned(frameType, err, r.1)
    {
      // 7. Process control frame payload.
      if opcode == PONG {
        err := CallHandler(PongReceived(payload));
        return if err == None then opcode else NO_FRAME, err;
      } else if opcode == PING {
        err := CallHandler(PingReceived(payload));
        return if err == None then opcode else NO_FRAME, err;
      }
      var closeCode, closeText: seq<byte> := 1005, [];
      if |payload| >= 2 {
        closeCode := FromBE(payload[..2]);
        if !ValidReceivedCode(closeCode) {
          err := HandleProtocolError();
          return NO_FRAME, err;
        }
        closeText := payload[2..];
        if !Utf8.Valid(closeText) {
          err := HandleProtocolError();
          return NO_FRAME, err;
        }
      }
      err := CallHandler(CloseReceived(closeCode, closeText));
      if err != None {
        return NO_FRAME, err;
      }
      return NO_FRAME, Some(PeerClosed(closeCode, closeText));
    }

    /** A reader for the message whose first frame has just begun; validation of a text starts anew. */
    method StartMessage(frameType: int) returns (r: MessageReader, stack: Stack)
      requires Valid() && messageReader == null
      modifies this`messageReader, this`readUTF8State, this`readUTF8Codepoint
      ensures Valid() && fresh(r) && r.c == this && messageReader == r
      ensures State() == old(State()).(open := true)
      ensures stack == Stack(readDecompress, frameType == TEXT && !skipUTF8)
      ensures readUTF8State == if frameType == TEXT && !skipUTF8 then Utf8.ACCEPT else old(readUTF8State)
    {
      r := new MessageReader(this);
      messageReader := r;
      stack := Stack(false, false);
      if readDecompress {
        stack := stack.(inflates := true);
      }
      if frameType == TEXT && !skipUTF8 {
        readUTF8State, readUTF8Codepoint := Utf8.ACCEPT, 0;
        stack := stack.(validates := true);
      }
    }

    method NextReader() returns (messageType: int, r: MessageReader?, stack: Stack, err: Option<ReadError>)
      requires Valid()
      modifies this
      ensures Valid() && readLimit == old(readLimit)
      ensures var s := Reading.NextReader(old(Cfg()), old(State()));
              State() == s.0 && Returned(messageType, err, s.1)
      ensures err == None ==> r != null && fresh(r) && r.c == this && messageReader == r
                              && stack == Stack(readDecompress, messageType == TEXT && !skipUTF8)
      ensures err == None && messageType == TEXT && !skipUTF8 ==> readUTF8State == Utf8.ACCEPT
    {
      hide Reading.AdvanceFrame;
      messageReader := null;
      readLength := 0;
      ghost var cfg, start := Cfg(), State();
      while readErr == None
        invariant Valid() && Cfg() == cfg && messageReader == null
        invariant SeekMessage(cfg, State()) == SeekMessage(cfg, start)
        decreases if readErr == None then 1 + |input| else 0
      {
        var frameType;
        frameType, err := AdvanceFrame();
        if err != None {
          if err == Some(Timeout) {
            return NO_FRAME, null, NO_STACK, err;
          }
          readErr := err;
          break;
        }
        if IsData(frameType) {
          r, stack := StartMessage(frameType);
          return frameType, r, stack, None;
        }
      }
      return NO_FRAME, null, NO_STACK, readErr;
    }
  }

  /** A 64-bit unsigned value reinterpreted as an int64. */
  function ToInt64(n: nat): int {
    if n > MAX_INT64 then n - 0x1_0000_0000_0000_0000 else n
  }

  lemma SmallLength(p: seq<byte>)
    requires |p| == 2
    ensures FromBE(p) < 65536
  {
    assert FromBE(p[..1]) == 256 * FromBE(p[..1][..0]) + p[0];
  }

  lemma LargeLength(p: seq<byte>)
    ensures FromBE(p) < Pow256(|p|)
  {
    if p != [] {
      LargeLength(p[..|p| - 1]);
    }
  }

  /** maskBytes over the octets returned by c.read. */
  method UnmaskPayload(key: Key, octets: seq<byte>) returns (payload: seq<byte>)
    ensures payload == Mask(key, 0, octets)
  {
    var b := new byte[|octets|](i requires 0 <= i < |octets| => octets[i]);
    assert b[..] == octets;
    var addr: nat := *;
    var _ := MaskBytes(WORD_SIZE, addr, key, 0, b, 0, b.Length);
    MaskedSliceIsMask(key, 0, octets, b[..], 0, |octets|);
    payload := b[..];
  }

  class MessageReader {
    const c: Conn

    constructor (c: Conn)
      ensures this.c == c
    {
      this.c := c;
    }

    /** The octets of a read are the first n of b. The grant says what the one read of the transport brought. */
    method Read(b: array<byte>) returns (n: nat, err: Option<ReadError>, ghost g: Grant)
      requires c.Valid()
      modifies c, b
      ensures c.Valid() && n <= b.Length && c.Kept()
      ensures b[n..] == old(b[n..])
      ensures old(c.messageReader) != this ==> n == 0 && err == Some(EOF) && c.State() == old(c.State())
      ensures old(c.messageReader) == this ==>
        var cfg, t := old(c.Cfg()), SeekPayload(old(c.Cfg()), old(c.State()));
        && (t.error == None && t.remaining > 0 ==> g.want == Asked(t, b.Length) && CanGrant(cfg, t, g))
        && Delivery(c.State(), b[..n], err) == Reading.Read(cfg, old(c.State()), g)
    {
      hide Reading.AdvanceFrame;
      n, g := 0, Grant(0, 0, None);
      if c.messageReader != this {
        err := Some(EOF);
        return;
      }
      ghost var cfg, start := c.Cfg(), c.State();
      while c.readErr == None
        invariant c.Valid() && c.Cfg() == cfg && c.messageReader == this && n == 0 && c.Kept()
        invariant SeekPayload(cfg, c.State()) == SeekPayload(cfg, start)
        invariant b[..] == old(b[..])
        decreases if c.readErr == None then 1 + |c.input| else 0
      {
        if c.readRemaining > 0 {
          n, err, g := ReadPayload(b);
          return;
        }
        if c.readFinal {
          c.messageReader := null;
          err := Some(EOF);
          return;
        }
        var frameType;
        frameType, err := c.AdvanceFrame();
        if err != None {
          c.readErr := err;
        } else if IsData(frameType) {
          c.readErr := Some(Internal);
        }
      }
      err := c.readErr;
      if err == Some(EOF) && c.messageReader == this {
        err := Some(UnexpectedEOF);
      }
    }

    /** Unmasks the octets just read, carrying the position in the key over to the next read. */
    method UnmaskRead(b: array<byte>, n: nat)
      requires n <= b.Length
      modifies c`readMaskPos, b
      ensures b[..n] == Mask(c.readMaskKey, old(c.readMaskPos), old(b[..n])) && b[n..] == old(b[n..])
      ensures c.readMaskPos == (old(c.readMaskPos) + n) % 4
    {
      var addr: nat := *;
      ghost var before, pos := b[..], c.readMaskPos;
      c.readMaskPos := MaskBytes(WORD_SIZE, addr, c.readMaskKey, c.readMaskPos, b, 0, n);
      MaskedSliceIsMask(c.readMaskKey, pos, before, b[..], 0, n);
      assert before[0..n] == before[..n] && b[..n] == b[..][..n] && b[n..] == b[..][n..];
    }

    method ReadPayload(b: array<byte>) returns (n: nat, err: Option<ReadError>, ghost g: Grant)
      requires c.Valid() && c.readErr == None && c.readRemaining > 0 && c.messageReader == this
      modifies c, b
      ensures c.Valid() && n <= b.Length && c.Kept()
      ensures b[n..] == old(b[n..])
      ensures g.want == Asked(old(c.State()), b.Length) && CanGrant(old(c.Cfg()), old(c.State()), g)
      ensures Delivery(c.State(), b[..n], err) == ReadHere(old(c.Cfg()), old(c.State()), g)
    {
      var size := if b.Length > c.readRemaining then c.readRemaining else b.Length;
      n, err := c.BufioRead(b, size);
      g := Grant(size, n, err);
      c.readErr := err;
      if c.isServer {
        UnmaskRead(b, n);
      }
      var rem := c.readRemaining - n;
      var _ := c.SetReadRemaining(rem);
      if c.readRemaining > 0 && c.readErr == Some(EOF) {
        c.readErr := Some(UnexpectedEOF);
      }
      err := c.readErr;
    }
  }
}
