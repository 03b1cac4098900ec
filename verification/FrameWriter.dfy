/** The write side of conn.go: frames are built in place in the connection's write buffer. */
module FrameWriter {
  import opened Bytes
  import opened Masking
  import opened Frames
  import Utf8

  const HEADER_SIZE: nat := 14          // maxFrameHeaderSize: 2 + 8 + 4
  const WORD_SIZE: nat := 8
  const MAX_SLICE: int := 0x2000_0000_0000_0000  // more than any slice in memory can hold

  datatype WriteError =
    | WriteTimeout
    | BadOpcode
    | WriteClosed
    | InvalidControl
    | CloseSent
    | InvalidText
    | Network
    | InternalExtra
    | Source                            // an error of the reader given to ReadFrom

  /** The writers put on top of the message writer. */
  datatype Stack = Stack(compresses: bool, validates: bool)

  const NO_STACK := Stack(false, false)

  // ----- building the header in place -----

  method PutOctets(buf: array<byte>, at: nat, octets: seq<byte>)
    requires at + |octets| <= buf.Length
    modifies buf
    ensures buf[..] == old(buf[..at]) + octets + old(buf[at + |octets|..])
  {
    forall i | 0 <= i < |octets| {
      buf[at + i] := octets[i];
    }
  }

  /** The header is laid out backwards from its fixed end, in the shortest of the three length forms. */
  method PutHeader(buf: array<byte>, b0: byte, masked: bool, length: nat) returns (framePos: nat)
    requires buf.Length >= HEADER_SIZE
    modifies buf
    ensures framePos <= HEADER_SIZE && buf[HEADER_SIZE..] == old(buf[HEADER_SIZE..])
    ensures var keyPos := if masked then HEADER_SIZE - 4 else HEADER_SIZE;
            framePos <= keyPos && buf[framePos..keyPos] == [b0, Octet1(masked, length)] + LengthOctets(length)
  {
    var b1: byte := if masked then 128 else 0;
    framePos := if masked then 0 else 4;
    if length >= 65536 {
      PutOctets(buf, framePos, [b0, b1 + 127] + ToBE(length, 8));
    } else if length > 125 {
      framePos := framePos + 6;
      PutOctets(buf, framePos, [b0, b1 + 126] + ToBE(length, 2));
    } else {
      framePos := framePos + 8;
      PutOctets(buf, framePos, [b0, b1 + length]);
    }
  }

  /**
   Completes the frame whose payload begins in buf[HEADER_SIZE..pos] and goes on with extra. The octets
   buf[framePos..pos], followed by extra, are its encoding; a masked frame has no extra.
   */
  method PutFrame(buf: array<byte>, pos: nat, fin: bool, rsv1: bool, opcode: nat, masked: bool, extra: seq<byte>)
    returns (framePos: nat, key: Key)
    requires HEADER_SIZE <= pos <= buf.Length && opcode < 16
    requires pos - HEADER_SIZE + |extra| <= MAX_INT64
    modifies buf
    ensures framePos <= HEADER_SIZE
    ensures masked ==>
      buf[framePos..pos] == Header(Frame(fin, rsv1, opcode, Some(key), old(buf[HEADER_SIZE..pos]) + extra))
                            + Mask(key, 0, old(buf[HEADER_SIZE..pos]))
    ensures !masked ==> buf[framePos..pos] + extra ==
                        Encode(Frame(fin, rsv1, opcode, None, old(buf[HEADER_SIZE..pos]) + extra))
  {
    ghost var payload := buf[HEADER_SIZE..pos];
    var length := pos - HEADER_SIZE + |extra|;
    framePos := PutHeader(buf, Octet0(fin, rsv1, opcode), masked, length);
    key := *;
    ghost var head := [Octet0(fin, rsv1, opcode), Octet1(masked, length)] + LengthOctets(length);
    assert buf[HEADER_SIZE..pos] == buf[HEADER_SIZE..][..pos - HEADER_SIZE] == payload;
    if masked {
      PutKey(buf, framePos, pos, key);
      assert buf[framePos..pos] == head + key.Octets() + Mask(key, 0, payload);
    } else {
      SliceJoin(buf[..], framePos, HEADER_SIZE, pos);
      assert buf[framePos..pos] == buf[..][framePos..pos];
      assert buf[framePos..HEADER_SIZE] == buf[..][framePos..HEADER_SIZE];
      assert buf[framePos..pos] == head + payload;
      ConcatAssociative(head, payload, extra);
    }
  }

  lemma SliceJoin<T>(s: seq<T>, a: nat, b: nat, c: nat)
    requires a <= b <= c <= |s|
    ensures s[a..c] == s[a..b] + s[b..c]
  {
  }

  /** The key goes into the last four octets of the header, and the payload is masked in place. */
  method PutKey(buf: array<byte>, framePos: nat, pos: nat, key: Key)
    requires framePos <= HEADER_SIZE - 4 && HEADER_SIZE <= pos <= buf.Length
    modifies buf
    ensures buf[framePos..pos] == old(buf[framePos..HEADER_SIZE - 4]) + key.Octets()
                                  + Mask(key, 0, old(buf[HEADER_SIZE..pos]))
  {
    ghost var s0 := buf[..];
    PutOctets(buf, HEADER_SIZE - 4, key.Octets());
    ghost var s1 := buf[..];
    assert s1[framePos..HEADER_SIZE - 4] == s0[framePos..HEADER_SIZE - 4];
    assert s1[HEADER_SIZE - 4..HEADER_SIZE] == key.Octets();
    assert s1[HEADER_SIZE..pos] == s0[HEADER_SIZE..pos];
    var addr: nat := *;
    var _ := MaskBytes(WORD_SIZE, addr, key, 0, buf, HEADER_SIZE, pos);
    MaskedSliceIsMask(key, 0, s1, buf[..], HEADER_SIZE, pos);
  }

  // ----- the connection -----

  lemma OneMore(log: seq<Frame>, f: Frame)
    requires AllEncodable(log) && f.Encodable()
    ensures AllEncodable(log + [f]) && (EncodeAll(log) + []) + Encode(f) == EncodeAll(log + [f]) + []
  {
    hide Encode;
    EncodeAllConcat(log, [f]);
    assert EncodeAll([f]) == Encode(f) + EncodeAll([]) == Encode(f);
  }

  class Conn {
    const isServer: bool
    const disableMask: bool
    const compressing: bool             // a compression writer is set and enabled
    const skipUTF8: bool
    const pooled: bool                  // a write buffer pool is set
    const network: nat -> Option<nat>   // after k octets it takes all of the next write, or fails n octets into it
    var late: bool                      // the write deadline has passed
    var writeFrameSize: nat
    var writeMu: bool                   // the token of the outer write mutex is free
    var writeBuf: array?<byte>
    var writeErr: Option<WriteError>
    var writer: MessageWriter?
    var wire: seq<byte>                 // every octet the network has taken
    ghost var log: seq<Frame>           // the frames written in full
    ghost var tail: seq<byte>           // what the network took of a frame that failed

    /** given is a buffer taken over from the server's handshake, never together with a pool. */
    constructor (isServer: bool, disableMask: bool, compressing: bool, skipUTF8: bool, pooled: bool,
                 writeBufferSize: int, given: array?<byte>, writeFrameSize: nat, network: nat -> Option<nat>)
      requires writeBufferSize < MAX_SLICE - HEADER_SIZE
      requires given != null ==> !pooled && HEADER_SIZE < given.Length <= MAX_SLICE
      ensures Valid() && writeMu && writeErr == None && wire == [] && log == [] && !late && this.network == network
      ensures this.isServer == isServer && this.disableMask == disableMask && this.compressing == compressing
      ensures this.skipUTF8 == skipUTF8 && this.pooled == pooled && this.writeFrameSize == writeFrameSize
      ensures fresh(this) && if given != null then writeBuf == given else writeBuf != null ==> fresh(writeBuf)
      ensures given == null && !pooled ==>
        writeBuf != null && writeBuf.Length == (if writeBufferSize <= 0 then 4096 else writeBufferSize) + HEADER_SIZE
    {
      this.isServer, this.disableMask, this.compressing := isServer, disableMask, compressing;
      this.skipUTF8, this.pooled, this.writeFrameSize := skipUTF8, pooled, writeFrameSize;
      this.network, late := network, false;
      var size := (if writeBufferSize <= 0 then 4096 else writeBufferSize) + HEADER_SIZE;
      writeMu, writeErr, writer, wire, log, tail := true, None, null, [], [], [];
      writeBuf := given;
      if given == null && !pooled {
        writeBuf := new byte[size](_ => 0);
      }
    }

    /** While the token is free no writer is current and no pooled buffer is held. */
    ghost predicate Valid()
      reads this
    {
      && (writeBuf != null ==> HEADER_SIZE < writeBuf.Length <= MAX_SLICE)
      && (writeBuf != null || pooled)
      && (writeMu ==> writer == null && (pooled ==> writeBuf == null))
      && AllEncodable(log) && wire == EncodeAll(log) + tail
      && writeErr in {None, Some(CloseSent), Some(Network), Some(InternalExtra)}
      && (writeErr != Some(Network) ==> tail == [])
      && (writeErr == Some(CloseSent) ==> log != [] && log[|log| - 1].opcode == CLOSE)
      && (writeErr == None ==> forall f :: f in log ==> f.opcode != CLOSE)
    }

    /**
     What every operation keeps: the error latched first stays, and after it nothing is added to the wire; only a buffer
     from the pool is exchanged. The internal error needs a misuse of extra, a network error a failing network.
     */
    twostate predicate Later(misused: bool)
      reads this
    {
      && writeFrameSize == old(writeFrameSize) && late == old(late)
      && (writeBuf == old(writeBuf) || (pooled && (writeBuf == null || fresh(writeBuf))))
      && (old(writeErr).Some? ==>
            writeErr == old(writeErr) && wire == old(wire) && log == old(log) && tail == old(tail))
      && (writeErr == Some(InternalExtra) ==> old(writeErr) == writeErr || misused)
      && (writeErr == Some(Network) ==> old(writeErr) == writeErr || !Reliable())
    }

    /** The network takes whatever it is given. */
    ghost predicate Reliable() {
      forall k: nat :: network(k) == None
    }

    predicate Masks() {
      !isServer && !disableMask
    }

    method WriteFatal(err: WriteError)
      modifies this`writeErr
      ensures writeErr == if old(writeErr) == None then Some(err) else old(writeErr)
    {
      if writeErr == None {
        writeErr := Some(err);
      }
    }

    /** c.write: the network takes the whole frame, or fails after a part of it. */
    method Write(frameType: nat, buf0: seq<byte>, buf1: seq<byte>, ghost f: Frame) returns (err: Option<WriteError>)
      requires Valid() && f.Encodable() && buf0 + buf1 == Encode(f) && frameType == f.opcode
      modifies this`wire, this`log, this`tail, this`writeErr
      ensures Valid() && Later(false)
      ensures old(writeErr).Some? ==> err == writeErr
      ensures err == None <==> old(writeErr) == None && network(|old(wire)|) == None
      ensures err == None ==> log == old(log) + [f] && wire == old(wire) + Encode(f)
                              && writeErr == if frameType == CLOSE then Some(CloseSent) else None
      ensures err.Some? ==> writeErr == err && log == old(log)
      ensures old(writeErr) == None && err.Some? ==>
        && err == Some(Network) && tail <= Encode(f) && wire == old(wire) + tail
        && var n := network(|old(wire)|).value; |tail| == if n < |Encode(f)| then n else |Encode(f)|
    {
      hide EncodeAll, Encode;
      if writeErr.Some? {
        return writeErr;
      }
      var octets := buf0 + buf1;
      var fails := network(|wire|);
      if fails.Some? {
        var taken := if fails.value < |octets| then fails.value else |octets|;
        assert EncodeAll(log) + [] == EncodeAll(log);
        tail := octets[..taken];
        wire := wire + octets[..taken];
        WriteFatal(Network);
        return writeErr;
      }
      OneMore(log, f);
      wire := wire + octets;
      log := log + [f];
      if frameType == CLOSE {
        WriteFatal(CloseSent);
      }
      err := None;
    }

    method AcquireWriteMu() returns (err: Option<WriteError>)
      requires Valid()
      modifies this`writeMu
      ensures err == if old(writeMu) && !late then None else Some(WriteTimeout)
      ensures writeMu == (old(writeMu) && late)
      ensures Valid()
    {
      if !writeMu || late {
        return Some(WriteTimeout);
      }
      writeMu := false;
      err := None;
    }

    method BeginMessage(messageType: int) returns (mw: MessageWriter?, err: Option<WriteError>)
      requires Valid() && !writeMu && writer == null && (pooled ==> writeBuf == null)
      modifies this`writeBuf
      ensures Valid() && Later(false)
      ensures err == if IsControl(messageType) || IsData(messageType) then writeErr else Some(BadOpcode)
      ensures err.Some? ==> writeBuf == old(writeBuf)
      ensures err == None ==> mw != null && fresh(mw) && mw.c == this && mw.Begun(messageType, false)
      ensures err == None ==>
        writeBuf != null && if old(writeBuf) != null then writeBuf == old(writeBuf) else fresh(writeBuf)
    {
      if !IsControl(messageType) && !IsData(messageType) {
        return null, Some(BadOpcode);
      }
      if writeErr.Some? {
        return null, writeErr;
      }
      if writeBuf == null {
        var size: int := *;             // pools are shared by connections with buffers of other sizes
        writeBuf := new byte[if HEADER_SIZE < size <= MAX_SLICE then size else HEADER_SIZE + 1](_ => 0);
      }
      mw := new MessageWriter(this, messageType);
      err := None;
    }

    /** The stack says what is put on top of mw: the compressor, and on top of that the UTF-8 validator. */
    method NextWriter(messageType: int) returns (mw: MessageWriter?, stack: Stack, err: Option<WriteError>)
      requires Valid()
      modifies this
      ensures Valid() && Later(false) && wire == old(wire) && log == old(log) && writeErr == old(writeErr)
      ensures err == if !old(writeMu) || late then Some(WriteTimeout)
                     else if IsControl(messageType) || IsData(messageType) then writeErr else Some(BadOpcode)
      ensures err.Some? ==> writeMu == old(writeMu) && writeBuf == old(writeBuf) && writer == old(writer)
      ensures err == None ==> mw != null && fresh(mw) && mw.c == this && writer == mw && writeErr == None
                              && (writeBuf == old(writeBuf) || fresh(writeBuf))
                              && mw.Begun(messageType, Compresses(messageType))
                              && stack == Stack(Compresses(messageType), messageType == TEXT && !skipUTF8)
                              && (old(writeBuf) != null ==> writeBuf == old(writeBuf))
    {
      hide EncodeAll, OpenFragments, Capped;
      err := AcquireWriteMu();
      if err.Some? {
        return null, NO_STACK, err;
      }
      mw, err := BeginMessage(messageType);
      if err.Some? {
        writeMu := true;
        return null, NO_STACK, err;
      }
      writer, stack := mw, NO_STACK;
      if compressing && IsData(messageType) {
        mw.SetCompress();
        stack := stack.(compresses := true);
      }
      if messageType == TEXT && !skipUTF8 {
        stack := stack.(validates := true);
      }
    }

    method ControlOctets(messageType: nat, data: seq<byte>) returns (buf: seq<byte>, ghost f: Frame)
      requires IsControl(messageType) && |data| <= MAX_CONTROL_PAYLOAD
      ensures f == Frame(true, false, messageType, f.key, data) && f.key.Some? == Masks() && f.Encodable()
      ensures buf == Encode(f)
    {
      var b0: byte := messageType + 128;
      var b1: byte := |data|;
      if Masks() {
        var key: Key := *;
        var masked := MaskBuffer(key, data);
        buf := [b0, b1 + 128] + key.Octets() + masked;
        f := Frame(true, false, messageType, Some(key), data);
      } else {
        buf := [b0, b1] + data;
        f := Frame(true, false, messageType, None, data);
      }
    }

    /** Control frames are written at once, also while a message is open. expired: its own deadline passes first. */
    method WriteControl(messageType: int, data: seq<byte>, expired: bool) returns (err: Option<WriteError>)
      requires Valid()
      modifies this`wire, this`log, this`tail, this`writeErr
      ensures Valid() && Later(false)
      ensures err == Some(BadOpcode) <==> !IsControl(messageType)
      ensures err == Some(InvalidControl) <==> IsControl(messageType) && |data| > MAX_CONTROL_PAYLOAD
      ensures err == Some(WriteTimeout) <==> IsControl(messageType) && |data| <= MAX_CONTROL_PAYLOAD && expired
      ensures IsControl(messageType) && |data| <= MAX_CONTROL_PAYLOAD && !expired ==>
        if old(writeErr).Some? then err == old(writeErr)
        else err == if network(|old(wire)|) == None then None else Some(Network)
      ensures err == None ==>
        && |log| == |old(log)| + 1 && log[..|old(log)|] == old(log)
        && var f := log[|old(log)|];
        && f == Frame(true, false, messageType, f.key, data) && f.key.Some? == Masks()
        && writeErr == if messageType == CLOSE then Some(CloseSent) else None
      ensures err.Some? ==> log == old(log)
      ensures err in {Some(BadOpcode), Some(InvalidControl), Some(WriteTimeout)} || old(writeErr).Some? ==>
        wire == old(wire) && writeErr == old(writeErr)
      ensures err == Some(Network) && old(writeErr) == None ==>
        && writeErr == err
        && exists key: Option<Key> ::
             && key.Some? == Masks() && tail <= Encode(Frame(true, false, messageType, key, data))
             && wire == old(wire) + tail
    {
      if !IsControl(messageType) {
        return Some(BadOpcode);
      }
      if |data| > MAX_CONTROL_PAYLOAD {
        return Some(InvalidControl);
      }
      var buf;
      ghost var f;
      buf, f := ControlOctets(messageType, data);
      if expired {
        return Some(WriteTimeout);
      }
      assert buf + [] == buf;
      err := Write(messageType, buf, [], f);
    }

    /** The messages that go through the compressor. */
    predicate Compresses(messageType: int) {
      compressing && IsData(messageType)
    }

    /** What a call of WriteMessage promises; fs are the frames that reached the network in full. */
    twostate predicate Sent(messageType: int, payload: seq<byte>, new e: Option<WriteError>, new fs: seq<Frame>)
      reads this
    {
      && Valid() && Later(false) && log == old(log) + fs && (old(writeMu) ==> writeMu)
      && AllEncodable(fs) && (forall f :: f in fs ==> f.key.Some? == Masks())
      && (e == None ==>
            && (IsControl(messageType) || IsData(messageType))
            && WholeMessage(messageType, Compresses(messageType), fs) && Payloads(fs) == payload
            && (IsControl(messageType) ==> |fs| == 1 && |fs[0].payload| <= MAX_CONTROL_PAYLOAD)
            && writeErr == if messageType == CLOSE then Some(CloseSent) else None)
      && (NothingBegun(e) ==> fs == [] && wire == old(wire) && writeErr == old(writeErr))
      && (e == Some(InternalExtra) ==> old(writeErr) == e)
    }

    /** Nothing stands in the way of a frame. */
    ghost predicate Clear()
      reads this
    {
      Reliable() && writeErr == None
    }

    /** A message can be begun. */
    predicate Ready()
      reads this
    {
      writeMu && !late && writeErr == None
    }

    /** Why a call that begins a message of this type fails, but for invalid text. */
    twostate predicate Refused(messageType: int, new e: Option<WriteError>)
      reads this
    {
      var typed := IsControl(messageType) || IsData(messageType);
      && (e == Some(WriteTimeout) <==> !old(writeMu) || old(late))
      && (e == Some(BadOpcode) <==> old(writeMu) && !old(late) && !typed)
      && (old(writeMu) && !old(late) && typed && old(writeErr).Some? ==> e == old(writeErr))
      && (e == Some(InvalidControl) ==> IsControl(messageType))
      && (old(Ready()) && typed && Reliable() ==> e in {None, Some(InvalidControl)})
      && e != Some(InvalidText)
    }

    /** More than fits in the one frame that a control message may have. */
    predicate Overlong(data: seq<byte>)
      reads this
    {
      |data| > MAX_CONTROL_PAYLOAD || (writeBuf != null && |data| > Room(writeBuf.Length, writeFrameSize))
    }

    /** The frames that fit in the buffer and keep within the cap, but for the last as long as can be. */
    twostate predicate Fragmented(new fs: seq<Frame>)
      reads this
    {
      exists room: int ::
        && FullFrames(fs, room)
        && (!pooled && old(writeBuf) != null ==> room == old(Room(writeBuf.Length, writeFrameSize)))
    }

    predicate WithinCap(fs: seq<Frame>)
      reads this
    {
      writeFrameSize > 0 ==> forall f :: f in fs ==> |f.payload| <= writeFrameSize
    }

    /** The errors returned before a writer exists. */
    static predicate NothingBegun(e: Option<WriteError>) {
      e in {Some(InvalidText), Some(WriteTimeout), Some(BadOpcode)}
    }

    /**
     Writes one message. `deflated` is what the compressor, where there is one, passes on for the data, write by
     write, up to its Close.
     */
    method WriteMessage(messageType: int, data: seq<byte>, deflated: seq<seq<byte>>)
      returns (e: Option<WriteError>, ghost fs: seq<Frame>)
      requires Valid() && |data| <= MAX_SLICE && forall s :: s in deflated ==> |s| <= MAX_SLICE
      modifies this, writeBuf
      ensures Sent(messageType, if Compresses(messageType) then Concat(deflated) else data, e, fs)
      ensures if messageType == TEXT && !skipUTF8 && !Utf8.Valid(data) then e == Some(InvalidText)
              else Refused(messageType, e)
      ensures !Compresses(messageType) ==> WithinCap(fs)
      ensures !Compresses(messageType) && e == None ==>
        if isServer && !compressing && (writeFrameSize == 0 || |data| <= writeFrameSize) then |fs| == 1
        else Fragmented(fs)
      ensures old(Ready()) && IsControl(messageType) ==>
        if isServer && !compressing && (writeFrameSize == 0 || |data| <= writeFrameSize)
        then e == Some(InvalidControl) <==> |data| > MAX_CONTROL_PAYLOAD
        else (old(Overlong(data)) ==> e == Some(InvalidControl)) &&
             (e == Some(InvalidControl) ==> pooled || old(Overlong(data)))
    {
      hide EncodeAll, Utf8.Valid, Utf8.Viable, WholeMessage, OpenFragments, Payloads, Concat;
      if messageType == TEXT && !skipUTF8 {
        var state := Utf8.DfaValidate(data);
        if state != Utf8.ACCEPT {
          return Some(InvalidText), [];
        }
      }
      if isServer && !compressing && (writeFrameSize == 0 || |data| <= writeFrameSize) {
        e, fs := WriteUnfragmented(messageType, data);
      } else if Compresses(messageType) {
        e, fs := WriteCompressed(messageType, deflated);
      } else {
        e, fs := WriteFragmented(messageType, data);
      }
    }

    /** The fast path: a single frame and no allocation. What does not fit in the buffer goes out as extra. */
    method WriteUnfragmented(messageType: int, data: seq<byte>)
      returns (e: Option<WriteError>, ghost fs: seq<Frame>)
      requires Valid() && isServer && !compressing
      requires |data| <= MAX_SLICE && (writeFrameSize == 0 || |data| <= writeFrameSize)
      modifies this, writeBuf
      ensures Sent(messageType, data, e, fs) && Refused(messageType, e) && WithinCap(fs) && (e == None ==> |fs| == 1)
      ensures old(Ready()) && IsControl(messageType) ==> (e == Some(InvalidControl) <==> |data| > MAX_CONTROL_PAYLOAD)
    {
      hide EncodeAll, WholeMessage, OpenFragments;
      fs := [];
      assert log + fs == log;
      e := AcquireWriteMu();
      if e.Some? {
        return;
      }
      var mw;
      mw, e := BeginMessage(messageType);
      if e.Some? {
        writeMu := true;
        return;
      }
      e := mw.SendWhole(data);
      fs := mw.sent;
    }

    /** The slow path: NextWriter takes the lock, Close releases it. */
    method WriteFragmented(messageType: int, data: seq<byte>) returns (e: Option<WriteError>, ghost fs: seq<Frame>)
      requires Valid() && !Compresses(messageType) && |data| <= MAX_SLICE
      modifies this, writeBuf
      ensures Sent(messageType, data, e, fs) && Refused(messageType, e) && WithinCap(fs)
      ensures e == None && (!isServer || IsControl(messageType) || 0 < writeFrameSize < |data|) ==> Fragmented(fs)
      ensures old(Ready()) && IsControl(messageType) ==>
        && (old(Overlong(data)) ==> e == Some(InvalidControl))
        && (e == Some(InvalidControl) ==> pooled || old(Overlong(data)))
    {
      hide EncodeAll, WholeMessage, OpenFragments, Payloads, Capped, FullFrames;
      fs := [];
      assert log + fs == log;
      var mw, stack;
      mw, stack, e := NextWriter(messageType);
      if e.Some? {
        return;
      }
      e := mw.WriteOnce(data);
      fs := mw.sent;
      ghost var room := mw.Capacity();
      assert e == None && FullFrames(fs, room) ==> Fragmented(fs);
    }

    /** The slow path through the compressor. */
    method WriteCompressed(messageType: int, parts: seq<seq<byte>>)
      returns (e: Option<WriteError>, ghost fs: seq<Frame>)
      requires Valid() && Compresses(messageType) && forall s :: s in parts ==> |s| <= MAX_SLICE
      modifies this, writeBuf
      ensures Sent(messageType, Concat(parts), e, fs) && Refused(messageType, e)
    {
      hide EncodeAll, WholeMessage, OpenFragments, Payloads, Concat, Capped;
      fs := [];
      assert log + fs == log;
      var mw, stack;
      mw, stack, e := NextWriter(messageType);
      if e.Some? {
        return;
      }
      e := mw.WriteAndClose(parts);
      fs := mw.sent;
    }
  }

  lemma OnePart(data: seq<byte>)
    ensures Concat([data]) == data
  {
    assert Concat([data]) == data + Concat<byte>([]);
  }

  lemma SomethingTaken(sent: seq<Frame>)
    ensures sent != [] && sent[0].payload != [] ==> Payloads(sent) != []
  {
  }

  lemma NothingTaken(sent: seq<Frame>)
    ensures sent == [] ==> Payloads(sent) == []
  {
  }

  method MaskBuffer(key: Key, data: seq<byte>) returns (masked: seq<byte>)
    ensures masked == Mask(key, 0, data)
  {
    var b := new byte[|data|](i requires 0 <= i < |data| => data[i]);
    assert b[..] == data;
    var addr: nat := *;
    var _ := MaskBytes(WORD_SIZE, addr, key, 0, b, 0, b.Length);
    MaskedSliceIsMask(key, 0, data, b[..], 0, |data|);
    masked := b[..];
  }

  // ----- one message -----

  /**
   A frame keeps within the cap, except where a large write goes out on top of a buffer that is not empty: that takes
   a server whose buffer is less than half the cap, and then the frame exceeds the cap by what was buffered at most.
   */
  predicate Capped(isServer: bool, cap: nat, bufLen: nat, f: Frame) {
    cap > 0 ==>
      || |f.payload| <= cap
      || (isServer && 2 * bufLen < cap && |f.payload| <= cap + (bufLen - HEADER_SIZE))
  }

  /** From frame k on every payload has the length `room`. */
  predicate AllOf(fs: seq<Frame>, k: nat, room: int) {
    forall i :: k <= i < |fs| ==> |fs[i].payload| == room
  }

  /** Fragments that are all of the length `room`, but for the last, which is not longer and not empty. */
  predicate FullFrames(fs: seq<Frame>, room: int) {
    && fs != []
    && (forall i :: 0 <= i < |fs| - 1 ==> |fs[i].payload| == room)
    && |fs[|fs| - 1].payload| <= room && (|fs| > 1 ==> fs[|fs| - 1].payload != [])
  }

  /** n payloads of the length `room`. */
  function Times(n: nat, room: nat): nat {
    if n == 0 then 0 else room + Times(n - 1, room)
  }

  lemma {:induction false} TimesGrows(m: nat, n: nat, room: nat)
    requires m <= n
    ensures Times(m, room) <= Times(n, room)
  {
    if m < n {
      TimesGrows(m, n - 1, room);
    }
  }

  lemma {:induction false} FullLength(fs: seq<Frame>, room: nat)
    requires FullFrames(fs, room)
    ensures |Payloads(fs)| == Times(|fs| - 1, room) + |fs[|fs| - 1].payload|
  {
    if |fs| > 1 {
      FullLength(fs[1..], room);
    } else {
      assert fs[1..] == [];
    }
  }

  lemma {:induction false} MostLength(gs: seq<Frame>, room: nat)
    requires forall g :: g in gs ==> |g.payload| <= room
    ensures |Payloads(gs)| <= Times(|gs|, room)
  {
    if gs != [] {
      MostLength(gs[1..], room);
    }
  }

  /** With frames of at most `room` octets the same payload cannot go out in fewer. */
  lemma {:induction false} FewestFrames(fs: seq<Frame>, gs: seq<Frame>, room: nat)
    requires FullFrames(fs, room) && Payloads(gs) == Payloads(fs) && gs != []
    requires forall g :: g in gs ==> |g.payload| <= room
    ensures |fs| <= |gs|
  {
    FullLength(fs, room);
    MostLength(gs, room);
    if |gs| < |fs| {
      TimesGrows(|gs|, |fs| - 1, room);
    }
  }

  /**
   What the error e of a call comes from: a control message that would need another frame, a network that fails, or an
   error latched before the call. Nothing else is latched meanwhile but the end of the connection by a Close message.
   */
  predicate CausedBy(opcode: nat, reliable: bool, ended: bool, before: Option<WriteError>, after: Option<WriteError>,
                     e: Option<WriteError>) {
    && (match e
        case None => true
        case Some(InvalidControl) => IsControl(opcode)
        case Some(Network) => before == e || !reliable
        case Some(_) => before == e)
    && (before == None ==>
          || after == None || (after == Some(Network) && !reliable)
          || (after == Some(CloseSent) && opcode == CLOSE && ended))
    && (before.Some? ==> after == before)
  }

  /** A call that went well, and another. */
  lemma CausedTwice(opcode: nat, reliable: bool, ended: bool, before: Option<WriteError>, between: Option<WriteError>,
                    after: Option<WriteError>, e: Option<WriteError>)
    requires CausedBy(opcode, reliable, false, before, between, None)
    requires CausedBy(opcode, reliable, ended, between, after, e)
    ensures CausedBy(opcode, reliable, ended, before, after, e)
  {
  }

  lemma LastFrame(written: seq<Frame>, sent: seq<Frame>, last: seq<byte>, room: int)
    requires |sent| == |written| + 1 && sent[..|written|] == written && sent[|written|].payload == last
    requires (forall i :: 0 <= i < |written| ==> |written[i].payload| == room) && |last| <= room
    requires written != [] ==> last != []
    ensures FullFrames(sent, room)
  {
    assert forall i :: 0 <= i < |written| ==> sent[i] == written[i];
  }

  lemma NothingFailed(opcode: nat, ended: bool, after: Option<WriteError>, e: Option<WriteError>)
    requires CausedBy(opcode, true, ended, None, after, e)
    ensures e in {None, Some(InvalidControl)}
  {
  }

  /** The payload that fits in one frame, given the write buffer and the cap. */
  function Room(bufLen: nat, cap: nat): int {
    if 0 < cap < bufLen - HEADER_SIZE then cap else bufLen - HEADER_SIZE
  }

  class MessageWriter {
    const c: Conn
    var compress: bool
    var pos: nat
    var frameType: nat
    var err: Option<WriteError>
    ghost const opcode: nat             // of the message
    ghost const bufLen: nat             // of the write buffer
    ghost var rsv1: bool                // of the message
    ghost var sent: seq<Frame>          // the frames of the message written so far

    constructor (c: Conn, messageType: nat)
      requires c.Valid() && !c.writeMu && c.writeBuf != null
      requires IsControl(messageType) || IsData(messageType)
      ensures this.c == c && Begun(messageType, false)
    {
      this.c := c;
      compress, pos, frameType, err := false, HEADER_SIZE, messageType, None;
      opcode, rsv1, sent, bufLen := messageType, false, [], c.writeBuf.Length;
    }

    /** The message is open: what was sent of it is its first fragments, and the next frame continues it. */
    ghost predicate Open()
      reads this, c
    {
      && c.Valid() && !c.writeMu && c.writeBuf != null && err == None
      && HEADER_SIZE <= pos <= c.writeBuf.Length == bufLen
      && (c.writeFrameSize > 0 ==> pos - HEADER_SIZE <= c.writeFrameSize)
      && (IsControl(opcode) || IsData(opcode))
      && OpenFragments(opcode, rsv1, sent) && (IsControl(opcode) ==> sent == [])
      && frameType == (if sent == [] then opcode else CONTINUATION)
      && compress == (sent == [] && rsv1)
      && Framed()
    }

    /** What holds of every frame sent, whether or not the message is still open. */
    ghost predicate Framed()
      reads this, c
    {
      && AllEncodable(sent)
      && (forall f :: f in sent ==> f.key.Some? == c.Masks())
      && (forall f :: f in sent ==> Capped(c.isServer, c.writeFrameSize, bufLen, f))
      && (IsControl(opcode) ==> forall f :: f in sent ==> f.fin && |f.payload| <= MAX_CONTROL_PAYLOAD)
    }

    ghost predicate Begun(messageType: int, compressed: bool)
      reads this, c
    {
      Open() && opcode == messageType && rsv1 == compressed && sent == [] && pos == HEADER_SIZE
    }

    /** The message has ended; its buffer and the outer mutex have been given back. */
    ghost predicate Ended()
      reads this, c
    {
      && c.Valid() && Framed()
      && err in {Some(InvalidControl), Some(CloseSent), Some(Network), Some(InternalExtra), Some(WriteClosed)}
      && c.writeMu && c.writer == null && (c.pooled ==> c.writeBuf == null)
    }

    ghost function Buffered(): seq<byte>
      requires Open()
      reads this, c, c.writeBuf
    {
      c.writeBuf[HEADER_SIZE..pos]
    }

    /** All the payload the message has taken so far. */
    ghost function Taken(): seq<byte>
      requires Open()
      reads this, c, c.writeBuf
    {
      Payloads(sent) + Buffered()
    }

    /** The frames sent are as long as can be, and the next would not be empty. */
    ghost predicate AllFull()
      reads this, c
    {
      && (forall i :: 0 <= i < |sent| ==> |sent[i].payload| == Capacity())
      && (sent != [] ==> pos > HEADER_SIZE)
    }

    /** What Write does not buffer. */
    predicate Large(p: seq<byte>)
      requires c.writeBuf != null
      reads this, c
    {
      |p| > 2 * c.writeBuf.Length && c.isServer && (c.writeFrameSize == 0 || |p| <= c.writeFrameSize)
    }

    twostate predicate Caused(new e: Option<WriteError>)
      reads this, c
    {
      CausedBy(opcode, c.Reliable(), err.Some?, old(c.writeErr), c.writeErr, e)
    }

    /** A control message that is open is all in the buffer. */
    lemma ControlTaken()
      requires Open()
      ensures IsControl(opcode) ==> sent == [] && Taken() == Buffered()
      ensures |Buffered()| <= Capacity()
    {
      NothingTaken(sent);
    }

    /** Before anything was done. */
    lemma NotYet()
      ensures CausedBy(opcode, c.Reliable(), false, c.writeErr, c.writeErr, None)
    {
    }

    /** The most that a frame takes, except for what Large says. */
    ghost function Capacity(): int
      reads c
    {
      Room(bufLen, c.writeFrameSize)
    }

    /** The frames sent since are as long as can be. */
    twostate predicate Filled()
      reads this, c
    {
      AllOf(sent, |old(sent)|, Capacity())
    }

    method SetCompress()
      requires Begun(opcode, false)
      modifies this
      ensures Begun(opcode, true)
    {
      compress, rsv1 := true, true;
    }

    method EndMessage(e: WriteError)
      requires c.Valid() && err == None && !c.writeMu && Framed()
      requires e in {InvalidControl, CloseSent, Network, InternalExtra, WriteClosed}
      modifies this`err, c`writer, c`writeBuf, c`writeMu
      ensures Ended() && err == Some(e) && (!c.pooled ==> c.writeBuf == old(c.writeBuf)) && c.Later(false)
    {
      err := Some(e);
      c.writer := null;
      if c.pooled {
        c.writeBuf := null;
      }
      c.writeMu := true;
    }

    /** The frame that the next flush writes. */
    ghost function NextFrame(final: bool, key: Option<Key>, extra: seq<byte>): Frame
      requires Open()
      reads this, c, c.writeBuf
    {
      Frame(final, compress, frameType, key, Buffered() + extra)
    }

    /** What the network took of the frame before it failed. */
    ghost predicate PartSent(f: Frame, before: seq<byte>)
      reads c
    {
      f.Encodable() && c.tail <= Encode(f) && c.wire == before + c.tail
    }

    method FlushFrame(final: bool, extra: seq<byte>) returns (e: Option<WriteError>)
      requires Open() && pos - HEADER_SIZE + |extra| <= MAX_INT64
      requires c.writeFrameSize > 0 ==>
        || pos - HEADER_SIZE + |extra| <= c.writeFrameSize
        || (c.isServer && 2 * bufLen < |extra| <= c.writeFrameSize)
      modifies this, c, c.writeBuf
      ensures c.Valid() && rsv1 == old(rsv1) && c.Later(c.Masks() && extra != [])
      ensures e == Some(InternalExtra) ==> old(c.writeErr) == e || (c.Masks() && extra != [])
      ensures e == None ==>
        && c.writeErr == (if opcode == CLOSE then Some(CloseSent) else None)
        && |sent| == |old(sent)| + 1 && sent[..|old(sent)|] == old(sent)
        && var f := sent[|old(sent)|];
        && f == old(NextFrame(final, f.key, extra))
        && c.log == old(c.log) + [f] && c.wire == old(c.wire) + Encode(f)
        && if final then Ended() && err == Some(WriteClosed) && WholeMessage(opcode, rsv1, sent)
           else Open() && pos == HEADER_SIZE && c.writeBuf == old(c.writeBuf) && c.writer == old(c.writer)
      ensures e.Some? ==> Ended() && err == e && sent == old(sent) && c.log == old(c.log)
      ensures e == Some(InvalidControl) <==>
        IsControl(opcode) && (!final || old(pos) - HEADER_SIZE + |extra| > MAX_CONTROL_PAYLOAD)
      ensures e == Some(InvalidControl) ==> c.writeErr == old(c.writeErr) && c.wire == old(c.wire)
      ensures e != Some(InvalidControl) && !(c.Masks() && extra != []) ==>
        if old(c.writeErr).Some? then e == old(c.writeErr)
        else e == if c.network(|old(c.wire)|) == None then None else Some(Network)
      ensures old(c.writeErr) == None && e.Some? && e != Some(InternalExtra) && e != Some(InvalidControl) ==>
        && e == Some(Network) && c.writeErr == e
        && exists key: Option<Key> :: key.Some? == c.Masks() && PartSent(old(NextFrame(final, key, extra)), old(c.wire))
      ensures e.Some? && e != Some(InvalidControl) ==> c.writeErr.Some?
      ensures !(c.Masks() && extra != []) ==> Caused(e)
    {
      hide Encode, EncodeAll, Payloads, OpenFragments, WholeMessage;
      // Check for invalid control frames.
      if IsControl(frameType) && (!final || pos - HEADER_SIZE + |extra| > MAX_CONTROL_PAYLOAD) {
        EndMessage(InvalidControl);
        return Some(InvalidControl);
      }
      ghost var f;
      e, f := SendFrame(final, extra);
      if e.Some? {
        EndMessage(e.value);
        return;
      }
      FrameSent(final, f);
    }

    /** The part of flushFrame after a frame has been written. */
    method FrameSent(final: bool, ghost f: Frame)
      requires c.Valid() && !c.writeMu && c.writeBuf != null && err == None && Framed() && !compress
      requires IsControl(opcode) || IsData(opcode)
      requires Continues(opcode, rsv1, sent, f) && f.fin == final && (!final ==> !IsControl(opcode))
      requires f.Encodable() && f.key.Some? == c.Masks()
      requires Capped(c.isServer, c.writeFrameSize, bufLen, f) && c.writeBuf.Length == bufLen
      requires IsControl(opcode) ==> final && |f.payload| <= MAX_CONTROL_PAYLOAD
      modifies this, c`writer, c`writeBuf, c`writeMu
      ensures c.Valid() && rsv1 == old(rsv1) && c.Later(false) && c.writeErr == old(c.writeErr)
      ensures sent == old(sent) + [f]
      ensures if final then Ended() && err == Some(WriteClosed) && WholeMessage(opcode, rsv1, sent)
              else Open() && pos == HEADER_SIZE && c.writeBuf == old(c.writeBuf) && c.writer == old(c.writer)
    {
      hide OpenFragments, WholeMessage, EncodeAll;
      FragmentAppended(opcode, rsv1, sent, f);
      sent := sent + [f];
      if final {
        EndMessage(WriteClosed);
        return;
      }
      // Setup for next frame.
      pos := HEADER_SIZE;
      frameType := CONTINUATION;
    }

    /** The part of flushFrame that builds the frame in the write buffer and hands it to the network. */
    method SendFrame(final: bool, extra: seq<byte>) returns (e: Option<WriteError>, ghost f: Frame)
      requires Open() && pos - HEADER_SIZE + |extra| <= MAX_INT64
      modifies this`compress, c`wire, c`log, c`tail, c`writeErr, c.writeBuf
      ensures c.Valid() && !compress && c.Later(c.Masks() && extra != [])
      ensures e == Some(InternalExtra) ==> old(c.writeErr) == e || (c.Masks() && extra != [])
      ensures e == None ==> c.writeErr == if frameType == CLOSE then Some(CloseSent) else None
      ensures old(c.writeErr) == None && e.Some? && e != Some(InternalExtra) ==>
        && e == Some(Network) && c.writeErr == e
        && f == old(NextFrame(final, f.key, extra)) && f.Encodable() && f.key.Some? == c.Masks()
        && c.tail <= Encode(f) && c.wire == old(c.wire) + c.tail
      ensures e == None ==>
        && f == old(NextFrame(final, f.key, extra)) && f.Encodable() && f.key.Some? == c.Masks()
        && (extra != [] ==> !c.Masks())
        && c.log == old(c.log) + [f] && c.wire == old(c.wire) + Encode(f)
      ensures e.Some? ==> c.writeErr.Some? && c.log == old(c.log)
      ensures e in {None, Some(CloseSent), Some(Network), Some(InternalExtra)}
      ensures !(c.Masks() && extra != []) ==>
        if old(c.writeErr).Some? then e == old(c.writeErr)
        else e == if c.network(|old(c.wire)|) == None then None else Some(Network)
    {
      hide EncodeAll;
      var rsv := compress;
      compress := false;
      var maskFrame := c.Masks();
      var framePos, key := PutFrame(c.writeBuf, pos, final, rsv, frameType, maskFrame, extra);
      f := Frame(final, rsv, frameType, if maskFrame then Some(key) else None, old(Buffered()) + extra);
      if maskFrame && extra != [] {
        c.WriteFatal(InternalExtra);
        return Some(InternalExtra), f;
      }
      assert extra == [] ==> old(Buffered()) + extra == old(Buffered());
      assert extra == [] ==> c.writeBuf[framePos..pos] + extra == c.writeBuf[framePos..pos];
      e := c.Write(frameType, c.writeBuf[framePos..pos], extra, f);
    }

    function PayloadRoom(): (room: int)
      requires c.writeBuf != null
      reads this, c
      ensures Open() ==> room == Capacity() - (pos - HEADER_SIZE) && 0 <= room <= c.writeBuf.Length - pos
    {
      var room := c.writeBuf.Length - pos;
      var used := pos - HEADER_SIZE;
      var capped := if c.writeFrameSize > 0 && c.writeFrameSize - used < room then c.writeFrameSize - used else room;
      if capped < 0 then 0 else capped
    }

    /** Room for at least one octet, flushing a frame when the buffer or the frame is full. */
    method Ncopy(max: nat) returns (n: nat, e: Option<WriteError>)
      requires Open() && max > 0
      modifies this, c, c.writeBuf
      ensures c.Valid() && rsv1 == old(rsv1) && c.Later(false)
      ensures Caused(e)
      ensures old(sent) <= sent && c.log == old(c.log) + sent[|old(sent)|..]
      ensures Filled()
      ensures e == Some(InvalidControl) ==> |old(Buffered())| == Capacity()
      ensures IsControl(opcode) && e.Some? ==> e == Some(InvalidControl)
      ensures e == None ==> Open() && c.writeBuf == old(c.writeBuf) && c.writer == old(c.writer)
                            && 0 < n <= max && n <= PayloadRoom() && Taken() == old(Taken())
      ensures e.Some? ==> Ended() && err == e
    {
      hide EncodeAll, Payloads, OpenFragments, Framed, Capped, CausedBy;
      NotYet();
      n, e := PayloadRoom(), None;
      if n <= 0 {
        e := FlushFrame(false, []);
        if e.Some? {
          return 0, e;
        }
        FlushedPayload([]);
        n := PayloadRoom();
      }
      if n > max {
        n := max;
      }
    }

    /** Flushing moves the buffered payload, and extra after it, into a frame; nothing is lost or repeated. */
    twostate lemma FlushedPayload(extra: seq<byte>)
      requires old(Open()) && Open() && pos == HEADER_SIZE
      requires |sent| == |old(sent)| + 1 && sent[..|old(sent)|] == old(sent)
      requires sent[|old(sent)|].payload == old(Buffered()) + extra
      ensures Taken() == old(Taken()) + extra
      ensures sent[|old(sent)|..] == [sent[|old(sent)|]]
    {
      hide EncodeAll, OpenFragments, Framed, Conn.Valid;
      var f := sent[|old(sent)|];
      assert sent == old(sent) + [f];
      PayloadsConcat(old(sent), [f]);
      assert Payloads([f]) == f.payload + Payloads([]) == f.payload;
      assert Buffered() == [];
      ConcatAssociative(Payloads(old(sent)), old(Buffered()), extra);
    }

    /** copy(w.c.writeBuf[w.pos:], p) */
    method Copy(p: seq<byte>)
      requires Open() && |p| <= PayloadRoom()
      modifies this`pos, c.writeBuf
      ensures Open() && Taken() == old(Taken()) + p && Buffered() == old(Buffered()) + p
    {
      ghost var buffered := Buffered();
      PutOctets(c.writeBuf, pos, p);
      pos := pos + |p|;
      assert c.writeBuf[..][HEADER_SIZE..pos] == buffered + p;
      ConcatAssociative(Payloads(sent), buffered, p);
    }

    /** As much of p as fits, at least one octet. */
    method CopyNext(p: seq<byte>) returns (k: nat, e: Option<WriteError>)
      requires Open() && p != []
      modifies this, c, c.writeBuf
      ensures c.Valid() && rsv1 == old(rsv1) && c.Later(false) && Caused(e) && Filled()
      ensures old(sent) <= sent && c.log == old(c.log) + sent[|old(sent)|..]
      ensures e == Some(InvalidControl) ==> |old(Buffered())| == Capacity()
      ensures IsControl(opcode) && e.Some? ==> e == Some(InvalidControl)
      ensures e == None ==> Open() && c.writeBuf == old(c.writeBuf) && c.writer == old(c.writer)
                            && 0 < k <= |p| && Taken() == old(Taken()) + p[..k] && Buffered() != [] && err == None
      ensures e.Some? ==> Ended() && err == e
    {
      hide EncodeAll, Payloads, OpenFragments, Capped, CausedBy, Framed, Conn.Valid;
      k, e := Ncopy(|p|);
      if e == None {
        Copy(p[..k]);
      }
    }

    /** The copying loop of Write and WriteString. */
    method CopyAll(p: seq<byte>) returns (n: nat, e: Option<WriteError>)
      requires Open()
      modifies this, c, c.writeBuf
      ensures c.Valid() && rsv1 == old(rsv1) && c.Later(false)
      ensures Caused(e)
      ensures old(sent) <= sent && c.log == old(c.log) + sent[|old(sent)|..]
      ensures Filled()
      ensures e == Some(InvalidControl) ==> |old(Taken())| + |p| > Capacity()
      ensures IsControl(opcode) && e.Some? ==> e == Some(InvalidControl)
      ensures e == None ==> Open() && n == |p| && Taken() == old(Taken()) + p && c.writer == old(c.writer)
                            && c.writeBuf == old(c.writeBuf) && (p != [] ==> Buffered() != [])
      ensures e.Some? ==> Ended() && n == 0 && err == e
    {
      hide EncodeAll, Payloads, OpenFragments, Capped, CausedBy, Framed, Conn.Valid, AllOf, Room;
      NotYet();
      NoneYet(sent, Capacity());
      var rest := p;
      ghost var done: seq<byte> := [];
      n, e := |p|, None;
      while |rest| > 0
        invariant Open() && c.writeBuf == old(c.writeBuf) && c.writer == old(c.writer)
        invariant rsv1 == old(rsv1) && c.Later(false) && Caused(None) && err == None
        invariant Filled()
        invariant done + rest == p && Taken() == old(Taken()) + done && (done != [] ==> Buffered() != [])
        invariant old(sent) <= sent && c.log == old(c.log) + sent[|old(sent)|..]
        invariant n == |p| && e == None
        decreases |rest|
      {
        ghost var before, log, writeErr := sent, c.log, c.writeErr;
        var k;
        k, e := CopyNext(rest);
        CausedTwice(opcode, c.Reliable(), err.Some?, old(c.writeErr), writeErr, c.writeErr, e);
        LogExtended(old(c.log), old(sent), log, before, c.log, sent);
        AllOfTwice(before, sent, |old(sent)|, Capacity());
        if e.Some? {
          return 0, e;
        }
        CopiedMore(old(Taken()), done, rest, k);
        done, rest := done + rest[..k], rest[k..];
      }
      assert done == p;
    }

    method Write(p: seq<byte>) returns (n: nat, e: Option<WriteError>)
      requires err == None ==> Open() && |p| <= MAX_SLICE
      modifies this, c, c.writeBuf
      ensures old(err).Some? ==> n == 0 && e == old(err) && unchanged(this) && unchanged(c)
      ensures old(err) == None ==>
        && c.Valid() && rsv1 == old(rsv1) && c.Later(false) && Caused(e)
        && old(sent) <= sent && c.log == old(c.log) + sent[|old(sent)|..]
      ensures old(err) == None && e == None ==>
        Open() && err == None && n == |p| && Taken() == old(Taken()) + p && c.writer == old(c.writer)
        && c.writeBuf == old(c.writeBuf)
        && if old(Large(p)) then
             && |sent| == |old(sent)| + 1 && sent[..|old(sent)|] == old(sent)
             && sent[|old(sent)|].payload == old(Buffered()) + p && Buffered() == []
           else p != [] ==> Buffered() != []
      ensures old(err) == None && e.Some? ==> Ended() && n == 0 && err == e
      ensures old(err) == None ==> if old(Large(p)) then e.Some? ==> sent == old(sent) else Filled()
      ensures old(err) == None && e == Some(InvalidControl) ==> |old(Taken())| + |p| > Capacity()
      ensures old(err) == None && IsControl(opcode) && e.Some? ==> e == Some(InvalidControl)
    {
      if err.Some? {
        return 0, err;
      }
      n, e := WriteOpen(p);
    }

    /** Write, to a message that is open. */
    method WriteOpen(p: seq<byte>) returns (n: nat, e: Option<WriteError>)
      requires Open() && |p| <= MAX_SLICE
      modifies this, c, c.writeBuf
      ensures c.Valid() && rsv1 == old(rsv1) && c.Later(false) && Caused(e)
      ensures old(sent) <= sent && c.log == old(c.log) + sent[|old(sent)|..]
      ensures e == None ==>
        Open() && err == None && n == |p| && Taken() == old(Taken()) + p && c.writer == old(c.writer)
        && c.writeBuf == old(c.writeBuf)
      ensures e == None && old(Large(p)) ==>
        && |sent| == |old(sent)| + 1 && sent[..|old(sent)|] == old(sent)
        && sent[|old(sent)|].payload == old(Buffered()) + p && Buffered() == []
      ensures e == None && !old(Large(p)) && p != [] ==> Buffered() != []
      ensures e.Some? ==> Ended() && n == 0 && err == e
      ensures if old(Large(p)) then e.Some? ==> sent == old(sent) else Filled()
      ensures e == Some(InvalidControl) ==> |old(Taken())| + |p| > Capacity()
      ensures IsControl(opcode) && e.Some? ==> e == Some(InvalidControl)
      ensures old(sent) == [] && old(Buffered()) == [] ==> c.WithinCap(sent)
    {
      assert c.writeBuf != null && err == None;
      assert 0 < c.writeFrameSize ==> Capacity() <= c.writeFrameSize;
      hide EncodeAll, Payloads, OpenFragments, Capped, CausedBy, Framed, Conn.Valid, Open, AllOf, Room;
      // Don't buffer large messages.
      if |p| > 2 * c.writeBuf.Length && c.isServer && (c.writeFrameSize == 0 || |p| <= c.writeFrameSize) {
        n, e := WriteLarge(p);
        assert [] + p == p;
      } else {
        n, e := CopyAll(p);
      }
      if old(sent) == [] && old(Buffered()) == [] {
        WrittenWithinCap(p, old(Large(p)));
      }
    }

    method WriteLarge(p: seq<byte>) returns (n: nat, e: Option<WriteError>)
      requires Open() && Large(p) && |p| <= MAX_SLICE
      modifies this, c, c.writeBuf
      ensures c.Valid() && rsv1 == old(rsv1) && c.Later(false) && Caused(e)
      ensures old(sent) <= sent && c.log == old(c.log) + sent[|old(sent)|..]
      ensures e == None ==>
        && Open() && err == None && n == |p| && Taken() == old(Taken()) + p && c.writer == old(c.writer)
        && c.writeBuf == old(c.writeBuf) && Buffered() == []
        && |sent| == |old(sent)| + 1 && sent[..|old(sent)|] == old(sent)
        && sent[|old(sent)|].payload == old(Buffered()) + p
      ensures e.Some? ==> Ended() && n == 0 && err == e && sent == old(sent)
      ensures IsControl(opcode) ==> e == Some(InvalidControl)
      ensures e == Some(InvalidControl) ==> IsControl(opcode) && |p| > Capacity()
    {
      hide EncodeAll, Payloads, OpenFragments, Capped, CausedBy, Framed;
      e := FlushFrame(false, p);
      n := 0;
      if e == None {
        FlushedPayload(p);
        n := |p|;
      }
    }

    /** Any number of writes. */
    method WriteParts(parts: seq<seq<byte>>) returns (e: Option<WriteError>)
      requires Open() && forall s :: s in parts ==> |s| <= MAX_SLICE
      modifies this, c, c.writeBuf
      ensures c.Valid() && rsv1 == old(rsv1) && c.Later(false) && Caused(e)
      ensures old(sent) <= sent && c.log == old(c.log) + sent[|old(sent)|..]
      ensures e == None ==> Open() && err == None && Taken() == old(Taken()) + Concat(parts)
                            && c.writer == old(c.writer) && c.writeBuf == old(c.writeBuf)
      ensures e.Some? ==> Ended() && err == e
    {
      hide EncodeAll, Payloads, OpenFragments, Capped, CausedBy, Framed, Conn.Valid, Filled, Large, Concat;
      NotYet();
      NoParts(Taken(), parts);
      e := None;
      for i := 0 to |parts|
        invariant Open() && c.writeBuf == old(c.writeBuf) && c.writer == old(c.writer)
        invariant rsv1 == old(rsv1) && c.Later(false) && e == None && Caused(None)
        invariant Taken() == old(Taken()) + Concat(parts[..i])
        invariant old(sent) <= sent && c.log == old(c.log) + sent[|old(sent)|..]
      {
        ghost var before, log, writeErr := sent, c.log, c.writeErr;
        var n;
        n, e := WriteOpen(parts[i]);
        CausedTwice(opcode, c.Reliable(), err.Some?, old(c.writeErr), writeErr, c.writeErr, e);
        LogExtended(old(c.log), old(sent), log, before, c.log, sent);
        if e.Some? {
          return;
        }
        OneMorePart(old(Taken()), parts, i);
      }
      assert parts[..|parts|] == parts;
    }

    /** From the first octet of a message to its Close. */
    method WriteAndClose(parts: seq<seq<byte>>) returns (e: Option<WriteError>)
      requires Begun(opcode, rsv1) && forall s :: s in parts ==> |s| <= MAX_SLICE
      modifies this, c, c.writeBuf
      ensures Ended() && c.Later(false) && Caused(e) && c.log == old(c.log) + sent
      ensures e == None ==>
        && rsv1 == old(rsv1)
        && WholeMessage(opcode, rsv1, sent) && Payloads(sent) == Concat(parts)
        && c.writeErr == if opcode == CLOSE then Some(CloseSent) else None
      ensures e.Some? ==> err == e
    {
      assert Taken() == [] by { NothingTaken(sent); }
      hide EncodeAll, WholeMessage, OpenFragments, Payloads, Concat, Capped, Conn.Valid, CausedBy, Open, Ended;
      e := WriteParts(parts);
      assert sent[0..] == sent;
      if e == None {
        ghost var written, writeErr := sent, c.writeErr;
        assert Taken() == Concat(parts);
        e := Close();
        CausedTwice(opcode, c.Reliable(), true, old(c.writeErr), writeErr, c.writeErr, e);
        LogExtended(old(c.log), [], old(c.log) + written, written, c.log, sent);
        assert sent[0..] == sent;
      }
    }

    /** What holds between them. */
    lemma WrittenFull(p: seq<byte>, large: bool)
      requires Open() && Taken() == p
      requires !large ==> AllOf(sent, 0, Capacity()) && (p != [] ==> Buffered() != [])
      ensures !large ==> AllFull()
      ensures |Buffered()| <= Capacity() && (IsControl(opcode) ==> Buffered() == p && sent == [])
    {
      ControlTaken();
      if sent != [] && !large {
        SomethingTaken(sent);
      }
    }

    lemma WrittenWithinCap(p: seq<byte>, large: bool)
      requires 0 < c.writeFrameSize ==> Capacity() <= c.writeFrameSize
      requires large ==> |sent| <= 1 && (0 < c.writeFrameSize ==> |p| <= c.writeFrameSize)
      requires if large then sent != [] ==> |sent[0].payload| == |p| else AllOf(sent, 0, Capacity())
      ensures c.WithinCap(sent)
    {
    }

    lemma LastWithinCap(before: seq<Frame>, fs: seq<Frame>)
      requires c.WithinCap(before)
      requires |before| <= |fs| <= |before| + 1 && fs[..|before|] == before
      requires |fs| > |before| ==> |fs[|before|].payload| <= Capacity()
      ensures c.WithinCap(fs)
    {
      forall i | 0 <= i < |before|
        ensures fs[i] == before[i]
      {
      }
    }

    /** One write and Close. */
    method WriteOnce(p: seq<byte>) returns (e: Option<WriteError>)
      requires Begun(opcode, rsv1) && |p| <= MAX_SLICE
      modifies this, c, c.writeBuf
      ensures Ended() && c.Later(false) && Caused(e) && c.log == old(c.log) + sent && c.WithinCap(sent)
      ensures e == None ==>
        && rsv1 == old(rsv1)
        && WholeMessage(opcode, rsv1, sent) && Payloads(sent) == p
        && (IsControl(opcode) ==> |sent| == 1)
        && c.writeErr == (if opcode == CLOSE then Some(CloseSent) else None)
        && (!old(Large(p)) ==> FullFrames(sent, Capacity()))
      ensures e.Some? ==> err == e
      ensures IsControl(opcode) ==>
        (e == Some(InvalidControl) <==> |p| > MAX_CONTROL_PAYLOAD || |p| > Capacity())
    {
      assert Taken() == [] && Buffered() + p == p && sent == [] by { NothingTaken(sent); }
      hide EncodeAll, WholeMessage, OpenFragments, Payloads, Capped, Conn.Valid, CausedBy, FullFrames, Framed;
      hide Large, AllOf, Room, AllFull, Conn.WithinCap, Filled;
      var n;
      n, e := WriteOpen(p);
      assert sent[0..] == sent;
      if e == None {
        ghost var written, writeErr := sent, c.writeErr;
        e := CloseAfter(p, old(Large(p)));
        CausedTwice(opcode, c.Reliable(), true, old(c.writeErr), writeErr, c.writeErr, e);
        LogExtended(old(c.log), [], old(c.log) + written, written, c.log, sent);
        assert sent[0..] == sent;
      }
    }

    /** Close, when p is all that was written, at once. */
    method CloseAfter(ghost p: seq<byte>, ghost large: bool) returns (e: Option<WriteError>)
      requires Open() && Taken() == p && c.WithinCap(sent)
      requires !large ==> AllOf(sent, 0, Capacity()) && (p != [] ==> Buffered() != [])
      modifies this, c, c.writeBuf
      ensures Ended() && old(sent) <= sent && c.log == old(c.log) + sent[|old(sent)|..]
      ensures c.Later(false) && Caused(e) && c.WithinCap(sent)
      ensures IsControl(opcode) ==> |p| <= Capacity() && (e == Some(InvalidControl) <==> |p| > MAX_CONTROL_PAYLOAD)
      ensures e == None ==>
        && c.writeErr == (if opcode == CLOSE then Some(CloseSent) else None)
        && WholeMessage(opcode, rsv1, sent) && rsv1 == old(rsv1) && Payloads(sent) == p
        && (IsControl(opcode) ==> |sent| == 1)
        && (!large ==> FullFrames(sent, Capacity()))
      ensures e.Some? ==> err == e
    {
      hide EncodeAll, WholeMessage, OpenFragments, Payloads, Capped, Conn.Valid, CausedBy, FullFrames, Framed, AllOf;
      hide Room, AllFull;
      ghost var written := sent;
      WrittenFull(p, large);
      e := Close();
      LastWithinCap(written, sent);
    }

    /** A whole message as one frame: what does not fit in the buffer goes out as extra. */
    method SendWhole(data: seq<byte>) returns (e: Option<WriteError>)
      requires Begun(opcode, false) && |data| <= MAX_SLICE
      requires c.isServer && (c.writeFrameSize == 0 || |data| <= c.writeFrameSize)
      modifies this, c, c.writeBuf
      ensures Ended() && c.log == old(c.log) + sent && c.Later(false) && Caused(e)
      ensures c.WithinCap(sent)
      ensures e == None ==> WholeMessage(opcode, false, sent) && Payloads(sent) == data && |sent| == 1
                            && c.writeErr == if opcode == CLOSE then Some(CloseSent) else None
      ensures e.Some? ==> err == e
      ensures e == Some(InvalidControl) <==> IsControl(opcode) && |data| > MAX_CONTROL_PAYLOAD
    {
      hide EncodeAll, Encode, WholeMessage, OpenFragments, Payloads, Capped, CausedBy;
      NothingTaken(sent);
      var room := c.writeBuf.Length - pos;
      var n := if |data| <= room then |data| else room;
      assert Buffered() == [];
      Copy(data[..n]);
      assert Buffered() == data[..n];
      var extra := data[n..];
      Rejoin(data, n);
      e := FlushFrame(true, extra);
      if e == None {
        LastPayload([], sent);
      }
    }

    method WriteString(p: seq<byte>) returns (n: nat, e: Option<WriteError>)
      requires err == None ==> Open()
      modifies this, c, c.writeBuf
      ensures old(err).Some? ==> n == 0 && e == old(err) && unchanged(this) && unchanged(c)
      ensures old(err) == None ==>
        && c.Valid() && rsv1 == old(rsv1) && c.Later(false) && Caused(e)
        && old(sent) <= sent && c.log == old(c.log) + sent[|old(sent)|..] && Filled()
      ensures old(err) == None && e == Some(InvalidControl) ==> |old(Taken())| + |p| > Capacity()
      ensures old(err) == None && IsControl(opcode) && e.Some? ==> e == Some(InvalidControl)
      ensures old(err) == None && e == None ==>
        Open() && n == |p| && Taken() == old(Taken()) + p && c.writer == old(c.writer)
        && c.writeBuf == old(c.writeBuf)
      ensures old(err) == None && e.Some? ==> Ended() && n == 0 && err == e
    {
      if err.Some? {
        return 0, err;
      }
      n, e := CopyAll(p);
    }

    method FlushIfFull() returns (e: Option<WriteError>)
      requires Open()
      modifies this, c, c.writeBuf
      ensures c.Valid() && rsv1 == old(rsv1) && c.Later(false)
      ensures Caused(e)
      ensures old(sent) <= sent && c.log == old(c.log) + sent[|old(sent)|..]
      ensures Filled()
      ensures e == Some(InvalidControl) ==> |old(Buffered())| == Capacity()
      ensures IsControl(opcode) && e.Some? ==> e == Some(InvalidControl)
      ensures e == None ==> Open() && c.writeBuf == old(c.writeBuf) && c.writer == old(c.writer)
                            && 0 < PayloadRoom() && Taken() == old(Taken())
      ensures e.Some? ==> Ended() && err == e
    {
      hide EncodeAll, Payloads, OpenFragments, Framed, Capped, CausedBy;
      NotYet();
      e := None;
      if PayloadRoom() == 0 {
        e := FlushFrame(false, []);
        if e == None {
          FlushedPayload([]);
        }
      }
    }

    /** One read of r, clamped to the room left in the frame. */
    method Fill(r: ChunkReader) returns (p: seq<byte>, ended: bool, e: Option<WriteError>)
      requires Open() && 0 < PayloadRoom()
      modifies this`pos, c.writeBuf, r
      ensures Open() && Taken() == old(Taken()) + p && p + r.Content() == old(r.Content())
      ensures ended ==> r.chunks == [] && e == if r.fails then Some(Source) else None
      ensures !ended ==> e == None && r.Size() < old(r.Size())
    {
      p, ended, e := r.Read(PayloadRoom());
      Copy(p);
    }

    /** A frame that is full goes out before r is read, even if r has no more. */
    method FlushAndFill(r: ChunkReader) returns (p: seq<byte>, ended: bool, e: Option<WriteError>)
      requires Open()
      modifies this, c, c.writeBuf, r
      ensures c.Valid() && rsv1 == old(rsv1) && c.Later(false) && Caused(err) && Filled()
      ensures old(sent) <= sent && c.log == old(c.log) + sent[|old(sent)|..]
      ensures err == None ==>
        && Open() && c.writeBuf == old(c.writeBuf) && c.writer == old(c.writer)
        && Taken() == old(Taken()) + p && p + r.Content() == old(r.Content())
        && if ended then r.chunks == [] && e == if r.fails then Some(Source) else None
           else e == None && r.Size() < old(r.Size())
      ensures err.Some? ==> Ended() && e == err && r.chunks == old(r.chunks)
      ensures err == Some(InvalidControl) ==> |old(Buffered())| == Capacity()
    {
      hide EncodeAll, Payloads, OpenFragments, Capped, CausedBy;
      p, ended := [], false;
      e := FlushIfFull();
      if e == None {
        p, ended, e := Fill(r);
      }
    }

    /** Reads r to its end straight into the write buffer. An error of r leaves the message open. */
    method ReadFrom(r: ChunkReader) returns (nn: nat, e: Option<WriteError>)
      requires err == None ==> Open()
      modifies this, c, c.writeBuf, r
      ensures old(err).Some? ==> nn == 0 && e == old(err) && unchanged(this) && unchanged(c)
      ensures old(err) == None ==>
        && c.Valid() && rsv1 == old(rsv1) && c.Later(false) && Caused(err)
        && old(sent) <= sent && c.log == old(c.log) + sent[|old(sent)|..] && Filled()
      ensures old(err) == None && err == Some(InvalidControl) ==> |old(Taken())| + |old(r.Content())| >= Capacity()
      ensures old(err) == None && err == None ==>
        && Open() && c.writer == old(c.writer) && c.writeBuf == old(c.writeBuf)
        && r.chunks == [] && nn == |old(r.Content())| && Taken() == old(Taken()) + old(r.Content())
        && e == if r.fails then Some(Source) else None
      ensures old(err) == None && err.Some? ==> Ended() && err == e
    {
      if err.Some? {
        return 0, err;
      }
      hide EncodeAll, Payloads, OpenFragments, Capped, CausedBy, Framed, Conn.Valid, AllOf, Room;
      NotYet();
      NoneYet(sent, Capacity());
      nn, e := 0, None;
      ghost var done: seq<byte> := [];
      var ended := false;
      while !ended
        invariant Open() && c.writeBuf == old(c.writeBuf) && c.writer == old(c.writer)
        invariant rsv1 == old(rsv1) && c.Later(false) && Caused(None) && err == None
        invariant Filled()
        invariant done + r.Content() == old(r.Content()) && nn == |done| && Taken() == old(Taken()) + done
        invariant old(sent) <= sent && c.log == old(c.log) + sent[|old(sent)|..]
        invariant ended ==> r.chunks == [] && e == if r.fails then Some(Source) else None
        decreases !ended, r.Size()
      {
        ghost var before, log, writeErr := sent, c.log, c.writeErr;
        var p;
        p, ended, e := FlushAndFill(r);
        CausedTwice(opcode, c.Reliable(), err.Some?, old(c.writeErr), writeErr, c.writeErr, err);
        LogExtended(old(c.log), old(sent), log, before, c.log, sent);
        AllOfTwice(before, sent, |old(sent)|, Capacity());
        if err.Some? {
          return;
        }
        ReadMore(old(Taken()), done, p, r.Content());
        done := done + p;
        nn := nn + |p|;
      }
    }

    method Close() returns (e: Option<WriteError>)
      requires err == None ==> Open()
      modifies this, c, c.writeBuf
      ensures old(err).Some? ==> e == old(err) && unchanged(this) && unchanged(c)
      ensures old(err) == None ==>
        && Ended() && old(sent) <= sent && c.log == old(c.log) + sent[|old(sent)|..]
        && c.Later(false) && Caused(e)
      ensures old(err) == None ==>
        (e == Some(InvalidControl) <==> IsControl(opcode) && |old(Buffered())| > MAX_CONTROL_PAYLOAD)
      ensures old(err) == None && e == None ==>
        c.writeErr == (if opcode == CLOSE then Some(CloseSent) else None) &&
        WholeMessage(opcode, rsv1, sent) && rsv1 == old(rsv1) && Payloads(sent) == old(Taken())
        && |sent| == |old(sent)| + 1 && sent[|old(sent)|].payload == old(Buffered())
        && (old(AllFull()) ==> FullFrames(sent, Capacity()))
      ensures old(err) == None && e.Some? ==> err == e && sent == old(sent)
    {
      hide EncodeAll, Encode, OpenFragments, WholeMessage, Payloads, Capped, CausedBy, FullFrames;
      if err.Some? {
        return err;
      }
      ghost var last := Buffered();
      e := FlushFrame(true, []);
      if e == None {
        assert last + [] == last;
        if old(AllFull()) {
          LastFrame(old(sent), sent, last, Capacity());
        }
        LastPayload(old(sent), sent);
        assert old(Buffered()) + [] == old(Buffered());
      }
    }
  }

  /**
   On every server whose write buffer is less than half its frame cap, an octet and then a cap's worth of octets make
   a frame beyond the cap, if the network takes them.
   */
  method BeyondCap(c: Conn) returns (e: Option<WriteError>, ghost f: Frame)
    requires c.Valid() && c.isServer && c.writeBuf != null && c.writeFrameSize <= MAX_SLICE
    requires 2 * c.writeBuf.Length < c.writeFrameSize
    modifies c, c.writeBuf
    ensures e == None ==> f in c.log && |f.payload| > c.writeFrameSize
    ensures old(c.Ready()) && c.Reliable() ==> e == None
  {
    hide EncodeAll, Payloads, OpenFragments, Capped;
    f := Frame(false, false, BINARY, None, []);
    var first: seq<byte> := [65];
    var second: seq<byte> := seq(c.writeFrameSize, _ => 66);
    var mw, stack, n;
    mw, stack, e := c.NextWriter(BINARY);
    if e == None {
      n, e := mw.Write(first);
      if e == None {
        ghost var before := mw.sent;
        n, e := mw.Write(second);
        f := if e == None then mw.sent[|before|] else f;
        assert e == None ==> mw.sent[|before|..][0] == f;
      }
    }
  }

  /** A client whose frames are capped at 10 octets cannot send a ping of 20 octets through WriteMessage. */
  method RefusedPing() returns (e: Option<WriteError>)
    ensures e == Some(InvalidControl)
  {
    var c := new Conn(false, false, false, false, false, 4096, null, 10, k => None);
    ghost var fs;
    e, fs := c.WriteMessage(PING, seq(20, _ => 65), []);
  }

  lemma LastPayload(before: seq<Frame>, sent: seq<Frame>)
    requires |sent| == |before| + 1 && sent[..|before|] == before
    ensures Payloads(sent) == Payloads(before) + sent[|before|].payload
    ensures sent[|before|..] == [sent[|before|]]
  {
    var f := sent[|before|];
    assert sent == before + [f];
    PayloadsConcat(before, [f]);
    assert Payloads([f]) == f.payload + Payloads([]) == f.payload;
  }

  /** An io.Reader that delivers its octets in given chunks, some perhaps empty, and then ends or fails. */
  class ChunkReader {
    var chunks: seq<seq<byte>>
    const fails: bool

    constructor (chunks: seq<seq<byte>>, fails: bool)
      ensures this.chunks == chunks && this.fails == fails
    {
      this.chunks, this.fails := chunks, fails;
    }

    ghost function Content(): seq<byte>
      reads this
    {
      Concat(chunks)
    }

    ghost function Size(): nat
      reads this
    {
      |chunks| + |Content()|
    }

    /** At most `room` octets; the end may be reported with the last of them or on its own. */
    method Read(room: nat) returns (p: seq<byte>, ended: bool, e: Option<WriteError>)
      requires room > 0
      modifies this
      ensures |p| <= room && p + Content() == old(Content())
      ensures ended ==> chunks == [] && e == if fails then Some(Source) else None
      ensures !ended ==> e == None && Size() < old(Size())
    {
      p, ended, e := [], false, None;
      if chunks != [] {
        var chunk := chunks[0];
        if |chunk| <= room {
          p, chunks := chunk, chunks[1..];
        } else {
          p := chunk[..room];
          chunks := [chunk[room..]] + chunks[1..];
          assert p + (chunk[room..] + Concat(chunks[1..])) == chunk + Concat(chunks[1..]);
        }
        var early: bool := *;
        if chunks != [] || !early {
          return;
        }
      }
      ended, e := true, if fails then Some(Source) else None;
    }
  }

  lemma Rejoin<T>(s: seq<T>, n: nat)
    requires n <= |s|
    ensures s[..n] + s[n..] == s
  {
  }

  lemma CopiedMore<T>(taken: seq<T>, done: seq<T>, rest: seq<T>, k: nat)
    requires k <= |rest|
    ensures done + rest == (done + rest[..k]) + rest[k..]
    ensures (taken + done) + rest[..k] == taken + (done + rest[..k])
  {
  }

  lemma ReadMore<T>(taken: seq<T>, done: seq<T>, p: seq<T>, rest: seq<T>)
    ensures (taken + done) + p == taken + (done + p) && done + (p + rest) == (done + p) + rest
  {
  }

  lemma NoParts(taken: seq<byte>, parts: seq<seq<byte>>)
    ensures taken + Concat(parts[..0]) == taken
  {
  }

  lemma OneMorePart(taken: seq<byte>, parts: seq<seq<byte>>, i: nat)
    requires i < |parts|
    ensures (taken + Concat(parts[..i])) + parts[i] == taken + Concat(parts[..i + 1])
  {
    assert parts[..i + 1] == parts[..i] + [parts[i]];
    ConcatAppend(parts[..i], parts[i]);
    ConcatAssociative(taken, Concat(parts[..i]), parts[i]);
  }

  lemma NoneYet(fs: seq<Frame>, room: int)
    ensures AllOf(fs, |fs|, room)
  {
  }

  lemma AllOfTwice(fs: seq<Frame>, gs: seq<Frame>, k: nat, room: int)
    requires k <= |fs| && fs <= gs && AllOf(fs, k, room) && AllOf(gs, |fs|, room)
    ensures AllOf(gs, k, room)
  {
  }

  lemma LogExtended(l0: seq<Frame>, s0: seq<Frame>, l1: seq<Frame>, s1: seq<Frame>, l2: seq<Frame>, s2: seq<Frame>)
    requires s0 <= s1 <= s2
    requires l1 == l0 + s1[|s0|..] && l2 == l1 + s2[|s1|..]
    ensures s0 <= s2 && l2 == l0 + s2[|s0|..]
  {
    assert s2[|s0|..] == s1[|s0|..] + s2[|s1|..];
  }
}
