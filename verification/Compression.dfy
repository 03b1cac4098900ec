/**
 The plumbing of permessage-deflate in compression.go: the writer that holds back the last four octets of each
 message, and the window that stands in for the decoder's history between messages (sections 7.2.1 and 7.2.2
 of RFC 7692). DEFLATE itself appears as LZ77 tokens.
 */
module Compression {
  import opened Bytes
  import opened Frames

  const TAIL: seq<byte> := [0x00, 0x00, 0xFF, 0xFF]           // deflateMessageTail
  const FINAL_BLOCK: seq<byte> := [0x01, 0x00, 0x00, 0xFF, 0xFF]
  const MAX_WINDOW: nat := 32768                              // maxWindowBits
  const MAX_DISTANCE: nat := 32768                            // of DEFLATE, section 3.2.5 of RFC 1951

  /** The constants are empty stored blocks, section 3.2.4 of RFC 1951: no octets, and the complement of that number. */
  lemma EmptyBlocks()
    ensures FromLE(TAIL[..2]) == 0 && FromLE(TAIL[2..]) == 0xFFFF - FromLE(TAIL[..2])
    ensures FINAL_BLOCK[0] % 2 == 1 && FINAL_BLOCK[0] / 2 % 4 == 0 && FINAL_BLOCK[1..] == TAIL
  {
    assert TAIL[..2][1..] == [0x00] && TAIL[2..][1..] == [0xFF];
    assert FromLE([0xFF]) == 0xFF + 256 * FromLE([]);
    assert FromLE([0x00]) == 0x00 + 256 * FromLE([]);
  }

  /** The last n octets of s, or all of them. */
  function Last(s: seq<byte>, n: nat): (r: seq<byte>)
    ensures |r| == if |s| < n then |s| else n
  {
    if |s| < n then s else s[|s| - n..]
  }

  function Least(a: int, b: int): int {
    if a < b then a else b
  }

  function ButLast(s: seq<byte>, n: nat): seq<byte> {
    if |s| < n then [] else s[..|s| - n]
  }

  // ----- the truncating writer -----

  /** The destination of one message; a write may fail after some of its octets, and so may its Close. */
  class Sink {
    const takes: nat -> Option<nat>     // after k octets it takes all of the next write, or fails n octets into it
    const closes: bool
    var out: seq<byte>
    var closed: bool

    constructor (takes: nat -> Option<nat>, closes: bool)
      ensures out == [] && !closed && this.takes == takes && this.closes == closes
    {
      this.takes, this.closes, out, closed := takes, closes, [], false;
    }

    ghost predicate Reliable() {
      closes && forall k: nat :: takes(k) == None
    }

    method Close() returns (ok: bool)
      modifies this`closed
      ensures closed && ok == closes
    {
      ok := closes;
      closed := true;
    }

    method Write(p: seq<byte>) returns (n: nat, ok: bool)
      modifies this`out
      ensures n <= |p| && out == old(out) + p[..n] && (ok ==> n == |p|)
      ensures ok <==> takes(|old(out)|) == None
    {
      n, ok := |p|, true;
      var short := takes(|out|);
      if short.Some? {
        n, ok := if short.value < |p| then short.value else |p|, false;
      }
      out := out + p[..n];
    }
  }

  class TruncWriter {
    var w: Sink
    var n: nat
    const p: array<byte>
    ghost var received: seq<byte>       // everything written for the current message

    constructor (w: Sink)
      requires w.out == []
      ensures Valid() && this.w == w && received == [] && fresh(p)
    {
      this.w, n, received := w, 0, [];
      p := new byte[4](_ => 0);
    }

    /** All but the last four octets received have been passed on; those four are held, in order. */
    ghost predicate Valid()
      reads this, w, p
    {
      && p.Length == 4 && n <= 4 && p[..n] == Last(received, 4)
      && w.out == ButLast(received, 4)
      && forall i :: n <= i < 4 ==> p[i] == 0
    }

    /** newCompressionWriter: a new destination, and nothing held. */
    method Retarget(w: Sink)
      requires p.Length == 4 && w.out == []
      modifies this, p
      ensures Valid() && this.w == w && received == []
    {
      this.w, n, received := w, 0, [];
      forall i | 0 <= i < 4 {
        p[i] := 0;
      }
    }

    method Write(q: seq<byte>) returns (count: nat, ok: bool)
      requires Valid()
      modifies this`n, this`received, p, w`out
      ensures received == old(received) + q
      ensures w.Reliable() ==> ok
      ensures ok ==> Valid() && count == |q| - Least(4, |w.out| - |old(w.out)|)
      ensures !ok ==> p.Length == 4 && old(w.out) <= w.out <= received
    {
      count, ok := 0, true;
      var rest := q;
      // Fill buffer first for simplicity.
      if n < 4 {
        count := if |rest| < 4 - n then |rest| else 4 - n;
        Fill(rest[..count]);
        rest := rest[count..];
        assert q == q[..count] + rest;
        if |rest| == 0 {
          return;
        }
        ConcatAssociative(old(received), q[..count], rest);
      }
      ok, count := Shift(rest, count);
    }

    /** The first octets go into the free part of the buffer. */
    method Fill(q: seq<byte>)
      requires Valid() && n + |q| <= 4
      modifies this`n, this`received, p
      ensures Valid() && received == old(received) + q && n == old(n) + |q|
    {
      forall i | 0 <= i < |q| {
        p[n + i] := q[i];
      }
      n := n + |q|;
      received := received + q;
      assert p[..n] == old(p[..n]) + q;
    }

    /** With a full buffer, as many held octets leave as new ones come, at most four. */
    method Shift(rest: seq<byte>, count0: nat) returns (ok: bool, count: nat)
      requires Valid() && n == 4
      modifies this`received, p, w`out
      ensures received == old(received) + rest
      ensures w.Reliable() ==> ok
      ensures ok ==> Valid() && |w.out| == |old(w.out)| + |rest| && count == count0 + |rest| - Least(4, |rest|)
      ensures !ok ==> p.Length == 4 && old(w.out) <= w.out <= received
    {
      hide Last, ButLast;
      FullBuffer(w.out, p[..], received);
      var m := if |rest| > 4 then 4 else |rest|;
      ghost var out, held := w.out, p[..];
      received := received + rest;
      var nn;
      nn, ok := w.Write(p[..m]);
      if !ok {
        StillPrefix(out, held, nn, rest);
        return ok, count0 + nn;
      }
      MoveUp(rest, m);
      Shuffle(out, held, rest, m);
      nn, ok := w.Write(rest[..|rest| - m]);
      count := count0 + nn;
      if ok {
        FullBuffer(w.out, p[..], received);
      } else {
        StillPrefix(out + held[..m], rest[..|rest| - m], nn, held[m..] + rest[|rest| - m..]);
      }
    }

    /** copy(w.p[:], w.p[m:]); copy(w.p[len(w.p)-m:], p[len(p)-m:]) */
    method MoveUp(rest: seq<byte>, m: nat)
      requires p.Length == 4 && m <= 4 && m <= |rest|
      modifies p
      ensures p[..] == old(p[m..]) + rest[|rest| - m..]
    {
      var kept := p[m..];
      forall i | 0 <= i < 4 - m {
        p[i] := kept[i];
      }
      forall i | 0 <= i < m {
        p[4 - m + i] := rest[|rest| - m + i];
      }
    }
  }

  lemma FullBuffer(out: seq<byte>, held: seq<byte>, received: seq<byte>)
    requires |held| == 4
    ensures held == Last(received, 4) && out == ButLast(received, 4) && |received| >= 4 <==> received == out + held
  {
    if |received| >= 4 {
      assert received == received[..|received| - 4] + received[|received| - 4..];
    }
  }

  lemma StillPrefix(out: seq<byte>, p: seq<byte>, n: nat, rest: seq<byte>)
    requires n <= |p|
    ensures out + p[..n] <= (out + p) + rest
  {
    assert (out + p) + rest == (out + p[..n]) + (p[n..] + rest);
  }

  /** Moving m octets from the end of the new data into the buffer keeps the order of the stream. */
  lemma Shuffle(out: seq<byte>, held: seq<byte>, rest: seq<byte>, m: nat)
    requires m <= |rest| && |held| == 4 && (m == 4 || m == |rest|) && m <= 4
    ensures (out + held) + rest ==
            ((out + held[..m]) + rest[..|rest| - m]) + (held[m..] + rest[|rest| - m..])
  {
    assert held == held[..m] + held[m..];
    assert rest == rest[..|rest| - m] + rest[|rest| - m..];
    if m < 4 {
      assert rest[..|rest| - m] == [];
    } else {
      assert held[m..] == [];
    }
  }

  // ----- one compressed message on the write side -----

  predicate EndsWith(s: seq<byte>, t: seq<byte>) {
    |s| >= |t| && s[|s| - |t|..] == t
  }

  /** The persistent state of the writing side; one wrapper per message retargets the truncating writer. */
  class TakeoverWriterFactory {
    const tw: TruncWriter

    constructor ()
      ensures tw.p.Length == 4 && fresh(this) && fresh(tw) && fresh(tw.p)
    {
      var w := new Sink(k => None, true);
      tw := new TruncWriter(w);
    }

    /**
     newCompressionWriter, the compressor's writes of one message up to its flush, and Close. The chunks are
     what the compressor writes. Without a failure of the destination, Close succeeds exactly when the
     compressor's output ends in the tail; then the destination is closed too, and what was passed on, with the
     tail put back, is that output.
     */
    method WriteMessage(w: Sink, chunks: seq<seq<byte>>) returns (closed: bool, failed: bool)
      requires tw.p.Length == 4 && w.out == [] && !w.closed
      modifies tw, tw.p, w
      ensures tw.p.Length == 4 && tw.w == w
      ensures w.Reliable() ==> !failed
      ensures !failed ==> (closed <==> EndsWith(Concat(chunks), TAIL))
      ensures closed ==> !failed && w.closed && w.closes && w.out + TAIL == Concat(chunks)
      ensures w.out <= Concat(chunks)
    {
      tw.Retarget(w);
      failed := WriteChunks(w, chunks);
      closed := false;
      if tw.p[..] == TAIL {
        var ok := w.Close();
        failed := failed || !ok;
        closed := !failed;
      }
      if !failed {
        TailHeld(tw.received, tw.p[..tw.n]);
        if tw.p[..] == TAIL {
          assert tw.p[3] == tw.p[..][3] == 0xFF;
          assert tw.n == 4;
        }
        if tw.n == 4 {
          assert tw.p[..tw.n] == tw.p[..];
        }
      }
    }

    /** The compressor's writes, until one fails. */
    method WriteChunks(w: Sink, chunks: seq<seq<byte>>) returns (failed: bool)
      requires tw.Valid() && tw.w == w && tw.received == []
      modifies tw`n, tw`received, tw.p, w`out
      ensures tw.p.Length == 4 && tw.w == w && w.out <= Concat(chunks)
      ensures w.Reliable() ==> !failed
      ensures !failed ==> tw.Valid() && tw.received == Concat(chunks)
    {
      var i := 0;
      assert chunks[0..] == chunks;
      while i < |chunks|
        invariant i <= |chunks| && tw.Valid() && tw.w == w
        invariant tw.received + Concat(chunks[i..]) == Concat(chunks)
      {
        assert Concat(chunks[i..]) == chunks[i] + Concat(chunks[i + 1..]);
        ConcatAssociative(tw.received, chunks[i], Concat(chunks[i + 1..]));
        var count, ok := tw.Write(chunks[i]);
        if !ok {
          assert tw.received <= Concat(chunks);
          return true;
        }
        i := i + 1;
      }
      assert tw.received == Concat(chunks);
      TailHeld(tw.received, tw.p[..tw.n]);
      return false;
    }
  }

  lemma TailHeld(s: seq<byte>, held: seq<byte>)
    requires held == Last(s, 4)
    ensures held == TAIL <==> EndsWith(s, TAIL)
    ensures held == TAIL ==> ButLast(s, 4) + TAIL == s
    ensures ButLast(s, 4) <= s
  {
  }

  // ----- LZ77 with history -----

  datatype Token = Literal(b: byte) | Copy(length: nat, distance: nat)

  /** What a decoder puts out, and whether it got to the end of the tokens. */
  datatype Inflated = Inflated(out: seq<byte>, ok: bool)

  /** length octets from `distance` back; the copy may overlap what it produces. */
  function CopyBack(history: seq<byte>, length: nat, distance: nat): (r: seq<byte>)
    requires 0 < distance <= |history|
    ensures |r| == length
    decreases length
  {
    if length == 0 then []
    else
      var b := history[|history| - distance];
      [b] + CopyBack(history + [b], length - 1, distance)
  }

  /** A distance that reaches before the history is an error. */
  function Expand(history: seq<byte>, t: Token): Option<seq<byte>> {
    match t
    case Literal(b) => Some([b])
    case Copy(length, distance) =>
      if 0 < distance <= |history| then Some(CopyBack(history, length, distance)) else None
  }

  function Inflate(history: seq<byte>, ts: seq<Token>): Inflated
    decreases |ts|
  {
    if ts == [] then Inflated([], true)
    else
      match Expand(history, ts[0])
      case None => Inflated([], false)
      case Some(out) =>
        var r := Inflate(history + out, ts[1..]);
        Inflated(out + r.out, r.ok)
  }

  predicate Reachable(ts: seq<Token>) {
    forall i :: 0 <= i < |ts| && ts[i].Copy? ==> ts[i].distance <= MAX_DISTANCE
  }

  /** w is the end of h, and long enough for every distance. */
  predicate Covers(w: seq<byte>, h: seq<byte>) {
    |w| <= |h| && w == h[|h| - |w|..] && (w == h || |w| >= MAX_DISTANCE)
  }

  lemma CoversGrows(w: seq<byte>, h: seq<byte>, out: seq<byte>)
    requires Covers(w, h)
    ensures Covers(w + out, h + out)
  {
    assert (h + out)[|h| - |w|..] == h[|h| - |w|..] + out;
  }

  lemma {:induction false} CopyFromWindow(w: seq<byte>, h: seq<byte>, length: nat, distance: nat)
    requires Covers(w, h) && 0 < distance <= |w|
    ensures CopyBack(w, length, distance) == CopyBack(h, length, distance)
    decreases length
  {
    if length > 0 {
      var b := h[|h| - distance];
      assert w[|w| - distance] == b;
      CoversGrows(w, h, [b]);
      CopyFromWindow(w + [b], h + [b], length - 1, distance);
    }
  }

  /** A decoder that knows only the window decodes as one that knows the whole history. */
  lemma {:induction false} WindowDecodes(w: seq<byte>, h: seq<byte>, ts: seq<Token>)
    requires Covers(w, h) && Reachable(ts)
    ensures Inflate(w, ts) == Inflate(h, ts)
    decreases |ts|
  {
    if ts != [] {
      if ts[0].Copy? && 0 < ts[0].distance <= |w| {
        CopyFromWindow(w, h, ts[0].length, ts[0].distance);
      }
      assert Expand(w, ts[0]) == Expand(h, ts[0]);
      match Expand(h, ts[0])
      case None =>
      case Some(out) =>
        CoversGrows(w, h, out);
        WindowDecodes(w + out, h + out, ts[1..]);
    }
  }

  // ----- the sliding window on the read side -----

  lemma LastOfLast(h: seq<byte>, c: seq<byte>, n: nat)
    ensures Last(Last(h, n) + c, n) == Last(h + c, n)
  {
  }

  lemma LastCovers(h: seq<byte>)
    ensures Covers(Last(h, MAX_WINDOW), h)
  {
  }

  /** The reading side: a decoder reset for every message with the captured window as its dictionary. */
  class TakeoverReaderFactory {
    var window: seq<byte>
    var pending: seq<byte>              // decoded octets of the current message not yet read
    var intact: bool                    // whether its tokens can be decoded to the end
    ghost var history: seq<byte>        // every octet delivered so far

    constructor ()
      ensures Valid() && history == [] && pending == []
    {
      window, pending, intact, history := [], [], true, [];
    }

    ghost predicate Valid()
      reads this
    {
      window == Last(history, MAX_WINDOW)
    }

    /** newDecompressionReader: what will be read is what a decoder with the full history would put out. */
    method NewDecompressionReader(ts: seq<Token>)
      requires Valid() && Reachable(ts)
      modifies this`pending, this`intact
      ensures Valid() && pending == Inflate(history, ts).out && intact == Inflate(history, ts).ok
    {
      LastCovers(history);
      WindowDecodes(window, history, ts);
      var r := Inflate(window, ts);
      pending, intact := r.out, r.ok;
    }

    /**
     One read of the wrapper: some octets, captured into the window on the way. The end, or an error where the tokens
     go wrong, comes with the last of them or on its own.
     */
    method Read(size: nat) returns (chunk: seq<byte>, eof: bool, corrupt: bool)
      requires Valid()
      modifies this`window, this`pending, this`history
      ensures Valid() && |chunk| <= size && chunk + pending == old(pending) && history == old(history) + chunk
      ensures size > 0 && old(pending) != [] ==> chunk != []
      ensures size > 0 && old(pending) == [] ==> if intact then eof else corrupt
      ensures (eof ==> intact && pending == []) && (corrupt ==> !intact && pending == [])
    {
      var n: int := *;
      n := if 0 < n <= size && n <= |pending| then n else if size > 0 && pending != [] then 1 else 0;
      chunk, pending := pending[..n], pending[n..];
      if n > 0 {
        LastOfLast(history, chunk, MAX_WINDOW);
        window := window + chunk;
        if |window| > MAX_WINDOW {
          window := window[|window| - MAX_WINDOW..];
        }
      }
      history := history + chunk;
      var early: bool := *;
      var ended := pending == [] && n < size && (early || n == 0);
      eof, corrupt := ended && intact, ended && !intact;
    }
  }

  // ----- a whole connection under context takeover -----

  /** One decoder for the connection's whole life. */
  function DecodeAll(history: seq<byte>, messages: seq<seq<Token>>): seq<Inflated>
    decreases |messages|
  {
    if messages == [] then []
    else
      var r := Inflate(history, messages[0]);
      [r] + DecodeAll(history + r.out, messages[1..])
  }

  /** A fresh decoder for each message, given the window captured from the messages before it. */
  function DecodeEach(window: seq<byte>, messages: seq<seq<Token>>): seq<Inflated>
    decreases |messages|
  {
    if messages == [] then []
    else
      var r := Inflate(window, messages[0]);
      [r] + DecodeEach(Last(window + r.out, MAX_WINDOW), messages[1..])
  }

  lemma {:induction false} WindowsDecodeAll(history: seq<byte>, messages: seq<seq<Token>>)
    requires forall i :: 0 <= i < |messages| ==> Reachable(messages[i])
    ensures DecodeEach(Last(history, MAX_WINDOW), messages) == DecodeAll(history, messages)
    decreases |messages|
  {
    if messages != [] {
      var w := Last(history, MAX_WINDOW);
      LastCovers(history);
      WindowDecodes(w, history, messages[0]);
      var r := Inflate(history, messages[0]);
      LastOfLast(history, r.out, MAX_WINDOW);
      WindowsDecodeAll(history + r.out, messages[1..]);
    }
  }

  /** An unread octet is missing from the window, and the next message can then be decoded wrongly. */
  lemma UnreadMessageExample()
    ensures Inflate([], [Literal(65)]).out == [65]
    ensures Inflate([65], [Copy(1, 1)]) == Inflated([65], true)
    ensures Inflate([], [Copy(1, 1)]) == Inflated([], false)
  {
    assert CopyBack([65], 1, 1) == [65] + CopyBack([65, 65], 0, 1);
    assert Inflate([65] + [65], []) == Inflated([], true);
    var ts: seq<Token> := [Copy(1, 1)];
    assert ts[1..] == [];
    var us: seq<Token> := [Literal(65)];
    assert us[1..] == [] && Inflate([] + [65], []) == Inflated([], true);
  }

  /** Two windows that differ are told apart by some token. */
  lemma Distinguished(w: seq<byte>, v: seq<byte>) returns (t: Token)
    requires w != v && |w| <= |v| <= MAX_WINDOW
    ensures Reachable([t]) && Inflate(w, [t]) != Inflate(v, [t])
  {
    if |w| < |v| {
      t := Copy(1, |v|);
    } else {
      var i :| 0 <= i < |w| && w[i] != v[i];
      t := Copy(1, |w| - i);
      OneCopied(w, |w| - i);
    }
    OneCopied(v, t.distance);
  }

  lemma OneCopied(w: seq<byte>, distance: nat)
    requires 0 < distance <= |w|
    ensures Inflate(w, [Copy(1, distance)]) == Inflated([w[|w| - distance]], true)
  {
    var b := w[|w| - distance];
    assert CopyBack(w, 1, distance) == [b] + CopyBack(w + [b], 0, distance);
    var ts := [Copy(1, distance)];
    assert ts[1..] == [];
  }

  /**
   A message of which only `read` was delivered: whatever comes next is decoded right exactly when the window
   captured is the one that reading to the end would have left.
   */
  lemma UnreadOctetsMatter(history: seq<byte>, out: seq<byte>, read: seq<byte>)
    requires read <= out
    ensures var w, v := Last(history + read, MAX_WINDOW), Last(history + out, MAX_WINDOW);
            (forall ts | Reachable(ts) :: Inflate(w, ts) == Inflate(history + out, ts)) <==> w == v
  {
    hide Last;
    var w, v := Last(history + read, MAX_WINDOW), Last(history + out, MAX_WINDOW);
    LastCovers(history + out);
    forall ts | Reachable(ts)
      ensures Inflate(v, ts) == Inflate(history + out, ts)
    {
      WindowDecodes(v, history + out, ts);
    }
    if w != v {
      LastLength(history + read, history + out);
      var t := Distinguished(w, v);
      assert Inflate(v, [t]) == Inflate(history + out, [t]);
    }
  }

  /** As long as the connection has carried no more than the window holds, that means: read all of it. */
  lemma UnreadOctetsLost(history: seq<byte>, out: seq<byte>, read: seq<byte>)
    requires read <= out && |history + out| <= MAX_WINDOW
    ensures (forall ts | Reachable(ts) :: Inflate(Last(history + read, MAX_WINDOW), ts) == Inflate(history + out, ts))
            <==> read == out
  {
    UnreadOctetsMatter(history, out, read);
    if history + read == history + out {
      assert read == (history + read)[|history|..] == out;
    }
  }

  lemma LastLength(h: seq<byte>, k: seq<byte>)
    requires |h| <= |k|
    ensures |Last(h, MAX_WINDOW)| <= |Last(k, MAX_WINDOW)| <= MAX_WINDOW
  {
  }

  /** DEFLATE as far as the plumbing relies on it. */
  ghost predicate Codec(deflate: seq<Token> -> seq<byte>, parse: seq<byte> -> seq<Token>) {
    forall ts: seq<Token> :: EndsWith(deflate(ts), TAIL) && parse(deflate(ts) + FINAL_BLOCK) == ts
  }

  /** What a receiver parses out of the payloads of successive messages. */
  function Received(parse: seq<byte> -> seq<Token>, payloads: seq<seq<byte>>): seq<seq<Token>> {
    if payloads == [] then []
    else [parse(payloads[0] + TAIL + FINAL_BLOCK)] + Received(parse, payloads[1..])
  }

  /** What the truncating writer leaves of the compressed messages. */
  function Truncated(deflate: seq<Token> -> seq<byte>, messages: seq<seq<Token>>): seq<seq<byte>> {
    if messages == [] then [] else [ButLast(deflate(messages[0]), 4)] + Truncated(deflate, messages[1..])
  }

  lemma {:induction false} TailRestored(
    deflate: seq<Token> -> seq<byte>, parse: seq<byte> -> seq<Token>, messages: seq<seq<Token>>)
    requires Codec(deflate, parse)
    ensures Received(parse, Truncated(deflate, messages)) == messages
    decreases |messages|
  {
    if messages != [] {
      var s := deflate(messages[0]);
      assert EndsWith(s, TAIL);
      TailHeld(s, Last(s, 4));
      assert parse(s + FINAL_BLOCK) == messages[0];
      TailRestored(deflate, parse, messages[1..]);
    }
  }

  /** Message after message, the receiver decodes the octets that one uninterrupted decoder would. */
  lemma TakeoverRoundTrip(
    deflate: seq<Token> -> seq<byte>, parse: seq<byte> -> seq<Token>, messages: seq<seq<Token>>)
    requires Codec(deflate, parse) && forall i :: 0 <= i < |messages| ==> Reachable(messages[i])
    ensures DecodeEach([], Received(parse, Truncated(deflate, messages))) == DecodeAll([], messages)
  {
    TailRestored(deflate, parse, messages);
    WindowsDecodeAll([], messages);
  }

  /** A compressor, given the octets of the messages before and those of the message. */
  type Compressor = (seq<byte>, seq<byte>) -> seq<Token>

  /** Its tokens stand for the octets it was given and reach no further back than the window. */
  ghost predicate Faithful(compress: Compressor) {
    forall h, p :: Inflate(h, compress(h, p)) == Inflated(p, true) && Reachable(compress(h, p))
  }

  /** One compressor for the connection's whole life. */
  function CompressAll(compress: Compressor, history: seq<byte>, payloads: seq<seq<byte>>): seq<seq<Token>>
    decreases |payloads|
  {
    if payloads == [] then []
    else [compress(history, payloads[0])] + CompressAll(compress, history + payloads[0], payloads[1..])
  }

  function Whole(payloads: seq<seq<byte>>): seq<Inflated> {
    seq(|payloads|, i requires 0 <= i < |payloads| => Inflated(payloads[i], true))
  }

  lemma {:induction false} CompressedIsDecoded(compress: Compressor, history: seq<byte>, payloads: seq<seq<byte>>)
    requires Faithful(compress)
    ensures DecodeAll(history, CompressAll(compress, history, payloads)) == Whole(payloads)
    ensures forall ts :: ts in CompressAll(compress, history, payloads) ==> Reachable(ts)
    decreases |payloads|
  {
    if payloads != [] {
      var ts := CompressAll(compress, history, payloads);
      assert ts[0] == compress(history, payloads[0]);
      assert ts[1..] == CompressAll(compress, history + payloads[0], payloads[1..]);
      CompressedIsDecoded(compress, history + payloads[0], payloads[1..]);
    }
  }

  /**
   Message after message under context takeover, what was compressed, truncated, sent, given its tail back and
   decoded from the captured window is the payload.
   */
  lemma PayloadsRoundTrip(compress: Compressor, deflate: seq<Token> -> seq<byte>, parse: seq<byte> -> seq<Token>,
                          payloads: seq<seq<byte>>)
    requires Faithful(compress) && Codec(deflate, parse)
    ensures DecodeEach([], Received(parse, Truncated(deflate, CompressAll(compress, [], payloads)))) == Whole(payloads)
  {
    var messages := CompressAll(compress, [], payloads);
    CompressedIsDecoded(compress, [], payloads);
    assert forall i :: 0 <= i < |messages| ==> messages[i] in messages;
    TakeoverRoundTrip(deflate, parse, messages);
  }
}
