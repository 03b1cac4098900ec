/** The wire format of section 5.2 of RFC 6455, as conn.go writes and reads it. */
module Frames {
  import opened Bytes
  import opened Masking

  const MAX_INT64: int := 0x7FFF_FFFF_FFFF_FFFF
  const MAX_CONTROL_PAYLOAD: nat := 125

  const CONTINUATION: nat := 0
  const TEXT: nat := 1
  const BINARY: nat := 2
  const CLOSE: nat := 8
  const PING: nat := 9
  const PONG: nat := 10

  datatype Option<+T> = None | Some(value: T)

  predicate IsControl(opcode: int) {
    opcode == CLOSE || opcode == PING || opcode == PONG
  }

  predicate IsData(opcode: int) {
    opcode == TEXT || opcode == BINARY
  }

  /** One frame, with its payload unmasked. */
  datatype Frame = Frame(fin: bool, rsv1: bool, opcode: nat, key: Option<Key>, payload: seq<byte>) {
    predicate Encodable() {
      opcode < 16 && |payload| <= MAX_INT64
    }
  }

  /** The 7-bit length of octet 1. */
  function LengthCode(n: nat): (c: nat)
    ensures c < 128
  {
    if n >= 65536 then 127 else if n > 125 then 126 else n
  }

  /** The extended length that follows octet 1. */
  function LengthOctets(n: nat): seq<byte> {
    if n >= 65536 then ToBE(n, 8) else if n > 125 then ToBE(n, 2) else []
  }

  function Octet0(fin: bool, rsv1: bool, opcode: nat): (b: byte)
    requires opcode < 16
  {
    opcode + (if fin then 128 else 0) + (if rsv1 then 64 else 0)
  }

  function Octet1(masked: bool, n: nat): (b: byte) {
    LengthCode(n) + (if masked then 128 else 0)
  }

  function KeyOctets(key: Option<Key>): seq<byte> {
    if key.Some? then key.value.Octets() else []
  }

  function MaskedPayload(key: Option<Key>, payload: seq<byte>): (s: seq<byte>)
    ensures |s| == |payload|
  {
    if key.Some? then Mask(key.value, 0, payload) else payload
  }

  function Header(f: Frame): seq<byte>
    requires f.Encodable()
  {
    [Octet0(f.fin, f.rsv1, f.opcode), Octet1(f.key.Some?, |f.payload|)]
    + LengthOctets(|f.payload|) + KeyOctets(f.key)
  }

  function Encode(f: Frame): seq<byte>
    requires f.Encodable()
  {
    Header(f) + MaskedPayload(f.key, f.payload)
  }

  predicate AllEncodable(fs: seq<Frame>) {
    forall f :: f in fs ==> f.Encodable()
  }

  function EncodeAll(fs: seq<Frame>): seq<byte>
    requires AllEncodable(fs)
  {
    if fs == [] then [] else Encode(fs[0]) + EncodeAll(fs[1..])
  }

  lemma {:induction false} EncodeAllConcat(fs: seq<Frame>, gs: seq<Frame>)
    requires AllEncodable(fs) && AllEncodable(gs)
    ensures AllEncodable(fs + gs) && EncodeAll(fs + gs) == EncodeAll(fs) + EncodeAll(gs)
  {
    if fs == [] {
      assert fs + gs == gs;
    } else {
      assert (fs + gs)[1..] == fs[1..] + gs;
      EncodeAllConcat(fs[1..], gs);
      ConcatAssociative(Encode(fs[0]), EncodeAll(fs[1..]), EncodeAll(gs));
    }
  }

  // ----- messages as fragments -----

  function Payloads(fs: seq<Frame>): seq<byte> {
    if fs == [] then [] else fs[0].payload + Payloads(fs[1..])
  }

  lemma {:induction false} PayloadsConcat(fs: seq<Frame>, gs: seq<Frame>)
    ensures Payloads(fs + gs) == Payloads(fs) + Payloads(gs)
  {
    if fs == [] {
      assert fs + gs == gs;
    } else {
      assert (fs + gs)[1..] == fs[1..] + gs;
      PayloadsConcat(fs[1..], gs);
      ConcatAssociative(fs[0].payload, Payloads(fs[1..]), Payloads(gs));
    }
  }

  /** The fragments of one message begun: the opcode and RSV1 are on the first frame only, FIN is on none. */
  predicate OpenFragments(opcode: nat, rsv1: bool, fs: seq<Frame>) {
    forall i :: 0 <= i < |fs| ==>
      && !fs[i].fin
      && fs[i].opcode == (if i == 0 then opcode else CONTINUATION)
      && fs[i].rsv1 == (i == 0 && rsv1)
  }

  /** The fragments of one whole message, section 5.4 of RFC 6455: FIN is on the last frame only. */
  predicate WholeMessage(opcode: nat, rsv1: bool, fs: seq<Frame>) {
    && |fs| > 0
    && OpenFragments(opcode, rsv1, fs[..|fs| - 1])
    && var last := fs[|fs| - 1];
       && last.fin
       && last.opcode == (if |fs| == 1 then opcode else CONTINUATION)
       && last.rsv1 == (|fs| == 1 && rsv1)
  }

  /** f may follow the fragments fs of a message begun. */
  predicate Continues(opcode: nat, rsv1: bool, fs: seq<Frame>, f: Frame) {
    && OpenFragments(opcode, rsv1, fs)
    && f.opcode == (if fs == [] then opcode else CONTINUATION)
    && f.rsv1 == (fs == [] && rsv1)
  }

  lemma FragmentAppended(opcode: nat, rsv1: bool, fs: seq<Frame>, f: Frame)
    requires Continues(opcode, rsv1, fs, f)
    ensures if f.fin then WholeMessage(opcode, rsv1, fs + [f]) else OpenFragments(opcode, rsv1, fs + [f])
  {
    assert (fs + [f])[..|fs|] == fs;
  }

  datatype Message = Message(opcode: nat, compressed: bool, payload: seq<byte>)

  /** The message whose data frames are fs. */
  function MessageIn(fs: seq<Frame>): Message {
    if fs == [] then Message(0, false, []) else Message(fs[0].opcode, fs[0].rsv1, Payloads(fs))
  }

  /** The frames that are not control frames. */
  function DataFrames(fs: seq<Frame>): seq<Frame> {
    if fs == [] then []
    else if IsControl(fs[0].opcode) then DataFrames(fs[1..])
    else [fs[0]] + DataFrames(fs[1..])
  }

  function Concat<T>(ss: seq<seq<T>>): seq<T> {
    if ss == [] then [] else ss[0] + Concat(ss[1..])
  }

  lemma {:induction false} DataFramesAppend(fs: seq<Frame>, f: Frame)
    ensures DataFrames(fs + [f]) == DataFrames(fs) + if IsControl(f.opcode) then [] else [f]
  {
    if fs == [] {
      assert DataFrames([f]) == if IsControl(f.opcode) then [] else [f] + DataFrames([]);
    } else {
      assert (fs + [f])[1..] == fs[1..] + [f];
      DataFramesAppend(fs[1..], f);
    }
  }

  lemma {:induction false} DataFramesConcat(fs: seq<Frame>, gs: seq<Frame>)
    ensures DataFrames(fs + gs) == DataFrames(fs) + DataFrames(gs)
  {
    if fs == [] {
      assert fs + gs == gs;
    } else {
      assert (fs + gs)[1..] == fs[1..] + gs;
      DataFramesConcat(fs[1..], gs);
    }
  }

  lemma {:induction false} ConcatAppend<T>(ss: seq<seq<T>>, s: seq<T>)
    ensures Concat(ss + [s]) == Concat(ss) + s
  {
    if ss == [] {
      assert Concat([s]) == s + Concat<T>([]);
    } else {
      assert (ss + [s])[1..] == ss[1..] + [s];
      ConcatAppend(ss[1..], s);
      ConcatAssociative(ss[0], Concat(ss[1..]), s);
    }
  }
}
