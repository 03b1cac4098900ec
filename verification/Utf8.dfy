/** utf8_dfa.go: the streaming validator, and the grammar of section 4 of RFC 3629. */
module Utf8 {
  import opened Bytes

  const ACCEPT: nat := 0
  const REJECT: nat := 1

  function Run(v: nat, n: nat): seq<nat> {
    seq(n, _ => v)
  }

  // The first 256 entries of the table, octet to character class, written as runs of equal entries.
  function Classes(): (s: seq<nat>)
    ensures |s| == 256
  {
    Run(0, 128) +                                                // 00..7f
    Run(1, 16) + Run(9, 16) + Run(7, 32) +                       // 80..bf
    Run(8, 2) + Run(2, 30) +                                     // c0..df
    [10] + Run(3, 12) + [4] + Run(3, 2) +                        // e0..ef
    [11] + Run(6, 3) + [5] + Run(8, 11)                          // f0..ff
  }

  // The rest of the table: a row of 16 successor states, indexed by character class, for each state.
  function Row(q: nat): (r: seq<nat>)
    ensures |r| == 16
  {
    match q
    case 0 => [0, 1, 2, 3, 5, 8, 7, 1, 1, 1, 4, 6, 1, 1, 1, 1]
    case 1 => [1, 1, 1, 1, 1, 1, 1, 1, 1, 1, 1, 1, 1, 1, 1, 1]
    case 2 => [1, 0, 1, 1, 1, 1, 1, 0, 1, 0, 1, 1, 1, 1, 1, 1]
    case 3 => [1, 2, 1, 1, 1, 1, 1, 2, 1, 2, 1, 1, 1, 1, 1, 1]
    case 4 => [1, 1, 1, 1, 1, 1, 1, 2, 1, 1, 1, 1, 1, 1, 1, 1]
    case 5 => [1, 2, 1, 1, 1, 1, 1, 1, 1, 2, 1, 1, 1, 1, 1, 1]
    case 6 => [1, 1, 1, 1, 1, 1, 1, 3, 1, 3, 1, 1, 1, 1, 1, 1]
    case 7 => [1, 3, 1, 1, 1, 1, 1, 3, 1, 3, 1, 1, 1, 1, 1, 1]
    case _ => [1, 3, 1, 1, 1, 1, 1, 1, 1, 1, 1, 1, 1, 1, 1, 1]
  }

  function ClassOf(b: byte): nat {
    if b < 0x80 then 0
    else if b < 0x90 then 1
    else if b < 0xA0 then 9
    else if b < 0xC0 then 7
    else if b < 0xC2 then 8
    else if b < 0xE0 then 2
    else if b == 0xE0 then 10
    else if b == 0xED then 4
    else if b < 0xF0 then 3
    else if b == 0xF0 then 11
    else if b < 0xF4 then 6
    else if b == 0xF4 then 5
    else 8
  }

  function Rows(n: nat): (r: seq<nat>)
    ensures |r| == 16 * n
  {
    if n == 0 then [] else Rows(n - 1) + Row(n - 1)
  }

  function Table(): (r: seq<nat>)
    ensures |r| == 400
  {
    Classes() + Rows(9)
  }

  lemma {:induction false} RowInRows(n: nat, q: nat, t: nat)
    requires q < n && t < 16
    ensures Rows(n)[16 * q + t] == Row(q)[t]
  {
    if q < n - 1 {
      RowInRows(n - 1, q, t);
    }
  }

  /** The successor state, read off the table by ranges of octets. */
  function Next(q: nat, b: byte): (r: nat)
    requires q < 9
    ensures r < 9
  {
    match q
    case 0 =>
      if b < 0x80 then 0
      else if In(b, 0xC2, 0xDF) then 2
      else if b == 0xE0 then 4
      else if b == 0xED then 5
      else if In(b, 0xE1, 0xEF) then 3
      else if b == 0xF0 then 6
      else if b == 0xF4 then 8
      else if In(b, 0xF1, 0xF3) then 7
      else 1
    case 2 => if Tail(b) then 0 else 1
    case 3 => if Tail(b) then 2 else 1
    case 4 => if In(b, 0xA0, 0xBF) then 2 else 1
    case 5 => if In(b, 0x80, 0x9F) then 2 else 1
    case 6 => if In(b, 0x90, 0xBF) then 3 else 1
    case 7 => if Tail(b) then 3 else 1
    case 8 => if In(b, 0x80, 0x8F) then 3 else 1
    case _ => 1
  }

  lemma LeadRow(b: byte)
    ensures Row(0)[ClassOf(b)] == Next(0, b)
  {
  }

  lemma ShortRows(q: nat, b: byte)
    requires 1 <= q < 5
    ensures Row(q)[ClassOf(b)] == Next(q, b)
  {
    if q == 1 {
    } else if q == 2 {
    } else if q == 3 {
    } else {
    }
  }

  lemma LongRows(q: nat, b: byte)
    requires 5 <= q < 9
    ensures Row(q)[ClassOf(b)] == Next(q, b)
  {
    if q == 5 {
    } else if q == 6 {
    } else if q == 7 {
    } else {
    }
  }

  lemma ClassLookup(b: byte)
    ensures Table()[b] == ClassOf(b)
  {
    hide Rows;
    assert Table()[b] == Classes()[b];
  }

  lemma StateLookup(q: nat, b: byte)
    requires q < 9
    ensures Table()[256 + 16 * q + ClassOf(b)] == Next(q, b)
  {
    var t := ClassOf(b);
    RowInRows(9, q, t);
    assert Table()[256 + 16 * q + t] == Rows(9)[16 * q + t];
    if q == 0 {
      LeadRow(b);
    } else if q < 5 {
      ShortRows(q, b);
    } else {
      LongRows(q, b);
    }
  }

  /** A value kept in a 32-bit two's complement variable. */
  function Int32(n: int): int {
    (n + 0x8000_0000) % 0x1_0000_0000 - 0x8000_0000
  }

  /** The low bits of the octet that an 0xff shifted right by t lets through. */
  function LowBits(b: byte, t: nat): nat {
    if t < 8 then b % Pow2(8 - t) else 0
  }

  /** utf8DFAStep, by the table. */
  method DfaStep(state: nat, x: int, b: byte) returns (state': nat, x': int)
    requires state < 9
    ensures (state', x') == Step(state, x, b)
  {
    hide Classes, Rows, Next;
    ClassLookup(b);
    StateLookup(state, b);
    var t := Table()[b];
    if state != ACCEPT {
      x' := b % 64 + Int32(x * 64);
    } else {
      x' := LowBits(b, t);
    }
    state' := Table()[256 + state * 16 + t];
  }

  function Step(state: nat, x: int, b: byte): (r: (nat, int))
    requires state < 9
    ensures r.0 < 9
  {
    (Next(state, b), Accumulate(state, x, b))
  }

  function Accumulate(q: nat, x: int, b: byte): int {
    if q != ACCEPT then b % 64 + Int32(x * 64) else LowBits(b, ClassOf(b))
  }

  // ----- the grammar -----

  predicate In(b: byte, lo: byte, hi: byte) {
    lo <= b <= hi
  }

  predicate Tail(b: byte) {
    In(b, 0x80, 0xBF)
  }

  /** UTF8-char: UTF8-1, UTF8-2, UTF8-3 or UTF8-4 */
  predicate IsChar(c: seq<byte>) {
    || (|c| == 1 && c[0] <= 0x7F)
    || (|c| == 2 && In(c[0], 0xC2, 0xDF) && Tail(c[1]))
    || (|c| == 3 && Tail(c[2]) && (
            || (c[0] == 0xE0 && In(c[1], 0xA0, 0xBF))
            || (In(c[0], 0xE1, 0xEC) && Tail(c[1]))
            || (c[0] == 0xED && In(c[1], 0x80, 0x9F))
            || (In(c[0], 0xEE, 0xEF) && Tail(c[1]))))
    || (|c| == 4 && Tail(c[2]) && Tail(c[3]) && (
            || (c[0] == 0xF0 && In(c[1], 0x90, 0xBF))
            || (In(c[0], 0xF1, 0xF3) && Tail(c[1]))
            || (c[0] == 0xF4 && In(c[1], 0x80, 0x8F))))
  }

  /** UTF8-octets: any number of UTF8-char */
  predicate Valid(s: seq<byte>) {
    s == [] || exists n | 1 <= n <= |s| :: IsChar(s[..n]) && Valid(s[n..])
  }

  /** Some continuation of s is valid. */
  ghost predicate Viable(s: seq<byte>) {
    exists t: seq<byte> :: Valid(s + t)
  }

  // ----- the automaton over strings -----

  function Final(q: nat, s: seq<byte>): (r: nat)
    requires q < 9
    ensures r < 9
    decreases |s|
  {
    if s == [] then q else Final(Next(q, s[0]), s[1..])
  }

  lemma {:induction false} FinalConcat(q: nat, s: seq<byte>, t: seq<byte>)
    requires q < 9
    ensures Final(q, s + t) == Final(Final(q, s), t)
    decreases |s|
  {
    if s == [] {
      assert s + t == t;
    } else {
      assert (s + t)[1..] == s[1..] + t;
      FinalConcat(Next(q, s[0]), s[1..], t);
    }
  }

  /** The strings that complete the character begun when the automaton is in state q. */
  predicate Rest(q: nat, t: seq<byte>) {
    match q
    case 0 => t == []
    case 2 => |t| == 1 && Tail(t[0])
    case 3 => |t| == 2 && Tail(t[0]) && Tail(t[1])
    case 4 => |t| == 2 && In(t[0], 0xA0, 0xBF) && Tail(t[1])
    case 5 => |t| == 2 && In(t[0], 0x80, 0x9F) && Tail(t[1])
    case 6 => |t| == 3 && In(t[0], 0x90, 0xBF) && Tail(t[1]) && Tail(t[2])
    case 7 => |t| == 3 && Tail(t[0]) && Tail(t[1]) && Tail(t[2])
    case 8 => |t| == 3 && In(t[0], 0x80, 0x8F) && Tail(t[1]) && Tail(t[2])
    case _ => false
  }

  lemma FirstOctet(b: byte, t: seq<byte>)
    ensures IsChar([b] + t) <==> Rest(Next(ACCEPT, b), t)
  {
    var c := [b] + t;
    assert forall i | 0 <= i < |t| :: c[i + 1] == t[i];
  }

  lemma NextOctet(q: nat, b: byte, t: seq<byte>)
    requires 1 <= q < 9
    ensures Rest(q, [b] + t) <==> Rest(Next(q, b), t)
  {
    var c := [b] + t;
    assert forall i | 0 <= i < |t| :: c[i + 1] == t[i];
  }

  lemma SplitChar(s: seq<byte>) returns (c: seq<byte>, s': seq<byte>)
    requires Valid(s) && s != []
    ensures s == c + s' && IsChar(c) && Valid(s') && |s'| < |s|
  {
    var n :| 1 <= n <= |s| && IsChar(s[..n]) && Valid(s[n..]);
    c, s' := s[..n], s[n..];
  }

  lemma ValidPrepend(c: seq<byte>, s: seq<byte>)
    requires IsChar(c) && Valid(s)
    ensures Valid(c + s)
  {
    var n := |c|;
    assert (c + s)[..n] == c && (c + s)[n..] == s;
  }

  /** s completes the character begun in state q and continues with valid text. */
  ghost predicate Completes(q: nat, s: seq<byte>) {
    exists t, u :: s == t + u && Rest(q, t) && Valid(u)
  }

  /** From any state the automaton ends in ACCEPT exactly on the completions of the character begun. */
  lemma {:induction false} AcceptsCompletions(q: nat, s: seq<byte>)
    requires q < 9
    ensures Final(q, s) == ACCEPT <==> Completes(q, s)
    decreases |s|
  {
    if s == [] {
      if Completes(q, s) {
        var t, u :| s == t + u && Rest(q, t) && Valid(u);
        assert t == [];
      } else if q == ACCEPT {
        assert s == [] + [] && Rest(q, []) && Valid([]);
      }
    } else {
      var b, s' := s[0], s[1..];
      AcceptsCompletions(Next(q, b), s');
      CompletesStep(q, b, s');
      assert s == [b] + s';
    }
  }

  lemma HeadOf(b: byte, s: seq<byte>, t: seq<byte>, u: seq<byte>)
    requires [b] + s == t + u && |t| > 0
    ensures t == [b] + t[1..] && s == t[1..] + u
  {
    assert ([b] + s)[0] == t[0];
    assert ([b] + s)[1..] == s;
    assert (t + u)[1..] == t[1..] + u;
  }

  lemma CompletesStep(q: nat, b: byte, s: seq<byte>)
    requires q < 9
    ensures Completes(q, [b] + s) <==> Completes(Next(q, b), s)
  {
    if Completes(Next(q, b), s) {
      var t, u :| s == t + u && Rest(Next(q, b), t) && Valid(u);
      CompletesBefore(q, b, t, u);
    }
    if Completes(q, [b] + s) {
      var t, u :| [b] + s == t + u && Rest(q, t) && Valid(u);
      CompletesAfter(q, b, s, t, u);
    }
  }

  lemma CompletesBefore(q: nat, b: byte, t: seq<byte>, u: seq<byte>)
    requires q < 9 && Rest(Next(q, b), t) && Valid(u)
    ensures Completes(q, [b] + (t + u))
  {
    hide Next, IsChar, Valid;
    ConcatAssociative([b], t, u);
    if q == ACCEPT {
      FirstOctet(b, t);
      ValidPrepend([b] + t, u);
      assert [] + ([b] + (t + u)) == [b] + (t + u);
      assert Rest(ACCEPT, []);
    } else {
      NextOctet(q, b, t);
    }
  }

  lemma CompletesAfter(q: nat, b: byte, s: seq<byte>, t: seq<byte>, u: seq<byte>)
    requires q < 9 && [b] + s == t + u && Rest(q, t) && Valid(u)
    ensures Completes(Next(q, b), s)
  {
    if q == ACCEPT {
      assert u == [b] + s;
      var c, u' := SplitChar(u);
      HeadOf(b, s, c, u');
      FirstOctet(b, c[1..]);
    } else if q != REJECT {
      HeadOf(b, s, t, u);
      NextOctet(q, b, t[1..]);
    }
  }

  /** The automaton accepts exactly the octet strings of the grammar. */
  lemma AcceptsGrammar(s: seq<byte>)
    ensures Final(ACCEPT, s) == ACCEPT <==> Valid(s)
  {
    AcceptsCompletions(ACCEPT, s);
    if Valid(s) {
      assert s == [] + s && Rest(ACCEPT, []);
    }
    if t, u :| s == t + u && Rest(ACCEPT, t) && Valid(u) {
      assert u == s;
    }
  }

  lemma {:induction false} RejectAbsorbs(s: seq<byte>)
    ensures Final(REJECT, s) == REJECT
    decreases |s|
  {
    if s != [] {
      RejectAbsorbs(s[1..]);
    }
  }

  /** A completion of the character begun in a state other than REJECT. */
  function Completion(q: nat): (t: seq<byte>)
    requires q < 9 && q != REJECT
    ensures Rest(q, t)
  {
    match q
    case 0 => []
    case 2 => [0x80]
    case 3 => [0x80, 0x80]
    case 4 => [0xA0, 0x80]
    case 5 => [0x80, 0x80]
    case 6 => [0x90, 0x80, 0x80]
    case 7 => [0x80, 0x80, 0x80]
    case _ => [0x80, 0x80, 0x80]
  }

  /** The automaton is in REJECT exactly when no continuation can be valid. */
  lemma RejectsUnviable(s: seq<byte>)
    ensures Final(ACCEPT, s) != REJECT <==> Viable(s)
  {
    var q := Final(ACCEPT, s);
    if q != REJECT {
      var t := Completion(q);
      assert t == t + [] && Valid([]);
      AcceptsCompletions(q, t);
      FinalConcat(ACCEPT, s, t);
      AcceptsGrammar(s + t);
    }
    if t: seq<byte> :| Valid(s + t) {
      AcceptsGrammar(s + t);
      FinalConcat(ACCEPT, s, t);
      if q == REJECT {
        RejectAbsorbs(t);
      }
    }
  }

  lemma ViablePrefix(s: seq<byte>, t: seq<byte>)
    requires Viable(s + t)
    ensures Viable(s)
  {
    RejectsUnviable(s + t);
    RejectsUnviable(s);
    FinalConcat(ACCEPT, s, t);
    if Final(ACCEPT, s) == REJECT {
      RejectAbsorbs(t);
    }
  }

  // ----- code points -----

  predicate IsScalar(v: int) {
    0 <= v <= 0x10FFFF && !(0xD800 <= v <= 0xDFFF)
  }

  /** Section 3 of RFC 3629. */
  function Encode(v: nat): (c: seq<byte>)
    requires IsScalar(v)
    ensures IsChar(c)
  {
    if v < 0x80 then [v]
    else if v < 0x800 then [0xC0 + v / 64, 0x80 + v % 64]
    else if v < 0x10000 then [0xE0 + v / 4096, 0x80 + v / 64 % 64, 0x80 + v % 64]
    else [0xF0 + v / 262144, 0x80 + v / 4096 % 64, 0x80 + v / 64 % 64, 0x80 + v % 64]
  }

  function Decode(c: seq<byte>): int {
    if |c| == 0 then 0
    else if |c| == 1 then c[0]
    else JoinAll(c[0] as int - (if |c| == 2 then 0xC0 else if |c| == 3 then 0xE0 else 0xF0), c[1..])
  }

  function JoinAll(x: int, t: seq<byte>): int {
    if |t| == 1 then Join(x, t[0])
    else if |t| == 2 then Join(Join(x, t[0]), t[1])
    else if |t| == 3 then Join(Join(Join(x, t[0]), t[1]), t[2])
    else x
  }

  function Join(x: int, b: byte): int {
    64 * x + (b as int - 0x80)
  }

  lemma EncodeDecode2(c: seq<byte>)
    requires IsChar(c) && |c| == 2
    ensures IsScalar(Decode(c)) && Encode(Decode(c)) == c
  {
    JoinBounds(c[0] - 0xC0, c[1]);
  }

  lemma EncodeDecode3(c: seq<byte>)
    requires IsChar(c) && |c| == 3
    ensures IsScalar(Decode(c)) && Encode(Decode(c)) == c
  {
    var x := Join(c[0] - 0xE0, c[1]);
    JoinBounds(c[0] - 0xE0, c[1]);
    JoinBounds(x, c[2]);
    Quotients(Decode(c));
  }

  lemma EncodeDecode4(c: seq<byte>)
    requires IsChar(c) && |c| == 4
    ensures IsScalar(Decode(c)) && Encode(Decode(c)) == c
  {
    var x := Join(c[0] - 0xF0, c[1]);
    var y := Join(x, c[2]);
    JoinBounds(c[0] - 0xF0, c[1]);
    JoinBounds(x, c[2]);
    JoinBounds(y, c[3]);
    Quotients(Decode(c));
  }

  /** Every character of the grammar is the encoding of exactly one scalar value. */
  lemma EncodeDecode(c: seq<byte>)
    requires IsChar(c)
    ensures IsScalar(Decode(c)) && Encode(Decode(c)) == c
  {
    if |c| == 2 {
      EncodeDecode2(c);
    } else if |c| == 3 {
      EncodeDecode3(c);
    } else if |c| == 4 {
      EncodeDecode4(c);
    }
  }

  lemma Quotients(v: nat)
    ensures v / 4096 == v / 64 / 64 && v / 262144 == v / 64 / 64 / 64
  {
  }

  lemma JoinBounds(x: nat, b: byte)
    requires Tail(b)
    ensures 64 * x <= Join(x, b) < 64 * x + 64
    ensures Join(x, b) / 64 == x && 0x80 + Join(x, b) % 64 == b
  {
  }

  lemma DecodeEncode(v: nat)
    requires IsScalar(v)
    ensures Decode(Encode(v)) == v
  {
    var c := Encode(v);
    Quotients(v);
    JoinSplit(v);
    JoinSplit(v / 64);
    JoinSplit(v / 64 / 64);
    if |c| == 2 {
      assert Decode(c) == Join(v / 64, c[1]);
    } else if |c| == 3 {
      assert Decode(c) == Join(Join(v / 4096, c[1]), c[2]);
    } else if |c| == 4 {
      assert Decode(c) == Join(Join(Join(v / 262144, c[1]), c[2]), c[3]);
    }
  }

  lemma JoinSplit(v: nat)
    ensures Join(v / 64, 0x80 + v % 64) == v
  {
  }

  /** utf8DFAStep over a string, with the code point it accumulates. */
  function Feed(q: nat, x: int, s: seq<byte>): (r: (nat, int))
    requires q < 9
    ensures r.0 == Final(q, s)
    decreases |s|
  {
    if s == [] then (q, x) else
      var (q', x') := Step(q, x, s[0]);
      Feed(q', x', s[1..])
  }

  lemma {:induction false} FeedConcat(q: nat, x: int, s: seq<byte>, t: seq<byte>)
    requires q < 9
    ensures Feed(q, x, s + t) == Feed(Feed(q, x, s).0, Feed(q, x, s).1, t)
    decreases |s|
  {
    if s == [] {
      assert s + t == t;
    } else {
      assert (s + t)[1..] == s[1..] + t;
      var (q', x') := Step(q, x, s[0]);
      FeedConcat(q', x', s[1..], t);
    }
  }

  lemma Lead(b: byte)
    ensures b < 0x80 ==> Next(ACCEPT, b) == ACCEPT && Accumulate(ACCEPT, 0, b) == b
    ensures In(b, 0xC2, 0xDF) ==> Next(ACCEPT, b) == 2 && Accumulate(ACCEPT, 0, b) == b - 0xC0
    ensures In(b, 0xE0, 0xEF) ==>
      Next(ACCEPT, b) == (if b == 0xE0 then 4 else if b == 0xED then 5 else 3) &&
      Accumulate(ACCEPT, 0, b) == b - 0xE0
    ensures In(b, 0xF0, 0xF4) ==>
      Next(ACCEPT, b) == (if b == 0xF0 then 6 else if b == 0xF4 then 8 else 7) &&
      Accumulate(ACCEPT, 0, b) == b - 0xF0
  {
    assert Pow2(3) == 8 && Pow2(2) == 4 && Pow2(4) == 16 && Pow2(5) == 32 && Pow2(6) == 64 && Pow2(8) == 256;
  }

  lemma Follow(q: nat, x: nat, b: byte)
    requires 2 <= q < 9 && Tail(b) && x < 0x10000
    ensures Accumulate(q, x, b) == Join(x, b)
  {
  }

  lemma {:induction false} FeedRest(q: nat, x: nat, t: seq<byte>)
    requires 2 <= q < 9 && Rest(q, t)
    requires if |t| == 1 then x < 0x10000 else if |t| == 2 then x < 0x400 else x < 0x10
    ensures Feed(q, x, t) == (ACCEPT, JoinAll(x, t))
    decreases |t|
  {
    var b, t' := t[0], t[1..];
    assert t == [b] + t';
    NextOctet(q, b, t');
    Follow(q, x, b);
    JoinBounds(x, b);
    if t' == [] {
      assert Next(q, b) == ACCEPT;
    } else {
      FeedRest(Next(q, b), Join(x, b), t');
    }
  }

  /** Feeding one character accumulates the scalar value it encodes. */
  lemma FeedChar(x: int, c: seq<byte>)
    requires IsChar(c)
    ensures Feed(ACCEPT, x, c) == (ACCEPT, Decode(c))
  {
    var b, t := c[0], c[1..];
    assert c == [b] + t;
    FirstOctet(b, t);
    Lead(b);
    if t != [] {
      FeedRest(Next(ACCEPT, b), Accumulate(ACCEPT, x, b), t);
    }
  }

  /** Whenever ACCEPT is reached, the code point held is the scalar value of the character just completed. */
  lemma {:induction false} CodePointAtAccept(x: int, s: seq<byte>) returns (u: seq<byte>, c: seq<byte>)
    requires s != [] && Final(ACCEPT, s) == ACCEPT
    ensures s == u + c && Valid(u) && IsChar(c)
    ensures Feed(ACCEPT, x, s).1 == Decode(c)
    decreases |s|
  {
    AcceptsGrammar(s);
    var d, s' := SplitChar(s);
    FeedChar(x, d);
    FeedConcat(ACCEPT, x, d, s');
    if s' == [] {
      u, c := [], d;
      assert s == [] + d;
      assert Valid([]);
    } else {
      AcceptsGrammar(s');
      var u', c' := CodePointAtAccept(Decode(d), s');
      ValidPrepend(d, u');
      u, c := d + u', c';
      ConcatAssociative(d, u', c');
    }
  }

  /** utf8DFAValidate: the final state, or REJECT at the first octet that cannot be right. */
  method DfaValidate(p: seq<byte>) returns (state: nat)
    ensures state == Final(ACCEPT, p)
    ensures state == ACCEPT <==> Valid(p)
    ensures state == REJECT <==> !Viable(p)
  {
    hide Step, Next, Valid, Viable;
    AcceptsGrammar(p);
    RejectsUnviable(p);
    state := ACCEPT;
    var x := 0;
    for i := 0 to |p|
      invariant state < 9 && state != REJECT
      invariant Final(state, p[i..]) == Final(ACCEPT, p)
    {
      ghost var q := state;
      state, x := DfaStep(state, x, p[i]);
      StepIsNext(q, p[i], p[i..]);
      assert p[i..][1..] == p[i + 1..];
      if state == REJECT {
        RejectAbsorbs(p[i + 1..]);
        return;
      }
    }
  }

  lemma StepIsNext(q: nat, b: byte, s: seq<byte>)
    requires q < 9 && s != [] && s[0] == b
    ensures forall x :: Step(q, x, b).0 == Next(q, b)
    ensures Final(q, s) == Final(Next(q, b), s[1..])
  {
  }
}
