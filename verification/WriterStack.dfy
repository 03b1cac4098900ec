/** What NextWriter returns: the message writer, the compressor on top of it, and on top of that the UTF-8 validator. */
module WriterStack {
  import opened Bytes
  import opened Frames
  import opened FrameWriter
  import Utf8

  /** What goes to the message writer for the octets p: p itself, or what the compressor passes on. */
  function Raw(compresses: bool, p: seq<byte>, passed: seq<seq<byte>>): seq<byte> {
    if compresses then Concat(passed) else p
  }

  predicate FitMemory(p: seq<byte>, passed: seq<seq<byte>>) {
    |p| <= MAX_SLICE && forall s :: s in passed ==> |s| <= MAX_SLICE
  }

  /** The message writer, with or without the compressor. */
  class PayloadWriter {
    const mw: MessageWriter
    const compresses: bool
    ghost var given: seq<byte>          // the octets written

    constructor (mw: MessageWriter, compresses: bool)
      requires mw.Open()
      ensures this.mw == mw && this.compresses == compresses && given == []
    {
      this.mw, this.compresses, given := mw, compresses, [];
    }

    /** passed is what the compressor passes on during this call. */
    method Write(p: seq<byte>, passed: seq<seq<byte>>) returns (e: Option<WriteError>)
      requires (mw.err == None ==> mw.Open()) && FitMemory(p, passed)
      modifies this, mw, mw.c, mw.c.writeBuf
      ensures given == old(given) + p
      ensures old(mw.err).Some? ==> e.Some? && unchanged(mw) && unchanged(mw.c)
      ensures old(mw.err) == None ==>
        && mw.c.Valid() && mw.rsv1 == old(mw.rsv1) && mw.c.Later(false) && e != Some(InvalidText) && mw.Caused(e)
        && old(mw.sent) <= mw.sent && mw.c.log == old(mw.c.log) + mw.sent[|old(mw.sent)|..]
      ensures e == None ==>
        && mw.Open() && mw.Taken() == old(mw.Taken()) + Raw(compresses, p, passed)
        && mw.c.writeBuf == old(mw.c.writeBuf)
      ensures e.Some? ==> mw.err.Some?
    {
      hide EncodeAll, OpenFragments, Payloads, Capped, Concat;
      given := given + p;
      if mw.err.Some? {
        return mw.err;
      }
      if compresses {
        e := mw.WriteParts(passed);
      } else {
        var n;
        n, e := mw.Write(p);
      }
    }

    /** flushed is what the compressor still passes on. */
    method Close(flushed: seq<seq<byte>>) returns (e: Option<WriteError>)
      requires (mw.err == None ==> mw.Open()) && FitMemory([], flushed)
      modifies mw, mw.c, mw.c.writeBuf
      ensures old(mw.err).Some? ==> e.Some? && unchanged(mw) && unchanged(mw.c)
      ensures old(mw.err) == None ==>
        && mw.Ended() && mw.c.Later(false) && e != Some(InvalidText) && mw.Caused(e)
        && old(mw.sent) <= mw.sent && mw.c.log == old(mw.c.log) + mw.sent[|old(mw.sent)|..]
      ensures old(mw.err) == None && e == None ==>
        && mw.rsv1 == old(mw.rsv1) && WholeMessage(mw.opcode, mw.rsv1, mw.sent)
        && Payloads(mw.sent) == old(mw.Taken()) + Raw(compresses, [], flushed)
        && mw.c.writeErr == if mw.opcode == CLOSE then Some(CloseSent) else None
      ensures e.Some? ==> mw.err.Some?
    {
      hide EncodeAll, OpenFragments, WholeMessage, Payloads, Capped, Concat, CausedBy;
      if mw.err.Some? {
        return mw.err;
      }
      ghost var sent, log := mw.sent, mw.c.log;
      e := None;
      if compresses {
        e := mw.WriteParts(flushed);
        if e.Some? {
          return;
        }
      } else {
        assert mw.Taken() + [] == mw.Taken();
      }
      ghost var before, log', writeErr := mw.sent, mw.c.log, mw.c.writeErr;
      assert before[|before|..] == [] && log + [] == log;
      e := mw.Close();
      CausedTwice(mw.opcode, mw.c.Reliable(), true, old(mw.c.writeErr), writeErr, mw.c.writeErr, e);
      LogExtended(log, sent, log', before, mw.c.log, mw.sent);
    }
  }

  /** utf8ValidatingWriter */
  class ValidatingWriter {
    const src: PayloadWriter
    var state: nat
    var codepoint: int
    var failed: bool

    constructor (src: PayloadWriter)
      requires src.given == []
      ensures Valid() && this.src == src && !failed
    {
      this.src, state, codepoint, failed := src, Utf8.ACCEPT, 0, false;
      new;
      Utf8.RejectsUnviable([]);
    }

    /** What was handed down is a viable prefix of valid text. */
    ghost predicate Valid()
      reads this, src
    {
      && state < 9 && Utf8.Viable(src.given)
      && (!failed ==> state == Utf8.Final(Utf8.ACCEPT, src.given))
    }

    /** Steps the automaton over the chunk; n is the first bad octet, if there is one. */
    method Scan(p: seq<byte>) returns (n: nat)
      requires Valid() && !failed
      modifies this`state, this`codepoint, this`failed
      ensures state < 9 && n <= |p| && failed == (n < |p|)
      ensures failed <==> !Utf8.Viable(src.given + p)
      ensures failed ==> Utf8.Viable(src.given + p[..n]) && !Utf8.Viable(src.given + p[..n + 1])
      ensures !failed ==> state == Utf8.Final(Utf8.ACCEPT, src.given + p)
    {
      hide Utf8.Viable, Utf8.Step, Utf8.Next;
      assert src.given + p[..0] == src.given;
      Utf8.RejectsUnviable(src.given);
      for i := 0 to |p|
        invariant state < 9 && state == Utf8.Final(Utf8.ACCEPT, src.given + p[..i]) && state != Utf8.REJECT && !failed
      {
        ghost var q := state;
        state, codepoint := Utf8.DfaStep(state, codepoint, p[i]);
        Utf8.StepIsNext(q, p[i], [p[i]]);
        FinalNext(src.given, p, i, q, state);
        Utf8.RejectsUnviable(src.given + p[..i]);
        Utf8.RejectsUnviable(src.given + p[..i + 1]);
        if state == Utf8.REJECT {
          failed := true;
          NotViableLonger(src.given, p, i + 1);
          return i;
        }
      }
      assert p[..|p|] == p;
      Utf8.RejectsUnviable(src.given + p);
      n := |p|;
    }

    /** Rejects a chunk that cannot continue the text before any of it goes down; n is then the first bad octet. */
    method Write(p: seq<byte>, passed: seq<seq<byte>>) returns (n: nat, e: Option<WriteError>)
      requires Valid() && (src.mw.err == None ==> src.mw.Open()) && FitMemory(p, passed)
      modifies this, src, src.mw, src.mw.c, src.mw.c.writeBuf
      ensures Valid()
      ensures old(failed) ==>
        failed && e == Some(InvalidText) && unchanged(src) && unchanged(src.mw) && unchanged(src.mw.c)
      ensures !old(failed) ==> failed == !Utf8.Viable(old(src.given) + p)
      ensures !old(failed) && failed ==>
        && e == Some(InvalidText) && unchanged(src) && unchanged(src.mw) && unchanged(src.mw.c)
        && n < |p| && Utf8.Viable(old(src.given) + p[..n]) && !Utf8.Viable(old(src.given) + p[..n + 1])
      ensures !failed ==> src.given == old(src.given) + p
      ensures old(src.mw.err).Some? ==> e.Some?
      ensures old(src.mw.err) == None ==>
        && src.mw.c.Valid() && src.mw.rsv1 == old(src.mw.rsv1) && src.mw.c.Later(false)
        && (!failed ==> src.mw.Caused(e))
        && old(src.mw.sent) <= src.mw.sent
        && src.mw.c.log == old(src.mw.c.log) + src.mw.sent[|old(src.mw.sent)|..]
      ensures e == None ==>
        && !failed && src.mw.Open() && src.mw.Taken() == old(src.mw.Taken()) + Raw(src.compresses, p, passed)
        && src.mw.c.writeBuf == old(src.mw.c.writeBuf)
    {
      hide Utf8.Viable, Utf8.Final, EncodeAll, OpenFragments, Payloads, Capped, Concat;
      assert src.mw.sent[|src.mw.sent|..] == [] && src.mw.c.log + [] == src.mw.c.log;
      if failed {
        return 0, Some(InvalidText);
      }
      n := Scan(p);
      if failed {
        return n, Some(InvalidText);
      }
      e := src.Write(p, passed);
    }

    /** Succeeds only when everything written is valid text; the message is ended in any case. */
    method Close(flushed: seq<seq<byte>>) returns (e: Option<WriteError>)
      requires Valid() && (src.mw.err == None ==> src.mw.Open()) && FitMemory([], flushed)
      modifies this`failed, src.mw, src.mw.c, src.mw.c.writeBuf
      ensures Valid()
      ensures e == Some(InvalidText) <== old(failed) || !Utf8.Valid(src.given)
      ensures old(src.mw.err) == None ==>
        && src.mw.Ended() && src.mw.c.Later(false) && (e != Some(InvalidText) ==> src.mw.Caused(e))
        && (e == Some(InvalidText) ==> old(failed) || !Utf8.Valid(src.given))
        && old(src.mw.sent) <= src.mw.sent
        && src.mw.c.log == old(src.mw.c.log) + src.mw.sent[|old(src.mw.sent)|..]
      ensures old(src.mw.err) == None && e == None ==>
        && Utf8.Valid(src.given)
        && src.mw.rsv1 == old(src.mw.rsv1) && WholeMessage(src.mw.opcode, src.mw.rsv1, src.mw.sent)
        && Payloads(src.mw.sent) == old(src.mw.Taken()) + Raw(src.compresses, [], flushed)
        && src.mw.c.writeErr == if src.mw.opcode == CLOSE then Some(CloseSent) else None
    {
      hide Utf8.Valid, Utf8.Viable, EncodeAll, OpenFragments, WholeMessage, Payloads, Capped, Concat;
      Utf8.AcceptsGrammar(src.given);
      if failed {
        e := src.Close(flushed);
        return Some(InvalidText);
      }
      if state != Utf8.ACCEPT {
        failed := true;
        e := src.Close(flushed);
        return Some(InvalidText);
      }
      e := src.Close(flushed);
    }
  }

  lemma FinalNext(fed: seq<byte>, p: seq<byte>, i: nat, q: nat, q': nat)
    requires i < |p| && q < 9 && q == Utf8.Final(Utf8.ACCEPT, fed + p[..i]) && q' == Utf8.Next(q, p[i])
    ensures Utf8.Final(Utf8.ACCEPT, fed + p[..i + 1]) == q'
  {
    assert fed + p[..i + 1] == (fed + p[..i]) + [p[i]];
    Utf8.FinalConcat(Utf8.ACCEPT, fed + p[..i], [p[i]]);
    assert Utf8.Final(q, [p[i]]) == Utf8.Final(Utf8.Next(q, p[i]), []);
  }

  lemma NotViableLonger(fed: seq<byte>, p: seq<byte>, n: nat)
    requires n <= |p| && !Utf8.Viable(fed + p[..n])
    ensures !Utf8.Viable(fed + p)
  {
    if Utf8.Viable(fed + p) {
      assert fed + p == (fed + p[..n]) + p[n..];
      Utf8.ViablePrefix(fed + p[..n], p[n..]);
    }
  }
}
