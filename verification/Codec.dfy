/**
 The compression library, seen from outside. Nothing is assumed about how it compresses,
 nor about when it takes input and gives output, except what its interface promises: a
 `Codec` is any pair of functions that keeps those promises.
 */
module Codec {
  import opened Basics
  import opened Numerals

  /** The magic number of a frame, 0xFD2FB528 in little-endian order: section 3.1.1 of RFC 8878. */
  const ZSTD_MAGIC: Bytes := [0x28, 0xB5, 0x2F, 0xFD]

  /** The frame at the head of some bytes: its content and its length. */
  datatype Decoded = NoFrame | Frame(content: Bytes, size: nat)

  /** One call of `ZSTD_compressStream2()`: input, room for output, and whether to end the frame. */
  datatype Request = Request(input: Bytes, room: nat, end: bool)

  /** Its effect; `remaining` is 0 when nothing is left to flush. */
  datatype Reply = Refused | Reply(consumed: nat, output: Bytes, remaining: nat)

  datatype Exchange = Exchange(req: Request, reply: Reply) {
    function Consumed(): Bytes
    {
      if reply.Reply? && reply.consumed <= |req.input| then req.input[..reply.consumed] else []
    }

    function Output(): Bytes
    {
      if reply.Reply? then reply.output else []
    }
  }

  /** A frame in the making: the size pledged for it (`None` if unknown), and all calls so far. */
  datatype Session = Session(pledged: Option<nat>, log: seq<Exchange>) {
    function After(x: Exchange): Session { Session(pledged, log + [x]) }

    function Before(): Session
      requires log != []
    {
      Session(pledged, log[..|log| - 1])
    }

    function Last(): Exchange
      requires log != []
    {
      log[|log| - 1]
    }

    /** The input the frame has taken. */
    function Fed(): Bytes
      decreases |log|
    {
      if log == [] then [] else Before().Fed() + Last().Consumed()
    }

    /** The output it has given. */
    function Emitted(): Bytes
      decreases |log|
    {
      if log == [] then [] else Before().Emitted() + Last().Output()
    }

    predicate Ending() { log != [] && Last().req.end }

    predicate Ended() { Ending() && Last().reply.Reply? && Last().reply.remaining == 0 }

    /** What the interface allows next: input, then any number of calls that end the frame. */
    predicate Allows(req: Request)
    {
      && !Ended()
      && req.room >= 1
      && (if req.end then req.input == [] else req.input != [] && !Ending())
    }
  }

  /** `step` answers a call, `pending` bounds how many calls in a row can fail to take input,
      and `decode` reads a frame. */
  datatype RawCodec = RawCodec(
    step: (Session, Request) -> Reply,
    pending: Session -> nat,
    decode: Bytes -> Decoded)
  {
    ghost predicate IsFrame(packed: Bytes, content: Bytes)
    {
      decode(packed) == Frame(content, |packed|)
    }

    /** The session is one this codec can have: every reply in it is the codec's. */
    ghost predicate Conforms(s: Session)
      decreases |s.log|
    {
      s.log == [] ||
      (&& Conforms(s.Before())
       && s.Before().Allows(s.Last().req)
       && s.Last().reply.Reply?
       && s.Last().reply == step(s.Before(), s.Last().req))
    }

    /** What a call promises. Taking input, it makes progress, and refuses only what exceeds the
        pledge. Ending the frame, it refuses unless the pledge was met; otherwise it flushes,
        and in the end all output together is a frame of all input, shorter than 2^32 bytes
        for any frame that t2sz writes. */
    ghost predicate ReplyIsGood(s: Session, req: Request)
    {
      match step(s, req)
      case Refused =>
        s.pledged.Some? && if req.end then |s.Fed()| != s.pledged.value else |s.Fed()| + |req.input| > s.pledged.value
      case Reply(consumed, output, remaining) =>
        var s' := s.After(Exchange(req, Reply(consumed, output, remaining)));
        && consumed <= |req.input|
        && |output| <= req.room
        && (!req.end && consumed == 0 ==> pending(s') < pending(s))
        && (req.end && s.pledged.Some? ==> |s.Fed()| == s.pledged.value)
        && (req.end && remaining > 0 ==> pending(s') < pending(s))
        && (req.end && remaining == 0 && |s.Fed()| <= MAX_FRAME_SIZE ==>
              IsFrame(s'.Emitted(), s.Fed()) && |s'.Emitted()| < U32)
    }

    ghost predicate Valid()
    {
      && (forall f, rest: Bytes :: decode(f).Frame? && decode(f).size == |f| ==> decode(f + rest) == decode(f))
      && (forall f :: decode(f).Frame? ==> 4 <= decode(f).size <= |f| && f[..4] == ZSTD_MAGIC)
      && (forall s, req :: Conforms(s) && s.Allows(req) ==> ReplyIsGood(s, req))
    }
  }

  type Codec = c: RawCodec | c.Valid() ghost witness Stored()

  lemma AfterParts(s: Session, x: Exchange)
    ensures s.After(x).Before() == s && s.After(x).Last() == x
    ensures s.After(x).Fed() == s.Fed() + x.Consumed()
    ensures s.After(x).Emitted() == s.Emitted() + x.Output()
  {
    assert (s.log + [x])[..|s.log|] == s.log;
  }

  /** A call that the interface allows: the reply is good, and the session goes on. */
  lemma CallIsGood(c: Codec, s: Session, req: Request)
    requires c.Conforms(s) && s.Allows(req)
    ensures c.ReplyIsGood(s, req)
    ensures c.step(s, req).Reply? ==>
              var s' := s.After(Exchange(req, c.step(s, req)));
              c.Conforms(s') && s'.Ending() == req.end && (s'.Ended() <==> req.end && c.step(s, req).remaining == 0)
  {
    AfterParts(s, Exchange(req, c.step(s, req)));
  }

  // --- The promises can be kept: a codec that stores its input ---

  function Pack(content: Bytes): Bytes { ZSTD_MAGIC + LittleEndian32(|content|) + content }

  function Unpack(b: Bytes): Decoded
  {
    if |b| < 8 || b[..4] != ZSTD_MAGIC || 8 + ReadLittleEndian32(b[4..8]) > |b| then NoFrame
    else
      var n := ReadLittleEndian32(b[4..8]);
      Frame(b[8..8 + n], 8 + n)
  }

  function StoreStep(s: Session, req: Request): Reply
  {
    if !req.end then Reply(|req.input|, [], 0)
    else if s.pledged.Some? && s.pledged.value != |s.Fed()| then Refused
    else
      var left := Unflushed(s);
      var n := Min(req.room, |left|);
      Reply(0, left[..n], |left| - n)
  }

  /** What of the frame has not been given yet. */
  function Unflushed(s: Session): Bytes
  {
    var frame, given := Pack(s.Fed()), |s.Emitted()|;
    if given <= |frame| then frame[given..] else []
  }

  function UnflushedLen(s: Session): nat { |Unflushed(s)| }

  ghost function Stored(): (c: RawCodec)
    ensures c.Valid()
  {
    StoredIsValid();
    RawCodec(StoreStep, UnflushedLen, Unpack)
  }

  lemma UnpackPrefix(f: Bytes, rest: Bytes)
    requires Unpack(f).Frame? && Unpack(f).size == |f|
    ensures Unpack(f + rest) == Unpack(f)
  {
    assert (f + rest)[..4] == f[..4] && (f + rest)[4..8] == f[4..8];
    assert (f + rest)[8..|f|] == f[8..|f|];
  }

  lemma UnpackPacked(content: Bytes)
    requires |content| < U32
    ensures Unpack(Pack(content)) == Frame(content, |Pack(content)|)
  {
    var f := Pack(content);
    assert f[..4] == ZSTD_MAGIC && f[4..8] == LittleEndian32(|content|) && f[8..] == content;
    LittleEndianRoundTrip(|content|);
  }

  lemma SplitFlush(frame: Bytes, given: Bytes, n: nat)
    requires given <= frame && n <= |frame| - |given|
    ensures var given' := given + frame[|given|..][..n];
            && given' <= frame
            && frame[|given'|..] == frame[|given|..][n..]
            && frame == given' + frame[|given'|..]
  {}

  /** Nothing is given before the end, and then the frame, from its beginning. */
  lemma {:induction false} StoredPrefix(c: RawCodec, s: Session)
    requires c.step == StoreStep && c.Conforms(s)
    ensures s.Emitted() <= Pack(s.Fed())
    ensures !s.Ending() ==> s.Emitted() == []
    decreases |s.log|
  {
    if s.log != [] {
      var s0, x := s.Before(), s.Last();
      StoredPrefix(c, s0);
      assert x.reply == StoreStep(s0, x.req);
      if x.req.end {
        assert x.Consumed() == [];
        assert s.Fed() == s0.Fed();
        SplitFlush(Pack(s0.Fed()), s0.Emitted(), |x.Output()|);
      }
    }
  }

  lemma StoredFlush(c: RawCodec, s: Session, req: Request)
    requires c == RawCodec(StoreStep, UnflushedLen, Unpack)
    requires c.Conforms(s) && s.Allows(req) && req.end && StoreStep(s, req).Reply?
    ensures var s' := s.After(Exchange(req, StoreStep(s, req)));
            && s'.Fed() == s.Fed()
            && Pack(s.Fed()) == s'.Emitted() + Unflushed(s')
            && |Unflushed(s')| == StoreStep(s, req).remaining
            && |Unflushed(s')| + |StoreStep(s, req).output| == |Unflushed(s)|
  {
    StoredPrefix(c, s);
    var x := Exchange(req, StoreStep(s, req));
    AfterParts(s, x);
    assert x.Consumed() == [];
    SplitFlush(Pack(s.Fed()), s.Emitted(), |x.Output()|);
  }

  lemma StoredReply(c: RawCodec, s: Session, req: Request)
    requires c == RawCodec(StoreStep, UnflushedLen, Unpack)
    requires c.Conforms(s) && s.Allows(req)
    ensures c.ReplyIsGood(s, req)
  {
    if req.end && StoreStep(s, req).Reply? {
      StoredFlush(c, s, req);
      var s' := s.After(Exchange(req, StoreStep(s, req)));
      if StoreStep(s, req).remaining == 0 {
        assert s'.Emitted() == Pack(s.Fed());
        if |s.Fed()| <= MAX_FRAME_SIZE {
          UnpackPacked(s.Fed());
        }
      }
    }
  }

  lemma StoredIsValid()
    ensures RawCodec(StoreStep, UnflushedLen, Unpack).Valid()
  {
    var c := RawCodec(StoreStep, UnflushedLen, Unpack);
    forall f, rest: Bytes | c.decode(f).Frame? && c.decode(f).size == |f|
      ensures c.decode(f + rest) == c.decode(f)
    {
      UnpackPrefix(f, rest);
    }
    forall s, req | c.Conforms(s) && s.Allows(req)
      ensures c.ReplyIsGood(s, req)
    {
      StoredReply(c, s, req);
    }
  }
}
