/**
 Length-prefixed messages (section "Requests" of the gRPC over HTTP2 protocol
 document): a flag octet, a big-endian 32-bit length, and the message. The
 writer frames messages; the decoder reassembles frames from arbitrary chunks.
 */
module MessageFraming {
  import opened Common

  const UINT32_LIMIT := 0x1_0000_0000

  function ReadUInt32BE(b: Bytes): (n: nat)
    requires |b| == 4
  {
    ((b[0] as nat * 256 + b[1] as nat) * 256 + b[2] as nat) * 256 + b[3] as nat
  }

  function UInt32BE(n: nat): (b: Bytes)
    requires n < UINT32_LIMIT
    ensures |b| == 4
  {
    [(n / 0x100_0000) as byte, (n / 0x1_0000 % 256) as byte, (n / 0x100 % 256) as byte, (n % 256) as byte]
  }

  lemma LengthRoundTrip(n: nat)
    requires n < UINT32_LIMIT
    ensures ReadUInt32BE(UInt32BE(n)) == n
  {
  }

  function Flatten(chunks: seq<Bytes>): Bytes {
    if chunks == [] then [] else Flatten(chunks[..|chunks| - 1]) + chunks[|chunks| - 1]
  }

  lemma {:induction false} FlattenAppend(a: seq<Bytes>, b: seq<Bytes>)
    ensures Flatten(a + b) == Flatten(a) + Flatten(b)
    decreases |b|
  {
    if b == [] {
      assert a + b == a;
    } else {
      FlattenAppend(a, b[..|b| - 1]);
      assert (a + b)[..|a + b| - 1] == a + b[..|b| - 1];
    }
  }

  // ----- Frames, and the one-shot parse of a stream -----

  ghost predicate IsFrame(f: Bytes) {
    |f| >= 5 && |f| == 5 + ReadUInt32BE(f[1..5])
  }

  /** No frame can be cut off the front yet. */
  ghost predicate Incomplete(s: Bytes) {
    |s| < 5 || |s| < 5 + ReadUInt32BE(s[1..5])
  }

  datatype Parsed = Parsed(frames: seq<Bytes>, rest: Bytes)

  function Parse(s: Bytes): Parsed
    decreases |s|
  {
    if |s| < 5 || |s| < 5 + ReadUInt32BE(s[1..5]) then Parsed([], s)
    else
      var n := 5 + ReadUInt32BE(s[1..5]);
      var tail := Parse(s[n..]);
      Parsed([s[..n]] + tail.frames, tail.rest)
  }

  ghost predicate Splits(s: Bytes, p: Parsed) {
    && s == Flatten(p.frames) + p.rest
    && (forall i | 0 <= i < |p.frames| :: IsFrame(p.frames[i]))
    && Incomplete(p.rest)
  }

  lemma {:induction false} FlattenCons(f: Bytes, fs: seq<Bytes>)
    ensures Flatten([f] + fs) == f + Flatten(fs)
  {
    FlattenAppend([f], fs);
    FlattenSnoc([], f);
    assert [] + [f] == [f];
  }

  /** The parse loses and invents nothing. */
  lemma {:induction false} ParseSplits(s: Bytes)
    ensures Splits(s, Parse(s))
    decreases |s|
  {
    if !Incomplete(s) {
      var n := 5 + ReadUInt32BE(s[1..5]);
      CutFrame(s, n);
      ParseSplits(s[n..]);
      PrependFrame(s[..n], s[n..], Parse(s[n..]));
    }
  }

  lemma CutFrame(s: Bytes, n: nat)
    requires 5 <= |s| && n == 5 + ReadUInt32BE(s[1..5]) <= |s|
    ensures IsFrame(s[..n]) && s == s[..n] + s[n..]
  {
  }

  lemma PrependFrame(f: Bytes, s: Bytes, p: Parsed)
    requires IsFrame(f) && Splits(s, p)
    ensures Splits(f + s, Parsed([f] + p.frames, p.rest))
  {
    FlattenCons(f, p.frames);
    Assoc(f, Flatten(p.frames), p.rest);
  }

  /** Nor is there any other way to split a stream into frames. */
  lemma {:induction false} ParseUnique(s: Bytes, p: Parsed)
    requires Splits(s, p)
    ensures p == Parse(s)
    decreases |p.frames|
  {
    if p.frames == [] {
      assert s == p.rest;
    } else {
      var f := p.frames[0];
      var tail := Parsed(p.frames[1..], p.rest);
      assert p.frames == [f] + tail.frames;
      FlattenCons(f, tail.frames);
      assert s == f + (Flatten(tail.frames) + tail.rest);
      assert s[..|f|] == f && s[|f|..] == Flatten(tail.frames) + tail.rest;
      assert s[1..5] == f[1..5];
      ParseUnique(s[|f|..], tail);
    }
  }

  /** Parsing in two steps, keeping the rest, is parsing at once. */
  lemma {:induction false} ParseResumes(a: Bytes, b: Bytes)
    ensures var p := Parse(a); var q := Parse(p.rest + b);
            Parse(a + b) == Parsed(p.frames + q.frames, q.rest)
  {
    var p := Parse(a);
    var q := Parse(p.rest + b);
    ParseSplits(a);
    ParseSplits(p.rest + b);
    FlattenAppend(p.frames, q.frames);
    Assoc(Flatten(p.frames), p.rest, b);
    Assoc(Flatten(p.frames), Flatten(q.frames), q.rest);
    ParseUnique(a + b, Parsed(p.frames + q.frames, q.rest));
  }

  lemma Assoc(a: Bytes, b: Bytes, c: Bytes)
    ensures a + b + c == a + (b + c)
  {
  }

  lemma {:induction false} FlattenSnoc(fs: seq<Bytes>, f: Bytes)
    ensures Flatten(fs + [f]) == Flatten(fs) + f
  {
  }

  // ----- The framer -----

  function Frame(compressed: bool, body: Bytes): Bytes
    requires |body| < UINT32_LIMIT
  {
    [if compressed then 1 else 0] + UInt32BE(|body|) + body
  }

  lemma FrameIsFrame(compressed: bool, body: Bytes)
    requires |body| < UINT32_LIMIT
    ensures IsFrame(Frame(compressed, body)) && Frame(compressed, body)[5..] == body
  {
    assert Frame(compressed, body)[1..5] == UInt32BE(|body|);
    LengthRoundTrip(|body|);
  }

  /** zlib and the like: uninterpreted, and decompression may fail. */
  datatype Handler =
    | Identity
    | Codec(compress: Bytes -> Bytes, decompress: Bytes -> Option<Bytes>)
    | Unknown

  /** The framed form of a message, or None where the source rejects. */
  function Framed(handler: Handler, message: Bytes, compress: bool): Option<Bytes> {
    match handler
    case Identity => if |message| < UINT32_LIMIT then Some(Frame(false, message)) else None
    case Codec(c, _) =>
      var body := if compress then c(message) else message;
      if |body| < UINT32_LIMIT then Some(Frame(compress, body)) else None
    case Unknown =>
      if !compress && |message| < UINT32_LIMIT then Some(Frame(false, message)) else None
  }

  /** Fills a fresh buffer, as writeMessage does. */
  method WriteMessage(handler: Handler, message: Bytes, compress: bool) returns (r: Option<Bytes>)
    ensures r == Framed(handler, message, compress)
  {
    var flag := false;
    var messageBuffer := message;
    if !handler.Identity? && compress {
      if handler.Unknown? {
        return None;
      }
      messageBuffer := handler.compress(message);
      flag := true;
    }
    if |messageBuffer| >= UINT32_LIMIT {
      return None;
    }
    var output := new byte[|messageBuffer| + 5];
    output[0] := if flag then 1 else 0;
    var size := UInt32BE(|messageBuffer|);
    forall k | 0 <= k < 4 { output[1 + k] := size[k]; }
    forall k | 0 <= k < |messageBuffer| { output[5 + k] := messageBuffer[k]; }
    assert output[..] == Frame(flag, messageBuffer);
    return Some(output[..]);
  }

  datatype ReadResult = Message(message: Bytes) | Rejected | OutOfRange

  /** Strips the header; a bad length octet count is the caller's business, but
      an empty buffer has no flag to read. */
  function ReadMessage(handler: Handler, data: Bytes): ReadResult {
    if data == [] then OutOfRange
    else
      var messageBuffer := if |data| >= 5 then data[5..] else [];
      if data[0] == 1 then
        match handler
        case Codec(_, d) => (match d(messageBuffer) case Some(m) => Message(m) case None => Rejected)
        case _ => Rejected
      else Message(messageBuffer)
  }

  /** What one side frames, the other side reads back, given an invertible codec. */
  lemma ReadInvertsWrite(handler: Handler, message: Bytes, compress: bool)
    requires handler.Codec? && compress ==> handler.decompress(handler.compress(message)) == Some(message)
    ensures var framed := Framed(handler, message, compress);
            framed.Some? ==> IsFrame(framed.value) && ReadMessage(handler, framed.value) == Message(message)
  {
    var framed := Framed(handler, message, compress);
    if framed.Some? {
      var body := if compress && handler.Codec? then handler.compress(message) else message;
      FrameIsFrame(compress && handler.Codec?, body);
    }
  }
}

module StreamDecoding {
  import opened Common
  import opened MessageFraming

  datatype ReadState = NoData | ReadingSize | ReadingMessage

  class StreamDecoder {
    var readState: ReadState
    var readCompressFlag: Bytes
    const readPartialSize: array<byte>
    var readSizeRemaining: nat
    var readMessageSize: nat
    var readPartialMessage: seq<Bytes>
    var readMessageRemaining: nat

    ghost predicate Valid()
      reads this, readPartialSize
    {
      && readPartialSize.Length == 4
      && (readState != NoData ==> |readCompressFlag| == 1)
      && (readState == ReadingSize ==> 1 <= readSizeRemaining <= 4 && readPartialMessage == [])
      && (readState == ReadingMessage ==>
            && readMessageSize == ReadUInt32BE(readPartialSize[..])
            && |Flatten(readPartialMessage)| + readMessageRemaining == readMessageSize
            && readMessageRemaining > 0)
    }

    /** The bytes of the unfinished frame held back so far. */
    ghost function Pending(): Bytes
      requires Valid()
      reads this, readPartialSize
    {
      match readState
      case NoData => []
      case ReadingSize => readCompressFlag + readPartialSize[..4 - readSizeRemaining]
      case ReadingMessage => readCompressFlag + readPartialSize[..] + Flatten(readPartialMessage)
    }

    lemma PendingIncomplete()
      requires Valid()
      ensures Incomplete(Pending())
    {
    }

    constructor ()
      ensures Valid() && Pending() == [] && fresh(readPartialSize)
    {
      readState, readCompressFlag := NoData, [0];
      readPartialSize := new byte[4](_ => 0);
      readSizeRemaining, readMessageSize, readPartialMessage, readMessageRemaining := 4, 0, [], 0;
    }

    /** Consumes a chunk: the frames it completes are those of a one-shot parse
        of what was pending and the chunk, and the parse's rest is kept. */
    method Write(data: Bytes) returns (result: seq<Bytes>)
      requires Valid()
      modifies this, readPartialSize
      ensures Valid()
      ensures Parsed(result, Pending()) == Parse(old(Pending()) + data)
    {
      var readHead := 0;
      result := [];
      while readHead < |data|
        invariant readHead <= |data| && Valid()
        invariant Flatten(result) + Pending() == old(Pending()) + data[..readHead]
        invariant forall i | 0 <= i < |result| :: IsFrame(result[i])
        decreases |data| - readHead
      {
        ghost var pending := Pending();
        var consumed, frame := ReadStep(data[readHead..]);
        Consume(Flatten(result), pending, old(Pending()), data, readHead, consumed);
        if frame.Some? {
          FlattenSnoc(result, frame.value);
          result := result + [frame.value];
        }
        readHead := readHead + consumed;
      }
      PendingIncomplete();
      assert data[..readHead] == data;
      ParseUnique(old(Pending()) + data, Parsed(result, Pending()));
    }

    static lemma Consume(flat: Bytes, pending: Bytes, start: Bytes, data: Bytes, head: nat, consumed: nat)
      requires head + consumed <= |data| && flat + pending == start + data[..head]
      ensures flat + (pending + data[head..][..consumed]) == start + data[..head + consumed]
    {
      assert data[..head + consumed] == data[..head] + data[head..][..consumed];
      Assoc(flat, pending, data[head..][..consumed]);
      Assoc(start, data[..head], data[head..][..consumed]);
    }

    /** One turn of the loop on the unread part of the chunk. */
    method ReadStep(data: Bytes) returns (consumed: nat, frame: Option<Bytes>)
      requires Valid() && data != []
      modifies this, readPartialSize
      ensures Valid() && 1 <= consumed <= |data|
      ensures frame.None? ==> Pending() == old(Pending()) + data[..consumed]
      ensures frame.Some? ==>
                IsFrame(frame.value) && Pending() == [] && frame.value == old(Pending()) + data[..consumed]
    {
      match readState {
        case NoData => consumed, frame := ReadFlag(data);
        case ReadingSize => consumed, frame := ReadSize(data);
        case ReadingMessage => consumed, frame := ReadBody(data);
      }
    }

    method ReadFlag(data: Bytes) returns (consumed: nat, frame: Option<Bytes>)
      requires Valid() && data != [] && readState == NoData
      modifies this, readPartialSize
      ensures Valid() && consumed == 1 && frame == None && Pending() == old(Pending()) + data[..1]
    {
      readCompressFlag := data[0..1];
      consumed := 1;
      readState := ReadingSize;
      forall k | 0 <= k < 4 { readPartialSize[k] := 0; }
      readSizeRemaining, readMessageSize, readMessageRemaining, readPartialMessage := 4, 0, 0, [];
      frame := None;
    }

    method ReadSize(data: Bytes) returns (consumed: nat, frame: Option<Bytes>)
      requires Valid() && data != [] && readState == ReadingSize
      modifies this, readPartialSize
      ensures Valid() && 1 <= consumed <= |data|
      ensures frame.None? ==> Pending() == old(Pending()) + data[..consumed]
      ensures frame.Some? ==>
                IsFrame(frame.value) && Pending() == [] && frame.value == old(Pending()) + data[..consumed]
    {
      consumed := Min(|data|, readSizeRemaining);
      var at := 4 - readSizeRemaining;
      forall k | 0 <= k < consumed { readPartialSize[at + k] := data[k]; }
      assert readPartialSize[..at + consumed] == old(readPartialSize[..at]) + data[..consumed];
      Assoc(readCompressFlag, old(readPartialSize[..at]), data[..consumed]);
      readSizeRemaining := readSizeRemaining - consumed;
      frame := None;
      if readSizeRemaining == 0 {
        assert readPartialSize[..4] == readPartialSize[..];
        frame := FinishSize();
      }
    }

    /** The length is complete: an empty message is a frame already. */
    method FinishSize() returns (frame: Option<Bytes>)
      requires readPartialSize.Length == 4 && |readCompressFlag| == 1 && readPartialMessage == []
               && readState == ReadingSize
      modifies this
      ensures Valid() && readCompressFlag == old(readCompressFlag)
      ensures frame.None? ==> Pending() == readCompressFlag + readPartialSize[..]
      ensures frame.Some? ==>
                IsFrame(frame.value) && Pending() == [] && frame.value == readCompressFlag + readPartialSize[..]
    {
      readMessageSize := ReadUInt32BE(readPartialSize[..]);
      readMessageRemaining := readMessageSize;
      frame := None;
      if readMessageRemaining > 0 {
        readState := ReadingMessage;
      } else {
        readState := NoData;
        frame := Some(readCompressFlag + readPartialSize[..]);
        assert frame.value[1..5] == readPartialSize[..];
      }
    }

    method ReadBody(data: Bytes) returns (consumed: nat, frame: Option<Bytes>)
      requires Valid() && data != [] && readState == ReadingMessage
      modifies this, readPartialSize
      ensures Valid() && 1 <= consumed <= |data|
      ensures frame.None? ==> Pending() == old(Pending()) + data[..consumed]
      ensures frame.Some? ==>
                IsFrame(frame.value) && Pending() == [] && frame.value == old(Pending()) + data[..consumed]
    {
      consumed := Min(|data|, readMessageRemaining);
      FlattenSnoc(readPartialMessage, data[..consumed]);
      Assoc(readCompressFlag + readPartialSize[..], Flatten(readPartialMessage), data[..consumed]);
      readPartialMessage := readPartialMessage + [data[..consumed]];
      readMessageRemaining := readMessageRemaining - consumed;
      frame := None;
      if readMessageRemaining == 0 {
        readState := NoData;
        frame := Some(readCompressFlag + readPartialSize[..] + Flatten(readPartialMessage));
        assert frame.value[1..5] == readPartialSize[..];
      }
    }
  }

  /** Successive writes of any split of a stream give the one-shot parse. */
  method DecodeChunks(decoder: StreamDecoder, chunks: seq<Bytes>) returns (frames: seq<Bytes>)
    requires decoder.Valid()
    modifies decoder, decoder.readPartialSize
    ensures decoder.Valid()
    ensures Parsed(frames, decoder.Pending()) == Parse(old(decoder.Pending()) + Flatten(chunks))
  {
    frames := [];
    decoder.PendingIncomplete();
    ghost var start := decoder.Pending();
    for i := 0 to |chunks|
      invariant decoder.Valid()
      invariant Parsed(frames, decoder.Pending()) == Parse(start + Flatten(chunks[..i]))
    {
      assert chunks[..i + 1] == chunks[..i] + [chunks[i]];
      FlattenSnoc(chunks[..i], chunks[i]);
      Assoc(start, Flatten(chunks[..i]), chunks[i]);
      ParseResumes(start + Flatten(chunks[..i]), chunks[i]);
      var more := decoder.Write(chunks[i]);
      frames := frames + more;
    }
    assert chunks[..|chunks|] == chunks;
  }

  /** Framing any messages, splitting the bytes anywhere, decoding and stripping
      the headers returns the messages. */
  method RoundTrip(handler: Handler, messages: seq<Bytes>, compress: bool, chunks: seq<Bytes>)
    returns (received: seq<Bytes>)
    requires forall i | 0 <= i < |messages| :: Framed(handler, messages[i], compress).Some?
    requires handler.Codec? && compress ==>
               forall i | 0 <= i < |messages| :: handler.decompress(handler.compress(messages[i])) == Some(messages[i])
    requires Flatten(chunks)
             == Flatten(seq(|messages|, i requires 0 <= i < |messages| => Framed(handler, messages[i], compress).value))
    ensures received == messages
  {
    ghost var sent := seq(|messages|, i requires 0 <= i < |messages| => Framed(handler, messages[i], compress).value);
    var decoder := new StreamDecoder();
    var frames := DecodeChunks(decoder, chunks);
    forall i | 0 <= i < |messages|
      ensures IsFrame(sent[i]) && ReadMessage(handler, sent[i]) == Message(messages[i])
    {
      ReadInvertsWrite(handler, messages[i], compress);
    }
    assert [] + Flatten(chunks) == Flatten(sent) + [];
    ParseUnique([] + Flatten(chunks), Parsed(sent, []));
    received := [];
    for i := 0 to |frames|
      invariant received == messages[..i]
    {
      var r := ReadMessage(handler, frames[i]);
      received := received + [r.message];
    }
  }
}
