/** The aws-chunked body format: lines, chunk headers and trailers as the decoder
    reads them, and the valid encodings it accepts. */
module ChunkedDecoder {
  import opened ByteOrder
  import opened Int64

  const LF: char := '\n'
  const CR: char := '\r'
  const MAX_CHUNK_LINE_LENGTH := 4096
  const MAX_CHUNK_SIZE := 16 * 1024 * 1024
  const CHUNK_SIGNATURE_PREFIX := "AWS4-HMAC-SHA256-PAYLOAD"
  const TRAILER_SIGNATURE_PREFIX := "AWS4-HMAC-SHA256-TRAILER"
  const TRAILER_SIGNATURE_HEADER := "x-amz-trailer-signature"
  const CHUNK_SIGNATURE := "chunk-signature="

  /** How a body ends for its reader. */
  datatype Outcome =
    | Eof
    | Malformed(message: string)
    | EntityTooLarge
    | ChunkTooLarge
    | ChunkSignatureMismatch
    | TrailerSignatureMismatch
    | UndeclaredTrailer(name: Bytes)
    | TrailerNotSent(name: Bytes)
    | InvalidTrailer(name: Bytes)
    | BadDigest(name: Bytes)
    | IncompleteBody

  /** What a decoder is set up with. `Hmac` signs with the request's key and
      `Sha256` hashes, both to lower-case hex; `Checksum` computes the checksum a
      trailer names and `DecodeExpected` reads its value. `trailers` are the declared
      checksum trailers in the order they are gone through at the end. */
  datatype Config = Config(
    signedChunks: bool,
    trailer: bool,
    Hmac: Bytes -> Bytes,
    Sha256: Bytes -> Bytes,
    Checksum: (Bytes, Bytes) -> Bytes,
    DecodeExpected: (Bytes, Bytes) -> Option<Bytes>,
    dateStr: Bytes,
    scope: Bytes,
    trailers: seq<Bytes>,
    declaredLen: int, // -1 if not declared
    maxPayload: int)  // 0 for no limit

  // ----------------------------------------------------------------- Go strings

  predicate IsSpace(c: char) {
    c == ' ' || ('\U{0009}' <= c <= '\U{000d}')
  }

  function TrimLeft(s: Bytes): Bytes {
    if s != [] && IsSpace(s[0]) then TrimLeft(s[1..]) else s
  }

  function TrimRight(s: Bytes): Bytes {
    if s != [] && IsSpace(s[|s| - 1]) then TrimRight(s[..|s| - 1]) else s
  }

  function TrimSpace(s: Bytes): Bytes {
    TrimRight(TrimLeft(s))
  }

  function TrimLineEnd(s: Bytes): Bytes {
    if s != [] && (s[|s| - 1] == CR || s[|s| - 1] == LF) then TrimLineEnd(s[..|s| - 1]) else s
  }

  function Lower(c: char): char {
    if 'A' <= c <= 'Z' then (c as int + 32) as char else c
  }

  function ToLower(s: Bytes): Bytes {
    seq(|s|, i requires 0 <= i < |s| => Lower(s[i]))
  }

  /** The first position of a character, or the length. */
  function Find(s: Bytes, c: char): (i: nat)
    ensures i <= |s| && c !in s[..i] && (i < |s| ==> s[i] == c)
  {
    if s == [] || s[0] == c then 0 else
      var i := Find(s[1..], c) + 1;
      assert s[..i] == [s[0]] + s[1..][..i - 1];
      i
  }

  function Before(s: Bytes, c: char): Bytes {
    s[..Find(s, c)]
  }

  function AfterFirst(s: Bytes, c: char): Bytes {
    if Find(s, c) < |s| then s[Find(s, c) + 1..] else ""
  }

  function HexValue(c: char): Option<nat> {
    if '0' <= c <= '9' then
      Some(c as int - '0' as int)
    else if 'a' <= c <= 'f' then
      Some(c as int - 'a' as int + 10)
    else if 'A' <= c <= 'F' then
      Some(c as int - 'A' as int + 10)
    else
      None
  }

  function ParseDigits(s: Bytes, value: nat): Option<nat> {
    if s == [] then
      Some(value)
    else
      match HexValue(s[0])
      case None => None
      case Some(d) => ParseDigits(s[1..], 16 * value + d)
  }

  /** strconv.ParseInt with base 16 and 64 bits. */
  function ParseInt16(s: Bytes): Option<int> {
    var negative := s != [] && s[0] == '-';
    var digits := if s != [] && (s[0] == '-' || s[0] == '+') then s[1..] else s;
    if digits == [] then
      None
    else
      match ParseDigits(digits, 0)
      case None => None
      case Some(v) =>
        var magnitude: int := v;
        var value := if negative then -magnitude else magnitude;
        if -MAX_INT64 - 1 <= value <= MAX_INT64 then Some(value) else None
  }

  // ---------------------------------------------------------------------- lines

  datatype Line = Line(text: Bytes, rest: Bytes) | EndOfBody | BadLine

  /** Reads one line through a buffer that holds the longest line there may be. */
  function ReadChunkLine(s: Bytes): (r: Line)
    ensures r.Line? ==> |r.rest| < |s|
  {
    var i := Find(s, LF);
    if i < |s| && i < MAX_CHUNK_LINE_LENGTH then
      Line(TrimLineEnd(s[..i + 1]), s[i + 1..])
    else if s == [] then
      EndOfBody
    else
      BadLine
  }

  /** The bytes of one line on the wire, its line feed included. */
  predicate RawLine(raw: Bytes) {
    0 < |raw| <= MAX_CHUNK_LINE_LENGTH && raw[|raw| - 1] == LF && LF !in raw[..|raw| - 1]
  }

  lemma FindExactly(s: Bytes, c: char, i: nat)
    requires i < |s| && s[i] == c && c !in s[..i]
    ensures Find(s, c) == i
  {
    var j := Find(s, c);
    assert forall k :: 0 <= k < i ==> s[..i][k] == s[k];
    assert forall k :: 0 <= k < j ==> s[..j][k] == s[k];
  }

  lemma ReadsRawLine(raw: Bytes, more: Bytes)
    requires RawLine(raw)
    ensures ReadChunkLine(raw + more) == Line(TrimLineEnd(raw), more)
  {
    var s, i := raw + more, |raw| - 1;
    assert s[..i] == raw[..i];
    FindExactly(s, LF, i);
    assert s[..i + 1] == raw && s[i + 1..] == more;
  }

  lemma LineIsRaw(s: Bytes) returns (raw: Bytes)
    requires ReadChunkLine(s).Line?
    ensures RawLine(raw) && s == raw + ReadChunkLine(s).rest && ReadChunkLine(s).text == TrimLineEnd(raw)
  {
    var i := Find(s, LF);
    raw := s[..i + 1];
    assert raw[..i] == s[..i];
  }

  // --------------------------------------------------------------------- chunks

  /** How far a body is decoded: what is left of it, the last signature, how many
      bytes were decoded, and what the checksums have seen. */
  datatype Stream = Stream(rest: Bytes, prevSignature: Bytes, decoded: int, hashed: Bytes)

  datatype Step = Chunk(data: Bytes, next: Stream) | Stop(outcome: Outcome)

  function ChunkSignature(c: Config, prev: Bytes, data: Bytes): Bytes {
    c.Hmac(CHUNK_SIGNATURE_PREFIX + "\n" + c.dateStr + "\n" + c.scope + "\n" + prev + "\n" + c.Sha256("") + "\n" + c.Sha256(data))
  }

  function TrailerSignature(c: Config, prev: Bytes, canonical: Bytes): Bytes {
    c.Hmac(TRAILER_SIGNATURE_PREFIX + "\n" + c.dateStr + "\n" + c.scope + "\n" + prev + "\n" + c.Sha256(canonical))
  }

  /** The signature and size a chunk header declares. */
  function HeaderSignature(header: Bytes): Option<Bytes> {
    var ext := AfterFirst(header, ';');
    if HasPrefix(ext, CHUNK_SIGNATURE) then Some(ext[|CHUNK_SIGNATURE|..]) else None
  }

  function HeaderSize(header: Bytes): Option<int> {
    ParseInt16(TrimSpace(Before(header, ';')))
  }

  function NextSignature(c: Config, prev: Bytes, data: Bytes): Bytes {
    if c.signedChunks then ChunkSignature(c, prev, data) else prev
  }

  /** Reads and verifies one chunk; after the last, the trailer section. */
  function NextChunk(c: Config, s: Stream): (r: Step)
    ensures r.Chunk? ==> |r.next.rest| < |s.rest| && r.data != []
  {
    match ReadChunkLine(s.rest)
    case EndOfBody => Stop(Malformed("could not read chunk header"))
    case BadLine => Stop(Malformed("could not read chunk header"))
    case Line(header, rest) =>
      if c.signedChunks && HeaderSignature(header).None? then
        Stop(Malformed("missing chunk-signature"))
      else if HeaderSize(header).None? || HeaderSize(header).value < 0 then
        Stop(Malformed("invalid chunk size"))
      else
        ChunkBody(c, s.(rest := rest), header, HeaderSize(header).value)
  }

  function ChunkBody(c: Config, s: Stream, header: Bytes, size: nat): (r: Step)
    requires c.signedChunks ==> HeaderSignature(header).Some?
    ensures r.Chunk? ==> |r.next.rest| <= |s.rest| && r.data != []
  {
    if c.maxPayload > 0 && Add64(s.decoded, size) > c.maxPayload then
      Stop(EntityTooLarge)
    else if size > MAX_CHUNK_SIZE then
      Stop(ChunkTooLarge)
    else if size == 0 then
      if c.signedChunks && HeaderSignature(header).value != ChunkSignature(c, s.prevSignature, "") then
        Stop(ChunkSignatureMismatch)
      else
        Stop(Finish(c, s.(prevSignature := NextSignature(c, s.prevSignature, ""))))
    else if |s.rest| < size then
      Stop(Malformed("truncated chunk data"))
    else
      var data := s.rest[..size];
      match ReadChunkLine(s.rest[size..])
      case EndOfBody => Stop(Malformed("missing chunk terminator"))
      case BadLine => Stop(Malformed("missing chunk terminator"))
      case Line(terminator, rest) =>
        if terminator != "" then
          Stop(Malformed("missing chunk terminator"))
        else if c.signedChunks && HeaderSignature(header).value != ChunkSignature(c, s.prevSignature, data) then
          Stop(ChunkSignatureMismatch)
        else
          Chunk(data, Stream(rest, NextSignature(c, s.prevSignature, data), Add64(s.decoded, size), s.hashed + data))
  }

  // ------------------------------------------------------------------- trailers

  datatype Trailers = Trailers(values: map<Bytes, Bytes>, canonical: Bytes, signature: Bytes)

  datatype Collected = Got(trailers: Trailers) | Refused(outcome: Outcome)

  /** Takes in one trailer line. */
  function AddTrailer(c: Config, t: Trailers, line: Bytes): (r: Collected)
    ensures r.Refused? ==> r.outcome != Eof
  {
    if ':' !in line then
      Refused(Malformed("invalid trailer line"))
    else
      var name, value := ToLower(TrimSpace(Before(line, ':'))), TrimSpace(AfterFirst(line, ':'));
      if name == TRAILER_SIGNATURE_HEADER && c.signedChunks && c.trailer && t.signature == "" then
        Got(t.(signature := value))
      else if !c.trailer then
        Refused(Malformed("unexpected trailer"))
      else if t.signature != "" then
        Refused(Malformed("trailer after the trailer signature"))
      else if name !in c.trailers then
        Refused(UndeclaredTrailer(name))
      else if name in t.values && t.values[name] != "" then
        Refused(Malformed("duplicate trailer"))
      else
        Got(t.(values := t.values[name := value], canonical := t.canonical + name + ":" + value + "\n"))
  }

  function CollectTrailers(c: Config, t: Trailers, rest: Bytes): (r: Collected)
    ensures r.Refused? ==> r.outcome != Eof
    decreases |rest|
  {
    match ReadChunkLine(rest)
    case EndOfBody => Got(t)
    case BadLine => Refused(Malformed("could not read trailer"))
    case Line(line, more) =>
      if line == "" then
        Got(t)
      else
        match AddTrailer(c, t, line)
        case Refused(outcome) => Refused(outcome)
        case Got(t1) => CollectTrailers(c, t1, more)
  }

  /** Checks the declared checksums, in order, against what was sent. */
  function CheckTrailers(c: Config, names: seq<Bytes>, values: map<Bytes, Bytes>, data: Bytes): Outcome {
    if names == [] then
      Eof
    else
      var name := names[0];
      if name !in values then
        TrailerNotSent(name)
      else
        match c.DecodeExpected(name, values[name])
        case None => InvalidTrailer(name)
        case Some(want) =>
          if c.Checksum(name, data) != want then BadDigest(name) else CheckTrailers(c, names[1..], values, data)
  }

  const NO_TRAILERS := Trailers(map[], "", "")

  /** Reads and verifies what follows the last chunk. */
  function Finish(c: Config, s: Stream): Outcome {
    match CollectTrailers(c, NO_TRAILERS, s.rest)
    case Refused(outcome) => outcome
    case Got(t) => Conclude(c, s, t)
  }

  function Conclude(c: Config, s: Stream, t: Trailers): Outcome {
    if c.signedChunks && c.trailer && TrailerSignature(c, s.prevSignature, t.canonical) != t.signature then
      TrailerSignatureMismatch
    else
      var checked := CheckTrailers(c, c.trailers, t.values, s.hashed);
      if checked != Eof then
        checked
      else if c.declaredLen >= 0 && c.declaredLen != s.decoded then
        IncompleteBody
      else
        Eof
  }

  // ---------------------------------------------------------------- whole bodies

  datatype Decoded = Decoded(data: Bytes, outcome: Outcome)

  /** Everything the decoder yields from here on, and how it ends. */
  function Decode(c: Config, s: Stream): Decoded
    decreases |s.rest|
  {
    match NextChunk(c, s)
    case Stop(outcome) => Decoded("", outcome)
    case Chunk(data, next) =>
      var later := Decode(c, next);
      Decoded(data + later.data, later.outcome)
  }

  function Start(seed: Bytes, body: Bytes): Stream {
    Stream(body, seed, 0, "")
  }

  // ------------------------------------------------------------- valid encodings

  /** One chunk on the wire. */
  datatype Frame = Frame(header: Bytes, data: Bytes, terminator: Bytes)

  /** A header that declares its data's size and, if chunks are signed, a signature
      chained to the previous one. */
  predicate HeaderOk(c: Config, s: Stream, header: Bytes, data: Bytes) {
    && RawLine(header)
    && HeaderSize(TrimLineEnd(header)) == Some(|data|)
    && |data| <= MAX_CHUNK_SIZE
    && (c.maxPayload > 0 ==> Add64(s.decoded, |data|) <= c.maxPayload)
    && (c.signedChunks ==> HeaderSignature(TrimLineEnd(header)) == Some(ChunkSignature(c, s.prevSignature, data)))
  }

  predicate FrameOk(c: Config, s: Stream, f: Frame) {
    f.data != "" && HeaderOk(c, s, f.header, f.data) && RawLine(f.terminator) && TrimLineEnd(f.terminator) == ""
  }

  /** The decoder's state past a frame. */
  function Past(c: Config, s: Stream, f: Frame, rest: Bytes): Stream {
    Stream(rest, NextSignature(c, s.prevSignature, f.data), Add64(s.decoded, |f.data|), s.hashed + f.data)
  }

  function FrameBytes(f: Frame): Bytes {
    f.header + f.data + f.terminator
  }

  /** The decoder's state past some frames. */
  function PastAll(c: Config, s: Stream, frames: seq<Frame>): Stream
    decreases |frames|
  {
    if frames == [] then s else PastAll(c, Past(c, s, frames[0], s.rest), frames[1..])
  }

  /** Well-formed frames, each one's signature chained from the one before. */
  predicate FramesOk(c: Config, s: Stream, frames: seq<Frame>)
    decreases |frames|
  {
    frames == [] || (FrameOk(c, s, frames[0]) && FramesOk(c, Past(c, s, frames[0], s.rest), frames[1..]))
  }

  function FramesBytes(frames: seq<Frame>): Bytes {
    if frames == [] then "" else FrameBytes(frames[0]) + FramesBytes(frames[1..])
  }

  function FramesData(frames: seq<Frame>): Bytes {
    if frames == [] then "" else frames[0].data + FramesData(frames[1..])
  }

  /** An encoding: frames, the header of the zero-size chunk, trailer lines, and an
      ending that is nothing or starts with an empty line. */
  datatype Encoding = Encoding(frames: seq<Frame>, last: Bytes, lines: seq<Bytes>, ending: Bytes)

  function Joined(parts: seq<Bytes>): Bytes {
    if parts == [] then "" else parts[0] + Joined(parts[1..])
  }

  function TailBytes(e: Encoding): Bytes {
    e.last + (Joined(e.lines) + e.ending)
  }

  function EncodingBytes(e: Encoding): Bytes {
    FramesBytes(e.frames) + TailBytes(e)
  }

  /** What a list of trailer lines amounts to. */
  function TrailersOf(c: Config, t: Trailers, lines: seq<Bytes>): Collected
    decreases |lines|
  {
    if lines == [] then
      Got(t)
    else
      match AddTrailer(c, t, TrimLineEnd(lines[0]))
      case Refused(outcome) => Refused(outcome)
      case Got(t1) => TrailersOf(c, t1, lines[1..])
  }

  predicate EndingOk(ending: Bytes) {
    ending == "" || (ReadChunkLine(ending).Line? && ReadChunkLine(ending).text == "")
  }

  /** Every declared checksum was sent and is right. */
  predicate ChecksumsOk(c: Config, values: map<Bytes, Bytes>, data: Bytes) {
    forall name :: name in c.trailers ==> name in values && c.DecodeExpected(name, values[name]) == Some(c.Checksum(name, data))
  }

  predicate TailOk(c: Config, s: Stream, e: Encoding) {
    && HeaderOk(c, s, e.last, "")
    && (forall i :: 0 <= i < |e.lines| ==> RawLine(e.lines[i]) && TrimLineEnd(e.lines[i]) != "")
    && EndingOk(e.ending)
    && var collected := TrailersOf(c, NO_TRAILERS, e.lines);
       && collected.Got?
       && (c.signedChunks && c.trailer ==>
             collected.trailers.signature ==
             TrailerSignature(c, NextSignature(c, s.prevSignature, ""), collected.trailers.canonical))
       && ChecksumsOk(c, collected.trailers.values, s.hashed)
       && (c.declaredLen >= 0 ==> c.declaredLen == s.decoded)
  }

  predicate EncodingOk(c: Config, s: Stream, e: Encoding) {
    FramesOk(c, s, e.frames) && TailOk(c, PastAll(c, s, e.frames), e)
  }

  // ------------------------------------------------- chunks and frames are the same

  lemma BodyIsFrame(c: Config, s: Stream, header: Bytes, text: Bytes, size: nat) returns (f: Frame)
    requires c.signedChunks ==> HeaderSignature(text).Some?
    requires ChunkBody(c, s, text, size).Chunk?
    ensures f.header == header && |f.data| == size && RawLine(f.terminator) && TrimLineEnd(f.terminator) == ""
    ensures s.rest == f.data + (f.terminator + ChunkBody(c, s, text, size).next.rest)
    ensures ChunkBody(c, s, text, size) == Chunk(f.data, Past(c, s, f, ChunkBody(c, s, text, size).next.rest))
  {
    var terminator := LineIsRaw(s.rest[size..]);
    assert s.rest == s.rest[..size] + s.rest[size..];
    f := Frame(header, s.rest[..size], terminator);
  }

  lemma ChunkIsFrame(c: Config, s: Stream) returns (f: Frame)
    requires NextChunk(c, s).Chunk?
    ensures FrameOk(c, s, f) && s.rest == FrameBytes(f) + NextChunk(c, s).next.rest
    ensures NextChunk(c, s) == Chunk(f.data, Past(c, s, f, NextChunk(c, s).next.rest))
  {
    var read, more := ReadChunkLine(s.rest), NextChunk(c, s).next.rest;
    var header := LineIsRaw(s.rest);
    f := BodyIsFrame(c, s.(rest := read.rest), header, read.text, HeaderSize(read.text).value);
    Concat(f.header + f.data, f.terminator, more);
    Concat(f.header, f.data, f.terminator + more);
  }

  lemma DataIsChunk(c: Config, s: Stream, f: Frame, more: Bytes)
    requires FrameOk(c, s, f) && s.rest == f.data + (f.terminator + more)
    ensures ChunkBody(c, s, TrimLineEnd(f.header), |f.data|) == Chunk(f.data, Past(c, s, f, more))
  {
    ReadsRawLine(f.terminator, more);
    assert s.rest[..|f.data|] == f.data && s.rest[|f.data|..] == f.terminator + more;
  }

  lemma FrameIsChunk(c: Config, s: Stream, f: Frame, more: Bytes)
    requires FrameOk(c, s, f) && s.rest == FrameBytes(f) + more
    ensures NextChunk(c, s) == Chunk(f.data, Past(c, s, f, more))
  {
    var rest := f.data + (f.terminator + more);
    Concat(f.header + f.data, f.terminator, more);
    Concat(f.header, f.data, f.terminator + more);
    ReadsRawLine(f.header, rest);
    DataIsChunk(c, s.(rest := rest), f, more);
  }

  // ------------------------------------------------------------ trailer sections

  lemma {:induction false} CollectedLines(c: Config, t: Trailers, rest: Bytes) returns (lines: seq<Bytes>, ending: Bytes)
    requires CollectTrailers(c, t, rest).Got?
    ensures rest == Joined(lines) + ending && EndingOk(ending)
    ensures forall i :: 0 <= i < |lines| ==> RawLine(lines[i]) && TrimLineEnd(lines[i]) != ""
    ensures TrailersOf(c, t, lines) == CollectTrailers(c, t, rest)
    decreases |rest|
  {
    var read := ReadChunkLine(rest);
    if read.EndOfBody? || read.text == "" {
      lines, ending := [], rest;
    } else {
      var raw := LineIsRaw(rest);
      lines, ending := CollectedLines(c, AddTrailer(c, t, read.text).trailers, read.rest);
      Concat(raw, Joined(lines), ending);
      assert ([raw] + lines)[1..] == lines;
      lines := [raw] + lines;
    }
  }

  lemma {:induction false} LinesCollect(c: Config, t: Trailers, lines: seq<Bytes>, ending: Bytes)
    requires EndingOk(ending)
    requires forall i :: 0 <= i < |lines| ==> RawLine(lines[i]) && TrimLineEnd(lines[i]) != ""
    ensures CollectTrailers(c, t, Joined(lines) + ending) == TrailersOf(c, t, lines)
    decreases |lines|
  {
    if lines == [] {
      assert Joined(lines) + ending == ending;
    } else {
      var more := Joined(lines[1..]) + ending;
      Concat(lines[0], Joined(lines[1..]), ending);
      ReadsRawLine(lines[0], more);
      match AddTrailer(c, t, TrimLineEnd(lines[0]))
      case Refused(_) =>
      case Got(t1) => LinesCollect(c, t1, lines[1..], ending);
    }
  }

  lemma {:induction false} ChecksumsAreChecked(c: Config, names: seq<Bytes>, values: map<Bytes, Bytes>, data: Bytes)
    ensures CheckTrailers(c, names, values, data) == Eof <==>
            forall name :: name in names ==> name in values && c.DecodeExpected(name, values[name]) == Some(c.Checksum(name, data))
  {
    if names != [] {
      ChecksumsAreChecked(c, names[1..], values, data);
      assert names[0] in names;
      assert forall name :: name in names <==> name == names[0] || name in names[1..];
    }
  }

  lemma EofHeader(c: Config, s: Stream) returns (last: Bytes)
    requires NextChunk(c, s) == Stop(Eof)
    ensures ReadChunkLine(s.rest).Line? && s.rest == last + ReadChunkLine(s.rest).rest && HeaderOk(c, s, last, "")
    ensures
      Finish(c, s.(rest := ReadChunkLine(s.rest).rest, prevSignature := NextSignature(c, s.prevSignature, ""))) == Eof
  {
    last := LineIsRaw(s.rest);
  }

  lemma EofIsTail(c: Config, s: Stream) returns (e: Encoding)
    requires NextChunk(c, s) == Stop(Eof)
    ensures e.frames == [] && TailOk(c, s, e) && s.rest == TailBytes(e)
  {
    var last := EofHeader(c, s);
    var rest := ReadChunkLine(s.rest).rest;
    var lines, ending := CollectedLines(c, NO_TRAILERS, rest);
    e := Encoding([], last, lines, ending);
    ChecksumsAreChecked(c, c.trailers, TrailersOf(c, NO_TRAILERS, lines).trailers.values, s.hashed);
  }

  lemma TailIsEof(c: Config, s: Stream, e: Encoding)
    requires TailOk(c, s, e) && s.rest == TailBytes(e)
    ensures NextChunk(c, s) == Stop(Eof)
  {
    ReadsRawLine(e.last, Joined(e.lines) + e.ending);
    LinesCollect(c, NO_TRAILERS, e.lines, e.ending);
    ChecksumsAreChecked(c, c.trailers, TrailersOf(c, NO_TRAILERS, e.lines).trailers.values, s.hashed);
  }

  // -------------------------------------------------------------- main theorems

  lemma PastIgnoresRest(c: Config, s: Stream, rest: Bytes, frames: seq<Frame>)
    ensures FramesOk(c, s.(rest := rest), frames) == FramesOk(c, s, frames)
    ensures PastAll(c, s.(rest := rest), frames) == PastAll(c, s, frames).(rest := rest)
    decreases |frames|
  {
    if frames != [] {
      var a, b := Past(c, s, frames[0], s.rest), Past(c, s, frames[0], rest);
      PastIgnoresRest(c, a, rest, frames[1..]);
      assert a.(rest := rest) == b;
    }
  }

  /** However decoding ends, what it yields is the data of frames at the start of the
      body, all of them well-formed and signed in a chain. */
  lemma {:induction false} YieldsVerifiedFrames(c: Config, s: Stream) returns (frames: seq<Frame>, tail: Bytes)
    ensures s.rest == FramesBytes(frames) + tail && FramesOk(c, s, frames)
    ensures Decode(c, s).data == FramesData(frames)
    ensures NextChunk(c, PastAll(c, s, frames).(rest := tail)) == Stop(Decode(c, s).outcome)
    decreases |s.rest|
  {
    match NextChunk(c, s)
    case Stop(_) =>
      frames, tail := [], s.rest;
    case Chunk(data, next) =>
      var f := ChunkIsFrame(c, s);
      frames, tail := YieldsVerifiedFrames(c, next);
      PastIgnoresRest(c, Past(c, s, f, s.rest), next.rest, frames);
      Concat(FrameBytes(f), FramesBytes(frames), tail);
      assert ([f] + frames)[1..] == frames;
      frames := [f] + frames;
  }

  /** A body is read to a clean end only if it is a valid encoding of the data. */
  lemma CleanEndMeansValid(c: Config, s: Stream) returns (e: Encoding)
    requires Decode(c, s).outcome == Eof
    ensures EncodingOk(c, s, e) && s.rest == EncodingBytes(e) && Decode(c, s).data == FramesData(e.frames)
  {
    var frames, tail := YieldsVerifiedFrames(c, s);
    e := EofIsTail(c, PastAll(c, s, frames).(rest := tail));
    e := e.(frames := frames);
  }

  /** The decoder reads the first frame of a valid encoding, and a valid encoding
      follows it. */
  lemma FirstFrame(c: Config, s: Stream, e: Encoding)
    requires EncodingOk(c, s, e) && s.rest == EncodingBytes(e) && e.frames != []
    ensures
      var f, rest := e.frames[0], e.(frames := e.frames[1..]);
      var next := Past(c, s, f, EncodingBytes(rest));
      NextChunk(c, s) == Chunk(f.data, next) && EncodingOk(c, next, rest) && |EncodingBytes(rest)| < |s.rest|
  {
    var f, rest := e.frames[0], e.(frames := e.frames[1..]);
    Concat(FrameBytes(f), FramesBytes(rest.frames), TailBytes(e));
    FrameIsChunk(c, s, f, EncodingBytes(rest));
    PastIgnoresRest(c, Past(c, s, f, s.rest), EncodingBytes(rest), rest.frames);
  }

  /** Every valid encoding is read to a clean end, and yields its data. */
  lemma {:induction false} ValidDecodes(c: Config, s: Stream, e: Encoding)
    requires EncodingOk(c, s, e) && s.rest == EncodingBytes(e)
    ensures Decode(c, s) == Decoded(FramesData(e.frames), Eof)
    decreases |e.frames|
  {
    if e.frames == [] {
      assert "" + TailBytes(e) == TailBytes(e);
      TailIsEof(c, s, e);
    } else {
      var rest := e.(frames := e.frames[1..]);
      FirstFrame(c, s, e);
      ValidDecodes(c, Past(c, s, e.frames[0], EncodingBytes(rest)), rest);
    }
  }

  /** A body decodes cleanly to some data exactly if it is a valid encoding of it. */
  lemma DecodesExactlyValidEncodings(c: Config, s: Stream, data: Bytes)
    ensures Decode(c, s) == Decoded(data, Eof) <==>
            exists e :: EncodingOk(c, s, e) && s.rest == EncodingBytes(e) && FramesData(e.frames) == data
  {
    if Decode(c, s) == Decoded(data, Eof) {
      var e := CleanEndMeansValid(c, s);
    }
    if e :| EncodingOk(c, s, e) && s.rest == EncodingBytes(e) && FramesData(e.frames) == data {
      ValidDecodes(c, s, e);
    }
  }

  // ------------------------------------------------- validity in terms of the data

  /** A header line that declares the size of the data and, if chunks are signed, a
      signature chained to `prev`. */
  predicate HeaderSigned(c: Config, prev: Bytes, header: Bytes, data: Bytes) {
    && RawLine(header) && |data| <= MAX_CHUNK_SIZE
    && HeaderSize(TrimLineEnd(header)) == Some(|data|)
    && (c.signedChunks ==> HeaderSignature(TrimLineEnd(header)) == Some(ChunkSignature(c, prev, data)))
  }

  predicate FramesSigned(c: Config, prev: Bytes, frames: seq<Frame>)
    decreases |frames|
  {
    frames == [] ||
    (var f := frames[0];
     && f.data != "" && HeaderSigned(c, prev, f.header, f.data) && RawLine(f.terminator) && TrimLineEnd(f.terminator) == ""
     && FramesSigned(c, NextSignature(c, prev, f.data), frames[1..]))
  }

  function SignatureAfter(c: Config, prev: Bytes, frames: seq<Frame>): Bytes
    decreases |frames|
  {
    if frames == [] then prev else SignatureAfter(c, NextSignature(c, prev, frames[0].data), frames[1..])
  }

  /** A complete encoding of the data: signed in a chain from the seed, within the
      payload bound, of the declared length, with the declared checksums of the data. */
  predicate CompleteEncoding(c: Config, seed: Bytes, e: Encoding, data: Bytes) {
    var prev := SignatureAfter(c, seed, e.frames);
    && FramesSigned(c, seed, e.frames) && data == FramesData(e.frames)
    && HeaderSigned(c, prev, e.last, "")
    && (forall i :: 0 <= i < |e.lines| ==> RawLine(e.lines[i]) && TrimLineEnd(e.lines[i]) != "")
    && EndingOk(e.ending)
    && (c.maxPayload > 0 ==> |data| <= c.maxPayload)
    && (c.declaredLen >= 0 ==> c.declaredLen == |data|)
    && var collected := TrailersOf(c, NO_TRAILERS, e.lines);
       && collected.Got?
       && (c.signedChunks && c.trailer ==>
             collected.trailers.signature == TrailerSignature(c, NextSignature(c, prev, ""), collected.trailers.canonical))
       && ChecksumsOk(c, collected.trailers.values, data)
  }

  lemma {:induction false} DataIsShorter(frames: seq<Frame>)
    ensures |FramesData(frames)| <= |FramesBytes(frames)|
    decreases |frames|
  {
    if frames != [] {
      DataIsShorter(frames[1..]);
    }
  }

  /** The decoder's count and its checksums have seen exactly the data of the frames,
      as long as the count does not overflow. */
  lemma {:induction false} CountsTheData(c: Config, s: Stream, frames: seq<Frame>)
    requires 0 <= s.decoded && s.decoded + |FramesData(frames)| <= MAX_INT64
    ensures
      var past := PastAll(c, s, frames);
      && past.decoded == s.decoded + |FramesData(frames)| && past.hashed == s.hashed + FramesData(frames)
      && past.prevSignature == SignatureAfter(c, s.prevSignature, frames)
    decreases |frames|
  {
    if frames == [] {
      assert s.hashed + "" == s.hashed;
    } else {
      CountsTheData(c, Past(c, s, frames[0], s.rest), frames[1..]);
      Concat(s.hashed, frames[0].data, FramesData(frames[1..]));
    }
  }

  /** The payload bound on each chunk is the bound on all their data. */
  lemma {:induction false} FramesOkIff(c: Config, s: Stream, frames: seq<Frame>)
    requires 0 <= s.decoded && s.decoded + |FramesData(frames)| <= MAX_INT64
    ensures FramesOk(c, s, frames) <==>
            FramesSigned(c, s.prevSignature, frames) &&
            (c.maxPayload > 0 && frames != [] ==> s.decoded + |FramesData(frames)| <= c.maxPayload)
    decreases |frames|
  {
    if frames != [] {
      FramesOkIff(c, Past(c, s, frames[0], s.rest), frames[1..]);
    }
  }

  lemma EncodingOkIff(c: Config, seed: Bytes, body: Bytes, e: Encoding)
    requires |FramesData(e.frames)| <= MAX_INT64
    ensures EncodingOk(c, Start(seed, body), e) <==> CompleteEncoding(c, seed, e, FramesData(e.frames))
  {
    var s, data := Start(seed, body), FramesData(e.frames);
    FramesOkIff(c, s, e.frames);
    CountsTheData(c, s, e.frames);
    var past := PastAll(c, s, e.frames);
    assert "" + data == data;
    assert past.decoded == |data| && past.hashed == data;
    assert HeaderOk(c, past, e.last, "") <==>
           HeaderSigned(c, past.prevSignature, e.last, "") && (c.maxPayload > 0 ==> |data| <= c.maxPayload);
  }

  /** A body decodes cleanly to some data exactly if it is a complete encoding of it,
      up to the empty line after its trailers. */
  lemma DecodesExactlyCompleteEncodings(c: Config, seed: Bytes, body: Bytes, data: Bytes)
    requires |body| <= MAX_INT64
    ensures Decode(c, Start(seed, body)) == Decoded(data, Eof) <==>
            exists e :: body == EncodingBytes(e) && CompleteEncoding(c, seed, e, data)
  {
    var s := Start(seed, body);
    if Decode(c, s) == Decoded(data, Eof) {
      var e := CleanEndMeansValid(c, s);
      DataIsShorter(e.frames);
      EncodingOkIff(c, seed, body, e);
    }
    if e :| body == EncodingBytes(e) && CompleteEncoding(c, seed, e, data) {
      DataIsShorter(e.frames);
      EncodingOkIff(c, seed, body, e);
      ValidDecodes(c, s, e);
    }
  }

  /** However decoding ends, no more than the payload bound is handed out; at a clean
      end it is as long as declared. */
  lemma LengthsAreOfTheData(c: Config, seed: Bytes, body: Bytes)
    requires |body| <= MAX_INT64
    ensures
      var decoded := Decode(c, Start(seed, body));
      && (c.maxPayload > 0 ==> |decoded.data| <= c.maxPayload)
      && (decoded.outcome == Eof && c.declaredLen >= 0 ==> |decoded.data| == c.declaredLen)
  {
    var s := Start(seed, body);
    var frames, tail := YieldsVerifiedFrames(c, s);
    DataIsShorter(frames);
    FramesOkIff(c, s, frames);
    if Decode(c, s).outcome == Eof {
      DecodesExactlyCompleteEncodings(c, seed, body, Decode(c, s).data);
    }
  }

  /** A chunk that would pass the payload bound is refused as such, unless its size
      and what was decoded overflow 64 bits: then it is refused as too large a chunk. */
  lemma OversizedIsRefused(c: Config, s: Stream, size: nat)
    requires ReadChunkLine(s.rest).Line? && HeaderSize(ReadChunkLine(s.rest).text) == Some(size)
    requires c.signedChunks ==> HeaderSignature(ReadChunkLine(s.rest).text).Some?
    requires 0 <= s.decoded && s.decoded + MAX_CHUNK_SIZE <= MAX_INT64
    requires 0 < c.maxPayload <= MAX_INT64 && s.decoded + size > c.maxPayload
    ensures NextChunk(c, s) == Stop(if s.decoded + size > MAX_INT64 then ChunkTooLarge else EntityTooLarge)
  {
  }

  // ------------------------------------------------------------ strict encodings

  function LineName(line: Bytes): Bytes {
    ToLower(TrimSpace(Before(line, ':')))
  }

  function LineValue(line: Bytes): Bytes {
    TrimSpace(AfterFirst(line, ':'))
  }

  predicate NamesDiffer(lines: seq<Bytes>) {
    forall i, j :: 0 <= i < j < |lines| ==> LineName(lines[i]) != LineName(lines[j])
  }

  function Texts(raws: seq<Bytes>): (texts: seq<Bytes>)
    ensures |texts| == |raws| && forall i :: 0 <= i < |raws| ==> texts[i] == TrimLineEnd(raws[i])
  {
    seq(|raws|, i requires 0 <= i < |raws| => TrimLineEnd(raws[i]))
  }

  /** An encoding with nothing after its empty line and no trailer sent twice. */
  predicate Strict(e: Encoding) {
    (e.ending == "" || (RawLine(e.ending) && TrimLineEnd(e.ending) == "")) && NamesDiffer(Texts(e.lines))
  }

  predicate Encodes(c: Config, s: Stream, e: Encoding, data: Bytes) {
    EncodingOk(c, s, e) && s.rest == EncodingBytes(e) && FramesData(e.frames) == data
  }

  ghost predicate StrictlyEncodes(c: Config, s: Stream, data: Bytes) {
    exists e :: Encodes(c, s, e, data) && Strict(e)
  }

  /** The trailer lines of a body, and what is left unread after the empty line. */
  datatype Section = Section(lines: seq<Bytes>, unread: Bytes)

  function ReadSection(rest: Bytes): Section
    decreases |rest|
  {
    match ReadChunkLine(rest)
    case EndOfBody => Section([], "")
    case BadLine => Section([], rest)
    case Line(line, more) =>
      if line == "" then
        Section([], more)
      else
        var later := ReadSection(more);
        Section([line] + later.lines, later.unread)
  }

  /** What the decoder finds after the last chunk. */
  function LastSection(c: Config, s: Stream): Section
    decreases |s.rest|
  {
    match NextChunk(c, s)
    case Chunk(_, next) => LastSection(c, next)
    case Stop(_) => if ReadChunkLine(s.rest).Line? then ReadSection(ReadChunkLine(s.rest).rest) else Section([], s.rest)
  }

  function Unread(ending: Bytes): Bytes
    requires EndingOk(ending)
  {
    if ending == "" then "" else ReadChunkLine(ending).rest
  }

  lemma {:induction false} SectionOfLines(lines: seq<Bytes>, ending: Bytes)
    requires EndingOk(ending)
    requires forall i :: 0 <= i < |lines| ==> RawLine(lines[i]) && TrimLineEnd(lines[i]) != ""
    ensures ReadSection(Joined(lines) + ending) == Section(Texts(lines), Unread(ending))
    decreases |lines|
  {
    if lines == [] {
      assert Joined(lines) + ending == ending;
    } else {
      Concat(lines[0], Joined(lines[1..]), ending);
      ReadsRawLine(lines[0], Joined(lines[1..]) + ending);
      SectionOfLines(lines[1..], ending);
      assert Texts(lines) == [TrimLineEnd(lines[0])] + Texts(lines[1..]);
    }
  }

  lemma {:induction false} ValidSection(c: Config, s: Stream, e: Encoding)
    requires EncodingOk(c, s, e) && s.rest == EncodingBytes(e)
    ensures LastSection(c, s) == Section(Texts(e.lines), Unread(e.ending))
    decreases |e.frames|
  {
    if e.frames == [] {
      assert "" + TailBytes(e) == TailBytes(e);
      TailIsEof(c, s, e);
      ReadsRawLine(e.last, Joined(e.lines) + e.ending);
      SectionOfLines(e.lines, e.ending);
    } else {
      var rest := e.(frames := e.frames[1..]);
      FirstFrame(c, s, e);
      ValidSection(c, Past(c, s, e.frames[0], EncodingBytes(rest)), rest);
    }
  }

  lemma EndingIsOneLine(ending: Bytes)
    requires EndingOk(ending)
    ensures Unread(ending) == "" <==> ending == "" || (RawLine(ending) && TrimLineEnd(ending) == "")
  {
    if ending != "" {
      var raw := LineIsRaw(ending);
      if RawLine(ending) {
        ReadsRawLine(ending, "");
        assert ending + "" == ending;
      }
    }
  }

  /** A body that decodes cleanly is a strict encoding of its data exactly if nothing
      of it is left unread and no trailer is sent twice. */
  lemma CleanEndIsStrictIff(c: Config, s: Stream, data: Bytes)
    requires Decode(c, s) == Decoded(data, Eof)
    ensures StrictlyEncodes(c, s, data) <==> LastSection(c, s).unread == "" && NamesDiffer(LastSection(c, s).lines)
  {
    var e := CleanEndMeansValid(c, s);
    ValidSection(c, s, e);
    EndingIsOneLine(e.ending);
    assert Encodes(c, s, e, data);
    if f :| Encodes(c, s, f, data) && Strict(f) {
      ValidSection(c, s, f);
      EndingIsOneLine(f.ending);
    }
  }

  /** A name that cannot be sent again: it has a value, or the signature has. */
  predicate Closed(c: Config, t: Trailers, name: Bytes) {
    || t.signature != ""
    || (name in t.values && t.values[name] != "" && !(name == TRAILER_SIGNATURE_HEADER && c.signedChunks && c.trailer))
  }

  lemma {:induction false} ClosedIsRefused(c: Config, t: Trailers, lines: seq<Bytes>, j: nat)
    requires j < |lines| && Closed(c, t, LineName(TrimLineEnd(lines[j])))
    ensures TrailersOf(c, t, lines).Refused?
    decreases |lines|
  {
    var first := AddTrailer(c, t, TrimLineEnd(lines[0]));
    if j > 0 && first.Got? {
      ClosedIsRefused(c, first.trailers, lines[1..], j - 1);
    }
  }

  /** Where trailers are accepted, a name is sent again only after an empty value. */
  lemma {:induction false} SentTwiceIsEmptyFirst(c: Config, t: Trailers, lines: seq<Bytes>, i: nat, j: nat)
    requires TrailersOf(c, t, lines).Got? && i < j < |lines|
    requires LineName(TrimLineEnd(lines[i])) == LineName(TrimLineEnd(lines[j]))
    ensures LineValue(TrimLineEnd(lines[i])) == ""
    decreases |lines|
  {
    var first := AddTrailer(c, t, TrimLineEnd(lines[0]));
    if i > 0 {
      SentTwiceIsEmptyFirst(c, first.trailers, lines[1..], i - 1, j - 1);
    } else if LineValue(TrimLineEnd(lines[0])) != "" {
      ClosedIsRefused(c, first.trailers, lines[1..], j - 1);
    }
  }

  /** So a client that sends no empty trailer and nothing after the empty line has
      its body read only as a strict encoding. */
  lemma CleanEndIsStrict(c: Config, s: Stream, data: Bytes)
    requires Decode(c, s) == Decoded(data, Eof) && LastSection(c, s).unread == ""
    requires forall line :: line in LastSection(c, s).lines ==> LineValue(line) != ""
    ensures StrictlyEncodes(c, s, data)
  {
    var e := CleanEndMeansValid(c, s);
    ValidSection(c, s, e);
    var texts := LastSection(c, s).lines;
    forall i, j | 0 <= i < j < |texts|
      ensures LineName(texts[i]) != LineName(texts[j])
    {
      if LineName(texts[i]) == LineName(texts[j]) {
        assert texts[i] in texts;
        SentTwiceIsEmptyFirst(c, NO_TRAILERS, e.lines, i, j);
      }
    }
    CleanEndIsStrictIff(c, s, data);
  }
}
