/** The encoder a client runs, and the round trip: what it sends, the decoder gives
    back. */
module ChunkedEncoder {
  import opened ByteOrder
  import opened Int64
  import opened ChunkedDecoder

  const CRLF := "\r\n"

  /** A checksum trailer as sent. */
  datatype Sent = Sent(name: Bytes, value: Bytes)

  // ------------------------------------------------------------------ plain text

  /** Letters, digits and punctuation: nothing that trimming removes. */
  predicate Plain(s: Bytes) {
    forall i :: 0 <= i < |s| ==> '!' <= s[i] <= '~'
  }

  lemma PlainIsNotTrimmed(s: Bytes)
    requires Plain(s)
    ensures TrimSpace(s) == s && TrimLineEnd(s) == s
  {
  }

  lemma EndIsTrimmed(s: Bytes)
    requires Plain(s)
    ensures TrimLineEnd(s + CRLF) == s
  {
    assert (s + CRLF)[..|s| + 1] == s + "\r" && (s + "\r")[..|s|] == s;
    assert TrimLineEnd(s + CRLF) == TrimLineEnd(s + "\r") == TrimLineEnd(s);
    PlainIsNotTrimmed(s);
  }

  lemma PlainLineIsRaw(s: Bytes)
    requires Plain(s) && |s| + 2 <= MAX_CHUNK_LINE_LENGTH
    ensures RawLine(s + CRLF)
  {
    var raw := s + CRLF;
    assert raw[..|raw| - 1] == s + "\r";
  }

  lemma SplitAt(s: Bytes, c: char, more: Bytes)
    requires c !in s
    ensures Before(s + [c] + more, c) == s && AfterFirst(s + [c] + more, c) == more
  {
    var all := s + [c] + more;
    assert all[..|s|] == s && all[|s| + 1..] == more;
    FindExactly(all, c, |s|);
  }

  lemma NothingToSplit(s: Bytes, c: char)
    requires c !in s
    ensures Before(s, c) == s && AfterFirst(s, c) == ""
  {
    FoundIsIn(s, c);
    assert s[..|s|] == s;
  }

  lemma FoundIsIn(s: Bytes, c: char)
    ensures Find(s, c) < |s| ==> c in s
  {
  }

  // ----------------------------------------------------------------- hexadecimal

  function Digit(d: nat): char
    requires d < 16
  {
    "0123456789abcdef"[d]
  }

  function Hex(n: nat): (s: Bytes)
    ensures s != "" && forall i :: 0 <= i < |s| ==> '0' <= s[i] <= '9' || 'a' <= s[i] <= 'f'
  {
    if n < 16 then [Digit(n)] else Hex(n / 16) + [Digit(n % 16)]
  }

  lemma {:induction false} ParseSnoc(s: Bytes, value: nat, d: nat)
    requires d < 16 && ParseDigits(s, value).Some?
    ensures ParseDigits(s + [Digit(d)], value) == Some(16 * ParseDigits(s, value).value + d)
  {
    if s == [] {
      assert [Digit(d)][1..] == [];
    } else {
      assert (s + [Digit(d)])[1..] == s[1..] + [Digit(d)];
      ParseSnoc(s[1..], 16 * value + HexValue(s[0]).value, d);
    }
  }

  lemma {:induction false} ParseHex(n: nat)
    ensures ParseDigits(Hex(n), 0) == Some(n)
  {
    if n < 16 {
      ParseSnoc("", 0, n);
      assert "" + [Digit(n)] == Hex(n);
    } else {
      ParseHex(n / 16);
      ParseSnoc(Hex(n / 16), 0, n % 16);
    }
  }

  lemma {:induction false} HexLength(n: nat, k: nat)
    requires n < Power16(k) && k > 0
    ensures |Hex(n)| <= k
    decreases k
  {
    if n >= 16 {
      HexLength(n / 16, k - 1);
    }
  }

  function Power16(k: nat): nat {
    if k == 0 then 1 else 16 * Power16(k - 1)
  }

  lemma HexIsShort(n: nat)
    requires n <= MAX_CHUNK_SIZE
    ensures |Hex(n)| <= 7
  {
    assert Power16(1) == 16 && Power16(3) == 4096 && Power16(5) == 0x100000 && Power16(7) == 0x10000000;
    HexLength(n, 7);
  }

  lemma SizeRoundTrip(n: nat)
    requires n <= MAX_CHUNK_SIZE
    ensures ParseInt16(Hex(n)) == Some(n) && Plain(Hex(n)) && ';' !in Hex(n)
  {
    ParseHex(n);
    assert Hex(n)[0] != '-' && Hex(n)[0] != '+';
  }

  // -------------------------------------------------------------------- encoding

  /** Signatures are lower-case hexadecimal, 64 characters long. */
  ghost predicate HexSignatures(c: Config) {
    forall s :: |c.Hmac(s)| == 64 && forall i :: 0 <= i < 64 ==> '0' <= c.Hmac(s)[i] <= '9' || 'a' <= c.Hmac(s)[i] <= 'f'
  }

  function HeaderText(c: Config, prev: Bytes, data: Bytes): Bytes {
    Hex(|data|) + if c.signedChunks then [';'] + (CHUNK_SIGNATURE + ChunkSignature(c, prev, data)) else []
  }

  function EncodeFrame(c: Config, prev: Bytes, data: Bytes): Frame {
    Frame(HeaderText(c, prev, data) + CRLF, data, CRLF)
  }

  function EncodeFrames(c: Config, prev: Bytes, chunks: seq<Bytes>): (frames: seq<Frame>)
    ensures |frames| == |chunks|
    decreases |chunks|
  {
    if chunks == [] then
      []
    else
      [EncodeFrame(c, prev, chunks[0])] + EncodeFrames(c, NextSignature(c, prev, chunks[0]), chunks[1..])
  }

  function LastSignature(c: Config, prev: Bytes, chunks: seq<Bytes>): Bytes
    decreases |chunks|
  {
    if chunks == [] then prev else LastSignature(c, NextSignature(c, prev, chunks[0]), chunks[1..])
  }

  function TrailerText(t: Sent): Bytes {
    t.name + [':'] + t.value
  }

  function TrailerLines(sent: seq<Sent>): (lines: seq<Bytes>)
    ensures |lines| == |sent| && forall i :: 0 <= i < |sent| ==> lines[i] == TrailerText(sent[i]) + CRLF
  {
    seq(|sent|, i requires 0 <= i < |sent| => TrailerText(sent[i]) + CRLF)
  }

  function Canonical(sent: seq<Sent>): Bytes {
    if sent == [] then "" else Canonical(sent[..|sent| - 1]) + sent[|sent| - 1].name + ":" + sent[|sent| - 1].value + "\n"
  }

  /** In the signed trailer mode the trailers end with their signature. */
  function WithSignature(c: Config, prev: Bytes, sent: seq<Sent>): seq<Sent> {
    var signature := TrailerSignature(c, NextSignature(c, prev, ""), Canonical(sent));
    sent + if c.signedChunks && c.trailer then [Sent(TRAILER_SIGNATURE_HEADER, signature)] else []
  }

  /** What a client sends for some chunks and trailers, chained from a seed. */
  function Encode(c: Config, seed: Bytes, chunks: seq<Bytes>, sent: seq<Sent>): Encoding {
    var prev := LastSignature(c, seed, chunks);
    Encoding(EncodeFrames(c, seed, chunks), HeaderText(c, prev, "") + CRLF, TrailerLines(WithSignature(c, prev, sent)), CRLF)
  }

  lemma PlainConcat(a: Bytes, b: Bytes)
    requires Plain(a) && Plain(b)
    ensures Plain(a + b)
  {
  }

  lemma ChunkSignatureIsPlain()
    ensures Plain(CHUNK_SIGNATURE) && |CHUNK_SIGNATURE| == 16
  {
  }

  lemma SignedHeader(size: Bytes, signature: Bytes)
    requires Plain(size) && ';' !in size && Plain(signature)
    ensures
      var text := size + ([';'] + (CHUNK_SIGNATURE + signature));
      Plain(text) && |text| == |size| + 17 + |signature| && Before(text, ';') == size && HeaderSignature(text) == Some(signature)
  {
    var ext := CHUNK_SIGNATURE + signature;
    ChunkSignatureIsPlain();
    PlainConcat(CHUNK_SIGNATURE, signature);
    PlainConcat([';'], ext);
    PlainConcat(size, [';'] + ext);
    Concat(size, [';'], ext);
    SplitAt(size, ';', ext);
    assert ext[..|CHUNK_SIGNATURE|] == CHUNK_SIGNATURE && ext[|CHUNK_SIGNATURE|..] == signature;
  }

  lemma HeaderRoundTrip(c: Config, s: Stream, data: Bytes)
    requires HexSignatures(c) && |data| <= MAX_CHUNK_SIZE
    requires c.maxPayload > 0 ==> Add64(s.decoded, |data|) <= c.maxPayload
    ensures HeaderOk(c, s, HeaderText(c, s.prevSignature, data) + CRLF, data)
  {
    var text, size, signature := HeaderText(c, s.prevSignature, data), Hex(|data|), ChunkSignature(c, s.prevSignature, data);
    HexIsShort(|data|);
    SizeRoundTrip(|data|);
    PlainIsNotTrimmed(size);
    if c.signedChunks {
      assert Plain(signature) && |signature| == 64;
      SignedHeader(size, signature);
    } else {
      assert text == size;
      NothingToSplit(size, ';');
    }
    EndIsTrimmed(text);
    PlainLineIsRaw(text);
  }

  lemma EmptyLine()
    ensures RawLine(CRLF) && TrimLineEnd(CRLF) == "" && EndingOk(CRLF)
  {
    assert "" + CRLF == CRLF == CRLF + "";
    EndIsTrimmed("");
    PlainLineIsRaw("");
    ReadsRawLine(CRLF, "");
  }

  lemma FrameRoundTrip(c: Config, s: Stream, data: Bytes)
    requires HexSignatures(c) && 0 < |data| <= MAX_CHUNK_SIZE
    requires c.maxPayload > 0 ==> Add64(s.decoded, |data|) <= c.maxPayload
    ensures FrameOk(c, s, EncodeFrame(c, s.prevSignature, data))
  {
    HeaderRoundTrip(c, s, data);
    EmptyLine();
  }

  function Total(chunks: seq<Bytes>): nat {
    if chunks == [] then 0 else |chunks[0]| + Total(chunks[1..])
  }

  function Concatenated(chunks: seq<Bytes>): Bytes {
    if chunks == [] then "" else chunks[0] + Concatenated(chunks[1..])
  }

  predicate ChunksFit(c: Config, decoded: nat, chunks: seq<Bytes>) {
    && (forall i :: 0 <= i < |chunks| ==> 0 < |chunks[i]| <= 16 * 1024 * 1024)
    && decoded + Total(chunks) <= MAX_INT64
    && (c.maxPayload > 0 ==> decoded + Total(chunks) <= c.maxPayload)
  }

  lemma {:induction false} FramesRoundTrip(c: Config, s: Stream, chunks: seq<Bytes>)
    requires HexSignatures(c) && s.decoded >= 0 && ChunksFit(c, s.decoded, chunks)
    ensures
      var frames := EncodeFrames(c, s.prevSignature, chunks);
      && FramesOk(c, s, frames) && FramesData(frames) == Concatenated(chunks)
      && PastAll(c, s, frames) == Stream(s.rest, LastSignature(c, s.prevSignature, chunks), s.decoded + Total(chunks),
                                         s.hashed + Concatenated(chunks))
    decreases |chunks|
  {
    if chunks == [] {
      assert s.hashed + "" == s.hashed;
    } else {
      var f := EncodeFrame(c, s.prevSignature, chunks[0]);
      var next := Past(c, s, f, s.rest);
      FrameRoundTrip(c, s, chunks[0]);
      FramesRoundTrip(c, next, chunks[1..]);
      Concat(s.hashed, chunks[0], Concatenated(chunks[1..]));
      var frames := EncodeFrames(c, s.prevSignature, chunks);
      assert frames[1..] == EncodeFrames(c, next.prevSignature, chunks[1..]);
    }
  }

  // -------------------------------------------------------------------- trailers

  /** A trailer as clients send it: a declared lower-case name and a plain value. */
  predicate SentOk(c: Config, t: Sent) {
    && t.name in c.trailers && t.name != TRAILER_SIGNATURE_HEADER
    && Plain(t.name) && ':' !in t.name && ToLower(t.name) == t.name
    && Plain(t.value) && |t.name| + |t.value| + 3 <= 4096
  }

  predicate DistinctNames(sent: seq<Sent>) {
    forall i, j :: 0 <= i < j < |sent| ==> sent[i].name != sent[j].name
  }

  function Values(sent: seq<Sent>): map<Bytes, Bytes> {
    if sent == [] then map[] else Values(sent[..|sent| - 1])[sent[|sent| - 1].name := sent[|sent| - 1].value]
  }

  /** What the decoder asks of repeated names: all but the last value are empty. */
  predicate RepeatsEmpty(sent: seq<Sent>) {
    forall i, j :: 0 <= i < j < |sent| && sent[i].name == sent[j].name ==> sent[i].value == ""
  }

  lemma {:induction false} ValuesOf(sent: seq<Sent>)
    ensures forall name :: name in Values(sent) ==> exists i :: 0 <= i < |sent| && sent[i] == Sent(name, Values(sent)[name])
  {
    if sent != [] {
      ValuesOf(sent[..|sent| - 1]);
    }
  }

  lemma LineParses(name: Bytes, value: Bytes)
    requires Plain(name) && ':' !in name && ToLower(name) == name && Plain(value)
    ensures
      var line := TrimLineEnd(name + [':'] + value + CRLF);
      ':' in line && ToLower(TrimSpace(Before(line, ':'))) == name && TrimSpace(AfterFirst(line, ':')) == value
  {
    var line := name + [':'] + value;
    PlainConcat(name, [':']);
    PlainConcat(name + [':'], value);
    EndIsTrimmed(line);
    assert line[|name|] == ':';
    SplitAt(name, ':', value);
    PlainIsNotTrimmed(name);
    PlainIsNotTrimmed(value);
  }

  lemma SentIsAdded(c: Config, t: Trailers, sent: Sent)
    requires c.trailer && SentOk(c, sent) && t.signature == "" && (sent.name in t.values ==> t.values[sent.name] == "")
    ensures AddTrailer(c, t, TrimLineEnd(TrailerText(sent) + CRLF)) ==
            Got(Trailers(t.values[sent.name := sent.value], t.canonical + sent.name + ":" + sent.value + "\n", ""))
  {
    LineParses(sent.name, sent.value);
  }

  lemma SignatureHeaderIsPlain()
    ensures Plain(TRAILER_SIGNATURE_HEADER) && ':' !in TRAILER_SIGNATURE_HEADER
    ensures ToLower(TRAILER_SIGNATURE_HEADER) == TRAILER_SIGNATURE_HEADER
    ensures |TRAILER_SIGNATURE_HEADER| == 23
  {
  }

  lemma SignatureIsAdded(c: Config, t: Trailers, signature: Bytes)
    requires c.trailer && c.signedChunks && t.signature == "" && Plain(signature)
    ensures AddTrailer(c, t, TrimLineEnd(TrailerText(Sent(TRAILER_SIGNATURE_HEADER, signature)) + CRLF)) ==
            Got(t.(signature := signature))
  {
    SignatureHeaderIsPlain();
    LineParses(TRAILER_SIGNATURE_HEADER, signature);
  }

  lemma {:induction false} TrailersSnoc(c: Config, t: Trailers, lines: seq<Bytes>, line: Bytes)
    requires TrailersOf(c, t, lines).Got?
    ensures TrailersOf(c, t, lines + [line]) == AddTrailer(c, TrailersOf(c, t, lines).trailers, TrimLineEnd(line))
    decreases |lines|
  {
    if lines == [] {
      assert ([] + [line])[1..] == [];
      assert ([] + [line])[0] == line;
    } else {
      assert (lines + [line])[1..] == lines[1..] + [line];
      TrailersSnoc(c, AddTrailer(c, t, TrimLineEnd(lines[0])).trailers, lines[1..], line);
    }
  }

  lemma {:induction false} TrailersRoundTrip(c: Config, sent: seq<Sent>)
    requires c.trailer && RepeatsEmpty(sent) && forall i :: 0 <= i < |sent| ==> SentOk(c, sent[i])
    ensures TrailersOf(c, NO_TRAILERS, TrailerLines(sent)) == Got(Trailers(Values(sent), Canonical(sent), ""))
  {
    if sent != [] {
      var before, t := sent[..|sent| - 1], sent[|sent| - 1];
      TrailersRoundTrip(c, before);
      ValuesOf(before);
      assert TrailerLines(sent) == TrailerLines(before) + [TrailerText(t) + CRLF];
      TrailersSnoc(c, NO_TRAILERS, TrailerLines(before), TrailerText(t) + CRLF);
      SentIsAdded(c, Trailers(Values(before), Canonical(before), ""), t);
    }
  }

  lemma SignatureRoundTrip(c: Config, sent: seq<Sent>, signature: Bytes)
    requires c.trailer && c.signedChunks && RepeatsEmpty(sent) && forall i :: 0 <= i < |sent| ==> SentOk(c, sent[i])
    requires Plain(signature)
    ensures
      var lines := TrailerLines(sent + [Sent(TRAILER_SIGNATURE_HEADER, signature)]);
      TrailersOf(c, NO_TRAILERS, lines) == Got(Trailers(Values(sent), Canonical(sent), signature))
  {
    var t := Sent(TRAILER_SIGNATURE_HEADER, signature);
    TrailersRoundTrip(c, sent);
    assert TrailerLines(sent + [t]) == TrailerLines(sent) + [TrailerText(t) + CRLF];
    TrailersSnoc(c, NO_TRAILERS, TrailerLines(sent), TrailerText(t) + CRLF);
    SignatureIsAdded(c, Trailers(Values(sent), Canonical(sent), ""), signature);
  }

  lemma LinesAreRaw(sent: seq<Sent>)
    requires forall i :: 0 <= i < |sent| ==>
               Plain(sent[i].name) && Plain(sent[i].value) && |sent[i].name| + |sent[i].value| + 3 <= MAX_CHUNK_LINE_LENGTH
    ensures forall i :: 0 <= i < |sent| ==> RawLine(TrailerLines(sent)[i]) && TrimLineEnd(TrailerLines(sent)[i]) != ""
  {
    forall i | 0 <= i < |sent|
      ensures RawLine(TrailerLines(sent)[i]) && TrimLineEnd(TrailerLines(sent)[i]) != ""
    {
      PlainConcat(sent[i].name, [':']);
      PlainConcat(sent[i].name + [':'], sent[i].value);
      PlainLineIsRaw(TrailerText(sent[i]));
      EndIsTrimmed(TrailerText(sent[i]));
    }
  }

  /** What a client has to get right: every declared trailer is sent, in the end with
      the checksum of the whole payload, and the declared length is its length. */
  ghost predicate ClientOk(c: Config, chunks: seq<Bytes>, sent: seq<Sent>) {
    && HexSignatures(c) && ChunksFit(c, 0, chunks)
    && (!c.trailer ==> c.trailers == [] && sent == [])
    && RepeatsEmpty(sent) && (forall i :: 0 <= i < |sent| ==> SentOk(c, sent[i]))
    && ChecksumsOk(c, Values(sent), Concatenated(chunks))
    && (c.declaredLen >= 0 ==> c.declaredLen == Total(chunks))
  }

  lemma EncodedTrailers(c: Config, seed: Bytes, chunks: seq<Bytes>, sent: seq<Sent>)
    requires ClientOk(c, chunks, sent)
    ensures
      var e := Encode(c, seed, chunks, sent);
      var prev := NextSignature(c, LastSignature(c, seed, chunks), "");
      && (forall i :: 0 <= i < |e.lines| ==> RawLine(e.lines[i]) && TrimLineEnd(e.lines[i]) != "")
      && TrailersOf(c, NO_TRAILERS, e.lines) ==
         Got(Trailers(Values(sent), Canonical(sent),
                      if c.signedChunks && c.trailer then TrailerSignature(c, prev, Canonical(sent)) else ""))
  {
    if c.signedChunks && c.trailer {
      var prev := NextSignature(c, LastSignature(c, seed, chunks), "");
      var signature := TrailerSignature(c, prev, Canonical(sent));
      SignatureHeaderIsPlain();
      LinesAreRaw(sent + [Sent(TRAILER_SIGNATURE_HEADER, signature)]);
      SignatureRoundTrip(c, sent, signature);
    } else {
      assert sent + [] == sent;
      LinesAreRaw(sent);
      if c.trailer {
        TrailersRoundTrip(c, sent);
      }
    }
  }

  /** The trailer section of an encoding, past its frames. */
  lemma TailRoundTrip(c: Config, seed: Bytes, chunks: seq<Bytes>, sent: seq<Sent>, s: Stream)
    requires ClientOk(c, chunks, sent)
    requires s.prevSignature == LastSignature(c, seed, chunks) && s.decoded == Total(chunks) && s.hashed == Concatenated(chunks)
    ensures TailOk(c, s, Encode(c, seed, chunks, sent))
  {
    HeaderRoundTrip(c, s, "");
    EmptyLine();
    EncodedTrailers(c, seed, chunks, sent);
  }

  /** What a client sends is a valid encoding of its chunks, whatever follows it. */
  lemma EncodeIsValid(c: Config, seed: Bytes, chunks: seq<Bytes>, sent: seq<Sent>, more: Bytes)
    requires ClientOk(c, chunks, sent)
    ensures
      var e := Encode(c, seed, chunks, sent).(ending := CRLF + more);
      Encodes(c, Start(seed, EncodingBytes(e)), e, Concatenated(chunks))
  {
    var e := Encode(c, seed, chunks, sent).(ending := CRLF + more);
    var s := Start(seed, EncodingBytes(e));
    FramesRoundTrip(c, s, chunks);
    TailRoundTrip(c, seed, chunks, sent, PastAll(c, s, e.frames));
    EmptyLine();
    ReadsRawLine(CRLF, more);
  }

  /** What a client sends decodes to its chunks, in every mode; nothing that follows
      it matters. */
  lemma RoundTrip(c: Config, seed: Bytes, chunks: seq<Bytes>, sent: seq<Sent>, more: Bytes)
    requires ClientOk(c, chunks, sent)
    ensures Decode(c, Start(seed, EncodingBytes(Encode(c, seed, chunks, sent)) + more)) == Decoded(Concatenated(chunks), Eof)
  {
    var e := Encode(c, seed, chunks, sent);
    var longer := e.(ending := CRLF + more);
    EncodeIsValid(c, seed, chunks, sent, more);
    EndingLast(e, more);
    ValidDecodes(c, Start(seed, EncodingBytes(longer)), longer);
  }

  lemma EndingLast(e: Encoding, more: Bytes)
    ensures EncodingBytes(e.(ending := e.ending + more)) == EncodingBytes(e) + more
  {
    Concat(Joined(e.lines), e.ending, more);
    Concat(e.last, Joined(e.lines) + e.ending, more);
    Concat(FramesBytes(e.frames), TailBytes(e), more);
  }

  /** The names of the trailer lines sent. */
  lemma LineNames(c: Config, prev: Bytes, sent: seq<Sent>)
    requires HexSignatures(c) && forall i :: 0 <= i < |sent| ==> SentOk(c, sent[i])
    ensures
      var all := WithSignature(c, prev, sent);
      forall i :: 0 <= i < |all| ==> LineName(Texts(TrailerLines(all))[i]) == all[i].name
  {
    var all := WithSignature(c, prev, sent);
    SignatureHeaderIsPlain();
    forall i | 0 <= i < |all|
      ensures LineName(Texts(TrailerLines(all))[i]) == all[i].name
    {
      LineParses(all[i].name, all[i].value);
    }
  }

  lemma NamesOfSent(c: Config, prev: Bytes, sent: seq<Sent>)
    requires HexSignatures(c) && forall i :: 0 <= i < |sent| ==> SentOk(c, sent[i])
    ensures NamesDiffer(Texts(TrailerLines(WithSignature(c, prev, sent)))) <==> DistinctNames(sent)
  {
    var all := WithSignature(c, prev, sent);
    var texts := Texts(TrailerLines(all));
    LineNames(c, prev, sent);
    if NamesDiffer(texts) {
      forall i, j | 0 <= i < j < |sent|
        ensures sent[i].name != sent[j].name
      {
        assert LineName(texts[i]) != LineName(texts[j]);
      }
    }
  }

  lemma SentSection(c: Config, seed: Bytes, chunks: seq<Bytes>, sent: seq<Sent>, more: Bytes)
    requires ClientOk(c, chunks, sent)
    ensures
      var e := Encode(c, seed, chunks, sent);
      LastSection(c, Start(seed, EncodingBytes(e) + more)) == Section(Texts(e.lines), more)
  {
    var e := Encode(c, seed, chunks, sent);
    var longer := e.(ending := CRLF + more);
    EncodeIsValid(c, seed, chunks, sent, more);
    EndingLast(e, more);
    ValidSection(c, Start(seed, EncodingBytes(longer)), longer);
    EmptyLine();
    ReadsRawLine(CRLF, more);
  }

  /** What is sent and what follows it are a strict encoding exactly if nothing
      follows and no trailer is sent twice; they decode cleanly in any case. */
  lemma SentIsStrictIff(c: Config, seed: Bytes, chunks: seq<Bytes>, sent: seq<Sent>, more: Bytes)
    requires ClientOk(c, chunks, sent)
    ensures
      var s := Start(seed, EncodingBytes(Encode(c, seed, chunks, sent)) + more);
      StrictlyEncodes(c, s, Concatenated(chunks)) <==> more == "" && DistinctNames(sent)
  {
    RoundTrip(c, seed, chunks, sent, more);
    SentSection(c, seed, chunks, sent, more);
    NamesOfSent(c, LastSignature(c, seed, chunks), sent);
    CleanEndIsStrictIff(c, Start(seed, EncodingBytes(Encode(c, seed, chunks, sent)) + more), Concatenated(chunks));
  }

  /** A declared trailer may be sent with no value and then again with its checksum:
      the body decodes cleanly, although it is no strict encoding. */
  lemma SecondTrailerIsAccepted(c: Config, seed: Bytes, chunks: seq<Bytes>, name: Bytes, value: Bytes)
    requires c.trailer && c.trailers == [name] && SentOk(c, Sent(name, value))
    requires HexSignatures(c) && ChunksFit(c, 0, chunks) && c.declaredLen < 0
    requires c.DecodeExpected(name, value) == Some(c.Checksum(name, Concatenated(chunks)))
    ensures
      var sent := [Sent(name, ""), Sent(name, value)];
      var s := Start(seed, EncodingBytes(Encode(c, seed, chunks, sent)));
      Decode(c, s) == Decoded(Concatenated(chunks), Eof) && !StrictlyEncodes(c, s, Concatenated(chunks))
  {
    var sent := [Sent(name, ""), Sent(name, value)];
    var first := [Sent(name, "")];
    assert first[..0] == [] && Values(first) == map[name := ""];
    assert sent[..1] == first && Values(sent) == map[name := value];
    assert !DistinctNames(sent) by {
      assert sent[0].name == sent[1].name;
    }
    var bytes := EncodingBytes(Encode(c, seed, chunks, sent));
    assert bytes + "" == bytes;
    RoundTrip(c, seed, chunks, sent, "");
    SentIsStrictIff(c, seed, chunks, sent, "");
  }
}
