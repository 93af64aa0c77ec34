/** What the chain of signatures is for: whoever can only repeat a client's
    signatures cannot reorder, drop, alter or add chunks or trailers. */
module SignatureChain {
  import opened ByteOrder
  import opened ChunkedDecoder
  import opened ChunkedEncoder

  // ---------------------------------------------------------------- what is signed

  /** The string that is signed for a chunk. */
  function ChunkString(c: Config, prev: Bytes, data: Bytes): Bytes {
    "AWS4-HMAC-SHA256-PAYLOAD" + "\n" + c.dateStr + "\n" + c.scope + "\n" + prev + "\n" + c.Sha256("") + "\n" + c.Sha256(data)
  }

  function TrailerString(c: Config, prev: Bytes, canonical: Bytes): Bytes {
    "AWS4-HMAC-SHA256-TRAILER" + "\n" + c.dateStr + "\n" + c.scope + "\n" + prev + "\n" + c.Sha256(canonical)
  }

  /** The string signed for the whole request, whose signature the chain starts from. */
  predicate RequestString(s: Bytes) {
    HasPrefix(s, "AWS4-HMAC-SHA256\n")
  }

  /** Signatures and digests have one length each. Nothing more is asked of them, except
      that they differ on the few strings at hand. */
  ghost predicate FixedLengths(c: Config) {
    (forall s :: |c.Hmac(s)| == 64) && (forall s :: |c.Sha256(s)| == 64)
  }

  ghost predicate NoCollision(hash: Bytes -> Bytes, inputs: seq<Bytes>) {
    forall x, y :: x in inputs && y in inputs && hash(x) == hash(y) ==> x == y
  }

  /** The signatures of some chunks, chained from `prev`, and the strings signed. */
  function Chain(c: Config, prev: Bytes, datas: seq<Bytes>): (signatures: seq<Bytes>)
    ensures |signatures| == |datas|
    decreases |datas|
  {
    if datas == [] then
      []
    else
      var signature := ChunkSignature(c, prev, datas[0]);
      [signature] + Chain(c, signature, datas[1..])
  }

  function Strings(c: Config, prev: Bytes, datas: seq<Bytes>): (strings: seq<Bytes>)
    ensures |strings| == |datas|
    decreases |datas|
  {
    if datas == [] then
      []
    else
      [ChunkString(c, prev, datas[0])] + Strings(c, ChunkSignature(c, prev, datas[0]), datas[1..])
  }

  /** The signature that number `i` is chained to. */
  function Link(c: Config, prev: Bytes, datas: seq<Bytes>, i: nat): Bytes
    requires i <= |datas|
  {
    if i == 0 then prev else Chain(c, prev, datas)[i - 1]
  }

  lemma {:induction false} ChainAt(c: Config, prev: Bytes, datas: seq<Bytes>, i: nat)
    requires i < |datas|
    ensures Chain(c, prev, datas)[i] == c.Hmac(Strings(c, prev, datas)[i])
    ensures Strings(c, prev, datas)[i] == ChunkString(c, Link(c, prev, datas, i), datas[i])
    decreases i
  {
    if i > 0 {
      ChainAt(c, ChunkSignature(c, prev, datas[0]), datas[1..], i - 1);
    }
  }

  // ---------------------------------------------------- strings name what they sign

  lemma SameEnds(a: Bytes, b: Bytes, x: Bytes, y: Bytes)
    requires a + b == x + y && |b| == |y|
    ensures a == x && b == y
  {
    assert (a + b)[..|a|] == a && (x + y)[..|x|] == x;
    assert (a + b)[|a|..] == b && (x + y)[|x|..] == y;
  }

  lemma ChunkStringNames(c: Config, p: Bytes, d: Bytes, q: Bytes, e: Bytes)
    requires FixedLengths(c) && |p| == |q| && ChunkString(c, p, d) == ChunkString(c, q, e)
    ensures p == q && c.Sha256(d) == c.Sha256(e)
  {
    var head := "AWS4-HMAC-SHA256-PAYLOAD" + "\n" + c.dateStr + "\n" + c.scope + "\n";
    var empty := c.Sha256("");
    SameEnds(head + p + "\n" + empty + "\n", c.Sha256(d), head + q + "\n" + empty + "\n", c.Sha256(e));
    SameEnds(head + p + "\n" + empty, "\n", head + q + "\n" + empty, "\n");
    SameEnds(head + p + "\n", empty, head + q + "\n", empty);
    SameEnds(head + p, "\n", head + q, "\n");
    SameEnds(head, p, head, q);
  }

  lemma TrailerStringNames(c: Config, p: Bytes, d: Bytes, q: Bytes, e: Bytes)
    requires FixedLengths(c) && TrailerString(c, p, d) == TrailerString(c, q, e)
    ensures c.Sha256(d) == c.Sha256(e)
  {
    var head := "AWS4-HMAC-SHA256-TRAILER" + "\n" + c.dateStr + "\n" + c.scope + "\n";
    SameEnds(head + p + "\n", c.Sha256(d), head + q + "\n", c.Sha256(e));
  }

  lemma KindsDiffer(c: Config, request: Bytes, p: Bytes, d: Bytes, q: Bytes, e: Bytes)
    ensures RequestString(request) ==> request != ChunkString(c, p, d)
    ensures TrailerString(c, q, e) != ChunkString(c, p, d)
  {
    var a, b := ChunkString(c, p, d), TrailerString(c, q, e);
    assert a[..24] == "AWS4-HMAC-SHA256-PAYLOAD" && b[..24] == "AWS4-HMAC-SHA256-TRAILER";
    assert a[16] == a[..24][16] == '-' && a[17] == a[..24][17] == 'P' && b[17] == b[..24][17] == 'T';
    if RequestString(request) {
      assert request[16] == request[..17][16] == '\n';
    }
  }

  // --------------------------------------------------------------- chains in step

  /** Every signature of a chain is among the client's. */
  ghost predicate Repeats(signatures: seq<Bytes>, clients: seq<Bytes>) {
    forall signature :: signature in signatures ==> signature in clients
  }

  ghost predicate Sound(c: Config, request: Bytes, a: seq<Bytes>, b: seq<Bytes>) {
    && FixedLengths(c) && RequestString(request)
    && NoCollision(c.Hmac, [request] + Strings(c, c.Hmac(request), a) + Strings(c, c.Hmac(request), b))
    && NoCollision(c.Sha256, a + b)
  }

  lemma LinkLength(c: Config, request: Bytes, datas: seq<Bytes>, i: nat)
    requires FixedLengths(c) && i <= |datas|
    ensures |Link(c, c.Hmac(request), datas, i)| == 64
  {
    if i > 0 {
      ChainAt(c, c.Hmac(request), datas, i - 1);
    }
  }

  /** No signature of a chain, nor the seed, comes twice. */
  lemma {:induction false} LinksDiffer(c: Config, request: Bytes, a: seq<Bytes>, b: seq<Bytes>, i: nat, j: nat)
    requires Sound(c, request, a, b) && i < j <= |a|
    ensures Link(c, c.Hmac(request), a, i) != Link(c, c.Hmac(request), a, j)
    decreases i
  {
    var seed := c.Hmac(request);
    var inputs := [request] + Strings(c, seed, a) + Strings(c, seed, b);
    ChainAt(c, seed, a, j - 1);
    assert Strings(c, seed, a)[j - 1] in inputs && request in inputs;
    if i == 0 {
      KindsDiffer(c, request, Link(c, seed, a, j - 1), a[j - 1], "", "");
    } else {
      ChainAt(c, seed, a, i - 1);
      assert Strings(c, seed, a)[i - 1] in inputs;
      LinksDiffer(c, request, a, b, i - 1, j - 1);
      LinkLength(c, request, a, i - 1);
      LinkLength(c, request, a, j - 1);
      if Link(c, seed, a, i) == Link(c, seed, a, j) {
        ChunkStringNames(c, Link(c, seed, a, i - 1), a[i - 1], Link(c, seed, a, j - 1), a[j - 1]);
      }
    }
  }

  /** Two signatures are the same only for the same data after the same signature. */
  lemma SameSignature(c: Config, request: Bytes, a: seq<Bytes>, b: seq<Bytes>, k: nat, j: nat)
    requires Sound(c, request, a, b) && k < |a| && j < |b|
    requires Chain(c, c.Hmac(request), a)[k] == Chain(c, c.Hmac(request), b)[j]
    ensures a[k] == b[j] && Link(c, c.Hmac(request), a, k) == Link(c, c.Hmac(request), b, j)
  {
    var seed := c.Hmac(request);
    var inputs := [request] + Strings(c, seed, a) + Strings(c, seed, b);
    ChainAt(c, seed, a, k);
    ChainAt(c, seed, b, j);
    assert Strings(c, seed, a)[k] in inputs && Strings(c, seed, b)[j] in inputs;
    LinkLength(c, request, a, k);
    LinkLength(c, request, b, j);
    ChunkStringNames(c, Link(c, seed, a, k), a[k], Link(c, seed, b, j), b[j]);
    assert a[k] in a + b && b[j] in a + b;
  }

  /** A chain from the same seed made of the client's signatures only is a beginning of
      the client's chain, over the same data. */
  lemma {:induction false} InStep(c: Config, request: Bytes, a: seq<Bytes>, b: seq<Bytes>, j: nat)
    requires Sound(c, request, a, b) && j <= |b|
    requires Repeats(Chain(c, c.Hmac(request), b), Chain(c, c.Hmac(request), a))
    ensures j <= |a| && b[..j] == a[..j] && Link(c, c.Hmac(request), b, j) == Link(c, c.Hmac(request), a, j)
    decreases j
  {
    if j > 0 {
      var seed := c.Hmac(request);
      InStep(c, request, a, b, j - 1);
      assert Chain(c, seed, b)[j - 1] in Chain(c, seed, b);
      var k :| 0 <= k < |a| && Chain(c, seed, a)[k] == Chain(c, seed, b)[j - 1];
      SameSignature(c, request, a, b, k, j - 1);
      if k < j - 1 {
        LinksDiffer(c, request, a, b, k, j - 1);
      } else if j - 1 < k {
        LinksDiffer(c, request, a, b, j - 1, k);
      }
      assert b[..j] == b[..j - 1] + [b[j - 1]] && a[..j] == a[..j - 1] + [a[j - 1]];
    }
  }

  // ------------------------------------------------------------ what is decoded

  /** The chunks the decoder hands out. */
  function Yielded(c: Config, s: Stream): seq<Bytes>
    decreases |s.rest|
  {
    match NextChunk(c, s)
    case Chunk(data, next) => [data] + Yielded(c, next)
    case Stop(_) => []
  }

  /** The same with the empty one that ends a body, if it was read to a clean end. */
  function Ended(c: Config, s: Stream): seq<Bytes> {
    Yielded(c, s) + if Decode(c, s).outcome == Eof then [""] else []
  }

  function PresentedHere(s: Stream): Bytes {
    match ReadChunkLine(s.rest)
    case Line(header, _) => (match HeaderSignature(header)
                             case Some(signature) => signature
                             case None => "")
    case _ => ""
  }

  /** The signatures in the headers of those chunks. */
  function Presented(c: Config, s: Stream): seq<Bytes>
    decreases |s.rest|
  {
    match NextChunk(c, s)
    case Chunk(_, next) => [PresentedHere(s)] + Presented(c, next)
    case Stop(outcome) => if outcome == Eof then [PresentedHere(s)] else []
  }

  lemma PresentedIsSigned(c: Config, s: Stream)
    requires c.signedChunks
    ensures
      match NextChunk(c, s)
      case Chunk(data, next) => PresentedHere(s) == ChunkSignature(c, s.prevSignature, data) == next.prevSignature
      case Stop(outcome) => outcome == Eof ==> PresentedHere(s) == ChunkSignature(c, s.prevSignature, "")
  {
  }

  lemma EndedNext(c: Config, s: Stream)
    requires NextChunk(c, s).Chunk?
    ensures Ended(c, s) == [NextChunk(c, s).data] + Ended(c, NextChunk(c, s).next)
    ensures Ended(c, s)[0] == NextChunk(c, s).data && Ended(c, s)[1..] == Ended(c, NextChunk(c, s).next)
    ensures Decode(c, s).outcome == Decode(c, NextChunk(c, s).next).outcome
  {
  }

  lemma {:induction false} PresentedIsChain(c: Config, s: Stream)
    requires c.signedChunks
    ensures Presented(c, s) == Chain(c, s.prevSignature, Ended(c, s))
    decreases |s.rest|
  {
    PresentedIsSigned(c, s);
    match NextChunk(c, s)
    case Chunk(data, next) =>
      PresentedIsChain(c, next);
      EndedNext(c, s);
    case Stop(outcome) =>
      if outcome == Eof {
        assert Ended(c, s) == [""] && [""][1..] == [];
      }
  }

  lemma {:induction false} YieldedIsData(c: Config, s: Stream)
    ensures Decode(c, s).data == Concatenated(Yielded(c, s))
    decreases |s.rest|
  {
    match NextChunk(c, s)
    case Chunk(data, next) => YieldedIsData(c, next);
    case Stop(_) =>
  }

  /** No chunk is empty or larger than 16 MiB. */
  lemma {:induction false} YieldedAreBounded(c: Config, s: Stream)
    ensures forall chunk :: chunk in Yielded(c, s) ==> 0 < |chunk| <= 16 * 1024 * 1024
    decreases |s.rest|
  {
    match NextChunk(c, s)
    case Chunk(data, next) =>
      var f := ChunkIsFrame(c, s);
      assert |f.data| <= 16 * 1024 * 1024;
      YieldedAreBounded(c, next);
    case Stop(_) =>
  }

  // ------------------------------------------------------------------ main results

  /** A body whose chunks carry no signatures but those of a client's encoding of
      `chunks`, under the seed of the same request, yields the client's chunks in the
      client's order, and nothing else, however it ends; read to a clean end, it yields
      all of them. */
  lemma OnlyTheClientsChunks(c: Config, request: Bytes, chunks: seq<Bytes>, body: Bytes)
    requires c.signedChunks && forall chunk :: chunk in chunks ==> chunk != ""
    requires Sound(c, request, chunks + [""], Ended(c, Start(c.Hmac(request), body)))
    requires Repeats(Presented(c, Start(c.Hmac(request), body)), Chain(c, c.Hmac(request), chunks + [""]))
    ensures
      var s := Start(c.Hmac(request), body);
      && Yielded(c, s) <= chunks && Decode(c, s).data == Concatenated(Yielded(c, s))
      && (Decode(c, s).outcome == Eof ==> Yielded(c, s) == chunks && Decode(c, s).data == Concatenated(chunks))
  {
    var s := Start(c.Hmac(request), body);
    PresentedIsChain(c, s);
    YieldedIsData(c, s);
    YieldedAreBounded(c, s);
    InStep(c, request, chunks + [""], Ended(c, s), |Ended(c, s)|);
    assert Ended(c, s)[..|Ended(c, s)|] == Ended(c, s);
    Beginning(chunks, Yielded(c, s), Ended(c, s), Decode(c, s).outcome == Eof);
  }

  lemma Beginning(chunks: seq<Bytes>, yielded: seq<Bytes>, b: seq<Bytes>, complete: bool)
    requires (forall chunk :: chunk in chunks ==> chunk != "") && (forall chunk :: chunk in yielded ==> chunk != "")
    requires b == yielded + (if complete then [""] else []) && |b| <= |chunks| + 1 && b == (chunks + [""])[..|b|]
    ensures |yielded| <= |chunks| && yielded == chunks[..|yielded|] && (complete ==> yielded == chunks)
  {
    assert forall i :: 0 <= i < |chunks| ==> chunks[i] in chunks;
    assert forall i :: 0 <= i < |yielded| ==> yielded[i] in yielded && b[i] == yielded[i];
    assert forall i :: 0 <= i < |b| ==> b[i] == (chunks + [""])[i];
    assert (chunks + [""])[|chunks|] == "" && (complete ==> b[|yielded|] == "");
  }

  /** The client's chain is that of the headers it sends. */
  lemma {:induction false} SentChain(c: Config, s: Stream, e: Encoding, chunks: seq<Bytes>)
    requires EncodingOk(c, s, e) && s.rest == EncodingBytes(e)
    requires |e.frames| == |chunks| && forall i :: 0 <= i < |chunks| ==> e.frames[i].data == chunks[i]
    ensures Yielded(c, s) == chunks
    decreases |e.frames|
  {
    if e.frames == [] {
      assert "" + TailBytes(e) == TailBytes(e);
      TailIsEof(c, s, e);
    } else {
      var rest := e.(frames := e.frames[1..]);
      FirstFrame(c, s, e);
      SentChain(c, Past(c, s, e.frames[0], EncodingBytes(rest)), rest, chunks[1..]);
    }
  }

  lemma {:induction false} EncodedData(c: Config, prev: Bytes, chunks: seq<Bytes>, i: nat)
    requires i < |chunks|
    ensures EncodeFrames(c, prev, chunks)[i].data == chunks[i]
    decreases i
  {
    if i > 0 {
      EncodedData(c, NextSignature(c, prev, chunks[0]), chunks[1..], i - 1);
    }
  }

  /** The signatures in what a client sends for some chunks are their chain, so that the
      client's own body is one of those spoken of. */
  lemma ClientPresentsChain(c: Config, seed: Bytes, chunks: seq<Bytes>, sent: seq<Sent>)
    requires ClientOk(c, chunks, sent) && c.signedChunks
    ensures
      var s := Start(seed, EncodingBytes(Encode(c, seed, chunks, sent)));
      Yielded(c, s) == chunks && Ended(c, s) == chunks + [""] && Presented(c, s) == Chain(c, seed, chunks + [""])
  {
    var e := Encode(c, seed, chunks, sent);
    var s := Start(seed, EncodingBytes(e));
    forall i | 0 <= i < |chunks|
      ensures e.frames[i].data == chunks[i]
    {
      EncodedData(c, seed, chunks, i);
    }
    assert CRLF + "" == CRLF && e.(ending := CRLF + "") == e && EncodingBytes(e) + "" == EncodingBytes(e);
    EncodeIsValid(c, seed, chunks, sent, "");
    SentChain(c, s, e, chunks);
    RoundTrip(c, seed, chunks, sent, "");
    PresentedIsChain(c, s);
  }

  // --------------------------------------------------------------------- trailers

  /** The trailers the decoder has read when a body ends cleanly. */
  function EndTrailers(c: Config, s: Stream): Trailers
    decreases |s.rest|
  {
    match NextChunk(c, s)
    case Chunk(_, next) => EndTrailers(c, next)
    case Stop(_) =>
      match ReadChunkLine(s.rest)
      case Line(_, rest) => (match CollectTrailers(c, NO_TRAILERS, rest)
                             case Got(t) => t
                             case Refused(_) => NO_TRAILERS)
      case _ => NO_TRAILERS
  }

  lemma LinkOfRest(c: Config, prev: Bytes, datas: seq<Bytes>)
    requires |datas| > 1
    ensures
      Link(c, prev, datas, |datas|) == Link(c, ChunkSignature(c, prev, datas[0]), datas[1..], |datas| - 1)
  {
  }

  /** They are signed after the whole chain. */
  lemma {:induction false} TrailersAreSigned(c: Config, s: Stream)
    requires c.signedChunks && c.trailer && Decode(c, s).outcome == Eof
    ensures Ended(c, s) != []
    ensures EndTrailers(c, s).signature ==
            TrailerSignature(c, Link(c, s.prevSignature, Ended(c, s), |Ended(c, s)|), EndTrailers(c, s).canonical)
    decreases |s.rest|
  {
    PresentedIsSigned(c, s);
    match NextChunk(c, s)
    case Chunk(data, next) =>
      EndedNext(c, s);
      TrailersAreSigned(c, next);
      LinkOfRest(c, s.prevSignature, Ended(c, s));
    case Stop(outcome) =>
      var last := EofHeader(c, s);
      assert Ended(c, s) == [""] && [""][1..] == [];
  }

  /** A name and value as they come from one line. */
  predicate OneLine(t: Sent) {
    ':' !in t.name && LF !in t.name && LF !in t.value
  }

  predicate OneLineEach(sent: seq<Sent>) {
    forall i :: 0 <= i < |sent| ==> OneLine(sent[i])
  }

  predicate Amounts(t: Trailers, sent: seq<Sent>) {
    OneLineEach(sent) && t.canonical == Canonical(sent) && t.values == Values(sent)
  }

  lemma TrimsWithin(s: Bytes)
    ensures forall x :: x in TrimRight(s) || x in TrimLeft(s) || x in TrimLineEnd(s) ==> x in s
  {
    TrimRightWithin(s);
    TrimLeftWithin(s);
    TrimLineEndWithin(s);
  }

  lemma TrimRightWithin(s: Bytes)
    ensures forall x :: x in TrimRight(s) ==> x in s
  {
  }

  lemma TrimLeftWithin(s: Bytes)
    ensures forall x :: x in TrimLeft(s) ==> x in s
  {
  }

  lemma TrimLineEndWithin(s: Bytes)
    ensures forall x :: x in TrimLineEnd(s) ==> x in s
  {
  }

  lemma TrimSpaceWithin(s: Bytes, x: char)
    requires x in TrimSpace(s)
    ensures x in s
  {
    TrimsWithin(s);
    TrimsWithin(TrimLeft(s));
  }

  lemma LineHasNoLf(s: Bytes)
    requires ReadChunkLine(s).Line?
    ensures LF !in ReadChunkLine(s).text
  {
    var i := Find(s, LF);
    assert s[..i + 1] == s[..i] + [LF] && (s[..i] + [LF])[..i] == s[..i];
    TrimsWithin(s[..i]);
    assert TrimLineEnd(s[..i + 1]) == TrimLineEnd(s[..i]);
  }

  lemma AddedIsOneLine(line: Bytes)
    requires LF !in line && ':' in line
    ensures OneLine(Sent(ToLower(TrimSpace(Before(line, ':'))), TrimSpace(AfterFirst(line, ':'))))
  {
    var name := TrimSpace(Before(line, ':'));
    forall x | x in name || x in TrimSpace(AfterFirst(line, ':'))
      ensures x in line && (x in name ==> x != ':')
    {
      if x in name {
        TrimSpaceWithin(Before(line, ':'), x);
      } else {
        TrimSpaceWithin(AfterFirst(line, ':'), x);
      }
    }
    assert forall i :: 0 <= i < |name| ==> name[i] in name;
  }

  /** The canonical form is that of the names and values taken in, in their order. */
  lemma {:induction false} CollectedAmounts(c: Config, t: Trailers, rest: Bytes, sent: seq<Sent>) returns (all: seq<Sent>)
    requires Amounts(t, sent) && CollectTrailers(c, t, rest).Got?
    ensures Amounts(CollectTrailers(c, t, rest).trailers, all)
    decreases |rest|
  {
    var read := ReadChunkLine(rest);
    if read.EndOfBody? || read.text == "" {
      all := sent;
    } else {
      var t1 := AddTrailer(c, t, read.text).trailers;
      var next := sent;
      if t1.canonical != t.canonical || t1.values != t.values {
        LineHasNoLf(rest);
        AddedIsOneLine(read.text);
        var one := Sent(ToLower(TrimSpace(Before(read.text, ':'))), TrimSpace(AfterFirst(read.text, ':')));
        next := sent + [one];
        assert next[..|sent|] == sent;
      }
      all := CollectedAmounts(c, t1, read.rest, next);
    }
  }

  lemma LongerFront(a: Bytes, x: Bytes, b: Bytes, y: Bytes)
    requires a + x == b + y && |a| > |b| && a[|a| - 1] == LF
    ensures LF in y
  {
    assert (a + x)[|a| - 1] == y[|a| - 1 - |b|];
  }

  lemma LastLine(a: Bytes, x: Bytes, b: Bytes, y: Bytes)
    requires a + x == b + y && LF !in x && LF !in y
    requires (a == [] || a[|a| - 1] == LF) && (b == [] || b[|b| - 1] == LF)
    ensures a == b && x == y
  {
    if |a| > |b| {
      LongerFront(a, x, b, y);
    } else if |b| > |a| {
      LongerFront(b, y, a, x);
    } else {
      SameEnds(a, x, b, y);
    }
  }

  lemma CanonicalSnoc(sent: seq<Sent>)
    requires sent != []
    ensures Canonical(sent) == (Canonical(sent[..|sent| - 1]) + TrailerText(sent[|sent| - 1])) + "\n"
  {
    var front, t := Canonical(sent[..|sent| - 1]), sent[|sent| - 1];
    Concat(front, t.name, ":");
    Concat(front, t.name + ":", t.value);
  }

  /** A canonical form says what the names and values are. */
  lemma {:induction false} CanonicalNames(a: seq<Sent>, b: seq<Sent>)
    requires OneLineEach(a) && OneLineEach(b) && Canonical(a) == Canonical(b)
    ensures a == b
    decreases |a|
  {
    if a != [] && b != [] {
      var f, x, g, y := a[..|a| - 1], a[|a| - 1], b[..|b| - 1], b[|b| - 1];
      CanonicalSnoc(a);
      CanonicalSnoc(b);
      SameEnds(Canonical(f) + TrailerText(x), "\n", Canonical(g) + TrailerText(y), "\n");
      SameLine(Canonical(f), x, Canonical(g), y, f, g);
      CanonicalNames(f, g);
      assert a == f + [x] && b == g + [y];
    }
  }

  lemma SameLine(a: Bytes, x: Sent, b: Bytes, y: Sent, f: seq<Sent>, g: seq<Sent>)
    requires a == Canonical(f) && b == Canonical(g) && OneLine(x) && OneLine(y)
    requires a + TrailerText(x) == b + TrailerText(y)
    ensures a == b && x == y
  {
    CanonicalEndsLine(f);
    CanonicalEndsLine(g);
    LastLine(a, TrailerText(x), b, TrailerText(y));
    SplitAt(x.name, ':', x.value);
    SplitAt(y.name, ':', y.value);
  }

  lemma CanonicalEndsLine(a: seq<Sent>)
    ensures Canonical(a) == [] || Canonical(a)[|Canonical(a)| - 1] == LF
  {
  }

  /** Nothing collides with what the client signed for its trailers. */
  ghost predicate TrailersSound(c: Config, prev: Bytes, strings: seq<Bytes>, x: Bytes, y: Bytes) {
    && NoCollision(c.Hmac, [TrailerString(c, prev, x), TrailerString(c, prev, y)] + strings)
    && NoCollision(c.Sha256, [x, y])
  }

  lemma SameTrailers(c: Config, seed: Bytes, a: seq<Bytes>, prev: Bytes, x: Bytes, y: Bytes)
    requires FixedLengths(c) && TrailersSound(c, prev, Strings(c, seed, a), x, y)
    requires TrailerSignature(c, prev, x) in Chain(c, seed, a) || TrailerSignature(c, prev, x) == TrailerSignature(c, prev, y)
    ensures x == y
  {
    var inputs := [TrailerString(c, prev, x), TrailerString(c, prev, y)] + Strings(c, seed, a);
    assert inputs[0] == TrailerString(c, prev, x) && inputs[1] == TrailerString(c, prev, y);
    if TrailerSignature(c, prev, x) in Chain(c, seed, a) {
      var k :| 0 <= k < |a| && Chain(c, seed, a)[k] == TrailerSignature(c, prev, x);
      ChainAt(c, seed, a, k);
      assert inputs[k + 2] == Strings(c, seed, a)[k];
      KindsDiffer(c, "", Link(c, seed, a, k), a[k], prev, x);
    } else {
      TrailerStringNames(c, prev, x, prev, y);
      assert [x, y][0] == x && [x, y][1] == y;
    }
  }

  /** The same for the trailers: read to a clean end, a body that repeats only the
      client's signatures has the names and values the client signed, in their order. */
  lemma OnlyTheClientsTrailers(c: Config, request: Bytes, chunks: seq<Bytes>, sent: seq<Sent>, body: Bytes) returns (read: seq<Sent>)
    requires c.signedChunks && c.trailer && OneLineEach(sent) && forall chunk :: chunk in chunks ==> chunk != ""
    requires Decode(c, Start(c.Hmac(request), body)).outcome == Eof
    requires Sound(c, request, chunks + [""], Ended(c, Start(c.Hmac(request), body)))
    requires Repeats(Presented(c, Start(c.Hmac(request), body)), Chain(c, c.Hmac(request), chunks + [""]))
    requires
      var seed, t := c.Hmac(request), EndTrailers(c, Start(c.Hmac(request), body));
      var prev := Link(c, seed, chunks + [""], |chunks| + 1);
      && (t.signature in Chain(c, seed, chunks + [""]) || t.signature == TrailerSignature(c, prev, Canonical(sent)))
      && TrailersSound(c, prev, Strings(c, seed, chunks + [""]), t.canonical, Canonical(sent))
    ensures Amounts(EndTrailers(c, Start(c.Hmac(request), body)), read) && read == sent
  {
    var seed := c.Hmac(request);
    var s, a := Start(seed, body), chunks + [""];
    OnlyTheClientsChunks(c, request, chunks, body);
    TrailersAreSigned(c, s);
    assert Ended(c, s) == a;
    SameTrailers(c, seed, a, Link(c, seed, a, |a|), EndTrailers(c, s).canonical, Canonical(sent));
    read := ReadTrailers(c, s);
    CanonicalNames(read, sent);
  }

  lemma {:induction false} ReadTrailers(c: Config, s: Stream) returns (all: seq<Sent>)
    ensures Amounts(EndTrailers(c, s), all)
    decreases |s.rest|
  {
    all := [];
    match NextChunk(c, s)
    case Chunk(_, next) => all := ReadTrailers(c, next);
    case Stop(_) =>
      var read := ReadChunkLine(s.rest);
      if read.Line? && CollectTrailers(c, NO_TRAILERS, read.rest).Got? {
        all := CollectedAmounts(c, NO_TRAILERS, read.rest, []);
      }
  }
}
