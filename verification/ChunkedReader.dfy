/** The decoder as a reader: one reused chunk buffer, and reads of any size. */
module ChunkedReaders {
  import opened ByteOrder
  import opened Int64
  import opened ChunkedDecoder
  import D = ChunkedDecoder

  class ChunkedReader {
    const config: Config
    var rest: Bytes          // what the buffered body reader has not handed out
    var prevSignature: Bytes
    var hashed: Bytes        // what was written to the trailers' checksums
    var decoded: int
    var buf: array<char>     // reused chunk buffer
    var lo: nat              // the verified data not yet returned is buf[lo..hi]
    var hi: nat
    var err: Option<Outcome> // sticky: Eof once fully verified, or the failure

    ghost predicate Valid()
      reads this
    {
      lo <= hi <= buf.Length
    }

    ghost function Position(): Stream
      reads this
    {
      Stream(rest, prevSignature, decoded, hashed)
    }

    ghost function Pending(): Bytes
      requires Valid()
      reads this, buf
    {
      buf[lo..hi]
    }

    /** Everything reads will return from here on, and how they will end. */
    ghost function Future(): Decoded
      requires Valid()
      reads this, buf
    {
      var later := if err.Some? then Decoded("", err.value) else Decode(config, Position());
      Decoded(Pending() + later.data, later.outcome)
    }

    constructor (config: Config, seed: Bytes, body: Bytes)
      ensures Valid() && fresh(buf) && this.config == config
      ensures Future() == Decode(config, Start(seed, body))
    {
      this.config, rest, prevSignature, hashed, decoded := config, body, seed, "", 0;
      buf := new char[0];
      lo, hi, err := 0, 0, None;
      new;
      NothingPending(buf[lo..hi], Decode(config, Start(seed, body)));
    }

    /** Reads a line of framing from the body. */
    method ReadLine() returns (line: Line)
      modifies this`rest
      ensures line == ReadChunkLine(old(rest))
      ensures rest == if line.Line? then line.rest else old(rest)
    {
      line := ReadChunkLine(rest);
      if line.Line? {
        rest := line.rest;
      }
    }

    method Read(p: array<char>) returns (n: nat, failed: Option<Outcome>)
      requires Valid() && p != buf
      modifies this, buf, p
      ensures Valid() && (buf == old(buf) || fresh(buf)) && n <= p.Length
      ensures p[n..] == old(p[n..])
      ensures failed.None? ==> old(Future()) == Decoded(p[..n] + Future().data, Future().outcome) && (n == 0 ==> p.Length == 0)
      ensures failed.Some? ==> n == 0 && old(Future()) == Decoded("", failed.value) && Future() == old(Future())
    {
      n, failed := 0, None;
      while lo == hi
        invariant Valid() && (buf == old(buf) || fresh(buf)) && p != buf && p[..] == old(p[..])
        invariant Future() == old(Future())
        decreases err.None?, if lo == hi then 1 else 0
      {
        if err.Some? {
          failed := err;
          return;
        }
        ghost var position := Position();
        err := NextChunk();
        Continues(config, position, D.NextChunk(config, position));
      }
      ghost var pending, later := Pending(), if err.Some? then "" else Decode(config, Position()).data;
      n := CopyPending(p);
      SplitAhead(pending, n, later);
    }

    /** Hands out pending data, as much as there is or fits. */
    method CopyPending(p: array<char>) returns (n: nat)
      requires Valid() && p != buf && lo < hi
      modifies this`lo, p
      ensures Valid() && n <= p.Length && n <= |old(Pending())| && p[n..] == old(p[n..]) && (n == 0 ==> p.Length == 0)
      ensures p[..n] == old(Pending())[..n] && Pending() == old(Pending())[n..]
    {
      n := if p.Length < hi - lo then p.Length else hi - lo;
      forall i | 0 <= i < n {
        p[i] := buf[lo + i];
      }
      lo := lo + n;
    }

    /** Reads and verifies one chunk, leaving its data pending; at the end of the
        chunks, verifies the trailer section. */
    method NextChunk() returns (e: Option<Outcome>)
      requires Valid() && lo == hi && err.None?
      modifies this`rest, this`prevSignature, this`hashed, this`decoded, this`buf, this`lo, this`hi, buf
      ensures Valid() && (buf == old(buf) || fresh(buf))
      ensures
        var step := D.NextChunk(config, old(Position()));
        if step.Chunk? then e == None && Pending() == step.data && Position() == step.next
        else e == Some(step.outcome) && lo == hi
    {
      var line := ReadLine();
      if !line.Line? {
        return Some(Malformed("could not read chunk header"));
      }
      var header, declaredSig := line.text, "";
      if config.signedChunks {
        var sig := HeaderSignature(header);
        if sig.None? {
          return Some(Malformed("missing chunk-signature"));
        }
        declaredSig := sig.value;
      }
      var chunkSize := HeaderSize(header);
      if chunkSize.None? || chunkSize.value < 0 {
        return Some(Malformed("invalid chunk size"));
      }
      e := ReadChunk(header, declaredSig, chunkSize.value);
    }

    /** The part of NextChunk after the header. */
    method ReadChunk(ghost header: Bytes, declaredSig: Bytes, chunkSize: nat) returns (e: Option<Outcome>)
      requires Valid() && lo == hi
      requires config.signedChunks ==> HeaderSignature(header) == Some(declaredSig)
      modifies this`rest, this`prevSignature, this`hashed, this`decoded, this`buf, this`lo, this`hi, buf
      ensures Valid() && (buf == old(buf) || fresh(buf))
      ensures
        var step := ChunkBody(config, old(Position()), header, chunkSize);
        if step.Chunk? then e == None && Pending() == step.data && Position() == step.next
        else e == Some(step.outcome) && lo == hi
    {
      if config.maxPayload > 0 && Add64(decoded, chunkSize) > config.maxPayload {
        return Some(EntityTooLarge);
      }
      if chunkSize > MAX_CHUNK_SIZE {
        return Some(ChunkTooLarge);
      }
      e := TakeChunk(header, declaredSig, chunkSize);
    }

    /** The part of ReadChunk after the bounds. */
    method TakeChunk(ghost header: Bytes, declaredSig: Bytes, chunkSize: nat) returns (e: Option<Outcome>)
      requires Valid() && lo == hi && chunkSize <= MAX_CHUNK_SIZE
      requires config.maxPayload > 0 ==> Add64(decoded, chunkSize) <= config.maxPayload
      requires config.signedChunks ==> HeaderSignature(header) == Some(declaredSig)
      modifies this`rest, this`prevSignature, this`hashed, this`decoded, this`buf, this`lo, this`hi, buf
      ensures Valid() && (buf == old(buf) || fresh(buf))
      ensures
        var step := ChunkBody(config, old(Position()), header, chunkSize);
        if step.Chunk? then e == None && Pending() == step.data && Position() == step.next
        else e == Some(step.outcome) && lo == hi
    {
      if buf.Length < chunkSize {
        buf := new char[chunkSize];
      }
      lo, hi := 0, 0;
      if chunkSize > 0 {
        var ok := ReadData(chunkSize);
        if ok.Some? {
          return ok;
        }
      }
      var data := buf[..chunkSize];
      var signed := CheckSignature(declaredSig, data);
      if !signed {
        return Some(ChunkSignatureMismatch);
      }
      if chunkSize == 0 {
        var outcome := Finish();
        return Some(outcome);
      }
      hashed := hashed + data;
      decoded := Add64(decoded, chunkSize);
      hi := chunkSize;
      e := None;
    }

    /** Checks a chunk's signature and chains the next one to it. */
    method CheckSignature(declaredSig: Bytes, data: Bytes) returns (ok: bool)
      modifies this`prevSignature
      ensures ok <==> (config.signedChunks ==> declaredSig == ChunkSignature(config, old(prevSignature), data))
      ensures prevSignature == if ok then NextSignature(config, old(prevSignature), data) else old(prevSignature)
    {
      if config.signedChunks {
        var expectedSig := ChunkSignature(config, prevSignature, data);
        if expectedSig != declaredSig {
          return false;
        }
        prevSignature := expectedSig;
      }
      return true;
    }

    /** Reads a chunk's data into the buffer, and the line end after it. */
    method ReadData(chunkSize: nat) returns (e: Option<Outcome>)
      requires chunkSize <= buf.Length
      modifies this`rest, buf
      ensures e.None? <==>
              && chunkSize <= |old(rest)| && ReadChunkLine(old(rest)[chunkSize..]).Line?
              && ReadChunkLine(old(rest)[chunkSize..]).text == ""
      ensures e.None? ==> buf[..chunkSize] == old(rest)[..chunkSize] && rest == ReadChunkLine(old(rest)[chunkSize..]).rest
      ensures e.Some? ==>
              e == Some(Malformed(if chunkSize <= |old(rest)| then "missing chunk terminator" else "truncated chunk data"))
    {
      if |rest| < chunkSize {
        return Some(Malformed("truncated chunk data"));
      }
      forall i | 0 <= i < chunkSize {
        buf[i] := rest[i];
      }
      rest := rest[chunkSize..];
      var terminator := ReadLine();
      if !terminator.Line? || terminator.text != "" {
        return Some(Malformed("missing chunk terminator"));
      }
      e := None;
    }

    /** Reads and verifies the trailer section. */
    method Finish() returns (outcome: Outcome)
      modifies this`rest
      ensures outcome == D.Finish(config, old(Position()))
    {
      var trailerValues, canonicalTrailers, trailerSig := map[], "", "";
      while true
        invariant CollectTrailers(config, NO_TRAILERS, old(rest)) ==
                  CollectTrailers(config, Trailers(trailerValues, canonicalTrailers, trailerSig), rest)
        decreases |rest|
      {
        var line := ReadLine();
        if line.EndOfBody? || (line.Line? && line.text == "") {
          break;
        }
        if line.BadLine? {
          return Malformed("could not read trailer");
        }
        if ':' !in line.text {
          return Malformed("invalid trailer line");
        }
        var name := ToLower(TrimSpace(Before(line.text, ':')));
        var value := TrimSpace(AfterFirst(line.text, ':'));
        if name == TRAILER_SIGNATURE_HEADER && config.signedChunks && config.trailer && trailerSig == "" {
          trailerSig := value;
          continue;
        }
        if !config.trailer {
          return Malformed("unexpected trailer");
        } else if trailerSig != "" {
          return Malformed("trailer after the trailer signature");
        } else if name !in config.trailers {
          return UndeclaredTrailer(name);
        } else if name in trailerValues && trailerValues[name] != "" {
          return Malformed("duplicate trailer");
        }
        trailerValues := trailerValues[name := value];
        canonicalTrailers := canonicalTrailers + name + ":" + value + "\n";
      }
      outcome := VerifyTrailers(trailerValues, canonicalTrailers, trailerSig);
    }

    method VerifyTrailers(values: map<Bytes, Bytes>, canonical: Bytes, signature: Bytes) returns (outcome: Outcome)
      ensures outcome == Conclude(config, Position(), Trailers(values, canonical, signature))
    {
      if config.signedChunks && config.trailer {
        if TrailerSignature(config, prevSignature, canonical) != signature {
          return TrailerSignatureMismatch;
        }
      }
      var names := config.trailers;
      while names != []
        invariant CheckTrailers(config, config.trailers, values, hashed) == CheckTrailers(config, names, values, hashed)
        decreases |names|
      {
        var name := names[0];
        if name !in values {
          return TrailerNotSent(name);
        }
        var want := config.DecodeExpected(name, values[name]);
        if want.None? {
          return InvalidTrailer(name);
        }
        if config.Checksum(name, hashed) != want.value {
          return BadDigest(name);
        }
        names := names[1..];
      }
      if config.declaredLen >= 0 && config.declaredLen != decoded {
        return IncompleteBody;
      }
      outcome := Eof;
    }
  }

  lemma NothingPending(pending: Bytes, later: Decoded)
    requires |pending| == 0
    ensures Decoded(pending + later.data, later.outcome) == later
  {
    assert pending + later.data == later.data;
  }

  lemma SplitAhead(pending: Bytes, n: nat, later: Bytes)
    requires n <= |pending|
    ensures pending + later == pending[..n] + (pending[n..] + later)
  {
  }

  /** Reading the next chunk does not change what there is to read. */
  lemma Continues(c: Config, s: Stream, step: Step)
    requires step == D.NextChunk(c, s)
    ensures Decode(c, s) ==
            if step.Chunk? then Decoded(step.data + Decode(c, step.next).data, Decode(c, step.next).outcome)
            else Decoded("", step.outcome)
  {
  }

  /** Copies a stream to its end through a buffer of any size, as the storage engine
      does with a request body: the data arrives whole, and the copy ends as decoding
      the body does. */
  method Copy(r: ChunkedReader, p: array<char>) returns (data: Bytes, outcome: Outcome)
    requires r.Valid() && p != r.buf && p.Length > 0
    modifies r, r.buf, p
    ensures Decoded(data, outcome) == old(r.Future())
  {
    data := "";
    assert "" + r.Future().data == r.Future().data;
    while true
      invariant r.Valid() && (r.buf == old(r.buf) || fresh(r.buf)) && p != r.buf
      invariant old(r.Future()) == Decoded(data + r.Future().data, r.Future().outcome)
      decreases |r.Future().data|
    {
      ghost var before := r.Future().data;
      var n, failed := r.Read(p);
      if failed.Some? {
        return data, failed.value;
      }
      Concat(data, p[..n], r.Future().data);
      data := data + p[..n];
    }
  }
}
