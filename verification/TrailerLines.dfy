/** Which trailer sections and chunk sizes the decoder accepts, said of the lines
    themselves. */
module TrailerLines {
  import opened ByteOrder
  import opened Int64
  import opened ChunkedDecoder
  import opened ChunkedEncoder

  // ------------------------------------------------------------------------ lines

  /** A line is read exactly if it ends within 4096 bytes. */
  lemma LineExactly(s: Bytes)
    ensures ReadChunkLine(s).Line? <==> exists i :: 0 <= i < |s| && i < 4096 && s[i] == LF
    ensures ReadChunkLine(s).EndOfBody? <==> s == ""
  {
    var i := Find(s, LF);
    assert forall k :: 0 <= k < i ==> s[..i][k] == s[k];
  }

  /** The line that signs the trailers, where they are signed. */
  predicate Signs(c: Config, line: Bytes) {
    c.signedChunks && c.trailer && LineName(line) == "x-amz-trailer-signature"
  }

  /** A line that gives a name a value, if only an empty one. */
  predicate Gives(c: Config, line: Bytes, name: Bytes) {
    !Signs(c, line) && LineName(line) == name
  }

  predicate NoValueYet(c: Config, earlier: seq<Bytes>, name: Bytes) {
    forall x :: x in earlier && Gives(c, x, name) ==> LineValue(x) == ""
  }

  predicate NotSignedYet(c: Config, earlier: seq<Bytes>) {
    forall x :: x in earlier && Signs(c, x) ==> LineValue(x) == ""
  }

  /** A line after others is accepted if trailers are expected, none of the others is a
      signature that is not empty, and it is a signature itself or gives a declared
      name for which no value has come yet but empty ones. */
  predicate Follows(c: Config, earlier: seq<Bytes>, line: Bytes) {
    && ':' in line && c.trailer
    && NotSignedYet(c, earlier)
    && (Signs(c, line) || (LineName(line) in c.trailers && NoValueYet(c, earlier, LineName(line))))
  }

  predicate Acceptable(c: Config, lines: seq<Bytes>) {
    forall i :: 0 <= i < |lines| ==> Follows(c, lines[..i], lines[i])
  }

  /** The value a name has in the end is that of the last line that gives it. */
  predicate LastValue(c: Config, lines: seq<Bytes>, name: Bytes, value: Bytes) {
    exists i :: 0 <= i < |lines| && LineValue(lines[i]) == value && IsLast(c, lines, name, i)
  }

  predicate IsLast(c: Config, lines: seq<Bytes>, name: Bytes, i: nat)
    requires i < |lines|
  {
    Gives(c, lines[i], name) && forall j :: i < j < |lines| ==> !Gives(c, lines[j], name)
  }

  ghost predicate ValuesRight(c: Config, lines: seq<Bytes>, values: map<Bytes, Bytes>) {
    && (forall name :: name in values ==> LastValue(c, lines, name, values[name]))
    && forall i :: 0 <= i < |lines| && !Signs(c, lines[i]) ==> LineName(lines[i]) in values
  }

  /** The signature is that of the last line, if one was given that is not empty. */
  predicate SignatureRight(c: Config, lines: seq<Bytes>, signature: Bytes) {
    if signature == "" then
      forall line :: line in lines && Signs(c, line) ==> LineValue(line) == ""
    else
      lines != [] && Signs(c, lines[|lines| - 1]) && LineValue(lines[|lines| - 1]) == signature
  }

  function Taken(c: Config, lines: seq<Bytes>): Collected {
    if lines == [] then
      Got(NO_TRAILERS)
    else
      match Taken(c, lines[..|lines| - 1])
      case Refused(outcome) => Refused(outcome)
      case Got(t) => AddTrailer(c, t, lines[|lines| - 1])
  }

  lemma AcceptableSnoc(c: Config, lines: seq<Bytes>, line: Bytes)
    ensures Acceptable(c, lines + [line]) <==> Acceptable(c, lines) && Follows(c, lines, line)
  {
    var all := lines + [line];
    assert forall i :: 0 <= i < |lines| ==> all[..i] == lines[..i];
    assert all[..|lines|] == lines && all[|lines|] == line;
    if Acceptable(c, all) {
      assert Follows(c, all[..|lines|], all[|lines|]);
      forall i | 0 <= i < |lines|
        ensures Follows(c, lines[..i], lines[i])
      {
        assert Follows(c, all[..i], all[i]);
      }
    }
  }

  lemma EarlierIsEmpty(c: Config, lines: seq<Bytes>, k: nat, i: nat)
    requires Acceptable(c, lines) && k < i < |lines|
    requires !Signs(c, lines[k]) && !Signs(c, lines[i]) && LineName(lines[k]) == LineName(lines[i])
    ensures LineValue(lines[k]) == ""
  {
    assert Follows(c, lines[..i], lines[i]);
    assert lines[..i][k] in lines[..i];
  }

  /** A value that is not empty is the last one its name gets. */
  lemma FirstValueStays(c: Config, lines: seq<Bytes>, values: map<Bytes, Bytes>, k: nat)
    requires Acceptable(c, lines) && ValuesRight(c, lines, values)
    requires k < |lines| && !Signs(c, lines[k]) && LineValue(lines[k]) != ""
    ensures LineName(lines[k]) in values && values[LineName(lines[k])] == LineValue(lines[k])
  {
    var name := LineName(lines[k]);
    assert LastValue(c, lines, name, values[name]);
    var i: nat :| i < |lines| && LineValue(lines[i]) == values[name] && IsLast(c, lines, name, i);
    if k < i {
      EarlierIsEmpty(c, lines, k, i);
    }
  }

  lemma NoValueIff(c: Config, earlier: seq<Bytes>, values: map<Bytes, Bytes>, name: Bytes)
    requires Acceptable(c, earlier) && ValuesRight(c, earlier, values)
    ensures NoValueYet(c, earlier, name) <==> (name in values ==> values[name] == "")
  {
    if x :| x in earlier && Gives(c, x, name) && LineValue(x) != "" {
      var k :| 0 <= k < |earlier| && earlier[k] == x;
      FirstValueStays(c, earlier, values, k);
    }
    if name in values {
      assert LastValue(c, earlier, name, values[name]);
      var i :| 0 <= i < |earlier| && LineValue(earlier[i]) == values[name] && IsLast(c, earlier, name, i);
      assert earlier[i] in earlier;
    }
  }

  lemma NotSignedIff(c: Config, earlier: seq<Bytes>, signature: Bytes)
    requires SignatureRight(c, earlier, signature)
    ensures NotSignedYet(c, earlier) <==> signature == ""
  {
    if signature != "" {
      assert earlier[|earlier| - 1] in earlier;
    }
  }

  lemma AcceptsExactly(c: Config, earlier: seq<Bytes>, line: Bytes, t: Trailers)
    requires Acceptable(c, earlier) && ValuesRight(c, earlier, t.values) && SignatureRight(c, earlier, t.signature)
    ensures AddTrailer(c, t, line).Got? <==> Follows(c, earlier, line)
  {
    NoValueIff(c, earlier, t.values, LineName(line));
    NotSignedIff(c, earlier, t.signature);
  }

  lemma ValueAdded(c: Config, earlier: seq<Bytes>, line: Bytes, values: map<Bytes, Bytes>)
    requires ValuesRight(c, earlier, values)
    ensures ValuesRight(c, earlier + [line], if Signs(c, line) then values else values[LineName(line) := LineValue(line)])
  {
    var all := earlier + [line];
    var after := if Signs(c, line) then values else values[LineName(line) := LineValue(line)];
    forall name | name in after
      ensures LastValue(c, all, name, after[name])
    {
      if Gives(c, line, name) {
        assert all[|earlier|] == line && IsLast(c, all, name, |earlier|);
      } else {
        OtherLineKeeps(c, earlier, line, name, values[name]);
      }
    }
  }

  lemma OtherLineKeeps(c: Config, earlier: seq<Bytes>, line: Bytes, name: Bytes, value: Bytes)
    requires LastValue(c, earlier, name, value) && !Gives(c, line, name)
    ensures LastValue(c, earlier + [line], name, value)
  {
    var all := earlier + [line];
    var i :| 0 <= i < |earlier| && LineValue(earlier[i]) == value && IsLast(c, earlier, name, i);
    forall j | i < j < |all|
      ensures !Gives(c, all[j], name)
    {
      assert all[j] == if j < |earlier| then earlier[j] else line;
    }
    assert all[i] == earlier[i] && IsLast(c, all, name, i);
  }

  lemma SignatureAdded(c: Config, earlier: seq<Bytes>, line: Bytes, t: Trailers)
    requires SignatureRight(c, earlier, t.signature) && AddTrailer(c, t, line).Got?
    ensures SignatureRight(c, earlier + [line], AddTrailer(c, t, line).trailers.signature)
  {
  }

  /** Trailer lines are accepted exactly if each follows those before it, and then they
      amount to the last value of each name and the signature. */
  lemma {:induction false} TakenExactly(c: Config, lines: seq<Bytes>)
    ensures Taken(c, lines).Got? <==> Acceptable(c, lines)
    ensures Taken(c, lines).Got? ==>
              ValuesRight(c, lines, Taken(c, lines).trailers.values) && SignatureRight(c, lines, Taken(c, lines).trailers.signature)
    decreases |lines|
  {
    if lines != [] {
      var earlier, line := lines[..|lines| - 1], lines[|lines| - 1];
      assert lines == earlier + [line];
      TakenExactly(c, earlier);
      AcceptableSnoc(c, earlier, line);
      if Taken(c, earlier).Got? {
        var t := Taken(c, earlier).trailers;
        AcceptsExactly(c, earlier, line, t);
        if AddTrailer(c, t, line).Got? {
          ValueAdded(c, earlier, line, t.values);
          SignatureAdded(c, earlier, line, t);
        }
      }
    }
  }

  // ------------------------------------------------------------- trailer sections

  lemma {:induction false} RefusedStays(c: Config, t: Trailers, raws: seq<Bytes>, raw: Bytes)
    requires TrailersOf(c, t, raws).Refused?
    ensures TrailersOf(c, t, raws + [raw]).Refused?
    decreases |raws|
  {
    if raws != [] {
      assert (raws + [raw])[1..] == raws[1..] + [raw];
      var first := AddTrailer(c, t, TrimLineEnd(raws[0]));
      if first.Got? {
        RefusedStays(c, first.trailers, raws[1..], raw);
      }
    }
  }

  lemma {:induction false} TakenOfRaws(c: Config, raws: seq<Bytes>)
    ensures TrailersOf(c, NO_TRAILERS, raws).Got? <==> Taken(c, Texts(raws)).Got?
    ensures TrailersOf(c, NO_TRAILERS, raws).Got? ==> TrailersOf(c, NO_TRAILERS, raws) == Taken(c, Texts(raws))
    decreases |raws|
  {
    if raws != [] {
      var earlier, raw := raws[..|raws| - 1], raws[|raws| - 1];
      assert raws == earlier + [raw] && Texts(raws) == Texts(earlier) + [TrimLineEnd(raw)];
      assert Texts(raws)[..|earlier|] == Texts(earlier);
      TakenOfRaws(c, earlier);
      if TrailersOf(c, NO_TRAILERS, earlier).Got? {
        TrailersSnoc(c, NO_TRAILERS, earlier, raw);
      } else {
        RefusedStays(c, NO_TRAILERS, earlier, raw);
      }
    }
  }

  /** What holds of the trailer lines of a body that is read to a clean end: each was
      acceptable after those before it, and for each declared checksum the last value
      given is that of the data. */
  lemma CleanEndHasTrailers(c: Config, seed: Bytes, body: Bytes)
    requires |body| <= MAX_INT64 && Decode(c, Start(seed, body)).outcome == Eof
    ensures
      var lines, data := LastSection(c, Start(seed, body)).lines, Decode(c, Start(seed, body)).data;
      && Acceptable(c, lines)
      && forall name :: name in c.trailers ==>
           exists value :: LastValue(c, lines, name, value) && c.DecodeExpected(name, value) == Some(c.Checksum(name, data))
  {
    var s := Start(seed, body);
    var data := Decode(c, s).data;
    var e := CleanEndMeansValid(c, s);
    DataIsShorter(e.frames);
    EncodingOkIff(c, seed, body, e);
    ValidSection(c, s, e);
    var lines := Texts(e.lines);
    TakenOfRaws(c, e.lines);
    TakenExactly(c, lines);
    var values := Taken(c, lines).trailers.values;
    forall name | name in c.trailers
      ensures exists value :: LastValue(c, lines, name, value) && c.DecodeExpected(name, value) == Some(c.Checksum(name, data))
    {
      assert LastValue(c, lines, name, values[name]);
    }
  }

  // ------------------------------------------------------------------- chunk sizes

  function DigitOf(c: char): int {
    if '0' <= c <= '9' then c as int - 48
    else if 'A' <= c <= 'F' then c as int - 55
    else if 'a' <= c <= 'f' then c as int - 87
    else -1
  }

  predicate Digits(s: Bytes) {
    forall i :: 0 <= i < |s| ==> DigitOf(s[i]) >= 0
  }

  /** The number that hexadecimal digits stand for, the last one the least. */
  function Number(s: Bytes): nat
    requires Digits(s)
  {
    if s == [] then 0 else 16 * Number(s[..|s| - 1]) + DigitOf(s[|s| - 1])
  }

  lemma {:induction false} DigitsParse(s: Bytes)
    ensures ParseDigits(s, 0) == if Digits(s) then Some(Number(s)) else None
    decreases |s|
  {
    if s != [] {
      var init, last := s[..|s| - 1], s[|s| - 1];
      assert s == init + [last];
      DigitsParse(init);
      DigitAfter(init, 0, last);
    }
  }

  lemma {:induction false} DigitAfter(s: Bytes, value: nat, last: char)
    ensures
      ParseDigits(s + [last], value) ==
      if ParseDigits(s, value).Some? && DigitOf(last) >= 0 then Some(16 * ParseDigits(s, value).value + DigitOf(last)) else None
    decreases |s|
  {
    if s == [] {
      assert [last][1..] == [] && [] + [last] == [last];
    } else {
      assert (s + [last])[1..] == s[1..] + [last];
      if HexValue(s[0]).Some? {
        DigitAfter(s[1..], 16 * value + HexValue(s[0]).value, last);
      }
    }
  }

  /** A chunk size is read exactly from one or more hexadecimal digits after at most one
      sign, if it fits 64 bits. */
  lemma SizeExactly(s: Bytes, v: int)
    ensures
      var sign := s != [] && (s[0] == '-' || s[0] == '+');
      var digits := if sign then s[1..] else s;
      ParseInt16(s) == Some(v) <==>
      && digits != [] && Digits(digits) && -0x8000_0000_0000_0000 <= v < 0x8000_0000_0000_0000
      && var n: int := Number(digits);
         v == if sign && s[0] == '-' then -n else n
  {
    var digits := if s != [] && (s[0] == '-' || s[0] == '+') then s[1..] else s;
    DigitsParse(digits);
  }
}
