/** Random access into a CTR-encrypted file: big-endian counter arithmetic, and a
    reader that stays in step with its file through reads and seeks. */
module CtrReader {
  import opened ByteOrder
  import opened Int64

  newtype byte = x: int | 0 <= x < 256

  const BLOCK := 16
  const TWO_TO_64 := 0x1_0000_0000_0000_0000

  // ------------------------------------------------------------------- counters

  function Power256(k: nat): (p: nat)
    ensures p > 0
  {
    if k == 0 then 1 else 256 * Power256(k - 1)
  }

  /** The number a byte string stands for, most significant byte first. */
  function BigEndian(s: seq<byte>): nat {
    if s == [] then 0 else 256 * BigEndian(s[..|s| - 1]) + s[|s| - 1] as nat
  }

  /** A counter after an addition in 64-bit arithmetic, digit by digit. */
  function Added(ctr: seq<byte>, val: nat): (r: seq<byte>)
    ensures |r| == |ctr|
  {
    if ctr == [] then
      []
    else
      var sum := (val + ctr[|ctr| - 1] as nat) % TWO_TO_64;
      Added(ctr[..|ctr| - 1], sum / 256) + [(sum % 256) as byte]
  }

  lemma AddedLast(init: seq<byte>, last: byte, val: nat, low: seq<byte>)
    ensures
      var sum := (val + last as nat) % TWO_TO_64;
      Added(init + [last], val) + low == Added(init, sum / 256) + ([(sum % 256) as byte] + low)
  {
    assert (init + [last])[..|init|] == init;
  }

  lemma AddedAt(start: seq<byte>, i: nat, val: nat, low: seq<byte>)
    requires i < |start|
    ensures
      var sum := (val + start[i] as nat) % TWO_TO_64;
      Added(start[..i + 1], val) + low == Added(start[..i], sum / 256) + ([(sum % 256) as byte] + low)
  {
    assert start[..i + 1] == start[..i] + [start[i]];
    AddedLast(start[..i], start[i], val, low);
  }

  method AddCtr(ctr: array<byte>, val: nat)
    requires val < TWO_TO_64
    modifies ctr
    ensures ctr[..] == Added(old(ctr[..]), val)
  {
    var v: nat, i := val, ctr.Length;
    ghost var start, low: seq<byte> := ctr[..], [];
    assert start[..i] == start && Added(start, val) + low == Added(start, val);
    while i > 0
      invariant 0 <= i <= ctr.Length && |start| == ctr.Length
      invariant ctr[..i] == start[..i] && ctr[i..] == low
      invariant Added(start[..i], v) + low == Added(start, val)
    {
      i := i - 1;
      assert ctr[i] == ctr[..i + 1][i] == start[i];
      AddedAt(start, i, v, low);
      var sum := (v + ctr[i] as nat) % TWO_TO_64;
      low := [(sum % 256) as byte] + low;
      ctr[i] := (sum % 256) as byte;
      v := sum / 256;
    }
    assert ctr[..] == ctr[0..];
  }

  lemma {:induction false} Gap(a: nat, b: nat, m: nat)
    ensures a < b ==> a * m + m <= b * m
    decreases b
  {
    if a + 1 < b {
      Gap(a, b - 1, m);
      assert b * m == (b - 1) * m + m;
    } else if a < b {
      assert b * m == a * m + m;
    }
  }

  /** Quotient and remainder are unique. */
  lemma Remainder(sum: nat, q: nat, m: nat, r: nat)
    requires r < m && sum == q * m + r
    ensures r == sum % m
  {
    var d := sum / m;
    assert sum == d * m + sum % m;
    Gap(d, q, m);
    Gap(q, d, m);
  }

  lemma ModScale(x: nat, m: nat, b: nat)
    requires m > 0 && b < 256
    ensures 256 * (x % m) + b == (256 * x + b) % (256 * m)
  {
    var q, r := x / m, x % m;
    assert 256 * x + b == q * (256 * m) + (256 * r + b);
    Remainder(256 * x + b, q, 256 * m, 256 * r + b);
  }

  lemma {:induction false} AddedSmall(ctr: seq<byte>, val: nat)
    requires val < TWO_TO_64 - 255
    ensures BigEndian(Added(ctr, val)) == (BigEndian(ctr) + val) % Power256(|ctr|)
    decreases |ctr|, 1
  {
    if ctr != [] {
      AddedDigit(ctr, val, val + ctr[|ctr| - 1] as nat);
    }
  }

  lemma CarryOver(init: seq<byte>, carry: nat, b: byte)
    requires carry < TWO_TO_64 - 255
    ensures BigEndian(Added(init, carry) + [b]) == (256 * (BigEndian(init) + carry) + b as nat) % (256 * Power256(|init|))
    decreases |init|, 2
  {
    var high := Added(init, carry);
    assert (high + [b])[..|high|] == high;
    AddedSmall(init, carry);
    ModScale(BigEndian(init) + carry, Power256(|init|), b as nat);
  }

  /** The digits above the last one get the carry. */
  lemma AddedDigit(ctr: seq<byte>, val: nat, sum: nat)
    requires ctr != [] && sum == (val + ctr[|ctr| - 1] as int) % TWO_TO_64
    ensures BigEndian(Added(ctr, val)) == (256 * BigEndian(ctr[..|ctr| - 1]) + sum) % Power256(|ctr|)
    decreases |ctr|, 0
  {
    CarryOver(ctr[..|ctr| - 1], sum / 256, (sum % 256) as byte);
  }

  lemma Power256Of16()
    ensures Power256(16) == TWO_TO_64 * TWO_TO_64
  {
    assert Power256(4) == 0x1_0000_0000;
    assert Power256(8) == TWO_TO_64 by {
      assert Power256(6) == 0x1_0000_0000_0000;
    }
    assert Power256(12) == 0x1_0000_0000 * TWO_TO_64 by {
      assert Power256(10) == 0x1_0000 * TWO_TO_64;
    }
    assert Power256(14) == 0x1_0000_0000_0000 * TWO_TO_64;
  }

  /** For a 16-byte counter the result is the sum modulo 2^128, as in counter mode,
      exactly if the first addition does not overflow 64 bits. */
  lemma AddedIsSum(ctr: seq<byte>, val: nat)
    requires |ctr| == BLOCK && val < TWO_TO_64
    ensures BigEndian(Added(ctr, val)) == (BigEndian(ctr) + val) % (TWO_TO_64 * TWO_TO_64)
            <==> val + ctr[15] as nat < TWO_TO_64
  {
    Power256Of16();
    if val + ctr[15] as nat < TWO_TO_64 {
      AddedDigit(ctr, val, val + ctr[15] as nat);
    } else {
      AddedDigit(ctr, val, val + ctr[15] as nat - TWO_TO_64);
      var m, z := TWO_TO_64 * TWO_TO_64, BigEndian(ctr) + val - TWO_TO_64;
      DifferentRemainders(z, TWO_TO_64, m);
    }
  }

  lemma DifferentRemainders(z: nat, k: nat, m: nat)
    requires 0 < k < m
    ensures z % m != (z + k) % m
  {
    var d, e := z / m, (z + k) / m;
    assert z == d * m + z % m && z + k == e * m + (z + k) % m;
    Gap(d, e, m);
    Gap(e, d, m);
  }

  /** No block index of a file comes near that bound. */
  lemma BlockIndexFits(ctr: seq<byte>, offset: nat)
    requires |ctr| == BLOCK && offset <= MAX_INT64
    ensures BigEndian(Added(ctr, offset / BLOCK)) == (BigEndian(ctr) + offset / BLOCK) % (TWO_TO_64 * TWO_TO_64)
  {
    AddedIsSum(ctr, offset / BLOCK);
  }

  // -------------------------------------------------------------------- streams

  const COUNTERS := TWO_TO_64 * TWO_TO_64

  /** A counter value after wrapping around. */
  function Wrapped(n: nat): nat {
    if n < COUNTERS then n else Wrapped(n - COUNTERS)
  }

  lemma {:induction false} WrappedIsRemainder(n: nat)
    ensures Wrapped(n) == n % COUNTERS
  {
    if n >= COUNTERS {
      WrappedIsRemainder(n - COUNTERS);
    }
  }

  function Power2(k: nat): (p: nat)
    ensures p > 0
  {
    if k == 0 then 1 else 2 * Power2(k - 1)
  }

  /** Exclusive or of two numbers of `k` bits. */
  function XorBits(a: nat, b: nat, k: nat): (r: nat)
    ensures r < Power2(k)
  {
    if k == 0 then 0 else 2 * XorBits(a / 2, b / 2, k - 1) + if a % 2 == b % 2 then 0 else 1
  }

  function Xor(a: byte, b: byte): byte {
    assert Power2(8) == 256 by {
      assert Power2(4) == 16 && Power2(6) == 64;
    }
    XorBits(a as nat, b as nat, 8) as byte
  }

  lemma {:induction false} XorBitsTwice(a: nat, b: nat, k: nat)
    requires a < Power2(k)
    ensures XorBits(XorBits(a, b, k), b, k) == a
  {
    if k > 0 {
      XorBitsTwice(a / 2, b / 2, k - 1);
      var x := XorBits(a, b, k);
      assert x / 2 == XorBits(a / 2, b / 2, k - 1);
      assert x % 2 == if a % 2 == b % 2 then 0 else 1;
    }
  }

  function Bit(a: nat, n: nat): nat {
    (a / Power2(n)) % 2
  }

  /** Exclusive or, bit by bit. */
  lemma XorIsBitwise(a: byte, b: byte, n: nat)
    requires n < 8
    ensures Bit(Xor(a, b) as nat, n) == if Bit(a as nat, n) == Bit(b as nat, n) then 0 else 1
  {
    XorBitAt(a as nat, b as nat, 8, n);
  }

  lemma {:induction false} XorBitAt(a: nat, b: nat, k: nat, n: nat)
    requires n < k
    ensures Bit(XorBits(a, b, k), n) == if Bit(a, n) == Bit(b, n) then 0 else 1
    decreases n
  {
    XorHalves(a, b, k);
    if n == 0 {
      assert Power2(0) == 1;
    } else {
      XorBitAt(a / 2, b / 2, k - 1, n - 1);
      BitOfHalf(a, n);
      BitOfHalf(b, n);
      BitOfHalf(XorBits(a, b, k), n);
    }
  }

  lemma XorHalves(a: nat, b: nat, k: nat)
    requires k > 0
    ensures XorBits(a, b, k) / 2 == XorBits(a / 2, b / 2, k - 1)
    ensures XorBits(a, b, k) % 2 == if a % 2 == b % 2 then 0 else 1
  {
  }

  lemma BitOfHalf(a: nat, n: nat)
    requires n > 0
    ensures Bit(a, n) == Bit(a / 2, n - 1)
  {
    var p := Power2(n - 1);
    var q, r := a / 2 / p, a / 2 % p;
    assert a / 2 == q * p + r;
    assert a == q * (2 * p) + (2 * r + a % 2);
    Quotient(a, q, 2 * p, 2 * r + a % 2);
  }

  lemma Quotient(sum: nat, q: nat, m: nat, r: nat)
    requires r < m && sum == q * m + r
    ensures q == sum / m
  {
    var d := sum / m;
    assert sum == d * m + sum % m;
    Gap(d, q, m);
    Gap(q, d, m);
  }

  /** A block cipher: each counter value gives sixteen bytes. */
  type Cipher = f: nat -> seq<byte> | forall n :: |f(n)| == BLOCK witness n => seq(BLOCK, i => 0 as byte)

  /** The CTR keystream for a counter, at a position. */
  function KeyByte(block: Cipher, counter: nat, at: nat): byte {
    block(Wrapped(counter + at / BLOCK))[at % BLOCK]
  }

  /** Data with the keystream from a position on run over it. */
  function Masked(block: Cipher, counter: nat, at: nat, data: seq<byte>): (r: seq<byte>)
    ensures |r| == |data|
  {
    seq(|data|, i requires 0 <= i < |data| => Xor(data[i], KeyByte(block, counter, at + i)))
  }

  lemma MaskedTwice(block: Cipher, counter: nat, at: nat, data: seq<byte>)
    ensures Masked(block, counter, at, Masked(block, counter, at, data)) == data
  {
    var once := Masked(block, counter, at, data);
    forall i | 0 <= i < |data|
      ensures Masked(block, counter, at, once)[i] == data[i]
    {
      XorTwice(data[i], KeyByte(block, counter, at + i));
    }
  }

  /** A stored file: the initial counter block, then the masked plaintext. */
  function Encrypted(block: Cipher, iv: seq<byte>, plaintext: seq<byte>): seq<byte> {
    iv + Masked(block, BigEndian(iv), 0, plaintext)
  }

  function Plaintext(block: Cipher, iv: seq<byte>, content: seq<byte>): seq<byte> {
    if |content| < BLOCK then [] else Masked(block, BigEndian(iv), 0, content[BLOCK..])
  }

  lemma XorTwice(a: byte, b: byte)
    ensures Xor(Xor(a, b), b) == a
  {
    assert Power2(4) == 16 && Power2(6) == 64 && Power2(8) == 256;
    XorBitsTwice(a as nat, b as nat, 8);
  }

  /** What was stored is what is read. */
  lemma DecryptsWhatWasEncrypted(block: Cipher, iv: seq<byte>, plaintext: seq<byte>)
    requires |iv| == BLOCK
    ensures Plaintext(block, iv, Encrypted(block, iv, plaintext)) == plaintext
  {
    var content := Encrypted(block, iv, plaintext);
    assert content[BLOCK..] == Masked(block, BigEndian(iv), 0, plaintext);
    MaskedTwice(block, BigEndian(iv), 0, plaintext);
  }

  /** A stored file holds the initial counter block and then, for each byte of the
      plaintext, the byte combined with the block of the counter as many on as blocks
      precede it, modulo 2^128. */
  lemma EncryptedInBlocks(block: Cipher, iv: seq<byte>, plaintext: seq<byte>, n: nat, i: nat)
    requires |iv| == 16 && i < 16 && 16 * n + i < |plaintext|
    ensures
      var content := Encrypted(block, iv, plaintext);
      && |content| == 16 + |plaintext| && content[..16] == iv
      && content[16 + 16 * n + i] ==
         Xor(plaintext[16 * n + i], block((BigEndian(iv) + n) % 0x1_0000_0000_0000_0000_0000_0000_0000_0000)[i])
  {
    KeyByteAt(block, BigEndian(iv), n, i);
    var body, at := Masked(block, BigEndian(iv), 0, plaintext), 16 * n + i;
    assert body[at] == Xor(plaintext[at], KeyByte(block, BigEndian(iv), 0 + at));
    MaskedByteAt(iv, body, at);
  }

  lemma MaskedByteAt(iv: seq<byte>, body: seq<byte>, at: nat)
    requires |iv| == 16 && at < |body|
    ensures (iv + body)[..16] == iv && (iv + body)[16 + at] == body[at]
  {
  }

  lemma KeyByteAt(block: Cipher, counter: nat, n: nat, i: nat)
    requires i < 16
    ensures KeyByte(block, counter, 16 * n + i) == block((counter + n) % COUNTERS)[i]
  {
    WrappedIsRemainder(counter + n);
    assert (16 * n + i) / BLOCK == n && (16 * n + i) % BLOCK == i;
  }

  /** The keystream of a counter some blocks on is the later part of the stream. */
  lemma KeyByteFrom(block: Cipher, counter: nat, blocks: nat, at: nat)
    ensures KeyByte(block, Wrapped(counter + blocks), at) == KeyByte(block, counter, BLOCK * blocks + at)
  {
    assert (BLOCK * blocks + at) / BLOCK == blocks + at / BLOCK && (BLOCK * blocks + at) % BLOCK == at % BLOCK;
    WrappedSum(counter + blocks, at / BLOCK);
  }

  lemma {:induction false} WrappedSum(a: nat, b: nat)
    ensures Wrapped(Wrapped(a) + b) == Wrapped(a + b)
  {
    if a >= COUNTERS {
      WrappedSum(a - COUNTERS, b);
    }
  }

  lemma Slices<T>(s: seq<T>, lo: nat, mid: nat, hi: nat)
    requires lo <= mid <= hi <= |s|
    ensures s[lo..hi] == s[lo..mid] + s[mid..hi]
  {
  }

  lemma SliceOfDrop<T>(s: seq<T>, start: nat, from: nat, n: nat)
    requires start + from + n <= |s|
    ensures s[start..][from..from + n] == s[start + from..start + from + n]
  {
  }

  /** Running a stream in step with the file over its bytes gives the plaintext. */
  lemma PlaintextAt(block: Cipher, iv: seq<byte>, content: seq<byte>, blocks: nat, s: Stream, offset: nat, data: seq<byte>)
    requires s.counter == Wrapped(BigEndian(iv) + blocks) && offset == BLOCK * blocks + s.used
    requires BLOCK + offset + |data| <= |content| && data == content[BLOCK..][offset..offset + |data|]
    ensures offset + |data| <= |Plaintext(block, iv, content)|
    ensures Masked(block, s.counter, s.used, data) == Plaintext(block, iv, content)[offset..offset + |data|]
  {
    MaskedPart(block, s.counter, s.used, BigEndian(iv), blocks, content[BLOCK..], offset, data);
  }

  lemma MaskedPart(block: Cipher, started: nat, used: nat, counter: nat, blocks: nat, body: seq<byte>, offset: nat, data: seq<byte>)
    requires started == Wrapped(counter + blocks) && offset == BLOCK * blocks + used
    requires offset + |data| <= |body| && data == body[offset..offset + |data|]
    ensures Masked(block, started, used, data) == Masked(block, counter, 0, body)[offset..offset + |data|]
  {
    var whole := Masked(block, counter, 0, body);
    forall i | 0 <= i < |data|
      ensures Masked(block, started, used, data)[i] == whole[offset..offset + |data|][i]
    {
      MaskedByte(block, started, used, counter, blocks, body, offset, data, i);
    }
  }

  lemma MaskedByte(block: Cipher, started: nat, used: nat, counter: nat, blocks: nat, body: seq<byte>, offset: nat, data: seq<byte>, i: nat)
    requires started == Wrapped(counter + blocks) && offset == BLOCK * blocks + used
    requires offset + |data| <= |body| && data == body[offset..offset + |data|] && i < |data|
    ensures Masked(block, started, used, data)[i] == Masked(block, counter, 0, body)[offset + i]
  {
    KeyByteFrom(block, counter, blocks, used + i);
    assert data[i] == body[offset + i];
    assert offset + i == BLOCK * blocks + (used + i);
  }

  // --------------------------------------------------------------------- reading

  datatype Error =
    | EndOfFile
    | UnexpectedEof
    | InvalidWhence
    | NegativeOffset
    | IoError

  datatype Whence = SeekStart | SeekCurrent | SeekEnd | OtherWhence

  /** An open file. Reads may be short, and reads and seeks may fail. */
  class File {
    const content: seq<byte>
    var position: int

    constructor (content: seq<byte>)
      ensures this.content == content && position == 0
    {
      this.content, position := content, 0;
    }

    method Read(p: array<byte>, lo: nat, hi: nat) returns (n: nat, err: Option<Error>)
      requires lo <= hi <= p.Length && position >= 0
      modifies this`position, p
      ensures n <= hi - lo && position == old(position) + n
      ensures n > 0 ==> err == None && position <= |content| && p[lo..lo + n] == content[old(position)..position]
      ensures p[..lo] == old(p[..lo]) && p[lo + n..] == old(p[lo + n..])
      ensures n == 0 && lo < hi ==> err == Some(IoError) || (err == Some(EndOfFile) && position >= |content|)
      ensures lo == hi ==> err == None || err == Some(IoError)
    {
      n, err := 0, None;
      if * {
        err := Some(IoError);
      } else if lo < hi {
        if position >= |content| {
          err := Some(EndOfFile);
        } else {
          var most := if hi - lo < |content| - position then hi - lo else |content| - position;
          n :| 0 < n <= most;
          forall i | lo <= i < lo + n {
            p[i] := content[position + i - lo];
          }
          position := position + n;
        }
      }
    }

    method Seek(to: int) returns (err: Option<Error>)
      modifies this`position
      ensures err.None? ==> to >= 0 && position == to
      ensures err.Some? ==> err == Some(IoError) && position == old(position)
    {
      err := Some(IoError);
      if to >= 0 {
        if * {
          position, err := to, None;
        }
      }
    }
  }

  /** A cipher stream: a counter and how many bytes of its keystream are used. */
  datatype Stream = Stream(counter: nat, used: nat)

  class CtrReadSeeker {
    const file: File
    const block: Cipher
    const iv: seq<byte>
    var currentOffset: int
    var stream: Option<Stream>
    ghost var blocks: nat // where the stream was started

    /** The file, the stream and the offset are in step. */
    ghost predicate Valid()
      reads this, file
    {
      && |iv| == BLOCK && |file.content| <= MAX_INT64
      && (stream.Some? ==>
            && 0 <= currentOffset && file.position == BLOCK + currentOffset
            && stream.value.counter == Wrapped(BigEndian(iv) + blocks)
            && currentOffset == BLOCK * blocks + stream.value.used)
    }

    ghost function Contents(): seq<byte>
      reads this
    {
      Plaintext(block, iv, file.content)
    }

    constructor (file: File, block: Cipher, iv: seq<byte>)
      requires |iv| == BLOCK && |file.content| <= MAX_INT64
      ensures Valid() && this.file == file && this.block == block && this.iv == iv && stream.None?
    {
      this.file, this.block, this.iv := file, block, iv;
      currentOffset, stream, blocks := 0, None, 0;
    }

    /** Reads into p[lo..hi]: what it returns is the plaintext at the offset. */
    method Read(p: array<byte>, lo: nat, hi: nat) returns (n: nat, err: Option<Error>)
      requires Valid() && lo <= hi <= p.Length
      modifies this, file, p
      ensures Valid() && n <= hi - lo && stream.Some? == old(stream.Some?)
      ensures currentOffset == old(currentOffset) + n
      ensures p[..lo] == old(p[..lo]) && p[lo + n..] == old(p[lo + n..])
      ensures n > 0 ==>
                && stream.Some? && err.None? && 0 <= old(currentOffset) && currentOffset <= |Contents()|
                && p[lo..lo + n] == Contents()[old(currentOffset)..currentOffset]
      ensures n == 0 && lo < hi && stream.Some? ==>
                err == Some(IoError) || (err == Some(EndOfFile) && currentOffset >= |Contents()|)
    {
      if stream.None? {
        return 0, Some(EndOfFile);
      }
      n, err := file.Read(p, lo, hi);
      if n > 0 {
        SliceOfDrop(file.content, BLOCK, currentOffset, n);
        Advance(p, lo, n);
      }
    }

    /** Catches up with the file after it handed out `n` bytes. */
    method Advance(p: array<byte>, lo: nat, n: nat)
      requires stream.Some? && lo + n <= p.Length && 0 <= currentOffset
      requires stream.value.counter == Wrapped(BigEndian(iv) + blocks)
      requires currentOffset == BLOCK * blocks + stream.value.used && BLOCK + currentOffset + n <= |file.content|
      requires p[lo..lo + n] == file.content[BLOCK..][currentOffset..currentOffset + n]
      modifies this`stream, this`currentOffset, p
      ensures stream == Some(old(stream).value.(used := old(stream).value.used + n)) && currentOffset == old(currentOffset) + n
      ensures p[..lo] == old(p[..lo]) && p[lo + n..] == old(p[lo + n..])
      ensures currentOffset <= |Contents()| && p[lo..lo + n] == Contents()[old(currentOffset)..currentOffset]
    {
      PlaintextAt(block, iv, file.content, blocks, stream.value, currentOffset, p[lo..lo + n]);
      Unmask(p, lo, n);
      currentOffset := currentOffset + n;
    }

    /** Runs the next bytes of the keystream over p[lo..lo + n]. */
    method Unmask(p: array<byte>, lo: nat, n: nat)
      requires stream.Some? && lo + n <= p.Length
      modifies this`stream, p
      ensures stream == Some(old(stream).value.(used := old(stream).value.used + n))
      ensures p[..lo] == old(p[..lo]) && p[lo + n..] == old(p[lo + n..])
      ensures p[lo..lo + n] == Masked(block, old(stream).value.counter, old(stream).value.used, old(p[lo..lo + n]))
    {
      var s := stream.value;
      var out := Masked(block, s.counter, s.used, p[lo..lo + n]);
      forall i | lo <= i < lo + n {
        p[i] := out[i - lo];
      }
      stream := Some(s.(used := s.used + n));
    }

    /** Reads until the buffer is full; fails if the contents end first. */
    method ReadFull(p: array<byte>) returns (err: Option<Error>)
      requires Valid() && stream.Some? && p.Length > 0
      modifies this, file, p
      ensures Valid() && stream.Some?
      ensures err.None? ==> currentOffset == old(currentOffset) + p.Length
      ensures err.None? ==> 0 <= old(currentOffset) && currentOffset <= |Contents()|
                            && p[..] == Contents()[old(currentOffset)..currentOffset]
      ensures err.Some? && err != Some(IoError) ==>
                (err == Some(EndOfFile) || err == Some(UnexpectedEof)) && |Contents()| < old(currentOffset) + p.Length
    {
      var got := 0;
      ghost var from := currentOffset;
      while got < p.Length
        invariant Valid() && stream.Some? && got <= p.Length && currentOffset == from + got
        invariant got > 0 ==> currentOffset <= |Contents()| && p[..got] == Contents()[from..currentOffset]
        decreases p.Length - got
      {
        ghost var before, at := p[..got], currentOffset;
        var n, e := Read(p, got, p.Length);
        if n == 0 {
          return if e == Some(EndOfFile) && got > 0 then Some(UnexpectedEof) else e;
        }
        Slices(p[..], 0, got, got + n);
        Slices(Contents(), from, at, currentOffset);
        got := got + n;
      }
      assert p[..got] == p[..];
      err := None;
    }

    /** Where a seek is asked to go, in 64-bit arithmetic. */
    ghost function Target(offset: int, whence: Whence): int
      requires |file.content| <= MAX_INT64
      reads this
    {
      match whence
      case SeekCurrent => Add64(currentOffset, offset)
      case SeekEnd => Add64(|Contents()|, offset)
      case _ => offset
    }

    /** The counter of the block an offset lies in. */
    method CounterAt(target: nat) returns (counter: nat)
      requires |iv| == BLOCK && target <= MAX_INT64
      ensures counter == Wrapped(BigEndian(iv) + target / BLOCK)
    {
      var ctr := new byte[|iv|](i requires 0 <= i < |iv| => iv[i]);
      assert ctr[..] == iv;
      BlockIndexFits(iv, target);
      AddCtr(ctr, target / BLOCK);
      WrappedIsRemainder(BigEndian(iv) + target / BLOCK);
      counter := BigEndian(ctr[..]);
    }

    /** A seek that succeeds moves to its target. One that fails may leave the reader
        elsewhere, but still in step with its file. */
    method Seek(offset: int, whence: Whence) returns (to: int, err: Option<Error>)
      requires Valid() && IsInt64(offset)
      modifies this, file
      ensures Valid() && (old(stream.Some?) ==> stream.Some?)
      ensures err.None? ==> stream.Some? && to == currentOffset == old(Target(offset, whence)) && to >= 0
      ensures err.None? && whence.SeekStart? ==> currentOffset == offset
      ensures err.None? && whence.SeekCurrent? ==> currentOffset == Add64(old(currentOffset), offset)
      ensures err.None? && whence.SeekEnd? ==> currentOffset == Add64(|Contents()|, offset)
      ensures whence.OtherWhence? <==> err == Some(InvalidWhence)
      ensures err == Some(NegativeOffset) ==> old(Target(offset, whence)) < 0
      ensures old(Target(offset, whence)) < 0 && !whence.OtherWhence? ==> err == Some(NegativeOffset) || err == Some(IoError)
      ensures err == Some(EndOfFile) || err == Some(UnexpectedEof) ==> old(Target(offset, whence)) > |Contents()|
    {
      to := 0;
      var target;
      match whence {
        case SeekStart => target := offset;
        case SeekCurrent => target := Add64(currentOffset, offset);
        case SeekEnd =>
          if * {
            return 0, Some(IoError);
          }
          var contentSize := |file.content| - BLOCK;
          if contentSize < 0 {
            contentSize := 0;
          }
          target := Add64(contentSize, offset);
        case OtherWhence => return 0, Some(InvalidWhence);
      }
      assert target == Target(offset, whence);
      if target < 0 {
        return 0, Some(NegativeOffset);
      }
      err := SeekTo(target);
      to := if err.None? then target else 0;
    }

    method SeekTo(target: nat) returns (err: Option<Error>)
      requires Valid() && target <= MAX_INT64
      modifies this, file
      ensures Valid() && (old(stream.Some?) ==> stream.Some?)
      ensures err.None? ==> stream.Some? && currentOffset == target
      ensures err.Some? && err != Some(IoError) ==>
                (err == Some(EndOfFile) || err == Some(UnexpectedEof)) && target > |Contents()|
    {
      var blockIndex, remainder := target / BLOCK, target % BLOCK;
      var counter := CounterAt(target);
      err := file.Seek(Add64(BLOCK, blockIndex * BLOCK));
      if err.Some? {
        return;
      }
      BlockPosition(target);
      stream, blocks := Some(Stream(counter, 0)), blockIndex;
      currentOffset := blockIndex * BLOCK;
      if remainder > 0 {
        var discardBuf := new byte[remainder];
        err := ReadFull(discardBuf);
      }
    }
  }

  lemma BlockPosition(target: nat)
    requires target <= MAX_INT64
    ensures
      var at := target / BLOCK * BLOCK;
      && at <= target && at + target % BLOCK == target
      && (Add64(BLOCK, at) >= 0 ==> Add64(BLOCK, at) == BLOCK + at)
  {
    OverflowIsNegative(BLOCK, target / BLOCK * BLOCK);
  }

  method NewCtrReadSeeker(file: File, block: Cipher, iv: seq<byte>) returns (crs: CtrReadSeeker, err: Option<Error>)
    requires |iv| == BLOCK && |file.content| <= MAX_INT64
    modifies file
    ensures fresh(crs) && crs.Valid() && crs.file == file && crs.block == block && crs.iv == iv
    ensures err.None? ==> crs.stream.Some? && crs.currentOffset == 0
  {
    crs := new CtrReadSeeker(file, block, iv);
    var _, e := crs.Seek(0, SeekStart);
    err := e;
  }
}
