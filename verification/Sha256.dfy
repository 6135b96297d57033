/** Block-split SHA-256 in host integers is SHA-256 of the padded message. */
module Sha256 {
  import opened Bytes
  import opened Powers
  import opened Rotations

  // ---- FIPS 180-4

  /** Section 4.1.2: the six logical functions. */
  function Ch(x: word, y: word, z: word): nat {
    Xor(And(x, y), And(WORD - 1 - x, z))
  }

  function Maj(x: word, y: word, z: word): nat {
    Xor(Xor(And(x, y), And(x, z)), And(y, z))
  }

  function BigSigma0(x: word): nat {
    Xor(Xor(Ror(x, 2), Ror(x, 13)), Ror(x, 22))
  }

  function BigSigma1(x: word): nat {
    Xor(Xor(Ror(x, 6), Ror(x, 11)), Ror(x, 25))
  }

  function SmallSigma0(x: word): nat {
    Xor(Xor(Ror(x, 7), Ror(x, 18)), ShiftRight(x, 3))
  }

  function SmallSigma1(x: word): nat {
    Xor(Xor(Ror(x, 17), Ror(x, 19)), ShiftRight(x, 10))
  }

  /** Section 4.2.2. */
  const K: seq<word> :=
    [0x428a2f98, 0x71374491, 0xb5c0fbcf, 0xe9b5dba5, 0x3956c25b, 0x59f111f1, 0x923f82a4, 0xab1c5ed5]
    + [0xd807aa98, 0x12835b01, 0x243185be, 0x550c7dc3, 0x72be5d74, 0x80deb1fe, 0x9bdc06a7, 0xc19bf174]
    + [0xe49b69c1, 0xefbe4786, 0x0fc19dc6, 0x240ca1cc, 0x2de92c6f, 0x4a7484aa, 0x5cb0a9dc, 0x76f988da]
    + [0x983e5152, 0xa831c66d, 0xb00327c8, 0xbf597fc7, 0xc6e00bf3, 0xd5a79147, 0x06ca6351, 0x14292967]
    + [0x27b70a85, 0x2e1b2138, 0x4d2c6dfc, 0x53380d13, 0x650a7354, 0x766a0abb, 0x81c2c92e, 0x92722c85]
    + [0xa2bfe8a1, 0xa81a664b, 0xc24b8b70, 0xc76c51a3, 0xd192e819, 0xd6990624, 0xf40e3585, 0x106aa070]
    + [0x19a4c116, 0x1e376c08, 0x2748774c, 0x34b0bcb5, 0x391c0cb3, 0x4ed8aa4a, 0x5b9cca4f, 0x682e6ff3]
    + [0x748f82ee, 0x78a5636f, 0x84c87814, 0x8cc70208, 0x90befffa, 0xa4506ceb, 0xbef9a3f7, 0xc67178f2]

  /** The eight working variables. */
  datatype Eight = Eight(a: word, b: word, c: word, d: word, e: word, f: word, g: word, h: word)

  /** Section 5.3.3. */
  const INITIAL := Eight(0x6a09e667, 0xbb67ae85, 0x3c6ef372, 0xa54ff53a, 0x510e527f, 0x9b05688c, 0x1f83d9ab, 0x5be0cd19)

  function BigEndian(b0: byte, b1: byte, b2: byte, b3: byte): word {
    b0 * 0x100_0000 + b1 * 0x1_0000 + b2 * 0x100 + b3
  }

  /** Section 6.2.2, step 1: word t of the message schedule; sums are modulo 2^32. */
  function W(block: seq<byte>, t: nat): word
    requires |block| == 64
  {
    if t < 16 then BigEndian(block[4 * t], block[4 * t + 1], block[4 * t + 2], block[4 * t + 3])
    else (SmallSigma1(W(block, t - 2)) + W(block, t - 7) + SmallSigma0(W(block, t - 15)) + W(block, t - 16)) % WORD
  }

  /** Section 6.2.2, step 3. */
  function Round(s: Eight, k: word, w: word): Eight {
    var t1 := s.h + BigSigma1(s.e) + Ch(s.e, s.f, s.g) + k + w;
    var t2 := BigSigma0(s.a) + Maj(s.a, s.b, s.c);
    Eight((t1 + t2) % WORD, s.a, s.b, s.c, (s.d + t1) % WORD, s.e, s.f, s.g)
  }

  function Rounds(s: Eight, block: seq<byte>, t: nat): Eight
    requires |block| == 64 && t <= 64
  {
    if t == 0 then s else Round(Rounds(s, block, t - 1), K[t - 1], W(block, t - 1))
  }

  /** Section 6.2.2, step 4. */
  function Plus(s: Eight, t: Eight): Eight {
    Eight((s.a + t.a) % WORD, (s.b + t.b) % WORD, (s.c + t.c) % WORD, (s.d + t.d) % WORD,
          (s.e + t.e) % WORD, (s.f + t.f) % WORD, (s.g + t.g) % WORD, (s.h + t.h) % WORD)
  }

  function Compress(s: Eight, block: seq<byte>): Eight
    requires |block| == 64
  {
    Plus(s, Rounds(s, block, 64))
  }

  /** The hash value after n blocks of a message. */
  function Hashed(message: seq<byte>, n: nat): Eight
    requires 64 * n <= |message|
  {
    if n == 0 then INITIAL else Compress(Hashed(message, n - 1), message[64 * (n - 1)..64 * n])
  }

  /** Byte i, counted from the low end, of the message length in bits. */
  function LengthByte(n: nat, i: nat): byte {
    n * 8 / Pow2(8 * i) % 256
  }

  function Zeros(n: nat): (z: seq<byte>)
    ensures |z| == n && forall i :: 0 <= i < n ==> z[i] == 0
  {
    if n == 0 then [] else [0] + Zeros(n - 1)
  }

  /** Section 5.1.1: a one bit, zeros up to 56 bytes modulo 64, and the length in bits. */
  function Padding(n: nat): (p: seq<byte>)
    ensures (n + |p|) % 64 == 0 && 9 <= |p| <= 72
  {
    [0x80] + Zeros((55 - n) % 64) + seq(8, i requires 0 <= i < 8 => LengthByte(n, 7 - i))
  }

  function WordBytes(w: word): seq<byte> {
    [w / 0x100_0000, w / 0x1_0000 % 256, w / 0x100 % 256, w % 256]
  }

  function DigestOf(s: Eight): (d: seq<byte>)
    ensures |d| == 32
  {
    WordBytes(s.a) + WordBytes(s.b) + WordBytes(s.c) + WordBytes(s.d) + WordBytes(s.e) + WordBytes(s.f) + WordBytes(s.g) + WordBytes(s.h)
  }

  /** The digest of section 6.2. */
  function Digest(data: seq<byte>): (d: seq<byte>)
    ensures |d| == 32
  {
    var message := data + Padding(|data|);
    DigestOf(Hashed(message, |message| / 64))
  }

  // ---- Host integers that hold words

  lemma RaisedByte(b: byte, n: nat)
    requires n == 8 || n == 16 || n == 24
    ensures Raised(b, n) == b * (if n == 8 then 0x100 else if n == 16 then 0x1_0000 else 0x100_0000) && Raised(b, n) % Pow2(n) == 0
    ensures Raised(b, n) < Pow2(n + 8)
  {
    assert Pow2(8) == 0x100;
    PowerSum(8, 8);
    PowerSum(16, 8);
    PowerSum(n, 8);
    QuotientUnique(Raised(b, n), Pow2(n), b, 0);
    Product(255 - b, Pow2(n));
    assert (255 - b) * Pow2(n) == 255 * Pow2(n) - b * Pow2(n);
  }

  /** Four bytes joined by shifts and unions are the big-endian word. */
  lemma BytesJoined(b0: byte, b1: byte, b2: byte, b3: byte)
    ensures Or(Or(Or(Raised(b0, 24), Raised(b1, 16)), Raised(b2, 8)), b3) == BigEndian(b0, b1, b2, b3)
  {
    hide Or, Raised, Pow2;
    RaisedByte(b0, 24);
    RaisedByte(b1, 16);
    RaisedByte(b2, 8);
    OrDisjoint(Raised(b1, 16), Raised(b0, 24), 24);
    Multiples(b0, b1, b2);
    OrDisjoint(Raised(b2, 8), Raised(b0, 24) + Raised(b1, 16), 16);
    OrDisjoint(b3, Raised(b0, 24) + Raised(b1, 16) + Raised(b2, 8), 8);
  }

  lemma BytePowers()
    ensures Pow2(8) == 0x100 && Pow2(16) == 0x1_0000 && Pow2(24) == 0x100_0000
  {
    assert Pow2(8) == 0x100;
    PowerSum(8, 8);
    PowerSum(16, 8);
  }

  lemma Multiples(b0: byte, b1: byte, b2: byte)
    ensures (Raised(b0, 24) + Raised(b1, 16)) % Pow2(16) == 0 && (Raised(b0, 24) + Raised(b1, 16) + Raised(b2, 8)) % Pow2(8) == 0
    ensures 255 < Pow2(8)
  {
    hide Raised, Pow2;
    BytePowers();
    RaisedByte(b0, 24);
    RaisedByte(b1, 16);
    RaisedByte(b2, 8);
    QuotientUnique(Raised(b0, 24) + Raised(b1, 16), 0x1_0000, b0 * 0x100 + b1, 0);
    QuotientUnique(Raised(b0, 24) + Raised(b1, 16) + Raised(b2, 8), 0x100, b0 * 0x1_0000 + b1 * 0x100 + b2, 0);
  }

  /** The schedule's step in host integers. */
  method ScheduleWord(w16: word, w15: word, w7: word, w2: word) returns (next: word)
    ensures next == (SmallSigma1(w2) + w7 + SmallSigma0(w15) + w16) % WORD
  {
    hide Or, Xor, Ror, ShiftLeft, ShiftRight;
    var x, y := w15 % WORD, w2 % WORD;
    UnionRotates(x, 7);
    UnionRotates(x, 18);
    UnionRotates(y, 17);
    UnionRotates(y, 19);
    var s0 := Or(ShiftRight(x, 7), ShiftLeft(x, 25));
    s0 := Xor(s0, Or(ShiftRight(x, 18), ShiftLeft(x, 14)));
    s0 := Xor(s0, ShiftRight(x, 3));
    var s1 := Or(ShiftRight(y, 17), ShiftLeft(y, 15));
    s1 := Xor(s1, Or(ShiftRight(y, 19), ShiftLeft(y, 13)));
    s1 := Xor(s1, ShiftRight(y, 10));
    var w := w16 + s0;
    w := w + w7 + s1;
    next := w % WORD;
  }

  lemma FirstWords(message: seq<byte>, chunk: nat, t: nat)
    requires chunk + 64 <= |message| && t < 16
    ensures var at := chunk + t * 4;
      W(message[chunk..chunk + 64], t) == BigEndian(message[at], message[at + 1], message[at + 2], message[at + 3])
  {
  }

  lemma LaterWords(block: seq<byte>, t: nat)
    requires |block| == 64 && t >= 16
    ensures W(block, t) == (SmallSigma1(W(block, t - 2)) + W(block, t - 7) + SmallSigma0(W(block, t - 15)) + W(block, t - 16)) % WORD
  {
  }

  /** The message schedule of one block, in place. */
  method Schedule(message: seq<byte>, chunk: nat, words: array<word>)
    requires words.Length == 64 && chunk + 64 <= |message|
    modifies words
    ensures forall t :: 0 <= t < 64 ==> words[t] == W(message[chunk..chunk + 64], t)
  {
    hide Or, Raised, SmallSigma0, SmallSigma1, W, BigEndian;
    ghost var block := message[chunk..chunk + 64];
    for i := 0 to 16
      invariant forall t :: 0 <= t < i ==> words[t] == W(block, t)
    {
      var at := chunk + i * 4;
      FirstWords(message, chunk, i);
      BytesJoined(message[at], message[at + 1], message[at + 2], message[at + 3]);
      var w := Raised(message[at], 24);
      w := Or(w, Raised(message[at + 1], 16));
      w := Or(w, Raised(message[at + 2], 8));
      w := Or(w, message[at + 3]);
      words[i] := w % WORD;
    }
    for i := 16 to 64
      invariant forall t :: 0 <= t < i ==> words[t] == W(block, t)
    {
      LaterWords(block, i);
      words[i] := ScheduleWord(words[i - 16], words[i - 15], words[i - 7], words[i - 2]);
    }
  }

  lemma ModBoth(a: int, b: int)
    ensures (a % WORD + b % WORD) % WORD == (a + b) % WORD && (a + b % WORD) % WORD == (a + b) % WORD
  {
    QuotientUnique(a + b, WORD, (a % WORD + b % WORD) / WORD + a / WORD + b / WORD, (a % WORD + b % WORD) % WORD);
    QuotientUnique(a + b, WORD, (a + b % WORD) / WORD + b / WORD, (a + b % WORD) % WORD);
  }

  lemma Complement(e: word)
    ensures Xor(e, WORD - 1) == WORD - 1 - e
  {
    hide Pow2;
    PowerOfWord();
    XorOnes(e, 32);
  }

  /** The first sum of a round. */
  method FirstSum(s: Eight, k: word, w: word) returns (t1: word)
    ensures t1 == (s.h + BigSigma1(s.e) + Ch(s.e, s.f, s.g) + k + w) % WORD
  {
    hide Or, Xor, And, Ror, ShiftLeft, ShiftRight;
    var e32 := s.e % WORD;
    UnionRotates(e32, 6);
    UnionRotates(e32, 11);
    UnionRotates(e32, 25);
    Complement(s.e);
    var s1 := Or(ShiftRight(e32, 6), ShiftLeft(e32, 26));
    s1 := Xor(s1, Or(ShiftRight(e32, 11), ShiftLeft(e32, 21)));
    s1 := Xor(s1, Or(ShiftRight(e32, 25), ShiftLeft(e32, 7)));
    var choose := Xor(And(s.e, s.f), And(Xor(s.e, 0xffff_ffff), s.g));
    var t := s.h + s1 + choose;
    t1 := (t + k + w) % WORD;
  }

  /** The second sum of a round. */
  method SecondSum(s: Eight) returns (t2: word)
    ensures t2 == (BigSigma0(s.a) + Maj(s.a, s.b, s.c)) % WORD
  {
    hide Or, Xor, And, Ror, ShiftLeft, ShiftRight;
    var a32 := s.a % WORD;
    UnionRotates(a32, 2);
    UnionRotates(a32, 13);
    UnionRotates(a32, 22);
    var s0 := Or(ShiftRight(a32, 2), ShiftLeft(a32, 30));
    s0 := Xor(s0, Or(ShiftRight(a32, 13), ShiftLeft(a32, 19)));
    s0 := Xor(s0, Or(ShiftRight(a32, 22), ShiftLeft(a32, 10)));
    var majority := Xor(Xor(And(s.a, s.b), And(s.a, s.c)), And(s.b, s.c));
    t2 := (s0 + majority) % WORD;
  }

  /** The eight entries of the value array. */
  ghost predicate Are(values: seq<word>, s: Eight) {
    && |values| == 8 && values[0] == s.a && values[1] == s.b && values[2] == s.c && values[3] == s.d
    && values[4] == s.e && values[5] == s.f && values[6] == s.g && values[7] == s.h
  }

  lemma RoundAgrees(s: Eight, k: word, w: word, t1: word, t2: word)
    requires t1 == (s.h + BigSigma1(s.e) + Ch(s.e, s.f, s.g) + k + w) % WORD && t2 == (BigSigma0(s.a) + Maj(s.a, s.b, s.c)) % WORD
    ensures Eight((t1 + t2) % WORD, s.a, s.b, s.c, (s.d + t1) % WORD, s.e, s.f, s.g) == Round(s, k, w)
  {
    hide BigSigma0, BigSigma1, Ch, Maj;
    ModBoth(s.h + BigSigma1(s.e) + Ch(s.e, s.f, s.g) + k + w, BigSigma0(s.a) + Maj(s.a, s.b, s.c));
    ModBoth(s.d, s.h + BigSigma1(s.e) + Ch(s.e, s.f, s.g) + k + w);
  }

  /** The sixty-four rounds of one block. */
  method RunRounds(words: array<word>, start: Eight, ghost block: seq<byte>) returns (v: Eight)
    requires words.Length == 64 && |block| == 64 && (forall t :: 0 <= t < 64 ==> words[t] == W(block, t))
    ensures v == Rounds(start, block, 64)
  {
    hide BigSigma0, BigSigma1, Ch, Maj, W, Round;
    v := start;
    for i := 0 to 64
      invariant v == Rounds(start, block, i)
    {
      var t1 := FirstSum(v, K[i], words[i]);
      var t2 := SecondSum(v);
      RoundAgrees(v, K[i], words[i], t1, t2);
      v := Eight((t1 + t2) % WORD, v.a, v.b, v.c, (v.d + t1) % WORD, v.e, v.f, v.g);
    }
  }

  /** One block, added into the value array. */
  method AddBlock(words: array<word>, values: array<word>, ghost block: seq<byte>, ghost s: Eight)
    requires words != values && words.Length == 64 && |block| == 64 && Are(values[..], s)
    requires forall t :: 0 <= t < 64 ==> words[t] == W(block, t)
    modifies values
    ensures Are(values[..], Compress(s, block))
  {
    hide W, Rounds;
    var v := RunRounds(words, Eight(values[0], values[1], values[2], values[3], values[4], values[5], values[6], values[7]), block);
    values[0] := (values[0] + v.a) % WORD;
    values[1] := (values[1] + v.b) % WORD;
    values[2] := (values[2] + v.c) % WORD;
    values[3] := (values[3] + v.d) % WORD;
    values[4] := (values[4] + v.e) % WORD;
    values[5] := (values[5] + v.f) % WORD;
    values[6] := (values[6] + v.g) % WORD;
    values[7] := (values[7] + v.h) % WORD;
  }

  // ---- Whole messages

  /** The last, partial block with its padding: one block or two. */
  method Tail(data: seq<byte>) returns (message: array<byte>)
    ensures fresh(message) && message.Length % 64 == 0 && message.Length > 0
    ensures message[..] == data[|data| / 64 * 64..] + Padding(|data|)
  {
    var fullSize := |data| / 64 * 64;
    var tailSize := |data| - fullSize;
    var messageSize := (tailSize + 9 + 63) / 64 * 64;
    message := new byte[messageSize](_ => 0);
    ghost var goal := data[fullSize..] + Padding(|data|);
    assert |goal| == messageSize;
    for i := 0 to tailSize
      invariant forall k :: 0 <= k < messageSize ==> message[k] == if k < i then data[fullSize + k] else 0
    {
      message[i] := data[fullSize + i];
    }
    message[tailSize] := 0x80;
    var bits := |data| * 8;
    for i := 0 to 8
      invariant forall k :: 0 <= k < messageSize ==>
          message[k] == if k < messageSize - i && k >= messageSize - 8 then 0 else goal[k]
    {
      message[messageSize - 1 - i] := bits / Pow2(8 * i) % 256;
    }
    assert message[..] == goal;
  }

  lemma SliceOfSlice(s: seq<byte>, a: nat, b: nat, c: nat, d: nat)
    requires a <= b <= |s| && c <= d <= b - a
    ensures s[a..b][c..d] == s[a + c..a + d]
  {
    var l, r := s[a..b][c..d], s[a + c..a + d];
    assert |l| == |r| && forall k :: 0 <= k < |l| ==> l[k] == s[a + c + k] == r[k];
  }

  lemma SameBlock(whole: seq<byte>, base: nat, bytes: seq<byte>, limit: nat, chunk: nat)
    requires base + limit <= |whole| && limit <= |bytes| && whole[base..base + limit] == bytes[..limit] && chunk + 64 <= limit
    ensures whole[base + chunk..base + chunk + 64] == bytes[chunk..chunk + 64]
  {
    SliceOfSlice(whole, base, base + limit, chunk, chunk + 64);
    SliceOfSlice(bytes, 0, limit, chunk, chunk + 64);
  }

  /** Block after block; the blocks stand somewhere in the whole message. */
  method AddBlocks(bytes: seq<byte>, limit: nat, words: array<word>, values: array<word>, ghost whole: seq<byte>, ghost base: nat)
    requires words != values && words.Length == 64 && limit <= |bytes| && limit % 64 == 0 && base % 64 == 0 && base + limit <= |whole|
    requires whole[base..base + limit] == bytes[..limit] && Are(values[..], Hashed(whole, base / 64))
    modifies words, values
    ensures Are(values[..], Hashed(whole, (base + limit) / 64))
  {
    hide W, Compress, Are;
    var chunk := 0;
    while chunk < limit
      invariant chunk % 64 == 0 && chunk <= limit && Are(values[..], Hashed(whole, (base + chunk) / 64))
    {
      Schedule(bytes, chunk, words);
      SameBlock(whole, base, bytes, limit, chunk);
      AddBlock(words, values, bytes[chunk..chunk + 64], Hashed(whole, (base + chunk) / 64));
      chunk := chunk + 64;
    }
  }

  /** The digest bytes, word by word, each from its high byte down. */
  method Output(values: array<word>, ghost s: Eight) returns (hash: seq<byte>)
    requires Are(values[..], s)
    ensures hash == DigestOf(s)
  {
    hide WordBytes, DigestOf;
    hash := [];
    for i := 0 to 8
      invariant hash == WordsOf(values[..i])
    {
      assert values[..i + 1][..i] == values[..i];
      hash := hash + WordBytes(values[i]);
    }
    assert values[..8] == values[..];
    WordsOfEight(values[..], s);
  }

  /** The start of the padded message and its end, as they are hashed. */
  lemma PaddedParts(data: seq<byte>, fullSize: nat, tail: seq<byte>)
    requires fullSize == |data| / 64 * 64 && tail == data[fullSize..] + Padding(|data|)
    ensures var whole := data + Padding(|data|);
      && fullSize + |tail| == |whole| && fullSize % 64 == 0 && whole[0..0 + fullSize] == data[..fullSize]
      && whole[fullSize..fullSize + |tail|] == tail[..|tail|]
  {
    hide Padding;
  }

  /** Whole blocks are hashed where they stand; only the padded end is copied. The digest is that of
      the whole padded message. */
  method Hash(data: seq<byte>) returns (hash: seq<byte>)
    ensures hash == Digest(data)
  {
    hide Padding, DigestOf, Compress;
    ghost var whole := data + Padding(|data|);
    var fullSize := |data| / 64 * 64;
    var message := Tail(data);
    PaddedParts(data, fullSize, message[..]);
    var words := new word[64];
    var values := new word[8][0x6a09e667, 0xbb67ae85, 0x3c6ef372, 0xa54ff53a, 0x510e527f, 0x9b05688c, 0x1f83d9ab, 0x5be0cd19];
    AddBlocks(data, fullSize, words, values, whole, 0);
    AddBlocks(message[..], message.Length, words, values, whole, fullSize);
    hash := Output(values, Hashed(whole, |whole| / 64));
  }

  function WordsOf(values: seq<word>): seq<byte> {
    if values == [] then [] else WordsOf(values[..|values| - 1]) + WordBytes(values[|values| - 1])
  }

  lemma WordsOfEight(values: seq<word>, s: Eight)
    requires Are(values, s)
    ensures WordsOf(values) == DigestOf(s)
  {
    hide WordBytes;
    assert values == [s.a, s.b, s.c, s.d, s.e, s.f, s.g, s.h];
    assert values[..8] == values && values[..7][..6] == values[..6] && values[..6][..5] == values[..5] && values[..5][..4] == values[..4];
    assert values[..4][..3] == values[..3] && values[..3][..2] == values[..2] && values[..2][..1] == values[..1] && values[..1][..0] == [];
    assert WordsOf(values[..1]) == WordBytes(s.a);
    assert WordsOf(values[..2]) == WordBytes(s.a) + WordBytes(s.b);
    assert WordsOf(values[..4]) == WordBytes(s.a) + WordBytes(s.b) + WordBytes(s.c) + WordBytes(s.d);
    assert WordsOf(values[..6]) == WordsOf(values[..4]) + WordBytes(s.e) + WordBytes(s.f);
  }
}
