/** The code signature of a Mach-O image: a directory of page digests whose size is known beforehand. */
module CodeSignature {
  import opened Bytes
  import opened Powers
  import opened Rotations
  import opened Sha256

  const PAGE := 16384

  function Slots(limit: nat): nat {
    (limit + PAGE - 1) / PAGE
  }

  /** Where the page digests start inside the code directory. */
  function HashOffset(identifier: seq<byte>): nat {
    88 + |identifier| + 1
  }

  /** The size announced before the image is laid out. */
  function SignatureSize(limit: nat, identifier: seq<byte>): nat {
    20 + (HashOffset(identifier) + Slots(limit) * 32)
  }

  /** Page i of the code; the last one may be short. */
  function Page(code: seq<byte>, i: nat): seq<byte>
    requires i < Slots(|code|)
  {
    code[i * PAGE..if (i + 1) * PAGE > |code| then |code| else (i + 1) * PAGE]
  }

  function High(v: int): word {
    v / WORD % WORD
  }

  /** The words of the superblob and of the directory's fixed fields. */
  function HeaderWords(code: seq<byte>, identifier: seq<byte>, executableLimit: int): seq<word> {
    [0xfade0cc0, SignatureSize(|code|, identifier) % WORD, 1, 0, 20,
     0xfade0c02, (SignatureSize(|code|, identifier) - 20) % WORD, 0x20400, 2, HashOffset(identifier) % WORD, 88, 0,
     Slots(|code|) % WORD, |code| % WORD, BigEndian(32, 2, 0, 14), 0, 0, 0, 0, 0, 0, 0, 0,
     High(executableLimit), executableLimit % WORD, 0, 1]
  }

  lemma {:induction false} WordAt(words: seq<word>, k: nat)
    requires k < |words|
    ensures |WordsOf(words)| == 4 * |words| && WordsOf(words)[4 * k..4 * k + 4] == WordBytes(words[k])
  {
    var front := words[..|words| - 1];
    if front != [] {
      WordAt(front, if k < |front| then k else 0);
    }
    assert WordsOf(words) == WordsOf(front) + WordBytes(words[|words| - 1]);
  }

  lemma WordReadBack(w: word)
    ensures var b := WordBytes(w); BigEndian(b[0], b[1], b[2], b[3]) == w
  {
    DivDiv(w, 0x100, 0x100);
    DivDiv(w, 0x1_0000, 0x100);
    var a, b := w / 0x100, w / 0x1_0000;
    assert w == a * 0x100 + w % 0x100 && a == b * 0x100 + a % 0x100 && b == (b / 0x100) * 0x100 + b % 0x100;
  }

  /** The big-endian word at an offset. */
  function WordAtOffset(s: seq<byte>, at: nat): word
    requires at + 4 <= |s|
  {
    BigEndian(s[at], s[at + 1], s[at + 2], s[at + 3])
  }

  /** The signature: header, identifier with its terminator, and one digest per page. */
  method Sign(code: seq<byte>, identifier: seq<byte>, executableLimit: int) returns (signature: seq<byte>)
    ensures |signature| == SignatureSize(|code|, identifier)
    ensures signature[..108] == WordsOf(HeaderWords(code, identifier, executableLimit))
    ensures signature[108..108 + |identifier|] == identifier && signature[108 + |identifier|] == 0
    ensures forall i :: 0 <= i < Slots(|code|) ==> DigestStands(signature, 20 + HashOffset(identifier) + 32 * i, Page(code, i))
    ensures |signature| < WORD && |code| < WORD ==> Verifies(signature, code, identifier, executableLimit)
  {
    hide WordsOf, Digest, WordBytes, Verifies;
    var words := HeaderWords(code, identifier, executableLimit);
    WordAt(words, 0);
    signature := WordsOf(words);
    signature := signature + identifier;
    signature := signature + [0];
    ghost var front := signature;
    for slot := 0 to Slots(|code|)
      invariant |signature| == |front| + 32 * slot && front <= signature
      invariant forall i :: 0 <= i < slot ==> DigestStands(signature, |front| + 32 * i, Page(code, i))
    {
      var hash := Hash(Page(code, slot));
      ghost var was := signature;
      signature := signature + hash;
      forall i | 0 <= i < slot
        ensures DigestStands(signature, |front| + 32 * i, Page(code, i))
      {
        assert DigestStands(was, |front| + 32 * i, Page(code, i));
        assert signature[|front| + 32 * i..|front| + 32 * i + 32] == was[|front| + 32 * i..|front| + 32 * i + 32];
      }
    }
    assert signature[..|front|] == front;
    assert front[..108] == WordsOf(words) && front[108..108 + |identifier|] == identifier;
    if |signature| < WORD && |code| < WORD {
      SignatureVerifies(signature, code, identifier, executableLimit);
    }
  }

  ghost predicate DigestStands(s: seq<byte>, at: nat, page: seq<byte>) {
    at + 32 <= |s| && s[at..at + 32] == Digest(page)
  }

  // ---- A reader that knows the format and nothing of the writer

  function Word64(s: seq<byte>, at: nat): nat
    requires at + 8 <= |s|
  {
    WordAtOffset(s, at) * WORD + WordAtOffset(s, at + 4)
  }

  /** The one blob of an embedded signature is a code directory; the offset of the directory. */
  ghost predicate HoldsDirectory(s: seq<byte>, d: nat) {
    && |s| >= 20 && WordAtOffset(s, 0) == 0xfade0cc0 && WordAtOffset(s, 4) == |s|
    && WordAtOffset(s, 8) == 1 && WordAtOffset(s, 12) == 0 && WordAtOffset(s, 16) == d
    && d + 88 <= |s| && WordAtOffset(s, d) == 0xfade0c02 && d + WordAtOffset(s, d + 4) == |s|
  }

  /** Version 2.4, signed ad hoc, no special slots, SHA-256 of 32 bytes, no scatter, no team and no second limit. */
  ghost predicate KnownForm(s: seq<byte>, d: nat)
    requires d + 88 <= |s|
  {
    && WordAtOffset(s, d + 8) == 0x20400 && WordAtOffset(s, d + 12) == 2 && WordAtOffset(s, d + 24) == 0
    && s[d + 36] == 32 && s[d + 37] == 2
    && WordAtOffset(s, d + 44) == 0 && WordAtOffset(s, d + 48) == 0 && Word64(s, d + 56) == 0
  }

  /** The identifier, ended by a zero, at the offset the directory names. */
  ghost predicate Named(s: seq<byte>, d: nat, identifier: seq<byte>)
    requires d + 88 <= |s|
  {
    var at := d + WordAtOffset(s, d + 20);
    at + |identifier| < |s| && s[at..at + |identifier|] == identifier && s[at + |identifier|] == 0
  }

  /** The executable segment starts at 0, ends at the limit and is that of a main program. */
  ghost predicate Executable(s: seq<byte>, d: nat, limit: int)
    requires d + 88 <= |s|
  {
    Word64(s, d + 64) == 0 && Word64(s, d + 72) == limit % (WORD * WORD) && Word64(s, d + 80) == 1
  }

  /** The code from an offset on, up to a size; the last part ends with the code. */
  function Cut(code: seq<byte>, from: nat, size: nat): seq<byte>
    requires from <= |code|
  {
    if from + size <= |code| then code[from..from + size] else code[from..]
  }

  /** Digest i, in a table of digests, is that of part i of the code. */
  ghost predicate PartHolds(s: seq<byte>, at: nat, width: nat, code: seq<byte>, size: nat, i: nat) {
    Product(i, size);
    Product(i, width);
    i * size < |code| && DigestStands(s, at + i * width, Cut(code, i * size, size))
  }

  ghost predicate AllHold(s: seq<byte>, at: nat, width: nat, code: seq<byte>, size: nat, count: nat) {
    forall i: nat :: i < count ==> PartHolds(s, at, width, code, size, i)
  }

  /** The digests at the named offset are those of the parts of the named size, and the parts cover the code. */
  ghost predicate PagesHold(s: seq<byte>, d: nat, code: seq<byte>)
    requires d + 88 <= |s|
  {
    var size, count, at := Pow2(s[d + 39]), WordAtOffset(s, d + 28), d + WordAtOffset(s, d + 16);
    && WordAtOffset(s, d + 32) == |code| && |code| <= count * size
    && AllHold(s, at, s[d + 36], code, size, count)
  }

  /** The signature is one of this code under this name. */
  ghost predicate Verifies(s: seq<byte>, code: seq<byte>, identifier: seq<byte>, executableLimit: int) {
    exists d: nat ::
      HoldsDirectory(s, d) && KnownForm(s, d) && Named(s, d, identifier) && Executable(s, d, executableLimit) && PagesHold(s, d, code)
  }

  lemma HeaderWordAt(signature: seq<byte>, words: seq<word>, k: nat)
    requires |words| == 27 && k < 27 && |signature| >= 108 && signature[..108] == WordsOf(words)
    ensures WordAtOffset(signature, 4 * k) == words[k]
  {
    hide WordsOf;
    WordAt(words, k);
    WordReadBack(words[k]);
    var b := WordsOf(words)[4 * k..4 * k + 4];
    assert b[0] == signature[4 * k] && b[1] == signature[4 * k + 1] && b[2] == signature[4 * k + 2] && b[3] == signature[4 * k + 3];
  }

  /** What the header says, word by word. */
  lemma HeaderRead(signature: seq<byte>, code: seq<byte>, identifier: seq<byte>, executableLimit: int)
    requires |signature| >= 108 && signature[..108] == WordsOf(HeaderWords(code, identifier, executableLimit))
    ensures forall at :: 0 <= at < 108 && at % 4 == 0 ==>
              WordAtOffset(signature, at) == HeaderWords(code, identifier, executableLimit)[at / 4]
    ensures signature[56] == 32 && signature[57] == 2 && signature[59] == 14
  {
    hide WordsOf, WordAtOffset, WordBytes;
    var words := HeaderWords(code, identifier, executableLimit);
    forall at | 0 <= at < 108 && at % 4 == 0
      ensures WordAtOffset(signature, at) == words[at / 4]
    {
      HeaderWordAt(signature, words, at / 4);
    }
    WordAt(words, 14);
    FixedBytes();
    var b := WordsOf(words)[56..60];
    assert b[0] == signature[56] && b[1] == signature[57] && b[3] == signature[59];
  }

  lemma FixedBytes()
    ensures var b := WordBytes(BigEndian(32, 2, 0, 14)); b[0] == 32 && b[1] == 2 && b[3] == 14
  {
  }

  lemma CutsAreSlots(code: seq<byte>)
    ensures Pow2(14) == PAGE && |code| <= Slots(|code|) * PAGE
    ensures forall i :: 0 <= i < Slots(|code|) ==> i * PAGE < |code| && Cut(code, i * PAGE, PAGE) == Page(code, i)
  {
  }

  /** The header names the one directory, and the directory is of the known form. */
  lemma HeaderForm(signature: seq<byte>, code: seq<byte>, identifier: seq<byte>, executableLimit: int)
    requires |signature| == SignatureSize(|code|, identifier) < WORD
    requires signature[..108] == WordsOf(HeaderWords(code, identifier, executableLimit))
    ensures HoldsDirectory(signature, 20) && KnownForm(signature, 20)
  {
    hide WordsOf, WordAtOffset;
    HeaderRead(signature, code, identifier, executableLimit);
  }

  /** The sizes and offsets of the header are those of the signature. */
  lemma HeaderOffsets(signature: seq<byte>, code: seq<byte>, identifier: seq<byte>, executableLimit: int)
    requires |signature| == SignatureSize(|code|, identifier) < WORD && |code| < WORD
    requires signature[..108] == WordsOf(HeaderWords(code, identifier, executableLimit))
    ensures WordAtOffset(signature, 36) == HashOffset(identifier) && WordAtOffset(signature, 40) == 88
    ensures WordAtOffset(signature, 48) == Slots(|code|) && WordAtOffset(signature, 52) == |code|
    ensures Executable(signature, 20, executableLimit) && signature[56] == 32 && signature[59] == 14
  {
    hide WordsOf, WordAtOffset;
    HeaderRead(signature, code, identifier, executableLimit);
    WordPair(executableLimit);
  }

  lemma WordPair(v: int)
    ensures High(v) * WORD + v % WORD == v % (WORD * WORD)
  {
    DivDiv(v, WORD, WORD);
    QuotientUnique(v, WORD * WORD, v / (WORD * WORD), High(v) * WORD + v % WORD);
  }

  /** A loader that takes every size and offset from the signature accepts it for this code. */
  lemma SignatureVerifies(signature: seq<byte>, code: seq<byte>, identifier: seq<byte>, executableLimit: int)
    requires |signature| == SignatureSize(|code|, identifier) < WORD && |code| < WORD
    requires signature[..108] == WordsOf(HeaderWords(code, identifier, executableLimit))
    requires signature[108..108 + |identifier|] == identifier && signature[108 + |identifier|] == 0
    requires forall i :: 0 <= i < Slots(|code|) ==> DigestStands(signature, 20 + HashOffset(identifier) + 32 * i, Page(code, i))
    ensures Verifies(signature, code, identifier, executableLimit)
  {
    hide WordsOf, WordAtOffset, HeaderWords, HoldsDirectory, KnownForm, Executable, DigestStands, Pow2, Slots, Page, Cut;
    HeaderForm(signature, code, identifier, executableLimit);
    HeaderOffsets(signature, code, identifier, executableLimit);
    CutsAreSlots(code);
    assert Named(signature, 20, identifier);
    assert PagesHold(signature, 20, code);
  }
}
