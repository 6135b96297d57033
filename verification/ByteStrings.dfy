/** Static data as JVM string constants: chunks of bytes in modified UTF-8, decoded and copied back
    when the class is initialised. */
module ByteStrings {
  import opened Bytes
  import opened Wrappers

  // ---- Modified UTF-8, section 4.4.7 of the JVM Specification

  function EncodeByte(ch: byte): seq<byte> {
    if ch == 0 then [0xc0, 0x80] else if ch < 0x80 then [ch] else [0xc0 + ch / 64, 0x80 + ch % 64]
  }

  function Encode(value: seq<byte>): (e: seq<byte>)
    ensures |value| <= |e| <= 2 * |value|
  {
    if value == [] then [] else Encode(value[..|value| - 1]) + EncodeByte(value[|value| - 1])
  }

  function TwoBytes(a: int, b: int): int {
    a % 32 * 64 + b % 64
  }

  function ThreeBytes(a: int, b: int, c: int): int {
    a % 16 * 4096 + b % 64 * 64 + c % 64
  }

  /** The characters of a constant: one, two or three bytes each; None for malformed bytes. */
  function Decode(e: seq<byte>): Option<seq<int>> {
    if e == [] then Some([])
    else if 0 < e[0] < 0x80 then Prepend(e[0], Decode(e[1..]))
    else if 0xc0 <= e[0] < 0xe0 && |e| >= 2 && 0x80 <= e[1] < 0xc0 then Prepend(TwoBytes(e[0], e[1]), Decode(e[2..]))
    else if 0xe0 <= e[0] < 0xf0 && |e| >= 3 && 0x80 <= e[1] < 0xc0 && 0x80 <= e[2] < 0xc0 then
      Prepend(ThreeBytes(e[0], e[1], e[2]), Decode(e[3..]))
    else None
  }

  function Prepend(ch: int, rest: Option<seq<int>>): Option<seq<int>> {
    match rest
    case None => None
    case Some(s) => Some([ch] + s)
  }

  /** Decoding an encoded byte in front of anything. */
  lemma DecodeByte(ch: byte, rest: seq<byte>)
    ensures Decode(EncodeByte(ch) + rest) == Prepend(ch, Decode(rest))
  {
    var e := EncodeByte(ch) + rest;
    if ch == 0 || ch >= 0x80 {
      assert e[2..] == rest;
    } else {
      assert e[1..] == rest;
    }
  }

  lemma EncodeBack(value: seq<byte>)
    requires value != []
    ensures Encode(value) == Encode(value[..|value| - 1]) + EncodeByte(value[|value| - 1])
  {
  }

  lemma {:induction false} EncodeFront(value: seq<byte>)
    requires value != []
    ensures Encode(value) == EncodeByte(value[0]) + Encode(value[1..])
  {
    hide EncodeByte, Encode;
    var n := |value| - 1;
    EncodeBack(value);
    if n == 0 {
      EncodeNone();
      assert value[..0] == [] && value[1..] == [];
    } else {
      var middle := value[1..][..n - 1];
      EncodeFront(value[..n]);
      assert value[..n][1..] == middle && value[1..][n - 1] == value[n];
      EncodeBack(value[1..]);
      Associate(EncodeByte(value[0]), Encode(middle), EncodeByte(value[n]));
    }
  }

  lemma EncodeNone()
    ensures Encode([]) == []
  {
  }

  lemma Associate(a: seq<byte>, b: seq<byte>, c: seq<byte>)
    ensures a + b + c == a + (b + c)
  {
  }

  /** Every byte string comes back, byte for byte, as characters. */
  lemma {:induction false} RoundTrip(value: seq<byte>)
    ensures Decode(Encode(value)) == Some(value)
  {
    if value != [] {
      EncodeFront(value);
      DecodeByte(value[0], Encode(value[1..]));
      RoundTrip(value[1..]);
      assert [value[0]] + value[1..] == value;
    }
  }

  // ---- The constant pool

  function Be16(v: int): seq<byte> {
    [v / 256 % 256, v % 256]
  }

  function GetBe16(hi: int, lo: int): int {
    hi * 256 + lo
  }

  lemma Be16Back(v: int)
    requires 0 <= v < 0x1_0000
    ensures |Be16(v)| == 2 && GetBe16(Be16(v)[0], Be16(v)[1]) == v
  {
    assert v == v / 256 * 256 + v % 256;
  }

  const STRING_KEY: byte := 66
  const UTF8_KEY: byte := 98

  /** A byte string's text entry and string entry. */
  function TextEntry(raw: seq<byte>): seq<byte> {
    [1] + Be16(|Encode(raw)|) + Encode(raw)
  }

  /** Every text entry holds the encoding of its key, within a two-byte length, and every string
      entry refers to the text entry of the same bytes. */
  ghost predicate Sound(keys: seq<seq<byte>>, entries: seq<seq<byte>>) {
    && |keys| == |entries| < 0x1_0000
    && (forall i :: 0 <= i < |keys| && keys[i] != [] && keys[i][0] == UTF8_KEY ==> IsText(entries[i], keys[i][1..]))
    && (forall i :: 0 <= i < |keys| && keys[i] != [] && keys[i][0] == STRING_KEY ==> RefersTo(keys, entries[i], keys[i][1..]))
  }

  ghost predicate IsText(entry: seq<byte>, raw: seq<byte>) {
    entry == TextEntry(raw) && |Encode(raw)| < 0x1_0000
  }

  ghost predicate RefersTo(keys: seq<seq<byte>>, entry: seq<byte>, raw: seq<byte>) {
    exists u :: 1 <= u <= |keys| && entry == [8] + Be16(u) && keys[u - 1] == [UTF8_KEY] + raw
  }

  /** The string constant at an index has the given text, as the virtual machine reads it. */
  ghost predicate Reads(entries: seq<seq<byte>>, index: nat, text: seq<int>) {
    && 1 <= index <= |entries| && |entries[index - 1]| == 3 && entries[index - 1][0] == 8
    && var u := GetBe16(entries[index - 1][1], entries[index - 1][2]);
    && 1 <= u <= |entries| && TextIs(entries[u - 1], text)
  }

  ghost predicate TextIs(e: seq<byte>, text: seq<int>) {
    |e| >= 3 && e[0] == 1 && GetBe16(e[1], e[2]) == |e| - 3 && Decode(e[3..]) == Some(text)
  }

  lemma TextReadsBack(e: seq<byte>, raw: seq<byte>)
    requires IsText(e, raw)
    ensures TextIs(e, raw)
  {
    hide Decode, Encode, Be16, GetBe16;
    RoundTrip(raw);
    Be16Back(|Encode(raw)|);
    assert e[3..] == Encode(raw);
  }

  lemma StringReadsBack(keys: seq<seq<byte>>, entries: seq<seq<byte>>, index: nat, value: seq<byte>)
    requires Sound(keys, entries) && 1 <= index <= |keys| && keys[index - 1] == [STRING_KEY] + value
    ensures Reads(entries, index, value)
  {
    hide IsText, TextIs, Be16, GetBe16;
    assert keys[index - 1][1..] == value;
    assert RefersTo(keys, entries[index - 1], value);
    var u :| 1 <= u <= |keys| && entries[index - 1] == [8] + Be16(u) && keys[u - 1] == [UTF8_KEY] + value;
    Be16Back(u);
    assert keys[u - 1][1..] == value;
    TextReadsBack(entries[u - 1], value);
  }

  lemma Extended(keys: seq<seq<byte>>, entries: seq<seq<byte>>, key: seq<byte>, entry: seq<byte>)
    requires Sound(keys, entries) && |keys| + 1 < 0x1_0000
    requires key != [] && (key[0] == UTF8_KEY ==> IsText(entry, key[1..])) && (key[0] == STRING_KEY ==> RefersTo(keys, entry, key[1..]))
    ensures Sound(keys + [key], entries + [entry])
  {
    hide IsText;
    var more := keys + [key];
    forall i | 0 <= i < |more| && more[i] != [] && more[i][0] == STRING_KEY
      ensures RefersTo(more, (entries + [entry])[i], more[i][1..])
    {
      assert RefersTo(keys, (entries + [entry])[i], more[i][1..]);
      var u :| 1 <= u <= |keys| && (entries + [entry])[i] == [8] + Be16(u) && keys[u - 1] == [UTF8_KEY] + more[i][1..];
      assert more[u - 1] == keys[u - 1];
    }
  }

  /** Constants stay where they are while the pool grows. */
  lemma ReadsStays(entries: seq<seq<byte>>, more: seq<seq<byte>>, index: nat, text: seq<int>)
    requires Reads(entries, index, text) && entries <= more
    ensures Reads(more, index, text)
  {
    hide TextIs;
  }

  class Pool {
    var keys: seq<seq<byte>>
    var entries: seq<seq<byte>>

    ghost predicate Valid()
      reads this
    {
      Sound(keys, entries)
    }

    method Find(key: seq<byte>) returns (found: nat)
      ensures found <= |keys| && (found != 0 ==> keys[found - 1] == key) && (found == 0 ==> key !in keys)
    {
      for i := 0 to |keys|
        invariant key !in keys[..i]
      {
        if keys[i] == key {
          return i + 1;
        }
      }
      found := 0;
    }

    method EncodeBytes(value: seq<byte>) returns (encoded: seq<byte>)
      ensures encoded == Encode(value)
    {
      encoded := [];
      for i := 0 to |value|
        invariant encoded == Encode(value[..i])
      {
        assert value[..i + 1][..i] == value[..i];
        var ch := value[i];
        if ch == 0 {
          encoded := encoded + [0xc0, 0x80];
        } else if ch < 0x80 {
          encoded := encoded + [ch];
        } else {
          encoded := encoded + [0xc0 + ch / 64, 0x80 + ch % 64];
        }
      }
      assert value[..|value|] == value;
    }

    /** Adds an entry under a key that is not there yet. */
    method Add(key: seq<byte>, entry: seq<byte>) returns (index: nat)
      requires Valid() && |keys| + 1 < 0x1_0000 && key !in keys
      requires key != [] && (key[0] == UTF8_KEY ==> IsText(entry, key[1..])) && (key[0] == STRING_KEY ==> RefersTo(keys, entry, key[1..]))
      modifies this
      ensures Valid() && keys == old(keys) + [key] && entries == old(entries) + [entry] && index == |keys|
    {
      hide Sound, IsText, RefersTo;
      Extended(keys, entries, key, entry);
      index := Find(key);
      if index == 0 {
        keys := keys + [key];
        entries := entries + [entry];
        index := |keys|;
      }
    }

    /** The constant of a byte string that fits: its text is the bytes. */
    method ByteString(value: seq<byte>) returns (index: nat)
      requires Valid() && |Encode(value)| < 0x1_0000 && |keys| + 2 < 0x1_0000
      modifies this
      ensures Valid() && old(keys) <= keys && old(entries) <= entries && |keys| <= |old(keys)| + 2
      ensures Reads(entries, index, value)
    {
      hide Sound, IsText, Reads, Encode, TextEntry;
      index := Find([STRING_KEY] + value);
      if index == 0 {
        var utf := Text(value);
        assert RefersTo(keys, [8] + Be16(utf), value);
        assert ([STRING_KEY] + value)[1..] == value;
        index := Add([STRING_KEY] + value, [8] + Be16(utf));
      }
      StringReadsBack(keys, entries, index, value);
    }

    method Text(value: seq<byte>) returns (utf: nat)
      requires Valid() && |Encode(value)| < 0x1_0000 && |keys| + 2 < 0x1_0000 && [STRING_KEY] + value !in keys
      modifies this
      ensures Valid() && old(keys) <= keys && old(entries) <= entries && |keys| <= |old(keys)| + 1
      ensures 1 <= utf <= |keys| && keys[utf - 1] == [UTF8_KEY] + value && [STRING_KEY] + value !in keys
    {
      hide Sound, Encode;
      utf := Find([UTF8_KEY] + value);
      if utf == 0 {
        var encoded := EncodeBytes(value);
        assert ([UTF8_KEY] + value)[1..] == value;
        utf := Add([UTF8_KEY] + value, [1] + Be16(|encoded|) + encoded);
        assert [STRING_KEY] + value != [UTF8_KEY] + value by {
          assert ([STRING_KEY] + value)[0] != ([UTF8_KEY] + value)[0];
        }
      }
    }
  }

  // ---- The class initialiser

  const CHUNK := 24000

  /** One step of the initialiser: copy the text of a constant into the array from an offset on. */
  datatype Copy = Copy(index: nat, start: nat)

  /** Chunks of the encoding never exceed the two-byte length of a text entry. */
  lemma ChunkFits(value: seq<byte>)
    requires |value| <= CHUNK
    ensures |Encode(value)| < 0x1_0000
  {
  }

  function Chunks(n: nat): nat {
    (n + CHUNK - 1) / CHUNK
  }

  /** The bytes of chunk i. */
  function Chunk(data: seq<byte>, i: nat): seq<byte>
    requires i < Chunks(|data|)
  {
    data[i * CHUNK..if i * CHUNK + CHUNK > |data| then |data| else i * CHUNK + CHUNK]
  }

  /** Step i copies chunk i to where it came from. */
  ghost predicate Copies(entries: seq<seq<byte>>, data: seq<byte>, steps: seq<Copy>, i: nat)
    requires i < |steps| <= Chunks(|data|)
  {
    steps[i].start == i * CHUNK && Reads(entries, steps[i].index, Chunk(data, i))
  }

  /** Adds the constants of all chunks and emits one copy for each. */
  method EmitDecodedBytes(pool: Pool, data: seq<byte>) returns (length: nat, steps: seq<Copy>)
    requires pool.Valid() && |pool.keys| + 2 * Chunks(|data|) < 0x1_0000
    modifies pool
    ensures pool.Valid() && length == |data| && |steps| == Chunks(|data|) && forall i :: 0 <= i < |steps| ==> Copies(pool.entries, data, steps, i)
  {
    hide Reads, Encode, Sound;
    length, steps := |data|, [];
    ghost var room := |pool.keys|;
    for i := 0 to Chunks(|data|)
      invariant pool.Valid() && |pool.keys| <= room + 2 * i && |steps| == i
      invariant forall k :: 0 <= k < i ==> Copies(pool.entries, data, steps, k)
    {
      var start := i * CHUNK;
      var end := start + CHUNK;
      if end > |data| {
        end := |data|;
      }
      ghost var before, emitted := pool.entries, steps;
      ChunkFits(data[start..end]);
      var index := pool.ByteString(data[start..end]);
      steps := steps + [Copy(index, start)];
      forall k | 0 <= k < i
        ensures Copies(pool.entries, data, steps, k)
      {
        assert Copies(before, data, emitted, k);
        ReadsStays(before, pool.entries, steps[k].index, Chunk(data, k));
      }
    }
  }

  /** The emitted copying loop: each character is narrowed to a byte. */
  method CopyChars(target: array<byte>, text: seq<int>, start: nat)
    requires start + |text| <= target.Length
    modifies target
    ensures forall k :: 0 <= k < target.Length ==> target[k] == if start <= k < start + |text| then text[k - start] % 256 else old(target[k])
  {
    var i := 0;
    while i < |text|
      invariant i <= |text|
      invariant forall k :: 0 <= k < target.Length ==> target[k] == if start <= k < start + i then text[k - start] % 256 else old(target[k])
    {
      target[start + i] := text[i] % 256;
      i := i + 1;
    }
  }

  /** The text of a constant. */
  function TextOf(entries: seq<seq<byte>>, index: nat): seq<int> {
    if 1 <= index <= |entries| && |entries[index - 1]| == 3 then
      var u := GetBe16(entries[index - 1][1], entries[index - 1][2]);
      if 1 <= u <= |entries| && |entries[u - 1]| >= 3 then
        match Decode(entries[u - 1][3..])
        case Some(text) => text
        case None => []
      else []
    else []
  }

  lemma ReadsIsText(entries: seq<seq<byte>>, index: nat, text: seq<int>)
    requires Reads(entries, index, text)
    ensures TextOf(entries, index) == text
  {
    hide Decode;
  }

  /** Running the initialiser rebuilds the data. */
  method Initialise(entries: seq<seq<byte>>, length: nat, steps: seq<Copy>, ghost data: seq<byte>) returns (target: array<byte>)
    requires length == |data| && |steps| == Chunks(|data|) && forall i :: 0 <= i < |steps| ==> Copies(entries, data, steps, i)
    ensures fresh(target) && target[..] == data
  {
    hide Reads, TextOf;
    target := new byte[length](_ => 0);
    for i := 0 to |steps|
      invariant forall k :: 0 <= k < target.Length && k < i * CHUNK ==> target[k] == data[k]
    {
      assert Copies(entries, data, steps, i);
      ReadsIsText(entries, steps[i].index, Chunk(data, i));
      CopyChars(target, TextOf(entries, steps[i].index), steps[i].start);
    }
    assert target[..] == data;
  }
}
