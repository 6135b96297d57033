/** The copy helpers emitted for each processor, run on a memory: all of them are memmove. */
module CopyBytes {
  import opened Bytes

  // ---- Overlap-safe copying, by definition

  /** The memory after the n bytes at source, as they were, are put at dest. */
  function Moved(memory: seq<byte>, source: nat, dest: nat, n: nat): (r: seq<byte>)
    requires source + n <= |memory| && dest + n <= |memory|
    ensures |r| == |memory|
  {
    Put(memory, dest, memory[source..source + n])
  }

  function Put(memory: seq<byte>, at: nat, chunk: seq<byte>): (r: seq<byte>)
    requires at + |chunk| <= |memory|
    ensures |r| == |memory|
  {
    memory[..at] + chunk + memory[at + |chunk|..]
  }

  lemma PutAt(memory: seq<byte>, at: nat, chunk: seq<byte>, k: nat)
    requires at + |chunk| <= |memory| && k < |memory|
    ensures Put(memory, at, chunk)[k] == if at <= k < at + |chunk| then chunk[k - at] else memory[k]
  {
  }

  lemma MovedAt(memory: seq<byte>, source: nat, dest: nat, n: nat, k: nat)
    requires source + n <= |memory| && dest + n <= |memory| && k < |memory|
    ensures Moved(memory, source, dest, n)[k] == if dest <= k < dest + n then memory[source + (k - dest)] else memory[k]
  {
  }

  /** A copy in progress: bytes lo to hi have arrived. */
  ghost predicate Copied(before: seq<byte>, now: seq<byte>, source: nat, dest: nat, n: nat, lo: nat, hi: nat) {
    && lo <= hi <= n && source + n <= |before| && dest + n <= |before|
    && now == Moved(before, source + lo, dest + lo, hi - lo)
  }

  lemma CopiedNone(before: seq<byte>, source: nat, dest: nat, n: nat, lo: nat)
    requires lo <= n && source + n <= |before| && dest + n <= |before|
    ensures Copied(before, before, source, dest, n, lo, lo)
  {
  }

  lemma CopiedAll(before: seq<byte>, now: seq<byte>, source: nat, dest: nat, n: nat)
    requires Copied(before, now, source, dest, n, 0, n)
    ensures now == Moved(before, source, dest, n)
  {
  }

  /** A load that misses everything written so far sees the old bytes. */
  lemma LoadsOld(before: seq<byte>, now: seq<byte>, source: nat, dest: nat, n: nat, lo: nat, hi: nat, at: nat, width: nat)
    requires Copied(before, now, source, dest, n, lo, hi) && at + width <= |before|
    requires at + width <= dest + lo || dest + hi <= at || lo == hi
    ensures now[at..at + width] == before[at..at + width]
  {
  }

  /** Storing old bytes next to, or over, those that have arrived. */
  lemma StoresNext(before: seq<byte>, now: seq<byte>, source: nat, dest: nat, n: nat, lo: nat, hi: nat, at: nat, width: nat)
    requires Copied(before, now, source, dest, n, lo, hi) && at + width <= n && (at <= hi && lo <= at + width)
    ensures Copied(before, Put(now, dest + at, before[source + at..source + at + width]), source, dest, n,
                   if at < lo then at else lo, if hi < at + width then at + width else hi)
  {
    hide Put, Moved;
    var lo', hi' := if at < lo then at else lo, if hi < at + width then at + width else hi;
    var next := Put(now, dest + at, before[source + at..source + at + width]);
    var goal := Moved(before, source + lo', dest + lo', hi' - lo');
    forall k | 0 <= k < |before|
      ensures next[k] == goal[k]
    {
      PutAt(now, dest + at, before[source + at..source + at + width], k);
      MovedAt(before, source + lo, dest + lo, hi - lo, k);
      MovedAt(before, source + lo', dest + lo', hi' - lo', k);
    }
  }

  lemma CopiedSize(before: seq<byte>, now: seq<byte>, source: nat, dest: nat, n: nat, lo: nat, hi: nat)
    requires Copied(before, now, source, dest, n, lo, hi)
    ensures |before| == |now|
  {
  }

  lemma TakeOne(count: nat, width: nat)
    requires count > 0
    ensures count * width >= width
  {
  }

  lemma StoresCommute(memory: seq<byte>, a: nat, x: seq<byte>, b: nat, y: seq<byte>)
    requires a + |x| <= b && b + |y| <= |memory|
    ensures Put(Put(memory, a, x), b, y) == Put(Put(memory, b, y), a, x)
  {
    var l, r := Put(Put(memory, a, x), b, y), Put(Put(memory, b, y), a, x);
    forall k | 0 <= k < |memory|
      ensures l[k] == r[k]
    {
      PutAt(memory, a, x, k);
      PutAt(memory, b, y, k);
      PutAt(Put(memory, a, x), b, y, k);
      PutAt(Put(memory, b, y), a, x, k);
    }
  }

  // ---- The processors

  class Processor {
    const memory: array<byte>

    method Load(at: nat, width: nat) returns (chunk: seq<byte>)
      requires at + width <= memory.Length
      ensures chunk == memory[..][at..at + width] && |chunk| == width
    {
      chunk := memory[at..at + width];
    }

    method Store(at: nat, chunk: seq<byte>)
      requires at + |chunk| <= memory.Length
      modifies memory
      ensures memory[..] == Put(old(memory[..]), at, chunk)
    {
      forall k | 0 <= k < |chunk| {
        memory[at + k] := chunk[k];
      }
    }

    /** Moves count chunks, each loaded in full before it is stored, from the top of the range down;
        the registers name the chunk to move next. */
    method MoveDown(from: int, to: int, count: nat, width: nat, ghost before: seq<byte>, ghost source: nat, ghost dest: nat, ghost n: nat,
                    ghost left: nat)
      returns (from': int, to': int)
      requires source < dest && source + n <= memory.Length && dest + n <= memory.Length && left <= n
      requires from == source + left - width && to == dest + left - width && count * width <= left && width > 0
      requires Copied(before, memory[..], source, dest, n, left, n)
      modifies memory
      ensures from' == from - count * width && to' == to - count * width
      ensures Copied(before, memory[..], source, dest, n, left - count * width, n)
    {
      hide Moved, Copied, Put;
      from', to' := from, to;
      var i := 0;
      CopiedSize(before, memory[..], source, dest, n, left, n);
      while i < count
        invariant i <= count && from' == from - i * width && to' == to - i * width && (count - i) * width == count * width - i * width
        invariant i * width <= count * width && Copied(before, memory[..], source, dest, n, left - i * width, n)
      {
        ghost var at := left - i * width;
        TakeOne(count - i, width);
        assert (i + 1) * width == i * width + width && (count - (i + 1)) * width == (count - i) * width - width;
        LoadsOld(before, memory[..], source, dest, n, at, n, from', width);
        StoresNext(before, memory[..], source, dest, n, at, n, at - width, width);
        var chunk := Load(from', width);
        Store(to', chunk);
        from', to', i := from' - width, to' - width, i + 1;
      }
    }

    /** Moves count chunks from the bottom of the range up. */
    method MoveUp(from: int, to: int, count: nat, width: nat, ghost before: seq<byte>, ghost source: nat, ghost dest: nat, ghost n: nat,
                  ghost done: nat)
      returns (from': int, to': int)
      requires (dest <= source || source + n <= dest) && source + n <= memory.Length && dest + n <= memory.Length
      requires from == source + done && to == dest + done && done + count * width <= n && width > 0
      requires Copied(before, memory[..], source, dest, n, 0, done)
      modifies memory
      ensures from' == from + count * width && to' == to + count * width
      ensures Copied(before, memory[..], source, dest, n, 0, done + count * width)
    {
      hide Moved, Copied, Put;
      from', to' := from, to;
      var i := 0;
      CopiedSize(before, memory[..], source, dest, n, 0, done);
      while i < count
        invariant i <= count && from' == from + i * width && to' == to + i * width && (count - i) * width == count * width - i * width
        invariant i * width <= count * width && Copied(before, memory[..], source, dest, n, 0, done + i * width)
      {
        ghost var at := done + i * width;
        TakeOne(count - i, width);
        assert (i + 1) * width == i * width + width && (count - (i + 1)) * width == (count - i) * width - width;
        LoadsOld(before, memory[..], source, dest, n, 0, at, from', width);
        StoresNext(before, memory[..], source, dest, n, 0, at, at, width);
        var chunk := Load(from', width);
        Store(to', chunk);
        from', to', i := from' + width, to' + width, i + 1;
      }
    }

    /** Loads a chunk at each end before storing either: enough for any length up to both together. */
    method MoveEnds(source: nat, dest: nat, n: nat, width: nat)
      requires source + n <= memory.Length && dest + n <= memory.Length && width <= n <= 2 * width
      modifies memory
      ensures memory[..] == Moved(old(memory[..]), source, dest, n)
    {
      hide Moved, Copied, Put;
      ghost var before := memory[..];
      CopiedNone(before, source, dest, n, 0);
      var low := Load(source, width);
      var high := Load(source + n - width, width);
      StoresNext(before, memory[..], source, dest, n, 0, 0, 0, width);
      Store(dest, low);
      StoresNext(before, memory[..], source, dest, n, 0, width, n - width, width);
      Store(dest + n - width, high);
      CopiedAll(before, memory[..], source, dest, n);
    }

    /** The AArch64 loops: eight bytes at a time, then one, in the direction that is safe. */
    method CopyAarch64(source: nat, dest: nat, n: nat)
      requires source + n <= memory.Length && dest + n <= memory.Length
      modifies memory
      ensures memory[..] == Moved(old(memory[..]), source, dest, n)
    {
      hide Moved, Copied, Put;
      ghost var before := memory[..];
      var words, tail := n / 8, n % 8;
      var from, to := source, dest;
      if dest <= source {
        CopiedNone(before, source, dest, n, 0);
        from, to := MoveUp(from, to, words, 8, before, source, dest, n, 0);
        from, to := MoveUp(from, to, tail, 1, before, source, dest, n, words * 8);
      } else {
        CopiedNone(before, source, dest, n, n);
        from, to := from + n, to + n;
        from, to := MoveDown(from - 8, to - 8, words, 8, before, source, dest, n, n);
        from, to := MoveDown(from + 7, to + 7, tail, 1, before, source, dest, n, tail);
      }
      CopiedAll(before, memory[..], source, dest, n);
    }

    /** The AMD64 helper: both ends of a short range at once, by size; a long one with string moves,
        downwards only when the destination starts inside the source. */
    method CopyAmd64(source: nat, dest: nat, n: nat)
      requires source + n <= memory.Length && dest + n <= memory.Length
      modifies memory
      ensures memory[..] == Moved(old(memory[..]), source, dest, n)
    {
      if n > 16 {
        CopyLarge(source, dest, n);
      } else if n >= 8 {
        MoveEnds(source, dest, n, 8);
      } else if n >= 4 {
        MoveEnds(source, dest, n, 4);
      } else if n >= 2 {
        MoveEnds(source, dest, n, 2);
      } else if n != 0 {
        var b := Load(source, 1);
        Store(dest, b);
      }
    }

    method CopyLarge(source: nat, dest: nat, n: nat)
      requires source + n <= memory.Length && dest + n <= memory.Length && n > 16
      modifies memory
      ensures memory[..] == Moved(old(memory[..]), source, dest, n)
    {
      hide Moved, Copied, Put;
      if n <= 32 {
        MoveEnds(source, dest, n, 16);
        return;
      }
      ghost var before := memory[..];
      if dest <= source || source + n <= dest {
        CopiedNone(before, source, dest, n, 0);
        var from, to := MoveUp(source, dest, n, 1, before, source, dest, n, 0);
      } else {
        CopiedNone(before, source, dest, n, n);
        var from, to := MoveDown(source + n - 8, dest + n - 8, n / 8, 8, before, source, dest, n, n);
        from, to := MoveDown(from + 7, to + 7, n % 8, 1, before, source, dest, n, n % 8);
      }
      CopiedAll(before, memory[..], source, dest, n);
    }

    /** The 386 helper: string moves of single bytes, downwards only into the source range. */
    method Copy386(source: nat, dest: nat, n: nat)
      requires source + n <= memory.Length && dest + n <= memory.Length
      modifies memory
      ensures memory[..] == Moved(old(memory[..]), source, dest, n)
    {
      hide Moved, Copied, Put;
      ghost var before := memory[..];
      if dest <= source || dest - source >= n {
        CopiedNone(before, source, dest, n, 0);
        var from, to := MoveUp(source, dest, n, 1, before, source, dest, n, 0);
      } else {
        CopiedNone(before, source, dest, n, n);
        var from, to := MoveDown(source + n - 1, dest + n - 1, n, 1, before, source, dest, n, n);
      }
      CopiedAll(before, memory[..], source, dest, n);
    }

    /** The 386 copy of a four- or six-word value: every word is loaded, the last two onto the
        stack, before any is stored. */
    method CopySmall386(source: nat, dest: nat, n: nat)
      requires (n == 16 || n == 24) && source + n <= memory.Length && dest + n <= memory.Length
      modifies memory
      ensures memory[..] == Moved(old(memory[..]), source, dest, n)
    {
      hide Moved, Copied, Put;
      ghost var before := memory[..];
      var pushed4, pushed5 := [], [];
      if n == 24 {
        pushed4 := Load(source + 16, 4);
        pushed5 := Load(source + 20, 4);
      }
      StoreFour(source, dest, n, before);
      if n == 24 {
        ghost var four := memory[..];
        StoresNext(before, four, source, dest, n, 0, 16, 16, 4);
        StoresNext(before, Put(four, dest + 16, pushed4), source, dest, n, 0, 20, 20, 4);
        StoresCommute(four, dest + 16, pushed4, dest + 20, pushed5);
        Store(dest + 20, pushed5);
        Store(dest + 16, pushed4);
      }
      CopiedAll(before, memory[..], source, dest, n);
    }

    /** The four words that travel in registers. */
    method StoreFour(source: nat, dest: nat, n: nat, ghost before: seq<byte>)
      requires 16 <= n && source + n <= memory.Length && dest + n <= memory.Length && before == memory[..]
      modifies memory
      ensures Copied(before, memory[..], source, dest, n, 0, 16)
    {
      hide Moved, Copied, Put;
      var eax := Load(source, 4);
      var ebx := Load(source + 4, 4);
      var ecx := Load(source + 8, 4);
      var edx := Load(source + 12, 4);
      CopiedNone(before, source, dest, n, 0);
      StoresNext(before, memory[..], source, dest, n, 0, 0, 0, 4);
      Store(dest, eax);
      StoresNext(before, memory[..], source, dest, n, 0, 4, 4, 4);
      Store(dest + 4, ebx);
      StoresNext(before, memory[..], source, dest, n, 0, 8, 8, 4);
      Store(dest + 8, ecx);
      StoresNext(before, memory[..], source, dest, n, 0, 12, 12, 4);
      Store(dest + 12, edx);
    }
  }
}
