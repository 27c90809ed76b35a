/** src/kernel/fast_mem.c on a flat memory whose indices are addresses. A word is stored
    with its low byte first. */
module FastMem {
  import opened Bytes
  import opened FsFormat

  // ----- the byte loops -----

  /** A forward byte loop: later reads see earlier writes. */
  function ByteCopy(mem: seq<byte>, d: nat, s: nat, n: nat): (r: seq<byte>)
    requires d + n <= |mem| && s + n <= |mem|
    ensures |r| == |mem|
    decreases n
  {
    if n == 0 then mem else ByteCopy(mem, d, s, n - 1)[d + n - 1 := ByteCopy(mem, d, s, n - 1)[s + n - 1]]
  }

  function ByteFill(mem: seq<byte>, d: nat, v: byte, n: nat): (r: seq<byte>)
    requires d + n <= |mem|
    ensures |r| == |mem|
    decreases n
  {
    if n == 0 then mem else ByteFill(mem, d, v, n - 1)[d + n - 1 := v]
  }

  lemma {:induction false} CopyInTwo(mem: seq<byte>, d: nat, s: nat, m: nat, n: nat)
    requires d + m + n <= |mem| && s + m + n <= |mem|
    ensures ByteCopy(mem, d, s, m + n) == ByteCopy(ByteCopy(mem, d, s, m), d + m, s + m, n)
    decreases n
  {
    if n > 0 {
      CopyInTwo(mem, d, s, m, n - 1);
    }
  }

  lemma {:induction false} FillInTwo(mem: seq<byte>, d: nat, v: byte, m: nat, n: nat)
    requires d + m + n <= |mem|
    ensures ByteFill(mem, d, v, m + n) == ByteFill(ByteFill(mem, d, v, m), d + m, v, n)
    decreases n
  {
    if n > 0 {
      FillInTwo(mem, d, v, m, n - 1);
    }
  }

  /** What the loop computes: behind a destination that overlaps the source from above, the
      first d - s bytes repeat. */
  lemma CopyUnfolds(mem: seq<byte>, d: nat, s: nat, n: nat)
    requires d + n <= |mem| && s + n <= |mem|
    ensures ByteCopy(mem, d, s, 0) == mem
    ensures n > 0 ==>
              var before := ByteCopy(mem, d, s, n - 1);
              ByteCopy(mem, d, s, n) == before[d + n - 1 := before[s + n - 1]]
  {
  }

  lemma {:induction false} CopyAt(mem: seq<byte>, d: nat, s: nat, n: nat, i: nat)
    requires d + n <= |mem| && s + n <= |mem| && i < |mem|
    ensures ByteCopy(mem, d, s, n)[i] == if !(d <= i < d + n) then mem[i]
                                         else if s < d then mem[s + (i - d) % (d - s)] else mem[s + (i - d)]
    decreases n
  {
    hide ByteCopy;
    CopyUnfolds(mem, d, s, n);
    if n > 0 {
      if i != d + n - 1 {
        CopyAt(mem, d, s, n - 1, i);
      } else {
        CopyAt(mem, d, s, n - 1, s + n - 1);
        if s < d {
          Periodic(n - 1, d - s);
          if s + n - 1 >= d {
            assert s + n - 1 - d == n - 1 - (d - s);
          }
        }
      }
    }
  }

  lemma Periodic(k: nat, p: nat)
    requires p > 0
    ensures if k < p then k % p == k else (k - p) % p == k % p
  {
    if k >= p {
      assert k == p * (k / p) + k % p;
      if k / p == 0 {
        assert false;
      }
      assert p * (k / p - 1) == p * (k / p) - p;
      ModUnique(k - p, p, k / p - 1, k % p);
    }
  }

  /** When the source is not overwritten before it is read, the loop moves it. */
  lemma CopyMoves(mem: seq<byte>, d: nat, s: nat, n: nat)
    requires d + n <= |mem| && s + n <= |mem| && (d <= s || s + n <= d)
    ensures ByteCopy(mem, d, s, n) == Splice(mem, d, mem[s..s + n])
  {
    hide ByteCopy;
    forall i | 0 <= i < |mem| ensures ByteCopy(mem, d, s, n)[i] == Splice(mem, d, mem[s..s + n])[i] {
      CopyAt(mem, d, s, n, i);
      if s < d && d <= i < d + n {
        Periodic(i - d, d - s);
      }
    }
  }

  lemma {:induction false} FillFills(mem: seq<byte>, d: nat, v: byte, n: nat)
    requires d + n <= |mem|
    ensures ByteFill(mem, d, v, n) == Splice(mem, d, Repeat(v, n))
    decreases n
  {
    if n > 0 {
      FillFills(mem, d, v, n - 1);
    }
  }

  // ----- words -----

  lemma WordBytes(b: seq<byte>)
    requires |b| == 4
    ensures LE32(FromLE32(b)) == b
  {
    var lo: int := b[0] as int + 0x100 * (b[1] as int);
    var hi: int := b[2] as int + 0x100 * (b[3] as int);
    var v: int := FromLE32(b);
    assert v == lo + 0x1_0000 * hi;
    assert v % 0x100 == b[0] && v / 0x100 % 0x100 == b[1];
    assert v / 0x1_0000 == hi;
  }

  /** Four bytes at once equal four bytes in turn: two addresses with the same alignment
      are equal or at least a word apart. */
  lemma WordCopy(mem: seq<byte>, d: nat, s: nat)
    requires d + 4 <= |mem| && s + 4 <= |mem| && d % 4 == s % 4
    ensures Splice(mem, d, mem[s..s + 4]) == ByteCopy(mem, d, s, 4)
  {
    if d > s {
      assert d - s >= 4;
    }
    CopyMoves(mem, d, s, 4);
  }

  method Load32(mem: array<byte>, a: nat) returns (w: u32)
    requires a + 4 <= mem.Length
    ensures w == FromLE32(mem[a..a + 4])
  {
    w := FromLE32(mem[a..a + 4]);
  }

  method Store32(mem: array<byte>, a: nat, w: u32)
    requires a + 4 <= mem.Length
    modifies mem
    ensures mem[..] == Splice(old(mem[..]), a, LE32(w))
  {
    hide LE32;
    var b := LE32(w);
    mem[a] := b[0];
    mem[a + 1] := b[1];
    mem[a + 2] := b[2];
    mem[a + 3] := b[3];
  }

  // ----- the code -----

  /** For every source, destination and size the memory ends as the byte loop leaves it. */
  method Copy(mem: array<byte>, destination: nat, source: nat, length: nat)
    requires destination + length <= mem.Length && source + length <= mem.Length
    modifies mem
    ensures mem[..] == ByteCopy(old(mem[..]), destination, source, length)
  {
    hide Progress, ByteCopy;
    ghost var m := mem[..];
    var d: nat, s: nat, size: nat := destination, source, length;
    Begin(m, d, s, size);
    if s % 4 == d % 4 {
      while d % 4 != 0 && size > 0
        invariant Progress(mem[..], m, destination, source, length, d, s, size) && d % 4 == s % 4
        decreases size
      {
        CopyByte(mem, d, s, m, destination, source, length, size);
        SameResidue(d, s, 1);
        d, s, size := d + 1, s + 1, size - 1;
      }
      while size >= 4
        invariant Progress(mem[..], m, destination, source, length, d, s, size) && d % 4 == s % 4
        decreases size
      {
        CopyWord(mem, d, s, m, destination, source, length, size);
        SameResidue(d, s, 4);
        d, s, size := d + 4, s + 4, size - 4;
      }
    }
    while size > 0
      invariant Progress(mem[..], m, destination, source, length, d, s, size)
      decreases size
    {
      CopyByte(mem, d, s, m, destination, source, length, size);
      d, s, size := d + 1, s + 1, size - 1;
    }
    End(mem[..], m, destination, source, length, d, s);
  }

  lemma SameResidue(d: nat, s: nat, k: nat)
    requires d % 4 == s % 4
    ensures (d + k) % 4 == (s + k) % 4
  {
  }

  /** The byte loop is done up to d. */
  ghost predicate Progress(now: seq<byte>, m: seq<byte>, destination: nat, source: nat, length: nat, d: int, s: int,
                           size: int) {
    && destination + length <= |m| && source + length <= |m| && 0 <= size <= length
    && d == destination + (length - size) && s == source + (length - size)
    && now == ByteCopy(m, destination, source, length - size)
  }

  lemma Begin(m: seq<byte>, d: nat, s: nat, n: nat)
    requires d + n <= |m| && s + n <= |m|
    ensures Progress(m, m, d, s, n, d, s, n)
  {
  }

  lemma End(now: seq<byte>, m: seq<byte>, destination: nat, source: nat, length: nat, d: int, s: int)
    requires Progress(now, m, destination, source, length, d, s, 0)
    ensures destination + length <= |m| && source + length <= |m| && now == ByteCopy(m, destination, source, length)
  {
  }

  method CopyByte(mem: array<byte>, d: nat, s: nat,
                  ghost m: seq<byte>, ghost destination: nat, ghost source: nat, ghost length: nat, ghost size: nat)
    requires Progress(mem[..], m, destination, source, length, d, s, size) && size > 0
    modifies mem
    ensures Progress(mem[..], m, destination, source, length, d + 1, s + 1, size - 1)
  {
    mem[d] := mem[s];
    assert length - (size - 1) == length - size + 1;
  }

  method CopyWord(mem: array<byte>, d: nat, s: nat,
                  ghost m: seq<byte>, ghost destination: nat, ghost source: nat, ghost length: nat, ghost size: nat)
    requires Progress(mem[..], m, destination, source, length, d, s, size) && size >= 4 && d % 4 == s % 4
    modifies mem
    ensures Progress(mem[..], m, destination, source, length, d + 4, s + 4, size - 4)
  {
    hide ByteCopy, LE32, FromLE32, Splice;
    ghost var before := mem[..];
    var w := Load32(mem, s);
    WordBytes(mem[s..s + 4]);
    Store32(mem, d, w);
    assert before[s..s + 4] == old(mem[s..s + 4]);
    WordCopy(before, d, s);
    CopyInTwo(m, destination, source, length - size, 4);
    assert length - (size - 4) == length - size + 4;
  }

  /** And fast_mem_set leaves what the byte fill leaves. */
  method Fill(mem: array<byte>, destination: nat, value: byte, length: nat)
    requires destination + length <= mem.Length
    modifies mem
    ensures mem[..] == ByteFill(old(mem[..]), destination, value, length)
  {
    hide LE32, Splice;
    ghost var m := mem[..];
    var done := 0;
    while (destination + done) % 4 != 0 && done < length
      invariant 0 <= done <= length && mem[..] == ByteFill(m, destination, value, done)
      decreases length - done
    {
      mem[destination + done] := value;
      done := done + 1;
    }
    var v: int := value;
    var word: u32 := v * 0x100_0000 + v * 0x1_0000 + v * 0x100 + v;
    while length - done >= 4
      invariant 0 <= done <= length && mem[..] == ByteFill(m, destination, value, done)
    {
      FillWord(mem, destination + done, value, word);
      FillInTwo(m, destination, value, done, 4);
      done := done + 4;
    }
    while done < length
      invariant 0 <= done <= length && mem[..] == ByteFill(m, destination, value, done)
    {
      mem[destination + done] := value;
      done := done + 1;
    }
  }

  method FillWord(mem: array<byte>, d: nat, value: byte, word: u32)
    requires d + 4 <= mem.Length && word == value as int * 0x101_0101
    modifies mem
    ensures mem[..] == ByteFill(old(mem[..]), d, value, 4)
  {
    FillFills(mem[..], d, value, 4);
    RepeatedByte(value, word);
    hide LE32, Splice, ByteFill;
    Store32(mem, d, word);
  }

  lemma RepeatedByte(value: byte, word: u32)
    requires word == value as int * 0x101_0101
    ensures LE32(word) == Repeat(value, 4)
  {
    var b := Repeat(value, 4);
    WordBytes(b);
    assert FromLE32(b) == word;
  }
}
