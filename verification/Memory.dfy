/** liballoc_memcpy: words first, then the last bytes. */
module Memory {
  type byte = bv8

  /** The plain copy: one byte after the other, upwards. */
  function ByteCopy(m: seq<byte>, dst: int, src: int, n: nat): (r: seq<byte>)
    requires 0 <= dst && 0 <= src && dst + n <= |m| && src + n <= |m|
    ensures |r| == |m|
    decreases n
  {
    if n == 0 then m else ByteCopy(m[dst := m[src]], dst + 1, src + 1, n - 1)
  }

  /** Four bytes are read before any of them is written. */
  function StoreWord(m: seq<byte>, dst: int, src: int): (r: seq<byte>)
    requires 0 <= dst && 0 <= src && dst + 4 <= |m| && src + 4 <= |m|
    ensures |r| == |m|
  {
    m[dst := m[src]][dst + 1 := m[src + 1]][dst + 2 := m[src + 2]][dst + 3 := m[src + 3]]
  }

  /** What the program does: whole words while they last, then bytes. */
  function WordCopy(m: seq<byte>, dst: int, src: int, n: nat): (r: seq<byte>)
    requires 0 <= dst && 0 <= src && dst + n <= |m| && src + n <= |m|
    ensures |r| == |m|
    decreases n
  {
    if n < 4 then ByteCopy(m, dst, src, n) else WordCopy(StoreWord(m, dst, src), dst + 4, src + 4, n - 4)
  }

  /** A word store is four byte stores unless it writes ahead of what it reads. */
  lemma WordIsFourBytes(m: seq<byte>, dst: int, src: int, n: nat)
    requires 0 <= dst && 0 <= src && dst + n <= |m| && src + n <= |m| && 4 <= n
    requires !(src < dst < src + 4)
    ensures ByteCopy(m, dst, src, n) == ByteCopy(StoreWord(m, dst, src), dst + 4, src + 4, n - 4)
  {
    var m1 := m[dst := m[src]];
    var m2 := m1[dst + 1 := m1[src + 1]];
    var m3 := m2[dst + 2 := m2[src + 2]];
    var m4 := m3[dst + 3 := m3[src + 3]];
    assert ByteCopy(m, dst, src, n) == ByteCopy(m1, dst + 1, src + 1, n - 1);
    assert ByteCopy(m1, dst + 1, src + 1, n - 1) == ByteCopy(m2, dst + 2, src + 2, n - 2);
    assert ByteCopy(m2, dst + 2, src + 2, n - 2) == ByteCopy(m3, dst + 3, src + 3, n - 3);
    assert ByteCopy(m3, dst + 3, src + 3, n - 3) == ByteCopy(m4, dst + 4, src + 4, n - 4);
    assert m4 == StoreWord(m, dst, src);
  }

  lemma {:induction false} WordCopyRefines(m: seq<byte>, dst: int, src: int, n: nat)
    requires 0 <= dst && 0 <= src && dst + n <= |m| && src + n <= |m|
    requires n < 4 || !(src < dst < src + 4)
    ensures WordCopy(m, dst, src, n) == ByteCopy(m, dst, src, n)
    decreases n
  {
    if 4 <= n {
      WordIsFourBytes(m, dst, src, n);
      WordCopyRefines(StoreWord(m, dst, src), dst + 4, src + 4, n - 4);
    }
  }

  /** Bytes below the destination are never written. */
  lemma {:induction false} CopyKeepsBelow(m: seq<byte>, dst: int, src: int, n: nat, x: int)
    requires 0 <= dst && 0 <= src && dst + n <= |m| && src + n <= |m| && 0 <= x < dst
    ensures WordCopy(m, dst, src, n)[x] == m[x] && ByteCopy(m, dst, src, n)[x] == m[x]
    decreases n
  {
    if 0 < n {
      CopyKeepsBelow(m[dst := m[src]], dst + 1, src + 1, n - 1, x);
    }
    if 4 <= n {
      CopyKeepsBelow(StoreWord(m, dst, src), dst + 4, src + 4, n - 4, x);
    }
  }

  /** The condition is exact: with a shorter shift some memory shows the difference. */
  lemma WordCopyDiffers(dst: int, src: int, n: nat, size: int) returns (m: seq<byte>)
    requires 0 <= src < dst < src + 4 <= src + n && dst + n <= size
    ensures |m| == size && WordCopy(m, dst, src, n) != ByteCopy(m, dst, src, n)
  {
    // a single 1 at the first source byte: the plain copy carries it past `dst`
    m := seq(size, i => if i == src then 1 else 0);
    var gap := dst - src;
    PlainCopyRepeats(m, dst, src, n, gap);
    WordCopyFirst(m, dst, src, n, gap);
  }

  /** The plain copy spreads the byte at `src` over every place a multiple of the shift further. */
  lemma PlainCopyRepeats(m: seq<byte>, dst: int, src: int, n: nat, gap: int)
    requires gap == dst - src && 1 <= gap <= 3 && 4 <= n && 0 <= src && dst + n <= |m|
    requires m[src] == 1
    ensures ByteCopy(m, dst, src, n)[dst + gap] == 1
  {
    var m1 := m[dst := m[src]];
    var m2 := m1[dst + 1 := m1[src + 1]];
    var m3 := m2[dst + 2 := m2[src + 2]];
    var m4 := m3[dst + 3 := m3[src + 3]];
    assert ByteCopy(m, dst, src, n) == ByteCopy(m1, dst + 1, src + 1, n - 1);
    assert ByteCopy(m1, dst + 1, src + 1, n - 1) == ByteCopy(m2, dst + 2, src + 2, n - 2);
    assert ByteCopy(m2, dst + 2, src + 2, n - 2) == ByteCopy(m3, dst + 3, src + 3, n - 3);
    assert ByteCopy(m3, dst + 3, src + 3, n - 3) == ByteCopy(m4, dst + 4, src + 4, n - 4);
    CopyKeepsBelow(m4, dst + 4, src + 4, n - 4, dst + gap);
  }

  /** The word store writes there what memory held before. */
  lemma WordCopyFirst(m: seq<byte>, dst: int, src: int, n: nat, gap: int)
    requires gap == dst - src && 1 <= gap <= 3 && 4 <= n && 0 <= src && dst + n <= |m|
    requires forall i | 0 <= i < |m| && i != src :: m[i] == 0
    ensures WordCopy(m, dst, src, n)[dst + gap] == 0
  {
    CopyKeepsBelow(StoreWord(m, dst, src), dst + 4, src + 4, n - 4, dst + gap);
  }

  /** The program's copy is the plain copy on every memory exactly when the destination does
      not start one to three bytes past the source, or no whole word is copied. */
  lemma WordCopyExact(dst: int, src: int, n: nat, size: int)
    requires 0 <= dst && 0 <= src && dst + n <= size && src + n <= size
    ensures (forall m: seq<byte> | |m| == size :: WordCopy(m, dst, src, n) == ByteCopy(m, dst, src, n))
       <==> (n < 4 || !(src < dst < src + 4))
  {
    if n < 4 || !(src < dst < src + 4) {
      forall m: seq<byte> | |m| == size
        ensures WordCopy(m, dst, src, n) == ByteCopy(m, dst, src, n)
      {
        WordCopyRefines(m, dst, src, n);
      }
    } else {
      var m := WordCopyDiffers(dst, src, n, size);
    }
  }

  /** Between ranges that do not meet, the copy moves the bytes and nothing else. */
  lemma {:induction false} CopyBetweenApart(m: seq<byte>, dst: int, src: int, n: nat, x: int)
    requires 0 <= dst && 0 <= src && dst + n <= |m| && src + n <= |m| && 0 <= x < |m|
    requires src + n <= dst || dst + n <= src
    ensures ByteCopy(m, dst, src, n)[x] == if dst <= x < dst + n then m[src + (x - dst)] else m[x]
    decreases n
  {
    if 0 < n {
      CopyBetweenApart(m[dst := m[src]], dst + 1, src + 1, n - 1, x);
    }
  }

  /** Where the plain copy has the byte at `x` from: from the source, unless that begins below the
      destination; then from between the two, over and over. */
  function Origin(dst: int, src: int, n: nat, x: int): int {
    if !(dst <= x < dst + n) then x
    else if dst <= src then src + (x - dst)
    else src + Around(x - dst, dst - src)
  }

  /** One byte later, only the byte just written has another origin. */
  lemma OriginNext(dst: int, src: int, n: nat, x: int)
    requires 0 < n
    ensures var o := Origin(dst + 1, src + 1, n - 1, x);
      Origin(dst, src, n, x) == if o == dst then src else o
  {
    if src < dst < x < dst + n {
      NextAround(x - dst - 1, dst - src);
    }
  }

  lemma {:induction false} ByteCopyAt(m: seq<byte>, dst: int, src: int, n: nat, x: int)
    requires 0 <= dst && 0 <= src && dst + n <= |m| && src + n <= |m| && 0 <= x < |m|
    ensures 0 <= Origin(dst, src, n, x) < |m| && ByteCopy(m, dst, src, n)[x] == m[Origin(dst, src, n, x)]
    decreases n
  {
    if 0 < n {
      OriginNext(dst, src, n, x);
      ByteCopyAt(m[dst := m[src]], dst + 1, src + 1, n - 1, x);
    }
  }

  /** Every byte of `m'` is that of `m` at its origin. */
  ghost predicate FromOrigins(m: seq<byte>, m': seq<byte>, dst: int, src: int, n: nat) {
    && |m'| == |m|
    && (forall x {:trigger m'[x]} | 0 <= x < |m| ::
          0 <= Origin(dst, src, n, x) < |m| && m'[x] == m[Origin(dst, src, n, x)])
  }

  lemma CopyOrigins(m: seq<byte>, dst: int, src: int, n: nat)
    requires 0 <= dst && 0 <= src && dst + n <= |m| && src + n <= |m|
    ensures n < 4 || !(src < dst < src + 4) ==> FromOrigins(m, WordCopy(m, dst, src, n), dst, src, n)
  {
    if n < 4 || !(src < dst < src + 4) {
      WordCopyRefines(m, dst, src, n);
      forall x | 0 <= x < |m|
        ensures 0 <= Origin(dst, src, n, x) < |m| && ByteCopy(m, dst, src, n)[x] == m[Origin(dst, src, n, x)]
      {
        ByteCopyAt(m, dst, src, n, x);
      }
    }
  }

  /** Counting from 0 to d - 1, over and over: i modulo d. */
  function Around(i: nat, d: nat): (r: nat)
    requires 0 < d
    ensures r < d
  {
    if i < d then i else Around(i - d, d)
  }

  lemma {:induction false} NextAround(i: nat, d: nat)
    requires 0 < d
    ensures Around(i + 1, d) == if Around(i, d) + 1 == d then 0 else Around(i, d) + 1
    decreases i
  {
    if d <= i {
      NextAround(i - d, d);
    }
  }

  /** liballoc_memcpy over memory as an array of bytes. */
  method MemCpy(mem: array<byte>, dst: int, src: int, n: nat)
    requires 0 <= dst && 0 <= src && dst + n <= mem.Length && src + n <= mem.Length
    modifies mem
    ensures mem[..] == WordCopy(old(mem[..]), dst, src, n)
  {
    var d, s, left := dst, src, n;
    while left >= 4
      invariant 0 <= left <= n && d == dst + (n - left) && s == src + (n - left)
      invariant WordCopy(mem[..], d, s, left) == WordCopy(old(mem[..]), dst, src, n)
    {
      ghost var m := mem[..];
      mem[d], mem[d + 1], mem[d + 2], mem[d + 3] := mem[s], mem[s + 1], mem[s + 2], mem[s + 3];
      assert mem[..] == StoreWord(m, d, s);
      d, s, left := d + 4, s + 4, left - 4;
    }
    while left > 0
      invariant 0 <= left < 4 && d == dst + (n - left) && s == src + (n - left)
      invariant ByteCopy(mem[..], d, s, left) == WordCopy(old(mem[..]), dst, src, n)
    {
      ghost var m := mem[..];
      mem[d] := mem[s];
      assert mem[..] == m[d := m[s]];
      d, s, left := d + 1, s + 1, left - 1;
    }
  }
}
