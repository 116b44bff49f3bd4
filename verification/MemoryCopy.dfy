/// MmCopyMemory and MmFillMemory (libSystem/src/System.cpp) on a byte-addressed memory: word by word
/// where both ends are aligned, byte by byte elsewhere. Address 0 is the null pointer.

module MemoryCopy {
  import opened Bits
  import opened Words
  import opened Bytes

  /// Memory after the n bytes at s have moved to d, wherever the two ranges lie: memmove of section
  /// 7.24.2.2 of ISO/IEC 9899:2018.
  function Moved(m: seq<Byte>, d: nat, s: nat, n: nat): (r: seq<Byte>)
    requires d + n <= |m| && s + n <= |m|
    ensures |r| == |m|
  {
    m[..d] + m[s..s + n] + m[d + n..]
  }

  lemma MovedAt(m: seq<Byte>, d: nat, s: nat, n: nat, k: nat)
    requires d + n <= |m| && s + n <= |m| && k < |m|
    ensures Moved(m, d, s, n)[k] == if d <= k < d + n then m[s + (k - d)] else m[k]
  {
  }

  // One position of a move made in two parts, the lower part first.
  lemma UpAt(m: seq<Byte>, d: nat, s: nat, a: nat, b: nat, k: nat)
    requires (d < s || s + a + b <= d) && d + a + b <= |m| && s + a + b <= |m| && k < |m|
    ensures Moved(Moved(m, d, s, a), d + a, s + a, b)[k] == Moved(m, d, s, a + b)[k]
  {
    hide Moved;
    var m1 := Moved(m, d, s, a);
    MovedAt(m1, d + a, s + a, b, k);
    MovedAt(m, d, s, a + b, k);
    MovedAt(m, d, s, a, k);
    if d + a <= k < d + a + b {
      MovedAt(m, d, s, a, s + a + (k - (d + a)));
    }
  }

  lemma TwoPartsUp(m: seq<Byte>, d: nat, s: nat, a: nat, b: nat)
    requires (d < s || s + a + b <= d) && d + a + b <= |m| && s + a + b <= |m|
    ensures Moved(Moved(m, d, s, a), d + a, s + a, b) == Moved(m, d, s, a + b)
  {
    hide Moved;
    var x, y := Moved(Moved(m, d, s, a), d + a, s + a, b), Moved(m, d, s, a + b);
    forall k: nat | k < |m|
      ensures x[k] == y[k]
    {
      UpAt(m, d, s, a, b, k);
    }
  }

  // The upper part first.
  lemma DownAt(m: seq<Byte>, d: nat, s: nat, a: nat, b: nat, k: nat)
    requires s < d && d + a + b <= |m| && k < |m|
    ensures Moved(Moved(m, d + a, s + a, b), d, s, a)[k] == Moved(m, d, s, a + b)[k]
  {
    var m1 := Moved(m, d + a, s + a, b);
    MovedAt(m1, d, s, a, k);
    MovedAt(m, d, s, a + b, k);
    MovedAt(m, d + a, s + a, b, k);
    if d <= k < d + a {
      MovedAt(m, d + a, s + a, b, s + (k - d));
    }
  }

  lemma TwoPartsDown(m: seq<Byte>, d: nat, s: nat, a: nat, b: nat)
    requires s < d && d + a + b <= |m|
    ensures Moved(Moved(m, d + a, s + a, b), d, s, a) == Moved(m, d, s, a + b)
  {
    hide Moved;
    var x, y := Moved(Moved(m, d + a, s + a, b), d, s, a), Moved(m, d, s, a + b);
    forall k: nat | k < |m|
      ensures x[k] == y[k]
    {
      DownAt(m, d, s, a, b, k);
    }
  }

  lemma MovedNone(m: seq<Byte>, d: nat, s: nat)
    requires d <= |m| && s <= |m|
    ensures Moved(m, d, s, 0) == m
  {
  }

  // ---- the loops -------------------------------------------------------------------------

  /// One 64-bit load and store.
  method MoveWord(mem: array<Byte>, d: nat, s: nat)
    requires d + 8 <= mem.Length && s + 8 <= mem.Length
    modifies mem
    ensures mem[..] == Moved(old(mem[..]), d, s, 8)
  {
    var w := mem[s..s + 8];
    for j := 0 to 8
      invariant forall k | 0 <= k < mem.Length :: mem[k] == if d <= k < d + j then w[k - d] else old(mem[k])
    {
      mem[d + j] := w[j];
    }
  }

  method MoveByte(mem: array<Byte>, d: nat, s: nat)
    requires d < mem.Length && s < mem.Length
    modifies mem
    ensures mem[..] == Moved(old(mem[..]), d, s, 1)
  {
    mem[d] := mem[s];
  }

  /// Words from the top, where the destination lies above the source.
  method WordsDown(mem: array<Byte>, d: nat, s: nat, words: nat)
    requires s < d && d + 8 * words <= mem.Length
    modifies mem
    ensures mem[..] == Moved(old(mem[..]), d, s, 8 * words)
  {
    hide Moved;
    MovedNone(mem[..], d + 8 * words, s + 8 * words);
    for i := 0 to words
      invariant mem[..] == Moved(old(mem[..]), d + 8 * (words - i), s + 8 * (words - i), 8 * i)
    {
      var left := 8 * (words - 1 - i);
      TwoPartsDown(old(mem[..]), d + left, s + left, 8, 8 * i);
      MoveWord(mem, d + left, s + left);
    }
  }

  method BytesDown(mem: array<Byte>, d: nat, s: nat, n: nat)
    requires s < d && d + n <= mem.Length
    modifies mem
    ensures mem[..] == Moved(old(mem[..]), d, s, n)
  {
    hide Moved;
    MovedNone(mem[..], d + n, s + n);
    for i := 0 to n
      invariant mem[..] == Moved(old(mem[..]), d + (n - i), s + (n - i), i)
    {
      var left := n - 1 - i;
      TwoPartsDown(old(mem[..]), d + left, s + left, 1, i);
      MoveByte(mem, d + left, s + left);
    }
  }

  /// Words from the bottom, where the destination does not start inside the source.
  method WordsUp(mem: array<Byte>, d: nat, s: nat, words: nat)
    requires (d < s || s + 8 * words <= d) && d + 8 * words <= mem.Length && s + 8 * words <= mem.Length
    modifies mem
    ensures mem[..] == Moved(old(mem[..]), d, s, 8 * words)
  {
    hide Moved;
    MovedNone(mem[..], d, s);
    for i := 0 to words
      invariant mem[..] == Moved(old(mem[..]), d, s, 8 * i)
    {
      TwoPartsUp(old(mem[..]), d, s, 8 * i, 8);
      MoveWord(mem, d + 8 * i, s + 8 * i);
    }
  }

  method BytesUp(mem: array<Byte>, d: nat, s: nat, n: nat)
    requires (d < s || s + n <= d) && d + n <= mem.Length && s + n <= mem.Length
    modifies mem
    ensures mem[..] == Moved(old(mem[..]), d, s, n)
  {
    hide Moved;
    MovedNone(mem[..], d, s);
    for i := 0 to n
      invariant mem[..] == Moved(old(mem[..]), d, s, i)
    {
      TwoPartsUp(old(mem[..]), d, s, i, 1);
      MoveByte(mem, d + i, s + i);
    }
  }

  // ---- MmCopyMemory ----------------------------------------------------------------------

  /// The backward copy by words whose length is not a whole number of words.
  predicate TailLost(d: nat, s: nat, len: nat) {
    && s < d < s + len && len >= 8 && len % 8 != 0
    && (s + len) % 8 == 0 && (d + len) % 8 == 0
  }

  /// What MmCopyMemory does. In the exceptional case the loop after the words starts at the top
  /// again, and the lowest bytes are never moved.
  function Copied(m: seq<Byte>, d: nat, s: nat, len: nat): (r: seq<Byte>)
    requires d + len <= |m| && s + len <= |m|
    ensures |r| == |m|
  {
    var rem := len % 8;
    if TailLost(d, s, len) then Moved(Moved(m, d + rem, s + rem, len - rem), d + len - rem, s + len - rem, rem)
    else Moved(m, d, s, len)
  }

  lemma MovedOnto(m: seq<Byte>, d: nat, n: nat)
    requires d + n <= |m|
    ensures Moved(m, d, d, n) == m
  {
  }

  /// The branch for a destination that starts inside the source.
  method CopyDown(mem: array<Byte>, dest: nat, src: nat, len: nat)
    requires src < dest < src + len && dest + len <= mem.Length
    modifies mem
    ensures mem[..] == Copied(old(mem[..]), dest, src, len)
  {
    hide Moved;
    ghost var m := mem[..];
    if len >= 8 && (src + len) % 8 == 0 && (dest + len) % 8 == 0 {
      var words, rem := len / 8, len % 8;
      assert 8 * words == len - rem;
      WordsDown(mem, dest + rem, src + rem, words);
      BytesDown(mem, dest + len - rem, src + len - rem, rem);
      MovedNone(Moved(m, dest, src, len), dest + len, src + len);
    } else {
      BytesDown(mem, dest, src, len);
    }
  }

  /// The other branch.
  method CopyUp(mem: array<Byte>, dest: nat, src: nat, len: nat)
    requires (dest < src || src + len <= dest) && dest + len <= mem.Length && src + len <= mem.Length
    modifies mem
    ensures mem[..] == Moved(old(mem[..]), dest, src, len)
  {
    hide Moved;
    ghost var m := mem[..];
    if len >= 8 && src % 8 == 0 && dest % 8 == 0 {
      var words, rem := len / 8, len % 8;
      WordsUp(mem, dest, src, words);
      BytesUp(mem, dest + 8 * words, src + 8 * words, rem);
      TwoPartsUp(m, dest, src, 8 * words, rem);
    } else {
      BytesUp(mem, dest, src, len);
    }
  }

  /// MmCopyMemory
  method CopyMemory(mem: array<Byte>, dest: nat, src: nat, len: nat) returns (r: nat)
    requires dest + len <= mem.Length && src + len <= mem.Length
    modifies mem
    ensures r == if len == 0 || dest == 0 || src == 0 then 0 else dest
    ensures mem[..] == if len == 0 || dest == 0 || src == 0 then old(mem[..]) else Copied(old(mem[..]), dest, src, len)
  {
    hide Moved;
    if len == 0 || dest == 0 || src == 0 {
      return 0;
    }
    r := dest;
    if dest == src {
      MovedOnto(mem[..], dest, len);
    } else if dest > src && dest < src + len {
      CopyDown(mem, dest, src, len);
    } else {
      CopyUp(mem, dest, src, len);
    }
  }

  /// A memory that shows the exception: 1 at address s, 0 elsewhere.
  function Witness(n: nat, s: nat): seq<Byte> { seq(n, k => if k == s then 1 else 0) }

  /// The copy is a memmove whatever the memory holds, for every overlap and alignment, exactly
  /// outside the exceptional case.
  lemma CopyIsMoveExactly(d: nat, s: nat, len: nat, n: nat)
    requires d + len <= n && s + len <= n
    ensures (forall m: seq<Byte> | |m| == n :: Copied(m, d, s, len) == Moved(m, d, s, len)) <==> !TailLost(d, s, len)
  {
    if TailLost(d, s, len) {
      var m, rem := Witness(n, s), len % 8;
      var m1 := Moved(m, d + rem, s + rem, len - rem);
      MovedAt(m, d, s, len, d);
      MovedAt(m, d + rem, s + rem, len - rem, d);
      MovedAt(m1, d + len - rem, s + len - rem, rem, d);
      assert Copied(m, d, s, len)[d] == 0 && Moved(m, d, s, len)[d] == 1;
    }
  }

  /// The state after a copy, byte by byte. In the exceptional case the lowest bytes stay as they were, and
  /// the highest are moved once more, from what the words have already overwritten.
  lemma CopiedAt(m: seq<Byte>, d: nat, s: nat, len: nat, k: nat)
    requires d + len <= |m| && s + len <= |m| && k < |m|
    ensures var rem := len % 8;
            var x := s + (k - d);
            Copied(m, d, s, len)[k]
            == if k < d || d + len <= k then m[k]
               else if !(s < d < s + len && len >= 8 && rem != 0 && (s + len) % 8 == 0 && (d + len) % 8 == 0) then m[x]
               else if k < d + rem then m[k]
               else if k < d + len - rem || x < d + rem then m[x]
               else m[s + (x - d)]
  {
    hide Moved;
    var rem := len % 8;
    if TailLost(d, s, len) {
      var m1 := Moved(m, d + rem, s + rem, len - rem);
      MovedAt(m, d + rem, s + rem, len - rem, k);
      MovedAt(m1, d + len - rem, s + len - rem, rem, k);
      if d <= k < d + len {
        MovedAt(m, d + rem, s + rem, len - rem, s + (k - d));
      }
    } else {
      MovedAt(m, d, s, len, k);
    }
  }

  // ---- MmFillMemory ----------------------------------------------------------------------

  function Filled(m: seq<Byte>, d: nat, len: nat, v: Byte): (r: seq<Byte>)
    requires d + len <= |m|
    ensures |r| == |m|
  {
    m[..d] + seq(len, _ => v) + m[d + len..]
  }

  /// The number with n bytes v.
  function Repeated(v: Byte, n: nat): nat
    decreases n, v
  {
    if n == 0 then 0 else v + 256 * Repeated(v, n - 1)
  }

  lemma {:induction false} RepeatedBytes(v: Byte, n: nat)
    ensures ToBytes(Repeated(v, n), n) == seq(n, _ => v)
  {
    if n > 0 {
      RepeatedBytes(v, n - 1);
      var x := Repeated(v, n);
      assert x % 256 == v && x / 256 == Repeated(v, n - 1);
    }
  }

  /// `pattern |= (pattern << 8)` and so on leaves the value in all eight bytes.
  lemma PatternBytes(v: Byte, p1: nat, p2: nat, p3: nat)
    requires p1 == Or(v, 0x100 * v) && p2 == Or(p1, 0x1_0000 * p1) && p3 == Or(p2, 0x1_0000_0000 * p2)
    ensures p3 < TWO_TO_THE_64 && ToBytes(p3, 8) == seq(8, _ => v)
  {
    hide Or, Pow2, ToBytes;
    assert Pow2(8) == 0x100 && Pow2(16) == 0x1_0000 && Pow2(32) == 0x1_0000_0000 by {
      Powers();
      Pow2Byte(8);
      Pow2Byte(16);
      Pow2Byte(24);
    }
    Twice(v, 8, 0x100);
    Twice(p1, 16, 0x1_0000);
    Twice(p2, 32, 0x1_0000_0000);
    RepeatedSum(v);
    RepeatedBytes(v, 8);
  }

  lemma Twice(p: nat, k: nat, w: nat)
    requires w == Pow2(k) && p < w
    ensures Or(p, w * p) == p + w * p
  {
    ModUnique(w * p, w, p, 0);
    OrCommutes(p, w * p);
    OrAdd(w * p, p, k);
  }

  lemma RepeatedSum(v: Byte)
    ensures Repeated(v, 8) == 0x0101_0101_0101_0101 * v
  {
    assert Repeated(v, 2) == v + 256 * Repeated(v, 1) && Repeated(v, 1) == v + 256 * Repeated(v, 0);
    assert Repeated(v, 4) == v + 256 * Repeated(v, 3) && Repeated(v, 3) == v + 256 * Repeated(v, 2);
    assert Repeated(v, 6) == v + 256 * Repeated(v, 5) && Repeated(v, 5) == v + 256 * Repeated(v, 4);
    assert Repeated(v, 8) == v + 256 * Repeated(v, 7) && Repeated(v, 7) == v + 256 * Repeated(v, 6);
  }

  /// One 64-bit store of the pattern.
  method StoreWord(mem: array<Byte>, d: nat, w: nat)
    requires d + 8 <= mem.Length
    modifies mem
    ensures mem[..] == old(mem[..d]) + ToBytes(w, 8) + old(mem[d + 8..])
  {
    var bs := ToBytes(w, 8);
    for j := 0 to 8
      invariant forall k | 0 <= k < mem.Length :: mem[k] == if d <= k < d + j then bs[k - d] else old(mem[k])
    {
      mem[d + j] := bs[j];
    }
  }

  /// The 64-bit pattern.
  method Pattern(value: Byte) returns (pattern: nat)
    ensures ToBytes(pattern, 8) == seq(8, _ => value)
  {
    var p1 := Or(value, 0x100 * value);
    var p2 := Or(p1, 0x1_0000 * p1);
    pattern := Or(p2, 0x1_0000_0000 * p2);
    PatternBytes(value, p1, p2, pattern);
  }

  method FillWords(mem: array<Byte>, dest: nat, words: nat, value: Byte)
    requires dest + 8 * words <= mem.Length
    modifies mem
    ensures mem[..] == Filled(old(mem[..]), dest, 8 * words, value)
  {
    hide Filled;
    var pattern := Pattern(value);
    FilledNone(mem[..], dest, value);
    for i := 0 to words
      invariant mem[..] == Filled(old(mem[..]), dest, 8 * i, value)
    {
      FilledMore(old(mem[..]), mem[..], dest, 8 * i, 8, value);
      StoreWord(mem, dest + 8 * i, pattern);
    }
  }

  /// The byte loop, after `done` bytes are filled.
  method FillBytes(mem: array<Byte>, dest: nat, done: nat, len: nat, value: Byte, ghost m: seq<Byte>)
    requires done <= len && dest + len <= mem.Length && |m| == mem.Length && mem[..] == Filled(m, dest, done, value)
    modifies mem
    ensures mem[..] == Filled(m, dest, len, value)
  {
    hide Filled;
    for i := done to len
      invariant mem[..] == Filled(m, dest, i, value)
    {
      FilledMore(m, mem[..], dest, i, 1, value);
      ghost var before := mem[..];
      mem[dest + i] := value;
      assert mem[..] == before[..dest + i] + seq(1, _ => value) + before[dest + i + 1..];
    }
  }

  /// MmFillMemory
  method FillMemory(mem: array<Byte>, dest: nat, len: nat, value: Byte) returns (r: nat)
    requires dest + len <= mem.Length
    modifies mem
    ensures r == if len == 0 || dest == 0 then 0 else dest
    ensures mem[..] == if len == 0 || dest == 0 then old(mem[..]) else Filled(old(mem[..]), dest, len, value)
    ensures len > 0 && dest > 0 ==>
              forall k | 0 <= k < mem.Length :: mem[k] == if dest <= k < dest + len then value else old(mem[k])
  {
    hide Filled;
    if len == 0 || dest == 0 {
      return 0;
    }
    FilledNone(mem[..], dest, value);
    var words := if len >= 8 && dest % 8 == 0 then len / 8 else 0;
    if words > 0 {
      FillWords(mem, dest, words, value);
    }
    FillBytes(mem, dest, 8 * words, len, value, old(mem[..]));
    FilledAt(old(mem[..]), mem[..], dest, len, value);
    return dest;
  }

  lemma FilledAt(m: seq<Byte>, m': seq<Byte>, d: nat, len: nat, v: Byte)
    requires d + len <= |m| && m' == Filled(m, d, len, v)
    ensures forall k | 0 <= k < |m| :: m'[k] == if d <= k < d + len then v else m[k]
  {
  }

  lemma FilledNone(m: seq<Byte>, d: nat, v: Byte)
    requires d <= |m|
    ensures Filled(m, d, 0, v) == m
  {
  }

  lemma FilledMore(m: seq<Byte>, f: seq<Byte>, d: nat, a: nat, b: nat, v: Byte)
    requires d + a + b <= |m| && f == Filled(m, d, a, v)
    ensures f[..d + a] + seq(b, _ => v) + f[d + a + b..] == Filled(m, d, a + b, v)
  {
  }
}
