/// CRC-32 (minkernel/src/Crc32.cpp) against the serial division of section 8 of RFC 1952.

module Crc32 {
  import opened Translation

  // ---- the reference: one bit at a time --------------------------------------------------

  /// One step of the division by the reversed polynomial.
  function Step(x: bv32): bv32 {
    if x & 1 == 1 then (x >> 1) ^ 0xedb88320 else x >> 1
  }

  /// The sum of two polynomials.
  function Plus(x: bv32, y: bv32): bv32 { x ^ y }

  /// One message bit enters the remainder.
  function FeedBit(c: bv32, b: bv32): bv32 { Step(Plus(c, b & 1)) }

  /// n message bits, lowest first.
  function FeedBits(c: bv32, b: bv32, n: nat): bv32
    decreases n, c
  {
    if n == 0 then c else FeedBits(FeedBit(c, b), b >> 1, n - 1)
  }

  function FeedByte(c: bv32, b: bv8): bv32 { FeedBits(c, b as bv32, 8) }

  function Divide(c: bv32, s: seq<bv8>): bv32
    decreases |s|
  {
    if s == [] then c else Divide(FeedByte(c, s[0]), s[1..])
  }

  function Complement(x: bv32): bv32 { !x }

  function Checksum(s: seq<bv8>): bv32 { Complement(Divide(0xffff_ffff, s)) }

  // ---- the step is linear and loses nothing ----------------------------------------------

  function Steps(x: bv32, n: nat): bv32
    decreases n, x
  {
    if n == 0 then x else Steps(Step(x), n - 1)
  }

  lemma Xors(x: bv32, y: bv32)
    ensures (x ^ y) >> 1 == (x >> 1) ^ (y >> 1) && (x ^ y) & 1 == (x & 1) ^ (y & 1)
    ensures (x & 1 == 0 || x & 1 == 1) && (y & 1 == 0 || y & 1 == 1)
  {
  }

  lemma Regroup(a: bv32, b: bv32, c: bv32)
    ensures (a ^ c) ^ (b ^ c) == a ^ b && a ^ (b ^ c) == (a ^ b) ^ c && (a ^ c) ^ b == (a ^ b) ^ c
  {
  }

  lemma StepLinear(x: bv32, y: bv32)
    ensures Step(Plus(x, y)) == Plus(Step(x), Step(y))
  {
    Xors(x, y);
    Regroup(x >> 1, y >> 1, 0xedb88320);
  }

  lemma {:induction false} StepsLinear(x: bv32, y: bv32, n: nat)
    ensures Steps(Plus(x, y), n) == Plus(Steps(x, n), Steps(y, n))
    decreases n
  {
    hide Step, Plus;
    if n > 0 {
      StepLinear(x, y);
      StepsLinear(Step(x), Step(y), n - 1);
    }
  }

  lemma StepInjective(x: bv32, y: bv32)
    requires Step(x) == Step(y)
    ensures x == y
  {
  }

  lemma {:induction false} StepsInjective(x: bv32, y: bv32, n: nat)
    requires Steps(x, n) == Steps(y, n)
    ensures x == y
    decreases n
  {
    hide Step;
    if n > 0 {
      StepsInjective(Step(x), Step(y), n - 1);
      StepInjective(x, y);
    }
  }

  // ---- shifts ----------------------------------------------------------------------------

  /// `x >> n`, bit by bit.
  function ShiftRight(x: bv32, n: nat): bv32
    decreases n, x
  {
    if n == 0 then x else ShiftRight(x >> 1, n - 1)
  }

  predicate LowZeros(x: bv32, n: nat)
    decreases n, x
  {
    n == 0 || (x & 1 == 0 && LowZeros(x >> 1, n - 1))
  }

  lemma ByteShift(x: bv32)
    ensures ShiftRight(x, 8) == x >> 8
    ensures x & 0xFF == 0 ==> LowZeros(x, 8)
  {
    hide ShiftRight, LowZeros;
    var x4 := x >> 1 >> 1 >> 1 >> 1;
    FourShifts(x, 4);
    FourShifts(x4, 0);
    assert ShiftRight(x4 >> 1 >> 1 >> 1 >> 1, 0) == x >> 8 by { NoShift(x4 >> 1 >> 1 >> 1 >> 1, x >> 8); }
    if x & 0xFF == 0 {
      NibblesOf(x, x4);
      NibbleZeros(x4, 4);
      NibbleZeros(x, 4);
    }
  }

  lemma FourShifts(x: bv32, n: nat)
    ensures ShiftRight(x, n + 4) == ShiftRight(x >> 1 >> 1 >> 1 >> 1, n)
  {
    assert ShiftRight(x >> 1 >> 1, n + 2) == ShiftRight(x >> 1 >> 1 >> 1 >> 1, n);
  }

  lemma NoShift(x: bv32, y: bv32)
    requires x == y
    ensures ShiftRight(x, 0) == y
  {
  }

  lemma NibblesOf(x: bv32, x4: bv32)
    requires x & 0xFF == 0 && x4 == x >> 1 >> 1 >> 1 >> 1
    ensures x4 & 0xF == 0 && x & 0xF == 0
  {
  }

  // Four zero bits below n more.
  lemma NibbleZeros(x: bv32, n: nat)
    requires n == 4 && x & 0xF == 0
    ensures LowZeros(x >> 1 >> 1 >> 1 >> 1, n) ==> LowZeros(x, n + 4)
    ensures LowZeros(x, n)
  {
    assert LowZeros(x >> 1 >> 1 >> 1, 1) && LowZeros(x >> 1 >> 1, 2) && LowZeros(x >> 1, 3);
    assert LowZeros(x >> 1 >> 1 >> 1 >> 1, n) ==> LowZeros(x >> 1 >> 1 >> 1, n + 1);
    assert LowZeros(x >> 1 >> 1 >> 1, n + 1) ==> LowZeros(x >> 1 >> 1, n + 2);
    assert LowZeros(x >> 1 >> 1, n + 2) ==> LowZeros(x >> 1, n + 3);
    assert LowZeros(x >> 1, n + 3) ==> LowZeros(x, n + 4);
  }

  /// Zero bits leave without a trace.
  lemma {:induction false} ZerosLeave(x: bv32, n: nat)
    requires LowZeros(x, n)
    ensures Steps(x, n) == ShiftRight(x, n)
    decreases n
  {
    if n > 0 {
      ZerosLeave(x >> 1, n - 1);
    }
  }

  // ---- a byte at a time ------------------------------------------------------------------

  lemma LastBit(c: bv32, b: bv32)
    ensures Plus(c, b) == Plus(Plus(c, b & 1), (b >> 1) << 1) && Step((b >> 1) << 1) == b >> 1
  {
  }

  // Message bits that have not entered yet can be added to the remainder beforehand.
  lemma FeedAhead(c: bv32, b: bv32)
    ensures Step(Plus(c, b)) == Plus(FeedBit(c, b), b >> 1)
  {
    hide Step, Plus;
    LastBit(c, b);
    StepLinear(Plus(c, b & 1), (b >> 1) << 1);
  }

  lemma PlusZero(c: bv32)
    ensures Plus(c, 0) == c
  {
  }

  /// Message bits one by one are all of them added at once and as many steps.
  lemma {:induction false} FeedAtOnce(c: bv32, b: bv32, n: nat)
    requires ShiftRight(b, n) == 0
    ensures FeedBits(c, b, n) == Steps(Plus(c, b), n)
    decreases n
  {
    hide Step, Plus, FeedBit;
    if n == 0 {
      PlusZero(c);
    } else {
      FeedAhead(c, b);
      FeedAtOnce(FeedBit(c, b), b >> 1, n - 1);
    }
  }

  lemma ByteAtOnce(c: bv32, b: bv8)
    ensures FeedByte(c, b) == Steps(Plus(c, b as bv32), 8)
  {
    hide Step, Plus;
    ByteShift(b as bv32);
    assert (b as bv32) >> 8 == 0;
    FeedAtOnce(c, b as bv32, 8);
  }

  // ---- the table -------------------------------------------------------------------------

  /// kChecksumPolys, four blocks of eight rows of eight entries.
  const POLYS: seq<seq<seq<bv32>>> := [
    [[0x00000000, 0x77073096, 0xee0e612c, 0x990951ba, 0x076dc419, 0x706af48f, 0xe963a535, 0x9e6495a3],
     [0x0edb8832, 0x79dcb8a4, 0xe0d5e91e, 0x97d2d988, 0x09b64c2b, 0x7eb17cbd, 0xe7b82d07, 0x90bf1d91],
     [0x1db71064, 0x6ab020f2, 0xf3b97148, 0x84be41de, 0x1adad47d, 0x6ddde4eb, 0xf4d4b551, 0x83d385c7],
     [0x136c9856, 0x646ba8c0, 0xfd62f97a, 0x8a65c9ec, 0x14015c4f, 0x63066cd9, 0xfa0f3d63, 0x8d080df5],
     [0x3b6e20c8, 0x4c69105e, 0xd56041e4, 0xa2677172, 0x3c03e4d1, 0x4b04d447, 0xd20d85fd, 0xa50ab56b],
     [0x35b5a8fa, 0x42b2986c, 0xdbbbc9d6, 0xacbcf940, 0x32d86ce3, 0x45df5c75, 0xdcd60dcf, 0xabd13d59],
     [0x26d930ac, 0x51de003a, 0xc8d75180, 0xbfd06116, 0x21b4f4b5, 0x56b3c423, 0xcfba9599, 0xb8bda50f],
     [0x2802b89e, 0x5f058808, 0xc60cd9b2, 0xb10be924, 0x2f6f7c87, 0x58684c11, 0xc1611dab, 0xb6662d3d]],
    [[0x76dc4190, 0x01db7106, 0x98d220bc, 0xefd5102a, 0x71b18589, 0x06b6b51f, 0x9fbfe4a5, 0xe8b8d433],
     [0x7807c9a2, 0x0f00f934, 0x9609a88e, 0xe10e9818, 0x7f6a0dbb, 0x086d3d2d, 0x91646c97, 0xe6635c01],
     [0x6b6b51f4, 0x1c6c6162, 0x856530d8, 0xf262004e, 0x6c0695ed, 0x1b01a57b, 0x8208f4c1, 0xf50fc457],
     [0x65b0d9c6, 0x12b7e950, 0x8bbeb8ea, 0xfcb9887c, 0x62dd1ddf, 0x15da2d49, 0x8cd37cf3, 0xfbd44c65],
     [0x4db26158, 0x3ab551ce, 0xa3bc0074, 0xd4bb30e2, 0x4adfa541, 0x3dd895d7, 0xa4d1c46d, 0xd3d6f4fb],
     [0x4369e96a, 0x346ed9fc, 0xad678846, 0xda60b8d0, 0x44042d73, 0x33031de5, 0xaa0a4c5f, 0xdd0d7cc9],
     [0x5005713c, 0x270241aa, 0xbe0b1010, 0xc90c2086, 0x5768b525, 0x206f85b3, 0xb966d409, 0xce61e49f],
     [0x5edef90e, 0x29d9c998, 0xb0d09822, 0xc7d7a8b4, 0x59b33d17, 0x2eb40d81, 0xb7bd5c3b, 0xc0ba6cad]],
    [[0xedb88320, 0x9abfb3b6, 0x03b6e20c, 0x74b1d29a, 0xead54739, 0x9dd277af, 0x04db2615, 0x73dc1683],
     [0xe3630b12, 0x94643b84, 0x0d6d6a3e, 0x7a6a5aa8, 0xe40ecf0b, 0x9309ff9d, 0x0a00ae27, 0x7d079eb1],
     [0xf00f9344, 0x8708a3d2, 0x1e01f268, 0x6906c2fe, 0xf762575d, 0x806567cb, 0x196c3671, 0x6e6b06e7],
     [0xfed41b76, 0x89d32be0, 0x10da7a5a, 0x67dd4acc, 0xf9b9df6f, 0x8ebeeff9, 0x17b7be43, 0x60b08ed5],
     [0xd6d6a3e8, 0xa1d1937e, 0x38d8c2c4, 0x4fdff252, 0xd1bb67f1, 0xa6bc5767, 0x3fb506dd, 0x48b2364b],
     [0xd80d2bda, 0xaf0a1b4c, 0x36034af6, 0x41047a60, 0xdf60efc3, 0xa867df55, 0x316e8eef, 0x4669be79],
     [0xcb61b38c, 0xbc66831a, 0x256fd2a0, 0x5268e236, 0xcc0c7795, 0xbb0b4703, 0x220216b9, 0x5505262f],
     [0xc5ba3bbe, 0xb2bd0b28, 0x2bb45a92, 0x5cb36a04, 0xc2d7ffa7, 0xb5d0cf31, 0x2cd99e8b, 0x5bdeae1d]],
    [[0x9b64c2b0, 0xec63f226, 0x756aa39c, 0x026d930a, 0x9c0906a9, 0xeb0e363f, 0x72076785, 0x05005713],
     [0x95bf4a82, 0xe2b87a14, 0x7bb12bae, 0x0cb61b38, 0x92d28e9b, 0xe5d5be0d, 0x7cdcefb7, 0x0bdbdf21],
     [0x86d3d2d4, 0xf1d4e242, 0x68ddb3f8, 0x1fda836e, 0x81be16cd, 0xf6b9265b, 0x6fb077e1, 0x18b74777],
     [0x88085ae6, 0xff0f6a70, 0x66063bca, 0x11010b5c, 0x8f659eff, 0xf862ae69, 0x616bffd3, 0x166ccf45],
     [0xa00ae278, 0xd70dd2ee, 0x4e048354, 0x3903b3c2, 0xa7672661, 0xd06016f7, 0x4969474d, 0x3e6e77db],
     [0xaed16a4a, 0xd9d65adc, 0x40df0b66, 0x37d83bf0, 0xa9bcae53, 0xdebb9ec5, 0x47b2cf7f, 0x30b5ffe9],
     [0xbdbdf21c, 0xcabac28a, 0x53b39330, 0x24b4a3a6, 0xbad03605, 0xcdd70693, 0x54de5729, 0x23d967bf],
     [0xb3667a2e, 0xc4614ab8, 0x5d681b02, 0x2a6f2b94, 0xb40bbe37, 0xc30c8ea1, 0x5a05df1b, 0x2d02ef8d]]
  ]

  /// The entry for x as the sum of the entries for its bits.
  function Sum(x: bv32): bv32 {
    var s7 := Plus(0, if x & 0x80 != 0 then 0xedb88320 else 0);
    var s6 := Plus(s7, if x & 0x40 != 0 then 0x76dc4190 else 0);
    var s5 := Plus(s6, if x & 0x20 != 0 then 0x3b6e20c8 else 0);
    var s4 := Plus(s5, if x & 0x10 != 0 then 0x1db71064 else 0);
    var s3 := Plus(s4, if x & 0x8 != 0 then 0x0edb8832 else 0);
    var s2 := Plus(s3, if x & 0x4 != 0 then 0x076dc419 else 0);
    var s1 := Plus(s2, if x & 0x2 != 0 then 0xee0e612c else 0);
    var s0 := Plus(s1, if x & 0x1 != 0 then 0x77073096 else 0);
    s0
  }

  lemma Parts(x: bv32, b: bv32)
    ensures x == Plus(x & !b, x & b)
  {
  }

  // Bit b of x taken out.
  lemma TakeOut(x: bv32, b: bv32)
    ensures Steps(x, 8) == Plus(Steps(x & !b, 8), Steps(x & b, 8))
  {
    hide Step, Plus;
    Parts(x, b);
    StepsLinear(x & !b, x & b, 8);
  }

  lemma EightSteps(x: bv32)
    ensures Steps(x, 8) == Step(Step(Step(Step(Step(Step(Step(Step(x))))))))
  {
    hide Step;
    var x2 := Step(Step(x));
    var x4 := Step(Step(x2));
    var x6 := Step(Step(x4));
    assert Steps(x, 8) == Steps(x2, 6) == Steps(x4, 4) == Steps(x6, 2);
    assert Steps(x6, 2) == Steps(Step(x6), 1) == Steps(Step(Step(x6)), 0);
  }

  lemma Entries()
    ensures Steps(0x1, 8) == 0x77073096
    ensures Steps(0x2, 8) == 0xee0e612c
    ensures Steps(0x4, 8) == 0x076dc419
    ensures Steps(0x8, 8) == 0x0edb8832
    ensures Steps(0x10, 8) == 0x1db71064
    ensures Steps(0x20, 8) == 0x3b6e20c8
    ensures Steps(0x40, 8) == 0x76dc4190
    ensures Steps(0x80, 8) == 0xedb88320
    ensures Steps(0, 8) == 0
  {
    EightSteps(0x1);
    EightSteps(0x2);
    EightSteps(0x4);
    EightSteps(0x8);
    EightSteps(0x10);
    EightSteps(0x20);
    EightSteps(0x40);
    EightSteps(0x80);
    EightSteps(0);
  }

  lemma SumIsSteps(x: bv32)
    requires x >> 8 == 0
    ensures Steps(x, 8) == Sum(x)
  {
    hide Step, Plus;
    Entries();
    var x1 := x & !1;
    var x2 := x1 & !2;
    var x3 := x2 & !4;
    var x4 := x3 & !8;
    var x5 := x4 & !0x10;
    var x6 := x5 & !0x20;
    var x7 := x6 & !0x40;
    TakeOut(x, 1);
    TakeOut(x1, 2);
    TakeOut(x2, 4);
    TakeOut(x3, 8);
    TakeOut(x4, 0x10);
    TakeOut(x5, 0x20);
    TakeOut(x6, 0x40);
    TakeOut(x7, 0x80);
    SingleBits(x);
  }

  lemma SingleBits(x: bv32)
    requires x >> 8 == 0
    ensures (x) & 0x1 == if x & 0x1 != 0 then 0x1 else 0
    ensures (x & !0x1) & 0x2 == if x & 0x2 != 0 then 0x2 else 0
    ensures ((x & !0x1) & !0x2) & 0x4 == if x & 0x4 != 0 then 0x4 else 0
    ensures (((x & !0x1) & !0x2) & !0x4) & 0x8 == if x & 0x8 != 0 then 0x8 else 0
    ensures ((((x & !0x1) & !0x2) & !0x4) & !0x8) & 0x10 == if x & 0x10 != 0 then 0x10 else 0
    ensures (((((x & !0x1) & !0x2) & !0x4) & !0x8) & !0x10) & 0x20 == if x & 0x20 != 0 then 0x20 else 0
    ensures ((((((x & !0x1) & !0x2) & !0x4) & !0x8) & !0x10) & !0x20) & 0x40 == if x & 0x40 != 0 then 0x40 else 0
    ensures (((((((x & !0x1) & !0x2) & !0x4) & !0x8) & !0x10) & !0x20) & !0x40) & 0x80
            == if x & 0x80 != 0 then 0x80 else 0
    ensures (((((((x & !0x1) & !0x2) & !0x4) & !0x8) & !0x10) & !0x20) & !0x40) & !0x80 == 0
  {
  }

  /// The table has an entry for i.
  predicate HasRow(i: bv8) {
    |POLYS| == 4 && |POLYS[(i >> 6) as nat]| == 8 && |POLYS[(i >> 6) as nat][((i >> 3) & 7) as nat]| == 8
  }

  predicate RowIs(row: seq<bv32>, x: bv32) {
    row == [Sum(x), Sum(x | 1), Sum(x | 2), Sum(x | 3), Sum(x | 4), Sum(x | 5), Sum(x | 6), Sum(x | 7)]
  }

  lemma Rows0(i: bv8)
    requires i >> 5 == 0
    ensures HasRow(i) && RowIs(POLYS[(i >> 6) as nat][((i >> 3) & 7) as nat], (i & 0xF8) as bv32)
  {
    if i >> 3 == 0 { assert RowIs(POLYS[0][0], 0x0); }
    else if i >> 3 == 1 { assert RowIs(POLYS[0][1], 0x8); }
    else if i >> 3 == 2 { assert RowIs(POLYS[0][2], 0x10); }
    else if i >> 3 == 3 { assert RowIs(POLYS[0][3], 0x18); }
  }

  lemma Rows1(i: bv8)
    requires i >> 5 == 1
    ensures HasRow(i) && RowIs(POLYS[(i >> 6) as nat][((i >> 3) & 7) as nat], (i & 0xF8) as bv32)
  {
    if i >> 3 == 4 { assert RowIs(POLYS[0][4], 0x20); }
    else if i >> 3 == 5 { assert RowIs(POLYS[0][5], 0x28); }
    else if i >> 3 == 6 { assert RowIs(POLYS[0][6], 0x30); }
    else if i >> 3 == 7 { assert RowIs(POLYS[0][7], 0x38); }
  }

  lemma Rows2(i: bv8)
    requires i >> 5 == 2
    ensures HasRow(i) && RowIs(POLYS[(i >> 6) as nat][((i >> 3) & 7) as nat], (i & 0xF8) as bv32)
  {
    if i >> 3 == 8 { assert RowIs(POLYS[1][0], 0x40); }
    else if i >> 3 == 9 { assert RowIs(POLYS[1][1], 0x48); }
    else if i >> 3 == 10 { assert RowIs(POLYS[1][2], 0x50); }
    else if i >> 3 == 11 { assert RowIs(POLYS[1][3], 0x58); }
  }

  lemma Rows3(i: bv8)
    requires i >> 5 == 3
    ensures HasRow(i) && RowIs(POLYS[(i >> 6) as nat][((i >> 3) & 7) as nat], (i & 0xF8) as bv32)
  {
    if i >> 3 == 12 { assert RowIs(POLYS[1][4], 0x60); }
    else if i >> 3 == 13 { assert RowIs(POLYS[1][5], 0x68); }
    else if i >> 3 == 14 { assert RowIs(POLYS[1][6], 0x70); }
    else if i >> 3 == 15 { assert RowIs(POLYS[1][7], 0x78); }
  }

  lemma Rows4(i: bv8)
    requires i >> 5 == 4
    ensures HasRow(i) && RowIs(POLYS[(i >> 6) as nat][((i >> 3) & 7) as nat], (i & 0xF8) as bv32)
  {
    if i >> 3 == 16 { assert RowIs(POLYS[2][0], 0x80); }
    else if i >> 3 == 17 { assert RowIs(POLYS[2][1], 0x88); }
    else if i >> 3 == 18 { assert RowIs(POLYS[2][2], 0x90); }
    else if i >> 3 == 19 { assert RowIs(POLYS[2][3], 0x98); }
  }

  lemma Rows5(i: bv8)
    requires i >> 5 == 5
    ensures HasRow(i) && RowIs(POLYS[(i >> 6) as nat][((i >> 3) & 7) as nat], (i & 0xF8) as bv32)
  {
    if i >> 3 == 20 { assert RowIs(POLYS[2][4], 0xa0); }
    else if i >> 3 == 21 { assert RowIs(POLYS[2][5], 0xa8); }
    else if i >> 3 == 22 { assert RowIs(POLYS[2][6], 0xb0); }
    else if i >> 3 == 23 { assert RowIs(POLYS[2][7], 0xb8); }
  }

  lemma Rows6(i: bv8)
    requires i >> 5 == 6
    ensures HasRow(i) && RowIs(POLYS[(i >> 6) as nat][((i >> 3) & 7) as nat], (i & 0xF8) as bv32)
  {
    if i >> 3 == 24 { assert RowIs(POLYS[3][0], 0xc0); }
    else if i >> 3 == 25 { assert RowIs(POLYS[3][1], 0xc8); }
    else if i >> 3 == 26 { assert RowIs(POLYS[3][2], 0xd0); }
    else if i >> 3 == 27 { assert RowIs(POLYS[3][3], 0xd8); }
  }

  lemma Rows7(i: bv8)
    requires i >> 5 == 7
    ensures HasRow(i) && RowIs(POLYS[(i >> 6) as nat][((i >> 3) & 7) as nat], (i & 0xF8) as bv32)
  {
    if i >> 3 == 28 { assert RowIs(POLYS[3][4], 0xe0); }
    else if i >> 3 == 29 { assert RowIs(POLYS[3][5], 0xe8); }
    else if i >> 3 == 30 { assert RowIs(POLYS[3][6], 0xf0); }
    else if i >> 3 == 31 { assert RowIs(POLYS[3][7], 0xf8); }
  }

  lemma InRow(row: seq<bv32>, i: bv8)
    requires RowIs(row, (i & 0xF8) as bv32)
    ensures row[(i & 7) as nat] == Sum(i as bv32)
  {
    var c := i & 7;
    assert c == 0 || c == 1 || c == 2 || c == 3 || c == 4 || c == 5 || c == 6 || c == 7;
  }

  /// kChecksumPolys[i]
  function Poly(i: bv8): bv32
    requires HasRow(i)
  {
    POLYS[(i >> 6) as nat][((i >> 3) & 7) as nat][(i & 7) as nat]
  }

  /// Every one of the 256 entries is the remainder of its index after eight steps.
  lemma TableIsSteps(i: bv8)
    ensures HasRow(i)
    ensures Poly(i) == Steps(i as bv32, 8)
  {
    hide Step, Plus, Sum;
    var r := i >> 5;
    if r == 0 {
      Rows0(i);
    } else if r == 1 {
      Rows1(i);
    } else if r == 2 {
      Rows2(i);
    } else if r == 3 {
      Rows3(i);
    } else if r == 4 {
      Rows4(i);
    } else if r == 5 {
      Rows5(i);
    } else if r == 6 {
      Rows6(i);
    } else {
      Rows7(i);
    }
    InRow(POLYS[(i >> 6) as nat][((i >> 3) & 7) as nat], i);
    SumIsSteps(i as bv32);
  }

  // ---- the table-driven loop -------------------------------------------------------------

  /// A char in an expression with a 32-bit operand.
  function SignExtended(b: bv8): bv32 {
    if b & 0x80 != 0 then 0xffff_ff00 | (b as bv32) else b as bv32
  }

  /// `(crc ^ *in) & 0xFF`
  function TableIndex(c: bv32, b: bv8): bv8 {
    ((c ^ SignExtended(b)) & 0xFF) as bv8
  }

  lemma SplitIndex(c: bv32, b: bv8)
    ensures var x := Plus(c, b as bv32);
            x == Plus(x & 0xffff_ff00, TableIndex(c, b) as bv32) && (x & 0xffff_ff00) & 0xFF == 0
              && (x & 0xffff_ff00) >> 8 == c >> 8
    ensures (b as bv32) >> 8 == 0
  {
  }

  /// One round of the loop is one byte of the division.
  lemma TableRound(c: bv32, b: bv8)
    ensures HasRow(TableIndex(c, b))
    ensures Plus(c >> 8, Poly(TableIndex(c, b))) == FeedByte(c, b)
  {
    hide Step, Plus, TableIndex;
    TableIsSteps(TableIndex(c, b));
    ByteAtOnce(c, b);
    SplitSteps(c, b, Plus(c, b as bv32) & 0xffff_ff00, TableIndex(c, b) as bv32);
  }

  lemma SplitSteps(c: bv32, b: bv8, high: bv32, low: bv32)
    requires high == Plus(c, b as bv32) & 0xffff_ff00 && low == TableIndex(c, b) as bv32
    ensures Steps(Plus(c, b as bv32), 8) == Plus(c >> 8, Steps(low, 8))
  {
    hide Step, Plus, TableIndex;
    SplitIndex(c, b);
    ByteShift(high);
    ZerosLeave(high, 8);
    StepsLinear(high, low, 8);
  }

  /// ke_calculate_crc32; None is a null pointer, and a negative length reads nothing.
  method CalculateCrc32(input: Option<seq<bv8>>, len: int) returns (crc: bv32)
    requires input.Some? ==> len <= |input.value|
    ensures crc == if input.None? then 0xffff_ffff else Checksum(if len < 0 then [] else input.value[..len])
  {
    if input.None? {
      return 0xffff_ffff;
    }
    hide FeedByte;
    crc := 0xffff_ffff;
    var s := input.value[..if len < 0 then 0 else len];
    var i := 0;
    while i < len
      invariant 0 <= i <= |s|
      invariant Divide(crc, s[i..]) == Divide(0xffff_ffff, s)
    {
      TableRound(crc, s[i]);
      assert s[i..][1..] == s[i + 1..];
      crc := Plus(crc >> 8, Poly(TableIndex(crc, s[i])));
      i := i + 1;
    }
    crc := Complement(crc);
  }

  // ---- what the checksum detects ---------------------------------------------------------

  lemma {:induction false} DivideConcat(c: bv32, s: seq<bv8>, t: seq<bv8>)
    ensures Divide(c, s + t) == Divide(Divide(c, s), t)
    decreases |s|
  {
    if s == [] {
      assert s + t == t;
    } else {
      hide FeedByte;
      assert (s + t)[1..] == s[1..] + t && (s + t)[0] == s[0];
      DivideConcat(FeedByte(c, s[0]), s[1..], t);
    }
  }

  lemma Cancel(c: bv32, d: bv32, b: bv32)
    requires Plus(c, b) == Plus(d, b)
    ensures c == d
  {
  }

  lemma FeedInjective(c: bv32, d: bv32, b: bv8)
    requires FeedByte(c, b) == FeedByte(d, b)
    ensures c == d
  {
    hide Step, Plus, FeedByte;
    ByteAtOnce(c, b);
    ByteAtOnce(d, b);
    StepsInjective(Plus(c, b as bv32), Plus(d, b as bv32), 8);
    Cancel(c, d, b as bv32);
  }

  /// Nothing fed later makes two different remainders equal again.
  lemma {:induction false} DivideInjective(c: bv32, d: bv32, s: seq<bv8>)
    requires Divide(c, s) == Divide(d, s)
    ensures c == d
    decreases |s|
  {
    hide FeedByte;
    if s != [] {
      DivideInjective(FeedByte(c, s[0]), FeedByte(d, s[0]), s[1..]);
      FeedInjective(c, d, s[0]);
    }
  }

  /// Bytes as the number they stand for, lowest first.
  function Low(b: bv8, y: bv32): bv32 { Plus(b as bv32, y << 8) }
  function Number(a: bv8, b: bv8, c: bv8, d: bv8): bv32 { Low(a, Low(b, Low(c, d as bv32))) }

  lemma NumberInjective(a: bv8, b: bv8, c: bv8, d: bv8, a': bv8, b': bv8, c': bv8, d': bv8)
    requires Number(a, b, c, d) == Number(a', b', c', d')
    ensures a == a' && b == b' && c == c' && d == d'
  {
  }

  lemma PlusAssociative(x: bv32, y: bv32, z: bv32)
    ensures Plus(Plus(x, y), z) == Plus(x, Plus(y, z))
  {
  }

  lemma ShiftedUp(y: bv32)
    requires y >> 24 == 0
    ensures (y << 8) & 0xFF == 0 && (y << 8) >> 8 == y
  {
  }

  lemma LowParts(x: bv32, a: bv8, y: bv32)
    ensures Plus(Plus(x, a as bv32), y << 8) == Plus(x, Low(a, y))
  {
    hide Plus;
    PlusAssociative(x, a as bv32, y << 8);
  }

  // A byte and the bits that follow it, fed together.
  lemma FeedThen(x: bv32, a: bv8, y: bv32)
    requires y >> 24 == 0
    ensures Plus(FeedByte(x, a), y) == Steps(Plus(x, Low(a, y)), 8)
  {
    hide Step, Plus, FeedByte, Low;
    ByteAtOnce(x, a);
    LowParts(x, a, y);
    ShiftedUp(y);
    ByteShift(y << 8);
    ZerosLeave(y << 8, 8);
    StepsLinear(Plus(x, a as bv32), y << 8, 8);
  }

  lemma Room(b: bv8, c: bv8, d: bv8)
    ensures (d as bv32) >> 24 == 0 && Low(c, d as bv32) >> 24 == 0 && Low(b, Low(c, d as bv32)) >> 24 == 0
  {
  }

  /// Four bytes are divided like the one number they stand for.
  lemma FourBytes(x: bv32, a: bv8, b: bv8, c: bv8, d: bv8)
    ensures FeedByte(FeedByte(FeedByte(FeedByte(x, a), b), c), d)
            == Steps(Steps(Steps(Steps(Plus(x, Number(a, b, c, d)), 8), 8), 8), 8)
  {
    hide Step, Plus, FeedByte, Low;
    var x1 := FeedByte(x, a);
    var x2 := FeedByte(x1, b);
    var x3 := FeedByte(x2, c);
    Room(b, c, d);
    ByteAtOnce(x3, d);
    FeedThen(x2, c, d as bv32);
    FeedThen(x1, b, Low(c, d as bv32));
    FeedThen(x, a, Low(b, Low(c, d as bv32)));
  }

  lemma FourFeeds(x: bv32, s: seq<bv8>)
    requires |s| == 4
    ensures Divide(x, s) == FeedByte(FeedByte(FeedByte(FeedByte(x, s[0]), s[1]), s[2]), s[3])
  {
    hide FeedByte;
    var t := s[1..];
    var u := t[1..];
    var v := u[1..];
    var x1 := FeedByte(x, s[0]);
    var x2 := FeedByte(x1, t[0]);
    var x3 := FeedByte(x2, u[0]);
    assert Divide(x, s) == Divide(x1, t);
    assert Divide(x1, t) == Divide(x2, u);
    assert Divide(x2, u) == Divide(x3, v);
    assert Divide(x3, v) == Divide(FeedByte(x3, v[0]), v[1..]);
    assert t[0] == s[1] && u[0] == s[2] && v[0] == s[3] && v[1..] == [];
  }

  lemma FourBytesInjective(x: bv32, s: seq<bv8>, t: seq<bv8>)
    requires |s| == |t| == 4 && Divide(x, s) == Divide(x, t)
    ensures s == t
  {
    hide FeedByte, Plus, Step, Number;
    FourFeeds(x, s);
    FourFeeds(x, t);
    FourBytes(x, s[0], s[1], s[2], s[3]);
    FourBytes(x, t[0], t[1], t[2], t[3]);
    UndoSteps(x, Number(s[0], s[1], s[2], s[3]), Number(t[0], t[1], t[2], t[3]));
    NumberInjective(s[0], s[1], s[2], s[3], t[0], t[1], t[2], t[3]);
  }

  lemma CancelLeft(x: bv32, m: bv32, n: bv32)
    requires Plus(x, m) == Plus(x, n)
    ensures m == n
  {
  }

  lemma UndoSteps(x: bv32, m: bv32, n: bv32)
    requires Steps(Steps(Steps(Steps(Plus(x, m), 8), 8), 8), 8) == Steps(Steps(Steps(Steps(Plus(x, n), 8), 8), 8), 8)
    ensures m == n
  {
    hide Step, Plus;
    var m1, n1 := Steps(Plus(x, m), 8), Steps(Plus(x, n), 8);
    var m2, n2 := Steps(m1, 8), Steps(n1, 8);
    StepsInjective(Steps(m2, 8), Steps(n2, 8), 8);
    StepsInjective(m2, n2, 8);
    StepsInjective(m1, n1, 8);
    StepsInjective(Plus(x, m), Plus(x, n), 8);
    CancelLeft(x, m, n);
  }

  lemma NotInjective(d: bv32, e: bv32)
    requires Complement(d) == Complement(e)
    ensures d == e
  {
  }

  lemma SameRemainder(s: seq<bv8>, t: seq<bv8>)
    requires Checksum(s) == Checksum(t)
    ensures Divide(0xffff_ffff, s) == Divide(0xffff_ffff, t)
  {
    hide Divide, Complement;
    NotInjective(Divide(0xffff_ffff, s), Divide(0xffff_ffff, t));
  }

  // ---- the message as bits ---------------------------------------------------------------

  function Mask(k: nat): bv8
    requires k < 8
  {
    match k
    case 0 => 1 case 1 => 2 case 2 => 4 case 3 => 8 case 4 => 16 case 5 => 32 case 6 => 64 case 7 => 128
  }

  /// Bit q of a message, in the order in which the division takes them: each byte lowest bit first.
  predicate MessageBit(s: seq<bv8>, q: nat)
    requires q < 8 * |s|
  {
    s[q / 8] & Mask(q % 8) != 0
  }

  function BitsOf(s: seq<bv8>): (bits: seq<bool>)
    ensures |bits| == 8 * |s|
  {
    seq(8 * |s|, q requires 0 <= q < 8 * |s| => MessageBit(s, q))
  }

  function DivideBits(c: bv32, bits: seq<bool>): bv32
    decreases |bits|
  {
    if bits == [] then c else DivideBits(Step(Plus(c, if bits[0] then 1 else 0)), bits[1..])
  }

  lemma {:induction false} DivideBitsConcat(c: bv32, u: seq<bool>, v: seq<bool>)
    ensures DivideBits(c, u + v) == DivideBits(DivideBits(c, u), v)
    decreases |u|
  {
    hide Step, Plus;
    if u == [] {
      assert u + v == v;
    } else {
      assert (u + v)[1..] == u[1..] + v;
      DivideBitsConcat(Step(Plus(c, if u[0] then 1 else 0)), u[1..], v);
    }
  }

  lemma {:induction false} DivideBitsInjective(c: bv32, d: bv32, bits: seq<bool>)
    requires DivideBits(c, bits) == DivideBits(d, bits)
    ensures c == d
    decreases |bits|
  {
    hide Step, Plus;
    if bits != [] {
      var b := if bits[0] then 1 else 0;
      DivideBitsInjective(Step(Plus(c, b)), Step(Plus(d, b)), bits[1..]);
      StepInjective(Plus(c, b), Plus(d, b));
      Cancel(c, d, b);
    }
  }

  // The lowest n bits of b.
  function LowBits(b: bv32, n: nat): (bits: seq<bool>)
    ensures |bits| == n
    decreases n
  {
    if n == 0 then [] else [b & 1 == 1] + LowBits(b >> 1, n - 1)
  }

  lemma {:induction false} FeedsBits(c: bv32, b: bv32, n: nat)
    ensures FeedBits(c, b, n) == DivideBits(c, LowBits(b, n))
    decreases n
  {
    hide Step, Plus;
    if n > 0 {
      assert b & 1 == if b & 1 == 1 then 1 else 0;
      assert LowBits(b, n)[1..] == LowBits(b >> 1, n - 1);
      FeedsBits(FeedBit(c, b), b >> 1, n - 1);
    }
  }

  lemma ShiftedBits(b: bv8, x: bv32)
    requires x == b as bv32
    ensures (x) & 1 == 1 <==> b & 1 != 0
    ensures (x >> 1) & 1 == 1 <==> b & 2 != 0
    ensures (x >> 1 >> 1) & 1 == 1 <==> b & 4 != 0
    ensures (x >> 1 >> 1 >> 1) & 1 == 1 <==> b & 8 != 0
    ensures (x >> 1 >> 1 >> 1 >> 1) & 1 == 1 <==> b & 16 != 0
    ensures (x >> 1 >> 1 >> 1 >> 1 >> 1) & 1 == 1 <==> b & 32 != 0
    ensures (x >> 1 >> 1 >> 1 >> 1 >> 1 >> 1) & 1 == 1 <==> b & 64 != 0
    ensures (x >> 1 >> 1 >> 1 >> 1 >> 1 >> 1 >> 1) & 1 == 1 <==> b & 128 != 0
  {
  }

  lemma LowBitsCons(x: bv32, n: nat)
    ensures LowBits(x, n + 1) == [x & 1 == 1] + LowBits(x >> 1, n)
  {
  }

  lemma FourInFront(a: bool, b: bool, c: bool, d: bool, rest: seq<bool>)
    ensures [a] + ([b] + ([c] + ([d] + rest))) == [a, b, c, d] + rest
  {
  }

  lemma FourLowBits(x: bv32, n: nat)
    ensures LowBits(x, n + 4)
            == [x & 1 == 1, (x >> 1) & 1 == 1, (x >> 1 >> 1) & 1 == 1, (x >> 1 >> 1 >> 1) & 1 == 1]
               + LowBits(x >> 1 >> 1 >> 1 >> 1, n)
  {
    hide LowBits;
    var x1 := x >> 1;
    var x2 := x1 >> 1;
    var x3 := x2 >> 1;
    LowBitsCons(x, n + 3);
    LowBitsCons(x1, n + 2);
    LowBitsCons(x2, n + 1);
    LowBitsCons(x3, n);
    FourInFront(x & 1 == 1, x1 & 1 == 1, x2 & 1 == 1, x3 & 1 == 1, LowBits(x3 >> 1, n));
  }

  lemma ByteBits(b: bv8)
    ensures BitsOf([b]) == LowBits(b as bv32, 8)
  {
    hide BitsOf, LowBits;
    var x := b as bv32;
    var x4 := x >> 1 >> 1 >> 1 >> 1;
    ShiftedBits(b, x);
    FourLowBits(x, 4);
    FourLowBits(x4, 0);
    ByteOfBits(b, LowBits(x, 8));
  }

  // A byte has the bits u, one by one.
  lemma ByteOfBits(b: bv8, u: seq<bool>)
    requires |u| == 8
    requires u[0] == (b & 1 != 0) && u[1] == (b & 2 != 0) && u[2] == (b & 4 != 0) && u[3] == (b & 8 != 0)
    requires u[4] == (b & 16 != 0) && u[5] == (b & 32 != 0) && u[6] == (b & 64 != 0) && u[7] == (b & 128 != 0)
    ensures BitsOf([b]) == u
  {
    forall q: nat | q < 8
      ensures BitsOf([b])[q] == u[q]
    {
      hide BitsOf;
      OneBit(b, q);
    }
  }

  lemma OneBit(b: bv8, q: nat)
    requires q < 8
    ensures BitsOf([b])[q] == (b & Mask(q) != 0)
  {
    hide Mask;
  }

  lemma BitsConcat(s: seq<bv8>, t: seq<bv8>)
    ensures BitsOf(s + t) == BitsOf(s) + BitsOf(t)
  {
    forall q: nat | q < 8 * |s + t|
      ensures BitsOf(s + t)[q] == (BitsOf(s) + BitsOf(t))[q]
    {
      if q >= 8 * |s| {
        assert q / 8 == |s| + (q - 8 * |s|) / 8 && q % 8 == (q - 8 * |s|) % 8;
      }
    }
  }

  /// Dividing by bytes is dividing by bits.
  lemma {:induction false} DividesBits(c: bv32, s: seq<bv8>)
    ensures Divide(c, s) == DivideBits(c, BitsOf(s))
    decreases |s|
  {
    hide FeedBits, Step, Plus;
    if s != [] {
      assert s == [s[0]] + s[1..];
      BitsConcat([s[0]], s[1..]);
      ByteBits(s[0]);
      FeedsBits(c, s[0] as bv32, 8);
      DivideBitsConcat(c, BitsOf([s[0]]), BitsOf(s[1..]));
      DividesBits(FeedByte(c, s[0]), s[1..]);
    }
  }

  function BitIf(b: bool, m: bv8): bv8 { if b then m else 0 }

  /// The byte of eight bits, lowest first.
  function Pack(u: seq<bool>): bv8
    requires |u| == 8
  {
    BitIf(u[0], 1) | BitIf(u[1], 2) | BitIf(u[2], 4) | BitIf(u[3], 8)
    | BitIf(u[4], 16) | BitIf(u[5], 32) | BitIf(u[6], 64) | BitIf(u[7], 128)
  }

  lemma PackBits(u: seq<bool>)
    requires |u| == 8
    ensures BitsOf([Pack(u)]) == u
  {
    var b := Pack(u);
    assert u[0] == (b & 1 != 0) && u[1] == (b & 2 != 0) && u[2] == (b & 4 != 0) && u[3] == (b & 8 != 0);
    assert u[4] == (b & 16 != 0) && u[5] == (b & 32 != 0) && u[6] == (b & 64 != 0) && u[7] == (b & 128 != 0);
    ByteOfBits(b, u);
  }

  /// 32 bits, wherever they start, are the bits of four bytes.
  lemma FourOf(u: seq<bool>) returns (s: seq<bv8>)
    requires |u| == 32
    ensures |s| == 4 && BitsOf(s) == u
  {
    hide Pack, BitsOf;
    var a, b, c, d := Pack(u[..8]), Pack(u[8..16]), Pack(u[16..24]), Pack(u[24..]);
    s := [a] + [b] + [c] + [d];
    PackBits(u[..8]);
    PackBits(u[8..16]);
    PackBits(u[16..24]);
    PackBits(u[24..]);
    BitsConcat([a], [b]);
    BitsConcat([a] + [b], [c]);
    BitsConcat([a] + [b] + [c], [d]);
    assert u == u[..8] + u[8..16] + u[16..24] + u[24..];
  }

  lemma WindowInjective(x: bv32, u: seq<bool>, v: seq<bool>)
    requires |u| == |v| == 32 && DivideBits(x, u) == DivideBits(x, v)
    ensures u == v
  {
    var s := FourOf(u);
    var t := FourOf(v);
    DividesBits(x, s);
    DividesBits(x, t);
    FourBytesInjective(x, s, t);
  }

  lemma InThree(c: bv32, u: seq<bool>, p: nat)
    requires p + 32 <= |u|
    ensures DivideBits(c, u) == DivideBits(DivideBits(DivideBits(c, u[..p]), u[p..p + 32]), u[p + 32..])
    ensures u == u[..p] + u[p..p + 32] + u[p + 32..]
  {
    assert u == u[..p] + u[p..p + 32] + u[p + 32..];
    DivideBitsConcat(c, u[..p] + u[p..p + 32], u[p + 32..]);
    DivideBitsConcat(c, u[..p], u[p..p + 32]);
  }

  lemma SameDivision(c: bv32, u: seq<bool>, v: seq<bool>, p: nat)
    requires |u| == |v| && p + 32 <= |u| && u[..p] == v[..p] && u[p + 32..] == v[p + 32..]
    requires DivideBits(c, u) == DivideBits(c, v)
    ensures u == v
  {
    hide DivideBits;
    var d := DivideBits(c, u[..p]);
    InThree(c, u, p);
    InThree(c, v, p);
    DivideBitsInjective(DivideBits(d, u[p..p + 32]), DivideBits(d, v[p..p + 32]), u[p + 32..]);
    WindowInjective(d, u[p..p + 32], v[p..p + 32]);
  }

  // Four zero bytes behind the message make room for a burst at its end.
  lemma Extended(s: seq<bv8>, t: seq<bv8>, p: nat, z: seq<bv8>)
    requires |s| == |t| && |z| == 4 && p < 8 * |s|
    requires forall q: nat | q < 8 * |s| && !(p <= q < p + 32) :: MessageBit(s, q) == MessageBit(t, q)
    ensures var u, v := BitsOf(s + z), BitsOf(t + z);
            && |u| == |v| && p + 32 <= |u| && u[..p] == v[..p] && u[p + 32..] == v[p + 32..]
  {
    hide MessageBit;
    BitsConcat(s, z);
    BitsConcat(t, z);
    var a, b, w := BitsOf(s), BitsOf(t), BitsOf(z);
    var u, v := a + w, b + w;
    forall q: nat | q < |u| && !(p <= q < p + 32)
      ensures u[q] == v[q]
    {
      if q < |a| {
        assert a[q] == MessageBit(s, q) && b[q] == MessageBit(t, q);
      }
    }
  }

  lemma {:induction false} BitsInjective(s: seq<bv8>, t: seq<bv8>)
    requires |s| == |t| && BitsOf(s) == BitsOf(t)
    ensures s == t
    decreases |s|
  {
    if s != [] {
      assert s == [s[0]] + s[1..] && t == [t[0]] + t[1..];
      BitsConcat([s[0]], s[1..]);
      BitsConcat([t[0]], t[1..]);
      assert BitsOf([s[0]]) == BitsOf(s)[..8] == BitsOf([t[0]]);
      assert BitsOf(s[1..]) == BitsOf(s)[8..] == BitsOf(t[1..]);
      ByteInjective(s[0], t[0]);
      BitsInjective(s[1..], t[1..]);
    }
  }

  lemma ByteInjective(a: bv8, b: bv8)
    requires BitsOf([a]) == BitsOf([b])
    ensures a == b
  {
    var u, v := BitsOf([a]), BitsOf([b]);
    assert u[0] == v[0] && u[1] == v[1] && u[2] == v[2] && u[3] == v[3];
    assert u[4] == v[4] && u[5] == v[5] && u[6] == v[6] && u[7] == v[7];
    assert (a & 1 != 0) == (b & 1 != 0) && (a & 2 != 0) == (b & 2 != 0) && (a & 4 != 0) == (b & 4 != 0);
    assert (a & 8 != 0) == (b & 8 != 0) && (a & 16 != 0) == (b & 16 != 0) && (a & 32 != 0) == (b & 32 != 0);
    assert (a & 64 != 0) == (b & 64 != 0) && (a & 128 != 0) == (b & 128 != 0);
  }

  /// Two buffers of the same length that differ, but only inside 32 consecutive bits, wherever these
  /// start, never have the same checksum.
  lemma BurstsDetected(s: seq<bv8>, t: seq<bv8>, p: nat)
    requires |s| == |t| && s != t
    requires forall q: nat | q < 8 * |s| && !(p <= q < p + 32) :: MessageBit(s, q) == MessageBit(t, q)
    ensures Checksum(s) != Checksum(t)
  {
    hide Checksum, Divide, DivideBits, MessageBit;
    if p >= 8 * |s| {
      assert BitsOf(s) == BitsOf(t);
      BitsInjective(s, t);
    } else if Checksum(s) == Checksum(t) {
      SameRemainder(s, t);
      var z: seq<bv8>, ones: bv32 := [0, 0, 0, 0], 0xffff_ffff;
      DivideConcat(ones, s, z);
      DivideConcat(ones, t, z);
      DividesBits(ones, s + z);
      DividesBits(ones, t + z);
      Extended(s, t, p, z);
      SameDivision(ones, BitsOf(s + z), BitsOf(t + z), p);
      assert s == (s + z)[..|s|] && t == (t + z)[..|t|];
      BitsInjective(s + z, t + z);
    }
  }

  // ---- a message with its checksum -------------------------------------------------------

  /// The bytes of a number, lowest first.
  function LowestFirst(x: bv32): seq<bv8> {
    [(x & 0xFF) as bv8, ((x >> 8) & 0xFF) as bv8, ((x >> 16) & 0xFF) as bv8, ((x >> 24) & 0xFF) as bv8]
  }

  lemma NumberBack(x: bv32)
    ensures var s := LowestFirst(x); Number(s[0], s[1], s[2], s[3]) == x
  {
  }

  lemma StepsInRow(a: bv32, b: bv32, c: bv32, d: bv32, e: bv32, f: bv32, g: bv32, h: bv32)
    requires b == Step(a) && c == Step(b) && d == Step(c) && e == Step(d)
    requires f == Step(e) && g == Step(f) && h == Step(g)
    ensures Steps(a, 8) == Step(h)
  {
    hide Step;
    EightSteps(a);
  }

  lemma Ones0()
    ensures Steps(0xffff_ffff, 8) == 0x2dfd_1072
  {
    StepsInRow(0xffff_ffff, 0x9247_7cdf, 0xa49b_3d4f, 0xbff5_1d87,
               0xb242_0de3, 0xb499_85d1, 0xb7f4_41c8, 0x5bfa_20e4);
  }

  lemma Ones1()
    ensures Steps(0x2dfd_1072, 8) == 0xbe26_ed00
  {
    StepsInRow(0x2dfd_1072, 0x16fe_8839, 0xe6c7_c73c, 0x7363_e39e,
               0x39b1_f1cf, 0xf160_7bc7, 0x9508_bec3, 0xa73c_dc41);
  }

  lemma Ones2()
    ensures Steps(0xbe26_ed00, 8) == 0x00be_26ed
  {
    StepsInRow(0xbe26_ed00, 0x5f13_7680, 0x2f89_bb40, 0x17c4_dda0,
               0x0be2_6ed0, 0x05f1_3768, 0x02f8_9bb4, 0x017c_4dda);
  }

  lemma Ones3()
    ensures Steps(0x00be_26ed, 8) == 0xdebb_20e3
  {
    StepsInRow(0x00be_26ed, 0xede7_9056, 0x76f3_c82b, 0xd6c1_6735,
               0x86d8_30ba, 0x436c_185d, 0xcc0e_8f0e, 0x6607_4787);
  }

  lemma ComplementSum(x: bv32)
    ensures Plus(x, Complement(x)) == 0xffff_ffff
  {
  }

  /// A message followed by its checksum, lowest byte first, always leaves the same remainder.
  lemma Residue(s: seq<bv8>)
    ensures Divide(0xffff_ffff, s + LowestFirst(Checksum(s))) == 0xdebb_20e3
  {
    hide Step, Plus, FeedByte, Number, Complement, LowestFirst;
    var c := Divide(0xffff_ffff, s);
    var t := LowestFirst(Checksum(s));
    assert |t| == 4 && Number(t[0], t[1], t[2], t[3]) == Complement(c) by {
      FourLong(Checksum(s));
      NumberBack(Checksum(s));
    }
    DivideConcat(0xffff_ffff, s, t);
    FourFeeds(c, t);
    FourBytes(c, t[0], t[1], t[2], t[3]);
    ComplementSum(c);
    Ones0();
    Ones1();
    Ones2();
    Ones3();
  }

  lemma FourLong(x: bv32)
    ensures |LowestFirst(x)| == 4
  {
  }

  lemma NothingSums()
    ensures Checksum([]) == 0
  {
  }
}
