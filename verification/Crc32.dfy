/**
 The table-driven CRC-32 of crc32.h against bit-by-bit division by the reflected
 polynomial, the CRC-32 of section 8 of RFC 1952.
 */
module Crc32 {
  import opened Memory

  const POLYNOMIAL: bv32 := 0xEDB8_8320

  function Odd(x: bv32): bool {
    x & 1 != 0
  }

  function Half(x: bv32): bv32 {
    x >> 1
  }

  function Xor(x: bv32, y: bv32): bv32 {
    x ^ y
  }

  /** The shift register takes one message bit. */
  function Shift(c: bv32, bit: bool): bv32 {
    if Odd(c) != bit then Xor(POLYNOMIAL, Half(c)) else Half(c)
  }

  /** A message byte, low bit first: the n bits from x's lowest on. */
  ghost function ShiftBits(c: bv32, x: bv32, n: nat): bv32
    decreases n
  {
    if n == 0 then c else ShiftBits(Shift(c, Odd(x)), Half(x), n - 1)
  }

  /** Division of a whole message, bit by bit. */
  ghost function Divide(c: bv32, s: seq<Byte>): bv32 {
    if s == [] then c else
      ShiftBits(Divide(c, s[..|s| - 1]), s[|s| - 1] as bv32, 8)
  }

  /** The checksum of s on top of a checksum so far; the register is kept inverted between calls. */
  ghost function Crc(initial: bv32, s: seq<Byte>): bv32 {
    Xor(Divide(Xor(initial, 0xFFFF_FFFF), s), 0xFFFF_FFFF)
  }

  /** The body of generate_table's inner loop. */
  function Step(c: bv32): bv32 {
    if Odd(c) then Xor(POLYNOMIAL, Half(c)) else Half(c)
  }

  ghost function Steps(c: bv32, n: nat): bv32
    decreases n
  {
    if n == 0 then c else Steps(Step(c), n - 1)
  }

  lemma StepTakesBit(c: bv32, x: bv32)
    ensures Step(Xor(c, x)) == Xor(Shift(c, Odd(x)), Half(x))
  {
    HalfXor(c, x);
    XorAssoc(POLYNOMIAL, Half(c), Half(x));
    hide Xor, Half, Odd;
  }

  /** n steps of the register with the bits xored in beforehand, against feeding them one at a time. */
  lemma {:induction false} StepsTakeBits(c: bv32, x: bv32, n: nat)
    ensures Steps(Xor(c, x), n) == Xor(ShiftBits(c, x, n), Rest(x, n))
    decreases n
  {
    hide Shift, Step, Xor, Half, Odd;
    if n > 0 {
      StepTakesBit(c, x);
      StepsTakeBits(Shift(c, Odd(x)), Half(x), n - 1);
    }
  }

  ghost function Rest(x: bv32, n: nat): bv32
    decreases n
  {
    if n == 0 then x else Rest(Half(x), n - 1)
  }

  lemma EightGone(x: bv32)
    requires x <= 0xFF
    ensures Rest(x, 8) == 0
  {
    var y := x >> 1 >> 1 >> 1 >> 1;
    assert Rest(y, 4) == Rest(y >> 1, 3) == Rest(y >> 1 >> 1, 2) == Rest(y >> 1 >> 1 >> 1, 1);
    assert Rest(x, 8) == Rest(x >> 1, 7) == Rest(x >> 1 >> 1, 6) == Rest(x >> 1 >> 1 >> 1, 5);
  }

  /** Feeding a byte is xoring it in and stepping eight times. */
  lemma {:induction false} ByteStep(c: bv32, b: Byte)
    ensures ShiftBits(c, b as bv32, 8) == Steps(Xor(c, b as bv32), 8)
  {
    hide Steps, ShiftBits, Rest;
    StepsTakeBits(c, b as bv32, 8);
    EightGone(b as bv32);
    XorZero(ShiftBits(c, b as bv32, 8));
  }

  lemma XorZero(x: bv32)
    ensures Xor(x, 0) == x
  {
  }

  lemma StepXor(c: bv32, d: bv32)
    ensures Step(Xor(c, d)) == Xor(Step(c), Step(d))
  {
    HalfXor(c, d);
    XorPaths(POLYNOMIAL, Half(c), Half(d));
    hide Xor, Half, Odd;
  }

  lemma HalfXor(c: bv32, d: bv32)
    ensures Half(Xor(c, d)) == Xor(Half(c), Half(d)) && Odd(Xor(c, d)) == (Odd(c) != Odd(d))
  {
  }

  lemma XorAssoc(a: bv32, b: bv32, c: bv32)
    ensures Xor(a, Xor(b, c)) == Xor(Xor(a, b), c)
  {
  }

  lemma XorComm(a: bv32, b: bv32)
    ensures Xor(a, b) == Xor(b, a)
  {
  }

  lemma XorSelf(a: bv32)
    ensures Xor(a, a) == 0 && Xor(a, 0) == a
  {
  }

  lemma XorPaths(p: bv32, a: bv32, b: bv32)
    ensures Xor(p, Xor(a, b)) == Xor(Xor(p, a), b) == Xor(a, Xor(p, b))
    ensures Xor(Xor(p, a), Xor(p, b)) == Xor(a, b)
  {
    XorAssoc(p, a, b);
    XorComm(p, a);
    XorAssoc(a, p, b);
    XorAssoc(Xor(a, p), p, b);
    XorAssoc(a, p, p);
    XorSelf(p);
    XorSelf(a);
    hide Xor;
  }

  /** The register is linear. */
  lemma {:induction false} StepsXor(c: bv32, d: bv32, n: nat)
    ensures Steps(Xor(c, d), n) == Xor(Steps(c, n), Steps(d, n))
    decreases n
  {
    hide Step, Xor;
    if n > 0 {
      StepXor(c, d);
      StepsXor(Step(c), Step(d), n - 1);
    }
  }

  /** A step loses nothing: the polynomial's top bit tells which way it went. */
  lemma StepInjective(c: bv32, d: bv32)
    requires Step(c) == Step(d)
    ensures c == d
  {
  }

  lemma {:induction false} StepsInjective(c: bv32, d: bv32, n: nat)
    requires Steps(c, n) == Steps(d, n)
    ensures c == d
    decreases n
  {
    hide Step;
    if n > 0 {
      StepsInjective(Step(c), Step(d), n - 1);
      StepInjective(c, d);
    }
  }

  function Low(x: bv32): bv32 {
    x & 0xFF
  }

  function High(x: bv32): bv32 {
    x >> 8
  }

  function Up(x: bv32): bv32 {
    x << 8
  }

  /** With a low byte of zeros, eight steps are a plain shift. */
  lemma StepsOfHigh(x: bv32)
    requires Low(x) == 0
    ensures Steps(x, 8) == High(x)
  {
    var x1 := Half(x);
    var x2 := Half(x1);
    var x3 := Half(x2);
    var x4 := Half(x3);
    var x5 := Half(x4);
    var x6 := Half(x5);
    var x7 := Half(x6);
    var x8 := Half(x7);
    EvenSteps(x, x1, x2, x3, x4, x5, x6, x7);
    hide Step, Half, Low;
    assert Steps(x4, 4) == Steps(x5, 3) == Steps(x6, 2) == Steps(x7, 1) == Steps(x8, 0);
    assert Steps(x, 8) == Steps(x1, 7) == Steps(x2, 6) == Steps(x3, 5) == Steps(x4, 4);
    EightHalves(x);
  }

  lemma EvenSteps(x: bv32, x1: bv32, x2: bv32, x3: bv32, x4: bv32, x5: bv32, x6: bv32, x7: bv32)
    requires Low(x) == 0 && x1 == Half(x) && x2 == Half(x1) && x3 == Half(x2)
    requires x4 == Half(x3) && x5 == Half(x4) && x6 == Half(x5) && x7 == Half(x6)
    ensures Step(x) == Half(x) && Step(x1) == Half(x1) && Step(x2) == Half(x2) && Step(x3) == Half(x3)
    ensures Step(x4) == Half(x4) && Step(x5) == Half(x5) && Step(x6) == Half(x6) && Step(x7) == Half(x7)
  {
  }

  lemma EightHalves(x: bv32)
    ensures Half(Half(Half(Half(Half(Half(Half(Half(x)))))))) == High(x)
  {
  }

  /** The table entry for the low byte, and the rest shifted down. */
  lemma {:induction false} TableStep(c: bv32)
    ensures Steps(c, 8) == Xor(Steps(Low(c), 8), High(c))
  {
    Parts(c);
    hide Steps, Xor, Low, High, Up;
    StepsXor(Low(c), Up(High(c)), 8);
    StepsOfHigh(Up(High(c)));
  }

  lemma Parts(c: bv32)
    ensures c == Xor(Low(c), Up(High(c))) && Low(Up(High(c))) == 0 && High(Up(High(c))) == High(c)
  {
  }

  /** The table that generate_table fills, for every byte value. */
  ghost predicate TableOk(table: array<bv32>)
    reads table
  {
    table.Length == 256 && FilledTo(table[..], 256)
  }

  ghost predicate FilledTo(t: seq<bv32>, n: bv32) {
    n <= 256 && |t| == 256 && forall i: bv32 :: i < n ==> t[i as int] == Steps(i, 8)
  }

  lemma FilledMore(t: seq<bv32>, n: bv32)
    requires FilledTo(t, n) && n < 256
    ensures FilledTo(t[n as int := Steps(n, 8)], n + 1)
  {
    hide Steps;
    forall i: bv32 | i <= n ensures t[n as int := Steps(n, 8)][i as int] == Steps(i, 8) {
      if i < n {
        assert i as int < n as int;
      }
    }
  }

  method GenerateTable() returns (table: array<bv32>)
    ensures fresh(table) && TableOk(table)
  {
    hide FilledTo, Steps;
    table := new bv32[256];
    NoneFilled(table[..]);
    var i: bv32 := 0;
    while i < 256
      invariant i <= 256 && FilledTo(table[..], i)
      decreases 256 - i as int
    {
      FilledMore(table[..], i);
      var c := EightSteps(i);
      ghost var t := table[..];
      table[i as int] := c;
      assert table[..] == t[i as int := c];
      i := i + 1;
    }
  }

  lemma NoneFilled(t: seq<bv32>)
    requires |t| == 256
    ensures FilledTo(t, 0)
  {
  }

  method EightSteps(i: bv32) returns (c: bv32)
    ensures c == Steps(i, 8)
  {
    hide Step, Odd, Half, Xor;
    c := i;
    var j := 0;
    while j < 8
      invariant j <= 8 && Steps(c, 8 - j) == Steps(i, 8)
    {
      OneStep(c, 8 - j);
      if c & 1 != 0 {
        c := POLYNOMIAL ^ (c >> 1);
      } else {
        c := c >> 1;
      }
      j := j + 1;
    }
  }

  lemma OneStep(c: bv32, n: nat)
    requires n > 0
    ensures Steps(c, n) == Steps(if c & 1 != 0 then POLYNOMIAL ^ (c >> 1) else c >> 1, n - 1)
  {
    StepIs(c);
    hide Step;
  }

  lemma StepIs(c: bv32)
    ensures Step(c) == if c & 1 != 0 then POLYNOMIAL ^ (c >> 1) else c >> 1
  {
  }

  /** update: one table lookup a byte computes what bit-by-bit division does. */
  method Update(table: array<bv32>, initial: bv32, buf: array<Byte>, at: nat, len: nat) returns (crc: bv32)
    requires TableOk(table) && at + len <= buf.Length
    ensures crc == Crc(initial, buf[at..at + len])
  {
    hide Steps, ShiftBits, Divide, Xor;
    var c := Xor(initial, 0xFFFF_FFFF);
    ghost var c0 := c;
    DivideNothing(c0);
    assert buf[at..at + 0] == [];
    var i := 0;
    while i < len
      invariant i <= len && c == Divide(c0, buf[at..at + i])
    {
      DivideMore(c0, buf[at..at + i], buf[at + i]);
      assert buf[at..at + i + 1] == buf[at..at + i] + [buf[at + i]];
      c := NextByte(table, c, buf[at + i]);
      i := i + 1;
    }
    crc := Xor(c, 0xFFFF_FFFF);
  }

  method NextByte(table: array<bv32>, c: bv32, b: Byte) returns (c': bv32)
    requires TableOk(table)
    ensures c' == ShiftBits(c, b as bv32, 8)
  {
    hide ShiftBits, TableOk;
    Lookup(table, c, b);
    c' := table[Low(c ^ (b as bv32)) as int] ^ (c >> 8);
  }

  lemma DivideNothing(c: bv32)
    ensures Divide(c, []) == c
  {
  }

  lemma DivideMore(c: bv32, s: seq<Byte>, b: Byte)
    ensures Divide(c, s + [b]) == ShiftBits(Divide(c, s), b as bv32, 8)
  {
    assert (s + [b])[..|s|] == s;
  }

  /** The index is a table index, and the entry it names continues the division. */
  lemma {:induction false} Lookup(table: array<bv32>, c: bv32, b: Byte)
    requires TableOk(table)
    ensures var i := Low(c ^ (b as bv32));
            i <= 0xFF && (i as int) < table.Length && table[i as int] ^ (c >> 8) == ShiftBits(c, b as bv32, 8)
  {
    ByteStep(c, b);
    TableStep(Xor(c, b as bv32));
    LowIndex(c, b);
    hide Steps, ShiftBits;
  }

  lemma LowIndex(c: bv32, b: Byte)
    ensures Low(c ^ (b as bv32)) <= 0xFF && High(c ^ (b as bv32)) == c >> 8
  {
  }

  /** Checksumming in pieces is checksumming the whole. */
  lemma {:induction false} Chaining(initial: bv32, a: seq<Byte>, b: seq<Byte>)
    ensures Crc(Crc(initial, a), b) == Crc(initial, a + b)
  {
    hide Divide, Xor;
    var c := Xor(initial, 0xFFFF_FFFF);
    XorAssoc(Divide(c, a), 0xFFFF_FFFF, 0xFFFF_FFFF);
    XorSelf(0xFFFF_FFFF);
    XorSelf(Divide(c, a));
    DivideConcat(c, a, b);
  }

  lemma {:induction false} DivideConcat(c: bv32, a: seq<Byte>, b: seq<Byte>)
    ensures Divide(c, a + b) == Divide(Divide(c, a), b)
    decreases |b|
  {
    hide ShiftBits;
    if b == [] {
      assert a + b == a;
    } else {
      var n := |b| - 1;
      DivideConcat(c, a, b[..n]);
      assert a + b == (a + b[..n]) + [b[n]];
      DivideMore(c, a + b[..n], b[n]);
    }
  }

  lemma XorCancel(c: bv32, x: bv32, y: bv32)
    requires Xor(c, x) == Xor(c, y) || Xor(x, c) == Xor(y, c)
    ensures x == y
  {
  }

  lemma {:induction false} StepsAdd(c: bv32, m: nat, n: nat)
    ensures Steps(c, m + n) == Steps(Steps(c, m), n)
    decreases m
  {
    hide Step;
    if m > 0 {
      StepsAdd(Step(c), m - 1, n);
    }
  }

  /** Up to four bytes as one little-endian word. */
  function Word(s: seq<Byte>): bv32 {
    if s == [] then 0 else Join(s[0], Word(s[1..]))
  }

  function Join(b: Byte, w: bv32): bv32 {
    Xor(b as bv32, Up(w))
  }

  /** Only the n lowest bytes are in use, of which there are at most three. */
  predicate Narrow(w: bv32, n: nat) {
    w & Unused(n) == 0
  }

  function Unused(n: nat): bv32 {
    if n == 0 then 0xFFFF_FFFF else if n == 1 then 0xFFFF_FF00 else if n == 2 then 0xFFFF_0000 else 0xFF00_0000
  }

  lemma NarrowMore(b: Byte, w: bv32, n: nat)
    requires n < 3 && Narrow(w, n)
    ensures Narrow(Join(b, w), n + 1) && Narrow(w, 3)
  {
  }

  lemma JoinInjective(a: Byte, b: Byte, v: bv32, w: bv32)
    requires Narrow(v, 3) && Narrow(w, 3) && Join(a, v) == Join(b, w)
    ensures a == b && v == w
  {
  }

  lemma UpAgain(w: bv32)
    requires Narrow(w, 3)
    ensures Low(Up(w)) == 0 && High(Up(w)) == w
  {
  }

  lemma {:induction false} WordFits(s: seq<Byte>)
    requires |s| < 4
    ensures Narrow(Word(s), |s|) && Narrow(Word(s), 3)
  {
    if s == [] {
      NothingNarrow();
    } else {
      WordFits(s[1..]);
      NarrowMore(s[0], Word(s[1..]), |s| - 1);
      hide Narrow, Join;
      if |s| < 3 {
        NarrowMore(0, Word(s), |s|);
      }
    }
  }

  lemma NothingNarrow()
    ensures Narrow(0, 0) && Narrow(0, 3)
  {
  }

  lemma {:induction false} WordInjective(x: seq<Byte>, y: seq<Byte>)
    requires |x| == |y| <= 4 && Word(x) == Word(y)
    ensures x == y
    decreases |x|
  {
    hide Narrow, Join;
    if x != [] {
      WordFits(x[1..]);
      WordFits(y[1..]);
      JoinInjective(x[0], y[0], Word(x[1..]), Word(y[1..]));
      WordInjective(x[1..], y[1..]);
      assert x == [x[0]] + x[1..] && y == [y[0]] + y[1..];
    }
  }

  /** Dividing up to four bytes is stepping the register with the whole word xored in. */
  lemma {:induction false} DivideWord(c: bv32, s: seq<Byte>)
    requires |s| <= 4
    ensures Divide(c, s) == Steps(Xor(c, Word(s)), 8 * |s|)
    decreases |s|
  {
    hide ShiftBits, Xor, Join, Steps, Narrow, Divide;
    if s == [] {
      NoWord(c);
    } else {
      WordFits(s[1..]);
      FirstByte(c, s);
      DivideWord(Steps(Xor(c, s[0] as bv32), 8), s[1..]);
      StepsJoin(c, s[0], Word(s[1..]), |s| - 1);
      assert 8 + 8 * (|s| - 1) == 8 * |s|;
    }
  }

  lemma NoWord(c: bv32)
    ensures Divide(c, []) == Steps(Xor(c, Word([])), 0)
  {
    XorZero(c);
  }

  lemma FirstByte(c: bv32, s: seq<Byte>)
    requires s != []
    ensures Divide(c, s) == Divide(Steps(Xor(c, s[0] as bv32), 8), s[1..])
  {
    hide Steps, ShiftBits, Xor;
    ByteStep(c, s[0]);
    DivideMore(c, [], s[0]);
    DivideNothing(c);
    assert [] + [s[0]] == [s[0]] && [s[0]] + s[1..] == s;
    DivideConcat(c, [s[0]], s[1..]);
  }

  lemma {:induction false} StepsJoin(c: bv32, b: Byte, w: bv32, n: nat)
    requires Narrow(w, 3)
    ensures Steps(Xor(c, Join(b, w)), 8 + 8 * n) == Steps(Xor(Steps(Xor(c, b as bv32), 8), w), 8 * n)
  {
    UpAgain(w);
    hide Steps, Xor, Low, High, Up, Narrow;
    XorAssoc(c, b as bv32, Up(w));
    StepsXor(Xor(c, b as bv32), Up(w), 8);
    StepsOfHigh(Up(w));
    StepsAdd(Xor(c, Join(b, w)), 8, 8 * n);
  }

  /** Equal checksums after an equal message mean equal registers before it. */
  lemma {:induction false} DivideInjective(c: bv32, d: bv32, s: seq<Byte>)
    requires Divide(c, s) == Divide(d, s)
    ensures c == d
    decreases |s|
  {
    hide Steps, Xor, ShiftBits, Divide;
    if s == [] {
      DivideNothing(c);
      DivideNothing(d);
    } else {
      var n := |s| - 1;
      var x, y := Divide(c, s[..n]), Divide(d, s[..n]);
      assert s[..n] + [s[n]] == s;
      DivideMore(c, s[..n], s[n]);
      DivideMore(d, s[..n], s[n]);
      ByteStep(x, s[n]);
      ByteStep(y, s[n]);
      StepsInjective(Xor(x, s[n] as bv32), Xor(y, s[n] as bv32), 8);
      XorCancel(s[n] as bv32, x, y);
      DivideInjective(c, d, s[..n]);
    }
  }

  /** The buffers differ, but only within four consecutive bytes. */
  predicate Burst(a: seq<Byte>, b: seq<Byte>, at: nat) {
    |a| == |b| && a != b && forall k :: 0 <= k < |a| && !(at <= k < at + 4) ==> a[k] == b[k]
  }

  /** Any change of up to four consecutive bytes, one byte in particular, changes the checksum. */
  lemma {:induction false} BurstDetected(initial: bv32, a: seq<Byte>, b: seq<Byte>, at: nat)
    requires Burst(a, b, at)
    ensures Crc(initial, a) != Crc(initial, b)
  {
    hide Divide, Xor, Word, Steps;
    var c := Xor(initial, 0xFFFF_FFFF);
    var i := if at < |a| then at else |a|;
    var j := if at + 4 < |a| then at + 4 else |a|;
    var p, x, y, q := a[..i], a[i..j], b[i..j], a[j..];
    assert a == p + x + q && b == p + y + q;
    DivideConcat(c, p + x, q);
    DivideConcat(c, p + y, q);
    DivideConcat(c, p, x);
    DivideConcat(c, p, y);
    var d := Divide(c, p);
    DivideWord(d, x);
    DivideWord(d, y);
    if Crc(initial, a) == Crc(initial, b) {
      XorCancel(0xFFFF_FFFF, Divide(c, a), Divide(c, b));
      DivideInjective(Divide(d, x), Divide(d, y), q);
      StepsInjective(Xor(d, Word(x)), Xor(d, Word(y)), 8 * |x|);
      XorCancel(d, Word(x), Word(y));
      WordInjective(x, y);
    }
  }

  /** The checksum of one zero byte, as RFC 1952 has it. */
  lemma {:induction false} ZeroByte()
    ensures Crc(0, [0]) == 0xD202_EF8D
  {
    OneShift(0xFFFF_FFFF, 0x9247_7CDF, 8);
    OneShift(0x9247_7CDF, 0xA49B_3D4F, 7);
    OneShift(0xA49B_3D4F, 0xBFF5_1D87, 6);
    OneShift(0xBFF5_1D87, 0xB242_0DE3, 5);
    OneShift(0xB242_0DE3, 0xB499_85D1, 4);
    OneShift(0xB499_85D1, 0xB7F4_41C8, 3);
    OneShift(0xB7F4_41C8, 0x5BFA_20E4, 2);
    OneShift(0x5BFA_20E4, 0x2DFD_1072, 1);
    NoShift(0x2DFD_1072);
    assert Divide(0xFFFF_FFFF, [0]) == ShiftBits(Divide(0xFFFF_FFFF, [0][..0]), 0, 8);
  }

  lemma OneShift(c: bv32, d: bv32, n: nat)
    requires n > 0 && d == if Odd(c) then Xor(POLYNOMIAL, Half(c)) else Half(c)
    ensures ShiftBits(c, 0, n) == ShiftBits(d, 0, n - 1)
  {
  }

  lemma NoShift(c: bv32)
    ensures ShiftBits(c, 0, 0) == c
  {
  }

  /**
   genCRCfromData: a fresh table, then eight one-byte updates from 0. Whatever the size
   of the data, it is the checksum of its first eight bytes only.
   */
  method GenCrcFromData(data: array<Byte>) returns (crc: bv32)
    requires data.Length >= 8
    ensures crc == DataCrc(data[..])
  {
    hide Crc;
    var table := GenerateTable();
    crc := 0;
    assert data[..0] == [];
    CrcNothing();
    var cnt := 0;
    while cnt < 8
      invariant cnt <= 8 && TableOk(table) && crc == Crc(0, data[..cnt])
    {
      Chaining(0, data[..cnt], data[cnt..cnt + 1]);
      assert data[..cnt] + data[cnt..cnt + 1] == data[..cnt + 1];
      crc := Update(table, crc, data, cnt, 1);
      cnt := cnt + 1;
    }
    assert data[..][..8] == data[..8];
  }

  ghost function DataCrc(data: seq<Byte>): bv32
    requires |data| >= 8
  {
    Crc(0, data[..8])
  }

  lemma CrcNothing()
    ensures Crc(0, []) == 0
  {
  }

  /**
   What the stored checksum of a tensor is worth: a change of up to four consecutive
   bytes shows exactly when it touches the first eight bytes.
   */
  lemma {:induction false} DataCrcDetectsIff(a: seq<Byte>, b: seq<Byte>, at: nat)
    requires Burst(a, b, at) && |a| >= 8
    ensures DataCrc(a) != DataCrc(b) <==> exists k :: 0 <= k < 8 && a[k] != b[k]
  {
    hide Crc;
    var x, y := a[..8], b[..8];
    if x != y {
      var k :| 0 <= k < 8 && x[k] != y[k];
      BurstDetected(0, x, y, at);
    }
  }
}
