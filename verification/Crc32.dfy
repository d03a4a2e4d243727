/** The table-driven CRC-32 of xdebug_crc32 and the bit-at-a-time definition that it
    speeds up. */
module Crc32 {
  const POLYNOMIAL: bv32 := 0xedb88320

  /** One step of the reflected shift register. */
  function Shift(reg: bv32): bv32 {
    if reg & 1 == 1 then (reg >> 1) ^ POLYNOMIAL else reg >> 1
  }

  function Shift8(reg: bv32): bv32 {
    Shift(Shift(Shift(Shift(Shift(Shift(Shift(Shift(reg))))))))
  }

  function Row(h: bv32): (row: seq<bv32>)
    requires h < 16
    ensures |row| == 16
  {
    match h
    case 0 => [
        0x00000000, 0x77073096, 0xee0e612c, 0x990951ba, 0x076dc419, 0x706af48f, 0xe963a535, 0x9e6495a3,
        0x0edb8832, 0x79dcb8a4, 0xe0d5e91e, 0x97d2d988, 0x09b64c2b, 0x7eb17cbd, 0xe7b82d07, 0x90bf1d91]
    case 1 => [
        0x1db71064, 0x6ab020f2, 0xf3b97148, 0x84be41de, 0x1adad47d, 0x6ddde4eb, 0xf4d4b551, 0x83d385c7,
        0x136c9856, 0x646ba8c0, 0xfd62f97a, 0x8a65c9ec, 0x14015c4f, 0x63066cd9, 0xfa0f3d63, 0x8d080df5]
    case 2 => [
        0x3b6e20c8, 0x4c69105e, 0xd56041e4, 0xa2677172, 0x3c03e4d1, 0x4b04d447, 0xd20d85fd, 0xa50ab56b,
        0x35b5a8fa, 0x42b2986c, 0xdbbbc9d6, 0xacbcf940, 0x32d86ce3, 0x45df5c75, 0xdcd60dcf, 0xabd13d59]
    case 3 => [
        0x26d930ac, 0x51de003a, 0xc8d75180, 0xbfd06116, 0x21b4f4b5, 0x56b3c423, 0xcfba9599, 0xb8bda50f,
        0x2802b89e, 0x5f058808, 0xc60cd9b2, 0xb10be924, 0x2f6f7c87, 0x58684c11, 0xc1611dab, 0xb6662d3d]
    case 4 => [
        0x76dc4190, 0x01db7106, 0x98d220bc, 0xefd5102a, 0x71b18589, 0x06b6b51f, 0x9fbfe4a5, 0xe8b8d433,
        0x7807c9a2, 0x0f00f934, 0x9609a88e, 0xe10e9818, 0x7f6a0dbb, 0x086d3d2d, 0x91646c97, 0xe6635c01]
    case 5 => [
        0x6b6b51f4, 0x1c6c6162, 0x856530d8, 0xf262004e, 0x6c0695ed, 0x1b01a57b, 0x8208f4c1, 0xf50fc457,
        0x65b0d9c6, 0x12b7e950, 0x8bbeb8ea, 0xfcb9887c, 0x62dd1ddf, 0x15da2d49, 0x8cd37cf3, 0xfbd44c65]
    case 6 => [
        0x4db26158, 0x3ab551ce, 0xa3bc0074, 0xd4bb30e2, 0x4adfa541, 0x3dd895d7, 0xa4d1c46d, 0xd3d6f4fb,
        0x4369e96a, 0x346ed9fc, 0xad678846, 0xda60b8d0, 0x44042d73, 0x33031de5, 0xaa0a4c5f, 0xdd0d7cc9]
    case 7 => [
        0x5005713c, 0x270241aa, 0xbe0b1010, 0xc90c2086, 0x5768b525, 0x206f85b3, 0xb966d409, 0xce61e49f,
        0x5edef90e, 0x29d9c998, 0xb0d09822, 0xc7d7a8b4, 0x59b33d17, 0x2eb40d81, 0xb7bd5c3b, 0xc0ba6cad]
    case 8 => [
        0xedb88320, 0x9abfb3b6, 0x03b6e20c, 0x74b1d29a, 0xead54739, 0x9dd277af, 0x04db2615, 0x73dc1683,
        0xe3630b12, 0x94643b84, 0x0d6d6a3e, 0x7a6a5aa8, 0xe40ecf0b, 0x9309ff9d, 0x0a00ae27, 0x7d079eb1]
    case 9 => [
        0xf00f9344, 0x8708a3d2, 0x1e01f268, 0x6906c2fe, 0xf762575d, 0x806567cb, 0x196c3671, 0x6e6b06e7,
        0xfed41b76, 0x89d32be0, 0x10da7a5a, 0x67dd4acc, 0xf9b9df6f, 0x8ebeeff9, 0x17b7be43, 0x60b08ed5]
    case 10 => [
        0xd6d6a3e8, 0xa1d1937e, 0x38d8c2c4, 0x4fdff252, 0xd1bb67f1, 0xa6bc5767, 0x3fb506dd, 0x48b2364b,
        0xd80d2bda, 0xaf0a1b4c, 0x36034af6, 0x41047a60, 0xdf60efc3, 0xa867df55, 0x316e8eef, 0x4669be79]
    case 11 => [
        0xcb61b38c, 0xbc66831a, 0x256fd2a0, 0x5268e236, 0xcc0c7795, 0xbb0b4703, 0x220216b9, 0x5505262f,
        0xc5ba3bbe, 0xb2bd0b28, 0x2bb45a92, 0x5cb36a04, 0xc2d7ffa7, 0xb5d0cf31, 0x2cd99e8b, 0x5bdeae1d]
    case 12 => [
        0x9b64c2b0, 0xec63f226, 0x756aa39c, 0x026d930a, 0x9c0906a9, 0xeb0e363f, 0x72076785, 0x05005713,
        0x95bf4a82, 0xe2b87a14, 0x7bb12bae, 0x0cb61b38, 0x92d28e9b, 0xe5d5be0d, 0x7cdcefb7, 0x0bdbdf21]
    case 13 => [
        0x86d3d2d4, 0xf1d4e242, 0x68ddb3f8, 0x1fda836e, 0x81be16cd, 0xf6b9265b, 0x6fb077e1, 0x18b74777,
        0x88085ae6, 0xff0f6a70, 0x66063bca, 0x11010b5c, 0x8f659eff, 0xf862ae69, 0x616bffd3, 0x166ccf45]
    case 14 => [
        0xa00ae278, 0xd70dd2ee, 0x4e048354, 0x3903b3c2, 0xa7672661, 0xd06016f7, 0x4969474d, 0x3e6e77db,
        0xaed16a4a, 0xd9d65adc, 0x40df0b66, 0x37d83bf0, 0xa9bcae53, 0xdebb9ec5, 0x47b2cf7f, 0x30b5ffe9]
    case _ => [
        0xbdbdf21c, 0xcabac28a, 0x53b39330, 0x24b4a3a6, 0xbad03605, 0xcdd70693, 0x54de5729, 0x23d967bf,
        0xb3667a2e, 0xc4614ab8, 0x5d681b02, 0x2a6f2b94, 0xb40bbe37, 0xc30c8ea1, 0x5a05df1b, 0x2d02ef8d]
  }

  /** xdebug_crc32tab */
  function Table(i: bv32): bv32
    requires i < 256
  {
    Row(i >> 4)[(i & 15) as int]
  }

  lemma FirstEighth(i: bv32)
    requires i < 32
    ensures Table(i) == Shift8(i)
  {
  }

  lemma SecondEighth(i: bv32)
    requires 32 <= i < 64
    ensures Table(i) == Shift8(i)
  {
  }

  lemma ThirdEighth(i: bv32)
    requires 64 <= i < 96
    ensures Table(i) == Shift8(i)
  {
  }

  lemma FourthEighth(i: bv32)
    requires 96 <= i < 128
    ensures Table(i) == Shift8(i)
  {
  }

  lemma FifthEighth(i: bv32)
    requires 128 <= i < 160
    ensures Table(i) == Shift8(i)
  {
  }

  lemma SixthEighth(i: bv32)
    requires 160 <= i < 192
    ensures Table(i) == Shift8(i)
  {
  }

  lemma SeventhEighth(i: bv32)
    requires 192 <= i < 224
    ensures Table(i) == Shift8(i)
  {
  }

  lemma LastEighth(i: bv32)
    requires 224 <= i < 256
    ensures Table(i) == Shift8(i)
  {
  }

  /** Every entry of the table is eight bit steps of its index. */
  lemma TableIsShift8(i: bv32)
    requires i < 256
    ensures Table(i) == Shift8(i)
  {
    if i < 32 {
      FirstEighth(i);
    } else if i < 64 {
      SecondEighth(i);
    } else if i < 96 {
      ThirdEighth(i);
    } else if i < 128 {
      FourthEighth(i);
    } else if i < 160 {
      FifthEighth(i);
    } else if i < 192 {
      SixthEighth(i);
    } else if i < 224 {
      SeventhEighth(i);
    } else {
      LastEighth(i);
    }
  }

  // ----- the definition: one message bit at a time, the lowest bit of a byte first

  function Half(x: bv32): bv32 {
    x >> 1
  }

  function Xor(x: bv32, y: bv32): bv32 {
    x ^ y
  }

  predicate Even(x: bv32) {
    x & 1 == 0
  }

  /** The lowest bit of b enters the register. */
  function EnterBit(reg: bv32, b: bv32): bv32 {
    if (reg ^ b) & 1 == 1 then (reg >> 1) ^ POLYNOMIAL else reg >> 1
  }

  /** k bits of b enter the register, the lowest first. */
  function Feed<W>(enter: (W, W) -> W, half: W -> W, k: nat, reg: W, b: W): W
    decreases k
  {
    if k == 0 then reg else Feed(enter, half, k - 1, enter(reg, b), half(b))
  }

  function MessageBits(reg: bv32, s: seq<bv8>): bv32 {
    if s == [] then reg
    else Feed(EnterBit, Half, 8, MessageBits(reg, s[..|s| - 1]), s[|s| - 1] as bv32)
  }

  /** CRC-32 with the initial and the final complement. */
  function Reference(s: seq<bv8>): bv32 {
    !MessageBits(0xffffffff, s)
  }

  // ----- linear registers

  function Iterate<W>(f: W -> W, k: nat, x: W): W {
    if k == 0 then x else Iterate(f, k - 1, f(x))
  }

  lemma Unrolled<W>(f: W -> W, x: W)
    ensures Iterate(f, 8, x) == f(f(f(f(f(f(f(f(x))))))))
  {
    var y := f(f(f(f(x))));
    assert Iterate(f, 8, x) == Iterate(f, 6, f(f(x))) == Iterate(f, 4, y);
    assert Iterate(f, 4, y) == Iterate(f, 2, f(f(y)));
  }

  /** Bits that are combined with the register at once enter it one after the other. */
  lemma {:induction false} BitsEnter<W(!new)>(shift: W -> W, half: W -> W, xor: (W, W) -> W, enter: (W, W) -> W,
                                              k: nat, reg: W, b: W)
    requires forall r, b :: shift(xor(r, b)) == xor(enter(r, b), half(b))
    ensures Iterate(shift, k, xor(reg, b)) == xor(Feed(enter, half, k, reg, b), Iterate(half, k, b))
    decreases k
  {
    if k > 0 {
      BitsEnter(shift, half, xor, enter, k - 1, enter(reg, b), half(b));
    }
  }

  /** A part whose low bits are clear enters as nothing. */
  ghost predicate LowClear<W>(half: W -> W, even: W -> bool, k: nat, b: W) {
    k == 0 || (even(b) && LowClear(half, even, k - 1, half(b)))
  }

  lemma {:induction false} NothingEnters<W(!new)>(shift: W -> W, half: W -> W, even: W -> bool, enter: (W, W) -> W,
                                                  k: nat, reg: W, b: W)
    requires forall r, b :: even(b) ==> enter(r, b) == shift(r)
    requires LowClear(half, even, k, b)
    ensures Feed(enter, half, k, reg, b) == Iterate(shift, k, reg)
    decreases k
  {
    if k > 0 {
      NothingEnters(shift, half, even, enter, k - 1, shift(reg), half(b));
    }
  }

  // ----- eight steps at once

  lemma XorHalf(r: bv32, b: bv32, p: bv32)
    ensures (r ^ b) >> 1 == (r >> 1) ^ (b >> 1)
    ensures ((r ^ b) >> 1) ^ p == ((r >> 1) ^ p) ^ (b >> 1)
  {
  }

  lemma ShiftEnters(r: bv32, b: bv32)
    ensures Shift(Xor(r, b)) == Xor(EnterBit(r, b), Half(b))
  {
    XorHalf(r, b, POLYNOMIAL);
    var a, e := Shift(r ^ b), EnterBit(r, b);
    if (r ^ b) & 1 == 1 {
      assert a == ((r ^ b) >> 1) ^ POLYNOMIAL;
      assert e == (r >> 1) ^ POLYNOMIAL;
    } else {
      assert a == (r ^ b) >> 1;
      assert e == r >> 1;
    }
  }

  lemma EvenEnters(r: bv32, b: bv32)
    requires Even(b)
    ensures EnterBit(r, b) == Shift(r)
  {
    assert (r ^ b) & 1 == r & 1;
  }

  lemma HalfEight(h: bv32)
    ensures Iterate(Half, 8, h) == h >> 8
  {
    Unrolled(Half, h);
  }

  lemma ClearFour(h: bv32)
    requires h & 0xf == 0
    ensures Even(h) && Even(Half(h)) && Even(Half(Half(h))) && Even(Half(Half(Half(h))))
  {
  }

  lemma ClearEight(h: bv32)
    requires h & 0xff == 0
    ensures LowClear(Half, Even, 8, h)
  {
    var c := Half(Half(Half(Half(h))));
    assert c & 0xf == 0;
    ClearFour(h);
    ClearFour(c);
    assert LowClear(Half, Even, 2, Half(Half(c)));
    assert LowClear(Half, Even, 4, c);
    assert LowClear(Half, Even, 6, Half(Half(h)));
  }

  lemma ShiftsFeed(reg: bv32, b: bv32)
    ensures Iterate(Shift, 8, Xor(reg, b)) == Xor(Feed(EnterBit, Half, 8, reg, b), b >> 8)
  {
    forall r, b
      ensures Shift(Xor(r, b)) == Xor(EnterBit(r, b), Half(b))
    {
      ShiftEnters(r, b);
    }
    BitsEnter(Shift, Half, Xor, EnterBit, 8, reg, b);
    HalfEight(b);
  }

  /** The high part moves down by eight, the low part alone decides the rest. */
  lemma HighMoves(l: bv32, h: bv32)
    requires h & 0xff == 0
    ensures Iterate(Shift, 8, Xor(l, h)) == Xor(Iterate(Shift, 8, l), h >> 8)
  {
    ShiftsFeed(l, h);
    forall r, b | Even(b)
      ensures EnterBit(r, b) == Shift(r)
    {
      EvenEnters(r, b);
    }
    ClearEight(h);
    NothingEnters(Shift, Half, Even, EnterBit, 8, l, h);
  }

  lemma TableIsSteps(i: bv32)
    requires i < 256
    ensures Table(i) == Iterate(Shift, 8, i)
  {
    TableIsShift8(i);
    Unrolled(Shift, i);
  }

  lemma SplitWord(x: bv32)
    ensures Xor(x & 0xff, x & 0xffffff00) == x
    ensures (x & 0xffffff00) & 0xff == 0 && (x & 0xffffff00) >> 8 == x >> 8
  {
  }

  lemma HighByte(crc: bv32, b: bv32)
    requires b < 256
    ensures (crc ^ b) >> 8 == crc >> 8 && b >> 8 == 0
  {
  }

  lemma XorCommutes(a: bv32, b: bv32)
    ensures Xor(a, b) == b ^ a
    ensures Xor(a, 0) == a
  {
  }

  /** h has no low byte and moves to m. */
  ghost predicate High(h: bv32, m: bv32) {
    h & 0xff == 0 && m == h >> 8
  }

  lemma HighPart(crc: bv32, b: bv32)
    requires b < 256
    ensures High((crc ^ b) & 0xffffff00, crc >> 8)
  {
    SplitWord(crc ^ b);
    HighByte(crc, b);
  }

  lemma PartsAreBits(crc: bv32, b: bv32, l: bv32, h: bv32, m: bv32, t: bv32)
    requires Xor(l, h) == Xor(crc, b) && b >> 8 == 0 && High(h, m)
    requires t == Iterate(Shift, 8, l)
    ensures Xor(t, m) == Feed(EnterBit, Half, 8, crc, b)
  {
    HighMoves(l, h);
    ShiftsFeed(crc, b);
    XorCommutes(Feed(EnterBit, Half, 8, crc, b), 0);
  }

  /** Moving the register by a byte and combining it with the steps of its low byte lets
      the eight bits of the byte enter, the lowest first. */
  lemma StepIsBits(crc: bv32, b: bv32, t: bv32)
    requires b < 256 && t == Iterate(Shift, 8, (crc ^ b) & 0xff)
    ensures Xor(t, crc >> 8) == Feed(EnterBit, Half, 8, crc, b)
  {
    SplitWord(crc ^ b);
    HighByte(crc, b);
    HighPart(crc, b);
    PartsAreBits(crc, b, (crc ^ b) & 0xff, (crc ^ b) & 0xffffff00, crc >> 8, t);
  }

  /** The char is combined with its sign, which the mask removes. */
  lemma MaskRemovesSign(crc: bv32, b: bv32)
    requires b < 256
    ensures (crc ^ (0xffffff00 | b)) & 0xff == (crc ^ b) & 0xff
  {
  }

  /** XDEBUG_CRC32; a byte from 128 on arrives as a negative char. */
  method Step(crc: bv32, ch: bv8) returns (r: bv32)
    ensures r == Feed(EnterBit, Half, 8, crc, ch as bv32)
  {
    var b := ch as bv32;
    var c := if ch >= 128 then 0xffffff00 | b else b;
    MaskRemovesSign(crc, b);
    var t := Lookup((crc ^ c) & 0xff);
    StepIsBits(crc, b, t);
    XorCommutes(t, crc >> 8);
    r := (crc >> 8) ^ t;
  }

  method Lookup(i: bv32) returns (t: bv32)
    requires i < 256
    ensures t == Iterate(Shift, 8, i)
  {
    TableIsSteps(i);
    t := Table(i);
  }

  /** xdebug_crc32 */
  method XdebugCrc32(s: seq<bv8>) returns (r: bv32)
    ensures r == Reference(s)
  {
    var crc: bv32 := !0;
    for len := 0 to |s|
      invariant crc == MessageBits(0xffffffff, s[..len])
    {
      assert s[..len + 1][..len] == s[..len];
      crc := Step(crc, s[len]);
    }
    assert s[..|s|] == s;
    r := !crc;
  }
}
