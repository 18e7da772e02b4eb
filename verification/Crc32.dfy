/** CRC-32: the table-driven loop, the bit-serial register, and the errors it always detects. */
module Crc32 {
  import opened Bits
  import opened XorBits
  import CrcRegister

  const POLYNOMIAL: bv32 := 0xEDB8_8320

  /** One shift of the reflected register (section 8 of RFC 1952). */
  function Step(c: bv32): bv32 {
    if c & 1 == 1 then (c >> 1) ^ POLYNOMIAL else c >> 1
  }

  function Step2(c: bv32): bv32 { Step(Step(c)) }

  function Step4(c: bv32): bv32 { Step2(Step2(c)) }

  function Step8(c: bv32): bv32 { Step4(Step4(c)) }

  // ---------------------------------------------------------------- the table

  function Rows0(r: bv32): (row: seq<bv32>)
    ensures |row| == 8
  {
    if r == 0 then [0x00000000, 0x77073096, 0xEE0E612C, 0x990951BA, 0x076DC419, 0x706AF48F, 0xE963A535, 0x9E6495A3]
    else if r == 1 then [0x0EDB8832, 0x79DCB8A4, 0xE0D5E91E, 0x97D2D988, 0x09B64C2B, 0x7EB17CBD, 0xE7B82D07, 0x90BF1D91]
    else if r == 2 then [0x1DB71064, 0x6AB020F2, 0xF3B97148, 0x84BE41DE, 0x1ADAD47D, 0x6DDDE4EB, 0xF4D4B551, 0x83D385C7]
    else [0x136C9856, 0x646BA8C0, 0xFD62F97A, 0x8A65C9EC, 0x14015C4F, 0x63066CD9, 0xFA0F3D63, 0x8D080DF5]
  }

  function Rows4(r: bv32): (row: seq<bv32>)
    ensures |row| == 8
  {
    if r == 4 then [0x3B6E20C8, 0x4C69105E, 0xD56041E4, 0xA2677172, 0x3C03E4D1, 0x4B04D447, 0xD20D85FD, 0xA50AB56B]
    else if r == 5 then [0x35B5A8FA, 0x42B2986C, 0xDBBBC9D6, 0xACBCF940, 0x32D86CE3, 0x45DF5C75, 0xDCD60DCF, 0xABD13D59]
    else if r == 6 then [0x26D930AC, 0x51DE003A, 0xC8D75180, 0xBFD06116, 0x21B4F4B5, 0x56B3C423, 0xCFBA9599, 0xB8BDA50F]
    else [0x2802B89E, 0x5F058808, 0xC60CD9B2, 0xB10BE924, 0x2F6F7C87, 0x58684C11, 0xC1611DAB, 0xB6662D3D]
  }

  function Rows8(r: bv32): (row: seq<bv32>)
    ensures |row| == 8
  {
    if r == 8 then [0x76DC4190, 0x01DB7106, 0x98D220BC, 0xEFD5102A, 0x71B18589, 0x06B6B51F, 0x9FBFE4A5, 0xE8B8D433]
    else if r == 9 then [0x7807C9A2, 0x0F00F934, 0x9609A88E, 0xE10E9818, 0x7F6A0DBB, 0x086D3D2D, 0x91646C97, 0xE6635C01]
    else if r == 10 then
        [0x6B6B51F4, 0x1C6C6162, 0x856530D8, 0xF262004E, 0x6C0695ED, 0x1B01A57B, 0x8208F4C1, 0xF50FC457]
    else [0x65B0D9C6, 0x12B7E950, 0x8BBEB8EA, 0xFCB9887C, 0x62DD1DDF, 0x15DA2D49, 0x8CD37CF3, 0xFBD44C65]
  }

  function Rows12(r: bv32): (row: seq<bv32>)
    ensures |row| == 8
  {
    if r == 12 then [0x4DB26158, 0x3AB551CE, 0xA3BC0074, 0xD4BB30E2, 0x4ADFA541, 0x3DD895D7, 0xA4D1C46D, 0xD3D6F4FB]
    else if r == 13 then
        [0x4369E96A, 0x346ED9FC, 0xAD678846, 0xDA60B8D0, 0x44042D73, 0x33031DE5, 0xAA0A4C5F, 0xDD0D7CC9]
    else if r == 14 then
        [0x5005713C, 0x270241AA, 0xBE0B1010, 0xC90C2086, 0x5768B525, 0x206F85B3, 0xB966D409, 0xCE61E49F]
    else [0x5EDEF90E, 0x29D9C998, 0xB0D09822, 0xC7D7A8B4, 0x59B33D17, 0x2EB40D81, 0xB7BD5C3B, 0xC0BA6CAD]
  }

  function Rows16(r: bv32): (row: seq<bv32>)
    ensures |row| == 8
  {
    if r == 16 then [0xEDB88320, 0x9ABFB3B6, 0x03B6E20C, 0x74B1D29A, 0xEAD54739, 0x9DD277AF, 0x04DB2615, 0x73DC1683]
    else if r == 17 then
        [0xE3630B12, 0x94643B84, 0x0D6D6A3E, 0x7A6A5AA8, 0xE40ECF0B, 0x9309FF9D, 0x0A00AE27, 0x7D079EB1]
    else if r == 18 then
        [0xF00F9344, 0x8708A3D2, 0x1E01F268, 0x6906C2FE, 0xF762575D, 0x806567CB, 0x196C3671, 0x6E6B06E7]
    else [0xFED41B76, 0x89D32BE0, 0x10DA7A5A, 0x67DD4ACC, 0xF9B9DF6F, 0x8EBEEFF9, 0x17B7BE43, 0x60B08ED5]
  }

  function Rows20(r: bv32): (row: seq<bv32>)
    ensures |row| == 8
  {
    if r == 20 then [0xD6D6A3E8, 0xA1D1937E, 0x38D8C2C4, 0x4FDFF252, 0xD1BB67F1, 0xA6BC5767, 0x3FB506DD, 0x48B2364B]
    else if r == 21 then
        [0xD80D2BDA, 0xAF0A1B4C, 0x36034AF6, 0x41047A60, 0xDF60EFC3, 0xA867DF55, 0x316E8EEF, 0x4669BE79]
    else if r == 22 then
        [0xCB61B38C, 0xBC66831A, 0x256FD2A0, 0x5268E236, 0xCC0C7795, 0xBB0B4703, 0x220216B9, 0x5505262F]
    else [0xC5BA3BBE, 0xB2BD0B28, 0x2BB45A92, 0x5CB36A04, 0xC2D7FFA7, 0xB5D0CF31, 0x2CD99E8B, 0x5BDEAE1D]
  }

  function Rows24(r: bv32): (row: seq<bv32>)
    ensures |row| == 8
  {
    if r == 24 then [0x9B64C2B0, 0xEC63F226, 0x756AA39C, 0x026D930A, 0x9C0906A9, 0xEB0E363F, 0x72076785, 0x05005713]
    else if r == 25 then
        [0x95BF4A82, 0xE2B87A14, 0x7BB12BAE, 0x0CB61B38, 0x92D28E9B, 0xE5D5BE0D, 0x7CDCEFB7, 0x0BDBDF21]
    else if r == 26 then
        [0x86D3D2D4, 0xF1D4E242, 0x68DDB3F8, 0x1FDA836E, 0x81BE16CD, 0xF6B9265B, 0x6FB077E1, 0x18B74777]
    else [0x88085AE6, 0xFF0F6A70, 0x66063BCA, 0x11010B5C, 0x8F659EFF, 0xF862AE69, 0x616BFFD3, 0x166CCF45]
  }

  function Rows28(r: bv32): (row: seq<bv32>)
    ensures |row| == 8
  {
    if r == 28 then [0xA00AE278, 0xD70DD2EE, 0x4E048354, 0x3903B3C2, 0xA7672661, 0xD06016F7, 0x4969474D, 0x3E6E77DB]
    else if r == 29 then
        [0xAED16A4A, 0xD9D65ADC, 0x40DF0B66, 0x37D83BF0, 0xA9BCAE53, 0xDEBB9EC5, 0x47B2CF7F, 0x30B5FFE9]
    else if r == 30 then
        [0xBDBDF21C, 0xCABAC28A, 0x53B39330, 0x24B4A3A6, 0xBAD03605, 0xCDD70693, 0x54DE5729, 0x23D967BF]
    else [0xB3667A2E, 0xC4614AB8, 0x5D681B02, 0x2A6F2B94, 0xB40BBE37, 0xC30C8EA1, 0x5A05DF1B, 0x2D02EF8D]
  }

  /** Eight entries of the table at a time. */
  function Row(r: bv32): (row: seq<bv32>)
    ensures |row| == 8
  {
    if r < 4 then Rows0(r) else if r < 8 then Rows4(r) else if r < 12 then Rows8(r) else if r < 16 then Rows12(r)
    else if r < 20 then Rows16(r) else if r < 24 then Rows20(r) else if r < 28 then Rows24(r) else Rows28(r)
  }

  function Pick(row: seq<bv32>, k: bv32): bv32
    requires |row| == 8
  {
    if k == 0 then row[0] else if k == 1 then row[1] else if k == 2 then row[2] else if k == 3 then row[3]
    else if k == 4 then row[4] else if k == 5 then row[5] else if k == 6 then row[6] else row[7]
  }

  /** crc32_tab */
  function Table(i: bv32): bv32
    requires i < 256
  {
    Pick(Row(i >> 3), i & 7)
  }

  /** What eight entries from index b on should be: eight shifts of the index. */
  ghost predicate RowFrom(row: seq<bv32>, b: bv32)
    requires |row| == 8
  {
    && row[0] == Step8(b) && row[1] == Step8(b + 1) && row[2] == Step8(b + 2) && row[3] == Step8(b + 3)
    && row[4] == Step8(b + 4) && row[5] == Step8(b + 5) && row[6] == Step8(b + 6) && row[7] == Step8(b + 7)
  }

  lemma {:induction false} RowsFrom0()
    ensures RowFrom(Rows0(0), 0)
    ensures RowFrom(Rows0(1), 8)
  {
  }

  lemma {:induction false} RowsFrom2()
    ensures RowFrom(Rows0(2), 16)
    ensures RowFrom(Rows0(3), 24)
  {
  }

  lemma {:induction false} RowsFrom4()
    ensures RowFrom(Rows4(4), 32)
    ensures RowFrom(Rows4(5), 40)
  {
  }

  lemma {:induction false} RowsFrom6()
    ensures RowFrom(Rows4(6), 48)
    ensures RowFrom(Rows4(7), 56)
  {
  }

  lemma {:induction false} RowsFrom8()
    ensures RowFrom(Rows8(8), 64)
    ensures RowFrom(Rows8(9), 72)
  {
  }

  lemma {:induction false} RowsFrom10()
    ensures RowFrom(Rows8(10), 80)
    ensures RowFrom(Rows8(11), 88)
  {
  }

  lemma {:induction false} RowsFrom12()
    ensures RowFrom(Rows12(12), 96)
    ensures RowFrom(Rows12(13), 104)
  {
  }

  lemma {:induction false} RowsFrom14()
    ensures RowFrom(Rows12(14), 112)
    ensures RowFrom(Rows12(15), 120)
  {
  }

  lemma {:induction false} RowsFrom16()
    ensures RowFrom(Rows16(16), 128)
    ensures RowFrom(Rows16(17), 136)
  {
  }

  lemma {:induction false} RowsFrom18()
    ensures RowFrom(Rows16(18), 144)
    ensures RowFrom(Rows16(19), 152)
  {
  }

  lemma {:induction false} RowsFrom20()
    ensures RowFrom(Rows20(20), 160)
    ensures RowFrom(Rows20(21), 168)
  {
  }

  lemma {:induction false} RowsFrom22()
    ensures RowFrom(Rows20(22), 176)
    ensures RowFrom(Rows20(23), 184)
  {
  }

  lemma {:induction false} RowsFrom24()
    ensures RowFrom(Rows24(24), 192)
    ensures RowFrom(Rows24(25), 200)
  {
  }

  lemma {:induction false} RowsFrom26()
    ensures RowFrom(Rows24(26), 208)
    ensures RowFrom(Rows24(27), 216)
  {
  }

  lemma {:induction false} RowsFrom28()
    ensures RowFrom(Rows28(28), 224)
    ensures RowFrom(Rows28(29), 232)
  {
  }

  lemma {:induction false} RowsFrom30()
    ensures RowFrom(Rows28(30), 240)
    ensures RowFrom(Rows28(31), 248)
  {
  }

  lemma {:induction false} LowRows(r: bv32)
    requires r < 16
    ensures RowFrom(Row(r), r << 3)
  {
    if r < 2 { RowsFrom0(); } else if r < 4 { RowsFrom2(); }
    else if r < 6 { RowsFrom4(); } else if r < 8 { RowsFrom6(); }
    else if r < 10 { RowsFrom8(); } else if r < 12 { RowsFrom10(); }
    else if r < 14 { RowsFrom12(); } else { RowsFrom14(); }
  }

  lemma {:induction false} HighRows(r: bv32)
    requires 16 <= r < 32
    ensures RowFrom(Row(r), r << 3)
  {
    if r < 18 { RowsFrom16(); } else if r < 20 { RowsFrom18(); }
    else if r < 22 { RowsFrom20(); } else if r < 24 { RowsFrom22(); }
    else if r < 26 { RowsFrom24(); } else if r < 28 { RowsFrom26(); }
    else if r < 30 { RowsFrom28(); } else { RowsFrom30(); }
  }

  lemma {:induction false} IndexParts(i: bv32)
    requires i < 256
    ensures (i >> 3) < 32 && ((i >> 3) << 3) + (i & 7) == i && i & 7 < 8
  {
  }

  /** The whole table holds eight shifts of each index. */
  lemma {:induction false} TableIsSerial(i: bv32)
    requires i < 256
    ensures Table(i) == Step8(i)
  {
    IndexParts(i);
    if (i >> 3) < 16 { LowRows(i >> 3); } else { HighRows(i >> 3); }
  }

  // ---------------------------------------------------------------- registers as numbers

  /** The number a register holds. */
  function Value(x: bv32): nat
    decreases x
  {
    if x == 0 then 0 else 2 * Value(x >> 1) + (if x & 1 == 1 then 1 else 0)
  }

  lemma {:induction false} Digits(x: bv32)
    ensures Value(x) / 2 == Value(x >> 1) && Value(x) % 2 == (if x & 1 == 1 then 1 else 0)
  {
  }

  lemma {:induction false} XorHalves(x: bv32, y: bv32)
    ensures (x ^ y) >> 1 == (x >> 1) ^ (y >> 1)
  {
  }

  lemma {:induction false} XorLowBit(x: bv32, y: bv32)
    ensures (x ^ y) & 1 == 1 <==> (x & 1 == 1) != (y & 1 == 1)
  {
  }

  lemma {:induction false} HalfValue(x: bv32, y: bv32)
    ensures Value(x ^ y) / 2 == Value((x >> 1) ^ (y >> 1))
  {
    Digits(x ^ y);
    XorHalves(x, y);
  }

  lemma {:induction false} ParityOfSum(a: nat, b: nat, v: nat)
    requires v % 2 == 1 <==> (a % 2 == 1) != (b % 2 == 1)
    ensures v % 2 == (a + b) % 2
  {
  }

  lemma {:induction false} ParityValue(x: bv32, y: bv32)
    ensures Value(x ^ y) % 2 == (Value(x) + Value(y)) % 2
  {
    Digits(x);
    Digits(y);
    Digits(x ^ y);
    XorLowBit(x, y);
    ParityOfSum(Value(x), Value(y), Value(x ^ y));
  }

  lemma {:induction false} ValueXorZero(x: bv32, y: bv32)
    requires x == 0
    ensures Value(x ^ y) == Xor(Value(x), Value(y))
  {
    assert x ^ y == y;
  }

  lemma {:induction false} ValueXorStep(x: bv32, y: bv32)
    requires Value((x >> 1) ^ (y >> 1)) == Xor(Value(x >> 1), Value(y >> 1))
    ensures Value(x ^ y) == Xor(Value(x), Value(y))
  {
    var v, a, b := Value(x ^ y), Value(x), Value(y);
    assert v / 2 == Xor(a / 2, b / 2) by {
      HalfValue(x, y);
      Digits(x);
      Digits(y);
    }
    assert v % 2 == (a + b) % 2 by {
      ParityValue(x, y);
    }
    XorFrom(v, a, b);
  }

  lemma {:induction false} ShiftDown(x: bv32)
    requires x != 0
    ensures (x >> 1) < x
  {
  }

  lemma {:induction false} ValueXor(x: bv32, y: bv32)
    ensures Value(x ^ y) == Xor(Value(x), Value(y))
    decreases x
  {
    if x == 0 {
      ValueXorZero(x, y);
    } else {
      ShiftDown(x);
      ValueXor(x >> 1, y >> 1);
      ValueXorStep(x, y);
    }
  }

  function Bit0(x: bv32): nat {
    if x & 1 == 1 then 1 else 0
  }

  lemma {:induction false} OneDigit(x: bv32)
    ensures Value(x) == Bit0(x) + 2 * Value(x >> 1)
  {
  }

  lemma {:induction false} TwoDigits(x: bv32)
    ensures Value(x) == Bit0(x) + 2 * Bit0(x >> 1) + 4 * Value(x >> 2)
  {
    assert (x >> 1) >> 1 == x >> 2;
    OneDigit(x);
    OneDigit(x >> 1);
  }

  lemma {:induction false} PolynomialValue()
    ensures Value(POLYNOMIAL) == CrcRegister.POLYNOMIAL
  {
    TwoDigits(0x3);
    TwoDigits(0xE);
    TwoDigits(0x3B);
    TwoDigits(0xED);
    TwoDigits(0x3B6);
    TwoDigits(0xEDB);
    TwoDigits(0x3B6E);
    TwoDigits(0xEDB8);
    TwoDigits(0x3B6E2);
    TwoDigits(0xEDB88);
    TwoDigits(0x3B6E20);
    TwoDigits(0xEDB883);
    TwoDigits(0x3B6E20C);
    TwoDigits(0xEDB8832);
    TwoDigits(0x3B6E20C8);
    TwoDigits(0xEDB88320);
  }

  lemma {:induction false} StepValue(c: bv32)
    ensures Value(Step(c)) == CrcRegister.Step(Value(c))
  {
    Digits(c);
    PolynomialValue();
    ValueXor(c >> 1, POLYNOMIAL);
  }

  lemma {:induction false} Step2Value(c: bv32, n: nat)
    requires n >= 2
    ensures CrcRegister.Shift(Value(c), n) == CrcRegister.Shift(Value(Step2(c)), n - 2)
  {
    StepValue(c);
    StepValue(Step(c));
    ShiftTwice(Value(c), Value(Step(c)), Value(Step2(c)), n);
  }

  lemma {:induction false} ShiftTwice(v: nat, w: nat, u: nat, n: nat)
    requires n >= 2 && w == CrcRegister.Step(v) && u == CrcRegister.Step(w)
    ensures CrcRegister.Shift(v, n) == CrcRegister.Shift(u, n - 2)
  {
    assert CrcRegister.Shift(v, n) == CrcRegister.Shift(w, n - 1);
  }

  lemma {:induction false} Step4Value(c: bv32, n: nat)
    requires n >= 4
    ensures CrcRegister.Shift(Value(c), n) == CrcRegister.Shift(Value(Step4(c)), n - 4)
  {
    Step2Value(c, n);
    Step2Value(Step2(c), n - 2);
  }

  lemma {:induction false} Step8Value(c: bv32)
    ensures Value(Step8(c)) == CrcRegister.Shift(Value(c), 8)
  {
    Step4Value(c, 8);
    Step4Value(Step4(c), 4);
  }

  lemma {:induction false} Left1(y: bv32)
    requires y < 0x8000_0000
    ensures Value(y << 1) == 2 * Value(y)
  {
    assert (y << 1) >> 1 == y && (y << 1) & 1 == 0;
    OneDigit(y << 1);
  }

  lemma {:induction false} Left2(y: bv32)
    requires y < 0x4000_0000
    ensures Value(y << 2) == 4 * Value(y)
  {
    assert (y << 1) << 1 == y << 2 && (y << 1) < 0x8000_0000;
    Left1(y);
    Left1(y << 1);
  }

  lemma {:induction false} Left4(y: bv32)
    requires y < 0x1000_0000
    ensures Value(y << 4) == 16 * Value(y)
  {
    assert (y << 2) << 2 == y << 4 && (y << 2) < 0x4000_0000;
    Left2(y);
    Left2(y << 2);
  }

  lemma {:induction false} Left8(y: bv32)
    requires y < 0x0100_0000
    ensures Value(y << 8) == Value(y) * 256
  {
    assert (y << 4) << 4 == y << 8 && (y << 4) < 0x1000_0000;
    Left4(y);
    Left4(y << 4);
  }

  // ---------------------------------------------------------------- bytes

  /** The n low bits of a byte, lowest first. */
  function BitsOf(c: bv32, n: nat): (bits: seq<bool>)
    ensures |bits| == n
    decreases n
  {
    if n == 0 then [] else [c & 1 == 1] + BitsOf(c >> 1, n - 1)
  }

  function ByteBits(b: bv8): (bits: seq<bool>)
    ensures |bits| == 8
  {
    BitsOf(b as bv32, 8)
  }

  /** What f gives for each byte, one after the other. */
  function Gather<T>(f: bv8 -> seq<T>, buf: seq<bv8>): seq<T>
    decreases |buf|
  {
    if buf == [] then [] else f(buf[0]) + Gather(f, buf[1..])
  }

  lemma {:induction false} GatherAppend<T>(f: bv8 -> seq<T>, a: seq<bv8>, b: seq<bv8>)
    ensures Gather(f, a + b) == Gather(f, a) + Gather(f, b)
    decreases |a|
  {
    if a == [] {
      assert a + b == b;
    } else {
      GatherAppend(f, a[1..], b);
      assert (a + b)[1..] == a[1..] + b;
    }
  }

  lemma {:induction false} GatherLength<T>(f: bv8 -> seq<T>, n: nat, buf: seq<bv8>)
    requires forall b :: |f(b)| == n
    ensures |Gather(f, buf)| == n * |buf|
    decreases |buf|
  {
    if buf != [] { GatherLength(f, n, buf[1..]); }
  }

  /** Equal-length pieces: different buffers give different sequences if different bytes do. */
  lemma {:induction false} GatherDiffers<T>(f: bv8 -> seq<T>, n: nat, u: seq<bv8>, v: seq<bv8>)
    requires forall b :: |f(b)| == n
    requires forall b, c :: b != c ==> f(b) != f(c)
    requires |u| == |v| && u != v
    ensures Gather(f, u) != Gather(f, v)
    decreases |u|
  {
    var b, c := u[0], v[0];
    Parts(f(b), Gather(f, u[1..]));
    Parts(f(c), Gather(f, v[1..]));
    if b == c {
      assert u == [b] + u[1..] && v == [c] + v[1..];
      GatherDiffers(f, n, u[1..], v[1..]);
    }
  }

  lemma {:induction false} Parts<T>(x: seq<T>, y: seq<T>)
    ensures (x + y)[..|x|] == x && (x + y)[|x|..] == y
  {
  }

  /** The bits of a buffer in the order they are sent. */
  function AllBits(buf: seq<bv8>): seq<bool> {
    Gather(ByteBits, buf)
  }

  /** crc32 of a buffer, by the bit-serial register (section 8 of RFC 1952). */
  function CrcOf(buf: seq<bv8>): int {
    0xFFFF_FFFF - CrcRegister.Feed(0xFFFF_FFFF, AllBits(buf))
  }

  predicate Short(c: bv32, n: nat)
    decreases n
  {
    if n == 0 then c == 0 else Short(c >> 1, n - 1)
  }

  lemma {:induction false} WordOfBits(c: bv32, n: nat)
    requires Short(c, n)
    ensures CrcRegister.Word(BitsOf(c, n)) == Value(c)
    decreases n
  {
    if n > 0 {
      WordOfBits(c >> 1, n - 1);
      assert BitsOf(c, n)[1..] == BitsOf(c >> 1, n - 1);
      OneDigit(c);
    }
  }

  lemma {:induction false} ByteIsShort(b: bv8)
    ensures Short(b as bv32, 8)
  {
    Halvings(b as bv32);
  }

  lemma {:induction false} Halvings(c: bv32)
    requires c < 256
    ensures Short(c, 8)
  {
  }

  /** One byte c of the table-driven loop. */
  function Update(crc: bv32, c: bv32): bv32 {
    Table((crc ^ c) & 0xFF) ^ (crc >> 8)
  }

  lemma {:induction false} Halves(crc: bv32, b: bv32)
    requires b < 256
    ensures var x := crc ^ b;
            && (x & 0xFF) < 256 && crc >> 8 == x >> 8 && (x >> 8) < 0x0100_0000
            && x == (x & 0xFF) ^ ((x >> 8) << 8)
  {
  }

  lemma {:induction false} TableValue(lo: bv32)
    requires lo < 256
    ensures Value(Table(lo)) == CrcRegister.Shift(Value(lo), 8)
  {
    TableIsSerial(lo);
    Step8Value(lo);
  }

  lemma {:induction false} EightBits()
    ensures Pow2(8) == 256
  {
    assert Pow2(4) == 16;
  }

  /** Eight shifts of the low byte, with the rest moved down, are eight shifts of the whole. */
  lemma {:induction false} LookupStep(x: bv32, lo: bv32, hi: bv32, t: bv32)
    requires hi < 0x0100_0000 && x == lo ^ (hi << 8) && Value(t) == CrcRegister.Shift(Value(lo), 8)
    ensures Value(t ^ hi) == CrcRegister.Shift(Value(x), 8)
  {
    ValueXor(t, hi);
    Left8(hi);
    ValueXor(lo, hi << 8);
    EightBits();
    CrcRegister.ShiftHigh(Value(lo), Value(hi), 8);
  }

  lemma {:induction false} Lookup(x: bv32, lo: bv32, hi: bv32)
    requires lo < 256 && hi < 0x0100_0000 && x == lo ^ (hi << 8)
    ensures Value(Table(lo) ^ hi) == CrcRegister.Shift(Value(x), 8)
  {
    TableValue(lo);
    LookupStep(x, lo, hi, Table(lo));
  }

  lemma {:induction false} SameUpdate(crc: bv32, c: bv32, lo: bv32, hi: bv32)
    requires lo < 256 && lo == (crc ^ c) & 0xFF && hi == crc >> 8
    ensures Update(crc, c) == Table(lo) ^ hi
  {
  }

  lemma {:induction false} TableStep(crc: bv32, c: bv32)
    requires c < 256
    ensures Value(Update(crc, c)) == CrcRegister.Shift(Value(crc ^ c), 8)
  {
    var x := crc ^ c;
    var lo, hi := x & 0xFF, crc >> 8;
    Halves(crc, c);
    SameUpdate(crc, c, lo, hi);
    Lookup(x, lo, hi);
  }

  lemma {:induction false} FedBits(crc: bv32, c: bv32, n: nat)
    requires Short(c, n)
    ensures CrcRegister.Feed(Value(crc), BitsOf(c, n)) == CrcRegister.Shift(Value(crc ^ c), n)
  {
    WordOfBits(c, n);
    ValueXor(crc, c);
    CrcRegister.FeedIsShift(Value(crc), BitsOf(c, n));
  }

  /** The table loop's step is the bit-serial one, for every register and byte. */
  lemma {:induction false} UpdateIsSerial(crc: bv32, b: bv8)
    ensures Value(Update(crc, b as bv32)) == CrcRegister.Feed(Value(crc), ByteBits(b))
  {
    TableStep(crc, b as bv32);
    ByteIsShort(b);
    FedBits(crc, b as bv32, 8);
  }

  lemma {:induction false} OneMore(c: nat, buf: seq<bv8>, i: nat)
    requires i < |buf|
    ensures CrcRegister.Feed(c, AllBits(buf[..i + 1])) ==
            CrcRegister.Feed(CrcRegister.Feed(c, AllBits(buf[..i])), ByteBits(buf[i]))
  {
    assert buf[..i + 1] == buf[..i] + [buf[i]];
    GatherAppend(ByteBits, buf[..i], [buf[i]]);
    assert AllBits([buf[i]]) == ByteBits(buf[i]) + AllBits([]) == ByteBits(buf[i]);
    CrcRegister.FeedAppend(c, AllBits(buf[..i]), ByteBits(buf[i]));
  }

  lemma {:induction false} OnesValue()
    ensures Value(0xFFFF_FFFF) == 0xFFFF_FFFF
  {
    TwoDigits(0xFFFF_FFFF);
    TwoDigits(0x3FFF_FFFF);
    TwoDigits(0x0FFF_FFFF);
    TwoDigits(0x03FF_FFFF);
    TwoDigits(0x00FF_FFFF);
    TwoDigits(0x003F_FFFF);
    TwoDigits(0x000F_FFFF);
    TwoDigits(0x0003_FFFF);
    TwoDigits(0xFFFF);
    TwoDigits(0x3FFF);
    TwoDigits(0x0FFF);
    TwoDigits(0x03FF);
    TwoDigits(0xFF);
    TwoDigits(0x3F);
    TwoDigits(0x0F);
    TwoDigits(0x03);
  }

  /** Flipping all bits of the register. */
  lemma {:induction false} Complement(crc: bv32)
    requires Value(crc) < Pow2(32)
    ensures Value(crc ^ 0xFFFF_FFFF) == 0xFFFF_FFFF - Value(crc)
  {
    OnesValue();
    ValueXor(crc, 0xFFFF_FFFF);
    Pow2Of32();
    XorOnes(Value(crc), 32);
  }

  /** crc32; the seed passed in is overwritten before the loop. */
  method Crc32(seed: bv32, buf: seq<bv8>) returns (r: bv32)
    ensures Value(r) == CrcOf(buf)
  {
    var crc: bv32 := 0xFFFF_FFFF;
    OnesValue();
    var i := 0;
    while i < |buf|
      invariant i <= |buf|
      invariant Value(crc) == CrcRegister.Feed(0xFFFF_FFFF, AllBits(buf[..i]))
    {
      UpdateIsSerial(crc, buf[i]);
      OneMore(0xFFFF_FFFF, buf, i);
      crc := Update(crc, buf[i] as bv32);
      i := i + 1;
    }
    assert buf[..i] == buf;
    Pow2Of32();
    CrcRegister.FeedBound(0xFFFF_FFFF, AllBits(buf));
    Complement(crc);
    r := crc ^ 0xFFFF_FFFF;
  }

  // ---------------------------------------------------------------- what it detects

  lemma {:induction false} BitsDiffer(c: bv32, d: bv32, n: nat)
    requires Short(c, n) && Short(d, n) && BitsOf(c, n) == BitsOf(d, n)
    ensures c == d
    decreases n
  {
    if n > 0 {
      TailOfBits(c, n);
      TailOfBits(d, n);
      BitsDiffer(c >> 1, d >> 1, n - 1);
      SameHalves(c, d);
    }
  }

  lemma {:induction false} TailOfBits(c: bv32, n: nat)
    requires n > 0
    ensures BitsOf(c, n)[1..] == BitsOf(c >> 1, n - 1) && (BitsOf(c, n)[0] <==> c & 1 == 1)
    ensures Short(c, n) ==> Short(c >> 1, n - 1)
  {
  }

  lemma {:induction false} SameHalves(x: bv32, y: bv32)
    requires x >> 1 == y >> 1 && (x & 1 == 1 <==> y & 1 == 1)
    ensures x == y
  {
  }

  lemma {:induction false} ByteBitsDiffer(a: bv8, b: bv8)
    requires a != b
    ensures ByteBits(a) != ByteBits(b)
  {
    ByteIsShort(a);
    ByteIsShort(b);
    if ByteBits(a) == ByteBits(b) {
      BitsDiffer(a as bv32, b as bv32, 8);
    }
  }

  lemma {:induction false} BufferBitsDiffer(u: seq<bv8>, v: seq<bv8>)
    requires |u| == |v| && u != v
    ensures AllBits(u) != AllBits(v)
    ensures |AllBits(u)| == |AllBits(v)| == 8 * |u|
  {
    forall b: bv8, c: bv8 | b != c
      ensures ByteBits(b) != ByteBits(c)
    {
      ByteBitsDiffer(b, c);
    }
    GatherDiffers(ByteBits, 8, u, v);
    GatherLength(ByteBits, 8, u);
    GatherLength(ByteBits, 8, v);
  }

  /** Buffers that differ only inside a window of at most four bytes have different checksums. */
  lemma {:induction false} WindowDetected(p: seq<bv8>, u: seq<bv8>, v: seq<bv8>, s: seq<bv8>)
    requires |u| == |v| <= 4 && u != v
    ensures CrcOf(p + u + s) != CrcOf(p + v + s)
  {
    GatherAppend(ByteBits, p + u, s);
    GatherAppend(ByteBits, p, u);
    GatherAppend(ByteBits, p + v, s);
    GatherAppend(ByteBits, p, v);
    BufferBitsDiffer(u, v);
    Pow2Of32();
    CrcRegister.BurstDetected(0xFFFF_FFFF, AllBits(p), AllBits(u), AllBits(v), AllBits(s));
  }

  // ---------------------------------------------------------------- a buffer with its checksum behind it

  /** The empty buffer. */
  lemma {:induction false} EmptyCrc()
    ensures CrcOf([]) == 0
  {
    assert AllBits([]) == [];
  }

  /** The four bytes of a checksum, low byte first. */
  function CrcBytes(r: bv32): (b: seq<bv8>)
    ensures |b| == 4
  {
    [(r & 0xFF) as bv8, ((r >> 8) & 0xFF) as bv8, ((r >> 16) & 0xFF) as bv8, ((r >> 24) & 0xFF) as bv8]
  }

  predicate SameLow(c: bv32, d: bv32, n: nat)
    decreases n
  {
    n == 0 || ((c & 1) == (d & 1) && SameLow(c >> 1, d >> 1, n - 1))
  }

  lemma {:induction false} SameLowBits(c: bv32, d: bv32, n: nat)
    requires SameLow(c, d, n)
    ensures BitsOf(c, n) == BitsOf(d, n)
    decreases n
  {
    if n > 0 { SameLowBits(c >> 1, d >> 1, n - 1); }
  }

  lemma {:induction false} LowByteSame(c: bv32)
    ensures SameLow(c, c & 0xFF, 8)
  {
  }

  lemma {:induction false} LowByte(c: bv32)
    ensures ByteBits((c & 0xFF) as bv8) == BitsOf(c, 8)
  {
    assert (c & 0xFF) as bv8 as bv32 == c & 0xFF;
    LowByteSame(c);
    SameLowBits(c, c & 0xFF, 8);
  }

  function Down(c: bv32, k: nat): bv32
    decreases k
  {
    if k == 0 then c else Down(c >> 1, k - 1)
  }

  lemma {:induction false} BitsFrom(c: bv32, k: nat, n: nat)
    ensures BitsOf(c, k + n) == BitsOf(c, k) + BitsOf(Down(c, k), n)
    decreases k
  {
    if k == 0 {
      assert [] + BitsOf(c, n) == BitsOf(c, n);
    } else {
      BitsFrom(c >> 1, k - 1, n);
      assert [c & 1 == 1] + (BitsOf(c >> 1, k - 1) + BitsOf(Down(c, k), n)) == BitsOf(c, k) + BitsOf(Down(c, k), n);
    }
  }

  lemma {:induction false} Down8(c: bv32)
    ensures Down(c, 8) == c >> 8
  {
  }

  /** A byte and the bits behind it. */
  lemma {:induction false} ByteThen(c: bv32, lo: bv8, hi: bv32, n: nat)
    requires lo == (c & 0xFF) as bv8 && hi == c >> 8
    ensures BitsOf(c, n + 8) == ByteBits(lo) + BitsOf(hi, n)
  {
    LowByte(c);
    BitsFrom(c, 8, n);
    Down8(c);
  }

  lemma {:induction false} GatherOne<T>(f: bv8 -> seq<T>, a: bv8, rest: seq<bv8>)
    ensures Gather(f, [a] + rest) == f(a) + Gather(f, rest)
  {
    assert ([a] + rest)[1..] == rest;
  }

  lemma {:induction false} GatherFour<T>(f: bv8 -> seq<T>, a: bv8, b: bv8, c: bv8, d: bv8)
    ensures Gather(f, [a, b, c, d]) == f(a) + (f(b) + (f(c) + (f(d) + [])))
  {
    GatherOne(f, d, []);
    GatherOne(f, c, [d] + []);
    GatherOne(f, b, [c] + ([d] + []));
    GatherOne(f, a, [b] + ([c] + ([d] + [])));
    assert [a] + ([b] + ([c] + ([d] + []))) == [a, b, c, d];
  }

  /** The bytes of a checksum, by shifts of eight. */
  lemma {:induction false} CrcBytesAre(r: bv32) returns (x: bv32, y: bv32, z: bv32, a: bv8, b: bv8, c: bv8, d: bv8)
    ensures x == r >> 8 && y == x >> 8 && z == y >> 8 && z >> 8 == 0
    ensures a == (r & 0xFF) as bv8 && b == (x & 0xFF) as bv8 && c == (y & 0xFF) as bv8 && d == (z & 0xFF) as bv8
    ensures CrcBytes(r) == [a, b, c, d]
  {
    x, y, z := r >> 8, r >> 16, r >> 24;
    Shifts(r, x, y, z);
    var bytes := CrcBytes(r);
    a, b, c, d := bytes[0], bytes[1], bytes[2], bytes[3];
    assert bytes == [a, b, c, d];
  }

  lemma {:induction false} Shifts(r: bv32, x: bv32, y: bv32, z: bv32)
    requires x == r >> 8 && y == r >> 16 && z == r >> 24
    ensures y == x >> 8 && z == y >> 8 && z >> 8 == 0
  {
  }

  lemma {:induction false} FourBytes(r: bv32, x: bv32, y: bv32, z: bv32, a: bv8, b: bv8, c: bv8, d: bv8, n: nat)
    requires x == r >> 8 && y == x >> 8 && z == y >> 8
    requires a == (r & 0xFF) as bv8 && b == (x & 0xFF) as bv8 && c == (y & 0xFF) as bv8 && d == (z & 0xFF) as bv8
    ensures BitsOf(r, n + 8 + 8 + 8 + 8)
            == ByteBits(a) + (ByteBits(b) + (ByteBits(c) + (ByteBits(d) + BitsOf(z >> 8, n))))
  {
    ByteThen(r, a, x, n + 8 + 8 + 8);
    ByteThen(x, b, y, n + 8 + 8);
    ByteThen(y, c, z, n + 8);
    ByteThen(z, d, z >> 8, n);
  }

  /** The bytes of a checksum are sent lowest bit first. */
  lemma {:induction false} CrcBytesBits(r: bv32)
    ensures AllBits(CrcBytes(r)) == BitsOf(r, 32)
  {
    var x, y, z, a, b, c, d := CrcBytesAre(r);
    GatherFour(ByteBits, a, b, c, d);
    FourBytes(r, x, y, z, a, b, c, d, 0);
  }

  lemma {:induction false} ShortAll(c: bv32)
    ensures Short(c, 32)
  {
    ShortFrom(c, 24);
    ShortFrom(c >> 8, 16);
    ShortFrom((c >> 8) >> 8, 8);
    ShortFrom(((c >> 8) >> 8) >> 8, 0);
    assert (((c >> 8) >> 8) >> 8) >> 8 == 0;
  }

  lemma {:induction false} ShortFrom(c: bv32, n: nat)
    ensures Short(c >> 8, n) <==> Short(c, n + 8)
  {
    ShortDown(c, 8, n);
    Down8(c);
  }

  lemma {:induction false} ShortDown(c: bv32, k: nat, n: nat)
    ensures Short(Down(c, k), n) <==> Short(c, n + k)
    decreases k
  {
    if k > 0 { ShortDown(c >> 1, k - 1, n); }
  }

  /** Thirty-two shifts of a register of ones. */
  lemma {:induction false} OnesShifted()
    ensures CrcRegister.Shift(0xFFFF_FFFF, 32) == Value(0xDEBB_20E3)
  {
    OnesValue();
    Step8Value(0xFFFF_FFFF);
    Step8Value(0x2DFD_1072);
    Step8Value(0xBE26_ED00);
    Step8Value(0x00BE_26ED);
    StepConstants();
    CrcRegister.ShiftSum(0xFFFF_FFFF, 8, 24);
    CrcRegister.ShiftSum(Value(0x2DFD_1072), 8, 16);
    CrcRegister.ShiftSum(Value(0xBE26_ED00), 8, 8);
  }

  lemma {:induction false} StepConstants()
    ensures Step8(0xFFFF_FFFF) == 0x2DFD_1072 && Step8(0x2DFD_1072) == 0xBE26_ED00
    ensures Step8(0xBE26_ED00) == 0x00BE_26ED && Step8(0x00BE_26ED) == 0xDEBB_20E3
  {
  }

  lemma {:induction false} ResidueValue()
    ensures Value(0xDEBB_20E3) == 0xDEBB_20E3
  {
    TwoDigits(0xDEBB_20E3);
    TwoDigits(0x37AE_C838);
    TwoDigits(0x0DEB_B20E);
    TwoDigits(0x037A_EC83);
    TwoDigits(0x00DE_BB20);
    TwoDigits(0x0037_AEC8);
    TwoDigits(0x000D_EBB2);
    TwoDigits(0x0003_7AEC);
    TwoDigits(0xDEBB);
    TwoDigits(0x37AE);
    TwoDigits(0x0DEB);
    TwoDigits(0x037A);
    TwoDigits(0xDE);
    TwoDigits(0x37);
    TwoDigits(0x0D);
    TwoDigits(0x03);
  }

  /** The checksum fed back leaves all ones before the shifts. */
  lemma {:induction false} OnesLeft(v: nat)
    requires v <= 0xFFFF_FFFF
    ensures Xor(0xFFFF_FFFF - v, v) == 0xFFFF_FFFF
  {
    Pow2Of32();
    XorOnes(v, 32);
    XorCommutes(v, 0xFFFF_FFFF);
    XorAssociates(0xFFFF_FFFF, v, v);
    XorSelf(v);
    XorCommutes(0xFFFF_FFFF, 0);
  }

  /** Feeding the bytes of the complement of a register ends in the same register, whatever it was. */
  lemma {:induction false} FedBack(v: nat, r: bv32)
    requires v <= 0xFFFF_FFFF && Value(r) == v
    ensures CrcRegister.Feed(0xFFFF_FFFF - v, AllBits(CrcBytes(r))) == 0xDEBB_20E3
  {
    CrcBytesBits(r);
    ShortAll(r);
    WordOfBits(r, 32);
    CrcRegister.FeedIsShift(0xFFFF_FFFF - v, BitsOf(r, 32));
    OnesLeft(v);
    OnesShifted();
    ResidueValue();
  }

  /** How a receiver checks: any buffer followed by its checksum, low byte first, has the checksum 0x2144DF1C. */
  lemma {:induction false} Residue(buf: seq<bv8>, r: bv32)
    requires Value(r) == CrcOf(buf)
    ensures CrcOf(buf + CrcBytes(r)) == 0x2144_DF1C
  {
    GatherAppend(ByteBits, buf, CrcBytes(r));
    CrcRegister.FeedAppend(0xFFFF_FFFF, AllBits(buf), AllBits(CrcBytes(r)));
    Pow2Of32();
    CrcRegister.FeedBound(0xFFFF_FFFF, AllBits(buf));
    FedBack(CrcOf(buf), r);
  }
}
