/** The table-driven CRC-32 of the bootloader. */
module Crc32 {
  import opened Bytes

  // ---------------------------------------------------------------- operations on words

  function Low(x: bv32): (r: bv32)
    ensures r < 256
  {
    x & 0xFF
  }

  function High(x: bv32): bv32 {
    x & 0xFFFFFF00
  }

  function Down(x: bv32): bv32 {
    x >> 8
  }

  function Up(x: bv32): bv32 {
    x << 8
  }

  function Xor(a: bv32, b: bv32): bv32 {
    a ^ b
  }

  function Not(a: bv32): bv32 {
    a ^ 0xFFFFFFFF
  }

  // ---------------------------------------------------------------- the code

  /** Eight consecutive entries of the table, from entry 8 * k. */
  function Row(k: bv32): (r: seq<bv32>)
    ensures |r| == 8
  {
    match k
    case 0 => [0x00000000, 0x77073096, 0xEE0E612C, 0x990951BA, 0x076DC419, 0x706AF48F, 0xE963A535, 0x9E6495A3]
    case 1 => [0x0EDB8832, 0x79DCB8A4, 0xE0D5E91E, 0x97D2D988, 0x09B64C2B, 0x7EB17CBD, 0xE7B82D07, 0x90BF1D91]
    case 2 => [0x1DB71064, 0x6AB020F2, 0xF3B97148, 0x84BE41DE, 0x1ADAD47D, 0x6DDDE4EB, 0xF4D4B551, 0x83D385C7]
    case 3 => [0x136C9856, 0x646BA8C0, 0xFD62F97A, 0x8A65C9EC, 0x14015C4F, 0x63066CD9, 0xFA0F3D63, 0x8D080DF5]
    case 4 => [0x3B6E20C8, 0x4C69105E, 0xD56041E4, 0xA2677172, 0x3C03E4D1, 0x4B04D447, 0xD20D85FD, 0xA50AB56B]
    case 5 => [0x35B5A8FA, 0x42B2986C, 0xDBBBC9D6, 0xACBCF940, 0x32D86CE3, 0x45DF5C75, 0xDCD60DCF, 0xABD13D59]
    case 6 => [0x26D930AC, 0x51DE003A, 0xC8D75180, 0xBFD06116, 0x21B4F4B5, 0x56B3C423, 0xCFBA9599, 0xB8BDA50F]
    case 7 => [0x2802B89E, 0x5F058808, 0xC60CD9B2, 0xB10BE924, 0x2F6F7C87, 0x58684C11, 0xC1611DAB, 0xB6662D3D]
    case 8 => [0x76DC4190, 0x01DB7106, 0x98D220BC, 0xEFD5102A, 0x71B18589, 0x06B6B51F, 0x9FBFE4A5, 0xE8B8D433]
    case 9 => [0x7807C9A2, 0x0F00F934, 0x9609A88E, 0xE10E9818, 0x7F6A0DBB, 0x086D3D2D, 0x91646C97, 0xE6635C01]
    case 10 => [0x6B6B51F4, 0x1C6C6162, 0x856530D8, 0xF262004E, 0x6C0695ED, 0x1B01A57B, 0x8208F4C1, 0xF50FC457]
    case 11 => [0x65B0D9C6, 0x12B7E950, 0x8BBEB8EA, 0xFCB9887C, 0x62DD1DDF, 0x15DA2D49, 0x8CD37CF3, 0xFBD44C65]
    case 12 => [0x4DB26158, 0x3AB551CE, 0xA3BC0074, 0xD4BB30E2, 0x4ADFA541, 0x3DD895D7, 0xA4D1C46D, 0xD3D6F4FB]
    case 13 => [0x4369E96A, 0x346ED9FC, 0xAD678846, 0xDA60B8D0, 0x44042D73, 0x33031DE5, 0xAA0A4C5F, 0xDD0D7CC9]
    case 14 => [0x5005713C, 0x270241AA, 0xBE0B1010, 0xC90C2086, 0x5768B525, 0x206F85B3, 0xB966D409, 0xCE61E49F]
    case 15 => [0x5EDEF90E, 0x29D9C998, 0xB0D09822, 0xC7D7A8B4, 0x59B33D17, 0x2EB40D81, 0xB7BD5C3B, 0xC0BA6CAD]
    case 16 => [0xEDB88320, 0x9ABFB3B6, 0x03B6E20C, 0x74B1D29A, 0xEAD54739, 0x9DD277AF, 0x04DB2615, 0x73DC1683]
    case 17 => [0xE3630B12, 0x94643B84, 0x0D6D6A3E, 0x7A6A5AA8, 0xE40ECF0B, 0x9309FF9D, 0x0A00AE27, 0x7D079EB1]
    case 18 => [0xF00F9344, 0x8708A3D2, 0x1E01F268, 0x6906C2FE, 0xF762575D, 0x806567CB, 0x196C3671, 0x6E6B06E7]
    case 19 => [0xFED41B76, 0x89D32BE0, 0x10DA7A5A, 0x67DD4ACC, 0xF9B9DF6F, 0x8EBEEFF9, 0x17B7BE43, 0x60B08ED5]
    case 20 => [0xD6D6A3E8, 0xA1D1937E, 0x38D8C2C4, 0x4FDFF252, 0xD1BB67F1, 0xA6BC5767, 0x3FB506DD, 0x48B2364B]
    case 21 => [0xD80D2BDA, 0xAF0A1B4C, 0x36034AF6, 0x41047A60, 0xDF60EFC3, 0xA867DF55, 0x316E8EEF, 0x4669BE79]
    case 22 => [0xCB61B38C, 0xBC66831A, 0x256FD2A0, 0x5268E236, 0xCC0C7795, 0xBB0B4703, 0x220216B9, 0x5505262F]
    case 23 => [0xC5BA3BBE, 0xB2BD0B28, 0x2BB45A92, 0x5CB36A04, 0xC2D7FFA7, 0xB5D0CF31, 0x2CD99E8B, 0x5BDEAE1D]
    case 24 => [0x9B64C2B0, 0xEC63F226, 0x756AA39C, 0x026D930A, 0x9C0906A9, 0xEB0E363F, 0x72076785, 0x05005713]
    case 25 => [0x95BF4A82, 0xE2B87A14, 0x7BB12BAE, 0x0CB61B38, 0x92D28E9B, 0xE5D5BE0D, 0x7CDCEFB7, 0x0BDBDF21]
    case 26 => [0x86D3D2D4, 0xF1D4E242, 0x68DDB3F8, 0x1FDA836E, 0x81BE16CD, 0xF6B9265B, 0x6FB077E1, 0x18B74777]
    case 27 => [0x88085AE6, 0xFF0F6A70, 0x66063BCA, 0x11010B5C, 0x8F659EFF, 0xF862AE69, 0x616BFFD3, 0x166CCF45]
    case 28 => [0xA00AE278, 0xD70DD2EE, 0x4E048354, 0x3903B3C2, 0xA7672661, 0xD06016F7, 0x4969474D, 0x3E6E77DB]
    case 29 => [0xAED16A4A, 0xD9D65ADC, 0x40DF0B66, 0x37D83BF0, 0xA9BCAE53, 0xDEBB9EC5, 0x47B2CF7F, 0x30B5FFE9]
    case 30 => [0xBDBDF21C, 0xCABAC28A, 0x53B39330, 0x24B4A3A6, 0xBAD03605, 0xCDD70693, 0x54DE5729, 0x23D967BF]
    case _ => [0xB3667A2E, 0xC4614AB8, 0x5D681B02, 0x2A6F2B94, 0xB40BBE37, 0xC30C8EA1, 0x5A05DF1B, 0x2D02EF8D]
  }

  /** Entry `i` of the table. */
  function Table(i: bv32): bv32
    requires i < 256
  {
    Row(i >> 3)[(i & 7) as nat]
  }

  function Word(b: byte): bv32 {
    (b as bv8) as bv32
  }

  function TableStep(crc: bv32, b: byte): bv32 {
    Xor(Table(Low(Xor(crc, Word(b)))), Down(crc))
  }

  method Crc32Inc(buf: array<byte>, size: nat, crc0: bv32) returns (crc: bv32)
    requires size <= buf.Length
    ensures crc == Checksum(buf[..size], crc0)
  {
    hide Bit, Shift, Word, Xor, Not, TableStep, Table;
    crc := Not(crc0);
    var p := 0;
    while p < size
      invariant 0 <= p <= size
      invariant Run(buf[..size], Not(crc0)) == Run(buf[p..size], crc)
    {
      TableStepIsBitwise(crc, buf[p]);
      assert buf[p..size][0] == buf[p] && buf[p..size][1..] == buf[p + 1..size];
      crc := TableStep(crc, buf[p]);
      p := p + 1;
    }
    assert buf[..size] == buf[0..size] && buf[p..size] == [];
    crc := Not(crc);
  }

  // ---------------------------------------------------------------- section 8 of RFC 1952

  const POLYNOMIAL: bv32 := 0xEDB88320

  /** One bit of the message, reflected. */
  function Bit(c: bv32): bv32 {
    if c & 1 == 1 then (c >> 1) ^ POLYNOMIAL else c >> 1
  }

  function Shift(n: nat, c: bv32): bv32 {
    if n == 0 then c else Shift(n - 1, Bit(c))
  }

  /** The register after the message bytes, a bit at a time. */
  function Run(data: seq<byte>, c: bv32): bv32 {
    if data == [] then c else Run(data[1..], Shift(8, Xor(c, Word(data[0]))))
  }

  function Checksum(data: seq<byte>, crc: bv32): bv32 {
    Not(Run(data, Not(crc)))
  }

  // ---------------------------------------------------------------- the table is the polynomial's

  /** Shift by eight, unrolled. */
  function Eight(c: bv32): bv32 {
    Bit(Bit(Bit(Bit(Bit(Bit(Bit(Bit(c))))))))
  }

  function Entries(base: bv32): (r: seq<bv32>)
    ensures |r| == 8
  {
    [Eight(base), Eight(base + 1), Eight(base + 2), Eight(base + 3),
     Eight(base + 4), Eight(base + 5), Eight(base + 6), Eight(base + 7)]
  }

  lemma Row0() ensures Row(0) == Entries(0) {}
  lemma Row1() ensures Row(1) == Entries(8) {}
  lemma Row2() ensures Row(2) == Entries(16) {}
  lemma Row3() ensures Row(3) == Entries(24) {}
  lemma Row4() ensures Row(4) == Entries(32) {}
  lemma Row5() ensures Row(5) == Entries(40) {}
  lemma Row6() ensures Row(6) == Entries(48) {}
  lemma Row7() ensures Row(7) == Entries(56) {}
  lemma Row8() ensures Row(8) == Entries(64) {}
  lemma Row9() ensures Row(9) == Entries(72) {}
  lemma Row10() ensures Row(10) == Entries(80) {}
  lemma Row11() ensures Row(11) == Entries(88) {}
  lemma Row12() ensures Row(12) == Entries(96) {}
  lemma Row13() ensures Row(13) == Entries(104) {}
  lemma Row14() ensures Row(14) == Entries(112) {}
  lemma Row15() ensures Row(15) == Entries(120) {}
  lemma Row16() ensures Row(16) == Entries(128) {}
  lemma Row17() ensures Row(17) == Entries(136) {}
  lemma Row18() ensures Row(18) == Entries(144) {}
  lemma Row19() ensures Row(19) == Entries(152) {}
  lemma Row20() ensures Row(20) == Entries(160) {}
  lemma Row21() ensures Row(21) == Entries(168) {}
  lemma Row22() ensures Row(22) == Entries(176) {}
  lemma Row23() ensures Row(23) == Entries(184) {}
  lemma Row24() ensures Row(24) == Entries(192) {}
  lemma Row25() ensures Row(25) == Entries(200) {}
  lemma Row26() ensures Row(26) == Entries(208) {}
  lemma Row27() ensures Row(27) == Entries(216) {}
  lemma Row28() ensures Row(28) == Entries(224) {}
  lemma Row29() ensures Row(29) == Entries(232) {}
  lemma Row30() ensures Row(30) == Entries(240) {}
  lemma Row31() ensures Row(31) == Entries(248) {}

  lemma RowIsBitwise(k: bv32)
    requires k < 32
    ensures Row(k) == Entries(k << 3)
  {
    if k == 0 { Row0(); }
    else if k == 1 { Row1(); }
    else if k == 2 { Row2(); }
    else if k == 3 { Row3(); }
    else if k == 4 { Row4(); }
    else if k == 5 { Row5(); }
    else if k == 6 { Row6(); }
    else if k == 7 { Row7(); }
    else if k == 8 { Row8(); }
    else if k == 9 { Row9(); }
    else if k == 10 { Row10(); }
    else if k == 11 { Row11(); }
    else if k == 12 { Row12(); }
    else if k == 13 { Row13(); }
    else if k == 14 { Row14(); }
    else if k == 15 { Row15(); }
    else if k == 16 { Row16(); }
    else if k == 17 { Row17(); }
    else if k == 18 { Row18(); }
    else if k == 19 { Row19(); }
    else if k == 20 { Row20(); }
    else if k == 21 { Row21(); }
    else if k == 22 { Row22(); }
    else if k == 23 { Row23(); }
    else if k == 24 { Row24(); }
    else if k == 25 { Row25(); }
    else if k == 26 { Row26(); }
    else if k == 27 { Row27(); }
    else if k == 28 { Row28(); }
    else if k == 29 { Row29(); }
    else if k == 30 { Row30(); }
    else { Row31(); }
  }

  lemma ShiftIsEight(c: bv32)
    ensures Shift(8, c) == Eight(c)
  {
    hide Bit;
    var c2 := Bit(Bit(c));
    var c4 := Bit(Bit(c2));
    var c6 := Bit(Bit(c4));
    assert Shift(8, c) == Shift(7, Bit(c)) && Shift(7, Bit(c)) == Shift(6, c2);
    assert Shift(6, c2) == Shift(5, Bit(c2)) && Shift(5, Bit(c2)) == Shift(4, c4);
    assert Shift(4, c4) == Shift(3, Bit(c4)) && Shift(3, Bit(c4)) == Shift(2, c6);
    assert Shift(2, c6) == Shift(1, Bit(c6)) && Shift(1, Bit(c6)) == Shift(0, Bit(Bit(c6)));
  }

  lemma EntryIndex(i: bv32)
    requires i < 256
    ensures (i >> 3) < 32 && (i & 7) < 8
    ensures ((i >> 3) << 3) + (i & 7) == i
  {
  }

  lemma TableIsBitwise(i: bv32)
    requires i < 256
    ensures Table(i) == Shift(8, i)
  {
    hide Bit, Shift, Eight, Row;
    var k, j := i >> 3, i & 7;
    EntryIndex(i);
    RowIsBitwise(k);
    ShiftIsEight(i);
    EntryAt(k << 3, j);
  }

  lemma EntryAt(base: bv32, j: bv32)
    requires j < 8
    ensures Entries(base)[j as nat] == Eight(base + j)
  {
    hide Eight;
    if j == 0 {} else if j == 1 {} else if j == 2 {} else if j == 3 {}
    else if j == 4 {} else if j == 5 {} else if j == 6 {} else { SevenIsLast(j); }
  }

  lemma SevenIsLast(j: bv32)
    requires j < 8 && j != 0 && j != 1 && j != 2 && j != 3 && j != 4 && j != 5 && j != 6
    ensures j == 7
  {
  }

  // ---------------------------------------------------------------- facts about single words

  lemma XorAssoc(a: bv32, b: bv32, c: bv32)
    ensures Xor(Xor(a, b), c) == Xor(a, Xor(b, c))
  {
  }

  lemma XorComm(a: bv32, b: bv32)
    ensures Xor(a, b) == Xor(b, a)
  {
  }

  lemma XorZero(c: bv32)
    ensures Xor(c, 0) == c && Xor(0, c) == c && Xor(c, c) == 0
  {
  }

  lemma XorCancels(x: bv32, y: bv32)
    ensures Xor(Xor(x, y), y) == x
  {
    hide Xor;
    XorAssoc(x, y, y);
    XorZero(x);
    XorZero(y);
  }

  lemma XorMiddle(a: bv32, b: bv32, c: bv32, d: bv32)
    ensures Xor(Xor(a, b), Xor(c, d)) == Xor(Xor(a, c), Xor(b, d))
  {
    hide Xor;
    XorAssoc(a, b, Xor(c, d));
    XorAssoc(b, c, d);
    XorComm(b, c);
    XorAssoc(c, b, d);
    XorAssoc(a, c, Xor(b, d));
  }

  lemma NotNot(x: bv32)
    ensures Not(Not(x)) == x
  {
  }

  lemma LowAndHigh(x: bv32)
    ensures Xor(Low(x), High(x)) == x
    ensures Low(High(x)) == 0
  {
  }

  lemma HighUnchanged(c: bv32, w: bv32)
    requires w <= 0xFF
    ensures Down(High(Xor(c, w))) == Down(c)
  {
  }

  lemma WordBounded(b: byte)
    ensures Word(b) <= 0xFF
  {
  }

  lemma RoundTrip0(x: int) requires 0 <= x < 16 ensures (x as bv8) as int == x {}
  lemma RoundTrip1(x: int) requires 16 <= x < 32 ensures (x as bv8) as int == x {}
  lemma RoundTrip2(x: int) requires 32 <= x < 48 ensures (x as bv8) as int == x {}
  lemma RoundTrip3(x: int) requires 48 <= x < 64 ensures (x as bv8) as int == x {}
  lemma RoundTrip4(x: int) requires 64 <= x < 80 ensures (x as bv8) as int == x {}
  lemma RoundTrip5(x: int) requires 80 <= x < 96 ensures (x as bv8) as int == x {}
  lemma RoundTrip6(x: int) requires 96 <= x < 112 ensures (x as bv8) as int == x {}
  lemma RoundTrip7(x: int) requires 112 <= x < 128 ensures (x as bv8) as int == x {}
  lemma RoundTrip8(x: int) requires 128 <= x < 144 ensures (x as bv8) as int == x {}
  lemma RoundTrip9(x: int) requires 144 <= x < 160 ensures (x as bv8) as int == x {}
  lemma RoundTrip10(x: int) requires 160 <= x < 176 ensures (x as bv8) as int == x {}
  lemma RoundTrip11(x: int) requires 176 <= x < 192 ensures (x as bv8) as int == x {}
  lemma RoundTrip12(x: int) requires 192 <= x < 208 ensures (x as bv8) as int == x {}
  lemma RoundTrip13(x: int) requires 208 <= x < 224 ensures (x as bv8) as int == x {}
  lemma RoundTrip14(x: int) requires 224 <= x < 240 ensures (x as bv8) as int == x {}
  lemma RoundTrip15(x: int) requires 240 <= x < 256 ensures (x as bv8) as int == x {}

  lemma ByteRoundTrip(b: byte)
    ensures (b as bv8) as int == b as int
  {
    var x := b as int;
    if x < 16 { RoundTrip0(x); }
    else if x < 32 { RoundTrip1(x); }
    else if x < 48 { RoundTrip2(x); }
    else if x < 64 { RoundTrip3(x); }
    else if x < 80 { RoundTrip4(x); }
    else if x < 96 { RoundTrip5(x); }
    else if x < 112 { RoundTrip6(x); }
    else if x < 128 { RoundTrip7(x); }
    else if x < 144 { RoundTrip8(x); }
    else if x < 160 { RoundTrip9(x); }
    else if x < 176 { RoundTrip10(x); }
    else if x < 192 { RoundTrip11(x); }
    else if x < 208 { RoundTrip12(x); }
    else if x < 224 { RoundTrip13(x); }
    else if x < 240 { RoundTrip14(x); }
    else { RoundTrip15(x); }
  }

  lemma Widened(a: bv8, b: bv8)
    requires a as bv32 == b as bv32
    ensures a == b
  {
  }

  lemma WordInjective(a: byte, b: byte)
    requires Word(a) == Word(b)
    ensures a == b
  {
    ByteRoundTrip(a);
    ByteRoundTrip(b);
    Widened(a as bv8, b as bv8);
  }

  // ---------------------------------------------------------------- linearity

  function Half(c: bv32): bv32 {
    c >> 1
  }

  predicate Odd(c: bv32) {
    c & 1 == 1
  }

  function Feedback(c: bv32): bv32 {
    if Odd(c) then POLYNOMIAL else 0
  }

  lemma BitCases(c: bv32)
    ensures Bit(c) == if Odd(c) then Xor(Half(c), POLYNOMIAL) else Half(c)
  {
  }

  lemma BitIsXor(c: bv32)
    ensures Bit(c) == Xor(Half(c), Feedback(c))
  {
    hide Bit, Xor, Half, Odd;
    BitCases(c);
    XorZero(Half(c));
  }

  lemma HalfLinear(a: bv32, b: bv32)
    ensures Half(Xor(a, b)) == Xor(Half(a), Half(b))
  {
  }

  lemma OddLinear(a: bv32, b: bv32)
    ensures Odd(Xor(a, b)) <==> Odd(a) != Odd(b)
  {
  }

  lemma FeedbackLinear(a: bv32, b: bv32)
    ensures Feedback(Xor(a, b)) == Xor(Feedback(a), Feedback(b))
  {
    hide Xor, Odd;
    OddLinear(a, b);
    XorZero(POLYNOMIAL);
    XorZero(0);
  }

  lemma BitLinear(a: bv32, b: bv32)
    ensures Bit(Xor(a, b)) == Xor(Bit(a), Bit(b))
  {
    hide Bit, Xor, Half, Feedback;
    BitIsXor(a);
    BitIsXor(b);
    BitIsXor(Xor(a, b));
    HalfLinear(a, b);
    FeedbackLinear(a, b);
    XorMiddle(Half(a), Half(b), Feedback(a), Feedback(b));
  }

  lemma {:induction false} ShiftLinear(n: nat, a: bv32, b: bv32)
    ensures Shift(n, Xor(a, b)) == Xor(Shift(n, a), Shift(n, b))
  {
    hide Bit, Xor;
    if n > 0 {
      BitLinear(a, b);
      ShiftLinear(n - 1, Bit(a), Bit(b));
    }
  }

  lemma ZerosOnlyShift(c: bv32)
    requires Low(c) == 0
    ensures Eight(c) == Down(c)
  {
  }

  /** Eight zero bits at the bottom only shift. */
  lemma ShiftPlain(c: bv32)
    requires Low(c) == 0
    ensures Shift(8, c) == Down(c)
  {
    hide Bit, Eight, Shift, Low, Down;
    ShiftIsEight(c);
    ZerosOnlyShift(c);
  }

  /** One table step is eight bit steps. */
  lemma TableStepIsBitwise(crc: bv32, b: byte)
    ensures TableStep(crc, b) == Shift(8, Xor(crc, Word(b)))
  {
    hide Bit, Shift, Word, Table, Xor, Low, High, Down;
    var x := Xor(crc, Word(b));
    WordBounded(b);
    HighUnchanged(crc, Word(b));
    LowAndHigh(x);
    TableIsBitwise(Low(x));
    ShiftLinear(8, Low(x), High(x));
    ShiftPlain(High(x));
  }

  lemma {:induction false} RunAppend(a: seq<byte>, b: seq<byte>, c: bv32)
    ensures Run(a + b, c) == Run(b, Run(a, c))
  {
    hide Bit, Shift, Word, Xor;
    if a == [] {
      assert a + b == b;
    } else {
      assert (a + b)[1..] == a[1..] + b;
      RunAppend(a[1..], b, Shift(8, Xor(c, Word(a[0]))));
    }
  }

  /** A buffer may be checked in pieces. */
  lemma ChecksumSplits(a: seq<byte>, b: seq<byte>, crc: bv32)
    ensures Checksum(a + b, crc) == Checksum(b, Checksum(a, crc))
  {
    hide Run, Not;
    RunAppend(a, b, Not(crc));
    NotNot(Run(a, Not(crc)));
  }

  // ---------------------------------------------------------------- bursts

  function Unbit(d: bv32): bv32 {
    if d & 0x80000000 != 0 then ((d ^ POLYNOMIAL) << 1) | 1 else d << 1
  }

  lemma BitUndone(c: bv32)
    ensures Unbit(Bit(c)) == c
  {
  }

  lemma {:induction false} ShiftInjective(n: nat, a: bv32, b: bv32)
    requires Shift(n, a) == Shift(n, b)
    ensures a == b
  {
    hide Bit, Unbit;
    if n > 0 {
      ShiftInjective(n - 1, Bit(a), Bit(b));
      BitUndone(a);
      BitUndone(b);
    }
  }

  lemma {:induction false} RunInjective(data: seq<byte>, c: bv32, d: bv32)
    requires Run(data, c) == Run(data, d)
    ensures c == d
  {
    hide Bit, Shift, Word, Xor;
    if data != [] {
      var w := Word(data[0]);
      RunInjective(data[1..], Shift(8, Xor(c, w)), Shift(8, Xor(d, w)));
      ShiftInjective(8, Xor(c, w), Xor(d, w));
      XorCancels(c, w);
      XorCancels(d, w);
    }
  }

  /** A byte below the bytes of `rest`. */
  function Under(w: bv32, rest: bv32): bv32 {
    w | Up(rest)
  }

  /** Up to four message bytes as one register value. */
  function Pack(xs: seq<byte>): bv32
    requires |xs| <= 4
  {
    if xs == [] then 0 else Under(Word(xs[0]), Pack(xs[1..]))
  }

  ghost predicate Fits(n: nat, w: bv32) {
    if n == 0 then w == 0 else if n == 1 then w <= 0xFF else if n == 2 then w <= 0xFFFF
    else if n == 3 then w <= 0xFFFFFF else true
  }

  lemma UnderFits(n: nat, w: bv32, rest: bv32)
    requires w <= 0xFF && n <= 3 && Fits(n, rest)
    ensures Fits(n + 1, Under(w, rest)) && rest <= 0xFFFFFF
  {
  }

  lemma {:induction false} PackFits(xs: seq<byte>)
    requires |xs| <= 4
    ensures Fits(|xs|, Pack(xs))
  {
    hide Word, Under, Fits;
    if xs == [] {
      ZeroFits();
    } else {
      WordBounded(xs[0]);
      PackFits(xs[1..]);
      UnderFits(|xs| - 1, Word(xs[0]), Pack(xs[1..]));
    }
  }

  lemma ZeroFits()
    ensures Fits(0, 0)
  {
  }

  lemma UpAndDown(rest: bv32)
    requires rest <= 0xFFFFFF
    ensures Low(Up(rest)) == 0 && Down(Up(rest)) == rest
  {
  }

  lemma UnderIsXor(w: bv32, rest: bv32)
    requires w <= 0xFF && rest <= 0xFFFFFF
    ensures Under(w, rest) == Xor(w, Up(rest))
  {
  }

  lemma Absorbed(c: bv32, w: bv32, rest: bv32)
    requires w <= 0xFF && rest <= 0xFFFFFF
    ensures Xor(Shift(8, Xor(c, w)), rest) == Shift(8, Xor(c, Under(w, rest)))
  {
    hide Bit, Shift, Xor, Under, Up, Down, Low;
    UpAndDown(rest);
    UnderIsXor(w, rest);
    XorAssoc(c, w, Up(rest));
    ShiftLinear(8, Xor(c, w), Up(rest));
    ShiftPlain(Up(rest));
  }

  lemma {:induction false} ShiftAdds(m: nat, n: nat, c: bv32)
    ensures Shift(m, Shift(n, c)) == Shift(n + m, c)
  {
    hide Bit;
    if n > 0 {
      ShiftAdds(m, n - 1, Bit(c));
    }
  }

  /** Feeding at most four bytes is feeding their packed value at once. */
  lemma {:induction false} RunIsPacked(xs: seq<byte>, c: bv32)
    requires |xs| <= 4
    ensures Run(xs, c) == Shift(8 * |xs|, Xor(c, Pack(xs)))
  {
    hide Bit, Word, Xor, Under, Fits;
    if xs == [] {
      XorZero(c);
    } else {
      var w, rest := Word(xs[0]), Pack(xs[1..]);
      PackFits(xs[1..]);
      WordBounded(xs[0]);
      UnderFits(|xs| - 1, w, rest);
      RunIsPacked(xs[1..], Shift(8, Xor(c, w)));
      Absorbed(c, w, rest);
      ShiftAdds(8 * (|xs| - 1), 8, Xor(c, Under(w, rest)));
    }
  }

  lemma Unpacked(a: bv32, x: bv32)
    requires a <= 0xFF && x <= 0xFFFFFF
    ensures Low(Under(a, x)) == a && Down(Under(a, x)) == x
  {
  }

  lemma {:induction false} PackInjective(xs: seq<byte>, ys: seq<byte>)
    requires |xs| == |ys| <= 4 && Pack(xs) == Pack(ys)
    ensures xs == ys
  {
    hide Word, Under, Fits, Low, Down;
    if xs != [] {
      PackFits(xs[1..]);
      PackFits(ys[1..]);
      WordBounded(xs[0]);
      WordBounded(ys[0]);
      UnderFits(|xs| - 1, Word(xs[0]), Pack(xs[1..]));
      UnderFits(|ys| - 1, Word(ys[0]), Pack(ys[1..]));
      Unpacked(Word(xs[0]), Pack(xs[1..]));
      Unpacked(Word(ys[0]), Pack(ys[1..]));
      WordInjective(xs[0], ys[0]);
      PackInjective(xs[1..], ys[1..]);
      assert xs == [xs[0]] + xs[1..] && ys == [ys[0]] + ys[1..];
    }
  }

  lemma XorSame(c: bv32, x: bv32, y: bv32)
    requires Xor(c, x) == Xor(c, y)
    ensures x == y
  {
    hide Xor;
    XorComm(c, x);
    XorComm(c, y);
    XorCancels(x, c);
    XorCancels(y, c);
  }

  lemma WindowInjective(xs: seq<byte>, ys: seq<byte>, c: bv32)
    requires |xs| == |ys| <= 4 && Run(xs, c) == Run(ys, c)
    ensures xs == ys
  {
    hide Shift, Xor, Run, Pack;
    RunIsPacked(xs, c);
    RunIsPacked(ys, c);
    ShiftInjective(8 * |xs|, Xor(c, Pack(xs)), Xor(c, Pack(ys)));
    XorSame(c, Pack(xs), Pack(ys));
    PackInjective(xs, ys);
  }

  /** Two messages that differ only inside one window of at most four bytes have different checksums. */
  lemma BurstDetected(before: seq<byte>, xs: seq<byte>, ys: seq<byte>, after: seq<byte>, crc: bv32)
    requires |xs| == |ys| <= 4 && xs != ys
    ensures Checksum(before + xs + after, crc) != Checksum(before + ys + after, crc)
  {
    hide Run, Not;
    var start := Not(crc);
    RunAppend(before + xs, after, start);
    RunAppend(before + ys, after, start);
    RunAppend(before, xs, start);
    RunAppend(before, ys, start);
    if Checksum(before + xs + after, crc) == Checksum(before + ys + after, crc) {
      NotNot(Run(before + xs + after, start));
      NotNot(Run(before + ys + after, start));
      RunInjective(after, Run(before + xs, start), Run(before + ys, start));
      WindowInjective(xs, ys, Run(before, start));
    }
  }
}
