/** The installer's table-driven CRC-32 against the bit-by-bit reflected CRC-32 of section 8 of RFC 1952
    with polynomial 0xEDB88320. */
module Crc32 {

  const POLYNOMIAL: bv32 := 0xedb8_8320

  /** One step of the bit-by-bit form: shift out the lowest bit, and subtract the polynomial if it was set. */
  function Shift(x: bv32): bv32
  {
    if x & 1 == 1 then (x >> 1) ^ POLYNOMIAL else x >> 1
  }

  function Iterate<T>(f: T -> T, x: T, n: nat): T
    decreases n
  {
    if n == 0 then x else Iterate(f, f(x), n - 1)
  }

  /** Eight steps: one byte's worth. */
  function Shift8(x: bv32): bv32
  {
    Iterate(Shift, x, 8)
  }

  /** The reference: each byte is added to the low bits and shifted out bit by bit. */
  function Reference(stream: seq<bv8>): bv32
  {
    Remainder(stream) ^ 0xffff_ffff
  }

  function Remainder(stream: seq<bv8>): bv32
  {
    if stream == [] then 0xffff_ffff
    else
      var last := |stream| - 1;
      Shift8(Remainder(stream[..last]) ^ (stream[last] as bv32))
  }

  const ROW_0: seq<bv32> := [
      0x00000000, 0x77073096, 0xee0e612c, 0x990951ba, 0x076dc419, 0x706af48f, 0xe963a535, 0x9e6495a3,
      0x0edb8832, 0x79dcb8a4, 0xe0d5e91e, 0x97d2d988, 0x09b64c2b, 0x7eb17cbd, 0xe7b82d07, 0x90bf1d91]
  const ROW_1: seq<bv32> := [
      0x1db71064, 0x6ab020f2, 0xf3b97148, 0x84be41de, 0x1adad47d, 0x6ddde4eb, 0xf4d4b551, 0x83d385c7,
      0x136c9856, 0x646ba8c0, 0xfd62f97a, 0x8a65c9ec, 0x14015c4f, 0x63066cd9, 0xfa0f3d63, 0x8d080df5]
  const ROW_2: seq<bv32> := [
      0x3b6e20c8, 0x4c69105e, 0xd56041e4, 0xa2677172, 0x3c03e4d1, 0x4b04d447, 0xd20d85fd, 0xa50ab56b,
      0x35b5a8fa, 0x42b2986c, 0xdbbbc9d6, 0xacbcf940, 0x32d86ce3, 0x45df5c75, 0xdcd60dcf, 0xabd13d59]
  const ROW_3: seq<bv32> := [
      0x26d930ac, 0x51de003a, 0xc8d75180, 0xbfd06116, 0x21b4f4b5, 0x56b3c423, 0xcfba9599, 0xb8bda50f,
      0x2802b89e, 0x5f058808, 0xc60cd9b2, 0xb10be924, 0x2f6f7c87, 0x58684c11, 0xc1611dab, 0xb6662d3d]
  const ROW_4: seq<bv32> := [
      0x76dc4190, 0x01db7106, 0x98d220bc, 0xefd5102a, 0x71b18589, 0x06b6b51f, 0x9fbfe4a5, 0xe8b8d433,
      0x7807c9a2, 0x0f00f934, 0x9609a88e, 0xe10e9818, 0x7f6a0dbb, 0x086d3d2d, 0x91646c97, 0xe6635c01]
  const ROW_5: seq<bv32> := [
      0x6b6b51f4, 0x1c6c6162, 0x856530d8, 0xf262004e, 0x6c0695ed, 0x1b01a57b, 0x8208f4c1, 0xf50fc457,
      0x65b0d9c6, 0x12b7e950, 0x8bbeb8ea, 0xfcb9887c, 0x62dd1ddf, 0x15da2d49, 0x8cd37cf3, 0xfbd44c65]
  const ROW_6: seq<bv32> := [
      0x4db26158, 0x3ab551ce, 0xa3bc0074, 0xd4bb30e2, 0x4adfa541, 0x3dd895d7, 0xa4d1c46d, 0xd3d6f4fb,
      0x4369e96a, 0x346ed9fc, 0xad678846, 0xda60b8d0, 0x44042d73, 0x33031de5, 0xaa0a4c5f, 0xdd0d7cc9]
  const ROW_7: seq<bv32> := [
      0x5005713c, 0x270241aa, 0xbe0b1010, 0xc90c2086, 0x5768b525, 0x206f85b3, 0xb966d409, 0xce61e49f,
      0x5edef90e, 0x29d9c998, 0xb0d09822, 0xc7d7a8b4, 0x59b33d17, 0x2eb40d81, 0xb7bd5c3b, 0xc0ba6cad]
  const ROW_8: seq<bv32> := [
      0xedb88320, 0x9abfb3b6, 0x03b6e20c, 0x74b1d29a, 0xead54739, 0x9dd277af, 0x04db2615, 0x73dc1683,
      0xe3630b12, 0x94643b84, 0x0d6d6a3e, 0x7a6a5aa8, 0xe40ecf0b, 0x9309ff9d, 0x0a00ae27, 0x7d079eb1]
  const ROW_9: seq<bv32> := [
      0xf00f9344, 0x8708a3d2, 0x1e01f268, 0x6906c2fe, 0xf762575d, 0x806567cb, 0x196c3671, 0x6e6b06e7,
      0xfed41b76, 0x89d32be0, 0x10da7a5a, 0x67dd4acc, 0xf9b9df6f, 0x8ebeeff9, 0x17b7be43, 0x60b08ed5]
  const ROW_A: seq<bv32> := [
      0xd6d6a3e8, 0xa1d1937e, 0x38d8c2c4, 0x4fdff252, 0xd1bb67f1, 0xa6bc5767, 0x3fb506dd, 0x48b2364b,
      0xd80d2bda, 0xaf0a1b4c, 0x36034af6, 0x41047a60, 0xdf60efc3, 0xa867df55, 0x316e8eef, 0x4669be79]
  const ROW_B: seq<bv32> := [
      0xcb61b38c, 0xbc66831a, 0x256fd2a0, 0x5268e236, 0xcc0c7795, 0xbb0b4703, 0x220216b9, 0x5505262f,
      0xc5ba3bbe, 0xb2bd0b28, 0x2bb45a92, 0x5cb36a04, 0xc2d7ffa7, 0xb5d0cf31, 0x2cd99e8b, 0x5bdeae1d]
  const ROW_C: seq<bv32> := [
      0x9b64c2b0, 0xec63f226, 0x756aa39c, 0x026d930a, 0x9c0906a9, 0xeb0e363f, 0x72076785, 0x05005713,
      0x95bf4a82, 0xe2b87a14, 0x7bb12bae, 0x0cb61b38, 0x92d28e9b, 0xe5d5be0d, 0x7cdcefb7, 0x0bdbdf21]
  const ROW_D: seq<bv32> := [
      0x86d3d2d4, 0xf1d4e242, 0x68ddb3f8, 0x1fda836e, 0x81be16cd, 0xf6b9265b, 0x6fb077e1, 0x18b74777,
      0x88085ae6, 0xff0f6a70, 0x66063bca, 0x11010b5c, 0x8f659eff, 0xf862ae69, 0x616bffd3, 0x166ccf45]
  const ROW_E: seq<bv32> := [
      0xa00ae278, 0xd70dd2ee, 0x4e048354, 0x3903b3c2, 0xa7672661, 0xd06016f7, 0x4969474d, 0x3e6e77db,
      0xaed16a4a, 0xd9d65adc, 0x40df0b66, 0x37d83bf0, 0xa9bcae53, 0xdebb9ec5, 0x47b2cf7f, 0x30b5ffe9]
  const ROW_F: seq<bv32> := [
      0xbdbdf21c, 0xcabac28a, 0x53b39330, 0x24b4a3a6, 0xbad03605, 0xcdd70693, 0x54de5729, 0x23d967bf,
      0xb3667a2e, 0xc4614ab8, 0x5d681b02, 0x2a6f2b94, 0xb40bbe37, 0xc30c8ea1, 0x5a05df1b, 0x2d02ef8d]

  /** The 256-entry table, kept in rows of sixteen. */
  function Table(i: nat): bv32
    requires i < 256
  {
    if i < 16 then ROW_0[i]
    else if i < 32 then ROW_1[i - 16]
    else if i < 48 then ROW_2[i - 32]
    else if i < 64 then ROW_3[i - 48]
    else if i < 80 then ROW_4[i - 64]
    else if i < 96 then ROW_5[i - 80]
    else if i < 112 then ROW_6[i - 96]
    else if i < 128 then ROW_7[i - 112]
    else if i < 144 then ROW_8[i - 128]
    else if i < 160 then ROW_9[i - 144]
    else if i < 176 then ROW_A[i - 160]
    else if i < 192 then ROW_B[i - 176]
    else if i < 208 then ROW_C[i - 192]
    else if i < 224 then ROW_D[i - 208]
    else if i < 240 then ROW_E[i - 224]
    else ROW_F[i - 240]
  }

  lemma XorShift(a: bv32, b: bv32)
    ensures (a ^ b) >> 1 == (a >> 1) ^ (b >> 1)
    ensures (a ^ b) & 1 == (a & 1) ^ (b & 1)
    ensures (a & 1 == 0 || a & 1 == 1) && (b & 1 == 0 || b & 1 == 1)
  {
  }

  lemma XorMoves(a: bv32, b: bv32, p: bv32)
    ensures (a ^ p) ^ b == (a ^ b) ^ p && a ^ (b ^ p) == (a ^ b) ^ p && (a ^ p) ^ (b ^ p) == a ^ b
  {
  }

  lemma ShiftLinear(a: bv32, b: bv32)
    ensures Shift(a ^ b) == Shift(a) ^ Shift(b)
  {
    XorShift(a, b);
    XorMoves(a >> 1, b >> 1, POLYNOMIAL);
  }

  lemma {:induction false} IterateLinear<T(!new)>(f: T -> T, op: (T, T) -> T, a: T, b: T, n: nat)
    requires forall x, y :: f(op(x, y)) == op(f(x), f(y))
    ensures Iterate(f, op(a, b), n) == op(Iterate(f, a, n), Iterate(f, b, n))
    decreases n
  {
    if n > 0 {
      IterateLinear(f, op, f(a), f(b), n - 1);
    }
  }

  lemma Iterate8<T>(f: T -> T, x: T)
    ensures Iterate(f, x, 8) == f(f(f(f(f(f(f(f(x))))))))
  {
    var y := f(f(f(f(x))));
    assert Iterate(f, y, 4) == f(f(f(f(y))));
    assert Iterate(f, x, 8) == Iterate(f, f(f(x)), 6);
    assert Iterate(f, f(f(x)), 6) == Iterate(f, y, 4);
  }

  function Xor(a: bv32, b: bv32): bv32
  {
    a ^ b
  }

  lemma Shift8Linear(a: bv32, b: bv32)
    ensures Shift8(Xor(a, b)) == Xor(Shift8(a), Shift8(b))
  {
    forall x, y ensures Shift(Xor(x, y)) == Xor(Shift(x), Shift(y)) {
      ShiftLinear(x, y);
    }
    IterateLinear(Shift, Xor, a, b, 8);
  }

  lemma ShiftClear(x: bv32, y: bv32)
    requires x & 1 == 0 && x >> 1 == y
    ensures Shift(x) == y
  {
  }

  lemma TwoHighSteps(x: bv32)
    requires x & 3 == 0
    ensures Shift(Shift(x)) == x >> 2
  {
    ShiftClear(x, x >> 1);
    ShiftClear(x >> 1, x >> 2);
  }

  lemma FourHighSteps(x: bv32)
    requires x & 0xf == 0
    ensures Shift(Shift(Shift(Shift(x)))) == x >> 4
  {
    assert (x >> 2) & 3 == 0 && (x >> 2) >> 2 == x >> 4;
    TwoHighSteps(x);
    TwoHighSteps(x >> 2);
  }

  /** Eight steps on a word whose low byte is clear only shift it. */
  lemma Shift8High(x: bv32)
    requires x & 0xff == 0
    ensures Shift8(x) == x >> 8
  {
    assert x & 0xf == 0 && (x >> 4) & 0xf == 0 && (x >> 4) >> 4 == x >> 8;
    FourHighSteps(x);
    FourHighSteps(x >> 4);
    Iterate8(Shift, x);
  }

  lemma SplitWord(x: bv32)
    ensures x == Xor(x & 0xffff_ff00, x & 0xff)
    ensures (x & 0xffff_ff00) & 0xff == 0 && (x & 0xffff_ff00) >> 8 == x >> 8
  {
  }

  lemma Shift8Parts(x: bv32, low: bv32, high: bv32, shifted: bv32)
    requires x == Xor(high, low) && high & 0xff == 0 && high >> 8 == shifted
    ensures Shift8(x) == Xor(shifted, Shift8(low))
  {
    Shift8Linear(high, low);
    Shift8High(high);
  }

  /** Eight steps on any word: the low byte goes through the table, the rest is shifted. */
  lemma Shift8Split(x: bv32)
    ensures Shift8(x) == Xor(x >> 8, Shift8(x & 0xff))
  {
    SplitWord(x);
    Shift8Parts(x, x & 0xff, x & 0xffff_ff00, x >> 8);
  }

  lemma Row0(x: bv32)
    requires x < 16
    ensures 0 <= x as int - 0 < 16 && ROW_0[x as int - 0] == Shift8(x)
  {
    Iterate8(Shift, x);
    if x == 0 { } else if x == 1 { } else if x == 2 { } else if x == 3 { }
    else if x == 4 { } else if x == 5 { } else if x == 6 { } else if x == 7 { }
    else if x == 8 { } else if x == 9 { } else if x == 10 { } else if x == 11 { }
    else if x == 12 { } else if x == 13 { } else if x == 14 { } else if x == 15 { }
  }

  lemma Row1(x: bv32)
    requires 16 <= x < 32
    ensures 0 <= x as int - 16 < 16 && ROW_1[x as int - 16] == Shift8(x)
  {
    Iterate8(Shift, x);
    if x == 16 { } else if x == 17 { } else if x == 18 { } else if x == 19 { }
    else if x == 20 { } else if x == 21 { } else if x == 22 { } else if x == 23 { }
    else if x == 24 { } else if x == 25 { } else if x == 26 { } else if x == 27 { }
    else if x == 28 { } else if x == 29 { } else if x == 30 { } else if x == 31 { }
  }

  lemma Row2(x: bv32)
    requires 32 <= x < 48
    ensures 0 <= x as int - 32 < 16 && ROW_2[x as int - 32] == Shift8(x)
  {
    Iterate8(Shift, x);
    if x == 32 { } else if x == 33 { } else if x == 34 { } else if x == 35 { }
    else if x == 36 { } else if x == 37 { } else if x == 38 { } else if x == 39 { }
    else if x == 40 { } else if x == 41 { } else if x == 42 { } else if x == 43 { }
    else if x == 44 { } else if x == 45 { } else if x == 46 { } else if x == 47 { }
  }

  lemma Row3(x: bv32)
    requires 48 <= x < 64
    ensures 0 <= x as int - 48 < 16 && ROW_3[x as int - 48] == Shift8(x)
  {
    Iterate8(Shift, x);
    if x == 48 { } else if x == 49 { } else if x == 50 { } else if x == 51 { }
    else if x == 52 { } else if x == 53 { } else if x == 54 { } else if x == 55 { }
    else if x == 56 { } else if x == 57 { } else if x == 58 { } else if x == 59 { }
    else if x == 60 { } else if x == 61 { } else if x == 62 { } else if x == 63 { }
  }

  lemma Row4(x: bv32)
    requires 64 <= x < 80
    ensures 0 <= x as int - 64 < 16 && ROW_4[x as int - 64] == Shift8(x)
  {
    Iterate8(Shift, x);
    if x == 64 { } else if x == 65 { } else if x == 66 { } else if x == 67 { }
    else if x == 68 { } else if x == 69 { } else if x == 70 { } else if x == 71 { }
    else if x == 72 { } else if x == 73 { } else if x == 74 { } else if x == 75 { }
    else if x == 76 { } else if x == 77 { } else if x == 78 { } else if x == 79 { }
  }

  lemma Row5(x: bv32)
    requires 80 <= x < 96
    ensures 0 <= x as int - 80 < 16 && ROW_5[x as int - 80] == Shift8(x)
  {
    Iterate8(Shift, x);
    if x == 80 { } else if x == 81 { } else if x == 82 { } else if x == 83 { }
    else if x == 84 { } else if x == 85 { } else if x == 86 { } else if x == 87 { }
    else if x == 88 { } else if x == 89 { } else if x == 90 { } else if x == 91 { }
    else if x == 92 { } else if x == 93 { } else if x == 94 { } else if x == 95 { }
  }

  lemma Row6(x: bv32)
    requires 96 <= x < 112
    ensures 0 <= x as int - 96 < 16 && ROW_6[x as int - 96] == Shift8(x)
  {
    Iterate8(Shift, x);
    if x == 96 { } else if x == 97 { } else if x == 98 { } else if x == 99 { }
    else if x == 100 { } else if x == 101 { } else if x == 102 { } else if x == 103 { }
    else if x == 104 { } else if x == 105 { } else if x == 106 { } else if x == 107 { }
    else if x == 108 { } else if x == 109 { } else if x == 110 { } else if x == 111 { }
  }

  lemma Row7(x: bv32)
    requires 112 <= x < 128
    ensures 0 <= x as int - 112 < 16 && ROW_7[x as int - 112] == Shift8(x)
  {
    Iterate8(Shift, x);
    if x == 112 { } else if x == 113 { } else if x == 114 { } else if x == 115 { }
    else if x == 116 { } else if x == 117 { } else if x == 118 { } else if x == 119 { }
    else if x == 120 { } else if x == 121 { } else if x == 122 { } else if x == 123 { }
    else if x == 124 { } else if x == 125 { } else if x == 126 { } else if x == 127 { }
  }

  lemma Row8(x: bv32)
    requires 128 <= x < 144
    ensures 0 <= x as int - 128 < 16 && ROW_8[x as int - 128] == Shift8(x)
  {
    Iterate8(Shift, x);
    if x == 128 { } else if x == 129 { } else if x == 130 { } else if x == 131 { }
    else if x == 132 { } else if x == 133 { } else if x == 134 { } else if x == 135 { }
    else if x == 136 { } else if x == 137 { } else if x == 138 { } else if x == 139 { }
    else if x == 140 { } else if x == 141 { } else if x == 142 { } else if x == 143 { }
  }

  lemma Row9(x: bv32)
    requires 144 <= x < 160
    ensures 0 <= x as int - 144 < 16 && ROW_9[x as int - 144] == Shift8(x)
  {
    Iterate8(Shift, x);
    if x == 144 { } else if x == 145 { } else if x == 146 { } else if x == 147 { }
    else if x == 148 { } else if x == 149 { } else if x == 150 { } else if x == 151 { }
    else if x == 152 { } else if x == 153 { } else if x == 154 { } else if x == 155 { }
    else if x == 156 { } else if x == 157 { } else if x == 158 { } else if x == 159 { }
  }

  lemma RowA(x: bv32)
    requires 160 <= x < 176
    ensures 0 <= x as int - 160 < 16 && ROW_A[x as int - 160] == Shift8(x)
  {
    Iterate8(Shift, x);
    if x == 160 { } else if x == 161 { } else if x == 162 { } else if x == 163 { }
    else if x == 164 { } else if x == 165 { } else if x == 166 { } else if x == 167 { }
    else if x == 168 { } else if x == 169 { } else if x == 170 { } else if x == 171 { }
    else if x == 172 { } else if x == 173 { } else if x == 174 { } else if x == 175 { }
  }

  lemma RowB(x: bv32)
    requires 176 <= x < 192
    ensures 0 <= x as int - 176 < 16 && ROW_B[x as int - 176] == Shift8(x)
  {
    Iterate8(Shift, x);
    if x == 176 { } else if x == 177 { } else if x == 178 { } else if x == 179 { }
    else if x == 180 { } else if x == 181 { } else if x == 182 { } else if x == 183 { }
    else if x == 184 { } else if x == 185 { } else if x == 186 { } else if x == 187 { }
    else if x == 188 { } else if x == 189 { } else if x == 190 { } else if x == 191 { }
  }

  lemma RowC(x: bv32)
    requires 192 <= x < 208
    ensures 0 <= x as int - 192 < 16 && ROW_C[x as int - 192] == Shift8(x)
  {
    Iterate8(Shift, x);
    if x == 192 { } else if x == 193 { } else if x == 194 { } else if x == 195 { }
    else if x == 196 { } else if x == 197 { } else if x == 198 { } else if x == 199 { }
    else if x == 200 { } else if x == 201 { } else if x == 202 { } else if x == 203 { }
    else if x == 204 { } else if x == 205 { } else if x == 206 { } else if x == 207 { }
  }

  lemma RowD(x: bv32)
    requires 208 <= x < 224
    ensures 0 <= x as int - 208 < 16 && ROW_D[x as int - 208] == Shift8(x)
  {
    Iterate8(Shift, x);
    if x == 208 { } else if x == 209 { } else if x == 210 { } else if x == 211 { }
    else if x == 212 { } else if x == 213 { } else if x == 214 { } else if x == 215 { }
    else if x == 216 { } else if x == 217 { } else if x == 218 { } else if x == 219 { }
    else if x == 220 { } else if x == 221 { } else if x == 222 { } else if x == 223 { }
  }

  lemma RowE(x: bv32)
    requires 224 <= x < 240
    ensures 0 <= x as int - 224 < 16 && ROW_E[x as int - 224] == Shift8(x)
  {
    Iterate8(Shift, x);
    if x == 224 { } else if x == 225 { } else if x == 226 { } else if x == 227 { }
    else if x == 228 { } else if x == 229 { } else if x == 230 { } else if x == 231 { }
    else if x == 232 { } else if x == 233 { } else if x == 234 { } else if x == 235 { }
    else if x == 236 { } else if x == 237 { } else if x == 238 { } else if x == 239 { }
  }

  lemma RowF(x: bv32)
    requires 240 <= x <= 255
    ensures 0 <= x as int - 240 < 16 && ROW_F[x as int - 240] == Shift8(x)
  {
    Iterate8(Shift, x);
    if x == 240 { } else if x == 241 { } else if x == 242 { } else if x == 243 { }
    else if x == 244 { } else if x == 245 { } else if x == 246 { } else if x == 247 { }
    else if x == 248 { } else if x == 249 { } else if x == 250 { } else if x == 251 { }
    else if x == 252 { } else if x == 253 { } else if x == 254 { } else if x == 255 { }
  }

  /** Every entry of the table is the byte of its index, shifted out. */
  lemma TableIsShift8(x: bv32)
    requires x <= 0xff
    ensures 0 <= x as int < 256 && Table(x as int) == Shift8(x)
  {
    if x < 16 { Row0(x); }
    else if x < 32 { Row1(x); }
    else if x < 48 { Row2(x); }
    else if x < 64 { Row3(x); }
    else if x < 80 { Row4(x); }
    else if x < 96 { Row5(x); }
    else if x < 112 { Row6(x); }
    else if x < 128 { Row7(x); }
    else if x < 144 { Row8(x); }
    else if x < 160 { Row9(x); }
    else if x < 176 { RowA(x); }
    else if x < 192 { RowB(x); }
    else if x < 208 { RowC(x); }
    else if x < 224 { RowD(x); }
    else if x < 240 { RowE(x); }
    else { RowF(x); }
  }

  lemma ByteBelow(ret: bv32, b: bv8)
    ensures (ret ^ (b as bv32)) >> 8 == ret >> 8
  {
  }

  /** A table whose entry for each byte is that byte, shifted out. */
  ghost predicate Correct(table: seq<bv32>)
  {
    |table| == 256 && forall x: bv32 | x <= 0xff :: InTable(table, x)
  }

  ghost predicate InTable(table: seq<bv32>, x: bv32)
  {
    0 <= x as int < |table| && table[x as int] == Shift8(x)
  }

  /** One byte of the table-driven form. */
  function Update(table: seq<bv32>, ret: bv32, b: bv8): bv32
    requires Correct(table)
  {
    var x := (ret ^ (b as bv32)) & 0xff;
    assert InTable(table, x);
    Xor(ret >> 8, table[x as int])
  }

  lemma UpdateIsShift8(table: seq<bv32>, ret: bv32, b: bv8)
    requires Correct(table)
    ensures Update(table, ret, b) == Shift8(ret ^ (b as bv32))
  {
    var x := ret ^ (b as bv32);
    ByteBelow(ret, b);
    Shift8Split(x);
    assert InTable(table, x & 0xff);
  }

  lemma RemainderStep(table: seq<bv32>, stream: seq<bv8>, i: nat)
    requires Correct(table) && i < |stream|
    ensures Update(table, Remainder(stream[..i]), stream[i]) == Remainder(stream[..i + 1])
  {
    assert stream[..i + 1][..i] == stream[..i];
    UpdateIsShift8(table, Remainder(stream[..i]), stream[i]);
  }

  /** The loop over the bytes, with any correct table, computes the reference checksum. */
  method ChecksumWith(table: seq<bv32>, stream: seq<bv8>) returns (crc: bv32)
    requires Correct(table)
    ensures crc == Reference(stream)
  {
    var ret: bv32 := 0xffff_ffff;
    for i := 0 to |stream|
      invariant ret == Remainder(stream[..i])
    {
      RemainderStep(table, stream, i);
      ret := Update(table, ret, stream[i]);
    }
    assert stream[..|stream|] == stream;
    crc := ret ^ 0xffff_ffff;
  }

  const TABLE: seq<bv32> := seq(256, i requires 0 <= i < 256 => Table(i))

  lemma TableIsCorrect()
    ensures Correct(TABLE)
  {
    forall x: bv32 | x <= 0xff ensures InTable(TABLE, x) {
      TableIsShift8(x);
    }
  }

  /** `crc32` with the installer's table. */
  method Checksum(stream: seq<bv8>) returns (crc: bv32)
    ensures crc == Reference(stream)
  {
    TableIsCorrect();
    crc := ChecksumWith(TABLE, stream);
  }

  // ---------------------------------------------------------------- what the reference checksum promises

  function Fold<S, B>(step: (S, B) -> S, x: S, s: seq<B>): S
    decreases |s|
  {
    if s == [] then x else step(Fold(step, x, s[..|s| - 1]), s[|s| - 1])
  }

  lemma {:induction false} FoldConcat<S, B>(step: (S, B) -> S, x: S, s: seq<B>, t: seq<B>)
    ensures Fold(step, x, s + t) == Fold(step, Fold(step, x, s), t)
    decreases |t|
  {
    if t == [] {
      assert s + t == s;
    } else {
      var last := |t| - 1;
      assert (s + t)[..|s + t| - 1] == s + t[..last];
      FoldConcat(step, x, s, t[..last]);
    }
  }

  lemma FoldFour<S, B>(step: (S, B) -> S, x: S, a: B, b: B, c: B, d: B)
    ensures Fold(step, x, [a, b, c, d]) == step(step(step(step(x, a), b), c), d)
  {
    var s := [a, b, c, d];
    assert s[..3][..2] == s[..2] && s[..2][..1] == s[..1] && s[..1][..0] == [];
    assert Fold(step, x, s[..1]) == step(x, a);
    assert Fold(step, x, s[..2]) == step(step(x, a), b);
    assert Fold(step, x, s[..3]) == step(step(step(x, a), b), c);
  }

  lemma {:induction false} FoldInjective<S(!new), B(!new)>(step: (S, B) -> S, x: S, y: S, s: seq<B>)
    requires forall p, q, b :: step(p, b) == step(q, b) ==> p == q
    requires Fold(step, x, s) == Fold(step, y, s)
    ensures x == y
    decreases |s|
  {
    if s != [] {
      var last := |s| - 1;
      assert step(Fold(step, x, s[..last]), s[last]) == step(Fold(step, y, s[..last]), s[last]);
      FoldInjective(step, x, y, s[..last]);
    }
  }

  function Four<T>(f: T -> T, x: T): T
  {
    f(f(f(f(x))))
  }

  lemma FourInjective<T(!new)>(f: T -> T, x: T, y: T)
    requires forall p, q :: f(p) == f(q) ==> p == q
    ensures Four(f, x) == Four(f, y) <==> x == y
  {
  }

  /** Adding `low` behind `f` is adding `high` in front of it. */
  ghost predicate Rises<T(!new)>(f: T -> T, op: (T, T) -> T, low: T, high: T)
  {
    forall x :: op(f(x), low) == f(op(x, high))
  }

  ghost predicate Associative<T(!new)>(op: (T, T) -> T)
  {
    forall x, y, z :: op(op(x, y), z) == op(x, op(y, z))
  }

  lemma Risen<T(!new)>(f: T -> T, op: (T, T) -> T, x: T, low: T, high: T)
    requires Rises(f, op, low, high)
    ensures op(f(x), low) == f(op(x, high))
  {
  }

  /** Four rounds that each add a value and apply `f` add one value first and then apply `f` four times. */
  lemma FourRounds<T(!new)>(f: T -> T, op: (T, T) -> T, r: T, a: T, b: seq<T>, c: seq<T>, d: seq<T>)
    requires |b| == 2 && |c| == 3 && |d| == 4 && Associative(op)
    requires Rises(f, op, b[0], b[1]) && Rises(f, op, c[0], c[1]) && Rises(f, op, c[1], c[2])
    requires Rises(f, op, d[0], d[1]) && Rises(f, op, d[1], d[2]) && Rises(f, op, d[2], d[3])
    ensures f(op(f(op(f(op(f(op(r, a)), b[0])), c[0])), d[0]))
         == Four(f, op(r, op(a, op(b[1], op(c[2], d[3])))))
  {
    var x := op(r, a);
    Risen(f, op, x, b[0], b[1]);
    var y := op(x, b[1]);
    Risen(f, op, f(y), c[0], c[1]);
    Risen(f, op, y, c[1], c[2]);
    var z := op(y, c[2]);
    Risen(f, op, f(f(z)), d[0], d[1]);
    Risen(f, op, f(z), d[1], d[2]);
    Risen(f, op, z, d[2], d[3]);
    Associates(op, r, a, b[1], c[2], d[3]);
  }

  lemma Associates<T(!new)>(op: (T, T) -> T, r: T, a: T, b: T, c: T, d: T)
    requires Associative(op)
    ensures op(op(op(op(r, a), b), c), d) == op(r, op(a, op(b, op(c, d))))
  {
    assert op(op(op(op(r, a), b), c), d) == op(op(op(r, a), b), op(c, d));
    assert op(op(op(r, a), b), op(c, d)) == op(op(r, a), op(b, op(c, d)));
  }

  lemma XorAssociates(x: bv32, y: bv32, z: bv32)
    ensures (x ^ y) ^ z == x ^ (y ^ z)
  {
  }

  lemma XorAssociative()
    ensures Associative(Xor)
  {
    forall x, y, z ensures Xor(Xor(x, y), z) == Xor(x, Xor(y, z)) {
      XorAssociates(x, y, z);
    }
  }

  lemma LowByteClear(c: bv32, h: bv32)
    requires c <= 0xff_ffff && h == c << 8
    ensures h & 0xff == 0 && h >> 8 == c
  {
  }

  /** Bytes added behind eight steps could have been added in front of them, eight places higher. */
  lemma ShiftRises(c: bv32, h: bv32)
    requires c <= 0xff_ffff && h == c << 8
    ensures Rises(Shift8, Xor, c, h)
  {
    LowByteClear(c, h);
    Shift8High(h);
    forall x ensures Xor(Shift8(x), c) == Shift8(Xor(x, h)) {
      Shift8Linear(x, h);
    }
  }

  function Wide(b: bv8): (r: bv32)
    ensures r <= 0xff
  {
    b as bv32
  }

  lemma Places(c: bv32)
    requires c <= 0xff
    ensures c << 8 <= 0xffff && c << 16 <= 0xff_ffff && (c << 8) << 8 == c << 16 && (c << 16) << 8 == c << 24
  {
  }

  /** A byte at the four places of a word. */
  function Climb(c: bv32): seq<bv32>
  {
    [c, c << 8, c << 16, c << 24]
  }

  lemma ClimbRises(c: bv32)
    requires c <= 0xff
    ensures Rises(Shift8, Xor, Climb(c)[0], Climb(c)[1]) && Rises(Shift8, Xor, Climb(c)[1], Climb(c)[2])
    ensures Rises(Shift8, Xor, Climb(c)[2], Climb(c)[3])
  {
    Places(c);
    ShiftRises(c, c << 8);
    ShiftRises(c << 8, c << 16);
    ShiftRises(c << 16, c << 24);
  }

  /** Four bytes as a little-endian word. */
  function Word(a: bv8, b: bv8, c: bv8, d: bv8): bv32
  {
    Joined(Wide(a), Wide(b), Wide(c), Wide(d))
  }

  function Joined(a: bv32, b: bv32, c: bv32, d: bv32): bv32
  {
    Xor(a, Xor(b << 8, Xor(c << 16, d << 24)))
  }

  lemma FourSteps(r: bv32, a: bv32, b: bv32, c: bv32, d: bv32)
    requires b <= 0xff && c <= 0xff && d <= 0xff
    ensures Shift8(Xor(Shift8(Xor(Shift8(Xor(Shift8(Xor(r, a)), b)), c)), d))
         == Four(Shift8, Xor(r, Joined(a, b, c, d)))
  {
    XorAssociative();
    ClimbRises(b);
    ClimbRises(c);
    ClimbRises(d);
    FourRounds(Shift8, Xor, r, a, Climb(b)[..2], Climb(c)[..3], Climb(d));
  }

  /** One byte of the bit-by-bit form. */
  function Step(x: bv32, b: bv8): bv32
  {
    Shift8(Xor(x, Wide(b)))
  }

  lemma {:induction false} RemainderIsFold(s: seq<bv8>)
    ensures Remainder(s) == Fold(Step, 0xffff_ffff, s)
    decreases |s|
  {
    if s != [] {
      RemainderIsFold(s[..|s| - 1]);
    }
  }

  /** Four bytes are taken in as one little-endian word. */
  lemma FourBytes(r: bv32, a: bv8, b: bv8, c: bv8, d: bv8)
    ensures Fold(Step, r, [a, b, c, d]) == Four(Shift8, Xor(r, Word(a, b, c, d)))
  {
    FoldFour(Step, r, a, b, c, d);
    FourSteps(r, Wide(a), Wide(b), Wide(c), Wide(d));
  }

  /** No two words are shifted to the same one. */
  lemma ShiftInjective(a: bv32, b: bv32)
    requires Shift(a) == Shift(b)
    ensures a == b
  {
    ShiftLinear(a, b);
    assert Shift(a ^ b) == 0;
    ShiftZero(a ^ b);
    assert a == (a ^ b) ^ b;
  }

  lemma ShiftZero(x: bv32)
    requires Shift(x) == 0
    ensures x == 0
  {
    assert (x >> 1) ^ POLYNOMIAL != 0 by { TopBitClear(x); }
  }

  lemma TopBitClear(x: bv32)
    ensures (x >> 1) ^ 0xedb8_8320 != 0
  {
  }

  lemma {:induction false} IterateInjective<T(!new)>(f: T -> T, a: T, b: T, n: nat)
    requires forall x, y :: f(x) == f(y) ==> x == y
    requires Iterate(f, a, n) == Iterate(f, b, n)
    ensures a == b
    decreases n
  {
    if n > 0 {
      IterateInjective(f, f(a), f(b), n - 1);
    }
  }

  lemma Shift8Injective(a: bv32, b: bv32)
    requires Shift8(a) == Shift8(b)
    ensures a == b
  {
    forall x, y | Shift(x) == Shift(y) ensures x == y {
      ShiftInjective(x, y);
    }
    IterateInjective(Shift, a, b, 8);
  }

  lemma Shift32Injective(a: bv32, b: bv32)
    ensures Four(Shift8, a) == Four(Shift8, b) <==> a == b
  {
    forall p, q | Shift8(p) == Shift8(q) ensures p == q {
      Shift8Injective(p, q);
    }
    FourInjective(Shift8, a, b);
  }

  lemma XorCancels(x: bv32, y: bv32, z: bv32)
    ensures Xor(x, z) == Xor(y, z) <==> x == y
    ensures Xor(z, x) == Xor(z, y) <==> x == y
  {
  }

  lemma StepInjective(x: bv32, y: bv32, b: bv8)
    requires Step(x, b) == Step(y, b)
    ensures x == y
  {
    Shift8Injective(Xor(x, Wide(b)), Xor(y, Wide(b)));
    XorCancels(x, y, Wide(b));
  }

  /** A difference in the remainder stays one, whatever follows in both streams. */
  lemma DifferenceStays(x: bv32, y: bv32, tail: seq<bv8>)
    requires Fold(Step, x, tail) == Fold(Step, y, tail)
    ensures x == y
  {
    forall p, q, b | Step(p, b) == Step(q, b) ensures p == q {
      StepInjective(p, q, b);
    }
    FoldInjective(Step, x, y, tail);
  }

  lemma RemainderThrough(s: seq<bv8>, u: seq<bv8>, tail: seq<bv8>)
    ensures Remainder(s + u + tail) == Fold(Step, Fold(Step, Remainder(s), u), tail)
  {
    RemainderIsFold(s + u + tail);
    RemainderIsFold(s);
    FoldConcat(Step, 0xffff_ffff, s + u, tail);
    FoldConcat(Step, 0xffff_ffff, s, u);
  }

  /** Two streams with a common end have one checksum only if they agree before it. */
  lemma ChecksumsAgree(s: seq<bv8>, u: seq<bv8>, v: seq<bv8>, tail: seq<bv8>)
    requires Reference(s + u + tail) == Reference(s + v + tail)
    ensures Fold(Step, Remainder(s), u) == Fold(Step, Remainder(s), v)
  {
    XorCancels(Remainder(s + u + tail), Remainder(s + v + tail), 0xffff_ffff);
    RemainderThrough(s, u, tail);
    RemainderThrough(s, v, tail);
    DifferenceStays(Fold(Step, Remainder(s), u), Fold(Step, Remainder(s), v), tail);
  }

  lemma SplitBytes(a: bv32, b: bv32, c: bv32, d: bv32, e: bv32, f: bv32, g: bv32, h: bv32)
    requires a <= 0xff && b <= 0xff && c <= 0xff && d <= 0xff && e <= 0xff && f <= 0xff && g <= 0xff && h <= 0xff
    ensures Joined(a, b, c, d) == Joined(e, f, g, h) <==> a == e && b == f && c == g && d == h
  {
  }

  lemma WideInjective(a: bv8, b: bv8)
    requires Wide(a) == Wide(b)
    ensures a == b
  {
  }

  lemma WordsDiffer(r: bv32, a: bv8, b: bv8, c: bv8, d: bv8, e: bv8, f: bv8, g: bv8, h: bv8)
    requires Fold(Step, r, [a, b, c, d]) == Fold(Step, r, [e, f, g, h])
    ensures Word(a, b, c, d) == Word(e, f, g, h)
  {
    FourBytes(r, a, b, c, d);
    FourBytes(r, e, f, g, h);
    Shift32Injective(Xor(r, Word(a, b, c, d)), Xor(r, Word(e, f, g, h)));
    XorCancels(Word(a, b, c, d), Word(e, f, g, h), r);
  }

  lemma BytesAgree(a: bv8, b: bv8, c: bv8, d: bv8, e: bv8, f: bv8, g: bv8, h: bv8)
    requires Word(a, b, c, d) == Word(e, f, g, h)
    ensures a == e && b == f && c == g && d == h
  {
    SplitBytes(Wide(a), Wide(b), Wide(c), Wide(d), Wide(e), Wide(f), Wide(g), Wide(h));
    WideInjective(a, e);
    WideInjective(b, f);
    WideInjective(c, g);
    WideInjective(d, h);
  }

  /** Two streams that differ only inside four consecutive bytes have different checksums. */
  lemma BurstDetected(s: seq<bv8>, a: bv8, b: bv8, c: bv8, d: bv8, e: bv8, f: bv8, g: bv8, h: bv8, tail: seq<bv8>)
    requires Reference(s + [a, b, c, d] + tail) == Reference(s + [e, f, g, h] + tail)
    ensures a == e && b == f && c == g && d == h
  {
    ChecksumsAgree(s, [a, b, c, d], [e, f, g, h], tail);
    WordsDiffer(Remainder(s), a, b, c, d, e, f, g, h);
    BytesAgree(a, b, c, d, e, f, g, h);
  }

  lemma XorOnes(r: bv32, w: bv32)
    requires Xor(r, w) == 0xffff_ffff
    ensures w == Xor(r, 0xffff_ffff)
  {
  }

  lemma OnesXor(r: bv32, w: bv32)
    requires w == Xor(r, 0xffff_ffff)
    ensures Xor(r, w) == 0xffff_ffff
  {
  }

  lemma ShiftOnes()
    ensures Shift8(Shift8(0xffff_ffff)) == 0xbe26_ed00
  {
    Iterate8(Shift, 0xffff_ffff);
    assert Shift8(0xffff_ffff) == 0x2dfd_1072;
    Iterate8(Shift, 0x2dfd_1072);
  }

  lemma ShiftOnesFurther()
    ensures Shift8(Shift8(0xbe26_ed00)) == 0xdebb_20e3
  {
    Shift8High(0xbe26_ed00);
    Iterate8(Shift, 0x00be_26ed);
  }

  lemma OnesRemain(x: bv32)
    ensures Four(Shift8, x) == 0xdebb_20e3 <==> x == 0xffff_ffff
  {
    ShiftOnes();
    ShiftOnesFurther();
    Shift32Injective(x, 0xffff_ffff);
  }

  lemma ResidueIs(r: bv32, a: bv8, b: bv8, c: bv8, d: bv8)
    ensures Fold(Step, r, [a, b, c, d]) == 0xdebb_20e3 <==> Word(a, b, c, d) == Xor(r, 0xffff_ffff)
  {
    var w := Word(a, b, c, d);
    FourBytes(r, a, b, c, d);
    OnesRemain(Xor(r, w));
    if Xor(r, w) == 0xffff_ffff {
      XorOnes(r, w);
    } else if w == Xor(r, 0xffff_ffff) {
      OnesXor(r, w);
    }
  }

  /** Four bytes behind a stream leave the fixed residue exactly if they are its checksum, lowest byte first. */
  lemma Residue(s: seq<bv8>, a: bv8, b: bv8, c: bv8, d: bv8)
    ensures Remainder(s + [a, b, c, d]) == 0xdebb_20e3 <==> Word(a, b, c, d) == Reference(s)
  {
    assert s + [a, b, c, d] + [] == s + [a, b, c, d];
    RemainderThrough(s, [a, b, c, d], []);
    ResidueIs(Remainder(s), a, b, c, d);
  }

  lemma DigitsLow()
    ensures Step(Step(Step(Step(Step(0xffff_ffff, 0x31), 0x32), 0x33), 0x34), 0x35) == 0x340a_c5e3
  {
    Iterate8(Shift, 0xffff_ffce);
    assert Step(0xffff_ffff, 0x31) == 0x7c23_1048;
    Iterate8(Shift, 0x7c23_107a);
    assert Step(0x7c23_1048, 0x32) == 0xb0ac_bb32;
    Iterate8(Shift, 0xb0ac_bb01);
    assert Step(0xb0ac_bb32, 0x33) == 0x77b7_9c2d;
    Iterate8(Shift, 0x77b7_9c19);
    assert Step(0x77b7_9c2d, 0x34) == 0x641c_1f5c;
    Iterate8(Shift, 0x641c_1f69);
  }

  lemma DigitsHigh()
    ensures Step(Step(Step(Step(0x340a_c5e3, 0x36), 0x37), 0x38), 0x39) == 0x340b_c6d9
  {
    Iterate8(Shift, 0x340a_c5d5);
    assert Step(0x340a_c5e3, 0x36) == 0xf68d_2c9e;
    Iterate8(Shift, 0xf68d_2ca9);
    assert Step(0xf68d_2c9e, 0x37) == 0xaffc_9660;
    Iterate8(Shift, 0xaffc_9658);
    assert Step(0xaffc_9660, 0x38) == 0x651f_2550;
    Iterate8(Shift, 0x651f_2569);
  }

  lemma FoldNext<S, B>(step: (S, B) -> S, x: S, s: seq<B>, b: B)
    ensures Fold(step, x, s + [b]) == step(Fold(step, x, s), b)
  {
    assert (s + [b])[..|s|] == s;
  }

  /** The published check value: the checksum of the ASCII digits 1 to 9; that of nothing is 0. */
  lemma CheckValue()
    ensures Reference([]) == 0
    ensures Reference([0x31, 0x32, 0x33, 0x34, 0x35, 0x36, 0x37, 0x38, 0x39]) == 0xcbf4_3926
  {
    var low, high := [0x31, 0x32, 0x33, 0x34], [0x36, 0x37, 0x38, 0x39];
    assert [0x31, 0x32, 0x33, 0x34, 0x35, 0x36, 0x37, 0x38, 0x39] == [] + (low + [0x35]) + high;
    RemainderThrough([], low + [0x35], high);
    FoldNext(Step, 0xffff_ffff, low, 0x35);
    FoldFour(Step, 0xffff_ffff, 0x31, 0x32, 0x33, 0x34);
    DigitsLow();
    FoldFour(Step, 0x340a_c5e3, 0x36, 0x37, 0x38, 0x39);
    DigitsHigh();
  }
}
