/** The feedback table of src/crc32.c, and why each of its 256 entries is right. */
module Crc32Table {

  /** One step of the reflected shift register: polynomial 0xedb88320, bits shifted out on the right. */
  function Shift(c: bv32): bv32 {
    if c & 1 == 1 then (c >> 1) ^ 0xedb88320 else c >> 1
  }

  function Shift8(c: bv32): bv32 {
    Shift(Shift(Shift(Shift(Shift(Shift(Shift(Shift(c))))))))
  }

  const ROW_0: seq<bv32> := [
    0x00000000, 0x77073096, 0xee0e612c, 0x990951ba, 0x076dc419, 0x706af48f, 0xe963a535, 0x9e6495a3,
    0x0edb8832, 0x79dcb8a4, 0xe0d5e91e, 0x97d2d988, 0x09b64c2b, 0x7eb17cbd, 0xe7b82d07, 0x90bf1d91]
  const ROW_1: seq<bv32> := [
    0x1db71064, 0x6ab020f2, 0xf3b97148, 0x84be41de, 0x1adad47d, 0x6ddde4eb, 0xf4d4b551, 0x83d385c7,
    0x136c9856, 0x646ba8c0, 0xfd62f97a, 0x8a65c9ec, 0x14015c4f, 0x63066cd9, 0xfa0f3d63, 0x8d080df5]
  const ROW_2: seq<bv32> := [
    0x3b6e20c8, 0x4c69105e, 0xd56041e4, 0xa2677172, 0x3c03e4d1, 0x4b04d447, 0xd20d85fd, 0xa50ab56b,
    0x35b5a8fa, 0x42b2986c, 0xdbbbc9d6, 0xacbcf940, 0x32d86ce3, 0x45df5c75, 0xdcd60dcf, 0xabd13d59]
  const ROW_3: seq<bv32> := [
    0x26d930ac, 0x51de003a, 0xc8d75180, 0xbfd06116, 0x21b4f4b5, 0x56b3c423, 0xcfba9599, 0xb8bda50f,
    0x2802b89e, 0x5f058808, 0xc60cd9b2, 0xb10be924, 0x2f6f7c87, 0x58684c11, 0xc1611dab, 0xb6662d3d]
  const ROW_4: seq<bv32> := [
    0x76dc4190, 0x01db7106, 0x98d220bc, 0xefd5102a, 0x71b18589, 0x06b6b51f, 0x9fbfe4a5, 0xe8b8d433,
    0x7807c9a2, 0x0f00f934, 0x9609a88e, 0xe10e9818, 0x7f6a0dbb, 0x086d3d2d, 0x91646c97, 0xe6635c01]
  const ROW_5: seq<bv32> := [
    0x6b6b51f4, 0x1c6c6162, 0x856530d8, 0xf262004e, 0x6c0695ed, 0x1b01a57b, 0x8208f4c1, 0xf50fc457,
    0x65b0d9c6, 0x12b7e950, 0x8bbeb8ea, 0xfcb9887c, 0x62dd1ddf, 0x15da2d49, 0x8cd37cf3, 0xfbd44c65]
  const ROW_6: seq<bv32> := [
    0x4db26158, 0x3ab551ce, 0xa3bc0074, 0xd4bb30e2, 0x4adfa541, 0x3dd895d7, 0xa4d1c46d, 0xd3d6f4fb,
    0x4369e96a, 0x346ed9fc, 0xad678846, 0xda60b8d0, 0x44042d73, 0x33031de5, 0xaa0a4c5f, 0xdd0d7cc9]
  const ROW_7: seq<bv32> := [
    0x5005713c, 0x270241aa, 0xbe0b1010, 0xc90c2086, 0x5768b525, 0x206f85b3, 0xb966d409, 0xce61e49f,
    0x5edef90e, 0x29d9c998, 0xb0d09822, 0xc7d7a8b4, 0x59b33d17, 0x2eb40d81, 0xb7bd5c3b, 0xc0ba6cad]
  const ROW_8: seq<bv32> := [
    0xedb88320, 0x9abfb3b6, 0x03b6e20c, 0x74b1d29a, 0xead54739, 0x9dd277af, 0x04db2615, 0x73dc1683,
    0xe3630b12, 0x94643b84, 0x0d6d6a3e, 0x7a6a5aa8, 0xe40ecf0b, 0x9309ff9d, 0x0a00ae27, 0x7d079eb1]
  const ROW_9: seq<bv32> := [
    0xf00f9344, 0x8708a3d2, 0x1e01f268, 0x6906c2fe, 0xf762575d, 0x806567cb, 0x196c3671, 0x6e6b06e7,
    0xfed41b76, 0x89d32be0, 0x10da7a5a, 0x67dd4acc, 0xf9b9df6f, 0x8ebeeff9, 0x17b7be43, 0x60b08ed5]
  const ROW_A: seq<bv32> := [
    0xd6d6a3e8, 0xa1d1937e, 0x38d8c2c4, 0x4fdff252, 0xd1bb67f1, 0xa6bc5767, 0x3fb506dd, 0x48b2364b,
    0xd80d2bda, 0xaf0a1b4c, 0x36034af6, 0x41047a60, 0xdf60efc3, 0xa867df55, 0x316e8eef, 0x4669be79]
  const ROW_B: seq<bv32> := [
    0xcb61b38c, 0xbc66831a, 0x256fd2a0, 0x5268e236, 0xcc0c7795, 0xbb0b4703, 0x220216b9, 0x5505262f,
    0xc5ba3bbe, 0xb2bd0b28, 0x2bb45a92, 0x5cb36a04, 0xc2d7ffa7, 0xb5d0cf31, 0x2cd99e8b, 0x5bdeae1d]
  const ROW_C: seq<bv32> := [
    0x9b64c2b0, 0xec63f226, 0x756aa39c, 0x026d930a, 0x9c0906a9, 0xeb0e363f, 0x72076785, 0x05005713,
    0x95bf4a82, 0xe2b87a14, 0x7bb12bae, 0x0cb61b38, 0x92d28e9b, 0xe5d5be0d, 0x7cdcefb7, 0x0bdbdf21]
  const ROW_D: seq<bv32> := [
    0x86d3d2d4, 0xf1d4e242, 0x68ddb3f8, 0x1fda836e, 0x81be16cd, 0xf6b9265b, 0x6fb077e1, 0x18b74777,
    0x88085ae6, 0xff0f6a70, 0x66063bca, 0x11010b5c, 0x8f659eff, 0xf862ae69, 0x616bffd3, 0x166ccf45]
  const ROW_E: seq<bv32> := [
    0xa00ae278, 0xd70dd2ee, 0x4e048354, 0x3903b3c2, 0xa7672661, 0xd06016f7, 0x4969474d, 0x3e6e77db,
    0xaed16a4a, 0xd9d65adc, 0x40df0b66, 0x37d83bf0, 0xa9bcae53, 0xdebb9ec5, 0x47b2cf7f, 0x30b5ffe9]
  const ROW_F: seq<bv32> := [
    0xbdbdf21c, 0xcabac28a, 0x53b39330, 0x24b4a3a6, 0xbad03605, 0xcdd70693, 0x54de5729, 0x23d967bf,
    0xb3667a2e, 0xc4614ab8, 0x5d681b02, 0x2a6f2b94, 0xb40bbe37, 0xc30c8ea1, 0x5a05df1b, 0x2d02ef8d]

  const TABLE: seq<bv32> :=
    ((ROW_0 + ROW_1 + ROW_2 + ROW_3) + (ROW_4 + ROW_5 + ROW_6 + ROW_7))
    + ((ROW_8 + ROW_9 + ROW_A + ROW_B) + (ROW_C + ROW_D + ROW_E + ROW_F))

  lemma Row0(i: bv32)
    requires 0x00 <= i <= 0x0f
    ensures ROW_0[i as int - 0] == Shift8(i)
  {
    match i
    case 0 => case 1 => case 2 => case 3 => case 4 => case 5 => case 6 => case 7 =>
    case 8 => case 9 => case 10 => case 11 => case 12 => case 13 => case 14 => case 15 =>
  }

  lemma Row1(i: bv32)
    requires 0x10 <= i <= 0x1f
    ensures ROW_1[i as int - 16] == Shift8(i)
  {
    match i
    case 16 => case 17 => case 18 => case 19 => case 20 => case 21 => case 22 => case 23 =>
    case 24 => case 25 => case 26 => case 27 => case 28 => case 29 => case 30 => case 31 =>
  }

  lemma Row2(i: bv32)
    requires 0x20 <= i <= 0x2f
    ensures ROW_2[i as int - 32] == Shift8(i)
  {
    match i
    case 32 => case 33 => case 34 => case 35 => case 36 => case 37 => case 38 => case 39 =>
    case 40 => case 41 => case 42 => case 43 => case 44 => case 45 => case 46 => case 47 =>
  }

  lemma Row3(i: bv32)
    requires 0x30 <= i <= 0x3f
    ensures ROW_3[i as int - 48] == Shift8(i)
  {
    match i
    case 48 => case 49 => case 50 => case 51 => case 52 => case 53 => case 54 => case 55 =>
    case 56 => case 57 => case 58 => case 59 => case 60 => case 61 => case 62 => case 63 =>
  }

  lemma Row4(i: bv32)
    requires 0x40 <= i <= 0x4f
    ensures ROW_4[i as int - 64] == Shift8(i)
  {
    match i
    case 64 => case 65 => case 66 => case 67 => case 68 => case 69 => case 70 => case 71 =>
    case 72 => case 73 => case 74 => case 75 => case 76 => case 77 => case 78 => case 79 =>
  }

  lemma Row5(i: bv32)
    requires 0x50 <= i <= 0x5f
    ensures ROW_5[i as int - 80] == Shift8(i)
  {
    match i
    case 80 => case 81 => case 82 => case 83 => case 84 => case 85 => case 86 => case 87 =>
    case 88 => case 89 => case 90 => case 91 => case 92 => case 93 => case 94 => case 95 =>
  }

  lemma Row6(i: bv32)
    requires 0x60 <= i <= 0x6f
    ensures ROW_6[i as int - 96] == Shift8(i)
  {
    match i
    case 96 => case 97 => case 98 => case 99 => case 100 => case 101 => case 102 => case 103 =>
    case 104 => case 105 => case 106 => case 107 => case 108 => case 109 => case 110 => case 111 =>
  }

  lemma Row7(i: bv32)
    requires 0x70 <= i <= 0x7f
    ensures ROW_7[i as int - 112] == Shift8(i)
  {
    match i
    case 112 => case 113 => case 114 => case 115 => case 116 => case 117 => case 118 => case 119 =>
    case 120 => case 121 => case 122 => case 123 => case 124 => case 125 => case 126 => case 127 =>
  }

  lemma Row8(i: bv32)
    requires 0x80 <= i <= 0x8f
    ensures ROW_8[i as int - 128] == Shift8(i)
  {
    match i
    case 128 => case 129 => case 130 => case 131 => case 132 => case 133 => case 134 => case 135 =>
    case 136 => case 137 => case 138 => case 139 => case 140 => case 141 => case 142 => case 143 =>
  }

  lemma Row9(i: bv32)
    requires 0x90 <= i <= 0x9f
    ensures ROW_9[i as int - 144] == Shift8(i)
  {
    match i
    case 144 => case 145 => case 146 => case 147 => case 148 => case 149 => case 150 => case 151 =>
    case 152 => case 153 => case 154 => case 155 => case 156 => case 157 => case 158 => case 159 =>
  }

  lemma RowA(i: bv32)
    requires 0xa0 <= i <= 0xaf
    ensures ROW_A[i as int - 160] == Shift8(i)
  {
    match i
    case 160 => case 161 => case 162 => case 163 => case 164 => case 165 => case 166 => case 167 =>
    case 168 => case 169 => case 170 => case 171 => case 172 => case 173 => case 174 => case 175 =>
  }

  lemma RowB(i: bv32)
    requires 0xb0 <= i <= 0xbf
    ensures ROW_B[i as int - 176] == Shift8(i)
  {
    match i
    case 176 => case 177 => case 178 => case 179 => case 180 => case 181 => case 182 => case 183 =>
    case 184 => case 185 => case 186 => case 187 => case 188 => case 189 => case 190 => case 191 =>
  }

  lemma RowC(i: bv32)
    requires 0xc0 <= i <= 0xcf
    ensures ROW_C[i as int - 192] == Shift8(i)
  {
    match i
    case 192 => case 193 => case 194 => case 195 => case 196 => case 197 => case 198 => case 199 =>
    case 200 => case 201 => case 202 => case 203 => case 204 => case 205 => case 206 => case 207 =>
  }

  lemma RowD(i: bv32)
    requires 0xd0 <= i <= 0xdf
    ensures ROW_D[i as int - 208] == Shift8(i)
  {
    match i
    case 208 => case 209 => case 210 => case 211 => case 212 => case 213 => case 214 => case 215 =>
    case 216 => case 217 => case 218 => case 219 => case 220 => case 221 => case 222 => case 223 =>
  }

  lemma RowE(i: bv32)
    requires 0xe0 <= i <= 0xef
    ensures ROW_E[i as int - 224] == Shift8(i)
  {
    match i
    case 224 => case 225 => case 226 => case 227 => case 228 => case 229 => case 230 => case 231 =>
    case 232 => case 233 => case 234 => case 235 => case 236 => case 237 => case 238 => case 239 =>
  }

  lemma RowF(i: bv32)
    requires 0xf0 <= i <= 0xff
    ensures ROW_F[i as int - 240] == Shift8(i)
  {
    match i
    case 240 => case 241 => case 242 => case 243 => case 244 => case 245 => case 246 => case 247 =>
    case 248 => case 249 => case 250 => case 251 => case 252 => case 253 => case 254 => case 255 =>
  }

  /** Each entry is the result of eight shift steps on its index. */
  lemma Entry(i: bv32)
    requires i <= 0xff
    ensures |TABLE| == 256 && TABLE[i as int] == Shift8(i)
  {
    hide Shift8;
    if i <= 0x7f {
      EntryLow(i);
    } else {
      EntryHigh(i);
    }
  }

  lemma EntryLow(i: bv32)
    requires i <= 0x7f
    ensures ((ROW_0 + ROW_1 + ROW_2 + ROW_3) + (ROW_4 + ROW_5 + ROW_6 + ROW_7))[i as int] == Shift8(i)
  {
    hide Shift8;
    if
    case 0x00 <= i <= 0x0f => Row0(i);
    case 0x10 <= i <= 0x1f => Row1(i);
    case 0x20 <= i <= 0x2f => Row2(i);
    case 0x30 <= i <= 0x3f => Row3(i);
    case 0x40 <= i <= 0x4f => Row4(i);
    case 0x50 <= i <= 0x5f => Row5(i);
    case 0x60 <= i <= 0x6f => Row6(i);
    case 0x70 <= i <= 0x7f => Row7(i);
  }

  lemma EntryHigh(i: bv32)
    requires 0x80 <= i <= 0xff
    ensures ((ROW_8 + ROW_9 + ROW_A + ROW_B) + (ROW_C + ROW_D + ROW_E + ROW_F))[i as int - 128] == Shift8(i)
  {
    hide Shift8;
    if
    case 0x80 <= i <= 0x8f => Row8(i);
    case 0x90 <= i <= 0x9f => Row9(i);
    case 0xa0 <= i <= 0xaf => RowA(i);
    case 0xb0 <= i <= 0xbf => RowB(i);
    case 0xc0 <= i <= 0xcf => RowC(i);
    case 0xd0 <= i <= 0xdf => RowD(i);
    case 0xe0 <= i <= 0xef => RowE(i);
    case 0xf0 <= i <= 0xff => RowF(i);
  }
}
