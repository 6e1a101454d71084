/** The code of appendix B of RFC 7541, and that it is what the rest supposes of a code. */
module StandardCode {
  import opened Bits
  import opened HuffmanCode
  import opened HuffmanPositions
  import opened HuffmanMachine
  import opened HuffmanCodec
  import opened HuffmanTables
  import opened HuffmanString
  import HuffmanEncoder
  import Hex

  const NOTHING := Code(0, 0)

  // The table, sixteen symbols to a row.
  function Row(row: nat, i: nat): Code {
    match row
    case 0 => Row0(i)
    case 1 => Row1(i)
    case 2 => Row2(i)
    case 3 => Row3(i)
    case 4 => Row4(i)
    case 5 => Row5(i)
    case 6 => Row6(i)
    case 7 => Row7(i)
    case 8 => Row8(i)
    case 9 => Row9(i)
    case 10 => Row10(i)
    case 11 => Row11(i)
    case 12 => Row12(i)
    case 13 => Row13(i)
    case 14 => Row14(i)
    case 15 => Row15(i)
    case 16 => Row16(i)
    case _ => NOTHING
  }

  function Row0(i: nat): Code {
    match i
    case 0 => Code(0x1FF8, 13) case 1 => Code(0x7FFFD8, 23) case 2 => Code(0xFFFFFE2, 28)
    case 3 => Code(0xFFFFFE3, 28) case 4 => Code(0xFFFFFE4, 28) case 5 => Code(0xFFFFFE5, 28)
    case 6 => Code(0xFFFFFE6, 28) case 7 => Code(0xFFFFFE7, 28) case 8 => Code(0xFFFFFE8, 28)
    case 9 => Code(0xFFFFEA, 24) case 10 => Code(0x3FFFFFFC, 30) case 11 => Code(0xFFFFFE9, 28)
    case 12 => Code(0xFFFFFEA, 28) case 13 => Code(0x3FFFFFFD, 30) case 14 => Code(0xFFFFFEB, 28)
    case 15 => Code(0xFFFFFEC, 28)
    case _ => NOTHING
  }

  function Row1(i: nat): Code {
    match i
    case 0 => Code(0xFFFFFED, 28) case 1 => Code(0xFFFFFEE, 28) case 2 => Code(0xFFFFFEF, 28)
    case 3 => Code(0xFFFFFF0, 28) case 4 => Code(0xFFFFFF1, 28) case 5 => Code(0xFFFFFF2, 28)
    case 6 => Code(0x3FFFFFFE, 30) case 7 => Code(0xFFFFFF3, 28) case 8 => Code(0xFFFFFF4, 28)
    case 9 => Code(0xFFFFFF5, 28) case 10 => Code(0xFFFFFF6, 28) case 11 => Code(0xFFFFFF7, 28)
    case 12 => Code(0xFFFFFF8, 28) case 13 => Code(0xFFFFFF9, 28) case 14 => Code(0xFFFFFFA, 28)
    case 15 => Code(0xFFFFFFB, 28)
    case _ => NOTHING
  }

  function Row2(i: nat): Code {
    match i
    case 0 => Code(0x14, 6) case 1 => Code(0x3F8, 10) case 2 => Code(0x3F9, 10)
    case 3 => Code(0xFFA, 12) case 4 => Code(0x1FF9, 13) case 5 => Code(0x15, 6)
    case 6 => Code(0xF8, 8) case 7 => Code(0x7FA, 11) case 8 => Code(0x3FA, 10)
    case 9 => Code(0x3FB, 10) case 10 => Code(0xF9, 8) case 11 => Code(0x7FB, 11)
    case 12 => Code(0xFA, 8) case 13 => Code(0x16, 6) case 14 => Code(0x17, 6)
    case 15 => Code(0x18, 6)
    case _ => NOTHING
  }

  function Row3(i: nat): Code {
    match i
    case 0 => Code(0x0, 5) case 1 => Code(0x1, 5) case 2 => Code(0x2, 5)
    case 3 => Code(0x19, 6) case 4 => Code(0x1A, 6) case 5 => Code(0x1B, 6)
    case 6 => Code(0x1C, 6) case 7 => Code(0x1D, 6) case 8 => Code(0x1E, 6)
    case 9 => Code(0x1F, 6) case 10 => Code(0x5C, 7) case 11 => Code(0xFB, 8)
    case 12 => Code(0x7FFC, 15) case 13 => Code(0x20, 6) case 14 => Code(0xFFB, 12)
    case 15 => Code(0x3FC, 10)
    case _ => NOTHING
  }

  function Row4(i: nat): Code {
    match i
    case 0 => Code(0x1FFA, 13) case 1 => Code(0x21, 6) case 2 => Code(0x5D, 7)
    case 3 => Code(0x5E, 7) case 4 => Code(0x5F, 7) case 5 => Code(0x60, 7)
    case 6 => Code(0x61, 7) case 7 => Code(0x62, 7) case 8 => Code(0x63, 7)
    case 9 => Code(0x64, 7) case 10 => Code(0x65, 7) case 11 => Code(0x66, 7)
    case 12 => Code(0x67, 7) case 13 => Code(0x68, 7) case 14 => Code(0x69, 7)
    case 15 => Code(0x6A, 7)
    case _ => NOTHING
  }

  function Row5(i: nat): Code {
    match i
    case 0 => Code(0x6B, 7) case 1 => Code(0x6C, 7) case 2 => Code(0x6D, 7)
    case 3 => Code(0x6E, 7) case 4 => Code(0x6F, 7) case 5 => Code(0x70, 7)
    case 6 => Code(0x71, 7) case 7 => Code(0x72, 7) case 8 => Code(0xFC, 8)
    case 9 => Code(0x73, 7) case 10 => Code(0xFD, 8) case 11 => Code(0x1FFB, 13)
    case 12 => Code(0x7FFF0, 19) case 13 => Code(0x1FFC, 13) case 14 => Code(0x3FFC, 14)
    case 15 => Code(0x22, 6)
    case _ => NOTHING
  }

  function Row6(i: nat): Code {
    match i
    case 0 => Code(0x7FFD, 15) case 1 => Code(0x3, 5) case 2 => Code(0x23, 6)
    case 3 => Code(0x4, 5) case 4 => Code(0x24, 6) case 5 => Code(0x5, 5)
    case 6 => Code(0x25, 6) case 7 => Code(0x26, 6) case 8 => Code(0x27, 6)
    case 9 => Code(0x6, 5) case 10 => Code(0x74, 7) case 11 => Code(0x75, 7)
    case 12 => Code(0x28, 6) case 13 => Code(0x29, 6) case 14 => Code(0x2A, 6)
    case 15 => Code(0x7, 5)
    case _ => NOTHING
  }

  function Row7(i: nat): Code {
    match i
    case 0 => Code(0x2B, 6) case 1 => Code(0x76, 7) case 2 => Code(0x2C, 6)
    case 3 => Code(0x8, 5) case 4 => Code(0x9, 5) case 5 => Code(0x2D, 6)
    case 6 => Code(0x77, 7) case 7 => Code(0x78, 7) case 8 => Code(0x79, 7)
    case 9 => Code(0x7A, 7) case 10 => Code(0x7B, 7) case 11 => Code(0x7FFE, 15)
    case 12 => Code(0x7FC, 11) case 13 => Code(0x3FFD, 14) case 14 => Code(0x1FFD, 13)
    case 15 => Code(0xFFFFFFC, 28)
    case _ => NOTHING
  }

  function Row8(i: nat): Code {
    match i
    case 0 => Code(0xFFFE6, 20) case 1 => Code(0x3FFFD2, 22) case 2 => Code(0xFFFE7, 20)
    case 3 => Code(0xFFFE8, 20) case 4 => Code(0x3FFFD3, 22) case 5 => Code(0x3FFFD4, 22)
    case 6 => Code(0x3FFFD5, 22) case 7 => Code(0x7FFFD9, 23) case 8 => Code(0x3FFFD6, 22)
    case 9 => Code(0x7FFFDA, 23) case 10 => Code(0x7FFFDB, 23) case 11 => Code(0x7FFFDC, 23)
    case 12 => Code(0x7FFFDD, 23) case 13 => Code(0x7FFFDE, 23) case 14 => Code(0xFFFFEB, 24)
    case 15 => Code(0x7FFFDF, 23)
    case _ => NOTHING
  }

  function Row9(i: nat): Code {
    match i
    case 0 => Code(0xFFFFEC, 24) case 1 => Code(0xFFFFED, 24) case 2 => Code(0x3FFFD7, 22)
    case 3 => Code(0x7FFFE0, 23) case 4 => Code(0xFFFFEE, 24) case 5 => Code(0x7FFFE1, 23)
    case 6 => Code(0x7FFFE2, 23) case 7 => Code(0x7FFFE3, 23) case 8 => Code(0x7FFFE4, 23)
    case 9 => Code(0x1FFFDC, 21) case 10 => Code(0x3FFFD8, 22) case 11 => Code(0x7FFFE5, 23)
    case 12 => Code(0x3FFFD9, 22) case 13 => Code(0x7FFFE6, 23) case 14 => Code(0x7FFFE7, 23)
    case 15 => Code(0xFFFFEF, 24)
    case _ => NOTHING
  }

  function Row10(i: nat): Code {
    match i
    case 0 => Code(0x3FFFDA, 22) case 1 => Code(0x1FFFDD, 21) case 2 => Code(0xFFFE9, 20)
    case 3 => Code(0x3FFFDB, 22) case 4 => Code(0x3FFFDC, 22) case 5 => Code(0x7FFFE8, 23)
    case 6 => Code(0x7FFFE9, 23) case 7 => Code(0x1FFFDE, 21) case 8 => Code(0x7FFFEA, 23)
    case 9 => Code(0x3FFFDD, 22) case 10 => Code(0x3FFFDE, 22) case 11 => Code(0xFFFFF0, 24)
    case 12 => Code(0x1FFFDF, 21) case 13 => Code(0x3FFFDF, 22) case 14 => Code(0x7FFFEB, 23)
    case 15 => Code(0x7FFFEC, 23)
    case _ => NOTHING
  }

  function Row11(i: nat): Code {
    match i
    case 0 => Code(0x1FFFE0, 21) case 1 => Code(0x1FFFE1, 21) case 2 => Code(0x3FFFE0, 22)
    case 3 => Code(0x1FFFE2, 21) case 4 => Code(0x7FFFED, 23) case 5 => Code(0x3FFFE1, 22)
    case 6 => Code(0x7FFFEE, 23) case 7 => Code(0x7FFFEF, 23) case 8 => Code(0xFFFEA, 20)
    case 9 => Code(0x3FFFE2, 22) case 10 => Code(0x3FFFE3, 22) case 11 => Code(0x3FFFE4, 22)
    case 12 => Code(0x7FFFF0, 23) case 13 => Code(0x3FFFE5, 22) case 14 => Code(0x3FFFE6, 22)
    case 15 => Code(0x7FFFF1, 23)
    case _ => NOTHING
  }

  function Row12(i: nat): Code {
    match i
    case 0 => Code(0x3FFFFE0, 26) case 1 => Code(0x3FFFFE1, 26) case 2 => Code(0xFFFEB, 20)
    case 3 => Code(0x7FFF1, 19) case 4 => Code(0x3FFFE7, 22) case 5 => Code(0x7FFFF2, 23)
    case 6 => Code(0x3FFFE8, 22) case 7 => Code(0x1FFFFEC, 25) case 8 => Code(0x3FFFFE2, 26)
    case 9 => Code(0x3FFFFE3, 26) case 10 => Code(0x3FFFFE4, 26) case 11 => Code(0x7FFFFDE, 27)
    case 12 => Code(0x7FFFFDF, 27) case 13 => Code(0x3FFFFE5, 26) case 14 => Code(0xFFFFF1, 24)
    case 15 => Code(0x1FFFFED, 25)
    case _ => NOTHING
  }

  function Row13(i: nat): Code {
    match i
    case 0 => Code(0x7FFF2, 19) case 1 => Code(0x1FFFE3, 21) case 2 => Code(0x3FFFFE6, 26)
    case 3 => Code(0x7FFFFE0, 27) case 4 => Code(0x7FFFFE1, 27) case 5 => Code(0x3FFFFE7, 26)
    case 6 => Code(0x7FFFFE2, 27) case 7 => Code(0xFFFFF2, 24) case 8 => Code(0x1FFFE4, 21)
    case 9 => Code(0x1FFFE5, 21) case 10 => Code(0x3FFFFE8, 26) case 11 => Code(0x3FFFFE9, 26)
    case 12 => Code(0xFFFFFFD, 28) case 13 => Code(0x7FFFFE3, 27) case 14 => Code(0x7FFFFE4, 27)
    case 15 => Code(0x7FFFFE5, 27)
    case _ => NOTHING
  }

  function Row14(i: nat): Code {
    match i
    case 0 => Code(0xFFFEC, 20) case 1 => Code(0xFFFFF3, 24) case 2 => Code(0xFFFED, 20)
    case 3 => Code(0x1FFFE6, 21) case 4 => Code(0x3FFFE9, 22) case 5 => Code(0x1FFFE7, 21)
    case 6 => Code(0x1FFFE8, 21) case 7 => Code(0x7FFFF3, 23) case 8 => Code(0x3FFFEA, 22)
    case 9 => Code(0x3FFFEB, 22) case 10 => Code(0x1FFFFEE, 25) case 11 => Code(0x1FFFFEF, 25)
    case 12 => Code(0xFFFFF4, 24) case 13 => Code(0xFFFFF5, 24) case 14 => Code(0x3FFFFEA, 26)
    case 15 => Code(0x7FFFF4, 23)
    case _ => NOTHING
  }

  function Row15(i: nat): Code {
    match i
    case 0 => Code(0x3FFFFEB, 26) case 1 => Code(0x7FFFFE6, 27) case 2 => Code(0x3FFFFEC, 26)
    case 3 => Code(0x3FFFFED, 26) case 4 => Code(0x7FFFFE7, 27) case 5 => Code(0x7FFFFE8, 27)
    case 6 => Code(0x7FFFFE9, 27) case 7 => Code(0x7FFFFEA, 27) case 8 => Code(0x7FFFFEB, 27)
    case 9 => Code(0xFFFFFFE, 28) case 10 => Code(0x7FFFFEC, 27) case 11 => Code(0x7FFFFED, 27)
    case 12 => Code(0x7FFFFEE, 27) case 13 => Code(0x7FFFFEF, 27) case 14 => Code(0x7FFFFF0, 27)
    case 15 => Code(0x3FFFFEE, 26)
    case _ => NOTHING
  }

  function Row16(i: nat): Code {
    match i
    case 0 => Code(0x3FFFFFFF, 30)
    case _ => NOTHING
  }

  function Standard(): (codes: Table)
    ensures |codes| == SYMBOLS
  {
    seq(SYMBOLS, symbol requires 0 <= symbol < SYMBOLS => Row(symbol / 16, symbol % 16))
  }

  // The codes of one length follow each other, in the order of their symbols. This is the first.
  function First(bits: int): nat {
    match bits
    case 5 => 0x0 case 6 => 0x14 case 7 => 0x5C case 8 => 0xF8
    case 10 => 0x3F8 case 11 => 0x7FA case 12 => 0xFFA case 13 => 0x1FF8
    case 14 => 0x3FFC case 15 => 0x7FFC case 19 => 0x7FFF0 case 20 => 0xFFFE6
    case 21 => 0x1FFFDC case 22 => 0x3FFFD2 case 23 => 0x7FFFD8 case 24 => 0xFFFFEA
    case 25 => 0x1FFFFEC case 26 => 0x3FFFFE0 case 27 => 0x7FFFFDE case 28 => 0xFFFFFE2
    case 30 => 0x3FFFFFFC
    case _ => 0
  }

  // How many there are.
  function HowMany(bits: int): nat {
    match bits
    case 5 => 10 case 6 => 26 case 7 => 32 case 8 => 6 case 10 => 5 case 11 => 3 case 12 => 2
    case 13 => 6 case 14 => 2 case 15 => 3 case 19 => 3 case 20 => 8 case 21 => 13 case 22 => 26
    case 23 => 29 case 24 => 12 case 25 => 4 case 26 => 15 case 27 => 19 case 28 => 29 case 30 => 4
    case _ => 0
  }

  // Their symbols.
  function SymbolOf(bits: int, k: int): int {
    match bits
    case 5 => Of5(k) case 6 => Of6(k) case 7 => Of7(k)
    case 8 => Of8(k) case 10 => Of10(k) case 11 => Of11(k)
    case 12 => Of12(k) case 13 => Of13(k) case 14 => Of14(k)
    case 15 => Of15(k) case 19 => Of19(k) case 20 => Of20(k)
    case 21 => Of21(k) case 22 => Of22(k) case 23 => Of23(k)
    case 24 => Of24(k) case 25 => Of25(k) case 26 => Of26(k)
    case 27 => Of27(k) case 28 => Of28(k) case 30 => Of30(k)
    case _ => -1
  }

  function Of5(k: int): int {
    match k
    case 0 => 48 case 1 => 49 case 2 => 50 case 3 => 97 case 4 => 99 case 5 => 101
    case 6 => 105 case 7 => 111 case 8 => 115 case 9 => 116
    case _ => -1
  }

  function Of6(k: int): int {
    match k
    case 0 => 32 case 1 => 37 case 2 => 45 case 3 => 46 case 4 => 47 case 5 => 51
    case 6 => 52 case 7 => 53 case 8 => 54 case 9 => 55 case 10 => 56 case 11 => 57
    case 12 => 61 case 13 => 65 case 14 => 95 case 15 => 98 case 16 => 100 case 17 => 102
    case 18 => 103 case 19 => 104 case 20 => 108 case 21 => 109 case 22 => 110 case 23 => 112
    case 24 => 114 case 25 => 117
    case _ => -1
  }

  function Of7(k: int): int {
    match k
    case 0 => 58 case 1 => 66 case 2 => 67 case 3 => 68 case 4 => 69 case 5 => 70
    case 6 => 71 case 7 => 72 case 8 => 73 case 9 => 74 case 10 => 75 case 11 => 76
    case 12 => 77 case 13 => 78 case 14 => 79 case 15 => 80 case 16 => 81 case 17 => 82
    case 18 => 83 case 19 => 84 case 20 => 85 case 21 => 86 case 22 => 87 case 23 => 89
    case 24 => 106 case 25 => 107 case 26 => 113 case 27 => 118 case 28 => 119 case 29 => 120
    case 30 => 121 case 31 => 122
    case _ => -1
  }

  function Of8(k: int): int {
    match k
    case 0 => 38 case 1 => 42 case 2 => 44 case 3 => 59 case 4 => 88 case 5 => 90
    case _ => -1
  }

  function Of10(k: int): int {
    match k
    case 0 => 33 case 1 => 34 case 2 => 40 case 3 => 41 case 4 => 63
    case _ => -1
  }

  function Of11(k: int): int {
    match k
    case 0 => 39 case 1 => 43 case 2 => 124
    case _ => -1
  }

  function Of12(k: int): int {
    match k
    case 0 => 35 case 1 => 62
    case _ => -1
  }

  function Of13(k: int): int {
    match k
    case 0 => 0 case 1 => 36 case 2 => 64 case 3 => 91 case 4 => 93 case 5 => 126
    case _ => -1
  }

  function Of14(k: int): int {
    match k
    case 0 => 94 case 1 => 125
    case _ => -1
  }

  function Of15(k: int): int {
    match k
    case 0 => 60 case 1 => 96 case 2 => 123
    case _ => -1
  }

  function Of19(k: int): int {
    match k
    case 0 => 92 case 1 => 195 case 2 => 208
    case _ => -1
  }

  function Of20(k: int): int {
    match k
    case 0 => 128 case 1 => 130 case 2 => 131 case 3 => 162 case 4 => 184 case 5 => 194
    case 6 => 224 case 7 => 226
    case _ => -1
  }

  function Of21(k: int): int {
    match k
    case 0 => 153 case 1 => 161 case 2 => 167 case 3 => 172 case 4 => 176 case 5 => 177
    case 6 => 179 case 7 => 209 case 8 => 216 case 9 => 217 case 10 => 227 case 11 => 229
    case 12 => 230
    case _ => -1
  }

  function Of22(k: int): int {
    match k
    case 0 => 129 case 1 => 132 case 2 => 133 case 3 => 134 case 4 => 136 case 5 => 146
    case 6 => 154 case 7 => 156 case 8 => 160 case 9 => 163 case 10 => 164 case 11 => 169
    case 12 => 170 case 13 => 173 case 14 => 178 case 15 => 181 case 16 => 185 case 17 => 186
    case 18 => 187 case 19 => 189 case 20 => 190 case 21 => 196 case 22 => 198 case 23 => 228
    case 24 => 232 case 25 => 233
    case _ => -1
  }

  function Of23(k: int): int {
    match k
    case 0 => 1 case 1 => 135 case 2 => 137 case 3 => 138 case 4 => 139 case 5 => 140
    case 6 => 141 case 7 => 143 case 8 => 147 case 9 => 149 case 10 => 150 case 11 => 151
    case 12 => 152 case 13 => 155 case 14 => 157 case 15 => 158 case 16 => 165 case 17 => 166
    case 18 => 168 case 19 => 174 case 20 => 175 case 21 => 180 case 22 => 182 case 23 => 183
    case 24 => 188 case 25 => 191 case 26 => 197 case 27 => 231 case 28 => 239
    case _ => -1
  }

  function Of24(k: int): int {
    match k
    case 0 => 9 case 1 => 142 case 2 => 144 case 3 => 145 case 4 => 148 case 5 => 159
    case 6 => 171 case 7 => 206 case 8 => 215 case 9 => 225 case 10 => 236 case 11 => 237
    case _ => -1
  }

  function Of25(k: int): int {
    match k
    case 0 => 199 case 1 => 207 case 2 => 234 case 3 => 235
    case _ => -1
  }

  function Of26(k: int): int {
    match k
    case 0 => 192 case 1 => 193 case 2 => 200 case 3 => 201 case 4 => 202 case 5 => 205
    case 6 => 210 case 7 => 213 case 8 => 218 case 9 => 219 case 10 => 238 case 11 => 240
    case 12 => 242 case 13 => 243 case 14 => 255
    case _ => -1
  }

  function Of27(k: int): int {
    match k
    case 0 => 203 case 1 => 204 case 2 => 211 case 3 => 212 case 4 => 214 case 5 => 221
    case 6 => 222 case 7 => 223 case 8 => 241 case 9 => 244 case 10 => 245 case 11 => 246
    case 12 => 247 case 13 => 248 case 14 => 250 case 15 => 251 case 16 => 252 case 17 => 253
    case 18 => 254
    case _ => -1
  }

  function Of28(k: int): int {
    match k
    case 0 => 2 case 1 => 3 case 2 => 4 case 3 => 5 case 4 => 6 case 5 => 7
    case 6 => 8 case 7 => 11 case 8 => 12 case 9 => 14 case 10 => 15 case 11 => 16
    case 12 => 17 case 13 => 18 case 14 => 19 case 15 => 20 case 16 => 21 case 17 => 23
    case 18 => 24 case 19 => 25 case 20 => 26 case 21 => 27 case 22 => 28 case 23 => 29
    case 24 => 30 case 25 => 31 case 26 => 127 case 27 => 220 case 28 => 249
    case _ => -1
  }

  function Of30(k: int): int {
    match k
    case 0 => 10 case 1 => 13 case 2 => 22 case 3 => 256
    case _ => -1
  }

  // A code stands among those of its length, at the place of its symbol.
  predicate Finds(c: Code, symbol: nat) {
    0 <= c.code - First(c.bits) < HowMany(c.bits) && SymbolOf(c.bits, c.code - First(c.bits)) == symbol
  }

  // The share of a code, by its length.
  function Unit(bits: int): nat {
    match bits
    case 5 => 0x2000000 case 6 => 0x1000000 case 7 => 0x800000 case 8 => 0x400000 case 9 => 0x200000
    case 10 => 0x100000 case 11 => 0x80000 case 12 => 0x40000 case 13 => 0x20000 case 14 => 0x10000
    case 15 => 0x8000 case 16 => 0x4000 case 17 => 0x2000 case 18 => 0x1000 case 19 => 0x800
    case 20 => 0x400 case 21 => 0x200 case 22 => 0x100 case 23 => 0x80 case 24 => 0x40
    case 25 => 0x20 case 26 => 0x10 case 27 => 0x8 case 28 => 0x4 case 29 => 0x2
    case 30 => 0x1
    case _ => 0
  }

  // The shares of four codes of a row, and of half a row.
  function Four(row: nat, i: nat): nat {
    Unit(Row(row, i).bits) + Unit(Row(row, i + 1).bits) + Unit(Row(row, i + 2).bits) + Unit(Row(row, i + 3).bits)
  }

  function Half(row: nat, i: nat): nat {
    Four(row, i) + Four(row, i + 4)
  }

  // Row by row: every code stands where its symbol is looked for, and so much space each half takes.
  lemma Row0Finds(i: nat)
    requires i < 16
    ensures Finds(Row0(i), 0 + i)
  {
  }

  lemma Row0Left()
    ensures Half(0, 0) == 0x20098
  {
  }

  lemma Row0Right()
    ensures Half(0, 8) == 0x56
  {
  }

  lemma Row1Finds(i: nat)
    requires i < 16
    ensures Finds(Row1(i), 16 + i)
  {
  }

  lemma Row1Left()
    ensures Half(1, 0) == 0x1D
  {
  }

  lemma Row1Right()
    ensures Half(1, 8) == 0x20
  {
  }

  lemma Row2Finds(i: nat)
    requires i < 16
    ensures Finds(Row2(i), 32 + i)
  {
  }

  lemma Row2Left()
    ensures Half(2, 0) == 0x26E0000
  {
  }

  lemma Row2Right()
    ensures Half(2, 8) == 0x3A80000
  {
  }

  lemma Row3Finds(i: nat)
    requires i < 16
    ensures Finds(Row3(i), 48 + i)
  {
  }

  lemma Row3Left()
    ensures Half(3, 0) == 0xB000000
  {
  }

  lemma Row3Right()
    ensures Half(3, 8) == 0x3D48000
  {
  }

  lemma Row4Finds(i: nat)
    requires i < 16
    ensures Finds(Row4(i), 64 + i)
  {
  }

  lemma Row4Left()
    ensures Half(4, 0) == 0x4020000
  {
  }

  lemma Row4Right()
    ensures Half(4, 8) == 0x4000000
  {
  }

  lemma Row5Finds(i: nat)
    requires i < 16
    ensures Finds(Row5(i), 80 + i)
  {
  }

  lemma Row5Left()
    ensures Half(5, 0) == 0x4000000
  {
  }

  lemma Row5Right()
    ensures Half(5, 8) == 0x2050800
  {
  }

  lemma Row6Finds(i: nat)
    requires i < 16
    ensures Finds(Row6(i), 96 + i)
  {
  }

  lemma Row6Left()
    ensures Half(6, 0) == 0xA008000
  {
  }

  lemma Row6Right()
    ensures Half(6, 8) == 0x9000000
  {
  }

  lemma Row7Finds(i: nat)
    requires i < 16
    ensures Finds(Row7(i), 112 + i)
  {
  }

  lemma Row7Left()
    ensures Half(7, 0) == 0x8800000
  {
  }

  lemma Row7Right()
    ensures Half(7, 8) == 0x18B8004
  {
  }

  lemma Row8Finds(i: nat)
    requires i < 16
    ensures Finds(Row8(i), 128 + i)
  {
  }

  lemma Row8Left()
    ensures Half(8, 0) == 0x1080
  {
  }

  lemma Row8Right()
    ensures Half(8, 8) == 0x440
  {
  }

  lemma Row9Finds(i: nat)
    requires i < 16
    ensures Finds(Row9(i), 144 + i)
  {
  }

  lemma Row9Left()
    ensures Half(9, 0) == 0x3C0
  {
  }

  lemma Row9Right()
    ensures Half(9, 8) == 0x640
  {
  }

  lemma Row10Finds(i: nat)
    requires i < 16
    ensures Finds(Row10(i), 160 + i)
  {
  }

  lemma Row10Left()
    ensures Half(10, 0) == 0xC00
  {
  }

  lemma Row10Right()
    ensures Half(10, 8) == 0x6C0
  {
  }

  lemma Row11Finds(i: nat)
    requires i < 16
    ensures Finds(Row11(i), 176 + i)
  {
  }

  lemma Row11Left()
    ensures Half(11, 0) == 0x980
  {
  }

  lemma Row11Right()
    ensures Half(11, 8) == 0xA00
  {
  }

  lemma Row12Finds(i: nat)
    requires i < 16
    ensures Finds(Row12(i), 192 + i)
  {
  }

  lemma Row12Left()
    ensures Half(12, 0) == 0xEC0
  {
  }

  lemma Row12Right()
    ensures Half(12, 8) == 0xB0
  {
  }

  lemma Row13Finds(i: nat)
    requires i < 16
    ensures Finds(Row13(i), 208 + i)
  {
  }

  lemma Row13Left()
    ensures Half(13, 0) == 0xA78
  {
  }

  lemma Row13Right()
    ensures Half(13, 8) == 0x43C
  {
  }

  lemma Row14Finds(i: nat)
    requires i < 16
    ensures Finds(Row14(i), 224 + i)
  {
  }

  lemma Row14Left()
    ensures Half(14, 0) == 0xFC0
  {
  }

  lemma Row14Right()
    ensures Half(14, 8) == 0x350
  {
  }

  lemma Row15Finds(i: nat)
    requires i < 16
    ensures Finds(Row15(i), 240 + i)
  {
  }

  lemma Row15Left()
    ensures Half(15, 0) == 0x58
  {
  }

  lemma Row15Right()
    ensures Half(15, 8) == 0x44
  {
  }

  lemma Row16Finds(i: nat)
    requires i < 1
    ensures Finds(Row16(i), 256 + i)
  {
  }

  // Every symbol has its own place among the codes of one length.
  lemma SymbolFinds(symbol: nat)
    requires symbol < SYMBOLS
    ensures Finds(Standard()[symbol], symbol)
  {
    hide Finds;
    hide Row0, Row1, Row2, Row3, Row4, Row5, Row6, Row7, Row8;
    hide Row9, Row10, Row11, Row12, Row13, Row14, Row15, Row16;
    var row, i := symbol / 16, symbol % 16;
    match row
    case 0 => Row0Finds(i);
    case 1 => Row1Finds(i);
    case 2 => Row2Finds(i);
    case 3 => Row3Finds(i);
    case 4 => Row4Finds(i);
    case 5 => Row5Finds(i);
    case 6 => Row6Finds(i);
    case 7 => Row7Finds(i);
    case 8 => Row8Finds(i);
    case 9 => Row9Finds(i);
    case 10 => Row10Finds(i);
    case 11 => Row11Finds(i);
    case 12 => Row12Finds(i);
    case 13 => Row13Finds(i);
    case 14 => Row14Finds(i);
    case 15 => Row15Finds(i);
    case 16 => Row16Finds(i);
  }

  // The codes of one length, shifted to the left, fill the space up to those of the next length.
  function Place(bits: int): nat {
    match bits
    case 5 => 0x0 case 6 => 0x14000000 case 7 => 0x2E000000 case 8 => 0x3E000000
    case 10 => 0x3F800000 case 11 => 0x3FD00000 case 12 => 0x3FE80000 case 13 => 0x3FF00000
    case 14 => 0x3FFC0000 case 15 => 0x3FFE0000 case 19 => 0x3FFF8000 case 20 => 0x3FFF9800
    case 21 => 0x3FFFB800 case 22 => 0x3FFFD200 case 23 => 0x3FFFEC00 case 24 => 0x3FFFFA80
    case 25 => 0x3FFFFD80 case 26 => 0x3FFFFE00 case 27 => 0x3FFFFEF0 case 28 => 0x3FFFFF88
    case 30 => 0x3FFFFFFC
    case _ => 0
  }

  lemma UnitDoubles(bits: nat)
    ensures SHORTEST <= bits < LONGEST ==> Unit(bits) == 2 * Unit(bits + 1)
    ensures Unit(LONGEST) == 1
  {
  }

  lemma {:induction false} UnitIsPow(bits: nat)
    requires SHORTEST <= bits <= LONGEST
    ensures Unit(bits) == Pow2(LONGEST - bits)
    decreases LONGEST - bits
  {
    hide Unit;
    UnitDoubles(bits);
    if bits < LONGEST {
      UnitIsPow(bits + 1);
    }
  }

  const SPACE := 0x4000_0000

  lemma SpaceIsPow()
    ensures Pow2(LONGEST) == SPACE
  {
    UnitIsPow(SHORTEST);
    Pow2Add(5, LONGEST - 5);
    assert Pow2(5) == 32;
  }

  lemma LengthFits(bits: int)
    requires HowMany(bits) > 0
    ensures SHORTEST <= bits <= LONGEST && Unit(bits) > 0
    ensures Place(bits) == First(bits) * Unit(bits)
    ensures (First(bits) + HowMany(bits)) * Unit(bits) <= SPACE
  {
  }

  lemma LengthsFollow(a: int, b: int)
    requires HowMany(a) > 0 && HowMany(b) > 0 && a < b
    ensures (First(a) + HowMany(a)) * Unit(a) <= Place(b)
  {
  }

  lemma Scaled(a: int, b: int, unit: nat)
    requires a <= b
    ensures a * unit <= b * unit
  {
  }

  lemma OneMoreUnit(a: int, unit: nat)
    ensures (a + 1) * unit == a * unit + unit
  {
  }

  lemma Associates(a: int, b: int, c: int)
    ensures a * b * c == a * (b * c)
  {
  }

  lemma FoundIsSized(c: Code, symbol: nat)
    requires Finds(c, symbol)
    ensures SizedCode(c) && Share(c) == Unit(c.bits)
  {
    hide First, HowMany, Unit, Place, SymbolOf, Pow2, Shr;
    LengthFits(c.bits);
    UnitIsPow(c.bits);
    SpaceIsPow();
    Pow2Add(c.bits, LONGEST - c.bits);
    if c.code >= Pow2(c.bits) {
      Scaled(Pow2(c.bits) + 1, First(c.bits) + HowMany(c.bits), Unit(c.bits));
      OneMoreUnit(Pow2(c.bits), Unit(c.bits));
    }
    ShrZero(c.code, c.bits);
  }

  lemma {:induction false} ShrBound(x: int, k: nat)
    ensures x < (Shr(x, k) + 1) * Pow2(k)
    decreases k
  {
    if k > 0 {
      ShrBound(x / 2, k - 1);
      var next := Shr(x, k) + 1;
      assert next * Pow2(k) == 2 * (next * Pow2(k - 1));
    }
  }

  // A shorter code is no prefix of a longer one: what begins with it lies before all longer codes.
  lemma FoundIsNoPrefix(c: Code, d: Code, i: nat, j: nat)
    requires Finds(c, i) && Finds(d, j)
    ensures !ProperPrefix(Word(c), Word(d))
  {
    FoundIsSized(c, i);
    FoundIsSized(d, j);
    hide First, HowMany, Unit, Place, SymbolOf, Pow2, Shr, ToBits;
    if c.bits < d.bits && ProperPrefix(Word(c), Word(d)) {
      PrefixByShift(c, d);
      EndsBefore(c, d);
    }
  }

  lemma EndsBefore(c: Code, d: Code)
    requires SizedCode(c) && SizedCode(d) && c.bits < d.bits
    requires HowMany(d.bits) > 0 && First(d.bits) <= d.code
    requires HowMany(c.bits) > 0 && c.code < First(c.bits) + HowMany(c.bits)
    ensures c.code != Shr(d.code, d.bits - c.bits)
  {
    hide First, HowMany, Unit, Place, Pow2, Shr;
    var k := d.bits - c.bits;
    ShrBound(d.code, k);
    LengthFits(d.bits);
    LengthsFollow(c.bits, d.bits);
    UnitIsPow(c.bits);
    UnitIsPow(d.bits);
    Pow2Add(k, LONGEST - d.bits);
    Scaled(c.code + 1, First(c.bits) + HowMany(c.bits), Unit(c.bits));
    Scaled(First(d.bits), d.code, Unit(d.bits));
    if c.code == Shr(d.code, k) {
      Scaled(d.code + 1, (c.code + 1) * Pow2(k), Unit(d.bits));
      OneMoreUnit(d.code, Unit(d.bits));
      Associates(c.code + 1, Pow2(k), Unit(d.bits));
    }
  }

  lemma KraftStep(row: nat, i: nat)
    requires i < 16 && 16 * row + i < SYMBOLS
    ensures KraftSum(Standard(), 16 * row + i + 1) == KraftSum(Standard(), 16 * row + i) + Unit(Row(row, i).bits)
  {
    hide Row, Unit, Finds, Share;
    var symbol := 16 * row + i;
    assert Standard()[symbol] == Row(row, i);
    SymbolFinds(symbol);
    FoundIsSized(Standard()[symbol], symbol);
  }

  lemma KraftFour(row: nat, i: nat)
    requires row < 16 && i <= 12
    ensures KraftSum(Standard(), 16 * row + i + 4) == KraftSum(Standard(), 16 * row + i) + Four(row, i)
  {
    hide Row, Unit, KraftSum, Standard;
    KraftStep(row, i);
    KraftStep(row, i + 1);
    KraftStep(row, i + 2);
    KraftStep(row, i + 3);
  }

  lemma KraftHalf(row: nat, i: nat)
    requires row < 16 && i <= 8
    ensures KraftSum(Standard(), 16 * row + i + 8) == KraftSum(Standard(), 16 * row + i) + Half(row, i)
  {
    hide Four, KraftSum, Standard;
    KraftFour(row, i);
    KraftFour(row, i + 4);
  }

  lemma LastRow()
    ensures KraftSum(Standard(), SYMBOLS) == KraftSum(Standard(), 256) + 1
  {
    hide KraftSum, Standard;
    KraftStep(16, 0);
  }

  lemma FirstRows()
    ensures KraftSum(Standard(), 128) == 0x3FFF892F
  {
    hide KraftSum, Standard, Half;
    NothingShared();
    KraftHalf(0, 0);
    Row0Left();
    KraftHalf(0, 8);
    Row0Right();
    KraftHalf(1, 0);
    Row1Left();
    KraftHalf(1, 8);
    Row1Right();
    KraftHalf(2, 0);
    Row2Left();
    KraftHalf(2, 8);
    Row2Right();
    KraftHalf(3, 0);
    Row3Left();
    KraftHalf(3, 8);
    Row3Right();
    KraftHalf(4, 0);
    Row4Left();
    KraftHalf(4, 8);
    Row4Right();
    KraftHalf(5, 0);
    Row5Left();
    KraftHalf(5, 8);
    Row5Right();
    KraftHalf(6, 0);
    Row6Left();
    KraftHalf(6, 8);
    Row6Right();
    KraftHalf(7, 0);
    Row7Left();
    KraftHalf(7, 8);
    Row7Right();
  }

  // All the shares together are the whole space.
  lemma SpaceIsFilled()
    ensures KraftSum(Standard(), SYMBOLS) == SPACE
  {
    hide KraftSum, Standard, Half;
    FirstRows();
    KraftHalf(8, 0);
    Row8Left();
    KraftHalf(8, 8);
    Row8Right();
    KraftHalf(9, 0);
    Row9Left();
    KraftHalf(9, 8);
    Row9Right();
    KraftHalf(10, 0);
    Row10Left();
    KraftHalf(10, 8);
    Row10Right();
    KraftHalf(11, 0);
    Row11Left();
    KraftHalf(11, 8);
    Row11Right();
    KraftHalf(12, 0);
    Row12Left();
    KraftHalf(12, 8);
    Row12Right();
    KraftHalf(13, 0);
    Row13Left();
    KraftHalf(13, 8);
    Row13Right();
    KraftHalf(14, 0);
    Row14Left();
    KraftHalf(14, 8);
    Row14Right();
    KraftHalf(15, 0);
    Row15Left();
    KraftHalf(15, 8);
    Row15Right();
    LastRow();
  }

  lemma NothingShared()
    ensures KraftSum(Standard(), 0) == 0
  {
  }

  // The table of the generator is what its checks ask for, it shares no code, and EOS is thirty ones.
  lemma StandardIsPrefixCode()
    ensures PrefixCode(Standard()) && EosIsOnes(Standard())
  {
    hide Finds, Row, SizedCode, ProperPrefix, Word, KraftSum, Standard;
    var codes := Standard();
    forall i | 0 <= i < |codes|
      ensures SizedCode(codes[i])
    {
      SymbolFinds(i);
      FoundIsSized(codes[i], i);
    }
    forall i, j | 0 <= i < |codes| && 0 <= j < |codes|
      ensures !ProperPrefix(Word(codes[i]), Word(codes[j]))
    {
      SymbolFinds(i);
      SymbolFinds(j);
      FoundIsNoPrefix(codes[i], codes[j], i, j);
    }
    forall i, j | 0 <= i < j < |codes|
      ensures Word(codes[i]) != Word(codes[j])
    {
      SymbolFinds(i);
      SymbolFinds(j);
      OnePlaceEach(codes[i], codes[j], i, j);
    }
    SpaceIsFilled();
    SpaceIsPow();
    StandardEos();
  }

  lemma OnePlaceEach(c: Code, d: Code, i: nat, j: nat)
    requires Finds(c, i) && Finds(d, j)
    ensures Word(c) == Word(d) ==> i == j
  {
    hide First, HowMany, SymbolOf, Word, SizedCode;
    FoundIsSized(c, i);
    FoundIsSized(d, j);
    if Word(c) == Word(d) {
      SameWordSameCode(c, d);
    }
  }

  lemma StandardEos()
    ensures EosIsOnes(Standard())
  {
    assert Standard()[EOS] == Row(16, 0) == Code(0x3FFF_FFFF, LONGEST);
    hide *;
    SpaceIsPow();
    ToBitsOnes(LONGEST);
  }

  // The generator: it accepts its own table, and what it writes are the tables of that code and of
  // its machine.
  method Generate()
    returns (verdict: Verdict, codesText: string, statesText: string, ghost states: Machine, ghost pos: seq<Path>)
    ensures verdict.Accepted?
    ensures PrefixCode(Standard()) && EosIsOnes(Standard()) && Compiled(Standard(), states, pos)
    ensures codesText == Hex.Join(HuffmanEncoder.NaturalRecords(Standard()))
    ensures statesText == Hex.Join(StateRecords(states))
  {
    StandardIsPrefixCode();
    assert Sized(Standard()) && Checked(Standard());
    hide *;
    verdict := Validate(Standard());
    var machine;
    machine, pos := BuildStates(Standard());
    states := machine;
    NaturalCodes();
    codesText := RenderCodes(Standard());
    statesText := RenderStates(machine);
  }

  lemma NaturalCodes()
    requires Sized(Standard())
    ensures forall i :: 0 <= i < |Standard()| ==> Standard()[i].code >= 0 && Standard()[i].bits >= 0
    ensures HuffmanEncoder.NaturalRecords(Standard()) == CodeRecords(Standard())
  {
    hide Sized, Standard, CodeRecords;
    HuffmanEncoder.SizedAreNatural(Standard());
  }

  // With the tables the generator writes, the decoder undoes the encoder.
  method EncodeThenDecode(data: seq<byte>, limit: nat) returns (coded: seq<byte>, r: Decoded)
    ensures r == if |data| <= limit then Ok(data) else TooLong
  {
    var _, codesText, statesText, states, pos := Generate();
    assert |Standard()| == SYMBOLS && Sized(Standard());
    hide *;
    coded := HuffmanEncoder.Encode(codesText, data, Standard());
    r := Decode(statesText, coded, limit, Standard(), states, pos);
    HuffmanEncoder.RoundTrip(Standard(), data, coded, limit);
  }
}
