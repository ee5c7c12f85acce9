/** The substitution table of AES and its inverse, sixteen entries a row. */
module SubstitutionTable {

  function Sub0(c: nat): (v: nat)
    ensures v < 256
  {
    match c
    case 0 => 99 case 1 => 124 case 2 => 119 case 3 => 123 case 4 => 242 case 5 => 107 case 6 => 111 case 7 => 197
    case 8 => 48 case 9 => 1 case 10 => 103 case 11 => 43 case 12 => 254 case 13 => 215 case 14 => 171 case _ => 118
  }

  function Sub1(c: nat): (v: nat)
    ensures v < 256
  {
    match c
    case 0 => 202 case 1 => 130 case 2 => 201 case 3 => 125 case 4 => 250 case 5 => 89 case 6 => 71 case 7 => 240
    case 8 => 173 case 9 => 212 case 10 => 162 case 11 => 175 case 12 => 156 case 13 => 164 case 14 => 114 case _ => 192
  }

  function Sub2(c: nat): (v: nat)
    ensures v < 256
  {
    match c
    case 0 => 183 case 1 => 253 case 2 => 147 case 3 => 38 case 4 => 54 case 5 => 63 case 6 => 247 case 7 => 204
    case 8 => 52 case 9 => 165 case 10 => 229 case 11 => 241 case 12 => 113 case 13 => 216 case 14 => 49 case _ => 21
  }

  function Sub3(c: nat): (v: nat)
    ensures v < 256
  {
    match c
    case 0 => 4 case 1 => 199 case 2 => 35 case 3 => 195 case 4 => 24 case 5 => 150 case 6 => 5 case 7 => 154
    case 8 => 7 case 9 => 18 case 10 => 128 case 11 => 226 case 12 => 235 case 13 => 39 case 14 => 178 case _ => 117
  }

  function Sub4(c: nat): (v: nat)
    ensures v < 256
  {
    match c
    case 0 => 9 case 1 => 131 case 2 => 44 case 3 => 26 case 4 => 27 case 5 => 110 case 6 => 90 case 7 => 160
    case 8 => 82 case 9 => 59 case 10 => 214 case 11 => 179 case 12 => 41 case 13 => 227 case 14 => 47 case _ => 132
  }

  function Sub5(c: nat): (v: nat)
    ensures v < 256
  {
    match c
    case 0 => 83 case 1 => 209 case 2 => 0 case 3 => 237 case 4 => 32 case 5 => 252 case 6 => 177 case 7 => 91
    case 8 => 106 case 9 => 203 case 10 => 190 case 11 => 57 case 12 => 74 case 13 => 76 case 14 => 88 case _ => 207
  }

  function Sub6(c: nat): (v: nat)
    ensures v < 256
  {
    match c
    case 0 => 208 case 1 => 239 case 2 => 170 case 3 => 251 case 4 => 67 case 5 => 77 case 6 => 51 case 7 => 133
    case 8 => 69 case 9 => 249 case 10 => 2 case 11 => 127 case 12 => 80 case 13 => 60 case 14 => 159 case _ => 168
  }

  function Sub7(c: nat): (v: nat)
    ensures v < 256
  {
    match c
    case 0 => 81 case 1 => 163 case 2 => 64 case 3 => 143 case 4 => 146 case 5 => 157 case 6 => 56 case 7 => 245
    case 8 => 188 case 9 => 182 case 10 => 218 case 11 => 33 case 12 => 16 case 13 => 255 case 14 => 243 case _ => 210
  }

  function Sub8(c: nat): (v: nat)
    ensures v < 256
  {
    match c
    case 0 => 205 case 1 => 12 case 2 => 19 case 3 => 236 case 4 => 95 case 5 => 151 case 6 => 68 case 7 => 23
    case 8 => 196 case 9 => 167 case 10 => 126 case 11 => 61 case 12 => 100 case 13 => 93 case 14 => 25 case _ => 115
  }

  function Sub9(c: nat): (v: nat)
    ensures v < 256
  {
    match c
    case 0 => 96 case 1 => 129 case 2 => 79 case 3 => 220 case 4 => 34 case 5 => 42 case 6 => 144 case 7 => 136
    case 8 => 70 case 9 => 238 case 10 => 184 case 11 => 20 case 12 => 222 case 13 => 94 case 14 => 11 case _ => 219
  }

  function Sub10(c: nat): (v: nat)
    ensures v < 256
  {
    match c
    case 0 => 224 case 1 => 50 case 2 => 58 case 3 => 10 case 4 => 73 case 5 => 6 case 6 => 36 case 7 => 92
    case 8 => 194 case 9 => 211 case 10 => 172 case 11 => 98 case 12 => 145 case 13 => 149 case 14 => 228 case _ => 121
  }

  function Sub11(c: nat): (v: nat)
    ensures v < 256
  {
    match c
    case 0 => 231 case 1 => 200 case 2 => 55 case 3 => 109 case 4 => 141 case 5 => 213 case 6 => 78 case 7 => 169
    case 8 => 108 case 9 => 86 case 10 => 244 case 11 => 234 case 12 => 101 case 13 => 122 case 14 => 174 case _ => 8
  }

  function Sub12(c: nat): (v: nat)
    ensures v < 256
  {
    match c
    case 0 => 186 case 1 => 120 case 2 => 37 case 3 => 46 case 4 => 28 case 5 => 166 case 6 => 180 case 7 => 198
    case 8 => 232 case 9 => 221 case 10 => 116 case 11 => 31 case 12 => 75 case 13 => 189 case 14 => 139 case _ => 138
  }

  function Sub13(c: nat): (v: nat)
    ensures v < 256
  {
    match c
    case 0 => 112 case 1 => 62 case 2 => 181 case 3 => 102 case 4 => 72 case 5 => 3 case 6 => 246 case 7 => 14
    case 8 => 97 case 9 => 53 case 10 => 87 case 11 => 185 case 12 => 134 case 13 => 193 case 14 => 29 case _ => 158
  }

  function Sub14(c: nat): (v: nat)
    ensures v < 256
  {
    match c
    case 0 => 225 case 1 => 248 case 2 => 152 case 3 => 17 case 4 => 105 case 5 => 217 case 6 => 142 case 7 => 148
    case 8 => 155 case 9 => 30 case 10 => 135 case 11 => 233 case 12 => 206 case 13 => 85 case 14 => 40 case _ => 223
  }

  function Sub15(c: nat): (v: nat)
    ensures v < 256
  {
    match c
    case 0 => 140 case 1 => 161 case 2 => 137 case 3 => 13 case 4 => 191 case 5 => 230 case 6 => 66 case 7 => 104
    case 8 => 65 case 9 => 153 case 10 => 45 case 11 => 15 case 12 => 176 case 13 => 84 case 14 => 187 case _ => 22
  }

  /** The entry of the table for n. */
  function Sub(n: nat): (v: nat)
    ensures v < 256
  {
    match n / 16
    case 0 => Sub0(n % 16)
    case 1 => Sub1(n % 16)
    case 2 => Sub2(n % 16)
    case 3 => Sub3(n % 16)
    case 4 => Sub4(n % 16)
    case 5 => Sub5(n % 16)
    case 6 => Sub6(n % 16)
    case 7 => Sub7(n % 16)
    case 8 => Sub8(n % 16)
    case 9 => Sub9(n % 16)
    case 10 => Sub10(n % 16)
    case 11 => Sub11(n % 16)
    case 12 => Sub12(n % 16)
    case 13 => Sub13(n % 16)
    case 14 => Sub14(n % 16)
    case _ => Sub15(n % 16)
  }

  function Unsub0(c: nat): (v: nat)
    ensures v < 256
  {
    match c
    case 0 => 82 case 1 => 9 case 2 => 106 case 3 => 213 case 4 => 48 case 5 => 54 case 6 => 165 case 7 => 56
    case 8 => 191 case 9 => 64 case 10 => 163 case 11 => 158 case 12 => 129 case 13 => 243 case 14 => 215 case _ => 251
  }

  function Unsub1(c: nat): (v: nat)
    ensures v < 256
  {
    match c
    case 0 => 124 case 1 => 227 case 2 => 57 case 3 => 130 case 4 => 155 case 5 => 47 case 6 => 255 case 7 => 135
    case 8 => 52 case 9 => 142 case 10 => 67 case 11 => 68 case 12 => 196 case 13 => 222 case 14 => 233 case _ => 203
  }

  function Unsub2(c: nat): (v: nat)
    ensures v < 256
  {
    match c
    case 0 => 84 case 1 => 123 case 2 => 148 case 3 => 50 case 4 => 166 case 5 => 194 case 6 => 35 case 7 => 61
    case 8 => 238 case 9 => 76 case 10 => 149 case 11 => 11 case 12 => 66 case 13 => 250 case 14 => 195 case _ => 78
  }

  function Unsub3(c: nat): (v: nat)
    ensures v < 256
  {
    match c
    case 0 => 8 case 1 => 46 case 2 => 161 case 3 => 102 case 4 => 40 case 5 => 217 case 6 => 36 case 7 => 178
    case 8 => 118 case 9 => 91 case 10 => 162 case 11 => 73 case 12 => 109 case 13 => 139 case 14 => 209 case _ => 37
  }

  function Unsub4(c: nat): (v: nat)
    ensures v < 256
  {
    match c
    case 0 => 114 case 1 => 248 case 2 => 246 case 3 => 100 case 4 => 134 case 5 => 104 case 6 => 152 case 7 => 22
    case 8 => 212 case 9 => 164 case 10 => 92 case 11 => 204 case 12 => 93 case 13 => 101 case 14 => 182 case _ => 146
  }

  function Unsub5(c: nat): (v: nat)
    ensures v < 256
  {
    match c
    case 0 => 108 case 1 => 112 case 2 => 72 case 3 => 80 case 4 => 253 case 5 => 237 case 6 => 185 case 7 => 218
    case 8 => 94 case 9 => 21 case 10 => 70 case 11 => 87 case 12 => 167 case 13 => 141 case 14 => 157 case _ => 132
  }

  function Unsub6(c: nat): (v: nat)
    ensures v < 256
  {
    match c
    case 0 => 144 case 1 => 216 case 2 => 171 case 3 => 0 case 4 => 140 case 5 => 188 case 6 => 211 case 7 => 10
    case 8 => 247 case 9 => 228 case 10 => 88 case 11 => 5 case 12 => 184 case 13 => 179 case 14 => 69 case _ => 6
  }

  function Unsub7(c: nat): (v: nat)
    ensures v < 256
  {
    match c
    case 0 => 208 case 1 => 44 case 2 => 30 case 3 => 143 case 4 => 202 case 5 => 63 case 6 => 15 case 7 => 2
    case 8 => 193 case 9 => 175 case 10 => 189 case 11 => 3 case 12 => 1 case 13 => 19 case 14 => 138 case _ => 107
  }

  function Unsub8(c: nat): (v: nat)
    ensures v < 256
  {
    match c
    case 0 => 58 case 1 => 145 case 2 => 17 case 3 => 65 case 4 => 79 case 5 => 103 case 6 => 220 case 7 => 234
    case 8 => 151 case 9 => 242 case 10 => 207 case 11 => 206 case 12 => 240 case 13 => 180 case 14 => 230 case _ => 115
  }

  function Unsub9(c: nat): (v: nat)
    ensures v < 256
  {
    match c
    case 0 => 150 case 1 => 172 case 2 => 116 case 3 => 34 case 4 => 231 case 5 => 173 case 6 => 53 case 7 => 133
    case 8 => 226 case 9 => 249 case 10 => 55 case 11 => 232 case 12 => 28 case 13 => 117 case 14 => 223 case _ => 110
  }

  function Unsub10(c: nat): (v: nat)
    ensures v < 256
  {
    match c
    case 0 => 71 case 1 => 241 case 2 => 26 case 3 => 113 case 4 => 29 case 5 => 41 case 6 => 197 case 7 => 137
    case 8 => 111 case 9 => 183 case 10 => 98 case 11 => 14 case 12 => 170 case 13 => 24 case 14 => 190 case _ => 27
  }

  function Unsub11(c: nat): (v: nat)
    ensures v < 256
  {
    match c
    case 0 => 252 case 1 => 86 case 2 => 62 case 3 => 75 case 4 => 198 case 5 => 210 case 6 => 121 case 7 => 32
    case 8 => 154 case 9 => 219 case 10 => 192 case 11 => 254 case 12 => 120 case 13 => 205 case 14 => 90 case _ => 244
  }

  function Unsub12(c: nat): (v: nat)
    ensures v < 256
  {
    match c
    case 0 => 31 case 1 => 221 case 2 => 168 case 3 => 51 case 4 => 136 case 5 => 7 case 6 => 199 case 7 => 49
    case 8 => 177 case 9 => 18 case 10 => 16 case 11 => 89 case 12 => 39 case 13 => 128 case 14 => 236 case _ => 95
  }

  function Unsub13(c: nat): (v: nat)
    ensures v < 256
  {
    match c
    case 0 => 96 case 1 => 81 case 2 => 127 case 3 => 169 case 4 => 25 case 5 => 181 case 6 => 74 case 7 => 13
    case 8 => 45 case 9 => 229 case 10 => 122 case 11 => 159 case 12 => 147 case 13 => 201 case 14 => 156 case _ => 239
  }

  function Unsub14(c: nat): (v: nat)
    ensures v < 256
  {
    match c
    case 0 => 160 case 1 => 224 case 2 => 59 case 3 => 77 case 4 => 174 case 5 => 42 case 6 => 245 case 7 => 176
    case 8 => 200 case 9 => 235 case 10 => 187 case 11 => 60 case 12 => 131 case 13 => 83 case 14 => 153 case _ => 97
  }

  function Unsub15(c: nat): (v: nat)
    ensures v < 256
  {
    match c
    case 0 => 23 case 1 => 43 case 2 => 4 case 3 => 126 case 4 => 186 case 5 => 119 case 6 => 214 case 7 => 38
    case 8 => 225 case 9 => 105 case 10 => 20 case 11 => 99 case 12 => 85 case 13 => 33 case 14 => 12 case _ => 125
  }

  /** The place of n in the table. */
  function Unsub(n: nat): (v: nat)
    ensures v < 256
  {
    match n / 16
    case 0 => Unsub0(n % 16)
    case 1 => Unsub1(n % 16)
    case 2 => Unsub2(n % 16)
    case 3 => Unsub3(n % 16)
    case 4 => Unsub4(n % 16)
    case 5 => Unsub5(n % 16)
    case 6 => Unsub6(n % 16)
    case 7 => Unsub7(n % 16)
    case 8 => Unsub8(n % 16)
    case 9 => Unsub9(n % 16)
    case 10 => Unsub10(n % 16)
    case 11 => Unsub11(n % 16)
    case 12 => Unsub12(n % 16)
    case 13 => Unsub13(n % 16)
    case 14 => Unsub14(n % 16)
    case _ => Unsub15(n % 16)
  }

  lemma Undone0(i: nat)
    requires i < 16
    ensures Unsub(Sub0(i)) == 0 + i
  {
  }

  lemma Undone1(i: nat)
    requires i < 16
    ensures Unsub(Sub1(i)) == 16 + i
  {
  }

  lemma Undone2(i: nat)
    requires i < 16
    ensures Unsub(Sub2(i)) == 32 + i
  {
  }

  lemma Undone3(i: nat)
    requires i < 16
    ensures Unsub(Sub3(i)) == 48 + i
  {
  }

  lemma Undone4(i: nat)
    requires i < 16
    ensures Unsub(Sub4(i)) == 64 + i
  {
  }

  lemma Undone5(i: nat)
    requires i < 16
    ensures Unsub(Sub5(i)) == 80 + i
  {
  }

  lemma Undone6(i: nat)
    requires i < 16
    ensures Unsub(Sub6(i)) == 96 + i
  {
  }

  lemma Undone7(i: nat)
    requires i < 16
    ensures Unsub(Sub7(i)) == 112 + i
  {
  }

  lemma Undone8(i: nat)
    requires i < 16
    ensures Unsub(Sub8(i)) == 128 + i
  {
  }

  lemma Undone9(i: nat)
    requires i < 16
    ensures Unsub(Sub9(i)) == 144 + i
  {
  }

  lemma Undone10(i: nat)
    requires i < 16
    ensures Unsub(Sub10(i)) == 160 + i
  {
  }

  lemma Undone11(i: nat)
    requires i < 16
    ensures Unsub(Sub11(i)) == 176 + i
  {
  }

  lemma Undone12(i: nat)
    requires i < 16
    ensures Unsub(Sub12(i)) == 192 + i
  {
  }

  lemma Undone13(i: nat)
    requires i < 16
    ensures Unsub(Sub13(i)) == 208 + i
  {
  }

  lemma Undone14(i: nat)
    requires i < 16
    ensures Unsub(Sub14(i)) == 224 + i
  {
  }

  lemma Undone15(i: nat)
    requires i < 16
    ensures Unsub(Sub15(i)) == 240 + i
  {
  }

  /** No value occurs twice in the table. */
  lemma UnsubSub(n: nat)
    requires n < 256
    ensures Unsub(Sub(n)) == n
  {
    hide Unsub, Sub0, Sub1, Sub2, Sub3, Sub4, Sub5, Sub6, Sub7, Sub8, Sub9, Sub10, Sub11, Sub12, Sub13, Sub14, Sub15;
    var i := n % 16;
    match n / 16
    case 0 => Undone0(i);
    case 1 => Undone1(i);
    case 2 => Undone2(i);
    case 3 => Undone3(i);
    case 4 => Undone4(i);
    case 5 => Undone5(i);
    case 6 => Undone6(i);
    case 7 => Undone7(i);
    case 8 => Undone8(i);
    case 9 => Undone9(i);
    case 10 => Undone10(i);
    case 11 => Undone11(i);
    case 12 => Undone12(i);
    case 13 => Undone13(i);
    case 14 => Undone14(i);
    case _ => Undone15(i);
  }
}
