/** The table of twiddle factors of src/mldsa87/constant.c, checked entry by entry. */
module ZetaTable {
  import opened Words
  import opened Modular

  /** ZETAS[k] for 0 <= k < 256, looked up by bisection; callers prove that the index is in bounds. */
  function Zeta(k: int): int {
    if k < 128 then (
      if k < 64 then (
        if k < 32 then (
          if k < 16 then (
            if k < 8 then (
              if k < 4 then (
                if k < 2 then (if k < 1 then 0 else 25847) else (if k < 3 then -2608894 else -518909)
              ) else (
                if k < 6 then (if k < 5 then 237124 else -777960) else (if k < 7 then -876248 else 466468)
              )
            ) else (
              if k < 12 then (
                if k < 10 then (if k < 9 then 1826347 else 2353451) else (if k < 11 then -359251 else -2091905)
              ) else (
                if k < 14 then (if k < 13 then 3119733 else -2884855) else (if k < 15 then 3111497 else 2680103)
              )
            )
          ) else (
            if k < 24 then (
              if k < 20 then (
                if k < 18 then (if k < 17 then 2725464 else 1024112) else (if k < 19 then -1079900 else 3585928)
              ) else (
                if k < 22 then (if k < 21 then -549488 else -1119584) else (if k < 23 then 2619752 else -2108549)
              )
            ) else (
              if k < 28 then (
                if k < 26 then (if k < 25 then -2118186 else -3859737) else (if k < 27 then -1399561 else -3277672)
              ) else (
                if k < 30 then (if k < 29 then 1757237 else -19422) else (if k < 31 then 4010497 else 280005)
              )
            )
          )
        ) else (
          if k < 48 then (
            if k < 40 then (
              if k < 36 then (
                if k < 34 then (if k < 33 then 2706023 else 95776) else (if k < 35 then 3077325 else 3530437)
              ) else (
                if k < 38 then (if k < 37 then -1661693 else -3592148) else (if k < 39 then -2537516 else 3915439)
              )
            ) else (
              if k < 44 then (
                if k < 42 then (if k < 41 then -3861115 else -3043716) else (if k < 43 then 3574422 else -2867647)
              ) else (
                if k < 46 then (if k < 45 then 3539968 else -300467) else (if k < 47 then 2348700 else -539299)
              )
            )
          ) else (
            if k < 56 then (
              if k < 52 then (
                if k < 50 then (if k < 49 then -1699267 else -1643818) else (if k < 51 then 3505694 else -3821735)
              ) else (
                if k < 54 then (if k < 53 then 3507263 else -2140649) else (if k < 55 then -1600420 else 3699596)
              )
            ) else (
              if k < 60 then (
                if k < 58 then (if k < 57 then 811944 else 531354) else (if k < 59 then 954230 else 3881043)
              ) else (
                if k < 62 then (if k < 61 then 3900724 else -2556880) else (if k < 63 then 2071892 else -2797779)
              )
            )
          )
        )
      ) else (
        if k < 96 then (
          if k < 80 then (
            if k < 72 then (
              if k < 68 then (
                if k < 66 then (if k < 65 then -3930395 else -1528703) else (if k < 67 then -3677745 else -3041255)
              ) else (
                if k < 70 then (if k < 69 then -1452451 else 3475950) else (if k < 71 then 2176455 else -1585221)
              )
            ) else (
              if k < 76 then (
                if k < 74 then (if k < 73 then -1257611 else 1939314) else (if k < 75 then -4083598 else -1000202)
              ) else (
                if k < 78 then (if k < 77 then -3190144 else -3157330) else (if k < 79 then -3632928 else 126922)
              )
            )
          ) else (
            if k < 88 then (
              if k < 84 then (
                if k < 82 then (if k < 81 then 3412210 else -983419) else (if k < 83 then 2147896 else 2715295)
              ) else (
                if k < 86 then (if k < 85 then -2967645 else -3693493) else (if k < 87 then -411027 else -2477047)
              )
            ) else (
              if k < 92 then (
                if k < 90 then (if k < 89 then -671102 else -1228525) else (if k < 91 then -22981 else -1308169)
              ) else (
                if k < 94 then (if k < 93 then -381987 else 1349076) else (if k < 95 then 1852771 else -1430430)
              )
            )
          )
        ) else (
          if k < 112 then (
            if k < 104 then (
              if k < 100 then (
                if k < 98 then (if k < 97 then -3343383 else 264944) else (if k < 99 then 508951 else 3097992)
              ) else (
                if k < 102 then (if k < 101 then 44288 else -1100098) else (if k < 103 then 904516 else 3958618)
              )
            ) else (
              if k < 108 then (
                if k < 106 then (if k < 105 then -3724342 else -8578) else (if k < 107 then 1653064 else -3249728)
              ) else (
                if k < 110 then (if k < 109 then 2389356 else -210977) else (if k < 111 then 759969 else -1316856)
              )
            )
          ) else (
            if k < 120 then (
              if k < 116 then (
                if k < 114 then (if k < 113 then 189548 else -3553272) else (if k < 115 then 3159746 else -1851402)
              ) else (
                if k < 118 then (if k < 117 then -2409325 else -177440) else (if k < 119 then 1315589 else 1341330)
              )
            ) else (
              if k < 124 then (
                if k < 122 then (if k < 121 then 1285669 else -1584928) else (if k < 123 then -812732 else -1439742)
              ) else (
                if k < 126 then (if k < 125 then -3019102 else -3881060) else (if k < 127 then -3628969 else 3839961)
              )
            )
          )
        )
      )
    ) else (
      if k < 192 then (
        if k < 160 then (
          if k < 144 then (
            if k < 136 then (
              if k < 132 then (
                if k < 130 then (if k < 129 then 2091667 else 3407706) else (if k < 131 then 2316500 else 3817976)
              ) else (
                if k < 134 then (if k < 133 then -3342478 else 2244091) else (if k < 135 then -2446433 else -3562462)
              )
            ) else (
              if k < 140 then (
                if k < 138 then (if k < 137 then 266997 else 2434439) else (if k < 139 then -1235728 else 3513181)
              ) else (
                if k < 142 then (if k < 141 then -3520352 else -3759364) else (if k < 143 then -1197226 else -3193378)
              )
            )
          ) else (
            if k < 152 then (
              if k < 148 then (
                if k < 146 then (if k < 145 then 900702 else 1859098) else (if k < 147 then 909542 else 819034)
              ) else (
                if k < 150 then (if k < 149 then 495491 else -1613174) else (if k < 151 then -43260 else -522500)
              )
            ) else (
              if k < 156 then (
                if k < 154 then (if k < 153 then -655327 else -3122442) else (if k < 155 then 2031748 else 3207046)
              ) else (
                if k < 158 then (if k < 157 then -3556995 else -525098) else (if k < 159 then -768622 else -3595838)
              )
            )
          )
        ) else (
          if k < 176 then (
            if k < 168 then (
              if k < 164 then (
                if k < 162 then (if k < 161 then 342297 else 286988) else (if k < 163 then -2437823 else 4108315)
              ) else (
                if k < 166 then (if k < 165 then 3437287 else -3342277) else (if k < 167 then 1735879 else 203044)
              )
            ) else (
              if k < 172 then (
                if k < 170 then (if k < 169 then 2842341 else 2691481) else (if k < 171 then -2590150 else 1265009)
              ) else (
                if k < 174 then (if k < 173 then 4055324 else 1247620) else (if k < 175 then 2486353 else 1595974)
              )
            )
          ) else (
            if k < 184 then (
              if k < 180 then (
                if k < 178 then (if k < 177 then -3767016 else 1250494) else (if k < 179 then 2635921 else -3548272)
              ) else (
                if k < 182 then (if k < 181 then -2994039 else 1869119) else (if k < 183 then 1903435 else -1050970)
              )
            ) else (
              if k < 188 then (
                if k < 186 then (if k < 185 then -1333058 else 1237275) else (if k < 187 then -3318210 else -1430225)
              ) else (
                if k < 190 then (if k < 189 then -451100 else 1312455) else (if k < 191 then 3306115 else -1962642)
              )
            )
          )
        )
      ) else (
        if k < 224 then (
          if k < 208 then (
            if k < 200 then (
              if k < 196 then (
                if k < 194 then (if k < 193 then -1279661 else 1917081) else (if k < 195 then -2546312 else -1374803)
              ) else (
                if k < 198 then (if k < 197 then 1500165 else 777191) else (if k < 199 then 2235880 else 3406031)
              )
            ) else (
              if k < 204 then (
                if k < 202 then (if k < 201 then -542412 else -2831860) else (if k < 203 then -1671176 else -1846953)
              ) else (
                if k < 206 then (if k < 205 then -2584293 else -3724270) else (if k < 207 then 594136 else -3776993)
              )
            )
          ) else (
            if k < 216 then (
              if k < 212 then (
                if k < 210 then (if k < 209 then -2013608 else 2432395) else (if k < 211 then 2454455 else -164721)
              ) else (
                if k < 214 then (if k < 213 then 1957272 else 3369112) else (if k < 215 then 185531 else -1207385)
              )
            ) else (
              if k < 220 then (
                if k < 218 then (if k < 217 then -3183426 else 162844) else (if k < 219 then 1616392 else 3014001)
              ) else (
                if k < 222 then (if k < 221 then 810149 else 1652634) else (if k < 223 then -3694233 else -1799107)
              )
            )
          )
        ) else (
          if k < 240 then (
            if k < 232 then (
              if k < 228 then (
                if k < 226 then (if k < 225 then -3038916 else 3523897) else (if k < 227 then 3866901 else 269760)
              ) else (
                if k < 230 then (if k < 229 then 2213111 else -975884) else (if k < 231 then 1717735 else 472078)
              )
            ) else (
              if k < 236 then (
                if k < 234 then (if k < 233 then -426683 else 1723600) else (if k < 235 then -1803090 else 1910376)
              ) else (
                if k < 238 then (if k < 237 then -1667432 else -1104333) else (if k < 239 then -260646 else -3833893)
              )
            )
          ) else (
            if k < 248 then (
              if k < 244 then (
                if k < 242 then (if k < 241 then -2939036 else -2235985) else (if k < 243 then -420899 else -2286327)
              ) else (
                if k < 246 then (if k < 245 then 183443 else -976891) else (if k < 247 then 1612842 else -3545687)
              )
            ) else (
              if k < 252 then (
                if k < 250 then (if k < 249 then -554416 else 3919660) else (if k < 251 then -48306 else -1362209)
              ) else (
                if k < 254 then (if k < 253 then 3937738 else 1400424) else (if k < 255 then -846154 else 1976782)
              )
            )
          )
        )
      )
    )
  }

  /** The residues of 1753^(2^(7-l)). */
  function Step(l: nat): int
    requires l < 8
  {
    if l < 4 then
      if l < 2 then (if l < 1 then 4808194 else 3765607) else (if l < 3 then 5178923 else 7778734)
    else
      if l < 6 then (if l < 5 then 5010068 else 3602218) else (if l < 7 then 3073009 else 1753)
  }

  // n entries from k on are in range and are c times the n entries from m on.
  predicate Related(k: nat, m: nat, c: int, n: nat)
    requires m + n <= 256 && k + n <= 256
    decreases n
  {
    n == 0 || (-4190208 <= Zeta(k) <= 4190208 && (Zeta(k) - c * Zeta(m)) % Q == 0 && Related(k + 1, m + 1, c, n - 1))
  }

  // The table is checked entry by entry, with every index a literal.
  lemma Table0() ensures Related(3, 1, 3765607, 1) {}
  lemma Table1() ensures Related(5, 1, 5178923, 3) {}
  lemma Table2() ensures Related(9, 1, 7778734, 7) {}
  lemma Table3() ensures Related(17, 1, 5010068, 7) {}
  lemma Table4() ensures Related(24, 8, 5010068, 8) {}
  lemma Table5() ensures Related(33, 1, 3602218, 7) {}
  lemma Table6() ensures Related(40, 8, 3602218, 8) {}
  lemma Table7() ensures Related(48, 16, 3602218, 8) {}
  lemma Table8() ensures Related(56, 24, 3602218, 8) {}
  lemma Table9() ensures Related(65, 1, 3073009, 7) {}
  lemma Table10() ensures Related(72, 8, 3073009, 8) {}
  lemma Table11() ensures Related(80, 16, 3073009, 8) {}
  lemma Table12() ensures Related(88, 24, 3073009, 8) {}
  lemma Table13() ensures Related(96, 32, 3073009, 8) {}
  lemma Table14() ensures Related(104, 40, 3073009, 8) {}
  lemma Table15() ensures Related(112, 48, 3073009, 8) {}
  lemma Table16() ensures Related(120, 56, 3073009, 8) {}
  lemma Table17() ensures Related(129, 1, 1753, 7) {}
  lemma Table18() ensures Related(136, 8, 1753, 8) {}
  lemma Table19() ensures Related(144, 16, 1753, 8) {}
  lemma Table20() ensures Related(152, 24, 1753, 8) {}
  lemma Table21() ensures Related(160, 32, 1753, 8) {}
  lemma Table22() ensures Related(168, 40, 1753, 8) {}
  lemma Table23() ensures Related(176, 48, 1753, 8) {}
  lemma Table24() ensures Related(184, 56, 1753, 8) {}
  lemma Table25() ensures Related(192, 64, 1753, 8) {}
  lemma Table26() ensures Related(200, 72, 1753, 8) {}
  lemma Table27() ensures Related(208, 80, 1753, 8) {}
  lemma Table28() ensures Related(216, 88, 1753, 8) {}
  lemma Table29() ensures Related(224, 96, 1753, 8) {}
  lemma Table30() ensures Related(232, 104, 1753, 8) {}
  lemma Table31() ensures Related(240, 112, 1753, 8) {}
  lemma Table32() ensures Related(248, 120, 1753, 8) {}

  lemma RelatedEntry(k: nat, m: nat, c: int, n: nat, i: nat)
    requires m + n <= 256 && k + n <= 256 && i < n
    requires Related(k, m, c, n)
    ensures -4190208 <= Zeta(k + i) <= 4190208 && Cong(Zeta(k + i), c * Zeta(m + i))
    decreases n
  {
    hide Zeta;
    if i > 0 {
      RelatedEntry(k + 1, m + 1, c, n - 1, i - 1);
    }
  }

  lemma Level1(b: nat)
    requires 1 <= b < 2
    ensures -4190208 <= Zeta(2 + b) <= 4190208 && Cong(Zeta(2 + b), 3765607 * Zeta(b))
  {
    hide Zeta, Related;
    Table0();
    RelatedEntry(3, 1, 3765607, 1, b - 1);
  }

  lemma Level2(b: nat)
    requires 1 <= b < 4
    ensures -4190208 <= Zeta(4 + b) <= 4190208 && Cong(Zeta(4 + b), 5178923 * Zeta(b))
  {
    hide Zeta, Related;
    Table1();
    RelatedEntry(5, 1, 5178923, 3, b - 1);
  }

  lemma Level3(b: nat)
    requires 1 <= b < 8
    ensures -4190208 <= Zeta(8 + b) <= 4190208 && Cong(Zeta(8 + b), 7778734 * Zeta(b))
  {
    hide Zeta, Related;
    Table2();
    RelatedEntry(9, 1, 7778734, 7, b - 1);
  }

  lemma Level4(b: nat)
    requires 1 <= b < 16
    ensures -4190208 <= Zeta(16 + b) <= 4190208 && Cong(Zeta(16 + b), 5010068 * Zeta(b))
  {
    hide Zeta, Related;
    if b < 8 {
      Table3();
      RelatedEntry(17, 1, 5010068, 7, b - 1);
    } else {
      Table4();
      RelatedEntry(24, 8, 5010068, 8, b - 8);
    }
  }

  lemma Level5(b: nat)
    requires 1 <= b < 32
    ensures -4190208 <= Zeta(32 + b) <= 4190208 && Cong(Zeta(32 + b), 3602218 * Zeta(b))
  {
    hide Zeta, Related;
    if b < 8 {
      Table5();
      RelatedEntry(33, 1, 3602218, 7, b - 1);
    } else if b < 16 {
      Table6();
      RelatedEntry(40, 8, 3602218, 8, b - 8);
    } else if b < 24 {
      Table7();
      RelatedEntry(48, 16, 3602218, 8, b - 16);
    } else {
      Table8();
      RelatedEntry(56, 24, 3602218, 8, b - 24);
    }
  }

  lemma Level6(b: nat)
    requires 1 <= b < 64
    ensures -4190208 <= Zeta(64 + b) <= 4190208 && Cong(Zeta(64 + b), 3073009 * Zeta(b))
  {
    hide Zeta, Related;
    if b < 8 {
      Table9();
      RelatedEntry(65, 1, 3073009, 7, b - 1);
    } else if b < 16 {
      Table10();
      RelatedEntry(72, 8, 3073009, 8, b - 8);
    } else if b < 24 {
      Table11();
      RelatedEntry(80, 16, 3073009, 8, b - 16);
    } else if b < 32 {
      Table12();
      RelatedEntry(88, 24, 3073009, 8, b - 24);
    } else if b < 40 {
      Table13();
      RelatedEntry(96, 32, 3073009, 8, b - 32);
    } else if b < 48 {
      Table14();
      RelatedEntry(104, 40, 3073009, 8, b - 40);
    } else if b < 56 {
      Table15();
      RelatedEntry(112, 48, 3073009, 8, b - 48);
    } else {
      Table16();
      RelatedEntry(120, 56, 3073009, 8, b - 56);
    }
  }

  lemma Level7(b: nat)
    requires 1 <= b < 128
    ensures -4190208 <= Zeta(128 + b) <= 4190208 && Cong(Zeta(128 + b), 1753 * Zeta(b))
  {
    hide Zeta, Related;
    if b < 8 {
      Table17();
      RelatedEntry(129, 1, 1753, 7, b - 1);
    } else if b < 16 {
      Table18();
      RelatedEntry(136, 8, 1753, 8, b - 8);
    } else if b < 24 {
      Table19();
      RelatedEntry(144, 16, 1753, 8, b - 16);
    } else if b < 32 {
      Table20();
      RelatedEntry(152, 24, 1753, 8, b - 24);
    } else if b < 40 {
      Table21();
      RelatedEntry(160, 32, 1753, 8, b - 32);
    } else if b < 48 {
      Table22();
      RelatedEntry(168, 40, 1753, 8, b - 40);
    } else if b < 56 {
      Table23();
      RelatedEntry(176, 48, 1753, 8, b - 48);
    } else if b < 64 {
      Table24();
      RelatedEntry(184, 56, 1753, 8, b - 56);
    } else if b < 72 {
      Table25();
      RelatedEntry(192, 64, 1753, 8, b - 64);
    } else if b < 80 {
      Table26();
      RelatedEntry(200, 72, 1753, 8, b - 72);
    } else if b < 88 {
      Table27();
      RelatedEntry(208, 80, 1753, 8, b - 80);
    } else if b < 96 {
      Table28();
      RelatedEntry(216, 88, 1753, 8, b - 88);
    } else if b < 104 {
      Table29();
      RelatedEntry(224, 96, 1753, 8, b - 96);
    } else if b < 112 {
      Table30();
      RelatedEntry(232, 104, 1753, 8, b - 104);
    } else if b < 120 {
      Table31();
      RelatedEntry(240, 112, 1753, 8, b - 112);
    } else {
      Table32();
      RelatedEntry(248, 120, 1753, 8, b - 120);
    }
  }

  lemma Tops()
    ensures Cong(Zeta(1), 4808194 * TWO32) && -4190208 <= Zeta(1) <= 4190208
    ensures Cong(Zeta(2), 3765607 * TWO32) && -4190208 <= Zeta(2) <= 4190208
    ensures Cong(Zeta(4), 5178923 * TWO32) && -4190208 <= Zeta(4) <= 4190208
    ensures Cong(Zeta(8), 7778734 * TWO32) && -4190208 <= Zeta(8) <= 4190208
    ensures Cong(Zeta(16), 5010068 * TWO32) && -4190208 <= Zeta(16) <= 4190208
    ensures Cong(Zeta(32), 3602218 * TWO32) && -4190208 <= Zeta(32) <= 4190208
    ensures Cong(Zeta(64), 3073009 * TWO32) && -4190208 <= Zeta(64) <= 4190208
    ensures Cong(Zeta(128), 1753 * TWO32) && -4190208 <= Zeta(128) <= 4190208
  {
  }

  /** Entry b, with the Montgomery form of 1 in place of the unused entry 0. */
  function Lower(b: nat): int
    requires b < 256
  {
    if b == 0 then TWO32 else Zeta(b)
  }

  lemma Pow2Under8(l: nat)
    requires l < 8
    ensures 2 * Pow2(l) <= 256
  {
    Pow2Values();
  }

  /** Setting bit l of an index below 2^l multiplies the entry by Step(l). */
  lemma TopBit(l: nat, b: nat)
    requires l < 8 && b < Pow2(l)
    ensures Pow2(l) + b < 256
    ensures -4190208 <= Zeta(Pow2(l) + b) <= 4190208
    ensures Cong(Zeta(Pow2(l) + b), Step(l) * Lower(b))
  {
    hide Zeta;
    Pow2Values();
    Pow2Under8(l);
    if b == 0 {
      Tops();
    } else if l == 1 {
      Level1(b);
    } else if l == 2 {
      Level2(b);
    } else if l == 3 {
      Level3(b);
    } else if l == 4 {
      Level4(b);
    } else if l == 5 {
      Level5(b);
    } else if l == 6 {
      Level6(b);
    } else {
      Level7(b);
    }
  }
}
