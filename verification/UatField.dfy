/** The field of the UAT codes, gfpoly 0x187, is primitive; a gfpoly that passes
    the table builder's own test without being primitive. */
module UatField {
  import opened Bits
  import opened Galois

  function UatGf(): Gf {
    Gf(8, 0x187)
  }

  // One step of the shift register, in plain arithmetic.
  function Next(x: int): int {
    if x < 128 then 2 * x
    else if x < 192 then 2 * x - 121 - 4 * (x % 4)
    else 2 * x - 377 - 4 * (x % 4)
  }

  // Adding the feedback bits to 2*x when its top bit is set.
  lemma XorFeedback(x: nat)
    requires 128 <= x < 256
    ensures Xor(2 * x, 0x187) == Next(x)
  {
    hide Xor;
    XorStep(2 * x, 391);
    XorStep(x, 195);
    XorStep(x / 2, 97);
    assert Pow2(4) == 16;
    XorTop(x / 4, 4);
  }

  lemma {:induction false} XorTop(z: nat, k: nat)
    requires 2 * Pow2(k) <= z < 4 * Pow2(k)
    ensures Xor(z, 3 * Pow2(k)) == if z < 3 * Pow2(k) then z - Pow2(k) else z - 3 * Pow2(k)
  {
    if k > 0 {
      hide Xor;
      var q := Pow2(k - 1);
      assert Pow2(k) == 2 * q;
      XorTop(z / 2, k - 1);
      XorStep(z, 6 * q);
      assert (6 * q) / 2 == 3 * q && (6 * q) % 2 == 0;
    }
  }

  lemma NextIsTimes2(x: nat)
    requires x < 256
    ensures Times2(UatGf(), x) == Next(x) && 0 <= Next(x) < 256
  {
    hide Xor, Low;
    assert Pow2(8) == 256;
    if x < 128 {
      LowId(2 * x, 8);
    } else {
      XorFeedback(x);
      LowId(Xor(2 * x, 0x187), 8);
    }
  }

  // The register holds x after k steps, and 1 has not come back.
  ghost predicate Reached(k: nat, x: int) {
    Exp(UatGf(), k) == x && 0 <= x < 256 && forall j :: 0 < j <= k ==> Exp(UatGf(), j) != 1
  }

  lemma OneStep(k: nat, x: int)
    requires Reached(k, x)
    ensures Exp(UatGf(), k + 1) == Next(x)
    ensures Next(x) != 1 ==> Reached(k + 1, Next(x))
  {
    hide Times2, Next;
    NextIsTimes2(x);
  }

  lemma Walk(k: nat, x0: int, x1: int, x2: int, x3: int, x4: int, x5: int, x6: int, x7: int, x8: int)
    requires Reached(k, x0) && 1 !in [x1, x2, x3, x4, x5, x6, x7, x8]
    requires Next(x0) == x1 && Next(x1) == x2 && Next(x2) == x3 && Next(x3) == x4
    requires Next(x4) == x5 && Next(x5) == x6 && Next(x6) == x7 && Next(x7) == x8
    ensures Reached(k + 8, x8)
  {
    hide Reached, Next;
    assert forall x :: x in [x1, x2, x3, x4, x5, x6, x7, x8] ==> x != 1;
    OneStep(k, x0);
    OneStep(k + 1, x1);
    OneStep(k + 2, x2);
    OneStep(k + 3, x3);
    OneStep(k + 4, x4);
    OneStep(k + 5, x5);
    OneStep(k + 6, x6);
    OneStep(k + 7, x7);
  }

  lemma PowersFirst()
    requires Reached(0, 1)
    ensures Reached(64, 214)
  {
    hide Reached;
    Walk(0, 1, 2, 4, 8, 16, 32, 64, 128, 135);
    Walk(8, 135, 137, 149, 173, 221, 61, 122, 244, 111);
    Walk(16, 111, 222, 59, 118, 236, 95, 190, 251, 113);
    Walk(24, 113, 226, 67, 134, 139, 145, 165, 205, 29);
    Walk(32, 29, 58, 116, 232, 87, 174, 219, 49, 98);
    Walk(40, 98, 196, 15, 30, 60, 120, 240, 103, 206);
    Walk(48, 206, 27, 54, 108, 216, 55, 110, 220, 63);
    Walk(56, 63, 126, 252, 127, 254, 123, 246, 107, 214);
  }

  lemma PowersSecond()
    requires Reached(64, 214)
    ensures Reached(128, 52)
  {
    hide Reached;
    Walk(64, 214, 43, 86, 172, 223, 57, 114, 228, 79);
    Walk(72, 79, 158, 187, 241, 101, 202, 19, 38, 76);
    Walk(80, 76, 152, 183, 233, 85, 170, 211, 33, 66);
    Walk(88, 66, 132, 143, 153, 181, 237, 93, 186, 243);
    Walk(96, 243, 97, 194, 3, 6, 12, 24, 48, 96);
    Walk(104, 96, 192, 7, 14, 28, 56, 112, 224, 71);
    Walk(112, 71, 142, 155, 177, 229, 77, 154, 179, 225);
    Walk(120, 225, 69, 138, 147, 161, 197, 13, 26, 52);
  }

  lemma PowersThird()
    requires Reached(128, 52)
    ensures Reached(192, 176)
  {
    hide Reached;
    Walk(128, 52, 104, 208, 39, 78, 156, 191, 249, 117);
    Walk(136, 117, 234, 83, 166, 203, 17, 34, 68, 136);
    Walk(144, 136, 151, 169, 213, 45, 90, 180, 239, 89);
    Walk(152, 89, 178, 227, 65, 130, 131, 129, 133, 141);
    Walk(160, 141, 157, 189, 253, 125, 250, 115, 230, 75);
    Walk(168, 75, 150, 171, 209, 37, 74, 148, 175, 217);
    Walk(176, 217, 53, 106, 212, 47, 94, 188, 255, 121);
    Walk(184, 121, 242, 99, 198, 11, 22, 44, 88, 176);
  }

  lemma PowersFourth()
    requires Reached(192, 176)
    ensures Reached(248, 238)
  {
    hide Reached;
    Walk(192, 176, 231, 73, 146, 163, 193, 5, 10, 20);
    Walk(200, 20, 40, 80, 160, 199, 9, 18, 36, 72);
    Walk(208, 72, 144, 167, 201, 21, 42, 84, 168, 215);
    Walk(216, 215, 41, 82, 164, 207, 25, 50, 100, 200);
    Walk(224, 200, 23, 46, 92, 184, 247, 105, 210, 35);
    Walk(232, 35, 70, 140, 159, 185, 245, 109, 218, 51);
    Walk(240, 51, 102, 204, 31, 62, 124, 248, 119, 238);
  }

  lemma PowersLast()
    requires Reached(248, 238)
    ensures Reached(254, 195) && Exp(UatGf(), 255) == 1
  {
    hide Reached, Exp;
    OneStep(248, 238);
    OneStep(249, 91);
    OneStep(250, 182);
    OneStep(251, 235);
    OneStep(252, 81);
    OneStep(253, 162);
    OneStep(254, 195);
  }

  // The register runs through all 255 nonzero symbols before it repeats.
  lemma UatPrimitive()
    ensures Primitive(UatGf())
  {
    hide Reached, Exp;
    Start();
    PowersFirst();
    PowersSecond();
    PowersThird();
    PowersFourth();
    PowersLast();
    Finish();
  }

  lemma Start()
    ensures Reached(0, 1)
  {
  }

  lemma Finish()
    requires Reached(254, 195) && Exp(UatGf(), 255) == 1
    ensures Primitive(UatGf())
  {
    assert Pow2(8) == 256;
  }

  // ----- The table builder's own test is weaker -----

  // gfpoly x^4 + x^3 + x^2 + x + 1 brings the register back to 1 after the 15
  // steps of the table loop, but also after 5.
  lemma ImprimitiveAccepted()
    ensures var g := Gf(4, 0x1F);
      Exp(g, Size(g) - 1) == 1 && Exp(g, 5) == 1 && !Primitive(g)
  {
    var g := Gf(4, 0x1F);
    hide Times2, Iter;
    assert Size(g) == 16;
    FifthPower();
    IterAdd(g, 5, 5, 1);
    IterAdd(g, 5, 10, 1);
    assert Returns(g, 5);
  }

  lemma FifthPower()
    ensures Exp(Gf(4, 0x1F), 5) == 1
  {
    hide Xor, Low;
    var g := Gf(4, 0x1F);
    assert Size(g) == 16;
    LowId(2, 4);
    LowId(4, 4);
    LowId(8, 4);
    LowId(15, 4);
    LowId(1, 4);
    XorTo31(16, 15);
    XorTo31(30, 1);
    assert Times2(g, 1) == 2 && Times2(g, 2) == 4 && Times2(g, 4) == 8;
    assert Times2(g, 8) == 15 && Times2(g, 15) == 1;
    assert Iter(g, 2, 1) == 4;
    assert Iter(g, 4, 1) == 15;
  }

  lemma XorTo31(a: nat, b: nat)
    requires (a == 16 && b == 15) || (a == 30 && b == 1)
    ensures Xor(a, 0x1F) == b
  {
    hide Xor;
    XorStep(a, 31);
    XorStep(a / 2, 15);
    XorStep(a / 4, 7);
    XorStep(a / 8, 3);
    XorStep(a / 16, 1);
    XorZero(0);
  }
}
