/** Checksums as remainders of polynomial division over GF(2), and the two
    table-driven computations of them: that of GDL90 in main/gen_gdl90.go and that
    of Mode S in dump978/uat2esnt.c. Bytes are naturals below 256; a polynomial is the
    natural number whose bits are its coefficients. */
module Crc {
  import opened Bits
  import opened Collections
  import opened Galois
  import opened Division

  // ----- Bytes -----

  // A message as one polynomial, first bit highest.
  ghost function BigEndian(data: seq<nat>): nat {
    if data == [] then 0 else 256 * BigEndian(data[..|data| - 1]) + data[|data| - 1]
  }

  lemma Pow2Values()
    ensures Pow2(8) == 256 && Pow2(16) == 65536 && Pow2(24) == 16777216
  {
    Pow2Add(8, 8);
    Pow2Add(8, 16);
  }

  // While nothing is shifted out, the register doubles.
  lemma {:induction false} IterSmall(g: Gf, x: nat, k: nat)
    requires x * Pow2(k) < Size(g)
    ensures Iter(g, k, x) == x * Pow2(k)
  {
    hide Times2;
    if k > 0 {
      MulTwice(x, Pow2(k - 1));
      IterSmall(g, x, k - 1);
      TimesSmall(g, x * Pow2(k - 1));
    }
  }

  // ----- GDL90 -----

  function GdlGf(): Gf {
    Gf(16, 0x1021)
  }

  // The table: every first byte taken through eight shifts.
  ghost predicate GdlTable(table: seq<nat>) {
    |table| == 256 && forall i :: 0 <= i < 256 ==> table[i] == Iter(GdlGf(), 8, 256 * i)
  }

  // crc << 1 in 16 bits, and 0x1021 added when a bit falls out.
  lemma GdlShift(crc: nat)
    requires crc < 65536
    ensures Xor(Low(2 * crc, 16), if crc >= 0x8000 then 0x1021 else 0) == Times2(GdlGf(), crc)
    ensures Times2(GdlGf(), crc) < 65536
  {
    hide Xor, Low;
    Pow2Values();
    Times2In(GdlGf(), crc);
    XorZero(Low(2 * crc, 16));
    XorLowHigh(2 * crc, 0x1021, 16);
    LowId(0x1021, 16);
  }

  method CrcInit(table: array<nat>)
    requires table.Length == 256
    modifies table
    ensures GdlTable(table[..])
  {
    hide Xor, Low, Times2;
    Pow2Values();
    for i := 0 to 256
      invariant forall k :: 0 <= k < i ==> table[k] == Iter(GdlGf(), 8, 256 * k)
    {
      var crc := 256 * i;
      for bitctr := 0 to 8
        invariant crc == Iter(GdlGf(), bitctr, 256 * i) && crc < 65536
        invariant forall k :: 0 <= k < i ==> table[k] == Iter(GdlGf(), 8, 256 * k)
      {
        var z := 0;
        if crc >= 0x8000 {
          z := 0x1021;
        }
        GdlShift(crc);
        crc := Xor(Low(2 * crc, 16), z);
      }
      table[i] := crc;
    }
  }

  // The checksum as a function: eight shifts and a byte at a time.
  ghost function GdlCrc(data: seq<nat>): nat {
    if data == [] then 0
    else Xor(Iter(GdlGf(), 8, GdlCrc(data[..|data| - 1])), data[|data| - 1])
  }

  lemma {:induction false} GdlCrcIn(data: seq<nat>)
    requires AllBytes(data)
    ensures GdlCrc(data) < 65536
  {
    hide Xor, Iter;
    Pow2Values();
    if data != [] {
      var r := GdlCrc(data[..|data| - 1]);
      GdlCrcIn(data[..|data| - 1]);
      IterIn(GdlGf(), 8, r);
      XorBound(Iter(GdlGf(), 8, r), data[|data| - 1], 16);
    }
  }

  lemma ShiftedByte(ret: nat)
    requires ret < 65536
    ensures (ret * 256) % 65536 == (ret % 256) * 256
    ensures 256 * (ret / 256) + ret % 256 == ret && ret / 256 < 256
  {
    DivModUnique(ret * 256, 65536, ret / 256, (ret % 256) * 256);
  }

  // Taking a register through shifts piece by piece.
  lemma IterSplit(g: Gf, hi: nat, lo: nat, n: nat)
    requires lo < Pow2(n) && In(g, hi * Pow2(n)) && In(g, lo)
    requires g.mm >= 1
    ensures Iter(g, 8, hi * Pow2(n) + lo) == Xor(Iter(g, 8, hi * Pow2(n)), Iter(g, 8, lo))
  {
    hide Xor, Iter;
    XorDisjoint(hi, lo, n);
    IterLinear(g, 8, hi * Pow2(n), lo);
  }

  // One round of the table-driven loop.
  lemma GdlRound(ret: nat)
    requires ret < 65536
    ensures Xor(Iter(GdlGf(), 8, 256 * (ret / 256)), (ret * 256) % 65536) == Iter(GdlGf(), 8, ret)
  {
    hide Xor, Iter;
    Pow2Values();
    ShiftedByte(ret);
    var hi, lo := ret / 256, ret % 256;
    IterSplit(GdlGf(), hi, lo, 8);
    IterSmall(GdlGf(), lo, 8);
  }

  method CrcCompute(table: array<nat>, data: seq<nat>) returns (ret: nat)
    requires GdlTable(table[..]) && AllBytes(data)
    ensures ret == GdlCrc(data) && IsRemainder(GdlGf(), BigEndian(data), ret)
  {
    hide Xor, Iter, IsRemainder;
    ghost var t := table[..];
    ret := 0;
    assert data[..0] == [];
    GdlCrcIn([]);
    for i := 0 to |data|
      invariant ret == GdlCrc(data[..i]) && ret < 65536
    {
      assert data[..i + 1][..i] == data[..i];
      GdlRound(ret);
      GdlCrcIn(data[..i + 1]);
      assert table[ret / 256] == t[ret / 256];
      ret := Xor(Xor(table[ret / 256], (ret * 256) % 65536), data[i]);
    }
    assert data[..|data|] == data;
    GdlCrcDivides(data);
  }

  // The checksum is the remainder of the message itself.
  lemma {:induction false} GdlCrcDivides(data: seq<nat>)
    requires AllBytes(data)
    ensures IsRemainder(GdlGf(), BigEndian(data), GdlCrc(data))
  {
    hide Xor, Iter, IsRemainder;
    Pow2Values();
    if data == [] {
      RemainderZero(GdlGf());
    } else {
      var n := |data| - 1;
      var m, r, b := BigEndian(data[..n]), GdlCrc(data[..n]), data[n];
      GdlCrcDivides(data[..n]);
      RemainderShift(GdlGf(), m, r, 8);
      RemainderAdd(GdlGf(), m * 256, Iter(GdlGf(), 8, r), b);
      XorDisjoint(m, b, 8);
    }
  }

  // ----- Error detection -----

  lemma OddKernel(g: Gf, x: nat)
    requires g.mm >= 1 && g.poly % 2 == 1 && In(g, x) && Times2(g, x) == 0
    ensures x == 0
  {
    hide Times2;
    Times2Parity(g, x);
    if 2 * x < Size(g) {
      TimesSmall(g, x);
    }
  }

  lemma {:induction false} OddInjective(g: Gf, k: nat, x: nat)
    requires g.mm >= 1 && g.poly % 2 == 1 && In(g, x) && x != 0
    ensures Iter(g, k, x) != 0
  {
    hide Times2;
    if k > 0 {
      OddInjective(g, k - 1, x);
      IterIn(g, k - 1, x);
      if Iter(g, k, x) == 0 {
        OddKernel(g, Iter(g, k - 1, x));
      }
    }
  }

  // How the difference of two checksums evolves with one more byte.
  lemma CrcDifference(a: seq<nat>, b: seq<nat>, n: nat)
    requires AllBytes(a) && AllBytes(b) && |a| == |b| == n + 1
    ensures Xor(GdlCrc(a), GdlCrc(b))
         == Xor(Iter(GdlGf(), 8, Xor(GdlCrc(a[..n]), GdlCrc(b[..n]))), Xor(a[n], b[n]))
  {
    hide Xor, Iter;
    Pow2Values();
    var ra, rb := GdlCrc(a[..n]), GdlCrc(b[..n]);
    GdlCrcIn(a[..n]);
    GdlCrcIn(b[..n]);
    IterLinear(GdlGf(), 8, ra, rb);
    XorSwap(Iter(GdlGf(), 8, ra), a[n], Iter(GdlGf(), 8, rb), b[n]);
  }

  lemma {:induction false} SamePrefixSameCrc(a: seq<nat>, b: seq<nat>)
    requires a == b
    ensures Xor(GdlCrc(a), GdlCrc(b)) == 0
  {
    XorSelf(GdlCrc(a));
  }

  // After the two bytes in which the messages may differ, the difference of the
  // checksums is the difference of the bytes.
  lemma BurstDifference(a: seq<nat>, b: seq<nat>, k: nat)
    requires AllBytes(a) && AllBytes(b) && |a| == |b| == k + 2 && a[..k] == b[..k]
    ensures Xor(GdlCrc(a), GdlCrc(b)) == Xor(a[k], b[k]) * 256 + Xor(a[k + 1], b[k + 1])
  {
    hide Xor, Iter, GdlCrc;
    Pow2Values();
    var a1, b1 := a[..k + 1], b[..k + 1];
    assert a1[..k] == a[..k] && b1[..k] == b[..k];
    var d, e := Xor(a[k], b[k]), Xor(a[k + 1], b[k + 1]);
    SamePrefixSameCrc(a[..k], b[..k]);
    CrcDifference(a1, b1, k);
    CrcDifference(a, b, k + 1);
    IterZero(GdlGf(), 8);
    XorZero(d);
    XorBound(a[k], b[k], 8);
    XorBound(a[k + 1], b[k + 1], 8);
    IterSmall(GdlGf(), d, 8);
    XorDisjoint(d, e, 8);
  }

  lemma DifferenceAfterBurst(a: seq<nat>, b: seq<nat>, k: nat)
    requires AllBytes(a) && AllBytes(b) && |a| == |b| == k + 2 && a[..k] == b[..k] && a != b
    ensures Xor(GdlCrc(a), GdlCrc(b)) != 0
  {
    hide Xor, GdlCrc;
    BurstDifference(a, b, k);
    XorCancel(a[k], b[k]);
    XorCancel(a[k + 1], b[k + 1]);
    assert a == a[..k] + [a[k], a[k + 1]] && b == b[..k] + [b[k], b[k + 1]];
  }

  lemma {:induction false} DifferenceStays(a: seq<nat>, b: seq<nat>, k: nat)
    requires AllBytes(a) && AllBytes(b) && k <= |a| == |b| && a[k..] == b[k..]
    requires Xor(GdlCrc(a[..k]), GdlCrc(b[..k])) != 0
    ensures Xor(GdlCrc(a), GdlCrc(b)) != 0
    decreases |a|
  {
    hide Xor, Iter;
    if k == |a| {
      assert a[..k] == a && b[..k] == b;
    } else {
      var n := |a| - 1;
      assert a[n] == a[k..][n - k] && b[n] == b[k..][n - k];
      assert a[..n][k..] == a[k..][..n - k] && b[..n][k..] == b[k..][..n - k];
      assert a[..n][..k] == a[..k] && b[..n][..k] == b[..k];
      DifferenceStays(a[..n], b[..n], k);
      CrcDifference(a, b, n);
      XorSelf(a[n]);
      GdlCrcIn(a[..n]);
      GdlCrcIn(b[..n]);
      Pow2Values();
      var x := Xor(GdlCrc(a[..n]), GdlCrc(b[..n]));
      XorBound(GdlCrc(a[..n]), GdlCrc(b[..n]), 16);
      OddInjective(GdlGf(), 8, x);
      XorZero(Iter(GdlGf(), 8, x));
    }
  }

  // Messages of equal length that differ only within two adjacent bytes have
  // different checksums.
  lemma AdjacentErrorsDetected(a: seq<nat>, b: seq<nat>, k: nat)
    requires AllBytes(a) && AllBytes(b) && |a| == |b| && k + 2 <= |a| && a != b
    requires a[..k] == b[..k] && a[k + 2..] == b[k + 2..]
    ensures GdlCrc(a) != GdlCrc(b)
  {
    hide GdlCrc, Xor;
    var a2, b2 := a[..k + 2], b[..k + 2];
    assert a2[..k] == a[..k] && b2[..k] == b[..k];
    assert a == a2 + a[k + 2..] && b == b2 + b[k + 2..];
    DifferenceAfterBurst(a2, b2, k);
    DifferenceStays(a, b, k + 2);
    XorSelf(GdlCrc(a));
  }

  // x^16 + x^12 + x^5 + 1.
  lemma GdlDivisor()
    ensures Divisor(GdlGf()) == 0x11021
  {
    Pow2Values();
    LowId(0x1021, 16);
  }

  // ----- Mode S -----

  function ModeSGf(): Gf {
    Gf(24, 0xfff409)
  }

  // The generator polynomial of the Mode S parity field.
  lemma ModeSDivisor()
    ensures Divisor(ModeSGf()) == 0x1fff409
  {
    Pow2Values();
    LowId(0xfff409, 24);
  }

  // The table: every first byte taken through eight shifts.
  ghost predicate ModeSTable(table: seq<nat>) {
    |table| == 256 && forall i :: 0 <= i < 256 ==> table[i] == Iter(ModeSGf(), 8, 65536 * i)
  }

  lemma {:induction false} LowLow(c: nat, m: nat)
    ensures Low(Low(c, m + 1), m) == Low(c, m)
  {
    if m > 0 {
      LowLow(c / 2, m - 1);
    }
  }

  // Bit 23 of the unmasked word decides, and the bits above 23 never matter.
  lemma ModeSShift(c: nat)
    ensures Low(Xor(2 * c, if (c / 0x800000) % 2 == 1 then 0xfff409 else 0), 24) == Times2(ModeSGf(), Low(c, 24))
  {
    hide Xor, Low;
    Pow2Values();
    var r := Low(c, 24);
    LowHigh(c, 24);
    LowTwice(c, 23);
    LowTwice(r, 23);
    LowLow(c, 23);
    LowId(0xfff409, 24);
    LowId(0, 24);
    XorLowHigh(2 * c, 0xfff409, 24);
    XorLowHigh(2 * r, 0xfff409, 24);
    XorZero(2 * c);
    assert c / 0x800000 == 2 * High(c, 24) + r / 0x800000;
  }

  lemma LowTwice(c: nat, m: nat)
    ensures Low(2 * c, m + 1) == 2 * Low(c, m)
  {
  }

  // The shifted word still fits the 32 bits it is kept in.
  lemma ModeSWidth(c: nat, j: nat)
    requires c < Pow2(24 + j)
    ensures Xor(2 * c, 0xfff409) < Pow2(25 + j) && 2 * c < Pow2(25 + j)
  {
    Pow2Values();
    assert Pow2(25 + j) == 2 * Pow2(24 + j);
    Pow2Mono(24, 25 + j);
    XorBound(2 * c, 0xfff409, 25 + j);
  }

  method InitCrcTables(table: array<nat>)
    requires table.Length == 256
    modifies table
    ensures ModeSTable(table[..])
  {
    hide Xor, Low, Times2, Pow2;
    Pow2Values();
    for i := 0 to 256
      invariant forall k :: 0 <= k < i ==> table[k] == Iter(ModeSGf(), 8, 65536 * k)
    {
      var c: nat := 65536 * i;
      LowId(c, 24);
      for j := 0 to 8
        invariant Low(c, 24) == Iter(ModeSGf(), j, 65536 * i) && c < Pow2(24 + j)
        invariant forall k :: 0 <= k < i ==> table[k] == Iter(ModeSGf(), 8, 65536 * k)
      {
        ModeSShift(c);
        ModeSWidth(c, j);
        XorZero(2 * c);
        if (c / 0x800000) % 2 == 1 {
          c := Xor(2 * c, 0xfff409);
        } else {
          c := 2 * c;
        }
      }
      table[i] := Low(c, 24);
    }
  }

  // The checksum as a function: each byte enters at the top of the register.
  ghost function ModeSCrc(message: seq<nat>): nat {
    if message == [] then 0
    else Iter(ModeSGf(), 8, Xor(ModeSCrc(message[..|message| - 1]), message[|message| - 1] * 65536))
  }

  lemma {:induction false} ModeSCrcIn(message: seq<nat>)
    requires AllBytes(message)
    ensures ModeSCrc(message) < 16777216
  {
    hide Xor, Iter;
    Pow2Values();
    if message != [] {
      var r, b := ModeSCrc(message[..|message| - 1]), message[|message| - 1];
      ModeSCrcIn(message[..|message| - 1]);
      XorBound(r, b * 65536, 24);
      IterIn(ModeSGf(), 8, Xor(r, b * 65536));
    }
  }

  // One round of the table-driven loop: the shifted register and the table entry.
  lemma ModeSRound(rem: nat, b: nat)
    requires rem < 16777216 && b < 256
    ensures Xor(b, rem / 65536) < 256
    ensures Low(Xor(rem * 256, Iter(ModeSGf(), 8, 65536 * Xor(b, rem / 65536))), 24)
         == Iter(ModeSGf(), 8, Xor(rem, b * 65536))
  {
    hide Xor, Iter, Low;
    Pow2Values();
    var g, hi, lo := ModeSGf(), rem / 65536, rem % 65536;
    XorBound(b, hi, 8);
    ModeSEntering(rem, b);
    var top := Xor(b, hi);
    IterSplit(g, top, lo, 16);
    IterSmall(g, lo, 8);
    var t := Iter(g, 8, top * 65536);
    IterIn(g, 8, top * 65536);
    XorLowHigh(rem * 256, t, 24);
    LowId(t, 24);
    ModeSLowShift(rem);
    XorComm(t, lo * 256);
  }

  lemma ModeSEntering(rem: nat, b: nat)
    requires rem < 16777216 && b < 256
    ensures Xor(rem, b * 65536) == Xor(b, rem / 65536) * 65536 + rem % 65536
  {
    hide Xor, Low;
    Pow2Values();
    var hi, lo := rem / 65536, rem % 65536;
    XorScale(hi, b, 16);
    XorDisjoint(hi, lo, 16);
    XorZero(lo);
    XorDisjoint(b, 0, 16);
    XorSwap(hi * 65536, lo, b * 65536, 0);
    XorDisjoint(Xor(hi, b), lo, 16);
    XorComm(hi, b);
    XorZero(b * 65536);
  }

  lemma {:induction false} XorScale(a: nat, b: nat, m: nat)
    ensures Xor(a * Pow2(m), b * Pow2(m)) == Xor(a, b) * Pow2(m)
  {
    hide Xor;
    if m > 0 {
      XorScale(a, b, m - 1);
      XorDouble(a * Pow2(m - 1), b * Pow2(m - 1));
      MulTwice(a, Pow2(m - 1));
      MulTwice(b, Pow2(m - 1));
      MulTwice(Xor(a, b), Pow2(m - 1));
    }
  }

  lemma ModeSLowShift(rem: nat)
    requires rem < 16777216
    ensures Low(rem * 256, 24) == (rem % 65536) * 256
  {
    hide Low;
    Pow2Values();
    LowHigh(rem * 256, 24);
    DivModUnique(rem * 256, 16777216, rem / 65536, (rem % 65536) * 256);
    DivModUnique(rem * 256, 16777216, High(rem * 256, 24), Low(rem * 256, 24));
  }

  method Checksum(table: array<nat>, message: array<nat>, n: nat) returns (rem: nat)
    requires ModeSTable(table[..]) && n <= message.Length && AllBytes(message[..])
    ensures rem == ModeSCrc(message[..n]) && rem < 16777216
    ensures IsRemainder(ModeSGf(), BigEndian(message[..n]) * 16777216, rem)
  {
    hide Xor, Iter, IsRemainder, Low;
    ghost var t, m := table[..], message[..];
    rem := 0;
    ModeSCrcIn([]);
    assert m[..0] == [];
    for i := 0 to n
      invariant rem == ModeSCrc(m[..i]) && rem < 16777216
    {
      assert m[..i + 1][..i] == m[..i];
      assert message[i] == m[i];
      ModeSRound(rem, m[i]);
      ModeSCrcIn(m[..i + 1]);
      var at := Xor(message[i], rem / 65536);
      assert table[at] == t[at];
      rem := Low(Xor(rem * 256, table[at]), 24);
    }
    assert message[..n] == m[..n];
    ModeSCrcDivides(m[..n]);
  }

  // The checksum is the remainder of the message followed by 24 zero bits.
  lemma {:induction false} ModeSCrcDivides(message: seq<nat>)
    requires AllBytes(message)
    ensures IsRemainder(ModeSGf(), BigEndian(message) * 16777216, ModeSCrc(message))
  {
    hide Xor, Iter, IsRemainder;
    Pow2Values();
    if message == [] {
      RemainderZero(ModeSGf());
    } else {
      var n := |message| - 1;
      var m, r, b := BigEndian(message[..n]), ModeSCrc(message[..n]), message[n];
      ModeSCrcDivides(message[..n]);
      RemainderAdd(ModeSGf(), m * 16777216, r, b * 65536);
      XorDisjoint(m, b * 65536, 24);
      RemainderShift(ModeSGf(), m * 16777216 + b * 65536, Xor(r, b * 65536), 8);
      assert (m * 16777216 + b * 65536) * 256 == (256 * m + b) * 16777216;
    }
  }

  // The parity field: 24 bits, high byte first.
  function ParityBytes(p: nat): seq<nat> {
    [(p / 65536) % 256, (p / 256) % 256, p % 256]
  }

  lemma ParityBytesValue(data: seq<nat>, p: nat)
    ensures BigEndian(data + ParityBytes(p)) == BigEndian(data) * 16777216 + Low(p, 24)
  {
    hide Low;
    Pow2Values();
    LowHigh(p, 24);
    ThreeBytes(High(p, 24), Low(p, 24), p);
    var s := data + ParityBytes(p);
    var n := |data|;
    assert s[..n + 2] == data + [(p / 65536) % 256, (p / 256) % 256];
    assert s[..n + 2][..n + 1] == data + [(p / 65536) % 256];
    assert s[..n + 2][..n + 1][..n] == data;
    assert BigEndian(s) == 256 * BigEndian(s[..n + 2]) + p % 256;
    assert BigEndian(s[..n + 2]) == 256 * BigEndian(s[..n + 2][..n + 1]) + (p / 256) % 256;
    assert BigEndian(s[..n + 2][..n + 1]) == 256 * BigEndian(data) + (p / 65536) % 256;
  }

  lemma ThreeBytes(h: nat, l: nat, p: nat)
    requires p == h * 16777216 + l && l < 16777216
    ensures ((p / 65536) % 256) * 65536 + ((p / 256) % 256) * 256 + p % 256 == l
  {
    var a, b, c := l / 65536, (l / 256) % 256, l % 256;
    assert l == 65536 * a + 256 * b + c;
    DivModUnique(p, 65536, 256 * h + a, 256 * b + c);
    DivModUnique(256 * h + a, 256, h, a);
    DivModUnique(p, 256, 65536 * h + 256 * a + b, c);
    DivModUnique(65536 * h + 256 * a + b, 256, 256 * h + a, b);
  }

  // A frame closed with its checksum leaves just the address overlaid on it.
  lemma ClosedFrame(data: seq<nat>, rem: nat, parity: nat)
    requires rem < 16777216
    requires IsRemainder(ModeSGf(), BigEndian(data) * 16777216, rem)
    ensures IsRemainder(ModeSGf(), BigEndian(data + ParityBytes(Xor(rem, parity))), Low(parity, 24))
  {
    hide Xor, BigEndian, IsRemainder, Low;
    Pow2Values();
    var p := Xor(rem, Low(parity, 24));
    XorLowHigh(rem, parity, 24);
    LowId(rem, 24);
    LowHigh(parity, 24);
    XorBound(rem, Low(parity, 24), 24);
    ParityBytesValue(data, Xor(rem, parity));
    XorDisjoint(BigEndian(data), p, 24);
    RemainderAdd(ModeSGf(), BigEndian(data) * 16777216, rem, p);
    XorAssoc(rem, rem, Low(parity, 24));
    XorSelf(rem);
    XorZero(Low(parity, 24));
  }

  method ChecksumAndSend(table: array<nat>, frame: array<nat>, len: nat, parity: nat)
    requires ModeSTable(table[..]) && AllBytes(frame[..]) && table != frame
    requires 3 <= len <= frame.Length
    modifies frame
    ensures AllBytes(frame[..]) && frame[..len - 3] == old(frame[..len - 3]) && frame[len..] == old(frame[len..])
    ensures IsRemainder(ModeSGf(), BigEndian(frame[..len]), Low(parity, 24))
  {
    hide Xor, BigEndian, IsRemainder, ModeSCrc, Low;
    ghost var data := frame[..len - 3];
    var crc := Checksum(table, frame, len - 3);
    ClosedFrame(data, crc, parity);
    var rem := Xor(crc, parity);
    frame[len - 3] := (rem / 65536) % 256;
    frame[len - 2] := (rem / 256) % 256;
    frame[len - 1] := rem % 256;
    assert frame[..len] == data + ParityBytes(rem);
  }
}
