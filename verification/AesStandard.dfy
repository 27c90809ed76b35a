/** The substitution box of section 5.1.1 of FIPS 197: the inverse in GF(2^8), then an affine
    map on its bits. */
module AesStandard {
  import opened Bytes
  import opened ByteBits
  import opened Aes256

  // ----- products by machine arithmetic -----

  function Twice(a: bv8): bv8 { (a << 1) ^ (if a >= 0x80 then 0x1b else 0) }

  function Masked(a: bv8, m: bv8): bv8 { if m & 1 == 1 then a else 0 }

  function Product(a: bv8, m: bv8): bv8 {
    var b := Twice(a);
    var c := Twice(b);
    var d := Twice(c);
    var e := Twice(d);
    var f := Twice(e);
    var g := Twice(f);
    var h := Twice(g);
    Masked(a, m) ^ Masked(b, m >> 1) ^ Masked(c, m >> 2) ^ Masked(d, m >> 3)
    ^ Masked(e, m >> 4) ^ Masked(f, m >> 5) ^ Masked(g, m >> 6) ^ Masked(h, m >> 7)
  }

  lemma ProductUnfolds(a: bv8, m: bv8)
    ensures Product(a, m) == Masked(a, m) ^ Product(Twice(a), m >> 1)
  {
    hide Twice;
    assert m >> 1 >> 1 == m >> 2 && m >> 1 >> 2 == m >> 3 && m >> 1 >> 3 == m >> 4 && m >> 1 >> 4 == m >> 5;
    assert m >> 1 >> 5 == m >> 6 && m >> 1 >> 6 == m >> 7 && (m >> 1 >> 7) & 1 == 0;
  }

  lemma TwiceIsXTime(a: bv8)
    ensures XTime(a as int) == Twice(a) as int
  {
    DoubleOf(a);
    TopOf(a);
    XorIsXor(a << 1, 0x1b);
    assert (a << 1) ^ 0 == a << 1;
  }

  lemma DoubleOf(a: bv8)
    ensures (a << 1) as int == ShiftLeft(a as int)
  {
  }

  lemma TopOf(a: bv8)
    ensures a as int >= 0x80 <==> a >= 0x80
  {
  }

  predicate ProductAgrees(a: bv8, m: bv8) { Times(a as int, m as int) == Product(a, m) as int }

  lemma {:induction false} ProductIsTimes(a: bv8, m: bv8)
    ensures ProductAgrees(a, m)
    decreases m as int
  {
    hide ProductAgrees;
    if m == 0 {
      NoProduct(a);
    } else {
      HalvesSmaller(m, 0);
      ProductIsTimes(Twice(a), m >> 1);
      ProductStep(a, m);
    }
  }

  lemma NoProduct(a: bv8)
    ensures ProductAgrees(a, 0)
  {
  }

  lemma ProductStep(a: bv8, m: bv8)
    requires ProductAgrees(Twice(a), m >> 1)
    ensures ProductAgrees(a, m)
  {
    hide Product, Twice, XTime, Xor, Times;
    TimesUnfolds(a as int, m as int);
    HalfOf(m);
    ParityOf(m);
    TwiceIsXTime(a);
    ProductUnfolds(a, m);
    XorIsXor(Masked(a, m), Product(Twice(a), m >> 1));
  }

  // ----- the table, a row at a time -----

  function Affine(i: bv8): bv8 {
    i ^ ((i << 1) | (i >> 7)) ^ ((i << 2) | (i >> 6)) ^ ((i << 3) | (i >> 5)) ^ ((i << 4) | (i >> 4)) ^ 0x63
  }

  /** i is the inverse of b, and the table has its affine image. */
  predicate Entry(b: byte, i: byte) {
    && Product(b as bv8, i as bv8) == (if b == 0 then 0 else 1) && (b == 0 ==> i == 0)
    && SBox(b) == Affine(i as bv8) as int
  }

  lemma Entries0()
    ensures Entry(0x00, 0x00) && Entry(0x01, 0x01) && Entry(0x02, 0x8d) && Entry(0x03, 0xf6)
    ensures Entry(0x04, 0xcb) && Entry(0x05, 0x52) && Entry(0x06, 0x7b) && Entry(0x07, 0xd1)
    ensures Entry(0x08, 0xe8) && Entry(0x09, 0x4f) && Entry(0x0a, 0x29) && Entry(0x0b, 0xc0)
    ensures Entry(0x0c, 0xb0) && Entry(0x0d, 0xe1) && Entry(0x0e, 0xe5) && Entry(0x0f, 0xc7)
  {
  }

  lemma Entries1()
    ensures Entry(0x10, 0x74) && Entry(0x11, 0xb4) && Entry(0x12, 0xaa) && Entry(0x13, 0x4b)
    ensures Entry(0x14, 0x99) && Entry(0x15, 0x2b) && Entry(0x16, 0x60) && Entry(0x17, 0x5f)
    ensures Entry(0x18, 0x58) && Entry(0x19, 0x3f) && Entry(0x1a, 0xfd) && Entry(0x1b, 0xcc)
    ensures Entry(0x1c, 0xff) && Entry(0x1d, 0x40) && Entry(0x1e, 0xee) && Entry(0x1f, 0xb2)
  {
  }

  lemma Entries2()
    ensures Entry(0x20, 0x3a) && Entry(0x21, 0x6e) && Entry(0x22, 0x5a) && Entry(0x23, 0xf1)
    ensures Entry(0x24, 0x55) && Entry(0x25, 0x4d) && Entry(0x26, 0xa8) && Entry(0x27, 0xc9)
    ensures Entry(0x28, 0xc1) && Entry(0x29, 0x0a) && Entry(0x2a, 0x98) && Entry(0x2b, 0x15)
    ensures Entry(0x2c, 0x30) && Entry(0x2d, 0x44) && Entry(0x2e, 0xa2) && Entry(0x2f, 0xc2)
  {
  }

  lemma Entries3()
    ensures Entry(0x30, 0x2c) && Entry(0x31, 0x45) && Entry(0x32, 0x92) && Entry(0x33, 0x6c)
    ensures Entry(0x34, 0xf3) && Entry(0x35, 0x39) && Entry(0x36, 0x66) && Entry(0x37, 0x42)
    ensures Entry(0x38, 0xf2) && Entry(0x39, 0x35) && Entry(0x3a, 0x20) && Entry(0x3b, 0x6f)
    ensures Entry(0x3c, 0x77) && Entry(0x3d, 0xbb) && Entry(0x3e, 0x59) && Entry(0x3f, 0x19)
  {
  }

  lemma Entries4()
    ensures Entry(0x40, 0x1d) && Entry(0x41, 0xfe) && Entry(0x42, 0x37) && Entry(0x43, 0x67)
    ensures Entry(0x44, 0x2d) && Entry(0x45, 0x31) && Entry(0x46, 0xf5) && Entry(0x47, 0x69)
    ensures Entry(0x48, 0xa7) && Entry(0x49, 0x64) && Entry(0x4a, 0xab) && Entry(0x4b, 0x13)
    ensures Entry(0x4c, 0x54) && Entry(0x4d, 0x25) && Entry(0x4e, 0xe9) && Entry(0x4f, 0x09)
  {
  }

  lemma Entries5()
    ensures Entry(0x50, 0xed) && Entry(0x51, 0x5c) && Entry(0x52, 0x05) && Entry(0x53, 0xca)
    ensures Entry(0x54, 0x4c) && Entry(0x55, 0x24) && Entry(0x56, 0x87) && Entry(0x57, 0xbf)
    ensures Entry(0x58, 0x18) && Entry(0x59, 0x3e) && Entry(0x5a, 0x22) && Entry(0x5b, 0xf0)
    ensures Entry(0x5c, 0x51) && Entry(0x5d, 0xec) && Entry(0x5e, 0x61) && Entry(0x5f, 0x17)
  {
  }

  lemma Entries6()
    ensures Entry(0x60, 0x16) && Entry(0x61, 0x5e) && Entry(0x62, 0xaf) && Entry(0x63, 0xd3)
    ensures Entry(0x64, 0x49) && Entry(0x65, 0xa6) && Entry(0x66, 0x36) && Entry(0x67, 0x43)
    ensures Entry(0x68, 0xf4) && Entry(0x69, 0x47) && Entry(0x6a, 0x91) && Entry(0x6b, 0xdf)
    ensures Entry(0x6c, 0x33) && Entry(0x6d, 0x93) && Entry(0x6e, 0x21) && Entry(0x6f, 0x3b)
  {
  }

  lemma Entries7()
    ensures Entry(0x70, 0x79) && Entry(0x71, 0xb7) && Entry(0x72, 0x97) && Entry(0x73, 0x85)
    ensures Entry(0x74, 0x10) && Entry(0x75, 0xb5) && Entry(0x76, 0xba) && Entry(0x77, 0x3c)
    ensures Entry(0x78, 0xb6) && Entry(0x79, 0x70) && Entry(0x7a, 0xd0) && Entry(0x7b, 0x06)
    ensures Entry(0x7c, 0xa1) && Entry(0x7d, 0xfa) && Entry(0x7e, 0x81) && Entry(0x7f, 0x82)
  {
  }

  lemma Entries8()
    ensures Entry(0x80, 0x83) && Entry(0x81, 0x7e) && Entry(0x82, 0x7f) && Entry(0x83, 0x80)
    ensures Entry(0x84, 0x96) && Entry(0x85, 0x73) && Entry(0x86, 0xbe) && Entry(0x87, 0x56)
    ensures Entry(0x88, 0x9b) && Entry(0x89, 0x9e) && Entry(0x8a, 0x95) && Entry(0x8b, 0xd9)
    ensures Entry(0x8c, 0xf7) && Entry(0x8d, 0x02) && Entry(0x8e, 0xb9) && Entry(0x8f, 0xa4)
  {
  }

  lemma Entries9()
    ensures Entry(0x90, 0xde) && Entry(0x91, 0x6a) && Entry(0x92, 0x32) && Entry(0x93, 0x6d)
    ensures Entry(0x94, 0xd8) && Entry(0x95, 0x8a) && Entry(0x96, 0x84) && Entry(0x97, 0x72)
    ensures Entry(0x98, 0x2a) && Entry(0x99, 0x14) && Entry(0x9a, 0x9f) && Entry(0x9b, 0x88)
    ensures Entry(0x9c, 0xf9) && Entry(0x9d, 0xdc) && Entry(0x9e, 0x89) && Entry(0x9f, 0x9a)
  {
  }

  lemma EntriesA()
    ensures Entry(0xa0, 0xfb) && Entry(0xa1, 0x7c) && Entry(0xa2, 0x2e) && Entry(0xa3, 0xc3)
    ensures Entry(0xa4, 0x8f) && Entry(0xa5, 0xb8) && Entry(0xa6, 0x65) && Entry(0xa7, 0x48)
    ensures Entry(0xa8, 0x26) && Entry(0xa9, 0xc8) && Entry(0xaa, 0x12) && Entry(0xab, 0x4a)
    ensures Entry(0xac, 0xce) && Entry(0xad, 0xe7) && Entry(0xae, 0xd2) && Entry(0xaf, 0x62)
  {
  }

  lemma EntriesB()
    ensures Entry(0xb0, 0x0c) && Entry(0xb1, 0xe0) && Entry(0xb2, 0x1f) && Entry(0xb3, 0xef)
    ensures Entry(0xb4, 0x11) && Entry(0xb5, 0x75) && Entry(0xb6, 0x78) && Entry(0xb7, 0x71)
    ensures Entry(0xb8, 0xa5) && Entry(0xb9, 0x8e) && Entry(0xba, 0x76) && Entry(0xbb, 0x3d)
    ensures Entry(0xbc, 0xbd) && Entry(0xbd, 0xbc) && Entry(0xbe, 0x86) && Entry(0xbf, 0x57)
  {
  }

  lemma EntriesC()
    ensures Entry(0xc0, 0x0b) && Entry(0xc1, 0x28) && Entry(0xc2, 0x2f) && Entry(0xc3, 0xa3)
    ensures Entry(0xc4, 0xda) && Entry(0xc5, 0xd4) && Entry(0xc6, 0xe4) && Entry(0xc7, 0x0f)
    ensures Entry(0xc8, 0xa9) && Entry(0xc9, 0x27) && Entry(0xca, 0x53) && Entry(0xcb, 0x04)
    ensures Entry(0xcc, 0x1b) && Entry(0xcd, 0xfc) && Entry(0xce, 0xac) && Entry(0xcf, 0xe6)
  {
  }

  lemma EntriesD()
    ensures Entry(0xd0, 0x7a) && Entry(0xd1, 0x07) && Entry(0xd2, 0xae) && Entry(0xd3, 0x63)
    ensures Entry(0xd4, 0xc5) && Entry(0xd5, 0xdb) && Entry(0xd6, 0xe2) && Entry(0xd7, 0xea)
    ensures Entry(0xd8, 0x94) && Entry(0xd9, 0x8b) && Entry(0xda, 0xc4) && Entry(0xdb, 0xd5)
    ensures Entry(0xdc, 0x9d) && Entry(0xdd, 0xf8) && Entry(0xde, 0x90) && Entry(0xdf, 0x6b)
  {
  }

  lemma EntriesE()
    ensures Entry(0xe0, 0xb1) && Entry(0xe1, 0x0d) && Entry(0xe2, 0xd6) && Entry(0xe3, 0xeb)
    ensures Entry(0xe4, 0xc6) && Entry(0xe5, 0x0e) && Entry(0xe6, 0xcf) && Entry(0xe7, 0xad)
    ensures Entry(0xe8, 0x08) && Entry(0xe9, 0x4e) && Entry(0xea, 0xd7) && Entry(0xeb, 0xe3)
    ensures Entry(0xec, 0x5d) && Entry(0xed, 0x50) && Entry(0xee, 0x1e) && Entry(0xef, 0xb3)
  {
  }

  lemma EntriesF()
    ensures Entry(0xf0, 0x5b) && Entry(0xf1, 0x23) && Entry(0xf2, 0x38) && Entry(0xf3, 0x34)
    ensures Entry(0xf4, 0x68) && Entry(0xf5, 0x46) && Entry(0xf6, 0x03) && Entry(0xf7, 0x8c)
    ensures Entry(0xf8, 0xdd) && Entry(0xf9, 0x9c) && Entry(0xfa, 0x7d) && Entry(0xfb, 0xa0)
    ensures Entry(0xfc, 0xcd) && Entry(0xfd, 0x1a) && Entry(0xfe, 0x41) && Entry(0xff, 0x1c)
  {
  }

  lemma Inverse0(b: byte) returns (i: byte)
    requires b < 0x10
    ensures Entry(b, i)
  {
    Entries0();
    hide Entry;
    i := Row(b - 0x00, 0x00, 0x01, 0x8d, 0xf6, 0xcb, 0x52, 0x7b, 0xd1,
             0xe8, 0x4f, 0x29, 0xc0, 0xb0, 0xe1, 0xe5, 0xc7);
  }

  lemma Inverse1(b: byte) returns (i: byte)
    requires 0x10 <= b < 0x20
    ensures Entry(b, i)
  {
    Entries1();
    hide Entry;
    i := Row(b - 0x10, 0x74, 0xb4, 0xaa, 0x4b, 0x99, 0x2b, 0x60, 0x5f,
             0x58, 0x3f, 0xfd, 0xcc, 0xff, 0x40, 0xee, 0xb2);
  }

  lemma Inverse2(b: byte) returns (i: byte)
    requires 0x20 <= b < 0x30
    ensures Entry(b, i)
  {
    Entries2();
    hide Entry;
    i := Row(b - 0x20, 0x3a, 0x6e, 0x5a, 0xf1, 0x55, 0x4d, 0xa8, 0xc9,
             0xc1, 0x0a, 0x98, 0x15, 0x30, 0x44, 0xa2, 0xc2);
  }

  lemma Inverse3(b: byte) returns (i: byte)
    requires 0x30 <= b < 0x40
    ensures Entry(b, i)
  {
    Entries3();
    hide Entry;
    i := Row(b - 0x30, 0x2c, 0x45, 0x92, 0x6c, 0xf3, 0x39, 0x66, 0x42,
             0xf2, 0x35, 0x20, 0x6f, 0x77, 0xbb, 0x59, 0x19);
  }

  lemma Inverse4(b: byte) returns (i: byte)
    requires 0x40 <= b < 0x50
    ensures Entry(b, i)
  {
    Entries4();
    hide Entry;
    i := Row(b - 0x40, 0x1d, 0xfe, 0x37, 0x67, 0x2d, 0x31, 0xf5, 0x69,
             0xa7, 0x64, 0xab, 0x13, 0x54, 0x25, 0xe9, 0x09);
  }

  lemma Inverse5(b: byte) returns (i: byte)
    requires 0x50 <= b < 0x60
    ensures Entry(b, i)
  {
    Entries5();
    hide Entry;
    i := Row(b - 0x50, 0xed, 0x5c, 0x05, 0xca, 0x4c, 0x24, 0x87, 0xbf,
             0x18, 0x3e, 0x22, 0xf0, 0x51, 0xec, 0x61, 0x17);
  }

  lemma Inverse6(b: byte) returns (i: byte)
    requires 0x60 <= b < 0x70
    ensures Entry(b, i)
  {
    Entries6();
    hide Entry;
    i := Row(b - 0x60, 0x16, 0x5e, 0xaf, 0xd3, 0x49, 0xa6, 0x36, 0x43,
             0xf4, 0x47, 0x91, 0xdf, 0x33, 0x93, 0x21, 0x3b);
  }

  lemma Inverse7(b: byte) returns (i: byte)
    requires 0x70 <= b < 0x80
    ensures Entry(b, i)
  {
    Entries7();
    hide Entry;
    i := Row(b - 0x70, 0x79, 0xb7, 0x97, 0x85, 0x10, 0xb5, 0xba, 0x3c,
             0xb6, 0x70, 0xd0, 0x06, 0xa1, 0xfa, 0x81, 0x82);
  }

  lemma Inverse8(b: byte) returns (i: byte)
    requires 0x80 <= b < 0x90
    ensures Entry(b, i)
  {
    Entries8();
    hide Entry;
    i := Row(b - 0x80, 0x83, 0x7e, 0x7f, 0x80, 0x96, 0x73, 0xbe, 0x56,
             0x9b, 0x9e, 0x95, 0xd9, 0xf7, 0x02, 0xb9, 0xa4);
  }

  lemma Inverse9(b: byte) returns (i: byte)
    requires 0x90 <= b < 0xa0
    ensures Entry(b, i)
  {
    Entries9();
    hide Entry;
    i := Row(b - 0x90, 0xde, 0x6a, 0x32, 0x6d, 0xd8, 0x8a, 0x84, 0x72,
             0x2a, 0x14, 0x9f, 0x88, 0xf9, 0xdc, 0x89, 0x9a);
  }

  lemma InverseA(b: byte) returns (i: byte)
    requires 0xa0 <= b < 0xb0
    ensures Entry(b, i)
  {
    EntriesA();
    hide Entry;
    i := Row(b - 0xa0, 0xfb, 0x7c, 0x2e, 0xc3, 0x8f, 0xb8, 0x65, 0x48,
             0x26, 0xc8, 0x12, 0x4a, 0xce, 0xe7, 0xd2, 0x62);
  }

  lemma InverseB(b: byte) returns (i: byte)
    requires 0xb0 <= b < 0xc0
    ensures Entry(b, i)
  {
    EntriesB();
    hide Entry;
    i := Row(b - 0xb0, 0x0c, 0xe0, 0x1f, 0xef, 0x11, 0x75, 0x78, 0x71,
             0xa5, 0x8e, 0x76, 0x3d, 0xbd, 0xbc, 0x86, 0x57);
  }

  lemma InverseC(b: byte) returns (i: byte)
    requires 0xc0 <= b < 0xd0
    ensures Entry(b, i)
  {
    EntriesC();
    hide Entry;
    i := Row(b - 0xc0, 0x0b, 0x28, 0x2f, 0xa3, 0xda, 0xd4, 0xe4, 0x0f,
             0xa9, 0x27, 0x53, 0x04, 0x1b, 0xfc, 0xac, 0xe6);
  }

  lemma InverseD(b: byte) returns (i: byte)
    requires 0xd0 <= b < 0xe0
    ensures Entry(b, i)
  {
    EntriesD();
    hide Entry;
    i := Row(b - 0xd0, 0x7a, 0x07, 0xae, 0x63, 0xc5, 0xdb, 0xe2, 0xea,
             0x94, 0x8b, 0xc4, 0xd5, 0x9d, 0xf8, 0x90, 0x6b);
  }

  lemma InverseE(b: byte) returns (i: byte)
    requires 0xe0 <= b < 0xf0
    ensures Entry(b, i)
  {
    EntriesE();
    hide Entry;
    i := Row(b - 0xe0, 0xb1, 0x0d, 0xd6, 0xeb, 0xc6, 0x0e, 0xcf, 0xad,
             0x08, 0x4e, 0xd7, 0xe3, 0x5d, 0x50, 0x1e, 0xb3);
  }

  lemma InverseF(b: byte) returns (i: byte)
    requires 0xf0 <= b
    ensures Entry(b, i)
  {
    EntriesF();
    hide Entry;
    i := Row(b - 0xf0, 0x5b, 0x23, 0x38, 0x34, 0x68, 0x46, 0x03, 0x8c,
             0xdd, 0x9c, 0x7d, 0xa0, 0xcd, 0x1a, 0x41, 0x1c);
  }

  lemma SomeInverse(b: byte) returns (i: byte)
    ensures Entry(b, i)
  {
    hide Entry;
    if b < 0x10 {
      i := Inverse0(b);
    } else if b < 0x20 {
      i := Inverse1(b);
    } else if b < 0x30 {
      i := Inverse2(b);
    } else if b < 0x40 {
      i := Inverse3(b);
    } else if b < 0x50 {
      i := Inverse4(b);
    } else if b < 0x60 {
      i := Inverse5(b);
    } else if b < 0x70 {
      i := Inverse6(b);
    } else if b < 0x80 {
      i := Inverse7(b);
    } else if b < 0x90 {
      i := Inverse8(b);
    } else if b < 0xa0 {
      i := Inverse9(b);
    } else if b < 0xb0 {
      i := InverseA(b);
    } else if b < 0xc0 {
      i := InverseB(b);
    } else if b < 0xd0 {
      i := InverseC(b);
    } else if b < 0xe0 {
      i := InverseD(b);
    } else if b < 0xf0 {
      i := InverseE(b);
    } else {
      i := InverseF(b);
    }
  }

  // ----- bits of the affine map -----

  /** Bits j, j + 4, j + 5, j + 6 and j + 7 modulo 8, and bit j of the constant 0x63. */
  predicate AffineBit(i: nat, j: nat) {
    (((((Bit(i, j) != Bit(i, (j + 4) % 8)) != Bit(i, (j + 5) % 8)) != Bit(i, (j + 6) % 8)) != Bit(i, (j + 7) % 8))
     != Bit(0x63, j))
  }

  lemma AffineBits(i: bv8, j: nat)
    requires j < 8
    ensures Bit(Affine(i) as int, j) == AffineBit(i as int, j)
  {
    NthIsBit(Affine(i), j);
    NthIsBit(i, j);
    NthIsBit(i, (j + 4) % 8);
    NthIsBit(i, (j + 5) % 8);
    NthIsBit(i, (j + 6) % 8);
    NthIsBit(i, (j + 7) % 8);
    NthIsBit(0x63, j);
    AffineNth(i, j);
    hide Nth, Bit, Affine;
    assert 0x63 as bv8 as int == 0x63;
  }

  lemma AffineNth(i: bv8, j: nat)
    requires j < 8
    ensures Nth(Affine(i), j)
         == (((((Nth(i, j) != Nth(i, (j + 4) % 8)) != Nth(i, (j + 5) % 8)) != Nth(i, (j + 6) % 8))
              != Nth(i, (j + 7) % 8)) != Nth(0x63, j))
  {
    NthIsMasked(i);
    NthIsMasked(Affine(i));
    NthIsMasked(0x63);
    hide Nth;
  }

  lemma NthIsMasked(x: bv8)
    ensures Nth(x, 0) == (x & 0x01 != 0) && Nth(x, 1) == (x & 0x02 != 0)
    ensures Nth(x, 2) == (x & 0x04 != 0) && Nth(x, 3) == (x & 0x08 != 0)
    ensures Nth(x, 4) == (x & 0x10 != 0) && Nth(x, 5) == (x & 0x20 != 0)
    ensures Nth(x, 6) == (x & 0x40 != 0) && Nth(x, 7) == (x & 0x80 != 0)
  {
    assert Nth(x, 1) == Nth(x >> 1, 0) && Nth(x, 2) == Nth(x >> 1, 1) == Nth(x >> 1 >> 1, 0);
    assert Nth(x, 3) == Nth(x >> 1 >> 1 >> 1, 0) && Nth(x, 4) == Nth(x >> 1 >> 1 >> 1 >> 1, 0);
    assert Nth(x, 5) == Nth(x >> 1 >> 1 >> 1 >> 1 >> 1, 0);
    assert Nth(x, 6) == Nth(x >> 1 >> 1 >> 1 >> 1 >> 1 >> 1, 0);
    assert Nth(x, 7) == Nth(x >> 1 >> 1 >> 1 >> 1 >> 1 >> 1 >> 1, 0);
  }

  lemma EntryProduct(b: byte, i: byte)
    requires Product(b as bv8, i as bv8) == (if b == 0 then 0 else 1)
    ensures Times(b, i) == if b == 0 then 0 else 1
  {
    hide Times, Product;
    BackAgain(b);
    BackAgain(i);
    ProductIsTimes(b as bv8, i as bv8);
  }

  lemma EntryBit(b: byte, i: byte, j: nat)
    requires SBox(b) == Affine(i as bv8) as int && j < 8
    ensures Bit(SBox(b), j) == AffineBit(i, j)
  {
    hide SBox, AffineBit, Bit, Affine;
    BackAgain(i);
    AffineBits(i as bv8, j);
  }

  /** Every entry of the table is the affine image of the inverse: of a byte whose product with b in GF(2^8) is
      one, or of zero for zero. */
  lemma SBoxIsAffineInverse(b: byte) returns (i: byte)
    ensures if b == 0 then i == 0 else Times(b, i) == 1
    ensures forall j :: 0 <= j < 8 ==> Bit(SBox(b), j) == AffineBit(i, j)
  {
    hide Times, SBox, Product, AffineBit, Bit, Affine;
    i := SomeInverse(b);
    EntryProduct(b, i);
    forall j | 0 <= j < 8 ensures Bit(SBox(b), j) == AffineBit(i, j) {
      EntryBit(b, i, j);
    }
  }
}
