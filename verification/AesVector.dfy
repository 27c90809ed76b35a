/** The worked example of appendix C.3 of FIPS 197: every round key, every round, the result. */
module AesVector {
  import opened Bytes
  import opened ByteBits
  import opened Aes256
  import opened AesStandard

  // ----- columns as words -----

  type word = bv32

  function Byte0(w: word): bv8 { (w >> 24) as bv8 }
  function Byte1(w: word): bv8 { ((w >> 16) & 0xff) as bv8 }
  function Byte2(w: word): bv8 { ((w >> 8) & 0xff) as bv8 }
  function Byte3(w: word): bv8 { (w & 0xff) as bv8 }

  function Val(x: bv8): byte { x as int }
  function Sum(x: bv8, y: bv8): bv8 { x ^ y }
  function Plus(v: word, w: word): word { v ^ w }

  function Four(w: word): (b: seq<byte>)
    ensures |b| == 4
  {
    [Val(Byte0(w)), Val(Byte1(w)), Val(Byte2(w)), Val(Byte3(w))]
  }

  lemma BytesOfXor(v: word, w: word)
    ensures Byte0(v ^ w) == Byte0(v) ^ Byte0(w) && Byte1(v ^ w) == Byte1(v) ^ Byte1(w)
    ensures Byte2(v ^ w) == Byte2(v) ^ Byte2(w) && Byte3(v ^ w) == Byte3(v) ^ Byte3(w)
  {
  }

  lemma BytesXor(v: word, w: word)
    ensures Byte0(Plus(v, w)) == Sum(Byte0(v), Byte0(w)) && Byte1(Plus(v, w)) == Sum(Byte1(v), Byte1(w))
    ensures Byte2(Plus(v, w)) == Sum(Byte2(v), Byte2(w)) && Byte3(Plus(v, w)) == Sum(Byte3(v), Byte3(w))
  {
    hide Byte0, Byte1, Byte2, Byte3;
    BytesOfXor(v, w);
  }

  lemma XorByteIs(x: bv8, y: bv8)
    ensures XorByte(Val(x), Val(y)) == Val(Sum(x, y))
  {
    XorIsXor(x, y);
  }

  lemma FourXor(v: word, w: word)
    ensures XorBytes(Four(v), Four(w)) == Four(Plus(v, w))
  {
    hide Byte0, Byte1, Byte2, Byte3, XorByte, Val, Sum, Plus;
    BytesXor(v, w);
    XorByteIs(Byte0(v), Byte0(w));
    XorByteIs(Byte1(v), Byte1(w));
    XorByteIs(Byte2(v), Byte2(w));
    XorByteIs(Byte3(v), Byte3(w));
  }

  /** The table takes each byte of w to that of t. */
  predicate Subs(w: word, t: word) {
    && SBox(Val(Byte0(w))) == Val(Byte0(t)) && SBox(Val(Byte1(w))) == Val(Byte1(t))
    && SBox(Val(Byte2(w))) == Val(Byte2(t)) && SBox(Val(Byte3(w))) == Val(Byte3(t))
  }

  lemma FourSub(w: word, t: word)
    requires Subs(w, t)
    ensures SubBytes(Four(w)) == Four(t)
  {
    hide SBox, Byte0, Byte1, Byte2, Byte3, Val;
  }

  /** The matrix takes column w to column m. */
  predicate Mixes(w: word, m: word) {
    var a, b, c, d := Byte0(w), Byte1(w), Byte2(w), Byte3(w);
    && Byte0(m) == Sum(Sum(Sum(Product(a, 2), Product(b, 3)), c), d)
    && Byte1(m) == Sum(Sum(Sum(a, Product(b, 2)), Product(c, 3)), d)
    && Byte2(m) == Sum(Sum(Sum(a, b), Product(c, 2)), Product(d, 3))
    && Byte3(m) == Sum(Sum(Sum(Product(a, 3), b), c), Product(d, 2))
  }

  function ColumnFrom(w: word): Column {
    Column(Val(Byte0(w)), Val(Byte1(w)), Val(Byte2(w)), Val(Byte3(w)))
  }

  lemma ColumnMix(w: word, m: word)
    requires Mixes(w, m)
    ensures MixColumn(ColumnFrom(w)) == ColumnFrom(m)
  {
    var a, b, c, d := Byte0(w), Byte1(w), Byte2(w), Byte3(w);
    hide MixColumn, Times, Product, XorByte, Byte0, Byte1, Byte2, Byte3, Val, Sum;
    MixColumnEntries(ColumnFrom(w));
    Twos(a); Twos(b); Twos(c); Twos(d);
    SumOfFour(Product(a, 2), Product(b, 3), c, d);
    SumOfFour(a, Product(b, 2), Product(c, 3), d);
    SumOfFour(a, b, Product(c, 2), Product(d, 3));
    SumOfFour(Product(a, 3), b, c, Product(d, 2));
  }

  lemma Twos(a: bv8)
    ensures Times(Val(a), 2) == Val(Product(a, 2)) && Times(Val(a), 3) == Val(Product(a, 3))
  {
    ProductIsTimes(a, 2);
    ProductIsTimes(a, 3);
    hide Times, Product;
  }

  lemma SumOfFour(a: bv8, b: bv8, c: bv8, d: bv8)
    ensures XorByte(XorByte(XorByte(Val(a), Val(b)), Val(c)), Val(d)) == Val(Sum(Sum(Sum(a, b), c), d))
  {
    hide XorByte, Val, Sum;
    XorByteIs(a, b);
    XorByteIs(Sum(a, b), c);
    XorByteIs(Sum(Sum(a, b), c), d);
  }

  // ----- the state, a word for each column -----

  datatype State = State(a: word, b: word, c: word, d: word)

  function Of(s: State): (r: seq<byte>)
    ensures |r| == BLOCK
  {
    Four(s.a) + Four(s.b) + Four(s.c) + Four(s.d)
  }

  function Added(s: State, k: State): State { State(Plus(s.a, k.a), Plus(s.b, k.b), Plus(s.c, k.c), Plus(s.d, k.d)) }

  lemma StateXor(s: State, k: State)
    ensures XorBytes(Of(s), Of(k)) == Of(Added(s, k))
  {
    hide Four, Plus, XorByte;
    FourXor(s.a, k.a);
    FourXor(s.b, k.b);
    FourXor(s.c, k.c);
    FourXor(s.d, k.d);
    forall i | 0 <= i < BLOCK ensures XorBytes(Of(s), Of(k))[i] == Of(Added(s, k))[i] {
      XorAt(s, k, i);
    }
  }

  /** Byte i of the state is byte i % 4 of one of its words. */
  lemma XorAt(s: State, k: State, i: nat)
    requires i < BLOCK
    ensures Of(s)[i] == Four(if i < 4 then s.a else if i < 8 then s.b else if i < 12 then s.c else s.d)[i % 4]
    ensures Of(k)[i] == Four(if i < 4 then k.a else if i < 8 then k.b else if i < 12 then k.c else k.d)[i % 4]
  {
    hide Four;
  }

  predicate StateSubs(s: State, t: State) { Subs(s.a, t.a) && Subs(s.b, t.b) && Subs(s.c, t.c) && Subs(s.d, t.d) }

  lemma StateSub(s: State, t: State)
    requires StateSubs(s, t)
    ensures SubBytes(Of(s)) == Of(t)
  {
    FourSub(s.a, t.a);
    FourSub(s.b, t.b);
    FourSub(s.c, t.c);
    FourSub(s.d, t.d);
    hide Four, SBox, Subs;
    forall i | 0 <= i < BLOCK ensures SubBytes(Of(s))[i] == Of(t)[i] {
      XorAt(s, t, i);
    }
  }

  function Pick(p: word, q: word, r: word, s: word): word {
    (p & 0xff000000) | (q & 0x00ff0000) | (r & 0x0000ff00) | (s & 0x000000ff)
  }

  function Shifted(t: State): State {
    State(Pick(t.a, t.b, t.c, t.d), Pick(t.b, t.c, t.d, t.a), Pick(t.c, t.d, t.a, t.b), Pick(t.d, t.a, t.b, t.c))
  }

  lemma Picked(p: word, q: word, r: word, s: word)
    ensures Four(Pick(p, q, r, s)) == [Four(p)[0], Four(q)[1], Four(r)[2], Four(s)[3]]
  {
  }

  lemma OfTable(t: State)
    ensures Of(t) == [Four(t.a)[0], Four(t.a)[1], Four(t.a)[2], Four(t.a)[3],
                      Four(t.b)[0], Four(t.b)[1], Four(t.b)[2], Four(t.b)[3],
                      Four(t.c)[0], Four(t.c)[1], Four(t.c)[2], Four(t.c)[3],
                      Four(t.d)[0], Four(t.d)[1], Four(t.d)[2], Four(t.d)[3]]
  {
    hide Four;
  }

  lemma StateShift(t: State)
    ensures ShiftRows(Of(t)) == Of(Shifted(t))
  {
    hide Four, Pick, ShiftRows, Of;
    OfTable(t);
    OfTable(Shifted(t));
    ShiftRowsTable(Of(t));
    Picked(t.a, t.b, t.c, t.d);
    Picked(t.b, t.c, t.d, t.a);
    Picked(t.c, t.d, t.a, t.b);
    Picked(t.d, t.a, t.b, t.c);
  }

  predicate StateMixes(s: State, m: State) {
    Mixes(s.a, m.a) && Mixes(s.b, m.b) && Mixes(s.c, m.c) && Mixes(s.d, m.d)
  }

  lemma ColumnsOf(s: State)
    ensures ColumnOf(Of(s), 0) == ColumnFrom(s.a) && ColumnOf(Of(s), 1) == ColumnFrom(s.b)
    ensures ColumnOf(Of(s), 2) == ColumnFrom(s.c) && ColumnOf(Of(s), 3) == ColumnFrom(s.d)
    ensures FromColumns(ColumnFrom(s.a), ColumnFrom(s.b), ColumnFrom(s.c), ColumnFrom(s.d)) == Of(s)
  {
    OfTable(s);
    hide Of, Byte0, Byte1, Byte2, Byte3, Val;
  }

  lemma StateMix(s: State, m: State)
    requires StateMixes(s, m)
    ensures MixColumns(Of(s)) == Of(m)
  {
    hide MixColumn, Mixes, ColumnFrom, ColumnOf, FromColumns, Of;
    ColumnsOf(s);
    ColumnsOf(m);
    ColumnMix(s.a, m.a);
    ColumnMix(s.b, m.b);
    ColumnMix(s.c, m.c);
    ColumnMix(s.d, m.d);
  }

  // ----- one round, and one stretch of the key -----

  /** From the values that the example lists: s at the start, t after SubBytes, m after MixColumns, key k. */
  lemma RoundIs(s: State, t: State, m: State, k: State)
    requires StateSubs(s, t) && StateMixes(Shifted(t), m)
    ensures Round(Of(s), Of(k)) == Of(Added(m, k))
  {
    StateSub(s, t);
    StateShift(t);
    StateMix(Shifted(t), m);
    StateXor(m, k);
    hide Of, StateSubs, StateMixes, Shifted, Added, SubBytes, ShiftRows, MixColumns, XorBytes;
  }

  lemma LastRoundIs(s: State, t: State, k: State)
    requires StateSubs(s, t)
    ensures LastRound(Of(s), Of(k)) == Of(Added(Shifted(t), k))
  {
    StateSub(s, t);
    StateShift(t);
    StateXor(Shifted(t), k);
    hide Of, StateSubs, Shifted, Added, SubBytes, ShiftRows, XorBytes;
  }

  /** Words i to i + 3 of the expanded key. */
  predicate Words(key: seq<byte>, i: nat, p: State)
    requires |key| == KEY_BYTES
  {
    Word(key, i) == Four(p.a) && Word(key, i + 1) == Four(p.b) && Word(key, i + 2) == Four(p.c)
    && Word(key, i + 3) == Four(p.d)
  }

  lemma WordsAre(key: seq<byte>, i: nat, p: State, q: State, t: word, r: State)
    requires |key| == KEY_BYTES && i >= 8 && i % 4 == 0 && Words(key, i - 8, p) && Words(key, i - 4, q)
    requires Mixed(Four(q.d), i) == Four(t)
    requires r == State(Plus(p.a, t), Plus(p.b, r.a), Plus(p.c, r.b), Plus(p.d, r.c))
    ensures Words(key, i, r)
  {
    hide Word, Mixed, Four, XorBytes, Plus;
    NextWord(key, i); NextWord(key, i + 1); NextWord(key, i + 2); NextWord(key, i + 3);
    MixedElsewhere(Four(r.a), i + 1); MixedElsewhere(Four(r.b), i + 2); MixedElsewhere(Four(r.c), i + 3);
    FourXor(p.a, t); FourXor(p.b, r.a); FourXor(p.c, r.b); FourXor(p.d, r.c);
  }

  lemma NotFour(i: nat)
    requires i % 4 != 0
    ensures i % 8 != 0 && i % 8 != 4
  {
    var q, r := i / 8, i % 8;
    assert i == 4 * (2 * q) + r;
    if r == 0 || r == 4 {
      ModUnique(i, 4, 2 * q + r / 4, 0);
    }
  }

  lemma MixedElsewhere(w: seq<byte>, i: nat)
    requires |w| == 4 && i % 4 != 0
    ensures Mixed(w, i) == w
  {
    NotFour(i);
    hide SubBytes, RotWord, RoundConstant, XorBytes;
  }

  lemma MixedHalfway(w: word, t: word, i: nat)
    requires i % 8 == 4 && Subs(w, t)
    ensures Mixed(Four(w), i) == Four(t)
  {
    FourSub(w, t);
    hide Subs, SubBytes, Four;
  }

  lemma MixedAtStart(w: word, t: word, rc: word, i: nat)
    requires i % 8 == 0 && Subs((w << 8) | (w >> 24), t)
    requires Four(rc) == [RoundConstant(i / 8), 0, 0, 0]
    ensures Mixed(Four(w), i) == Four(Plus(t, rc))
  {
    Rotated(w);
    FourSub((w << 8) | (w >> 24), t);
    FourXor(t, rc);
    hide Subs, SubBytes, Four, XorBytes, RoundConstant, Plus;
  }

  lemma Rotated(w: word)
    ensures RotWord(Four(w)) == Four((w << 8) | (w >> 24))
  {
  }

  lemma KeyOfRound(key: seq<byte>, round: nat, p: State)
    requires |key| == KEY_BYTES && round <= ROUNDS && Words(key, 4 * round, p)
    ensures RoundKey(Schedule(key), round) == Of(p)
  {
    hide Word, Four;
    var k := RoundKey(Schedule(key), round);
    forall i | 0 <= i < BLOCK ensures k[i] == Of(p)[i] {
      KeyByte(key, round, i);
      XorAt(p, p, i);
    }
  }

  lemma KeyByte(key: seq<byte>, round: nat, i: nat)
    requires |key| == KEY_BYTES && round <= ROUNDS && i < BLOCK
    ensures RoundKey(Schedule(key), round)[i] == Word(key, 4 * round + i / 4)[i % 4]
  {
    hide Word;
    assert (16 * round + i) / 4 == 4 * round + i / 4 && (16 * round + i) % 4 == i % 4;
  }

  // ----- the example -----

  function Key(): (k: seq<byte>)
    ensures |k| == KEY_BYTES
  {
    seq(KEY_BYTES, i requires 0 <= i < KEY_BYTES => i)
  }

  function Input(): (b: seq<byte>)
    ensures |b| == BLOCK
  {
    seq(BLOCK, i requires 0 <= i < BLOCK => 17 * i)
  }

  function Expanded(): (s: seq<byte>)
    ensures |s| == SCHEDULE_BYTES
  {
    Schedule(Key())
  }

  lemma Key0()
    ensures Words(Key(), 0, State(0x00010203, 0x04050607, 0x08090a0b, 0x0c0d0e0f))
    ensures Words(Key(), 4, State(0x10111213, 0x14151617, 0x18191a1b, 0x1c1d1e1f))
  {
    FirstWords(Key());
  }

  lemma Key8()
    ensures Words(Key(), 8, State(0xa573c29f, 0xa176c498, 0xa97fce93, 0xa572c09c))
    ensures Words(Key(), 12, State(0x1651a8cd, 0x0244beda, 0x1a5da4c1, 0x0640bade))
  {
    hide Words, Mixed, Key;
    Key0();
    RconIsRoundConstant(1);
    MixedAtStart(0x1c1d1e1f, 0xa472c09c, 0x01000000, 8);
    WordsAre(Key(), 8, State(0x00010203, 0x04050607, 0x08090a0b, 0x0c0d0e0f),
             State(0x10111213, 0x14151617, 0x18191a1b, 0x1c1d1e1f), 0xa572c09c,
             State(0xa573c29f, 0xa176c498, 0xa97fce93, 0xa572c09c));
    MixedHalfway(0xa572c09c, 0x0640bade, 12);
    WordsAre(Key(), 12, State(0x10111213, 0x14151617, 0x18191a1b, 0x1c1d1e1f),
             State(0xa573c29f, 0xa176c498, 0xa97fce93, 0xa572c09c), 0x0640bade,
             State(0x1651a8cd, 0x0244beda, 0x1a5da4c1, 0x0640bade));
  }

  lemma Key16()
    ensures Words(Key(), 16, State(0xae87dff0, 0x0ff11b68, 0xa68ed5fb, 0x03fc1567))
    ensures Words(Key(), 20, State(0x6de1f148, 0x6fa54f92, 0x75f8eb53, 0x73b8518d))
  {
    hide Words, Mixed, Key;
    Key8();
    RconIsRoundConstant(2);
    MixedAtStart(0x0640bade, 0x09f41d6f, 0x02000000, 16);
    WordsAre(Key(), 16, State(0xa573c29f, 0xa176c498, 0xa97fce93, 0xa572c09c),
             State(0x1651a8cd, 0x0244beda, 0x1a5da4c1, 0x0640bade), 0x0bf41d6f,
             State(0xae87dff0, 0x0ff11b68, 0xa68ed5fb, 0x03fc1567));
    MixedHalfway(0x03fc1567, 0x7bb05985, 20);
    WordsAre(Key(), 20, State(0x1651a8cd, 0x0244beda, 0x1a5da4c1, 0x0640bade),
             State(0xae87dff0, 0x0ff11b68, 0xa68ed5fb, 0x03fc1567), 0x7bb05985,
             State(0x6de1f148, 0x6fa54f92, 0x75f8eb53, 0x73b8518d));
  }

  lemma Key24()
    ensures Words(Key(), 24, State(0xc656827f, 0xc9a79917, 0x6f294cec, 0x6cd5598b))
    ensures Words(Key(), 28, State(0x3de23a75, 0x524775e7, 0x27bf9eb4, 0x5407cf39))
  {
    hide Words, Mixed, Key;
    Key16();
    RconIsRoundConstant(3);
    MixedAtStart(0x73b8518d, 0x6cd15d8f, 0x04000000, 24);
    WordsAre(Key(), 24, State(0xae87dff0, 0x0ff11b68, 0xa68ed5fb, 0x03fc1567),
             State(0x6de1f148, 0x6fa54f92, 0x75f8eb53, 0x73b8518d), 0x68d15d8f,
             State(0xc656827f, 0xc9a79917, 0x6f294cec, 0x6cd5598b));
    MixedHalfway(0x6cd5598b, 0x5003cb3d, 28);
    WordsAre(Key(), 28, State(0x6de1f148, 0x6fa54f92, 0x75f8eb53, 0x73b8518d),
             State(0xc656827f, 0xc9a79917, 0x6f294cec, 0x6cd5598b), 0x5003cb3d,
             State(0x3de23a75, 0x524775e7, 0x27bf9eb4, 0x5407cf39));
  }

  lemma Key32()
    ensures Words(Key(), 32, State(0x0bdc905f, 0xc27b0948, 0xad5245a4, 0xc1871c2f))
    ensures Words(Key(), 36, State(0x45f5a660, 0x17b2d387, 0x300d4d33, 0x640a820a))
  {
    hide Words, Mixed, Key;
    Key24();
    RconIsRoundConstant(4);
    MixedAtStart(0x5407cf39, 0xc58a1220, 0x08000000, 32);
    WordsAre(Key(), 32, State(0xc656827f, 0xc9a79917, 0x6f294cec, 0x6cd5598b),
             State(0x3de23a75, 0x524775e7, 0x27bf9eb4, 0x5407cf39), 0xcd8a1220,
             State(0x0bdc905f, 0xc27b0948, 0xad5245a4, 0xc1871c2f));
    MixedHalfway(0xc1871c2f, 0x78179c15, 36);
    WordsAre(Key(), 36, State(0x3de23a75, 0x524775e7, 0x27bf9eb4, 0x5407cf39),
             State(0x0bdc905f, 0xc27b0948, 0xad5245a4, 0xc1871c2f), 0x78179c15,
             State(0x45f5a660, 0x17b2d387, 0x300d4d33, 0x640a820a));
  }

  lemma Key40()
    ensures Words(Key(), 40, State(0x7ccff71c, 0xbeb4fe54, 0x13e6bbf0, 0xd261a7df))
    ensures Words(Key(), 44, State(0xf01afafe, 0xe7a82979, 0xd7a5644a, 0xb3afe640))
  {
    hide Words, Mixed, Key;
    Key32();
    RconIsRoundConstant(5);
    MixedAtStart(0x640a820a, 0x67136743, 0x10000000, 40);
    WordsAre(Key(), 40, State(0x0bdc905f, 0xc27b0948, 0xad5245a4, 0xc1871c2f),
             State(0x45f5a660, 0x17b2d387, 0x300d4d33, 0x640a820a), 0x77136743,
             State(0x7ccff71c, 0xbeb4fe54, 0x13e6bbf0, 0xd261a7df));
    MixedHalfway(0xd261a7df, 0xb5ef5c9e, 44);
    WordsAre(Key(), 44, State(0x45f5a660, 0x17b2d387, 0x300d4d33, 0x640a820a),
             State(0x7ccff71c, 0xbeb4fe54, 0x13e6bbf0, 0xd261a7df), 0xb5ef5c9e,
             State(0xf01afafe, 0xe7a82979, 0xd7a5644a, 0xb3afe640));
  }

  lemma Key48()
    ensures Words(Key(), 48, State(0x2541fe71, 0x9bf50025, 0x8813bbd5, 0x5a721c0a))
    ensures Words(Key(), 52, State(0x4e5a6699, 0xa9f24fe0, 0x7e572baa, 0xcdf8cdea))
  {
    hide Words, Mixed, Key;
    Key40();
    RconIsRoundConstant(6);
    MixedAtStart(0xb3afe640, 0x798e096d, 0x20000000, 48);
    WordsAre(Key(), 48, State(0x7ccff71c, 0xbeb4fe54, 0x13e6bbf0, 0xd261a7df),
             State(0xf01afafe, 0xe7a82979, 0xd7a5644a, 0xb3afe640), 0x598e096d,
             State(0x2541fe71, 0x9bf50025, 0x8813bbd5, 0x5a721c0a));
    MixedHalfway(0x5a721c0a, 0xbe409c67, 52);
    WordsAre(Key(), 52, State(0xf01afafe, 0xe7a82979, 0xd7a5644a, 0xb3afe640),
             State(0x2541fe71, 0x9bf50025, 0x8813bbd5, 0x5a721c0a), 0xbe409c67,
             State(0x4e5a6699, 0xa9f24fe0, 0x7e572baa, 0xcdf8cdea));
  }

  lemma Key56()
    ensures Words(Key(), 56, State(0x24fc79cc, 0xbf0979e9, 0x371ac23c, 0x6d68de36))
  {
    hide Words, Mixed, Key;
    Key48();
    RconIsRoundConstant(7);
    MixedAtStart(0xcdf8cdea, 0x41bd87bd, 0x40000000, 56);
    WordsAre(Key(), 56, State(0x2541fe71, 0x9bf50025, 0x8813bbd5, 0x5a721c0a),
             State(0x4e5a6699, 0xa9f24fe0, 0x7e572baa, 0xcdf8cdea), 0x01bd87bd,
             State(0x24fc79cc, 0xbf0979e9, 0x371ac23c, 0x6d68de36));
  }

  predicate After(n: nat, s: State)
    requires n < ROUNDS
  {
    Rounds(Expanded(), Input(), n) == Of(s)
  }

  lemma Next(n: nat, s: State, t: State, m: State, k: State)
    requires 1 <= n < ROUNDS && After(n - 1, s) && Words(Key(), 4 * n, k)
    requires StateSubs(s, t) && StateMixes(Shifted(t), m)
    ensures After(n, Added(m, k))
  {
    hide Round, StateSubs, StateMixes, Shifted, Added, Schedule, RoundKey, Of, Words, Key, Input;
    KeyOfRound(Key(), n, k);
    RoundIs(s, t, m, k);
  }

  lemma After0()
    ensures After(0, State(0x00102030, 0x40506070, 0x8090a0b0, 0xc0d0e0f0))
  {
    var i := State(0x00112233, 0x44556677, 0x8899aabb, 0xccddeeff);
    var k := State(0x00010203, 0x04050607, 0x08090a0b, 0x0c0d0e0f);
    assert Input() == Of(i);
    Key0();
    KeyOfRound(Key(), 0, k);
    StateXor(i, k);
    hide Schedule, RoundKey, XorBytes, Of, Words, Key, Input;
  }

  lemma After1()
    ensures After(1, State(0x4f637606, 0x43e0aa85, 0xefa72132, 0x01a4e705))
  {
    hide After, Words;
    After0();
    Key0();
    Next(1, State(0x00102030, 0x40506070, 0x8090a0b0, 0xc0d0e0f0),
         State(0x63cab704, 0x0953d051, 0xcd60e0e7, 0xba70e18c),
         State(0x5f726415, 0x57f5bc92, 0xf7be3b29, 0x1db9f91a),
         State(0x10111213, 0x14151617, 0x18191a1b, 0x1c1d1e1f));
  }

  lemma After2()
    ensures After(2, State(0x1859fbc2, 0x8a1c00a0, 0x78ed8aad, 0xc42f6109))
  {
    hide After, Words;
    After1();
    Key8();
    Next(2, State(0x4f637606, 0x43e0aa85, 0xefa72132, 0x01a4e705),
         State(0x84fb386f, 0x1ae1ac97, 0xdf5cfd23, 0x7c49946b),
         State(0xbd2a395d, 0x2b6ac438, 0xd192443e, 0x615da195),
         State(0xa573c29f, 0xa176c498, 0xa97fce93, 0xa572c09c));
  }

  lemma After3()
    ensures After(3, State(0x975c66c1, 0xcb9f3fa8, 0xa93a28df, 0x8ee10f63))
  {
    hide After, Words;
    After2();
    Key8();
    Next(3, State(0x1859fbc2, 0x8a1c00a0, 0x78ed8aad, 0xc42f6109),
         State(0xadcb0f25, 0x7e9c63e0, 0xbc557e95, 0x1c15ef01),
         State(0x810dce0c, 0xc9db8172, 0xb3678c1e, 0x88a1b5bd),
         State(0x1651a8cd, 0x0244beda, 0x1a5da4c1, 0x0640bade));
  }

  lemma After4()
    ensures After(4, State(0x1c05f271, 0xa417e04f, 0xf921c5c1, 0x04701554))
  {
    hide After, Words;
    After3();
    Key16();
    Next(4, State(0x975c66c1, 0xcb9f3fa8, 0xa93a28df, 0x8ee10f63),
         State(0x884a3378, 0x1fdb75c2, 0xd380349e, 0x19f876fb),
         State(0xb2822d81, 0xabe6fb27, 0x5faf103a, 0x078c0033),
         State(0xae87dff0, 0x0ff11b68, 0xa68ed5fb, 0x03fc1567));
  }

  lemma After5()
    ensures After(5, State(0xc357aae1, 0x1b45b7b0, 0xa2c7bd28, 0xa8dc99fa))
  {
    hide After, Words;
    After4();
    Key16();
    Next(5, State(0x1c05f271, 0xa417e04f, 0xf921c5c1, 0x04701554),
         State(0x9c6b89a3, 0x49f0e184, 0x99fda678, 0xf2515920),
         State(0xaeb65ba9, 0x74e0f822, 0xd73f567b, 0xdb64c877),
         State(0x6de1f148, 0x6fa54f92, 0x75f8eb53, 0x73b8518d));
  }

  lemma After6()
    ensures After(6, State(0x7f074143, 0xcb4e243e, 0xc10c815d, 0x8375d54c))
  {
    hide After, Words;
    After5();
    Key24();
    Next(6, State(0xc357aae1, 0x1b45b7b0, 0xa2c7bd28, 0xa8dc99fa),
         State(0x2e5bacf8, 0xaf6ea9e7, 0x3ac67a34, 0xc286ee2d),
         State(0xb951c33c, 0x02e9bd29, 0xae25cdb1, 0xefa08cc7),
         State(0xc656827f, 0xc9a79917, 0x6f294cec, 0x6cd5598b));
  }

  lemma After7()
    ensures After(7, State(0xd653a469, 0x6ca0bc0f, 0x5acaab5d, 0xb96c5e7d))
  {
    hide After, Words;
    After6();
    Key24();
    Next(7, State(0x7f074143, 0xcb4e243e, 0xc10c815d, 0x8375d54c),
         State(0xd2c5831a, 0x1f2f36b2, 0x78fe0c4c, 0xec9d0329),
         State(0xebb19e1c, 0x3ee7c9e8, 0x7d7535e9, 0xed6b9144),
         State(0x3de23a75, 0x524775e7, 0x27bf9eb4, 0x5407cf39));
  }

  lemma After8()
    ensures After(8, State(0x5aa85839, 0x5fd28d7d, 0x05e1a388, 0x68f3b9c5))
  {
    hide After, Words;
    After7();
    Key32();
    Next(8, State(0xd653a469, 0x6ca0bc0f, 0x5acaab5d, 0xb96c5e7d),
         State(0xf6ed49f9, 0x50e06576, 0xbe74624c, 0x565058ff),
         State(0x5174c866, 0x9da98435, 0xa8b3e62c, 0xa974a5ea),
         State(0x0bdc905f, 0xc27b0948, 0xad5245a4, 0xc1871c2f));
  }

  lemma After9()
    ensures After(9, State(0x4a824851, 0xc57e7e47, 0x643de50c, 0x2af3e8c9))
  {
    hide After, Words;
    After8();
    Key32();
    Next(9, State(0x5aa85839, 0x5fd28d7d, 0x05e1a388, 0x68f3b9c5),
         State(0xbec26a12, 0xcfb55dff, 0x6bf80ac4, 0x450d56a6),
         State(0x0f77ee31, 0xd2ccadc0, 0x5430a83f, 0x4ef96ac3),
         State(0x45f5a660, 0x17b2d387, 0x300d4d33, 0x640a820a));
  }

  lemma After10()
    ensures After(10, State(0xc14907f6, 0xca3b3aa0, 0x70e9aa31, 0x3b52b5ec))
  {
    hide After, Words;
    After9();
    Key40();
    Next(10, State(0x4a824851, 0xc57e7e47, 0x643de50c, 0x2af3e8c9),
         State(0xd61352d1, 0xa6f3f3a0, 0x4327d9fe, 0xe50d9bdd),
         State(0xbd86f0ea, 0x748fc4f4, 0x630f11c1, 0xe9331233),
         State(0x7ccff71c, 0xbeb4fe54, 0x13e6bbf0, 0xd261a7df));
  }

  lemma After11()
    ensures After(11, State(0x5f9c6abf, 0xbac634aa, 0x50409fa7, 0x66677653))
  {
    hide After, Words;
    After10();
    Key40();
    Next(11, State(0xc14907f6, 0xca3b3aa0, 0x70e9aa31, 0x3b52b5ec),
         State(0x783bc542, 0x74e280e0, 0x511eacc7, 0xe200d5ce),
         State(0xaf869041, 0x5d6e1dd3, 0x87e5fbed, 0xd5c89013),
         State(0xf01afafe, 0xe7a82979, 0xd7a5644a, 0xb3afe640));
  }

  lemma After12()
    ensures After(12, State(0x51660495, 0x43539503, 0x14fb86e4, 0x01922521))
  {
    hide After, Words;
    After11();
    Key48();
    Next(12, State(0x5f9c6abf, 0xbac634aa, 0x50409fa7, 0x66677653),
         State(0xcfde0208, 0xf4b418ac, 0x5309db5c, 0x338538ed),
         State(0x7427fae4, 0xd8a69526, 0x9ce83d31, 0x5be0392b),
         State(0x2541fe71, 0x9bf50025, 0x8813bbd5, 0x5a721c0a));
  }

  lemma After13()
    ensures After(13, State(0x627bceb9, 0x999d5aaa, 0xc945ecf4, 0x23f56da5))
  {
    hide After, Words;
    After12();
    Key48();
    Next(13, State(0x51660495, 0x43539503, 0x14fb86e4, 0x01922521),
         State(0xd133f22a, 0x1aed2a7b, 0xfa0f4469, 0x7c4f3ffd),
         State(0x2c21a820, 0x306f154a, 0xb712c75e, 0xee0da04f),
         State(0x4e5a6699, 0xa9f24fe0, 0x7e572baa, 0xcdf8cdea));
  }

  predicate Result(s: State) { Encrypt(Expanded(), Input()) == Of(s) }

  lemma Finish(s: State, t: State, k: State)
    requires After(13, s) && Words(Key(), 56, k) && StateSubs(s, t)
    ensures Result(Added(Shifted(t), k))
  {
    hide LastRound, StateSubs, Shifted, Added, Schedule, RoundKey, Of, Words, Key, Input, Rounds;
    KeyOfRound(Key(), 14, k);
    LastRoundIs(s, t, k);
  }

  lemma Finished()
    ensures Result(State(0x8ea2b7ca, 0x516745bf, 0xeafc4990, 0x4b496089))
  {
    hide After, Words, Result;
    After13();
    Key56();
    Finish(State(0x627bceb9, 0x999d5aaa, 0xc945ecf4, 0x23f56da5),
           State(0xaa218b56, 0xee5ebeac, 0xdd6ecebf, 0x26e63c06),
           State(0x24fc79cc, 0xbf0979e9, 0x371ac23c, 0x6d68de36));
  }

  lemma ResultBytes()
    ensures Of(State(0x8ea2b7ca, 0x516745bf, 0xeafc4990, 0x4b496089))
         == [0x8e, 0xa2, 0xb7, 0xca, 0x51, 0x67, 0x45, 0xbf,
             0xea, 0xfc, 0x49, 0x90, 0x4b, 0x49, 0x60, 0x89]
  {
  }

  /** The ciphertext of the example: the kernel's expansion and its rounds give it. */
  lemma Published()
    ensures Encrypt(Expanded(), Input())
         == [0x8e, 0xa2, 0xb7, 0xca, 0x51, 0x67, 0x45, 0xbf,
             0xea, 0xfc, 0x49, 0x90, 0x4b, 0x49, 0x60, 0x89]
  {
    hide Encrypt, Expanded, Input, Of;
    Finished();
    ResultBytes();
  }
}
