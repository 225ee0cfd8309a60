/** The byte-string hash on little-endian machines: three ways to read the key, one hash. */
module JenkinsHash {
  type Word = bv32

  // ---------------------------------------------------------------- mixing

  datatype State = State(a: Word, b: Word, c: Word)

  function Rot(x: Word, k: Word): Word
    requires 0 < k < 32
  {
    (x << k) | (x >> (32 - k))
  }

  predicate Bit(x: Word, i: Word)
    requires i < 32
  {
    (x >> i) & 1 == 1
  }

  lemma RotBitUp(x: Word, k: Word, i: Word)
    requires 0 < k < 32 && i < 32 - k
    ensures Bit(Rot(x, k), i + k) == Bit(x, i)
  {
  }

  lemma RotBitAround(x: Word, k: Word, i: Word)
    requires 0 < k < 32 && 32 - k <= i < 32
    ensures Bit(Rot(x, k), i - (32 - k)) == Bit(x, i)
  {
  }

  /** rot moves every bit k places up, around the end of the word. */
  lemma RotBit(x: Word, k: Word, i: Word)
    requires 0 < k < 32 && i < 32
    ensures Bit(Rot(x, k), (i + k) % 32) == Bit(x, i)
  {
    hide Rot, Bit;
    if i < 32 - k {
      RotBitUp(x, k, i);
    } else {
      RotBitAround(x, k, i);
    }
  }

  /** Rotating on by what is left to 32 undoes a rotation. */
  lemma RotBack(x: Word, k: Word)
    requires 0 < k < 32
    ensures Rot(Rot(x, k), 32 - k) == x
  {
    // The shifts are easier in smaller ranges.
    if k < 8 {
    } else if k < 16 {
    } else if k < 24 {
    } else {
    }
  }

  function Xor(x: Word, y: Word): Word {
    x ^ y
  }

  function Add(x: Word, y: Word): Word {
    x + y
  }

  function Sub(x: Word, y: Word): Word {
    x - y
  }

  lemma XorTwice(x: Word, y: Word)
    ensures Xor(Xor(x, y), y) == x
  {
  }

  lemma SubAdd(x: Word, y: Word)
    ensures Sub(Add(x, y), y) == x
  {
    calc {
      Sub(Add(x, y), y);
      Sub(x + y, y);
      (x + y) - y;
      x;
    }
  }

  lemma AddSub(x: Word, y: Word)
    ensures Add(Sub(x, y), y) == x
  {
    calc {
      Add(Sub(x, y), y);
      Add(x - y, y);
      (x - y) + y;
      x;
    }
  }

  /** One line of mix: a -= c; a ^= rot(c, k); c += b; the next line does the same one name further. */
  function Turn(s: State, k: Word): State
    requires 0 < k < 32
  {
    State(s.b, Add(s.c, s.b), Xor(Sub(s.a, s.c), Rot(s.c, k)))
  }

  function Unturn(s: State, k: Word): State
    requires 0 < k < 32
  {
    var c := Sub(s.b, s.a);
    State(Add(Xor(s.c, Rot(c, k)), c), s.a, c)
  }

  lemma TurnInverse(s: State, k: Word)
    requires 0 < k < 32
    ensures Unturn(Turn(s, k), k) == s && Turn(Unturn(s, k), k) == s
  {
    hide Rot, Xor, Add, Sub;
    SubAdd(s.c, s.b);
    XorTwice(Sub(s.a, s.c), Rot(s.c, k));
    AddSub(s.a, s.c);
    var c := Sub(s.b, s.a);
    AddSub(s.b, s.a);
    XorTwice(s.c, Rot(c, k));
    SubAdd(Xor(s.c, Rot(c, k)), c);
  }

  function Mix(s: State): State {
    Turn(Turn(Turn(Turn(Turn(Turn(s, 4), 6), 8), 16), 19), 4)
  }

  function Unmix(s: State): State {
    Unturn(Unturn(Unturn(Unturn(Unturn(Unturn(s, 4), 19), 16), 8), 6), 4)
  }

  /** mix loses nothing: it is a bijection on triples of words. */
  lemma MixIsBijective(s: State)
    ensures Unmix(Mix(s)) == s && Mix(Unmix(s)) == s
  {
    hide Turn, Unturn;
    var s1, u1 := Turn(s, 4), Unturn(s, 4);
    var s2, u2 := Turn(s1, 6), Unturn(u1, 19);
    var s3, u3 := Turn(s2, 8), Unturn(u2, 16);
    var s4, u4 := Turn(s3, 16), Unturn(u3, 8);
    var s5, u5 := Turn(s4, 19), Unturn(u4, 6);
    TurnInverse(s, 4);
    TurnInverse(s1, 6);
    TurnInverse(s2, 8);
    TurnInverse(s3, 16);
    TurnInverse(s4, 19);
    TurnInverse(s5, 4);
    TurnInverse(u1, 19);
    TurnInverse(u2, 16);
    TurnInverse(u3, 8);
    TurnInverse(u4, 6);
    TurnInverse(u5, 4);
  }

  /** mix, statement by statement. */
  method MixInPlace(a0: Word, b0: Word, c0: Word) returns (a: Word, b: Word, c: Word)
    ensures State(a, b, c) == Mix(State(a0, b0, c0))
  {
    hide Rot, Xor, Add, Sub;
    a, b, c := a0, b0, c0;
    a := Sub(a, c); a := Xor(a, Rot(c, 4)); c := Add(c, b);
    b := Sub(b, a); b := Xor(b, Rot(a, 6)); a := Add(a, c);
    c := Sub(c, b); c := Xor(c, Rot(b, 8)); b := Add(b, a);
    a := Sub(a, c); a := Xor(a, Rot(c, 16)); c := Add(c, b);
    b := Sub(b, a); b := Xor(b, Rot(a, 19)); a := Add(a, c);
    c := Sub(c, b); c := Xor(c, Rot(b, 4)); b := Add(b, a);
  }

  /** One step of final: x ^= y; x -= rot(y, k). */
  function Stir(x: Word, y: Word, k: Word): Word
    requires 0 < k < 32
  {
    Sub(Xor(x, y), Rot(y, k))
  }

  /** The last word of final. */
  function Final(s: State): Word {
    var c1 := Stir(s.c, s.b, 14);
    var a1 := Stir(s.a, c1, 11);
    var b1 := Stir(s.b, a1, 25);
    var c2 := Stir(c1, b1, 16);
    var a2 := Stir(a1, c2, 4);
    var b2 := Stir(b1, a2, 14);
    Stir(c2, b2, 24)
  }

  // ---------------------------------------------------------------- the hash of a key

  /** Four bytes, least significant first. */
  function Le(b0: bv8, b1: bv8, b2: bv8, b3: bv8): Word {
    (b0 as Word) | ((b1 as Word) << 8) | ((b2 as Word) << 16) | ((b3 as Word) << 24)
  }

  function ByteAt(key: seq<bv8>, i: nat): bv8 {
    if i < |key| then key[i] else 0
  }

  /** The word at byte i, as if the key went on with zeros. */
  function Lane(key: seq<bv8>, i: nat): Word {
    Le(ByteAt(key, i), ByteAt(key, i + 1), ByteAt(key, i + 2), ByteAt(key, i + 3))
  }

  function Absorb(s: State, key: seq<bv8>, i: nat): State {
    State(Add(s.a, Lane(key, i)), Add(s.b, Lane(key, i + 4)), Add(s.c, Lane(key, i + 8)))
  }

  /** All blocks from byte i on: blocks of twelve bytes, the last one not mixed but finished. */
  function Blocks(s: State, key: seq<bv8>, i: nat): Word
    requires i < |key|
    decreases |key| - i
  {
    if |key| - i > 12 then Blocks(Mix(Absorb(s, key, i)), key, i + 12) else Final(Absorb(s, key, i))
  }

  function Start(length: nat, initval: Word): Word {
    Add(Add(0xdead_beef, Low32(length)), initval)
  }

  /** (uint32_t) n. */
  function Low32(n: nat): Word {
    (n % 0x1_0000_0000) as Word
  }

  function Hash(key: seq<bv8>, initval: Word): Word {
    var s := Start(|key|, initval);
    if key == [] then s else Blocks(State(s, s, s), key, 0)
  }

  // ---------------------------------------------------------------- known hashes

  /** The start value is the hash of the empty key. */
  lemma HashOfNothing(initval: Word)
    ensures Hash([], initval) == 0xdead_beef + initval
  {
  }

  lemma StirsOfA()
    ensures Stir(0xdead_bef0, 0xdead_bef0, 14) == 0x9043_c855
    ensures Stir(0xdead_bf51, 0x9043_c855, 11) == 0x30ab_ca82
    ensures Stir(0xdead_bef0, 0x30ab_ca82, 25) == 0xe9a5_1cdd
    ensures Stir(0x9043_c855, 0xe9a5_1cdd, 16) == 0x5d08_eae3
    ensures Stir(0x30ab_ca82, 0x5d08_eae3, 4) == 0x9d14_722c
    ensures Stir(0xe9a5_1cdd, 0x9d14_722c, 14) == 0x5826_47ac
    ensures Stir(0x5d08_eae3, 0x5826_47ac, 24) == 0x58d6_8708
  {
  }

  lemma FinalOfA()
    ensures Final(State(0xdead_bf51, 0xdead_bef0, 0xdead_bef0)) == 0x58d6_8708
  {
    hide Stir;
    StirsOfA();
  }

  lemma SumsOfA()
    ensures Lane([0x61], 0) == 0x61 && Lane([0x61], 4) == 0 && Lane([0x61], 8) == 0
    ensures Add(0xdead_bef0, 0x61) == 0xdead_bf51 && Add(0xdead_bef0, 0) == 0xdead_bef0
  {
  }

  lemma StartOfA()
    ensures Start(1, 0) == 0xdead_bef0
  {
    hide Add, Low32;
    KnownLengths();
    StartSums();
  }

  lemma StartOfThirteen()
    ensures Start(13, 0) == 0xdead_befc
  {
    hide Add, Low32;
    KnownLengths();
    StartSums();
  }

  lemma KnownLengths()
    ensures Low32(0) == 0 && Low32(1) == 1 && Low32(13) == 13
  {
  }

  lemma StartSums()
    ensures Add(Add(0xdead_beef, 1), 0) == 0xdead_bef0 && Add(Add(0xdead_beef, 13), 0) == 0xdead_befc
  {
  }

  lemma HashOfA()
    ensures Hash([0x61], 0) == 0x58d6_8708
  {
    hide *;
    var s := State(0xdead_bef0, 0xdead_bef0, 0xdead_bef0);
    StartOfA();
    SumsOfA();
    FinalOfA();
    HashIs([0x61], 0);
    BlocksStep(s, [0x61], 0);
    AbsorbIs(s, [0x61], 0);
  }

  lemma TurnsOfThirteen()
    ensures Turn(State(0xe2b0_c0fd, 0xe6b4_c501, 0xeab8_c905), 4) == State(0xe6b4_c501, 0xd16d_8e06, 0x5c7b_67a6)
    ensures Turn(State(0xe6b4_c501, 0xd16d_8e06, 0x5c7b_67a6), 6) == State(0xd16d_8e06, 0x2de8_f5ac, 0x94e0_b4cc)
    ensures Turn(State(0xd16d_8e06, 0x2de8_f5ac, 0x94e0_b4cc), 8) == State(0x2de8_f5ac, 0xc2c9_aa78, 0xdc38_15ae)
    ensures Turn(State(0x2de8_f5ac, 0xc2c9_aa78, 0xdc38_15ae), 16) == State(0xc2c9_aa78, 0x9f01_c026, 0x441e_03c6)
    ensures Turn(State(0xc2c9_aa78, 0x9f01_c026, 0x441e_03c6), 19) == State(0x9f01_c026, 0xe31f_c3ec, 0x6099_8642)
    ensures Turn(State(0x9f01_c026, 0xe31f_c3ec, 0x6099_8642), 4) == State(0xe31f_c3ec, 0x43b9_4a2e, 0x37f0_5dc2)
  {
  }

  lemma MixOfThirteen()
    ensures Mix(State(0xe2b0_c0fd, 0xe6b4_c501, 0xeab8_c905)) == State(0xe31f_c3ec, 0x43b9_4a2e, 0x37f0_5dc2)
  {
    hide Turn;
    TurnsOfThirteen();
  }

  lemma StirsOfThirteen()
    ensures Stir(0x37f0_5dc2, 0x43b9_4a2e, 14) == 0x21bd_86fe
    ensures Stir(0xe31f_c3f9, 0x21bd_86fe, 11) == 0xd66a_53fa
    ensures Stir(0x43b9_4a2e, 0xd66a_53fa, 25) == 0xa026_452d
    ensures Stir(0x21bd_86fe, 0xa026_452d, 16) == 0x3c6e_23ad
    ensures Stir(0xd66a_53fa, 0x3c6e_23ad, 4) == 0x2322_3584
    ensures Stir(0xa026_452d, 0x2322_3584, 14) == 0xf5a3_67e1
    ensures Stir(0x3c6e_23ad, 0xf5a3_67e1, 24) == 0xe7d7_a0e5
  {
  }

  lemma FinalOfThirteen()
    ensures Final(State(0xe31f_c3f9, 0x43b9_4a2e, 0x37f0_5dc2)) == 0xe7d7_a0e5
  {
    hide Stir;
    StirsOfThirteen();
  }

  /** The bytes 1, 2, ..., 13. */
  const THIRTEEN: seq<bv8> := [1, 2, 3, 4, 5, 6, 7, 8, 9, 10, 11, 12, 13]

  lemma LanesOfThirteen()
    ensures Lane(THIRTEEN, 0) == 0x0403_0201 && Lane(THIRTEEN, 4) == 0x0807_0605
    ensures Lane(THIRTEEN, 8) == 0x0c0b_0a09 && Lane(THIRTEEN, 12) == 0x0d
    ensures Lane(THIRTEEN, 16) == 0 && Lane(THIRTEEN, 20) == 0 && |THIRTEEN| == 13
  {
  }

  lemma SumsOfThirteen()
    ensures Add(0xdead_befc, 0x0403_0201) == 0xe2b0_c0fd
    ensures Add(0xdead_befc, 0x0807_0605) == 0xe6b4_c501 && Add(0xdead_befc, 0x0c0b_0a09) == 0xeab8_c905
    ensures Add(0xe31f_c3ec, 0x0d) == 0xe31f_c3f9 && Add(0x43b9_4a2e, 0) == 0x43b9_4a2e
    ensures Add(0x37f0_5dc2, 0) == 0x37f0_5dc2
  {
  }

  /** One block is mixed, one finished. */
  lemma HashOfThirteen()
    ensures Hash(THIRTEEN, 0) == 0xe7d7_a0e5
  {
    hide *;
    var s := State(0xdead_befc, 0xdead_befc, 0xdead_befc);
    var mixed := State(0xe31f_c3ec, 0x43b9_4a2e, 0x37f0_5dc2);
    StartOfThirteen();
    LanesOfThirteen();
    SumsOfThirteen();
    MixOfThirteen();
    FinalOfThirteen();
    HashIs(THIRTEEN, 0);
    BlocksStep(s, THIRTEEN, 0);
    AbsorbIs(s, THIRTEEN, 0);
    BlocksStep(mixed, THIRTEEN, 12);
    AbsorbIs(mixed, THIRTEEN, 12);
  }

  // ---------------------------------------------------------------- reading memory

  /** A word and a half word of memory, on a little-endian machine. */
  function Read32(mem: seq<bv8>, p: nat): Word
    requires p + 4 <= |mem|
  {
    Le(mem[p], mem[p + 1], mem[p + 2], mem[p + 3])
  }

  function Read16(mem: seq<bv8>, p: nat): bv16
    requires p + 2 <= |mem|
  {
    Half(mem[p], mem[p + 1])
  }

  lemma Masked24(b0: bv8, b1: bv8, b2: bv8, b3: bv8)
    ensures Le(b0, b1, b2, b3) & 0xffffff == Le(b0, b1, b2, 0)
  {
  }

  lemma Masked16(b0: bv8, b1: bv8, b2: bv8, b3: bv8)
    ensures Le(b0, b1, b2, b3) & 0xffff == Le(b0, b1, 0, 0)
  {
  }

  lemma Masked8(b0: bv8, b1: bv8, b2: bv8, b3: bv8)
    ensures Le(b0, b1, b2, b3) & 0xff == Le(b0, 0, 0, 0)
  {
  }

  lemma AddNothing(x: Word)
    ensures Add(x, Le(0, 0, 0, 0)) == x
  {
  }

  /** A byte, moved k bits up. */
  function Up(b: bv8, k: nat): Word
    requires k < 32
  {
    (b as Word) << k
  }

  // Adding shifted bytes and half words, in the orders the three readers use.

  lemma AddAssoc(x: Word, y: Word, z: Word)
    ensures Add(Add(x, y), z) == Add(x, Add(y, z))
  {
    calc {
      Add(Add(x, y), z);
      Add(x + y, z);
      (x + y) + z;
      x + (y + z);
      Add(x, y + z);
      Add(x, Add(y, z));
    }
  }

  lemma AddComm(x: Word, y: Word)
    ensures Add(x, y) == Add(y, x)
  {
  }

  lemma AddBytesUp(x: Word, b0: bv8, b1: bv8, b2: bv8, b3: bv8)
    ensures Add(Add(Add(Add(x, b0 as Word), Up(b1, 8)), Up(b2, 16)), Up(b3, 24)) == Add(x, Le(b0, b1, b2, b3))
  {
    hide *;
    SumOfBytes(b0, b1, b2, b3);
    AddAssoc(x, b0 as Word, Up(b1, 8));
    AddAssoc(x, Add(b0 as Word, Up(b1, 8)), Up(b2, 16));
    AddAssoc(x, Add(Add(b0 as Word, Up(b1, 8)), Up(b2, 16)), Up(b3, 24));
  }

  lemma AddBytesDown(x: Word, b0: bv8, b1: bv8, b2: bv8, b3: bv8)
    ensures Add(Add(Add(Add(x, Up(b3, 24)), Up(b2, 16)), Up(b1, 8)), b0 as Word) == Add(x, Le(b0, b1, b2, b3))
  {
    hide *;
    SumOfBytes(b0, b1, b2, b3);
    AddAssoc(x, Up(b3, 24), Up(b2, 16));
    AddAssoc(x, Add(Up(b3, 24), Up(b2, 16)), Up(b1, 8));
    AddAssoc(x, Add(Add(Up(b3, 24), Up(b2, 16)), Up(b1, 8)), b0 as Word);
    AddComm(Up(b3, 24), Up(b2, 16));
    AddComm(Add(Up(b2, 16), Up(b3, 24)), Up(b1, 8));
    AddComm(Add(Up(b1, 8), Add(Up(b2, 16), Up(b3, 24))), b0 as Word);
    AddAssoc(b0 as Word, Up(b1, 8), Add(Up(b2, 16), Up(b3, 24)));
    AddAssoc(Add(b0 as Word, Up(b1, 8)), Up(b2, 16), Up(b3, 24));
  }

  lemma UpZero(x: Word, k: nat)
    requires k < 32
    ensures Add(x, Up(0, k)) == x
  {
  }

  /** Without common bits there is no carry. */
  lemma AddDisjoint(x: Word, y: Word)
    requires x & y == 0
    ensures Add(x, y) == x | y
  {
  }

  lemma SumOfBytes(b0: bv8, b1: bv8, b2: bv8, b3: bv8)
    ensures Add(Add(Add(b0 as Word, Up(b1, 8)), Up(b2, 16)), Up(b3, 24)) == Le(b0, b1, b2, b3)
  {
    hide *;
    calc {
      Add(Add(Add(b0 as Word, Up(b1, 8)), Up(b2, 16)), Up(b3, 24));
      { SecondByte(b0, b1); }
      Add(Add(Le(b0, b1, 0, 0), Up(b2, 16)), Up(b3, 24));
      { ThirdByte(b0, b1, b2); }
      Add(Le(b0, b1, b2, 0), Up(b3, 24));
      { FourthByte(b0, b1, b2, b3); }
      Le(b0, b1, b2, b3);
    }
  }

  lemma SecondByte(b0: bv8, b1: bv8)
    ensures Add(b0 as Word, Up(b1, 8)) == Le(b0, b1, 0, 0)
  {
    hide Add;
    AddDisjoint(b0 as Word, Up(b1, 8));
  }

  lemma ThirdByte(b0: bv8, b1: bv8, b2: bv8)
    ensures Add(Le(b0, b1, 0, 0), Up(b2, 16)) == Le(b0, b1, b2, 0)
  {
    hide Add;
    AddDisjoint(Le(b0, b1, 0, 0), Up(b2, 16));
  }

  lemma FourthByte(b0: bv8, b1: bv8, b2: bv8, b3: bv8)
    ensures Add(Le(b0, b1, b2, 0), Up(b3, 24)) == Le(b0, b1, b2, b3)
  {
    hide Add;
    AddDisjoint(Le(b0, b1, b2, 0), Up(b3, 24));
  }

  function Half(b0: bv8, b1: bv8): bv16 {
    (b0 as bv16) | ((b1 as bv16) << 8)
  }

  function Shift16(h: bv16): Word {
    (h as Word) << 16
  }

  lemma AddHalves(b0: bv8, b1: bv8, b2: bv8, b3: bv8)
    ensures Add(Half(b0, b1) as Word, Shift16(Half(b2, b3))) == Le(b0, b1, b2, b3)
  {
    hide Add;
    AddDisjoint(Half(b0, b1) as Word, Shift16(Half(b2, b3)));
  }

  lemma AddByteAndHalf(x: Word, b0: bv8, b1: bv8, b2: bv8)
    ensures Add(Add(x, Up(b2, 16)), Half(b0, b1) as Word) == Add(x, Le(b0, b1, b2, 0))
  {
    hide *;
    HalfAndByte(b0, b1, b2);
    AddAssoc(x, Up(b2, 16), Half(b0, b1) as Word);
    AddComm(Up(b2, 16), Half(b0, b1) as Word);
  }

  lemma HalfAndByte(b0: bv8, b1: bv8, b2: bv8)
    ensures Add(Half(b0, b1) as Word, Up(b2, 16)) == Le(b0, b1, b2, 0)
  {
    hide Add;
    AddDisjoint(Half(b0, b1) as Word, Up(b2, 16));
  }

  lemma HalfIsWord(b0: bv8, b1: bv8)
    ensures Half(b0, b1) as Word == Le(b0, b1, 0, 0)
  {
  }

  lemma ByteIsWord(b0: bv8)
    ensures b0 as Word == Le(b0, 0, 0, 0)
  {
  }

  // ---------------------------------------------------------------- the three readers

  /** The key lies in memory from address p on. */
  ghost predicate KeyAt(mem: seq<bv8>, p: nat, key: seq<bv8>) {
    p + |key| <= |mem| && mem[p..p + |key|] == key
  }

  /** The word at byte i of the key, by the number of bytes left. */
  lemma LaneInMemory(mem: seq<bv8>, p: nat, key: seq<bv8>, i: nat)
    requires KeyAt(mem, p, key)
    ensures var r, q := |key| - i, p + i;
      && (r >= 4 ==> Lane(key, i) == Le(mem[q], mem[q + 1], mem[q + 2], mem[q + 3]))
      && (r == 3 ==> Lane(key, i) == Le(mem[q], mem[q + 1], mem[q + 2], 0))
      && (r == 2 ==> Lane(key, i) == Le(mem[q], mem[q + 1], 0, 0))
      && (r == 1 ==> Lane(key, i) == Le(mem[q], 0, 0, 0))
      && (r <= 0 ==> Lane(key, i) == Le(0, 0, 0, 0))
  {
    hide Le;
    forall j: nat | j < |key| ensures key[j] == mem[p + j] {
      assert mem[p..p + |key|][j] == mem[p + j];
    }
  }

  /** What the reader of aligned words adds: whole words, and the last one masked. */
  lemma LaneAsWord(mem: seq<bv8>, p: nat, key: seq<bv8>, i: nat)
    requires KeyAt(mem, p, key) && (i < |key| ==> p + i + 4 <= |mem|)
    ensures var r, q := |key| - i, p + i;
      && (r >= 4 ==> Lane(key, i) == Read32(mem, q))
      && (r == 3 ==> Lane(key, i) == Read32(mem, q) & 0xffffff)
      && (r == 2 ==> Lane(key, i) == Read32(mem, q) & 0xffff)
      && (r == 1 ==> Lane(key, i) == Read32(mem, q) & 0xff)
      && (r <= 0 ==> Lane(key, i) == Le(0, 0, 0, 0))
  {
    hide Le, Lane;
    LaneInMemory(mem, p, key, i);
    if i < |key| {
      var q := p + i;
      Masked24(mem[q], mem[q + 1], mem[q + 2], mem[q + 3]);
      Masked16(mem[q], mem[q + 1], mem[q + 2], mem[q + 3]);
      Masked8(mem[q], mem[q + 1], mem[q + 2], mem[q + 3]);
    }
  }

  method LastWords(mem: seq<bv8>, k: nat, length: nat, a0: Word, b0: Word, c0: Word, ghost p: nat, ghost key: seq<bv8>)
    returns (a: Word, b: Word, c: Word)
    requires KeyAt(mem, p, key) && 0 < length <= 12 && length <= |key| && k == p + |key| - length && k % 4 == 0
    requires |mem| % 4 == 0
    ensures State(a, b, c) == Absorb(State(a0, b0, c0), key, |key| - length)
  {
    hide *;
    ghost var i := |key| - length;
    AbsorbIs(State(a0, b0, c0), key, i);
    KeyFits(mem, p, key);
    LaneAsWord(mem, p, key, i);
    LaneAsWord(mem, p, key, i + 4);
    LaneAsWord(mem, p, key, i + 8);
    AddNothing(b0);
    AddNothing(c0);
    a, b, c := a0, b0, c0;
    if length == 12 {
      c := Add(c, Read32(mem, k + 8)); b := Add(b, Read32(mem, k + 4)); a := Add(a, Read32(mem, k));
    } else if length == 11 {
      c := Add(c, Read32(mem, k + 8) & 0xffffff); b := Add(b, Read32(mem, k + 4)); a := Add(a, Read32(mem, k));
    } else if length == 10 {
      c := Add(c, Read32(mem, k + 8) & 0xffff); b := Add(b, Read32(mem, k + 4)); a := Add(a, Read32(mem, k));
    } else if length == 9 {
      c := Add(c, Read32(mem, k + 8) & 0xff); b := Add(b, Read32(mem, k + 4)); a := Add(a, Read32(mem, k));
    } else if length == 8 {
      b := Add(b, Read32(mem, k + 4)); a := Add(a, Read32(mem, k));
    } else if length == 7 {
      b := Add(b, Read32(mem, k + 4) & 0xffffff); a := Add(a, Read32(mem, k));
    } else if length == 6 {
      b := Add(b, Read32(mem, k + 4) & 0xffff); a := Add(a, Read32(mem, k));
    } else if length == 5 {
      b := Add(b, Read32(mem, k + 4) & 0xff); a := Add(a, Read32(mem, k));
    } else if length == 4 {
      a := Add(a, Read32(mem, k));
    } else if length == 3 {
      a := Add(a, Read32(mem, k) & 0xffffff);
    } else if length == 2 {
      a := Add(a, Read32(mem, k) & 0xffff);
    } else {
      a := Add(a, Read32(mem, k) & 0xff);
    }
  }

  lemma KeyFits(mem: seq<bv8>, p: nat, key: seq<bv8>)
    requires KeyAt(mem, p, key)
    ensures p + |key| <= |mem|
  {
  }

  lemma KeyIs(mem: seq<bv8>, p: nat, length: nat)
    requires p + length <= |mem|
    ensures KeyAt(mem, p, mem[p..p + length])
  {
  }

  lemma HashIs(key: seq<bv8>, initval: Word)
    ensures var s := Start(|key|, initval);
      Hash(key, initval) == if |key| == 0 then s else Blocks(State(s, s, s), key, 0)
  {
  }

  lemma BlocksStep(s: State, key: seq<bv8>, i: nat)
    requires i < |key|
    ensures Blocks(s, key, i) ==
      if |key| - i > 12 then Blocks(Mix(Absorb(s, key, i)), key, i + 12) else Final(Absorb(s, key, i))
  {
  }

  lemma AbsorbIs(s: State, key: seq<bv8>, i: nat)
    ensures Absorb(s, key, i) == State(Add(s.a, Lane(key, i)), Add(s.b, Lane(key, i + 4)), Add(s.c, Lane(key, i + 8)))
  {
  }

  /** A full block, by words. */
  method BlockWords(mem: seq<bv8>, k: nat, a0: Word, b0: Word, c0: Word, ghost p: nat, ghost key: seq<bv8>)
    returns (a: Word, b: Word, c: Word)
    requires KeyAt(mem, p, key) && p <= k && k + 12 <= p + |key|
    ensures State(a, b, c) == Absorb(State(a0, b0, c0), key, k - p)
  {
    hide *;
    KeyFits(mem, p, key);
    AbsorbIs(State(a0, b0, c0), key, k - p);
    LaneAsWord(mem, p, key, k - p);
    LaneAsWord(mem, p, key, k - p + 4);
    LaneAsWord(mem, p, key, k - p + 8);
    a, b, c := a0, b0, c0;
    a := Add(a, Read32(mem, k));
    b := Add(b, Read32(mem, k + 4));
    c := Add(c, Read32(mem, k + 8));
  }

  /** The reader of aligned 32-bit words. It may read up to the end of the last word, but what it finds behind the key
      does not matter. */
  method HashWords(mem: seq<bv8>, p: nat, keyLength: nat, initval: Word) returns (h: Word)
    requires p + keyLength <= |mem| && p % 4 == 0 && |mem| % 4 == 0
    ensures h == Hash(mem[p..p + keyLength], initval)
  {
    hide *;
    ghost var key := mem[p..p + keyLength];
    KeyIs(mem, p, keyLength);
    HashIs(key, initval);
    var length, k := keyLength, p;
    var a := Start(length, initval);
    var b, c := a, a;
    while length > 12
      invariant 0 <= length <= keyLength && k == p + keyLength - length && k % 4 == 0
      invariant keyLength > 0 ==> length > 0 && Hash(key, initval) == Blocks(State(a, b, c), key, k - p)
      invariant keyLength == 0 ==> c == Hash(key, initval)
    {
      BlocksStep(State(a, b, c), key, k - p);
      a, b, c := BlockWords(mem, k, a, b, c, p, key);
      a, b, c := MixInPlace(a, b, c);
      length := length - 12;
      k := k + 12;
    }
    if length == 0 {
      return c;
    }
    BlocksStep(State(a, b, c), key, k - p);
    a, b, c := LastWords(mem, k, length, a, b, c, p, key);
    h := FinalInPlace(a, b, c);
  }

  /** What the reader of half words adds. */
  lemma LaneAsHalves(mem: seq<bv8>, p: nat, key: seq<bv8>, i: nat, x: Word)
    requires KeyAt(mem, p, key)
    ensures var r, q := |key| - i, p + i;
      && (r >= 4 ==> Add(x, Lane(key, i)) == Add(x, Add(Read16(mem, q) as Word, Shift16(Read16(mem, q + 2)))))
      && (r == 3 ==> Add(x, Lane(key, i)) == Add(Add(x, Up(mem[q + 2], 16)), Read16(mem, q) as Word))
      && (r == 2 ==> Add(x, Lane(key, i)) == Add(x, Read16(mem, q) as Word))
      && (r == 1 ==> Add(x, Lane(key, i)) == Add(x, mem[q] as Word))
      && (r <= 0 ==> Add(x, Lane(key, i)) == x)
  {
    hide Le, Lane, Add, Half, Up, Shift16;
    LaneInMemory(mem, p, key, i);
    AddNothing(x);
    var r, q := |key| - i, p + i;
    if r >= 4 {
      AddHalves(mem[q], mem[q + 1], mem[q + 2], mem[q + 3]);
    } else if r == 3 {
      AddByteAndHalf(x, mem[q], mem[q + 1], mem[q + 2]);
    } else if r == 2 {
      HalfIsWord(mem[q], mem[q + 1]);
    } else if r == 1 {
      ByteIsWord(mem[q]);
    }
  }

  method LastHalves(mem: seq<bv8>, k: nat, length: nat, a0: Word, b0: Word, c0: Word, ghost p: nat, ghost key: seq<bv8>)
    returns (a: Word, b: Word, c: Word)
    requires KeyAt(mem, p, key) && 0 < length <= 12 && length <= |key| && k == p + |key| - length
    ensures State(a, b, c) == Absorb(State(a0, b0, c0), key, |key| - length)
  {
    hide *;
    ghost var i := |key| - length;
    AbsorbIs(State(a0, b0, c0), key, i);
    c := AddHalfLane(mem, k + 8, length - 8, c0, p, key, i + 8);
    b := AddHalfLane(mem, k + 4, length - 4, b0, p, key, i + 4);
    a := AddHalfLane(mem, k, length, a0, p, key, i);
  }

  /** The cases of the switch that add to one lane, with r bytes left from its start on. */
  method AddHalfLane(mem: seq<bv8>, k: nat, r: int, x: Word, ghost p: nat, ghost key: seq<bv8>, ghost i: nat)
    returns (y: Word)
    requires KeyAt(mem, p, key) && k == p + i && r == |key| - i
    ensures y == Add(x, Lane(key, i))
  {
    hide *;
    KeyFits(mem, p, key);
    LaneAsHalves(mem, p, key, i, x);
    y := x;
    if 4 <= r {
      y := Add(y, Add(Read16(mem, k) as Word, Shift16(Read16(mem, k + 2))));
    }
    if r == 3 {
      y := Add(y, Up(mem[k + 2], 16));
    }
    if 2 <= r <= 3 {
      y := Add(y, Read16(mem, k) as Word);
    }
    if r == 1 {
      y := Add(y, mem[k] as Word);
    }
  }

  /** A full block, by half words. */
  method BlockHalves(mem: seq<bv8>, k: nat, a0: Word, b0: Word, c0: Word, ghost p: nat, ghost key: seq<bv8>)
    returns (a: Word, b: Word, c: Word)
    requires KeyAt(mem, p, key) && p <= k && k + 12 <= p + |key|
    ensures State(a, b, c) == Absorb(State(a0, b0, c0), key, k - p)
  {
    hide *;
    KeyFits(mem, p, key);
    AbsorbIs(State(a0, b0, c0), key, k - p);
    LaneAsHalves(mem, p, key, k - p, a0);
    LaneAsHalves(mem, p, key, k - p + 4, b0);
    LaneAsHalves(mem, p, key, k - p + 8, c0);
    a, b, c := a0, b0, c0;
    a := Add(a, Add(Read16(mem, k) as Word, Shift16(Read16(mem, k + 2))));
    b := Add(b, Add(Read16(mem, k + 4) as Word, Shift16(Read16(mem, k + 6))));
    c := Add(c, Add(Read16(mem, k + 8) as Word, Shift16(Read16(mem, k + 10))));
  }

  /** The reader of aligned 16-bit half words. */
  method HashHalves(mem: seq<bv8>, p: nat, keyLength: nat, initval: Word) returns (h: Word)
    requires p + keyLength <= |mem|
    ensures h == Hash(mem[p..p + keyLength], initval)
  {
    hide *;
    ghost var key := mem[p..p + keyLength];
    KeyIs(mem, p, keyLength);
    HashIs(key, initval);
    var length, k := keyLength, p;
    var a := Start(length, initval);
    var b, c := a, a;
    while length > 12
      invariant 0 <= length <= keyLength && k == p + keyLength - length
      invariant keyLength > 0 ==> length > 0 && Hash(key, initval) == Blocks(State(a, b, c), key, k - p)
      invariant keyLength == 0 ==> c == Hash(key, initval)
    {
      BlocksStep(State(a, b, c), key, k - p);
      a, b, c := BlockHalves(mem, k, a, b, c, p, key);
      a, b, c := MixInPlace(a, b, c);
      length := length - 12;
      k := k + 12;
    }
    if length == 0 {
      return c;
    }
    BlocksStep(State(a, b, c), key, k - p);
    a, b, c := LastHalves(mem, k, length, a, b, c, p, key);
    h := FinalInPlace(a, b, c);
  }

  /** What the reader of bytes adds, first byte first in full blocks and last byte first in the final block. */
  lemma LaneAsBytes(mem: seq<bv8>, p: nat, key: seq<bv8>, i: nat, x: Word)
    requires KeyAt(mem, p, key)
    ensures var r, q := |key| - i, p + i;
      && (r >= 4 ==>
            && Add(x, Lane(key, i)) ==
                 Add(Add(Add(Add(x, mem[q] as Word), Up(mem[q + 1], 8)), Up(mem[q + 2], 16)), Up(mem[q + 3], 24))
            && Add(x, Lane(key, i)) ==
                 Add(Add(Add(Add(x, Up(mem[q + 3], 24)), Up(mem[q + 2], 16)), Up(mem[q + 1], 8)), mem[q] as Word))
      && (r == 3 ==> Add(x, Lane(key, i)) == Add(Add(Add(x, Up(mem[q + 2], 16)), Up(mem[q + 1], 8)), mem[q] as Word))
      && (r == 2 ==> Add(x, Lane(key, i)) == Add(Add(x, Up(mem[q + 1], 8)), mem[q] as Word))
      && (r == 1 ==> Add(x, Lane(key, i)) == Add(x, mem[q] as Word))
      && (r <= 0 ==> Add(x, Lane(key, i)) == x)
  {
    hide Le, Lane, Add, Up;
    LaneInMemory(mem, p, key, i);
    AddNothing(x);
    var r, q := |key| - i, p + i;
    if r >= 4 {
      AddBytesUp(x, mem[q], mem[q + 1], mem[q + 2], mem[q + 3]);
      AddBytesDown(x, mem[q], mem[q + 1], mem[q + 2], mem[q + 3]);
    } else if r > 0 {
      var b1, b2 := if r > 1 then mem[q + 1] else 0, if r > 2 then mem[q + 2] else 0;
      AddBytesDown(x, mem[q], b1, b2, 0);
      UpZero(x, 24);
      UpZero(x, 16);
      UpZero(x, 8);
    }
  }

  method LastBytes(mem: seq<bv8>, k: nat, length: nat, a0: Word, b0: Word, c0: Word, ghost p: nat, ghost key: seq<bv8>)
    returns (a: Word, b: Word, c: Word)
    requires KeyAt(mem, p, key) && 0 < length <= 12 && length <= |key| && k == p + |key| - length
    ensures State(a, b, c) == Absorb(State(a0, b0, c0), key, |key| - length)
  {
    hide *;
    ghost var i := |key| - length;
    AbsorbIs(State(a0, b0, c0), key, i);
    KeyFits(mem, p, key);
    LaneAsBytes(mem, p, key, i, a0);
    LaneAsBytes(mem, p, key, i + 4, b0);
    LaneAsBytes(mem, p, key, i + 8, c0);
    a, b, c := a0, b0, c0;
    if length >= 12 { c := Add(c, Up(mem[k + 11], 24)); }
    if length >= 11 { c := Add(c, Up(mem[k + 10], 16)); }
    if length >= 10 { c := Add(c, Up(mem[k + 9], 8)); }
    if length >= 9 { c := Add(c, mem[k + 8] as Word); }
    if length >= 8 { b := Add(b, Up(mem[k + 7], 24)); }
    if length >= 7 { b := Add(b, Up(mem[k + 6], 16)); }
    if length >= 6 { b := Add(b, Up(mem[k + 5], 8)); }
    if length >= 5 { b := Add(b, mem[k + 4] as Word); }
    if length >= 4 { a := Add(a, Up(mem[k + 3], 24)); }
    if length >= 3 { a := Add(a, Up(mem[k + 2], 16)); }
    if length >= 2 { a := Add(a, Up(mem[k + 1], 8)); }
    a := Add(a, mem[k] as Word);
  }

  /** A full block, by bytes. */
  method BlockBytes(mem: seq<bv8>, k: nat, a0: Word, b0: Word, c0: Word, ghost p: nat, ghost key: seq<bv8>)
    returns (a: Word, b: Word, c: Word)
    requires KeyAt(mem, p, key) && p <= k && k + 12 <= p + |key|
    ensures State(a, b, c) == Absorb(State(a0, b0, c0), key, k - p)
  {
    hide *;
    KeyFits(mem, p, key);
    AbsorbIs(State(a0, b0, c0), key, k - p);
    LaneAsBytes(mem, p, key, k - p, a0);
    LaneAsBytes(mem, p, key, k - p + 4, b0);
    LaneAsBytes(mem, p, key, k - p + 8, c0);
    a, b, c := a0, b0, c0;
    a := Add(a, mem[k] as Word);
    a := Add(a, Up(mem[k + 1], 8));
    a := Add(a, Up(mem[k + 2], 16));
    a := Add(a, Up(mem[k + 3], 24));
    b := Add(b, mem[k + 4] as Word);
    b := Add(b, Up(mem[k + 5], 8));
    b := Add(b, Up(mem[k + 6], 16));
    b := Add(b, Up(mem[k + 7], 24));
    c := Add(c, mem[k + 8] as Word);
    c := Add(c, Up(mem[k + 9], 8));
    c := Add(c, Up(mem[k + 10], 16));
    c := Add(c, Up(mem[k + 11], 24));
  }

  /** The reader of single bytes. */
  method HashBytes(mem: seq<bv8>, p: nat, keyLength: nat, initval: Word) returns (h: Word)
    requires p + keyLength <= |mem|
    ensures h == Hash(mem[p..p + keyLength], initval)
  {
    hide *;
    ghost var key := mem[p..p + keyLength];
    KeyIs(mem, p, keyLength);
    HashIs(key, initval);
    var length, k := keyLength, p;
    var a := Start(length, initval);
    var b, c := a, a;
    while length > 12
      invariant 0 <= length <= keyLength && k == p + keyLength - length
      invariant keyLength > 0 ==> length > 0 && Hash(key, initval) == Blocks(State(a, b, c), key, k - p)
      invariant keyLength == 0 ==> c == Hash(key, initval)
    {
      BlocksStep(State(a, b, c), key, k - p);
      a, b, c := BlockBytes(mem, k, a, b, c, p, key);
      a, b, c := MixInPlace(a, b, c);
      length := length - 12;
      k := k + 12;
    }
    if length == 0 {
      return c;
    }
    BlocksStep(State(a, b, c), key, k - p);
    a, b, c := LastBytes(mem, k, length, a, b, c, p, key);
    h := FinalInPlace(a, b, c);
  }

  /** hashlittle: the address decides how the key is read, and only the bytes of the key decide the hash. */
  method HashLittle(mem: seq<bv8>, key: nat, length: nat, initval: Word) returns (h: Word)
    requires key + length <= |mem| && |mem| % 4 == 0
    ensures h == Hash(mem[key..key + length], initval)
  {
    if key % 4 == 0 {
      h := HashWords(mem, key, length, initval);
    } else if key % 2 == 0 {
      h := HashHalves(mem, key, length, initval);
    } else {
      h := HashBytes(mem, key, length, initval);
    }
  }

  method FinalInPlace(a0: Word, b0: Word, c0: Word) returns (c: Word)
    ensures c == Final(State(a0, b0, c0))
  {
    hide Rot, Xor, Sub;
    var a, b := a0, b0;
    c := c0;
    c := Xor(c, b); c := Sub(c, Rot(b, 14));
    a := Xor(a, c); a := Sub(a, Rot(c, 11));
    b := Xor(b, a); b := Sub(b, Rot(a, 25));
    c := Xor(c, b); c := Sub(c, Rot(b, 16));
    a := Xor(a, c); a := Sub(a, Rot(c, 4));
    b := Xor(b, a); b := Sub(b, Rot(a, 14));
    c := Xor(c, b); c := Sub(c, Rot(b, 24));
  }

  /** Three keys and their hashes, the latter two with initval 0. */
  method KnownHashes(initval: Word) returns (empty: Word, letter: Word, thirteen: Word)
    ensures empty == 0xdead_beef + initval && letter == 0x58d6_8708 && thirteen == 0xe7d7_a0e5
  {
    hide *;
    LanesOfThirteen();
    var mem: seq<bv8> := [0x61] + THIRTEEN + [0, 0];
    empty := HashLittle(mem, 0, 0, initval);
    assert mem[0..0] == [];
    HashOfNothing(initval);
    letter := HashLittle(mem, 0, 1, 0);
    assert mem[0..1] == [0x61];
    HashOfA();
    thirteen := HashLittle(mem, 1, 13, 0);
    assert mem[1..1 + 13] == THIRTEEN;
    HashOfThirteen();
  }
}
