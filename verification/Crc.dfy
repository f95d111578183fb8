/** CRC32C (section 12.1 of RFC 3720), and the checksum on every metadata structure. */
module Crc {
  /** The polynomial, reversed. */
  const POLY: bv32 := 0x82f6_3b78

  // ---------------------------------------------------------------------------------------
  // Words. The proofs about the register use only the lemmas of this section, not the bits.

  function Xor(a: bv32, b: bv32): bv32 {
    a ^ b
  }

  predicate Odd(c: bv32) {
    c & 1 != 0
  }

  function Half(c: bv32): bv32 {
    c >> 1
  }

  function LowByte(c: bv32): bv32 {
    c & 0xff
  }

  function Up(c: bv32): bv32 {
    c << 8
  }

  function Down(c: bv32): bv32 {
    c >> 8
  }

  /** Nothing in the top byte. */
  predicate Short(c: bv32) {
    c & 0xff00_0000 == 0
  }

  /** A byte in the low end of a word. */
  function Word(b: bv8): bv32 {
    b as bv32
  }

  lemma XorParts(x: bv32, y: bv32)
    ensures Half(Xor(x, y)) == Xor(Half(x), Half(y))
    ensures Odd(Xor(x, y)) <==> Odd(x) != Odd(y)
  {
  }

  lemma XorAssoc(p: bv32, a: bv32, b: bv32)
    ensures Xor(Xor(p, a), b) == Xor(p, Xor(a, b))
  {
  }

  lemma XorCommutes(a: bv32, b: bv32)
    ensures Xor(a, b) == Xor(b, a)
  {
  }

  lemma XorSelf(a: bv32)
    ensures Xor(a, a) == 0 && Xor(0, a) == a && Xor(a, 0) == a
  {
  }

  lemma XorCancels(p: bv32, a: bv32, b: bv32)
    ensures Xor(Xor(p, a), Xor(p, b)) == Xor(a, b)
  {
    hide Xor;
    XorCommutes(p, a);
    XorAssoc(a, p, Xor(p, b));
    XorAssoc(p, p, b);
    XorSelf(p);
    XorSelf(b);
  }

  lemma XorInterchange(a: bv32, b: bv32, c: bv32, d: bv32)
    ensures Xor(Xor(a, b), Xor(c, d)) == Xor(Xor(a, c), Xor(b, d))
  {
    hide Xor;
    XorAssoc(a, b, Xor(c, d));
    XorAssoc(b, c, d);
    XorCommutes(b, c);
    XorAssoc(c, b, d);
    XorAssoc(a, c, Xor(b, d));
  }

  lemma XorMoves(a: bv32, b: bv32, c: bv32)
    requires Xor(a, b) == c
    ensures a == Xor(b, c)
  {
  }

  lemma XorShifts(x: bv32, y: bv32)
    ensures Xor(Up(x), Up(y)) == Up(Xor(x, y))
  {
  }

  lemma XorShort(x: bv32, y: bv32)
    requires Short(x) && Short(y)
    ensures Short(Xor(x, y))
  {
  }

  lemma ShiftBack(z: bv32)
    requires Short(z)
    ensures Down(Up(z)) == z && LowByte(Up(z)) == 0
  {
  }

  lemma Halves(c: bv32)
    ensures c == Xor(LowByte(c), c & 0xffff_ff00)
    ensures Down(c & 0xffff_ff00) == Down(c) && LowByte(c & 0xffff_ff00) == 0
  {
  }

  // ---------------------------------------------------------------------------------------
  // The shift register.

  /** One step of the shift register. */
  function Bit(c: bv32): bv32 {
    if Odd(c) then Xor(POLY, Half(c)) else Half(c)
  }

  function Bits(c: bv32, k: nat): bv32 {
    if k == 0 then c else Bit(Bits(c, k - 1))
  }

  /** What a byte does to the register: eight steps. */
  function Take(c: bv32, b: bv8): bv32 {
    Bits(Xor(c, Word(b)), 8)
  }

  function Register(c: bv32, data: seq<bv8>): bv32
    decreases |data|
  {
    if data == [] then c else Take(Register(c, data[..|data| - 1]), data[|data| - 1])
  }

  lemma BitIsLinear(x: bv32, y: bv32)
    ensures Bit(Xor(x, y)) == Xor(Bit(x), Bit(y))
  {
    hide Xor, Odd, Half;
    XorParts(x, y);
    var a, b := Half(x), Half(y);
    XorCancels(POLY, a, b);
    XorAssoc(POLY, a, b);
    XorAssoc(a, POLY, b);
    XorAssoc(POLY, a, b);
    XorCommutes(a, POLY);
  }

  lemma {:induction false} BitsAreLinear(x: bv32, y: bv32, k: nat)
    ensures Bits(Xor(x, y), k) == Xor(Bits(x, k), Bits(y, k))
  {
    hide Bit, Xor;
    if k > 0 {
      BitsAreLinear(x, y, k - 1);
      BitIsLinear(Bits(x, k - 1), Bits(y, k - 1));
    }
  }

  /** A step can be taken back: its top bit says whether the polynomial was added. */
  function Back(d: bv32): bv32 {
    if d & 0x8000_0000 != 0 then ((d ^ POLY) << 1) | 1 else d << 1
  }

  lemma BitGoesBack(c: bv32)
    ensures Back(Bit(c)) == c
  {
  }

  lemma {:induction false} BitsAreInjective(x: bv32, y: bv32, k: nat)
    requires Bits(x, k) == Bits(y, k)
    ensures x == y
  {
    hide Back, Bit;
    if k > 0 {
      BitGoesBack(Bits(x, k - 1));
      BitGoesBack(Bits(y, k - 1));
      BitsAreInjective(x, y, k - 1);
    }
  }

  lemma EightOf(x: bv32)
    requires LowByte(x) == 0
    ensures Bits(x, 8) == Down(x)
  {
    assert Bits(x, 1) == x >> 1;
    assert Bits(x, 2) == x >> 2;
    assert Bits(x, 3) == x >> 3;
    assert Bits(x, 4) == x >> 4;
    assert Bits(x, 5) == x >> 5;
    assert Bits(x, 6) == x >> 6;
    assert Bits(x, 7) == x >> 7;
  }

  /** The table's entry for the low byte, and the rest shifted down, is eight steps. */
  lemma TableStep(c: bv32)
    ensures Bits(c, 8) == Xor(Bits(LowByte(c), 8), Down(c))
  {
    hide Bits, Xor, LowByte, Down;
    Halves(c);
    BitsAreLinear(LowByte(c), c & 0xffff_ff00, 8);
    EightOf(c & 0xffff_ff00);
  }

  // ---------------------------------------------------------------------------------------
  // By table.

  ghost predicate IsTable(t: array<bv32>)
    reads t
  {
    t.Length == 256 && forall i :: 0 <= i < 256 ==> t[i] == Bits(i as bv32, 8)
  }

  method Entry(i: nat) returns (c: bv32)
    requires i < 256
    ensures c == Bits(i as bv32, 8)
  {
    c := i as bv32;
    hide Odd, Half, Xor;
    for k := 0 to 8
      invariant c == Bits(i as bv32, k)
    {
      c := if Odd(c) then Xor(POLY, Half(c)) else Half(c);
    }
  }

  method Table() returns (t: array<bv32>)
    ensures fresh(t) && IsTable(t)
  {
    t := new bv32[256];
    hide Bits;
    for i := 0 to 256
      invariant forall j :: 0 <= j < i ==> t[j] == Bits(j as bv32, 8)
    {
      t[i] := Entry(i);
    }
  }

  lemma AsIndex(x: bv32)
    ensures LowByte(x) as int < 256 && (LowByte(x) as int) as bv32 == LowByte(x)
  {
    SameWord(LowByte(x));
  }

  lemma SameWord(x: bv32)
    ensures (x as int) as bv32 == x
  {
  }

  lemma ShiftsByteOut(c: bv32, b: bv8)
    ensures Down(Xor(c, Word(b))) == Down(c)
  {
  }

  lemma Next(c: bv32, data: seq<bv8>, i: nat)
    requires i < |data|
    ensures Register(c, data[..i + 1]) == Take(Register(c, data[..i]), data[i])
  {
    assert data[..i + 1][..i] == data[..i];
  }

  /** The table form is the register. */
  method Update(t: array<bv32>, c0: bv32, data: seq<bv8>) returns (c: bv32)
    requires IsTable(t)
    ensures c == Register(c0, data)
  {
    c := c0;
    for i := 0 to |data|
      invariant c == Register(c0, data[..i])
    {
      hide Bits, Register, Xor, Word, LowByte, Down;
      var x := Xor(c, Word(data[i]));
      AsIndex(x);
      TableStep(x);
      ShiftsByteOut(c, data[i]);
      Next(c0, data, i);
      c := Xor(t[LowByte(x) as int], Down(c));
    }
    assert data[..|data|] == data;
  }

  // ---------------------------------------------------------------------------------------
  // What the register forgets.

  lemma {:induction false} RegisterConcat(c: bv32, a: seq<bv8>, b: seq<bv8>)
    ensures Register(c, a + b) == Register(Register(c, a), b)
    decreases |b|
  {
    hide Take;
    if b == [] {
      assert a + b == a;
    } else {
      assert (a + b)[..|a + b| - 1] == a + b[..|b| - 1];
      RegisterConcat(c, a, b[..|b| - 1]);
    }
  }

  lemma XorInjective(a: bv32, b: bv32, p: bv32)
    requires Xor(a, p) == Xor(b, p)
    ensures a == b
  {
  }

  /** The same bytes keep different registers different. */
  lemma {:induction false} RegisterIsInjective(c: bv32, d: bv32, data: seq<bv8>)
    requires Register(c, data) == Register(d, data)
    ensures c == d
    decreases |data|
  {
    hide Bits, Xor;
    if data != [] {
      var rest, b := data[..|data| - 1], Word(data[|data| - 1]);
      BitsAreInjective(Xor(Register(c, rest), b), Xor(Register(d, rest), b), 8);
      XorInjective(Register(c, rest), Register(d, rest), b);
      RegisterIsInjective(c, d, rest);
    }
  }

  /** Up to four bytes, the first lowest. */
  function Little(w: seq<bv8>): bv32
    requires |w| <= 4
  {
    if w == [] then 0 else Xor(Word(w[0]), Up(Little(w[1..])))
  }

  lemma LittleFits(w: seq<bv8>)
    requires |w| <= 3
    ensures Short(Little(w))
  {
    if |w| == 1 {
      assert Little(w[1..]) == 0;
    } else if |w| == 2 {
      assert w[1..][1..] == [];
      assert Little(w) == Xor(Word(w[0]), Up(Word(w[1])));
    } else if |w| == 3 {
      assert w[1..][1..][1..] == [];
      assert Little(w) == Xor(Word(w[0]), Up(Xor(Word(w[1]), Up(Word(w[2])))));
    }
  }

  /** Words whose registers differ little after eight steps differed by that much, shifted. */
  lemma EightBack(p: bv32, q: bv32, x: bv32, y: bv32)
    requires Short(x) && Short(y) && Xor(Bits(p, 8), Bits(q, 8)) == Xor(x, y)
    ensures Xor(p, q) == Xor(Up(x), Up(y))
  {
    hide Bits, Xor, LowByte, Up, Down, Short;
    BitsAreLinear(p, q, 8);
    XorShifts(x, y);
    XorShort(x, y);
    ShiftBack(Xor(x, y));
    EightOf(Xor(Up(x), Up(y)));
    BitsAreInjective(Xor(p, q), Xor(Up(x), Up(y)), 8);
  }

  lemma Rearrange(c: bv32, a: bv32, d: bv32, b: bv32, x: bv32, y: bv32)
    requires Xor(Xor(c, a), Xor(d, b)) == Xor(x, y)
    ensures Xor(c, d) == Xor(Xor(a, x), Xor(b, y))
  {
    hide Xor;
    XorInterchange(c, a, d, b);
    XorInterchange(a, x, b, y);
    XorMoves(Xor(c, d), Xor(a, b), Xor(x, y));
  }

  lemma RegisterFirst(c: bv32, w: seq<bv8>)
    requires w != []
    ensures Register(c, w) == Register(Take(c, w[0]), w[1..])
  {
    assert w == [w[0]] + w[1..];
    RegisterConcat(c, [w[0]], w[1..]);
    assert [w[0]][..0] == [];
  }

  /** Up to four bytes that lead two registers to the same state make up exactly their difference. */
  lemma {:induction false} WindowIs(c: bv32, d: bv32, v: seq<bv8>, w: seq<bv8>)
    requires |v| == |w| <= 4 && Register(c, v) == Register(d, w)
    ensures Xor(c, d) == Xor(Little(v), Little(w))
    decreases |v|
  {
    if v == [] {
      XorSelf(c);
      XorSelf(0);
    } else {
      hide Bits, Xor, Register, Up, Short, Word;
      RegisterFirst(c, v);
      RegisterFirst(d, w);
      WindowIs(Take(c, v[0]), Take(d, w[0]), v[1..], w[1..]);
      LittleFits(v[1..]);
      LittleFits(w[1..]);
      var p, q := Xor(c, Word(v[0])), Xor(d, Word(w[0]));
      EightBack(p, q, Little(v[1..]), Little(w[1..]));
      Rearrange(c, Word(v[0]), d, Word(w[0]), Up(Little(v[1..])), Up(Little(w[1..])));
    }
  }

  lemma XorZero(a: bv32, b: bv32)
    requires Xor(a, b) == 0
    ensures a == b
  {
  }

  lemma FirstByte(a: bv8, b: bv8, x: bv32, y: bv32)
    requires Short(x) && Short(y)
    requires Xor(Word(a), Up(x)) == Xor(Word(b), Up(y))
    ensures a == b && x == y
  {
  }

  lemma {:induction false} LittleIsInjective(v: seq<bv8>, w: seq<bv8>)
    requires |v| == |w| <= 4 && Little(v) == Little(w)
    ensures v == w
  {
    hide Xor, Word, Up, Short;
    if v != [] {
      LittleFits(v[1..]);
      LittleFits(w[1..]);
      FirstByte(v[0], w[0], Little(v[1..]), Little(w[1..]));
      LittleIsInjective(v[1..], w[1..]);
      assert v == [v[0]] + v[1..] && w == [w[0]] + w[1..];
    }
  }

  /** From one state, no two strings of up to four bytes lead to the same one. */
  lemma WindowsDiffer(c: bv32, v: seq<bv8>, w: seq<bv8>)
    requires |v| == |w| <= 4 && Register(c, v) == Register(c, w)
    ensures v == w
  {
    hide Xor, Little, Register;
    WindowIs(c, c, v, w);
    XorSelf(c);
    XorZero(Little(v), Little(w));
    LittleIsInjective(v, w);
  }

  // ---------------------------------------------------------------------------------------
  // Checksums.

  const NOTHING: bv32 := 0xffff_ffff

  function Not(c: bv32): bv32 {
    !c
  }

  function Crc32c(data: seq<bv8>): bv32 {
    Not(Register(NOTHING, data))
  }

  const FIELD: seq<bv8> := [0, 0, 0, 0]

  /** `buf` with its checksum field read as zero. */
  function Blanked(buf: seq<bv8>, off: nat): (b: seq<bv8>)
    requires off + 4 <= |buf|
    ensures |b| == |buf| && forall i :: 0 <= i < |b| ==> b[i] == if off <= i < off + 4 then 0 else buf[i]
  {
    buf[..off] + FIELD + buf[off + 4..]
  }

  function Le32(buf: seq<bv8>, off: nat): bv32
    requires off + 4 <= |buf|
  {
    Little(buf[off..off + 4])
  }

  predicate Verifies(buf: seq<bv8>, off: nat) {
    off + 4 <= |buf| && Le32(buf, off) == Crc32c(Blanked(buf, off))
  }

  function LeBytes(c: bv32): (w: seq<bv8>)
    ensures |w| == 4
  {
    [(c & 0xff) as bv8, ((c >> 8) & 0xff) as bv8, ((c >> 16) & 0xff) as bv8, ((c >> 24) & 0xff) as bv8]
  }

  function Stamped(buf: seq<bv8>, off: nat): seq<bv8>
    requires off + 4 <= |buf|
  {
    buf[..off] + LeBytes(Crc32c(Blanked(buf, off))) + buf[off + 4..]
  }

  lemma Unpack(c: bv32, w: seq<bv8>)
    requires w == LeBytes(c)
    ensures Xor(Word(w[0]), Up(Xor(Word(w[1]), Up(Xor(Word(w[2]), Up(Word(w[3]))))))) == c
  {
  }

  lemma LittleIs(w: seq<bv8>)
    requires |w| == 4
    ensures Little(w) == Xor(Word(w[0]), Up(Xor(Word(w[1]), Up(Xor(Word(w[2]), Up(Word(w[3])))))))
  {
    hide Up, Word, Xor;
    var a, b, c := w[1..], w[1..][1..], w[1..][1..][1..];
    assert c[1..] == [] && c[0] == w[3] && b[0] == w[2] && a[0] == w[1];
    UpZero();
    XorSelf(Word(w[3]));
    assert Little(c) == Xor(Word(w[3]), Up(Little(c[1..])));
    assert Little(b) == Xor(Word(w[2]), Up(Little(c)));
    assert Little(a) == Xor(Word(w[1]), Up(Little(b)));
    assert Little(w) == Xor(Word(w[0]), Up(Little(a)));
  }

  lemma UpZero()
    ensures Up(0) == 0
  {
  }

  lemma LittleOfBytes(c: bv32)
    ensures Little(LeBytes(c)) == c
  {
    Unpack(c, LeBytes(c));
    LittleIs(LeBytes(c));
  }

  /** The checksum in three runs of the table over the buffer, the middle one over four zeroes. */
  method Cksum(t: array<bv32>, buf: seq<bv8>, off: nat) returns (c: bv32)
    requires IsTable(t) && off + 4 <= |buf|
    ensures c == Crc32c(Blanked(buf, off))
  {
    c := Update(t, NOTHING, buf[..off]);
    c := Update(t, c, FIELD);
    c := Update(t, c, buf[off + 4..]);
    hide Register;
    RegisterConcat(NOTHING, buf[..off], FIELD);
    RegisterConcat(NOTHING, buf[..off] + FIELD, buf[off + 4..]);
    c := Not(c);
  }

  lemma OneMore(was: seq<bv8>, off: nat, w: seq<bv8>, i: nat, before: seq<bv8>, after: seq<bv8>)
    requires i < |w| && off + |w| <= |was| && before == was[..off] + w[..i] + was[off + i..]
    requires after == before[off + i := w[i]]
    ensures after == was[..off] + w[..i + 1] + was[off + i + 1..]
  {
  }

  method Stamp(t: array<bv32>, buf: array<bv8>, off: nat)
    requires IsTable(t) && off + 4 <= buf.Length
    modifies buf
    ensures buf[..] == Stamped(old(buf[..]), off)
  {
    ghost var was := buf[..];
    var c := Cksum(t, buf[..], off);
    var w := LeBytes(c);
    hide Register, Bits, Crc32c, LeBytes, Blanked, IsTable;
    for i := 0 to 4
      invariant buf[..] == was[..off] + w[..i] + was[off + i..]
    {
      ghost var before := buf[..];
      buf[off + i] := w[i];
      OneMore(was, off, w, i, before, buf[..]);
    }
    assert w[..4] == w;
  }

  method Verify(t: array<bv32>, buf: seq<bv8>, off: nat) returns (ok: bool)
    requires IsTable(t)
    ensures ok == Verifies(buf, off)
  {
    if |buf| < off + 4 {
      return false;
    }
    var c := Cksum(t, buf, off);
    ok := Le32(buf, off) == c;
  }

  /** A stamped buffer verifies, and stamping changes only the field. */
  lemma StampVerifies(buf: seq<bv8>, off: nat)
    requires off + 4 <= |buf|
    ensures Verifies(Stamped(buf, off), off) && |Stamped(buf, off)| == |buf|
    ensures Blanked(Stamped(buf, off), off) == Blanked(buf, off)
  {
    hide Register, LeBytes, Little, Crc32c;
    var stamped := Stamped(buf, off);
    assert stamped[..off] == buf[..off] && stamped[off + 4..] == buf[off + 4..];
    assert stamped[off..off + 4] == LeBytes(Crc32c(Blanked(buf, off)));
    LittleOfBytes(Crc32c(Blanked(buf, off)));
  }

  /** Byte `k` of a word, from the lowest. */
  function Lane(c: bv32, k: nat): bv32
    requires k < 4
  {
    if k == 0 then c & 0xff
    else if k == 1 then (c >> 8) & 0xff
    else if k == 2 then (c >> 16) & 0xff
    else (c >> 24) & 0xff
  }

  function Widened(b: bv8): bv32 {
    b as bv32
  }

  /** Four bytes as one word: the first is the lowest. */
  lemma LowestFirst(w: seq<bv8>)
    requires |w| == 4
    ensures Lane(Little(w), 0) == Widened(w[0]) && Lane(Little(w), 1) == Widened(w[1])
    ensures Lane(Little(w), 2) == Widened(w[2]) && Lane(Little(w), 3) == Widened(w[3])
  {
    LittleIs(w);
  }

  lemma SameWords(a: bv32, b: bv32)
    ensures a == b <==> Lane(a, 0) == Lane(b, 0) && Lane(a, 1) == Lane(b, 1)
                        && Lane(a, 2) == Lane(b, 2) && Lane(a, 3) == Lane(b, 3)
  {
  }

  /** A buffer verifies exactly when its field holds its checksum, low byte first. */
  lemma VerifiesInBytes(buf: seq<bv8>, off: nat)
    ensures Verifies(buf, off) <==>
            off + 4 <= |buf| &&
            var c := Crc32c(Blanked(buf, off));
            && Lane(c, 0) == Widened(buf[off]) && Lane(c, 1) == Widened(buf[off + 1])
            && Lane(c, 2) == Widened(buf[off + 2]) && Lane(c, 3) == Widened(buf[off + 3])
  {
    hide Little, Crc32c, Blanked, Lane, Widened;
    if off + 4 <= |buf| {
      var w := buf[off..off + 4];
      assert w[0] == buf[off] && w[1] == buf[off + 1] && w[2] == buf[off + 2] && w[3] == buf[off + 3];
      LowestFirst(w);
      SameWords(Little(w), Crc32c(Blanked(buf, off)));
    }
  }

  /** What is blanked is the field and nothing else. */
  lemma BlankedInBytes(buf: seq<bv8>, off: nat)
    requires off + 4 <= |buf|
    ensures |Blanked(buf, off)| == |buf| && forall i :: 0 <= i < |buf| ==>
              Blanked(buf, off)[i] == if off <= i < off + 4 then 0 else buf[i]
  {
  }

  /** Equal but for `n` bytes from `p`. */
  ghost predicate SameOutside(a: seq<bv8>, b: seq<bv8>, p: nat, n: nat) {
    |a| == |b| && p + n <= |a| && forall i :: 0 <= i < |a| && !(p <= i < p + n) ==> a[i] == b[i]
  }

  lemma RegisterOfPieces(c: bv32, pre: seq<bv8>, v: seq<bv8>, post: seq<bv8>)
    ensures Register(c, pre + v + post) == Register(Register(Register(c, pre), v), post)
  {
    hide Register;
    RegisterConcat(c, pre, v);
    RegisterConcat(c, pre + v, post);
  }

  lemma SameRegister(a: seq<bv8>, b: seq<bv8>)
    requires Crc32c(a) == Crc32c(b)
    ensures Register(NOTHING, a) == Register(NOTHING, b)
  {
    hide Register, Not;
    Inverted(Register(NOTHING, a), Register(NOTHING, b));
  }

  lemma PiecesDiffer(pre: seq<bv8>, v: seq<bv8>, w: seq<bv8>, post: seq<bv8>)
    requires |v| == |w| <= 4 && Crc32c(pre + v + post) == Crc32c(pre + w + post)
    ensures v == w
  {
    hide Register, Crc32c;
    SameRegister(pre + v + post, pre + w + post);
    RegisterOfPieces(NOTHING, pre, v, post);
    RegisterOfPieces(NOTHING, pre, w, post);
    var c := Register(NOTHING, pre);
    RegisterIsInjective(Register(c, v), Register(c, w), post);
    WindowsDiffer(c, v, w);
  }

  /** Strings that differ only within four consecutive bytes have different checksums. */
  lemma CrcSeesWindow(a: seq<bv8>, b: seq<bv8>, p: nat, n: nat)
    requires SameOutside(a, b, p, n) && n <= 4 && a != b
    ensures Crc32c(a) != Crc32c(b)
  {
    hide Crc32c;
    assert a[..p] == b[..p] && a[p + n..] == b[p + n..];
    assert a == a[..p] + a[p..p + n] + a[p + n..] && b == a[..p] + b[p..p + n] + a[p + n..];
    if Crc32c(a) == Crc32c(b) {
      PiecesDiffer(a[..p], a[p..p + n], b[p..p + n], a[p + n..]);
    }
  }

  lemma Inverted(c: bv32, d: bv32)
    requires Not(c) == Not(d)
    ensures c == d
  {
  }

  /**
   Corrupt a buffer that verifies in up to four consecutive bytes, all outside the checksum field or
   all inside it, and it does not verify.
   */
  lemma CorruptionIsSeen(buf: seq<bv8>, bad: seq<bv8>, off: nat, p: nat, n: nat)
    requires Verifies(buf, off) && SameOutside(buf, bad, p, n) && n <= 4 && bad != buf
    requires p + n <= off || off + 4 <= p || (off <= p && p + n <= off + 4)
    ensures !Verifies(bad, off)
  {
    hide Register, Little, Crc32c, Blanked;
    if p + n <= off || off + 4 <= p {
      assert buf[off..off + 4] == bad[off..off + 4];
      BlankedDiffer(buf, bad, off, p, n);
      CrcSeesWindow(Blanked(buf, off), Blanked(bad, off), p, n);
    } else {
      assert Blanked(buf, off) == Blanked(bad, off);
      if Verifies(bad, off) {
        LittleIsInjective(buf[off..off + 4], bad[off..off + 4]);
        SameBytes(buf, bad, off);
      }
    }
  }

  lemma BlankedDiffer(a: seq<bv8>, b: seq<bv8>, off: nat, p: nat, n: nat)
    requires SameOutside(a, b, p, n) && off + 4 <= |a| && (p + n <= off || off + 4 <= p) && a != b
    ensures SameOutside(Blanked(a, off), Blanked(b, off), p, n) && Blanked(a, off) != Blanked(b, off)
  {
    hide Blanked;
    var i :| 0 <= i < |a| && a[i] != b[i];
    assert Blanked(a, off)[i] != Blanked(b, off)[i];
  }

  lemma SameBytes(a: seq<bv8>, b: seq<bv8>, off: nat)
    requires |a| == |b| && off + 4 <= |a| && a[off..off + 4] == b[off..off + 4]
    requires SameOutside(a, b, off, 4)
    ensures a == b
  {
    forall i | 0 <= i < |a|
      ensures a[i] == b[i]
    {
      if off <= i < off + 4 {
        assert a[off..off + 4][i - off] == b[off..off + 4][i - off];
      }
    }
  }

  lemma DigitSteps()
    ensures Take(0xffffffff, 0x31) == 0x6f0a661c
    ensures Take(0x6f0a661c, 0x32) == 0x8caa3b9f
    ensures Take(0x8caa3b9f, 0x33) == 0xef84d04d
    ensures Take(0xef84d04d, 0x34) == 0x9c50b11
    ensures Take(0x9c50b11, 0x35) == 0xe72edcca
    ensures Take(0xe72edcca, 0x36) == 0xbeca8e79
    ensures Take(0xbeca8e79, 0x37) == 0xedbd6815
    ensures Take(0xedbd6815, 0x38) == 0x9f787f65
    ensures Take(0x9f787f65, 0x39) == 0x1cf96d7c
  {
  }

  lemma {:induction false} RegisterRuns(data: seq<bv8>, states: seq<bv32>, n: nat)
    requires n <= |data| && |states| == |data| + 1
    requires forall i :: 0 <= i < |data| ==> states[i + 1] == Take(states[i], data[i])
    ensures Register(states[0], data[..n]) == states[n]
  {
    hide Take;
    if n > 0 {
      RegisterRuns(data, states, n - 1);
      Next(states[0], data, n - 1);
    }
  }

  /** The check value of the algorithm, of the digits one to nine. */
  lemma CheckValue()
    ensures Crc32c([0x31, 0x32, 0x33, 0x34, 0x35, 0x36, 0x37, 0x38, 0x39]) == 0xe306_9283
  {
    var digits: seq<bv8> := [0x31, 0x32, 0x33, 0x34, 0x35, 0x36, 0x37, 0x38, 0x39];
    var states: seq<bv32> := [
      0xffffffff, 0x6f0a661c, 0x8caa3b9f, 0xef84d04d, 0x9c50b11, 0xe72edcca, 0xbeca8e79, 0xedbd6815, 0x9f787f65,
      0x1cf96d7c];
    DigitSteps();
    hide Take, Register;
    RegisterRuns(digits, states, 9);
    assert digits[..9] == digits;
  }
}
