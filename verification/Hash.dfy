/** Bob Jenkins' hash as mc_hash.c implements it for little-endian machines. */
module Hash {
  import B = Bytes

  type Word = bv32

  // Named, so that the laws below apply to them as they stand.
  function Add(x: Word, y: Word): Word { x + y }
  function Sub(x: Word, y: Word): Word { x - y }
  function Xor(x: Word, y: Word): Word { x ^ y }

  lemma SubAddRaw(x: Word, y: Word) ensures Sub(x + y, y) == x {}
  lemma AddSubRaw(x: Word, y: Word) ensures Add(x - y, y) == x {}
  lemma SubAdd(x: Word, y: Word) ensures Sub(Add(x, y), y) == x { SubAddRaw(x, y); }
  lemma AddSub(x: Word, y: Word) ensures Add(Sub(x, y), y) == x { AddSubRaw(x, y); }
  lemma XorXor(x: Word, y: Word) ensures Xor(Xor(x, y), y) == x {}

  /** rot */
  function Rot(x: Word, k: nat): Word
    requires 0 < k < 32
  {
    (x << k) ^ (x >> (32 - k))
  }

  // ---------- mixing ----------

  /** One line of mix: x -= z; x ^= rot(z, k); z += y. */
  function MixStep(x: Word, y: Word, z: Word, k: nat): (Word, Word)
    requires 0 < k < 32
  {
    (Xor(Sub(x, z), Rot(z, k)), Add(z, y))
  }

  /** The line read backwards. */
  function UnmixStep(x: Word, y: Word, z: Word, k: nat): (Word, Word)
    requires 0 < k < 32
  {
    var z0 := Sub(z, y);
    (Add(Xor(x, Rot(z0, k)), z0), z0)
  }

  lemma MixStepUndone(x: Word, y: Word, z: Word, k: nat)
    requires 0 < k < 32
    ensures var (x', z') := MixStep(x, y, z, k); UnmixStep(x', y, z', k) == (x, z)
  {
    SubAdd(z, y);
    XorXor(Sub(x, z), Rot(z, k));
    AddSub(x, z);
  }

  /** mix */
  function Mix(a0: Word, b0: Word, c0: Word): (Word, Word, Word) {
    var (a1, c1) := MixStep(a0, b0, c0, 4);
    var (b1, a2) := MixStep(b0, c1, a1, 6);
    var (c2, b2) := MixStep(c1, a2, b1, 8);
    var (a3, c3) := MixStep(a2, b2, c2, 16);
    var (b3, a4) := MixStep(b2, c3, a3, 19);
    var (c4, b4) := MixStep(c3, a4, b3, 4);
    (a4, b4, c4)
  }

  function Unmix(a4: Word, b4: Word, c4: Word): (Word, Word, Word) {
    var (c3, b3) := UnmixStep(c4, a4, b4, 4);
    var (b2, a3) := UnmixStep(b3, c3, a4, 19);
    var (a2, c2) := UnmixStep(a3, b2, c3, 16);
    var (c1, b1) := UnmixStep(c2, a2, b2, 8);
    var (b0, a1) := UnmixStep(b1, c1, a2, 6);
    var (a0, c0) := UnmixStep(a1, b0, c1, 4);
    (a0, b0, c0)
  }

  /** Mixing loses nothing: it can be undone. */
  lemma MixUndone(a0: Word, b0: Word, c0: Word)
    ensures var (a, b, c) := Mix(a0, b0, c0); Unmix(a, b, c) == (a0, b0, c0)
  {
    var (a1, c1) := MixStep(a0, b0, c0, 4);
    MixStepUndone(a0, b0, c0, 4);
    var (b1, a2) := MixStep(b0, c1, a1, 6);
    MixStepUndone(b0, c1, a1, 6);
    var (c2, b2) := MixStep(c1, a2, b1, 8);
    MixStepUndone(c1, a2, b1, 8);
    var (a3, c3) := MixStep(a2, b2, c2, 16);
    MixStepUndone(a2, b2, c2, 16);
    var (b3, a4) := MixStep(b2, c3, a3, 19);
    MixStepUndone(b2, c3, a3, 19);
    MixStepUndone(c3, a4, b3, 4);
  }

  /** Hence mix is injective on triples of words. */
  lemma MixInjective(a: Word, b: Word, c: Word, a': Word, b': Word, c': Word)
    requires Mix(a, b, c) == Mix(a', b', c')
    ensures (a, b, c) == (a', b', c')
  {
    MixUndone(a, b, c);
    MixUndone(a', b', c');
  }

  /** One line of final: x ^= y; x -= rot(y, k). */
  function FinalStep(x: Word, y: Word, k: nat): Word
    requires 0 < k < 32
  {
    Sub(Xor(x, y), Rot(y, k))
  }

  function UnfinalStep(x: Word, y: Word, k: nat): Word
    requires 0 < k < 32
  {
    Xor(Add(x, Rot(y, k)), y)
  }

  lemma FinalStepUndone(x: Word, y: Word, k: nat)
    requires 0 < k < 32
    ensures UnfinalStep(FinalStep(x, y, k), y, k) == x
  {
    AddSub(Xor(x, y), Rot(y, k));
    XorXor(x, y);
  }

  /** final, all three words */
  function FinalWords(a0: Word, b0: Word, c0: Word): (Word, Word, Word) {
    var c1 := FinalStep(c0, b0, 14);
    var a1 := FinalStep(a0, c1, 11);
    var b1 := FinalStep(b0, a1, 25);
    var c2 := FinalStep(c1, b1, 16);
    var a2 := FinalStep(a1, c2, 4);
    var b2 := FinalStep(b1, a2, 14);
    (a2, b2, FinalStep(c2, b2, 24))
  }

  /** final; the hash is the third word. */
  function Final(a0: Word, b0: Word, c0: Word): Word {
    FinalWords(a0, b0, c0).2
  }

  function Unfinal(a2: Word, b2: Word, c3: Word): (Word, Word, Word) {
    var c2 := UnfinalStep(c3, b2, 24);
    var b1 := UnfinalStep(b2, a2, 14);
    var a1 := UnfinalStep(a2, c2, 4);
    var c1 := UnfinalStep(c2, b1, 16);
    var b0 := UnfinalStep(b1, a1, 25);
    var a0 := UnfinalStep(a1, c1, 11);
    (a0, b0, UnfinalStep(c1, b0, 14))
  }

  /** The last mixing loses nothing either. */
  lemma FinalUndone(a0: Word, b0: Word, c0: Word)
    ensures var (a, b, c) := FinalWords(a0, b0, c0); Unfinal(a, b, c) == (a0, b0, c0)
  {
    var c1 := FinalStep(c0, b0, 14);
    FinalStepUndone(c0, b0, 14);
    var a1 := FinalStep(a0, c1, 11);
    FinalStepUndone(a0, c1, 11);
    var b1 := FinalStep(b0, a1, 25);
    FinalStepUndone(b0, a1, 25);
    var c2 := FinalStep(c1, b1, 16);
    FinalStepUndone(c1, b1, 16);
    var a2 := FinalStep(a1, c2, 4);
    FinalStepUndone(a1, c2, 4);
    var b2 := FinalStep(b1, a2, 14);
    FinalStepUndone(b1, a2, 14);
    FinalStepUndone(c2, b2, 24);
  }

  // ---------- what the hash is ----------

  /** A byte as a word. */
  function Wide(b: bv8): Word { b as Word }

  /** The byte at i, and zero beyond the end. */
  function ByteAt(s: seq<bv8>, i: nat): bv8 {
    if i < |s| then s[i] else 0
  }

  /** Four bytes as a little-endian word. */
  function Word4(b0: bv8, b1: bv8, b2: bv8, b3: bv8): Word {
    (b0 as Word) | (b1 as Word << 8) | (b2 as Word << 16) | (b3 as Word << 24)
  }

  function WordAt(s: seq<bv8>, i: nat): Word {
    Word4(ByteAt(s, i), ByteAt(s, i + 1), ByteAt(s, i + 2), ByteAt(s, i + 3))
  }

  /** The hash of the bytes still to come: whole blocks of twelve bytes while more
      than twelve are left, then one block filled up with zeros. */
  function Rest(s: seq<bv8>, a: Word, b: Word, c: Word): Word
    decreases |s|
  {
    if |s| > 12 then
      var (a', b', c') := Mix(Add(a, WordAt(s, 0)), Add(b, WordAt(s, 4)), Add(c, WordAt(s, 8)));
      Rest(s[12..], a', b', c')
    else if |s| == 0 then c
    else Final(Add(a, WordAt(s, 0)), Add(b, WordAt(s, 4)), Add(c, WordAt(s, 8)))
  }

  function Start(n: nat, initval: Word): Word {
    0xdeadbeef + (n % 0x1_0000_0000) as Word + initval
  }

  function Hash(s: seq<bv8>, initval: Word): Word {
    var i := Start(|s|, initval);
    Rest(s, i, i, i)
  }

  /** hash(key, nkey, 0), as a number. */
  function OfKey(k: B.Key): nat {
    Hash(seq(|k|, i requires 0 <= i < |k| => k[i] as bv8), 0) as nat
  }

  // ---------- sums of bytes ----------

  function Shl8(b: bv8): Word { b as Word << 8 }
  function Shl16(b: bv8): Word { b as Word << 16 }
  function Shl24(b: bv8): Word { b as Word << 24 }

  /** A little-endian half word. */
  function Half(b0: bv8, b1: bv8): Word { (b0 as Word) | (b1 as Word << 8) }

  /** A half word in the upper half. */
  function Upper(h: Word): Word { h << 16 }

  // The masks of the word-wise variant.
  function Low24(w: Word): Word { w & 0xffffff }
  function Low16(w: Word): Word { w & 0xffff }
  function Low8(w: Word): Word { w & 0xff }

  lemma AddAssocRaw(x: Word, y: Word, z: Word) ensures Add(x + y, z) == Add(x, y + z) {}

  lemma AddAssoc(x: Word, y: Word, z: Word)
    ensures Add(Add(x, y), z) == Add(x, Add(y, z))
  {
    AddAssocRaw(x, y, z);
  }

  lemma AddZero(x: Word)
    ensures Add(x, Word4(0, 0, 0, 0)) == x
  {
    assert Word4(0, 0, 0, 0) == 0;
  }

  // Bytes shifted apart do not carry into each other, so adding them is joining them.
  lemma Low1(b0: bv8) ensures Wide(b0) == Word4(b0, 0, 0, 0) {}
  lemma Low2(b0: bv8, b1: bv8) ensures Add(Shl8(b1), Word4(b0, 0, 0, 0)) == Word4(b0, b1, 0, 0) {}
  lemma Low3(b0: bv8, b1: bv8, b2: bv8) ensures Add(Shl16(b2), Word4(b0, b1, 0, 0)) == Word4(b0, b1, b2, 0) {}
  lemma Low4(b0: bv8, b1: bv8, b2: bv8, b3: bv8)
    ensures Add(Shl24(b3), Word4(b0, b1, b2, 0)) == Word4(b0, b1, b2, b3)
  {
  }
  lemma High2(b2: bv8, b3: bv8) ensures Add(Shl16(b2), Shl24(b3)) == Word4(0, 0, b2, b3) {}
  lemma High3(b1: bv8, b2: bv8, b3: bv8) ensures Add(Shl8(b1), Word4(0, 0, b2, b3)) == Word4(0, b1, b2, b3) {}
  lemma High4(b0: bv8, b1: bv8, b2: bv8, b3: bv8)
    ensures Add(Wide(b0), Word4(0, b1, b2, b3)) == Word4(b0, b1, b2, b3)
  {
  }
  lemma Halves(b0: bv8, b1: bv8, b2: bv8, b3: bv8)
    ensures Add(Half(b0, b1), Upper(Half(b2, b3))) == Word4(b0, b1, b2, b3)
  {
  }
  lemma LowHalf(b0: bv8, b1: bv8) ensures Half(b0, b1) == Word4(b0, b1, 0, 0) {}
  lemma Mask24(b0: bv8, b1: bv8, b2: bv8, b3: bv8)
    ensures Low24(Word4(b0, b1, b2, b3)) == Word4(b0, b1, b2, 0)
  {
  }
  lemma Mask16(b0: bv8, b1: bv8, b2: bv8, b3: bv8)
    ensures Low16(Word4(b0, b1, b2, b3)) == Word4(b0, b1, 0, 0)
  {
  }
  lemma Mask8(b0: bv8, b1: bv8, b2: bv8, b3: bv8)
    ensures Low8(Word4(b0, b1, b2, b3)) == Word4(b0, 0, 0, 0)
  {
  }

  // ---------- the three ways of reading a key ----------

  /** The word of which the first n bytes at k belong to the key. */
  function Part(mem: seq<bv8>, k: nat, n: int): Word
    requires k + n <= |mem|
  {
    Word4(if n > 0 then mem[k] else 0, if n > 1 then mem[k+1] else 0,
          if n > 2 then mem[k+2] else 0, if n > 3 then mem[k+3] else 0)
  }

  lemma PartIs(mem: seq<bv8>, k: nat, length: nat, i: nat)
    requires k + length <= |mem| && i <= 8
    ensures WordAt(mem[k..k+length], i) == Part(mem, k + i, length - i)
  {
    var s := mem[k..k+length];
    assert forall j :: 0 <= j < length ==> s[j] == mem[k+j];
  }

  /** A whole word, byte by byte as in the loop of the last variant. */
  method AddBytesUp(x: Word, mem: seq<bv8>, k: nat) returns (y: Word)
    requires k + 4 <= |mem|
    ensures y == Add(x, Part(mem, k, 4))
  {
    y := Add(x, Wide(mem[k]));
    y := Add(y, Shl8(mem[k+1]));
    y := Add(y, Shl16(mem[k+2]));
    y := Add(y, Shl24(mem[k+3]));
    High2(mem[k+2], mem[k+3]);
    High3(mem[k+1], mem[k+2], mem[k+3]);
    High4(mem[k], mem[k+1], mem[k+2], mem[k+3]);
    var s0, s1, s2, s3 := Wide(mem[k]), Shl8(mem[k+1]), Shl16(mem[k+2]), Shl24(mem[k+3]);
    AddAssoc(Add(Add(x, s0), s1), s2, s3);
    AddAssoc(Add(x, s0), s1, Add(s2, s3));
    AddAssoc(x, s0, Add(s1, Add(s2, s3)));
  }

  /** The n bytes of a word in the last block, falling through from the highest. */
  method AddBytes(x: Word, mem: seq<bv8>, k: nat, n: int) returns (y: Word)
    requires k + n <= |mem|
    ensures y == Add(x, Part(mem, k, n))
  {
    y := x;
    ghost var b0, b1, b2, b3 := if n > 0 then mem[k] else 0, if n > 1 then mem[k+1] else 0,
                                if n > 2 then mem[k+2] else 0, if n > 3 then mem[k+3] else 0;
    AddZero(x);
    if n > 3 {
      y := Add(y, Shl24(mem[k+3]));
    }
    if n > 2 {
      y := Add(y, Shl16(mem[k+2]));
    }
    if n > 1 {
      y := Add(y, Shl8(mem[k+1]));
    }
    if n > 0 {
      y := Add(y, Wide(mem[k]));
    }
    Descending(x, b0, b1, b2, b3);
  }

  /** What the falling through adds up to, for each number of bytes. */
  lemma Descending(x: Word, b0: bv8, b1: bv8, b2: bv8, b3: bv8)
    ensures Add(x, Wide(b0)) == Add(x, Word4(b0, 0, 0, 0))
    ensures Add(Add(x, Shl8(b1)), Wide(b0)) == Add(x, Word4(b0, b1, 0, 0))
    ensures Add(Add(Add(x, Shl16(b2)), Shl8(b1)), Wide(b0)) == Add(x, Word4(b0, b1, b2, 0))
    ensures Add(Add(Add(Add(x, Shl24(b3)), Shl16(b2)), Shl8(b1)), Wide(b0)) == Add(x, Word4(b0, b1, b2, b3))
  {
    Low1(b0);
    Low2(b0, b1);
    Low3(b0, b1, b2);
    Low4(b0, b1, b2, b3);
    AddAssoc(x, Shl8(b1), Wide(b0));
    var x2 := Add(x, Shl16(b2));
    AddAssoc(x2, Shl8(b1), Wide(b0));
    AddAssoc(x, Shl16(b2), Word4(b0, b1, 0, 0));
    var x3 := Add(x, Shl24(b3));
    var x32 := Add(x3, Shl16(b2));
    AddAssoc(x32, Shl8(b1), Wide(b0));
    AddAssoc(x3, Shl16(b2), Word4(b0, b1, 0, 0));
    AddAssoc(x, Shl24(b3), Word4(b0, b1, b2, 0));
  }

  /** A 16-bit read. */
  function Load16(mem: seq<bv8>, k: nat): Word
    requires k + 2 <= |mem|
  {
    Half(mem[k], mem[k+1])
  }

  /** The n bytes of a word in the last block, in half words. */
  method AddHalves(x: Word, mem: seq<bv8>, k: nat, n: int) returns (y: Word)
    requires k + n <= |mem|
    ensures y == Add(x, Part(mem, k, n))
  {
    if n >= 4 {
      y := Add(x, Add(Load16(mem, k), Upper(Load16(mem, k + 2))));
      Halves(mem[k], mem[k+1], mem[k+2], mem[k+3]);
    } else if n == 3 {
      y := Add(x, Shl16(mem[k+2]));
      y := Add(y, Load16(mem, k));
      LowHalf(mem[k], mem[k+1]);
      Low3(mem[k], mem[k+1], mem[k+2]);
      AddAssoc(x, Shl16(mem[k+2]), Load16(mem, k));
    } else if n == 2 {
      y := Add(x, Load16(mem, k));
      LowHalf(mem[k], mem[k+1]);
    } else if n == 1 {
      y := Add(x, Wide(mem[k]));
      Low1(mem[k]);
    } else {
      y := x;
      AddZero(x);
    }
  }

  /** A 32-bit read. */
  function Load32(mem: seq<bv8>, k: nat): Word
    requires k + 4 <= |mem|
  {
    Word4(mem[k], mem[k+1], mem[k+2], mem[k+3])
  }

  /** The n bytes of a word in the last block: read a whole word, which may reach
      beyond the key, and mask off what does not belong to it. */
  method AddWord(x: Word, mem: seq<bv8>, k: nat, n: int) returns (y: Word)
    requires k + n <= |mem| && (n > 0 ==> k + 4 <= |mem|)
    ensures y == Add(x, Part(mem, k, n))
  {
    if n >= 4 {
      y := Add(x, Load32(mem, k));
    } else if n == 3 {
      y := Add(x, Low24(Load32(mem, k)));
      Mask24(mem[k], mem[k+1], mem[k+2], mem[k+3]);
    } else if n == 2 {
      y := Add(x, Low16(Load32(mem, k)));
      Mask16(mem[k], mem[k+1], mem[k+2], mem[k+3]);
    } else if n == 1 {
      y := Add(x, Low8(Load32(mem, k)));
      Mask8(mem[k], mem[k+1], mem[k+2], mem[k+3]);
    } else {
      y := x;
      AddZero(x);
    }
  }

  datatype Path = ByWord | ByHalf | ByByte

  /** Add the n bytes of one word the way the path reads them. */
  method AddPart(path: Path, whole: bool, x: Word, mem: seq<bv8>, k: nat, n: int) returns (y: Word)
    requires k + n <= |mem| && (path.ByWord? && n > 0 ==> k + 4 <= |mem|) && (whole ==> n >= 4)
    ensures y == Add(x, Part(mem, k, n))
  {
    match path
    case ByWord => y := AddWord(x, mem, k, n);
    case ByHalf => y := AddHalves(x, mem, k, n);
    case ByByte =>
      if whole {
        y := AddBytesUp(x, mem, k);
      } else {
        y := AddBytes(x, mem, k, n);
      }
  }

  /** n rounded up to whole words. */
  function WordEnd(n: nat): (e: nat)
    ensures n <= e < n + 4
  {
    if n % 4 == 0 then n else n + 4 - n % 4
  }

  lemma WordEndStep(n: nat)
    requires n >= 12
    ensures WordEnd(n) == 12 + WordEnd(n - 12)
  {
    assert n % 4 == (n - 12) % 4;
  }

  /** Whether the memory holds what the path reads from k on. */
  predicate Room(path: Path, mem: seq<bv8>, k: nat, end: nat) {
    k <= end <= |mem| && (path.ByWord? ==> k + WordEnd(end - k) <= |mem|)
  }

  lemma RoomNext(path: Path, mem: seq<bv8>, k: nat, end: nat)
    requires Room(path, mem, k, end) && k + 12 < end
    ensures Room(path, mem, k + 12, end)
  {
    WordEndStep(end - k);
  }

  lemma TailRoom(left: nat)
    requires 0 < left <= 12
    ensures WordEnd(left) == if left > 8 then 12 else if left > 4 then 8 else 4
  {
  }

  lemma TailIs(mem: seq<bv8>, k: nat, end: nat, a: Word, b: Word, c: Word)
    requires k < end <= k + 12 && end <= |mem|
    ensures Rest(mem[k..end], a, b, c)
         == Final(Add(a, Part(mem, k, end - k)), Add(b, Part(mem, k + 4, end - k - 4)),
                  Add(c, Part(mem, k + 8, end - k - 8)))
  {
    PartIs(mem, k, end - k, 0);
    PartIs(mem, k, end - k, 4);
    PartIs(mem, k, end - k, 8);
    RestOfTail(mem[k..end], a, b, c,
               Part(mem, k, end - k), Part(mem, k + 4, end - k - 4), Part(mem, k + 8, end - k - 8));
  }

  lemma RestOfTail(s: seq<bv8>, a: Word, b: Word, c: Word, x: Word, y: Word, z: Word)
    requires 0 < |s| <= 12 && x == WordAt(s, 0) && y == WordAt(s, 4) && z == WordAt(s, 8)
    ensures Rest(s, a, b, c) == Final(Add(a, x), Add(b, y), Add(c, z))
  {
  }

  /** The switch on what is left of the key. */
  method HashTail(path: Path, mem: seq<bv8>, k: nat, end: nat, a: Word, b: Word, c: Word) returns (r: Word)
    requires Room(path, mem, k, end) && end <= k + 12
    ensures r == Rest(mem[k..end], a, b, c)
  {
    var left := end - k;
    if left == 0 {
      return c;
    }
    TailRoom(left);
    TailIs(mem, k, end, a, b, c);
    var c' := AddPart(path, false, c, mem, k + 8, left - 8);
    var b' := AddPart(path, false, b, mem, k + 4, left - 4);
    var a' := AddPart(path, false, a, mem, k, left);
    return Final(a', b', c');
  }

  /** A block of twelve bytes, of which more follow. */
  method HashBlock(path: Path, mem: seq<bv8>, k: nat, ghost end: nat, a: Word, b: Word, c: Word, ghost goal: Word)
      returns (a': Word, b': Word, c': Word)
    requires k + 12 < end <= |mem| && Rest(mem[k..end], a, b, c) == goal
    ensures Rest(mem[k+12..end], a', b', c') == goal
  {
    BlockStep(mem, k, end - k, a, b, c);
    a' := AddPart(path, true, a, mem, k, 4);
    b' := AddPart(path, true, b, mem, k + 4, 4);
    c' := AddPart(path, true, c, mem, k + 8, 4);
    var m := Mix(a', b', c');
    a', b', c' := m.0, m.1, m.2;
  }

  /** Whole blocks, then the rest of the key. */
  method HashRest(path: Path, mem: seq<bv8>, at: nat, end: nat, a0: Word, b0: Word, c0: Word) returns (r: Word)
    requires Room(path, mem, at, end)
    ensures r == Rest(mem[at..end], a0, b0, c0)
  {
    var a, b, c := a0, b0, c0;
    ghost var goal := Rest(mem[at..end], a0, b0, c0);
    var k := at;
    while end - k > 12
      invariant Room(path, mem, k, end) && Rest(mem[k..end], a, b, c) == goal
      decreases end - k
    {
      RoomNext(path, mem, k, end);
      a, b, c := HashBlock(path, mem, k, end, a, b, c, goal);
      k := k + 12;
    }
    r := HashTail(path, mem, k, end, a, b, c);
  }

  /** One of the three variants.  The key lies at mem[at..at+length]; reading it by
      words needs the memory to reach to the end of the last word. */
  method HashBy(path: Path, mem: seq<bv8>, at: nat, length: nat, initval: Word) returns (r: Word)
    requires at + length <= |mem|
    requires path.ByWord? ==> at + WordEnd(length) <= |mem|
    ensures r == Hash(mem[at..at+length], initval)
  {
    var i := Start(length, initval);
    r := HashRest(path, mem, at, at + length, i, i, i);
  }

  lemma BlockStep(mem: seq<bv8>, k: nat, left: nat, a: Word, b: Word, c: Word)
    requires 12 < left && k + left <= |mem|
    ensures var (a', b', c') := Mix(Add(a, Part(mem, k, 4)), Add(b, Part(mem, k + 4, 4)), Add(c, Part(mem, k + 8, 4)));
            Rest(mem[k..k+left], a, b, c) == Rest(mem[k+12..k+left], a', b', c')
  {
    PartIs(mem, k, left, 0);
    PartIs(mem, k, left, 4);
    PartIs(mem, k, left, 8);
    assert mem[k..k+left][12..] == mem[k+12..k+left];
  }

  /** hash: the variant depends on how the key is aligned, the result does not. */
  method HashAt(mem: seq<bv8>, at: nat, length: nat, initval: Word) returns (r: Word)
    requires at + WordEnd(length) <= |mem|
    ensures r == Hash(mem[at..at+length], initval)
  {
    if at % 4 == 0 {
      r := HashBy(ByWord, mem, at, length, initval);
    } else if at % 2 == 0 {
      r := HashBy(ByHalf, mem, at, length, initval);
    } else {
      r := HashBy(ByByte, mem, at, length, initval);
    }
  }

  // ---------- a known value ----------

  /** "Four score and seven years ago" */
  function Sample1(): seq<bv8> { [70, 111, 117, 114, 32, 115, 99, 111, 114, 101, 32, 97] }
  function Sample2(): seq<bv8> { [110, 100, 32, 115, 101, 118, 101, 110, 32, 121, 101, 97] }
  function Sample3(): seq<bv8> { [114, 115, 32, 97, 103, 111] }

  ghost predicate Spells(s: seq<bv8>, i: nat, a: Word, b: Word, c: Word) {
    WordAt(s, i) == a && WordAt(s, i + 4) == b && WordAt(s, i + 8) == c
  }

  lemma Spells1()
    ensures Spells(Sample1(), 0, 0x72756f46, 0x6f637320, 0x61206572)
  {
  }

  lemma Spells2()
    ensures Spells(Sample2(), 0, 0x7320646e, 0x6e657665, 0x61657920)
  {
  }

  lemma Spells3()
    ensures Spells(Sample3(), 0, 0x61207372, 0x00006f67, 0x00000000)
  {
  }

  lemma Round1()
    ensures Mix(0x51232e53, 0x4e11322d, 0x3fce247f) == (0xf859ad7a, 0x04bc57ae, 0x40dddd7e)
  {
    assert MixStep(0x51232e53, 0x4e11322d, 0x3fce247f, 4) == (0xedb74e27, 0x8ddf56ac);
    assert MixStep(0x4e11322d, 0x8ddf56ac, 0xedb74e27, 6) == (0x0d8a6dfd, 0x7b96a4d3);
    assert MixStep(0x8ddf56ac, 0x7b96a4d3, 0x0d8a6dfd, 8) == (0x0a3915a2, 0x892112d0);
    assert MixStep(0x7b96a4d3, 0x892112d0, 0x0a3915a2, 16) == (0x64ff8508, 0x935a2872);
    assert MixStep(0x892112d0, 0x935a2872, 0x64ff8508, 19) == (0x0c62aa34, 0xf859ad7a);
    assert MixStep(0x935a2872, 0xf859ad7a, 0x0c62aa34, 4) == (0x40dddd7e, 0x04bc57ae);
  }

  lemma Round2()
    ensures Mix(0x6b7a11e8, 0x7321ce13, 0xa243569e) == (0x336aded2, 0x059f2642, 0xbd02ebd5)
  {
    assert MixStep(0x6b7a11e8, 0x7321ce13, 0xa243569e, 4) == (0xed03d2a0, 0x156524b1);
    assert MixStep(0x7321ce13, 0x156524b1, 0xed03d2a0, 6) == (0xc6e95348, 0x0268f751);
    assert MixStep(0x156524b1, 0x0268f751, 0xc6e95348, 8) == (0xa72899af, 0xc9524a99);
    assert MixStep(0x0268f751, 0xc9524a99, 0xa72899af, 16) == (0xc2effa8a, 0x707ae448);
    assert MixStep(0xc9524a99, 0x707ae448, 0xc2effa8a, 19) == (0xd2344770, 0x336aded2);
    assert MixStep(0x707ae448, 0x336aded2, 0xd2344770, 4) == (0xbd02ebd5, 0x059f2642);
  }

  lemma Round3()
    ensures FinalWords(0x948b5244, 0x059f95a9, 0xbd02ebd5) == (0x9a837816, 0xce7226e6, 0x17770551)
  {
    assert FinalStep(0xbd02ebd5, 0x059f95a9, 14) == 0xd3333d15;
    assert FinalStep(0x948b5244, 0xd3333d15, 11) == 0xadcfc0b8;
    assert FinalStep(0x059f95a9, 0xadcfc0b8, 25) == 0x36f4b590;
    assert FinalStep(0xd3333d15, 0x36f4b590, 16) == 0x30375191;
    assert FinalStep(0xadcfc0b8, 0x30375191, 4) == 0x9a837816;
    assert FinalStep(0x36f4b590, 0x9a837816, 14) == 0xce7226e6;
    assert FinalStep(0x30375191, 0xce7226e6, 24) == 0x17770551;
  }

  lemma LastPart()
    ensures Rest(Sample3(), 0x336aded2, 0x059f2642, 0xbd02ebd5) == 0x17770551
  {
    Spells3();
    Round3();
  }

  lemma MiddlePart()
    ensures Rest(Sample2() + Sample3(), 0xf859ad7a, 0x04bc57ae, 0x40dddd7e) == 0x17770551
  {
    var s := Sample2() + Sample3();
    Spells2();
    Round2();
    assert Spells(s, 0, 0x7320646e, 0x6e657665, 0x61657920);
    assert s[12..] == Sample3();
    LastPart();
  }

  /** The hash of "Four score and seven years ago" is the one that the function's author
      gives for it. */
  lemma KnownValue()
    ensures Hash(Sample1() + (Sample2() + Sample3()), 0) == 0x17770551
  {
    var s := Sample1() + (Sample2() + Sample3());
    assert |s| == 30 && Start(30, 0) == 0xdeadbf0d;
    Spells1();
    Round1();
    assert Spells(s, 0, 0x72756f46, 0x6f637320, 0x61206572);
    assert s[12..] == Sample2() + Sample3();
    MiddlePart();
  }
}
