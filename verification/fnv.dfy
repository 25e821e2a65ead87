/** 64-bit FNV-1a (src/hash.c; section 2 of draft-eastlake-fnv). */
module Fnv {
  import opened Bytes
  import opened Io

  const OFFSET_BASIS: u64 := 14695981039346656037
  const PRIME: u64 := 1099511628211
  const PRIME_INVERSE: u64 := 14886173955864302971

  // ---- One byte ------------------------------------------------------------------------

  function Pow2(width: nat): nat { if width == 0 then 1 else 2 * Pow2(width - 1) }

  /** Exclusive or of the low `width` bits, bit by bit. */
  function XorBits(a: nat, b: nat, width: nat): (r: nat)
    ensures r < Pow2(width)
  {
    if width == 0 then 0 else (if a % 2 == b % 2 then 0 else 1) + 2 * XorBits(a / 2, b / 2, width - 1)
  }

  lemma Pow2Of64()
    ensures Pow2(64) == U64
  {
    assert Pow2(8) == 256;
    assert Pow2(16) == 256 * Pow2(8);
    assert Pow2(24) == 256 * Pow2(16);
    assert Pow2(32) == 256 * Pow2(24);
    assert Pow2(40) == 256 * Pow2(32);
    assert Pow2(48) == 256 * Pow2(40);
    assert Pow2(56) == 256 * Pow2(48);
    assert Pow2(64) == 256 * Pow2(56);
  }

  lemma {:induction false} XorBitsTwice(a: nat, b: nat, width: nat)
    requires a < Pow2(width) && b < Pow2(width)
    ensures XorBits(XorBits(a, b, width), b, width) == a
    ensures XorBits(a, XorBits(a, b, width), width) == b
  {
    if width > 0 {
      var r := XorBits(a, b, width);
      assert r / 2 == XorBits(a / 2, b / 2, width - 1);
      assert r % 2 == if a % 2 == b % 2 then 0 else 1;
      XorBitsTwice(a / 2, b / 2, width - 1);
    }
  }

  /** Bit `i` of a number. */
  function Bit(n: nat, i: nat): nat
    ensures Bit(n, i) < 2
  {
    if i == 0 then n % 2 else Bit(n / 2, i - 1)
  }

  /** A bit is set in the exclusive or exactly if it is set in one of the two and not in the other. */
  lemma {:induction false} XorBitsAt(a: nat, b: nat, width: nat, i: nat)
    requires i < width
    ensures Bit(XorBits(a, b, width), i) == 1 <==> Bit(a, i) != Bit(b, i)
  {
    var r := XorBits(a, b, width);
    assert r == (if a % 2 == b % 2 then 0 else 1) + 2 * XorBits(a / 2, b / 2, width - 1);
    if i > 0 {
      assert r / 2 == XorBits(a / 2, b / 2, width - 1);
      XorBitsAt(a / 2, b / 2, width - 1, i - 1);
    }
  }

  /** Exclusive or with a number of `k` bits leaves the bits above alone. */
  lemma {:induction false} XorBitsAbove(high: nat, low: nat, b: nat, width: nat, k: nat)
    requires high < Pow2(width) && low < Pow2(k) && b < Pow2(k)
    ensures XorBits(high * Pow2(k) + low, b, width + k) == high * Pow2(k) + XorBits(low, b, k)
  {
    if k == 0 {
      XorWithZero(high, width);
      assert low == b == 0 && XorBits(low, b, k) == 0 && high * Pow2(k) == high;
    } else {
      var rest := high * Pow2(k - 1);
      assert high * Pow2(k) == 2 * rest;
      assert (2 * rest + low) / 2 == rest + low / 2 && (2 * rest + low) % 2 == low % 2;
      XorBitsAbove(high, low / 2, b / 2, width, k - 1);
    }
  }

  lemma {:induction false} XorWithZero(a: nat, width: nat)
    requires a < Pow2(width)
    ensures XorBits(a, 0, width) == a
  {
    if width > 0 {
      XorWithZero(a / 2, width - 1);
    }
  }

  /** hash ^= (uint64_t)byte. */
  function Xor(h: u64, b: byte): u64 {
    Pow2Of64();
    XorBits(h, b, 64)
  }

  function Mul(h: u64, c: u64): u64 { (h * c) % U64 }

  function Step(h: u64, b: byte): u64 { Mul(Xor(h, b), PRIME) }

  /** Undoes Step: the prime is odd, so it has an inverse modulo 2^64. */
  function Unstep(h: u64, b: byte): u64 { Xor(Mul(h, PRIME_INVERSE), b) }

  lemma XorTwice(h: u64, b: byte)
    ensures Xor(Xor(h, b), b) == h
    ensures XorBits(h, Xor(h, b), 64) == b
  {
    Pow2Of64();
    XorBitsTwice(h, b, 64);
  }

  lemma MulByInverse(h: u64, c: u64, d: u64, t: int)
    requires c * d == 1 + U64 * t
    ensures Mul(Mul(h, c), d) == h
  {
    var k := h * c / U64;
    var z := h * t - k * d;
    calc {
      Mul(h, c) * d;
      (h * c - U64 * k) * d;
      h * (c * d) - U64 * (k * d);
      h + U64 * z;
    }
    MultiplesVanish(h, z);
  }

  lemma MultiplesVanish(h: u64, z: int)
    ensures (h + U64 * z) % U64 == h
  {
  }

  /** For every byte, Step is a bijection on the 2^64 states. */
  lemma StepIsBijection(h: u64, b: byte)
    ensures Unstep(Step(h, b), b) == h
    ensures Step(Unstep(h, b), b) == h
  {
    var t := (PRIME * PRIME_INVERSE - 1) / U64;
    MulByInverse(Xor(h, b), PRIME, PRIME_INVERSE, t);
    MulByInverse(h, PRIME_INVERSE, PRIME, t);
    XorTwice(h, b);
    XorTwice(Mul(h, PRIME_INVERSE), b);
  }

  /** From one state, different bytes lead to different states. */
  lemma StepSeparatesBytes(h: u64, a: byte, b: byte)
    requires Step(h, a) == Step(h, b)
    ensures a == b
  {
    var t := (PRIME * PRIME_INVERSE - 1) / U64;
    MulByInverse(Xor(h, a), PRIME, PRIME_INVERSE, t);
    MulByInverse(Xor(h, b), PRIME, PRIME_INVERSE, t);
    XorTwice(h, a);
    XorTwice(h, b);
  }

  // ---- Strings --------------------------------------------------------------------------

  function Fold(h: u64, s: text): u64 {
    if s == [] then h else Step(Fold(h, s[..|s| - 1]), s[|s| - 1])
  }

  function Hash(s: text): u64 { Fold(OFFSET_BASIS, s) }

  /** hash ^= byte: the 56 high bits stay, and of the others exactly those set in the byte change. */
  lemma XorIsBitwise(h: u64, b: byte)
    ensures forall i :: 0 <= i < 64 ==> (Bit(Xor(h, b), i) == 1 <==> Bit(h, i) != Bit(b, i))
    ensures Xor(h, b) / 256 == h / 256 && Xor(h, 0) == h
  {
    forall i | 0 <= i < 64
      ensures Bit(Xor(h, b), i) == 1 <==> Bit(h, i) != Bit(b, i)
    {
      XorBitsAt(h, b, 64, i);
    }
    Pow2Of64();
    XorWithZero(h, 64);
    XorOfLowByte(h / 256, h % 256, b);
  }

  lemma XorOfLowByte(high: nat, low: byte, b: byte)
    requires high < 0x100_0000_0000_0000
    ensures Xor(256 * high + low, b) == 256 * high + XorBits(low, b, 8) && XorBits(low, b, 8) < 256
  {
    Pow2Of64();
    assert Pow2(8) == 256;
    assert Pow2(56) == 0x100_0000_0000_0000;
    XorBitsAbove(high, low, b, 56, 8);
  }

  lemma StepOfLowByte(high: nat, low: byte, b: byte, mixed: nat)
    requires high < 0x100_0000_0000_0000 && XorBits(low, b, 8) == mixed
    ensures 256 * high + mixed < U64 && Step(256 * high + low, b) == (256 * high + mixed) * 0x100000001b3 % U64
  {
    XorOfLowByte(high, low, b);
  }

  /** The values for no byte, for "a" and for "ab". */
  lemma Vectors()
    ensures Hash([]) == 0xcbf29ce484222325
    ensures Hash([97]) == 0xaf63dc4c8601ec8c
    ensures Hash([97, 98]) == 0x089c4407b545986a
  {
    LowBytesMixed();
    hide Step, XorBits, Fold;
    StepOfLowByte(0xcbf29ce4842223, 0x25, 97, 0x44);
    StepOfLowByte(0xaf63dc4c8601ec, 0x8c, 98, 0xee);
    FoldOfOne(OFFSET_BASIS, [], 97);
    FoldOfOne(OFFSET_BASIS, [97], 98);
    assert [] + [97] == [97] && [97] + [98] == [97, 98];
  }

  lemma FoldOfOne(h: u64, s: text, b: byte)
    ensures Fold(h, []) == h && Fold(h, s + [b]) == Step(Fold(h, s), b)
  {
    hide Step;
    assert (s + [b])[..|s|] == s;
  }

  lemma LowBytesMixed()
    ensures XorBits(0x25, 97, 8) == 0x44 && XorBits(0x8c, 98, 8) == 0xee
  {
    assert XorBits(0x2, 0x6, 4) == 0x4 && XorBits(0x8, 0x6, 4) == 0xe;
  }

  lemma {:induction false} FoldConcat(h: u64, s: text, t: text)
    ensures Fold(h, s + t) == Fold(Fold(h, s), t)
  {
    if t == [] {
      assert s + t == s;
    } else {
      FoldConcat(h, s, t[..|t| - 1]);
      assert (s + t)[..|s + t| - 1] == s + t[..|t| - 1];
    }
  }

  /** A fixed suffix maps different states to different states. */
  lemma {:induction false} FoldInjective(g: u64, h: u64, s: text)
    requires Fold(g, s) == Fold(h, s)
    ensures g == h
  {
    if s != [] {
      var init, last := s[..|s| - 1], s[|s| - 1];
      StepIsBijection(Fold(g, init), last);
      StepIsBijection(Fold(h, init), last);
      FoldInjective(g, h, init);
    }
  }

  /** Equal-length strings that differ in exactly one byte never collide. */
  lemma SingleByteCaught(s: text, i: nat, b: byte)
    requires i < |s| && s[i] != b
    ensures Hash(s[i := b]) != Hash(s)
  {
    var t := s[i := b];
    var before, after := s[..i], s[i + 1..];
    assert s == before + [s[i]] + after && t == before + [b] + after;
    FoldConcat(OFFSET_BASIS, before + [s[i]], after);
    FoldConcat(OFFSET_BASIS, before + [b], after);
    var h := Fold(OFFSET_BASIS, before);
    assert (before + [s[i]])[..i] == before && (before + [b])[..i] == before;
    if Hash(t) == Hash(s) {
      FoldInjective(Step(h, s[i]), Step(h, b), after);
      StepSeparatesBytes(h, s[i], b);
    }
  }

  // ---- The two loops --------------------------------------------------------------------

  /** The byte loop both hash functions contain. */
  method Absorb(hash0: u64, bytes: text) returns (hash: u64)
    ensures hash == Fold(hash0, bytes)
  {
    hash := hash0;
    for i := 0 to |bytes|
      invariant hash == Fold(hash0, bytes[..i])
    {
      assert bytes[..i + 1][..i] == bytes[..i];
      hash := Xor(hash, bytes[i]);
      hash := Mul(hash, PRIME);
    }
    assert bytes[..|bytes|] == bytes;
  }

  method HashBuffer(data: text) returns (hash: u64)
    ensures hash == Hash(data)
  {
    hash := Absorb(OFFSET_BASIS, data);
  }

  /** The bytes a range hash covers: from `offset` to the end, or to `offset + len` if sooner. */
  function Range(data: text, offset: nat, len: Option<nat>): text {
    var from := data[Min(offset, |data|)..];
    if len.None? then from else from[..Min(len.value, |from|)]
  }

  /** Whether the range makes the loop read past the last byte. */
  predicate RunsDry(data: text, offset: nat, len: Option<nat>) {
    len.None? || len.value > |data| - Min(offset, |data|)
  }

  /**
   * hash_fd_range on a freshly opened descriptor; `len` is None when `limited` is 0. Whatever the
   * sizes of the reads, the result is the buffer hash of the range, and 0 exactly stands in for it
   * when the seek or a read fails.
   */
  method HashFdRange(fd: Source, offset: nat, len: Option<nat>, seekable: bool) returns (hash: u64)
    requires fd.Valid() && fd.pos == 0
    modifies fd
    ensures hash == if (offset > 0 && !seekable) || (fd.broken && RunsDry(fd.data, offset, len)) then 0
                    else Hash(Range(fd.data, offset, len))
  {
    hash := OFFSET_BASIS;
    if offset > 0 {
      if !seekable {
        return 0;
      }
      fd.pos := Min(offset, |fd.data|);
    }
    var left: Option<nat> := len;
    ghost var start := fd.pos;
    while true
      invariant fd.Valid() && start == Min(offset, |fd.data|) <= fd.pos
      invariant hash == Fold(OFFSET_BASIS, fd.data[start..fd.pos])
      invariant left.Some? == len.Some?
      invariant len.Some? ==> len.value == left.value + (fd.pos - start)
      decreases |fd.data| - fd.pos, fd.hiccups
    {
      var want: nat := 8192;
      if left.Some? {
        if left.value == 0 {
          break;
        }
        want := Min(want, left.value);
      }
      ghost var mark := fd.pos;
      var r := fd.Read(want);
      if r.ReadInterrupted? {
        continue;
      }
      if r.ReadFailed? {
        return 0;
      }
      if r.bytes == [] {
        break;
      }
      FoldConcat(OFFSET_BASIS, fd.data[start..mark], r.bytes);
      SliceJoin(fd.data, start, mark, fd.pos);
      hash := Absorb(hash, r.bytes);
      if left.Some? {
        left := Some(left.value - |r.bytes|);
      }
    }
    assert fd.data[start..fd.pos] == Range(fd.data, offset, len);
  }
}
