/** Octets, the C unsigned integer widths, and their little-endian memory image. */
module Bytes {

  datatype Option<+T> = None | Some(value: T)

  type byte = x: int | 0 <= x < 256
  type text = seq<byte>

  const U32 := 0x1_0000_0000
  const U64 := 0x1_0000_0000_0000_0000
  type u32 = x: int | 0 <= x < U32
  type u64 = x: int | 0 <= x < U64

  const NUL: byte := 0
  const DOT: byte := 46
  const SLASH: byte := 47

  function Min(a: nat, b: nat): nat { if a < b then a else b }

  lemma SliceJoin<T>(s: seq<T>, i: nat, j: nat, k: nat)
    requires i <= j <= k <= |s|
    ensures s[i..j] + s[j..k] == s[i..k]
  {
  }

  lemma SliceOfTail<T>(s: seq<T>, a: nat, n: nat)
    requires a + n <= |s|
    ensures s[a..][..n] == s[a..a + n] && s[a..][n..] == s[a + n..]
  {
  }

  lemma TakeNext<T>(s: seq<T>, i: nat)
    requires i < |s|
    ensures s[..i + 1] == s[..i] + [s[i]] && s == s[..i + 1] + s[i + 1..]
  {
  }

  lemma ConcatTail<T>(s: seq<T>, t: seq<T>)
    ensures s != [] ==> (s + t)[1..] == s[1..] + t && (s + t)[0] == s[0]
    ensures s == [] ==> s + t == t
    ensures s + [] == s
  {
  }

  lemma SamePointwise<T>(s: seq<T>, t: seq<T>)
    requires |s| == |t| && forall i :: 0 <= i < |s| ==> s[i] == t[i]
    ensures s == t
  {
  }

  lemma ConcatAssociative<T>(r: seq<T>, s: seq<T>, t: seq<T>)
    ensures r + s + t == r + (s + t)
  {
  }

  lemma SizeOfSubset<T>(a: set<T>, b: set<T>)
    requires a <= b
    ensures |a| <= |b|
  {
    assert b == a + (b - a);
  }

  /** The bytes of a string literal. */
  function Ascii(s: string): text { seq(|s|, i requires 0 <= i < |s| => s[i] as int % 256) }

  // ---- C strings -------------------------------------------------------------------

  ghost predicate NulFree(s: text) { NUL !in s }

  /** What a C function sees of a buffer: everything before its first NUL. */
  function CString(s: text): (r: text)
    ensures r <= s && NulFree(r)
    ensures |r| < |s| ==> s[|r|] == NUL
  {
    if s == [] || s[0] == NUL then [] else [s[0]] + CString(s[1..])
  }

  lemma {:induction false} CStringOfNulFree(s: text, rest: text)
    requires NulFree(s)
    ensures CString(s) == s
    ensures rest == [] || rest[0] == NUL ==> CString(s + rest) == s
  {
    if s == [] {
      assert s + rest == rest;
    } else {
      CStringOfNulFree(s[1..], rest);
      assert (s + rest)[1..] == s[1..] + rest;
    }
  }

  predicate OccursAt(s: text, i: nat, word: text) {
    i + |word| <= |s| && s[i..i + |word|] == word
  }

  /** strstr(s, word) != NULL. */
  predicate Contains(s: text, word: text) {
    exists i: nat | i <= |s| :: OccursAt(s, i, word)
  }

  lemma ContainsBehind(prefix: text, s: text, word: text)
    requires Contains(s, word)
    ensures Contains(prefix + s, word)
  {
    var i: nat :| i <= |s| && OccursAt(s, i, word);
    assert (prefix + s)[|prefix| + i..|prefix| + i + |word|] == s[i..i + |word|];
    assert OccursAt(prefix + s, |prefix| + i, word);
  }

  // ---- Little-endian integers ---------------------------------------------------------

  function Pow256(width: nat): (p: nat)
    ensures p > 0
  {
    if width == 0 then 1 else 256 * Pow256(width - 1)
  }

  function Le(n: nat, width: nat): (s: text)
    requires n < Pow256(width)
    ensures |s| == width
  {
    if width == 0 then [] else [n % 256] + Le(n / 256, width - 1)
  }

  function FromLe(s: text): (n: nat)
    ensures n < Pow256(|s|)
  {
    if s == [] then 0 else s[0] + 256 * FromLe(s[1..])
  }

  lemma {:induction false} FromLeOfLe(n: nat, width: nat)
    requires n < Pow256(width)
    ensures FromLe(Le(n, width)) == n
  {
    if width > 0 {
      FromLeOfLe(n / 256, width - 1);
      assert Le(n, width)[1..] == Le(n / 256, width - 1);
    }
  }

  lemma {:induction false} LeOfFromLe(s: text)
    ensures Le(FromLe(s), |s|) == s
  {
    if s != [] {
      LeOfFromLe(s[1..]);
      assert FromLe(s) / 256 == FromLe(s[1..]) && FromLe(s) % 256 == s[0];
    }
  }

  lemma Widths()
    ensures Pow256(4) == U32 && Pow256(8) == U64
  {
    assert Pow256(2) == 65536;
    assert Pow256(4) == 65536 * Pow256(2) by { assert Pow256(3) == 256 * Pow256(2); }
    assert Pow256(6) == 65536 * Pow256(4) by { assert Pow256(5) == 256 * Pow256(4); }
    assert Pow256(8) == 65536 * Pow256(6) by { assert Pow256(7) == 256 * Pow256(6); }
  }

  /** The four bytes of a 32-bit integer, the lowest first. */
  function Bytes32(v: u32): text { [v % 256, v / 0x100 % 256, v / 0x10000 % 256, v / 0x1000000] }

  function Bytes64(v: u64): text { Bytes32(v % U32) + Bytes32(v / U32) }

  lemma LeOf32(v: u32)
    ensures v < Pow256(4) && Le(v, 4) == Bytes32(v)
  {
    Widths();
    var a, b, c := v / 256, v / 256 / 256, v / 256 / 256 / 256;
    assert b == v / 0x10000 && c == v / 0x1000000;
    assert Le(c, 1) == [c] + Le(c / 256, 0);
    assert Le(b, 2) == [b % 256] + Le(c, 1);
    assert Le(a, 3) == [a % 256] + Le(b, 2);
  }

  lemma {:induction false} LeConcat(n: nat, m: nat, width: nat, more: nat)
    requires n < Pow256(width) && m < Pow256(more)
    ensures n + Pow256(width) * m < Pow256(width + more)
    ensures Le(n + Pow256(width) * m, width + more) == Le(n, width) + Le(m, more)
  {
    if width > 0 {
      var k, p := n / 256, Pow256(width - 1);
      LeConcat(k, m, width - 1, more);
      assert Pow256(width) == 256 * p && Pow256(width + more) == 256 * Pow256(width - 1 + more);
      hide Pow256;
      MulAssociative(256, p, m);
      LowByte(n, p * m);
      assert Le(n, width) == [n % 256] + Le(k, width - 1);
      ConcatAssociative([n % 256], Le(k, width - 1), Le(m, more));
    }
  }

  lemma MulAssociative(a: nat, b: nat, c: nat)
    ensures a * b * c == a * (b * c)
  {
  }

  lemma LowByte(n: nat, q: nat)
    ensures (n + 256 * q) / 256 == n / 256 + q && (n + 256 * q) % 256 == n % 256
  {
  }

  lemma LeOf64(v: u64)
    ensures v < Pow256(8) && Le(v, 8) == Bytes64(v)
  {
    Widths();
    hide Le, Bytes32;
    LeOf32(v % U32);
    LeOf32(v / U32);
    LeConcat(v % U32, v / U32, 4, 4);
  }

  /** A C struct without padding is the concatenation of its fields. */
  ghost predicate FieldsFit(values: seq<nat>, widths: seq<nat>) {
    |values| == |widths| && forall i :: 0 <= i < |values| ==> values[i] < Pow256(widths[i])
  }

  function Total(widths: seq<nat>): nat {
    if widths == [] then 0 else widths[0] + Total(widths[1..])
  }

  function PackFields(values: seq<nat>, widths: seq<nat>): (s: text)
    requires FieldsFit(values, widths)
    ensures |s| == Total(widths)
  {
    if widths == [] then [] else Le(values[0], widths[0]) + PackFields(values[1..], widths[1..])
  }

  function UnpackFields(s: text, widths: seq<nat>): (values: seq<nat>)
    requires |s| == Total(widths)
    ensures FieldsFit(values, widths)
  {
    if widths == [] then [] else [FromLe(s[..widths[0]])] + UnpackFields(s[widths[0]..], widths[1..])
  }

  lemma {:induction false} UnpackOfPack(values: seq<nat>, widths: seq<nat>)
    requires FieldsFit(values, widths)
    ensures UnpackFields(PackFields(values, widths), widths) == values
  {
    if widths != [] {
      var s := PackFields(values, widths);
      assert s[..widths[0]] == Le(values[0], widths[0]);
      assert s[widths[0]..] == PackFields(values[1..], widths[1..]);
      FromLeOfLe(values[0], widths[0]);
      UnpackOfPack(values[1..], widths[1..]);
    }
  }

  function Flat(parts: seq<text>): text { if parts == [] then [] else parts[0] + Flat(parts[1..]) }

  lemma {:induction false} PackIsFlat(values: seq<nat>, widths: seq<nat>, parts: seq<text>)
    requires FieldsFit(values, widths) && |parts| == |values|
    requires forall i :: 0 <= i < |values| ==> parts[i] == Le(values[i], widths[i])
    ensures PackFields(values, widths) == Flat(parts)
  {
    if widths != [] {
      PackIsFlat(values[1..], widths[1..], parts[1..]);
    }
  }

  lemma {:induction false} PackOfUnpack(s: text, widths: seq<nat>)
    requires |s| == Total(widths)
    ensures PackFields(UnpackFields(s, widths), widths) == s
  {
    if widths != [] {
      var values := UnpackFields(s, widths);
      LeOfFromLe(s[..widths[0]]);
      PackOfUnpack(s[widths[0]..], widths[1..]);
      assert values[1..] == UnpackFields(s[widths[0]..], widths[1..]);
      assert s == s[..widths[0]] + s[widths[0]..];
    }
  }
}
