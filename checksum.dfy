/** The single-byte checksum of a Z-Wave serial data frame.
    A frame body of `len` bytes ends in a checksum byte that must equal the
    XOR of every byte before it, folded from left to right starting at
    `0xFF ^ len` (examples/listen.rs:44-48). */
module Checksum {

  /** Bitwise exclusive or of two bytes, Rust's `^` on `u8`. */
  function Xor(a: bv8, b: bv8): bv8 {
    a ^ b
  }

  /** Left fold of XOR over `s`, starting at `acc`: the shape of
      `iter().fold(acc, |acc, byte| acc ^ byte)`. */
  function XorFold(acc: bv8, s: seq<bv8>): bv8
    decreases |s|
  {
    if |s| == 0 then acc else XorFold(Xor(acc, s[0]), s[1..])
  }

  /** Reference definition: the XOR of all bytes of `s`, built from the right end. */
  function XorAll(s: seq<bv8>): bv8
    decreases |s|
  {
    if |s| == 0 then 0 else Xor(XorAll(s[..|s| - 1]), s[|s| - 1])
  }

  /** The fold's starting value, `0xff ^ buf.len() as u8`; the cast keeps only
      the low eight bits of the length. */
  function Seed(len: nat): bv8 {
    Xor(0xFF, (len % 256) as bv8)
  }

  /** The checksum a body of `len` bytes must end in, given the bytes before it. */
  function Compute(len: nat, s: seq<bv8>): bv8 {
    XorFold(Seed(len), s)
  }

  /** XOR of one further byte: folding `s + [b]` is folding `s`, then XOR with `b`. */
  lemma {:induction false} XorFoldAppend(acc: bv8, s: seq<bv8>, b: bv8)
    ensures XorFold(acc, s + [b]) == Xor(XorFold(acc, s), b)
    decreases |s|
  {
    var t := s + [b];
    if |s| == 0 {
      assert t == [b];
      assert t[1..] == [];
    } else {
      assert t[1..] == s[1..] + [b];
      XorFoldAppend(Xor(acc, s[0]), s[1..], b);
    }
  }

  /** The left fold agrees with the reference definition: it is the seed XOR the
      XOR of all bytes. */
  lemma {:induction false} XorFoldIsSeedXorAll(acc: bv8, s: seq<bv8>)
    ensures XorFold(acc, s) == Xor(acc, XorAll(s))
    decreases |s|
  {
    if |s| != 0 {
      var init, last := s[..|s| - 1], s[|s| - 1];
      assert s == init + [last];
      XorFoldAppend(acc, init, last);
      XorFoldIsSeedXorAll(acc, init);
      XorAssociative(acc, XorAll(init), last);
    }
  }

  /** Replacing the byte at `i` by `b` changes the fold by exactly `s[i] ^ b`. */
  lemma {:induction false} XorFoldUpdate(acc: bv8, s: seq<bv8>, i: nat, b: bv8)
    requires i < |s|
    ensures XorFold(acc, s[i := b]) == Xor(XorFold(acc, s), Xor(s[i], b))
    decreases |s|
  {
    var t := s[i := b];
    if i == 0 {
      assert t[1..] == s[1..];
      XorFoldIsSeedXorAll(Xor(acc, b), s[1..]);
      XorFoldIsSeedXorAll(Xor(acc, s[0]), s[1..]);
      XorShift(acc, s[0], b, XorAll(s[1..]));
    } else {
      assert t[1..] == s[1..][i - 1 := b];
      XorFoldUpdate(Xor(acc, s[0]), s[1..], i - 1, b);
    }
  }

  /** A single changed byte always changes the checksum. */
  lemma SingleByteChangeChangesChecksum(len: nat, s: seq<bv8>, i: nat, b: bv8)
    requires i < |s| && b != s[i]
    ensures Compute(len, s[i := b]) != Compute(len, s)
  {
    XorFoldUpdate(Seed(len), s, i, b);
  }

  /** Regrouping a chain of XORs. */
  lemma XorAssociative(a: bv8, b: bv8, c: bv8)
    ensures Xor(Xor(a, b), c) == Xor(a, Xor(b, c))
  {
  }

  /** Swapping one byte `x` for `b` inside a chain of XORs is an XOR with `x ^ b`. */
  lemma XorShift(a: bv8, x: bv8, b: bv8, r: bv8)
    ensures Xor(Xor(a, b), r) == Xor(Xor(Xor(a, x), r), Xor(x, b))
  {
  }
}
