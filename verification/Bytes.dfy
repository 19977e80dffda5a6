/** Byte strings, digests and big-endian integers, shared by every model in the project.

    SHA-256 is never interpreted: a `Hash` is an arbitrary function from byte strings to
    32-byte digests, passed in by the caller. A binding result is therefore stated as
    "the two values are equal, or this pair of inputs is a collision of the hash". */
module Bytes {

  newtype byte = b: int | 0 <= b < 256

  type Bytes = seq<byte>

  type Digest = d: seq<byte> | |d| == 32 witness seq(32, _ => 0)

  type Hash = Bytes -> Digest

  datatype Option<+T> = None | Some(value: T)

  datatype Result<+T, +E> = Ok(value: T) | Err(error: E)

  /** Two byte strings offered as evidence that a hash is broken. */
  datatype Collision = Collision(x: Bytes, y: Bytes)

  ghost predicate Collides(h: Hash, c: Collision) {
    c.x != c.y && h(c.x) == h(c.y)
  }

  // ------------------------------------------------------------------------
  // Big-endian integers
  // ------------------------------------------------------------------------

  function Pow256(width: nat): (p: nat)
    ensures p > 0
  {
    if width == 0 then 1 else 256 * Pow256(width - 1)
  }

  /** The low `width` bytes of `n`, most significant first. */
  function BigEndian(n: nat, width: nat): (s: Bytes)
    ensures |s| == width
  {
    if width == 0 then [] else BigEndian(n / 256, width - 1) + [(n % 256) as byte]
  }

  function FromBigEndian(s: Bytes): nat {
    if s == [] then 0 else 256 * FromBigEndian(s[..|s| - 1]) + s[|s| - 1] as nat
  }

  lemma {:induction false} BigEndianRoundTrip(n: nat, width: nat)
    requires n < Pow256(width)
    ensures FromBigEndian(BigEndian(n, width)) == n
  {
    if width > 0 {
      BigEndianRoundTrip(n / 256, width - 1);
      var s := BigEndian(n, width);
      assert s[..|s| - 1] == BigEndian(n / 256, width - 1);
    }
  }

  lemma {:induction false} FromBigEndianRoundTrip(s: Bytes)
    ensures FromBigEndian(s) < Pow256(|s|)
    ensures BigEndian(FromBigEndian(s), |s|) == s
  {
    if s != [] {
      FromBigEndianRoundTrip(s[..|s| - 1]);
      assert s == s[..|s| - 1] + [s[|s| - 1]];
    }
  }

  /** The first byte is the most significant. */
  lemma {:induction false} FirstByteIsMost(b: byte, s: Bytes)
    ensures FromBigEndian([b] + s) == b as nat * Pow256(|s|) + FromBigEndian(s)
  {
    if s == [] {
      assert [b] + s == [b] && [b][..0] == [];
    } else {
      var init := s[..|s| - 1];
      assert ([b] + s)[..|s|] == [b] + init;
      FirstByteIsMost(b, init);
    }
  }

  lemma BigEndianInjective(m: nat, n: nat, width: nat)
    requires m < Pow256(width) && n < Pow256(width)
    requires BigEndian(m, width) == BigEndian(n, width)
    ensures m == n
  {
    BigEndianRoundTrip(m, width);
    BigEndianRoundTrip(n, width);
  }

  lemma Pow256Of8()
    ensures Pow256(8) == 0x1_0000_0000_0000_0000
  {
    assert Pow256(4) == 0x1_0000_0000;
    assert Pow256(8) == 256 * (256 * (256 * (256 * Pow256(4))));
  }

  // ------------------------------------------------------------------------
  // Concatenation
  // ------------------------------------------------------------------------

  /** Equal concatenations whose heads have one length split into equal parts. */
  lemma SplitConcat<T>(a: seq<T>, x: seq<T>, b: seq<T>, y: seq<T>)
    requires |a| == |b|
    requires a + x == b + y
    ensures a == b && x == y
  {
    assert a == (a + x)[..|a|] && b == (b + y)[..|b|];
    assert x == (a + x)[|a|..] && y == (b + y)[|b|..];
  }
}
