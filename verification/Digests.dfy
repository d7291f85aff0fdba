/** Digests of byte images: how they are computed, and that no change of one byte goes unseen. */
module Digests {
  import opened Words
  import opened CodeBuffer

  type Hash = bv64

  const DIGEST_OFFSET: Hash := 0xcbf2_9ce4_8422_2325

  function TimesPrime(x: Hash): Hash {
    x * 0x0000_0100_0000_01b3
  }

  function TimesFinalMix(x: Hash): Hash {
    x * 0xd6e8_feb8_6659_fd93
  }

  function Low64(n: nat): Hash {
    (n % 0x1_0000_0000_0000_0000) as Hash
  }

  function Seed(length: nat): Hash {
    DIGEST_OFFSET ^ (Low64(length) * 0x9e37_79b9_7f4a_7c15)
  }

  function Positioned(x: Hash, index: nat): Hash {
    x ^ Low64(index).RotateLeft(index % 64)
  }

  function Fold(x: Hash): Hash {
    x ^ (x >> 32)
  }

  function MixByte(hash: Hash, index: nat, byte: Byte): Hash {
    Positioned(TimesPrime(hash ^ (byte as Hash)), index)
  }

  /** The state after mixing in some bytes, each with its index. */
  function Mixed<T>(step: (T, nat, Byte) -> T, seed: T, bytes: Code): T {
    if bytes == [] then seed
    else
      var n := |bytes| - 1;
      step(Mixed(step, seed, bytes[..n]), n, bytes[n])
  }

  function MixBytes(bytes: Code): Hash {
    Mixed(MixByte, Seed(|bytes|), bytes)
  }

  function Finish(hash: Hash): Hash {
    Fold(TimesFinalMix(Fold(hash)))
  }

  /** A digest of the bytes alone; 0 stands for a missing one and never comes out. */
  function Digest(bytes: Code): (digest: Hash)
    ensures digest != 0
  {
    var hash := Finish(MixBytes(bytes));
    if hash == 0 then DIGEST_OFFSET else hash
  }

  function PrimeUndone(x: Hash): Hash {
    x * 0xce96_5057_aff6_957b
  }

  function FinalMixUndone(x: Hash): Hash {
    x * 0xcfee_444d_8b59_a89b
  }

  /** The multipliers are odd, so that multiplying by them can be undone. */
  lemma ProductsUndone(x: Hash)
    ensures PrimeUndone(x * 0x0000_0100_0000_01b3) == x && FinalMixUndone(x * 0xd6e8_feb8_6659_fd93) == x
  {
  }

  lemma TimesPrimeUndone(x: Hash)
    ensures PrimeUndone(TimesPrime(x)) == x
  {
    ProductsUndone(x);
  }

  lemma TimesFinalMixUndone(x: Hash)
    ensures FinalMixUndone(TimesFinalMix(x)) == x
  {
    ProductsUndone(x);
  }

  lemma PositionedTwice(x: Hash, index: nat)
    ensures Positioned(Positioned(x, index), index) == x
  {
    assert Positioned(x ^ Low64(index).RotateLeft(index % 64), index) == x;
  }

  lemma FoldTwice(x: Hash)
    ensures Fold(Fold(x)) == x
  {
    assert Fold(x ^ (x >> 32)) == x;
  }

  lemma MixByteUndone(h: Hash, index: nat, b: Byte)
    ensures PrimeUndone(Positioned(MixByte(h, index, b), index)) == h ^ (b as Hash)
  {
    PositionedTwice(TimesPrime(h ^ (b as Hash)), index);
    TimesPrimeUndone(h ^ (b as Hash));
  }

  lemma XorDiffers(h: Hash, g: Hash, b: Byte)
    requires h != g
    ensures h ^ (b as Hash) != g ^ (b as Hash)
  {
  }

  lemma ByteDiffers(h: Hash, b: Byte, c: Byte)
    requires b != c
    ensures h ^ (b as Hash) != h ^ (c as Hash)
  {
  }

  /** Mixing in a byte loses nothing of the hash, nor of the byte. */
  lemma MixByteInjective(h: Hash, g: Hash, index: nat, b: Byte, c: Byte)
    requires (h == g && b != c) || (h != g && b == c)
    ensures MixByte(h, index, b) != MixByte(g, index, c)
  {
    MixByteUndone(h, index, b);
    MixByteUndone(g, index, c);
    if h == g {
      ByteDiffers(h, b, c);
    } else {
      XorDiffers(h, g, b);
    }
  }

  lemma FinishInjective(h: Hash, g: Hash)
    requires Finish(h) == Finish(g)
    ensures h == g
  {
    FoldTwice(TimesFinalMix(Fold(h)));
    FoldTwice(TimesFinalMix(Fold(g)));
    TimesFinalMixUndone(Fold(h));
    TimesFinalMixUndone(Fold(g));
    FoldTwice(h);
    FoldTwice(g);
  }

  /** Neither another state nor another byte gives the same next state. */
  ghost predicate Injective<T(!new)>(step: (T, nat, Byte) -> T) {
    forall x: T, y: T, n: nat, b: Byte, c: Byte :: (x == y && b != c) || (x != y && b == c) ==>
      step(x, n, b) != step(y, n, c)
  }

  lemma {:induction false} OneByteMixed<T(!new)>(step: (T, nat, Byte) -> T, seed: T, p: Code, q: Code, k: nat)
    requires Injective(step) && k < |p| == |q| && p[k] != q[k]
    requires forall i :: 0 <= i < |p| && i != k ==> p[i] == q[i]
    ensures Mixed(step, seed, p) != Mixed(step, seed, q)
    decreases |p|
  {
    var n := |p| - 1;
    if n == k {
      assert p[..n] == q[..n];
    } else {
      OneByteMixed(step, seed, p[..n], q[..n], k);
    }
  }

  lemma StepInjective()
    ensures Injective(MixByte)
  {
    forall h: Hash, g: Hash, n: nat, b: Byte, c: Byte | (h == g && b != c) || (h != g && b == c)
      ensures MixByte(h, n, b) != MixByte(g, n, c)
    {
      MixByteInjective(h, g, n, b, c);
    }
  }

  lemma DigestsAgree(h: Hash, g: Hash, p: Hash, q: Hash)
    requires h != g && p == (if h == 0 then DIGEST_OFFSET else h) && q == (if g == 0 then DIGEST_OFFSET else g)
    ensures p == q <==> (h == 0 && g == DIGEST_OFFSET) || (h == DIGEST_OFFSET && g == 0)
  {
  }

  /** A change of one byte changes the hash of the bytes, so that two digests only agree when 0, which stands for
      no digest, was replaced in one of them. */
  lemma OneByteChangesDigest(p: Code, q: Code, k: nat)
    requires k < |p| == |q| && p[k] != q[k] && forall i :: 0 <= i < |p| && i != k ==> p[i] == q[i]
    ensures var h, g := Finish(MixBytes(p)), Finish(MixBytes(q));
            && h != g
            && (Digest(p) == Digest(q) <==> (h == 0 && g == DIGEST_OFFSET) || (h == DIGEST_OFFSET && g == 0))
  {
    StepInjective();
    OneByteMixed(MixByte, Seed(|p|), p, q, k);
    HashesDiffer(p, q);
  }

  lemma HashesDiffer(p: Code, q: Code)
    requires MixBytes(p) != MixBytes(q)
    ensures var h, g := Finish(MixBytes(p)), Finish(MixBytes(q));
            && h != g
            && (Digest(p) == Digest(q) <==> (h == 0 && g == DIGEST_OFFSET) || (h == DIGEST_OFFSET && g == 0))
  {
    var h, g := Finish(MixBytes(p)), Finish(MixBytes(q));
    if h == g {
      FinishInjective(MixBytes(p), MixBytes(q));
    }
    DigestsAgree(h, g, Digest(p), Digest(q));
  }

  lemma MixedNext<T>(step: (T, nat, Byte) -> T, seed: T, bytes: Code, n: nat)
    requires n < |bytes|
    ensures Mixed(step, seed, bytes[..n + 1]) == step(Mixed(step, seed, bytes[..n]), n, bytes[n])
  {
    assert bytes[..n + 1][..n] == bytes[..n];
  }

  method ComputeDigest(bytes: Code) returns (digest: Hash)
    ensures digest == Digest(bytes)
  {
    var hash := Seed(|bytes|);
    var index := 0;
    while index < |bytes|
      invariant 0 <= index <= |bytes| && hash == Mixed(MixByte, Seed(|bytes|), bytes[..index])
    {
      MixedNext(MixByte, Seed(|bytes|), bytes, index);
      hash := MixByte(hash, index, bytes[index]);
      index := index + 1;
    }
    assert bytes[..index] == bytes;
    hash := Finish(hash);
    digest := if hash == 0 then DIGEST_OFFSET else hash;
  }
}
