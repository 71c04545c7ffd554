/** Java's 32-bit `int` arithmetic, and the hash combiner `java.util.Objects.hash`
    that `AbstractTripleTerm.hashCode` delegates to. */
module JavaInt {

  const TwoTo31: int := 0x8000_0000
  const TwoTo32: int := 0x1_0000_0000

  /** A Java `int`: a two's-complement 32-bit integer. */
  type Int32 = x: int | -0x8000_0000 <= x < 0x8000_0000

  /** The `int` that Java's wrapping `+` and `*` produce when the exact result is `x`:
      the one 32-bit value congruent to `x` modulo 2^32. */
  function Wrap(x: int): (r: Int32)
    ensures (x - r) % TwoTo32 == 0
  {
    var r := (x + TwoTo31) % TwoTo32 - TwoTo31;
    assert x - r == TwoTo32 * ((x + TwoTo31) / TwoTo32);
    r
  }

  /** Values that already fit in an `int` are left alone. */
  lemma WrapOfInt32(x: Int32)
    ensures Wrap(x) == x
  {
  }

  /** Wrapping only depends on the residue modulo 2^32. */
  lemma WrapCongruent(x: int, y: int)
    requires (x - y) % TwoTo32 == 0
    ensures Wrap(x) == Wrap(y)
  {
    var rx, ry := Wrap(x), Wrap(y);
    var q1, q2, q3 := (x - rx) / TwoTo32, (x - y) / TwoTo32, (y - ry) / TwoTo32;
    assert x - rx == TwoTo32 * q1;
    assert x - y == TwoTo32 * q2;
    assert y - ry == TwoTo32 * q3;
    assert rx - ry == TwoTo32 * (q2 + q3 - q1);
  }

  /** One step of the hash fold may wrap early or late: `31 * r + h` gives the same `int`
      whether `r` was already wrapped or not. */
  lemma WrapStep(x: int, h: int)
    ensures Wrap(31 * Wrap(x) + h) == Wrap(31 * x + h)
  {
    var q := (x - Wrap(x)) / TwoTo32;
    assert x - Wrap(x) == TwoTo32 * q;
    assert (31 * Wrap(x) + h) - (31 * x + h) == TwoTo32 * (-31 * q);
    WrapCongruent(31 * Wrap(x) + h, 31 * x + h);
  }

  /** `Objects.hash(a1, ..., an)`, which is `Arrays.hashCode` of the argument array: start
      from 1 and fold each argument's hash in as `31 * result + hash`, in `int` arithmetic.
      `hashes` lists the arguments' hash codes in argument order (no argument is null). */
  function ObjectsHash(hashes: seq<Int32>): Int32
  {
    if hashes == [] then 1
    else Wrap(31 * ObjectsHash(hashes[..|hashes| - 1]) + hashes[|hashes| - 1])
  }

  /** The same polynomial over unbounded integers: 31^n + sum of hashes[i] * 31^(n-1-i). */
  function Horner(hashes: seq<int>): int
  {
    if hashes == [] then 1
    else 31 * Horner(hashes[..|hashes| - 1]) + hashes[|hashes| - 1]
  }

  /** Wrapping after every step is the same as wrapping the exact polynomial once. */
  lemma {:induction false} ObjectsHashIsWrappedHorner(hashes: seq<Int32>)
    ensures ObjectsHash(hashes) == Wrap(Horner(hashes))
  {
    if hashes == [] {
      WrapOfInt32(1);
    } else {
      var init, last := hashes[..|hashes| - 1], hashes[|hashes| - 1];
      ObjectsHashIsWrappedHorner(init);
      WrapStep(Horner(init), last);
    }
  }

  /** `Objects.hash(a, b, c) == ((31 + a) * 31 + b) * 31 + c` with 32-bit wrap-around. */
  lemma ObjectsHashOfThree(a: Int32, b: Int32, c: Int32)
    ensures ObjectsHash([a, b, c]) == Wrap(((31 + a) * 31 + b) * 31 + c)
  {
    ObjectsHashIsWrappedHorner([a, b, c]);
    assert [a, b, c][..2] == [a, b];
    assert [a, b][..1] == [a];
    assert [a][..0] == [];
    assert Horner([a]) == 31 + a;
    assert Horner([a, b]) == (31 + a) * 31 + b;
    assert Horner([a, b, c]) == ((31 + a) * 31 + b) * 31 + c;
  }
}
