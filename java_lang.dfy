/**
 * The pieces of the Java platform that the Cyclic bean leans on: 32-bit `int`
 * arithmetic with wrap-around, `String` values that may be `null`,
 * `String.hashCode`, null-safe string equality (`Objects.equals` on two
 * strings) and the two-argument `Objects.hash`.
 */
module JavaLang {

  const TWO_31: int := 0x8000_0000
  const TWO_32: int := 0x1_0000_0000

  /** Java's `int`. */
  newtype int32 = x: int | -0x8000_0000 <= x < 0x8000_0000

  /** Java's `char`: one UTF-16 code unit. */
  newtype CodeUnit = x: int | 0 <= x < 0x1_0000

  /** A `String` reference: `null`, or a string given by its UTF-16 code units. */
  datatype StringRef = Null | Str(units: seq<CodeUnit>)

  /** A call that either returns a value or throws `NullPointerException`. */
  datatype Outcome<T> = Returned(value: T) | NullPointerException

  /** Two's-complement truncation of an exact integer to 32 bits, as every `int` operation in Java does. */
  function Wrap(x: int): (r: int32)
    ensures -TWO_31 <= x < TWO_31 ==> r as int == x
    ensures (x - r as int) % TWO_32 == 0
  {
    var m := (x + TWO_31) % TWO_32;
    assert x + TWO_31 == TWO_32 * ((x + TWO_31) / TWO_32) + m;
    (m - TWO_31) as int32
  }

  /** Integers that agree modulo 2^32 wrap to the same `int`. */
  lemma WrapCongruent(x: int, y: int)
    requires (x - y) % TWO_32 == 0
    ensures Wrap(x) == Wrap(y)
  {
  }

  /** Wrapping an intermediate result of `31 * h + c` does not change the final `int`. */
  lemma WrapMulAdd(x: int, c: int)
    ensures Wrap(31 * Wrap(x) as int + c) == Wrap(31 * x + c)
  {
    var d := x - Wrap(x) as int;
    var t := d / TWO_32;
    assert d == TWO_32 * t;
    assert (31 * x + c) - (31 * Wrap(x) as int + c) == TWO_32 * (31 * t);
    WrapCongruent(31 * Wrap(x) as int + c, 31 * x + c);
  }

  /** Null-safe string equality, `Objects.equals(a, b)` on two strings: `String.equals` compares contents. */
  function StringEquals(a: StringRef, b: StringRef): (r: bool)
    ensures r <==> a == b
  {
    (a.Null? && b.Null?) || (a.Str? && b.Str? && a.units == b.units)
  }

  function Pow31(n: nat): (p: nat)
  {
    if n == 0 then 1 else 31 * Pow31(n - 1)
  }

  /** The exact value s[0]*31^(n-1) + s[1]*31^(n-2) + ... + s[n-1] that `String.hashCode` is documented to compute. */
  function Polynomial(s: seq<CodeUnit>): int
  {
    if s == [] then 0 else s[0] as int * Pow31(|s| - 1) + Polynomial(s[1..])
  }

  lemma {:induction false} PolynomialSnoc(s: seq<CodeUnit>, c: CodeUnit)
    ensures Polynomial(s + [c]) == 31 * Polynomial(s) + c as int
  {
    if s == [] {
      assert [c][1..] == [];
    } else {
      assert (s + [c])[1..] == s[1..] + [c];
      PolynomialSnoc(s[1..], c);
      var p := Pow31(|s| - 1);
      assert Pow31(|s|) == 31 * p;
      assert s[0] as int * (31 * p) == 31 * (s[0] as int * p);
    }
  }

  /**
   * `String.hashCode` on the code units of a non-null string: `h = 31 * h + c`
   * for each unit in order, starting from 0, in `int` arithmetic. The result
   * is the documented polynomial reduced to 32 bits.
   */
  function StringHash(s: seq<CodeUnit>): (r: int32)
    ensures r == Wrap(Polynomial(s))
  {
    if s == [] then 0
    else
      var init, last := s[..|s| - 1], s[|s| - 1];
      var h := StringHash(init);
      assert s == init + [last];
      PolynomialSnoc(init, last);
      WrapMulAdd(Polynomial(init), last as int);
      Wrap(31 * h as int + last as int)
  }

  /** `s.hashCode()` on a `String` reference: throws on `null`. */
  function StringHashCode(s: StringRef): (r: Outcome<int32>)
    ensures r.NullPointerException? <==> s.Null?
    ensures s.Str? ==> r.value == Wrap(Polynomial(s.units))
  {
    match s
    case Null => NullPointerException
    case Str(units) => Returned(StringHash(units))
  }

  /** The hash that `Arrays.hashCode` takes of one string element: 0 for `null`. */
  function ElementHash(s: StringRef): (r: int32)
    ensures s.Null? ==> r == 0
    ensures s.Str? ==> r == Wrap(Polynomial(s.units))
  {
    if s.Null? then 0 else StringHash(s.units)
  }

  /**
   * `Objects.hash(x, y)` given the element hashes `hx` and `hy`: it is
   * `Arrays.hashCode(new Object[] {x, y})`, which starts from 1 and folds
   * `result = 31 * result + h` over the elements in `int` arithmetic.
   */
  function ObjectsHash(hx: int32, hy: int32): (r: int32)
    ensures r == Wrap(31 * (31 + hx as int) + hy as int)
  {
    var r1 := Wrap(31 * 1 + hx as int);
    WrapMulAdd(31 + hx as int, hy as int);
    Wrap(31 * r1 as int + hy as int)
  }
}
