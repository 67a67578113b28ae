/**
 * Properties of the Cyclic bean: the two branches of `equals`, which chains
 * its recursion terminates on, the self-linked/linked distinction, the
 * failure of symmetry, and what `create` returns.
 */
module CyclicProperties {
  import opened JavaLang
  import opened CyclicBean
  import opened ChainShape

  /** A node linked to itself equals exactly the nodes linked to themselves with the same `f1`. */
  lemma EqualsSelfLinked(a: Cyclic, b: Cyclic)
    requires Terminates(a) && a.cyclic == a
    ensures a.Equals(b) <==> b.cyclic == b && a.f1 == b.f1
  {
  }

  /** Any other node: its link is compared with `Objects.equals` and then `f1`; a null link matches only a null link. */
  lemma EqualsLinked(a: Cyclic, b: Cyclic)
    requires Terminates(a) && a.cyclic != a
    ensures Terminates(a.cyclic)
    ensures a.Equals(b) <==> ObjectsEquals(a.cyclic, b.cyclic) && a.f1 == b.f1
    ensures a.cyclic == null ==> (a.Equals(b) <==> b.cyclic == null && a.f1 == b.f1)
  {
    DepthStep(a);
  }

  /**
   * Any node with a non-null link that is not a self-loop hashes as
   * `Objects.hash(cyclic, f1)`: `31 * (31 + cyclic.hashCode()) + h(f1)` in
   * `int` arithmetic, with `h(null) = 0` and the link's exception passed through.
   */
  lemma HashCodeLinked(c: Cyclic)
    requires Terminates(c) && c.cyclic != c && c.cyclic != null
    ensures Terminates(c.cyclic)
    ensures c.HashCode().NullPointerException? <==> c.cyclic.HashCode().NullPointerException?
    ensures c.HashCode().Returned? ==>
      c.HashCode().value == Wrap(31 * (31 + c.cyclic.HashCode().value as int) + ElementHash(c.f1) as int)
  {
    DepthStep(c);
  }

  /** A node linked to itself says no to every node that is not, and a node with a null link says no back. */
  lemma SelfLinkedVersusLinked(a: Cyclic, b: Cyclic)
    requires Terminates(a) && a.cyclic == a && b.cyclic != b
    ensures !a.Equals(b)
    ensures b.cyclic == null ==> Terminates(b) && !b.Equals(a)
  {
    if b.cyclic == null {
      assert EndsWithin(b, 1);
    }
  }

  /** A node linked to itself or to `null` ends its chain; prepending a node to a terminating chain keeps it terminating. */
  lemma TerminatesExtend(c: Cyclic)
    requires c.cyclic == c || c.cyclic == null || Terminates(c.cyclic)
    ensures Terminates(c)
  {
    if c.cyclic == c {
      assert EndsWithin(c, 0);
    } else if c.cyclic == null {
      assert EndsWithin(c, 1);
    } else {
      var n := Depth(c.cyclic);
      assert EndsWithin(c, n + 1);
    }
  }

  lemma {:induction false} TwoCycleNeverEnds(a: Cyclic, b: Cyclic, n: nat)
    requires a.cyclic == b && b.cyclic == a && a != b
    ensures !EndsWithin(a, n) && !EndsWithin(b, n)
    decreases n
  {
    if n > 0 {
      TwoCycleNeverEnds(a, b, n - 1);
    }
  }

  /** On a cycle of two nodes the chain never ends, so `equals` and `hashCode` are not defined on it. */
  lemma TwoCycleDiverges(a: Cyclic, b: Cyclic)
    requires a.cyclic == b && b.cyclic == a && a != b
    ensures !Terminates(a) && !Terminates(b)
  {
    forall n: nat ensures !EndsWithin(a, n) && !EndsWithin(b, n) {
      TwoCycleNeverEnds(a, b, n);
    }
  }

  /**
   * `equals` is not symmetric and does not agree with `hashCode`: a node `a`
   * linked to a self-looping `b` equals a self-looping `c` with the same
   * label, `c` does not equal `a`, and their hashes differ.
   */
  lemma EqualsAsymmetric(a: Cyclic, b: Cyclic, c: Cyclic)
    requires a.cyclic == b && b.cyclic == b && c.cyclic == c
    requires a != b && b != c && a != c
    requires a.f1 == b.f1 == c.f1 == Str(STR)
    ensures Terminates(a) && Terminates(c)
    ensures a.Equals(c) && !c.Equals(a)
    ensures a.HashCode() == Returned(3656161) && c.HashCode() == Returned(114225)
  {
    TerminatesExtend(b);
    TerminatesExtend(a);
    TerminatesExtend(c);
    StrHash();
  }

  lemma StrHash()
    ensures StringHash(STR) == 114225
  {
  }

  /** A node as `create` leaves it terminates, and its shape is one `"str"` label, self-linked exactly when `circular`. */
  lemma CreatedShape(c: Cyclic, circular: bool)
    requires Created(c, circular)
    ensures Terminates(c) && ShapeOf(c) == Shape([Str(STR)], circular)
  {
    TerminatesExtend(c);
  }

  /** Two results of `create` with the same argument are equal both ways with equal hashes. */
  lemma CreatedAlikeEqual(a: Cyclic, b: Cyclic, circular: bool)
    requires Created(a, circular) && Created(b, circular)
    ensures Terminates(a) && Terminates(b)
    ensures a.Equals(b) && b.Equals(a) && a.HashCode() == b.HashCode()
  {
    CreatedShape(a, circular);
    CreatedShape(b, circular);
    MutualEqualsIffSameShape(a, b);
    MutualEqualsSameHash(a, b);
  }

  /** `create(true)` and `create(false)` are unequal in both directions. */
  lemma CreatedUnlikeUnequal(a: Cyclic, b: Cyclic)
    requires Created(a, true) && Created(b, false)
    ensures Terminates(a) && Terminates(b)
    ensures !a.Equals(b) && !b.Equals(a)
  {
    CreatedShape(a, true);
    CreatedShape(b, false);
    SelfLinkedVersusLinked(a, b);
  }

  /** The hashes of `create`'s results: `"str".hashCode()` when circular, `Objects.hash(null, "str")` otherwise. */
  lemma CreatedHash(c: Cyclic, circular: bool)
    requires Created(c, circular)
    ensures Terminates(c)
    ensures c.HashCode() == Returned(if circular then 114225 else 115186)
  {
    CreatedShape(c, circular);
    StrHash();
  }

  /** Calling `create` twice with the same argument gives two distinct objects that are equal both ways with equal hashes. */
  method CreateTwice(circular: bool) returns (a: Cyclic, b: Cyclic)
    ensures a != b && Created(a, circular) && Created(b, circular)
    ensures Terminates(a) && Terminates(b)
    ensures a.Equals(b) && b.Equals(a) && a.HashCode() == b.HashCode()
  {
    a := Cyclic.Create(circular);
    b := Cyclic.Create(circular);
    CreatedAlikeEqual(a, b, circular);
  }
}
