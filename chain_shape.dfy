/**
 * What `equals` and `hashCode` see of a terminating chain: the `f1` labels of
 * its nodes in order, and whether it ends in a self-loop or in `null`.
 * `Equals` is characterised exactly by `Covers` on shapes, and `HashCode` is a
 * function of the shape alone.
 */
module ChainShape {
  import opened JavaLang
  import opened CyclicBean

  /** The labels along a chain up to its last node, and whether that last node is linked to itself. */
  datatype Shape = Shape(labels: seq<StringRef>, selfLinked: bool)

  ghost function ShapeOf(c: Cyclic): (s: Shape)
    requires Terminates(c)
    reads *
    ensures |s.labels| > 0 && s.labels[0] == c.f1
    ensures c.cyclic == c ==> s == Shape([c.f1], true)
    ensures c.cyclic == null ==> s == Shape([c.f1], false)
    decreases Depth(c)
  {
    if c.cyclic == c then Shape([c.f1], true)
    else if c.cyclic == null then Shape([c.f1], false)
    else
      DepthStep(c);
      var rest := ShapeOf(c.cyclic);
      Shape([c.f1] + rest.labels, rest.selfLinked)
  }

  function Repeat(x: StringRef, n: nat): (r: seq<StringRef>)
    ensures |r| == n
  {
    if n == 0 then [] else [x] + Repeat(x, n - 1)
  }

  /**
   * The relation that `equals` decides between two chains. The receiver's
   * chain is followed to its end while the operand's walk is followed step by
   * step beside it; once the operand's walk reaches its self-loop it stays
   * there, so a self-looping receiver may be longer than the operand and
   * still be equal, provided its extra labels repeat the operand's last one.
   */
  ghost predicate Covers(a: Shape, b: Shape)
  {
    if !a.selfLinked then !b.selfLinked && a.labels == b.labels
    else
      b.selfLinked && 0 < |b.labels| <= |a.labels| &&
      a.labels == b.labels + Repeat(b.labels[|b.labels| - 1], |a.labels| - |b.labels|)
  }

  lemma CoversReflexive(s: Shape)
    requires |s.labels| > 0
    ensures Covers(s, s)
  {
  }

  /** Prepending a label to both shapes. */
  lemma CoversCons(x: StringRef, sa: Shape, y: StringRef, sb: Shape)
    requires |sa.labels| > 0 && |sb.labels| > 0
    ensures Covers(Shape([x] + sa.labels, sa.selfLinked), Shape([y] + sb.labels, sb.selfLinked))
        <==> x == y && Covers(sa, sb)
  {
    var la, lb := sa.labels, sb.labels;
    var z := lb[|lb| - 1];
    assert ([y] + lb)[|[y] + lb| - 1] == z;
    if sa.selfLinked && sb.selfLinked && |lb| <= |la| {
      var rep := Repeat(z, |la| - |lb|);
      assert [y] + lb + rep == [y] + (lb + rep);
      assert ([x] + la == [y] + (lb + rep)) <==> (x == y && la == lb + rep) by {
        if [x] + la == [y] + (lb + rep) {
          assert x == ([x] + la)[0] && y == ([y] + (lb + rep))[0];
          assert la == ([x] + la)[1..] && lb + rep == ([y] + (lb + rep))[1..];
        }
      }
    }
    if !sa.selfLinked && !sb.selfLinked {
      if [x] + la == [y] + lb {
        assert x == ([x] + la)[0] && y == ([y] + lb)[0];
        assert la == ([x] + la)[1..] && lb == ([y] + lb)[1..];
      }
    }
  }

  /** Prepending a label to the receiver's shape when the operand is a single self-loop. */
  lemma CoversSelfLoopCons(x: StringRef, sa: Shape, y: StringRef)
    requires |sa.labels| > 0
    ensures Covers(Shape([x] + sa.labels, sa.selfLinked), Shape([y], true))
        <==> x == y && Covers(sa, Shape([y], true))
  {
    var la := sa.labels;
    var n := |la|;
    assert Repeat(y, n) == [y] + Repeat(y, n - 1);
    assert [y] + Repeat(y, n) == [y] + ([y] + Repeat(y, n - 1));
    if [x] + la == [y] + Repeat(y, n) {
      assert x == ([x] + la)[0];
      assert la == ([x] + la)[1..];
    }
  }

  /**
   * `a.equals(b)` holds exactly when `a`'s shape covers `b`'s. Only `a`'s
   * chain needs to terminate for `equals` to be defined; `b`'s is asked to
   * so that it has a shape.
   */
  lemma {:induction false} EqualsIffCovers(a: Cyclic, b: Cyclic)
    requires Terminates(a) && Terminates(b)
    ensures a.Equals(b) <==> Covers(ShapeOf(a), ShapeOf(b))
    decreases Depth(a)
  {
    var sa, sb := ShapeOf(a), ShapeOf(b);
    if a == b {
      CoversReflexive(sa);
    } else if a.cyclic == a {
      if b.cyclic != b && b.cyclic != null {
        DepthStep(b);
        assert |sb.labels| == 1 + |ShapeOf(b.cyclic).labels|;
      }
    } else {
      DepthStep(a);
      var a', b' := a.cyclic, b.cyclic;
      if a' == null {
        if b' != b && b' != null {
          DepthStep(b);
          assert |sb.labels| == 1 + |ShapeOf(b').labels|;
        }
      } else if b' == null {
        assert |sa.labels| == 1 + |ShapeOf(a').labels|;
      } else if b' == b {
        EqualsIffCovers(a', b);
        CoversSelfLoopCons(a.f1, ShapeOf(a'), b.f1);
      } else {
        DepthStep(b);
        EqualsIffCovers(a', b');
        CoversCons(a.f1, ShapeOf(a'), b.f1, ShapeOf(b'));
      }
    }
  }

  /**
   * Two chains that both end in `null` are equal exactly when they have the
   * same length and the same `f1` at every position.
   */
  lemma NullTerminatedEquals(a: Cyclic, b: Cyclic)
    requires Terminates(a) && Terminates(b)
    requires !ShapeOf(a).selfLinked && !ShapeOf(b).selfLinked
    ensures a.Equals(b) <==>
      |ShapeOf(a).labels| == |ShapeOf(b).labels| &&
      forall i :: 0 <= i < |ShapeOf(a).labels| ==> ShapeOf(a).labels[i] == ShapeOf(b).labels[i]
  {
    EqualsIffCovers(a, b);
    var la, lb := ShapeOf(a).labels, ShapeOf(b).labels;
    if |la| == |lb| && forall i :: 0 <= i < |la| ==> la[i] == lb[i] {
      assert la == lb;
    }
  }

  /** Equality in both directions holds exactly when the two chains have the same shape. */
  lemma {:induction false} MutualEqualsIffSameShape(a: Cyclic, b: Cyclic)
    requires Terminates(a) && Terminates(b)
    ensures a.Equals(b) && b.Equals(a) <==> ShapeOf(a) == ShapeOf(b)
  {
    EqualsIffCovers(a, b);
    EqualsIffCovers(b, a);
    var sa, sb := ShapeOf(a), ShapeOf(b);
    if sa == sb {
      CoversReflexive(sa);
    }
    if Covers(sa, sb) && Covers(sb, sa) && sa.selfLinked {
      assert |sa.labels| == |sb.labels|;
      assert sa.labels == sb.labels + [];
    }
  }

  /** For chains of the same length, `equals` is symmetric. */
  lemma {:induction false} EqualsSymmetricSameLength(a: Cyclic, b: Cyclic)
    requires Terminates(a) && Terminates(b)
    requires |ShapeOf(a).labels| == |ShapeOf(b).labels|
    ensures a.Equals(b) <==> b.Equals(a)
  {
    EqualsIffCovers(a, b);
    EqualsIffCovers(b, a);
    var sa, sb := ShapeOf(a), ShapeOf(b);
    if sa.selfLinked && sb.selfLinked {
      assert sa.labels + Repeat(sa.labels[|sa.labels| - 1], 0) == sa.labels;
      assert sb.labels + Repeat(sb.labels[|sb.labels| - 1], 0) == sb.labels;
    }
  }

  /** `hashCode` computed on a shape: the same case split as the bean's, over values. */
  function ShapeHash(s: Shape): (r: Outcome<int32>)
    requires |s.labels| > 0
    ensures r.NullPointerException? <==> s.selfLinked && s.labels[|s.labels| - 1].Null?
    decreases |s.labels|
  {
    if |s.labels| == 1 then
      if s.selfLinked then StringHashCode(s.labels[0])
      else Returned(ObjectsHash(0, ElementHash(s.labels[0])))
    else
      var rest := Shape(s.labels[1..], s.selfLinked);
      assert rest.labels[|rest.labels| - 1] == s.labels[|s.labels| - 1];
      match ShapeHash(rest)
      case NullPointerException => NullPointerException
      case Returned(h) => Returned(ObjectsHash(h, ElementHash(s.labels[0])))
  }

  /** `hashCode` depends on the chain only through its shape. */
  lemma {:induction false} HashCodeOfShape(c: Cyclic)
    requires Terminates(c)
    ensures c.HashCode() == ShapeHash(ShapeOf(c))
    decreases Depth(c)
  {
    if c.cyclic != c && c.cyclic != null {
      DepthStep(c);
      HashCodeOfShape(c.cyclic);
      assert ShapeOf(c).labels[1..] == ShapeOf(c.cyclic).labels;
    }
  }

  /** `hashCode` throws exactly when the chain ends in a self-loop whose `f1` is `null`. */
  lemma HashCodeThrows(c: Cyclic)
    requires Terminates(c)
    ensures c.HashCode().NullPointerException? <==>
      ShapeOf(c).selfLinked && ShapeOf(c).labels[|ShapeOf(c).labels| - 1].Null?
  {
    HashCodeOfShape(c);
  }

  /** Nodes that are equal in both directions have the same hash. */
  lemma MutualEqualsSameHash(a: Cyclic, b: Cyclic)
    requires Terminates(a) && Terminates(b)
    requires a.Equals(b) && b.Equals(a)
    ensures a.HashCode() == b.HashCode()
  {
    MutualEqualsIffSameShape(a, b);
    HashCodeOfShape(a);
    HashCodeOfShape(b);
  }

  /** When the receiver's chain ends in `null`, `equals` alone already forces equal hashes. */
  lemma NullTerminatedEqualsSameHash(a: Cyclic, b: Cyclic)
    requires Terminates(a) && Terminates(b)
    requires !ShapeOf(a).selfLinked && a.Equals(b)
    ensures a.HashCode() == b.HashCode()
  {
    EqualsIffCovers(a, b);
    HashCodeOfShape(a);
    HashCodeOfShape(b);
  }
}
