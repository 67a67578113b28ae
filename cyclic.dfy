/**
 * The bean `Cyclic`: a mutable node with a link `cyclic` to another node (or
 * to itself, or `null`) and a string field `f1`, with its `equals`,
 * `hashCode` and the factory `create`.
 *
 * Java's `equals` and `hashCode` recurse along the link and stop only at
 * `null` or at a node linked to itself. `Terminates` states that condition
 * for the receiver's chain and `Depth` is the measure that makes those
 * recursions well founded.
 */
module CyclicBean {
  import opened JavaLang

  /** The string literal `"str"` as UTF-16 code units. */
  const STR: seq<CodeUnit> := [115, 116, 114]

  /** Following links from `c`, at most `n` steps lead to `null` or to a node linked to itself. */
  ghost predicate EndsWithin(c: Cyclic?, n: nat)
    reads *
    decreases n
  {
    c == null || c.cyclic == c || (n > 0 && EndsWithin(c.cyclic, n - 1))
  }

  /** The chain of links starting at `c` ends in `null` or in a self-loop. */
  ghost predicate Terminates(c: Cyclic?)
    reads *
  {
    exists n: nat :: EndsWithin(c, n)
  }

  /** `d` is the fewest steps from `c` to `null` or to a self-loop. */
  ghost predicate IsDepth(c: Cyclic?, d: nat)
    reads *
  {
    EndsWithin(c, d) && forall j: nat :: j < d ==> !EndsWithin(c, j)
  }

  lemma LeastBoundExists(c: Cyclic?, n: nat)
    requires EndsWithin(c, n)
    ensures exists m: nat :: IsDepth(c, m)
    decreases n
  {
    if exists j: nat :: j < n && EndsWithin(c, j) {
      var j: nat :| j < n && EndsWithin(c, j);
      LeastBoundExists(c, j);
    } else {
      assert IsDepth(c, n);
    }
  }

  /** The fewest steps from `c` to `null` or to a self-loop. */
  ghost function Depth(c: Cyclic?): (d: nat)
    requires Terminates(c)
    reads *
    ensures IsDepth(c, d)
  {
    var n: nat :| EndsWithin(c, n);
    LeastBoundExists(c, n);
    var m: nat :| IsDepth(c, m);
    m
  }

  /** One step along a link that is not a self-loop keeps the chain terminating and lowers the measure. */
  lemma DepthStep(c: Cyclic)
    requires Terminates(c) && c.cyclic != c
    ensures Terminates(c.cyclic) && Depth(c.cyclic) < Depth(c)
  {
    var d := Depth(c);
    assert IsDepth(c, d);
    assert d > 0;
    assert EndsWithin(c.cyclic, d - 1);
    var d' := Depth(c.cyclic);
    assert IsDepth(c.cyclic, d');
  }

  class Cyclic {
    var cyclic: Cyclic?
    var f1: StringRef

    /** `new Cyclic()`: the implicit constructor leaves both fields `null`. */
    constructor ()
      ensures cyclic == null && f1 == Null
    {
      cyclic := null;
      f1 := Null;
    }

    /**
     * `equals(Object)`. Identity answers true at once; `null` and objects of
     * any other class answer false. A node linked to itself equals a node
     * linked to itself with the same `f1`, without recursing; any other node
     * compares its link with `Objects.equals` (which recurses) and then `f1`.
     */
    function Equals(other: object?): (r: bool)
      requires Terminates(this)
      reads *
      ensures this == other ==> r
      ensures other == null || !(other is Cyclic) ==> !r
      decreases Depth(this), 1
    {
      if this == other then true
      else if other == null || !(other is Cyclic) then false
      else
        var that := other as Cyclic;
        if cyclic != this then
          DepthStep(this);
          ObjectsEquals(cyclic, that.cyclic) && StringEquals(f1, that.f1)
        else
          that.cyclic == that && StringEquals(f1, that.f1)
    }

    /**
     * `hashCode()`. A node linked to itself hashes to `f1.hashCode()`, which
     * throws when `f1` is `null`; any other node hashes to
     * `Objects.hash(cyclic, f1)`, which takes `cyclic.hashCode()` (0 for
     * `null`) and lets its exception through.
     */
    function HashCode(): (r: Outcome<int32>)
      requires Terminates(this)
      reads *
      ensures cyclic == this ==> (r.NullPointerException? <==> f1.Null?)
      ensures cyclic == this && f1.Str? ==> r == Returned(Wrap(Polynomial(f1.units)))
      ensures cyclic == null ==> r == Returned(Wrap(961 + ElementHash(f1) as int))
      decreases Depth(this), 1
    {
      if cyclic != this then
        DepthStep(this);
        match NodeHash(cyclic)
        case NullPointerException => NullPointerException
        case Returned(h) => Returned(ObjectsHash(h, ElementHash(f1)))
      else
        StringHashCode(f1)
    }

    /** `create(circular)`: a fresh node with `f1 = "str"`, linked to itself exactly when `circular`. */
    static method Create(circular: bool) returns (c: Cyclic)
      ensures fresh(c)
      ensures Created(c, circular)
    {
      c := new Cyclic();
      c.f1 := Str(STR);
      if circular {
        c.cyclic := c;
      }
    }
  }

  /** The state `create(circular)` leaves a node in. */
  ghost predicate Created(c: Cyclic, circular: bool)
    reads c
  {
    c.f1 == Str(STR) && c.cyclic == (if circular then c else null)
  }

  /** `Objects.equals(a, b)` with a `Cyclic` first argument: identity, or a non-null `a` whose `equals` accepts `b`. */
  function ObjectsEquals(a: Cyclic?, b: object?): (r: bool)
    requires Terminates(a)
    reads *
    ensures a == null ==> (r <==> b == null)
    ensures a != null && b == null ==> !r
    ensures a != null ==> (r <==> a.Equals(b))
    decreases Depth(a), 2
  {
    a == b || (a != null && a.Equals(b))
  }

  /** The hash `Arrays.hashCode` takes of a `Cyclic` element: 0 for `null`, otherwise its `hashCode()`. */
  function NodeHash(a: Cyclic?): (r: Outcome<int32>)
    requires Terminates(a)
    reads *
    decreases Depth(a), 2
  {
    if a == null then Returned(0) else a.HashCode()
  }
}
