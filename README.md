# Cyclic bean: cycle-aware equality and hashing

This project models the test bean `io.fury.test.bean.Cyclic` of the Fury serialization test suite and proves properties of the model. The bean is a test object whose link may point back to the node itself. It is a mutable node with two public fields:
- `cyclic`: a link to another node, to itself, or `null`;
- `f1`: a `String`, which may be `null`.

It has three operations:
- `equals` uses a terminating rule for a self-linked node. Such a node equals another self-linked node with the same `f1`, with no recursion. Any other node compares its link with `Objects.equals`, which recurses, and then compares `f1`.
- `hashCode` follows the same split. A self-linked node hashes to `f1.hashCode()`; any other node hashes to `Objects.hash(cyclic, f1)`.
- `create(circular)` builds a node with `f1 = "str"`. It links the node to itself only when `circular` is true.

Modules:
- `JavaLang` (`java_lang.dfy`) holds the platform pieces the bean relies on:
  - `int` as `int32`, with 32-bit wrap-around written out (`Wrap`);
  - `String` references as `StringRef` (`Null`, or a sequence of UTF-16 code units);
  - `String.hashCode`, null-safe string equality and the two-argument `Objects.hash`;
  - `Outcome`, a result that is either a value or a thrown `NullPointerException`.
- `CyclicBean` (`cyclic.dfy`) holds the class `Cyclic`, with fields `cyclic: Cyclic?` and `f1: StringRef`:
  - `Equals` and `HashCode` are functions that read the heap;
  - `Create` is a static method that allocates a node and sets its fields one at a time;
  - `ObjectsEquals` and `NodeHash` are the `Objects.equals` / `Arrays.hashCode` steps that recurse into the linked node;
  - `Terminates(c)` holds when the chain of links from `c` ends in `null` or in a self-loop, and `Depth(c)` is the least number of steps to get there. This measure is what makes the recursion of `equals` and `hashCode` well founded. Both functions require only that the receiver's chain terminates: the operand's chain is followed just one step per recursive call.
- `ChainShape` (`chain_shape.dfy`) abstracts a terminating chain to a value: its `f1` labels in order, and whether it ends in a self-loop.
  - `EqualsIffCovers` states exactly what `equals` computes, as the `Covers` relation on shapes.
  - A self-looping operand's walk stays on its loop, so a longer self-looping receiver can equal a shorter operand. This is why `equals` is not symmetric.
  - `HashCodeOfShape` shows that `hashCode` depends only on the shape.
- `CyclicProperties` (`cyclic_properties.dfy`) holds properties stated on the bean itself:
  - the two branches of `equals`;
  - termination on null-ended and self-looping chains, and divergence on a cycle of two nodes;
  - the asymmetry example;
  - the results of `create`.

The code does not give symmetry of `equals`, or agreement between `equals` and `hashCode`, in general; `EqualsAsymmetric` exhibits both failures. The project proves them where the code does give them: for chains of equal length, for pairs equal in both directions, and when the receiver's chain ends in `null`.

## Model

| member | source | states |
|---|---|---|
| `CyclicBean.Cyclic.constructor` | fury-test-core/src/main/java/io/fury/test/bean/Cyclic.java:23-25 | `new Cyclic()` leaves `cyclic` and `f1` both `null` |
| `CyclicBean.Cyclic.Equals` | fury-test-core/src/main/java/io/fury/test/bean/Cyclic.java:29-42 | defined whenever the receiver's chain ends in `null` or a self-loop (decreasing `Depth`); identical operands are equal without looking at fields; `null` and objects of another class are never equal |
| `CyclicBean.Cyclic.HashCode` | fury-test-core/src/main/java/io/fury/test/bean/Cyclic.java:45-51 | a self-linked node throws `NullPointerException` exactly when `f1` is null, and otherwise hashes to `f1`'s polynomial hash reduced to 32 bits; a node with a null link hashes to `31*31 + h(f1)` wrapped, with `h(null) = 0`; the remaining case is `CyclicProperties.HashCodeLinked` |
| `CyclicBean.Cyclic.Create` | fury-test-core/src/main/java/io/fury/test/bean/Cyclic.java:54-61 | returns a fresh node with `f1 == "str"` whose link is the node itself when `circular` and `null` otherwise |
| `CyclicBean.ObjectsEquals` | fury-test-core/src/main/java/io/fury/test/bean/Cyclic.java:38 | `Objects.equals` on links: a null link equals only a null link, a non-null link never equals `null`, and for a non-null link the result is exactly that link's own `equals` on the operand (identical arguments included, since `equals` accepts its receiver) |
| `CyclicBean.DepthStep` | fury-test-core/src/main/java/io/fury/test/bean/Cyclic.java:37-38 | following a link that is not a self-loop keeps the chain terminating and strictly lowers the termination measure, so the recursion at lines 38 and 47 ends |
| `JavaLang.StringEquals` | fury-test-core/src/main/java/io/fury/test/bean/Cyclic.java:38-40 | null-safe `Objects.equals(f1, other.f1)` holds exactly when the two string references are equal as values (both null, or the same code units) |
| `JavaLang.StringHash` | fury-test-core/src/main/java/io/fury/test/bean/Cyclic.java:49 | `String.hashCode`: the `31 * h + c` fold in `int` arithmetic equals `s[0]*31^(n-1) + ... + s[n-1]` reduced to 32 bits |
| `JavaLang.StringHashCode` | fury-test-core/src/main/java/io/fury/test/bean/Cyclic.java:49 | `f1.hashCode()` throws exactly when `f1` is null, and otherwise returns the polynomial hash wrapped to 32 bits |
| `JavaLang.Wrap` | fury-test-core/src/main/java/io/fury/test/bean/Cyclic.java:47-49 | Java's `int` truncation: a value already in the 32-bit range is unchanged, and the result differs from its input by a multiple of 2^32 |
| `JavaLang.ElementHash` | fury-test-core/src/main/java/io/fury/test/bean/Cyclic.java:47 | inside `Objects.hash` a null `f1` contributes 0, and a non-null one its polynomial hash `s[0]*31^(n-1) + ... + s[n-1]` reduced to 32 bits |
| `JavaLang.ObjectsHash` | fury-test-core/src/main/java/io/fury/test/bean/Cyclic.java:47 | `Objects.hash(x, y)`, computed step by step from 1 with `int` wrap-around, equals `31*(31 + h(x)) + h(y)` reduced to 32 bits |
| `JavaLang.WrapMulAdd` | fury-test-core/src/main/java/io/fury/test/bean/Cyclic.java:47-49 | wrapping the intermediate `int` of a `31 * h + c` step does not change the final 32-bit result |
| `ChainShape.ShapeOf` | fury-test-core/src/main/java/io/fury/test/bean/Cyclic.java:24-25 | a terminating chain has at least one label, starting with the node's own `f1`; the single-label shapes of a self-linked node and of a node with a null link are the definition's two base cases, stated for use by callers rather than as properties |
| `ChainShape.EqualsIffCovers` | fury-test-core/src/main/java/io/fury/test/bean/Cyclic.java:29-42 | for terminating chains, `a.equals(b)` holds exactly when `b`'s walk, followed as far as `a`'s chain is long, shows the same labels and ends the same way (null-ended: identical label lists; self-looping: `a`'s labels are `b`'s followed by repeats of `b`'s last label) |
| `ChainShape.NullTerminatedEquals` | fury-test-core/src/main/java/io/fury/test/bean/Cyclic.java:37-38 | two chains ending in `null` are equal exactly when they have the same length and the same `f1` at every position |
| `ChainShape.MutualEqualsIffSameShape` | fury-test-core/src/main/java/io/fury/test/bean/Cyclic.java:29-42 | `a.equals(b) && b.equals(a)` holds exactly when the two chains have the same shape |
| `ChainShape.EqualsSymmetricSameLength` | fury-test-core/src/main/java/io/fury/test/bean/Cyclic.java:29-42 | for chains of the same length, `a.equals(b)` and `b.equals(a)` agree |
| `ChainShape.ShapeHash` | fury-test-core/src/main/java/io/fury/test/bean/Cyclic.java:45-51 | the hash of a shape throws exactly when the shape ends in a self-loop whose label is null |
| `ChainShape.HashCodeOfShape` | fury-test-core/src/main/java/io/fury/test/bean/Cyclic.java:45-51 | `hashCode` of a terminating chain is the hash of its shape, so it depends on nothing else |
| `ChainShape.HashCodeThrows` | fury-test-core/src/main/java/io/fury/test/bean/Cyclic.java:45-51 | `hashCode` throws `NullPointerException` exactly when the chain ends in a self-loop whose `f1` is null |
| `ChainShape.MutualEqualsSameHash` | fury-test-core/src/main/java/io/fury/test/bean/Cyclic.java:29-51 | nodes that are equal in both directions have the same `hashCode` outcome |
| `ChainShape.NullTerminatedEqualsSameHash` | fury-test-core/src/main/java/io/fury/test/bean/Cyclic.java:29-51 | when the receiver's chain ends in `null`, `a.equals(b)` alone implies equal hashes |
| `CyclicProperties.EqualsSelfLinked` | fury-test-core/src/main/java/io/fury/test/bean/Cyclic.java:39-40 | a self-linked node equals exactly the self-linked nodes with the same `f1`, without recursing |
| `CyclicProperties.EqualsLinked` | fury-test-core/src/main/java/io/fury/test/bean/Cyclic.java:37-38 | a node that is not self-linked equals `b` exactly when `Objects.equals(cyclic, b.cyclic)` and the `f1` values match; a null link matches only a null link |
| `CyclicProperties.HashCodeLinked` | fury-test-core/src/main/java/io/fury/test/bean/Cyclic.java:46-47 | a node with a non-null link that is not a self-loop throws exactly when its link's `hashCode` throws, and otherwise hashes to `31*(31 + cyclic.hashCode()) + h(f1)` wrapped to 32 bits, with `h(null) = 0` |
| `CyclicProperties.SelfLinkedVersusLinked` | fury-test-core/src/main/java/io/fury/test/bean/Cyclic.java:37-40 | a self-linked node never equals a node that is not self-linked; a node with a null link never equals a self-linked node |
| `CyclicProperties.TerminatesExtend` | fury-test-core/src/main/java/io/fury/test/bean/Cyclic.java:37-40 | a self-loop or a null link ends a chain, and putting a node in front of a terminating chain keeps it terminating, so `equals` and `hashCode` are defined on every such chain |
| `CyclicProperties.TwoCycleDiverges` | fury-test-core/src/main/java/io/fury/test/bean/Cyclic.java:37-38 | on two distinct nodes linked to each other the chain never ends, so the recursion has no measure there |
| `CyclicProperties.EqualsAsymmetric` | fury-test-core/src/main/java/io/fury/test/bean/Cyclic.java:27-51 | for `a -> b`, with `b` and `c` self-linked and all labels `"str"`: `a.equals(c)`, not `c.equals(a)`, and the hashes differ (3656161 vs 114225) |
| `CyclicProperties.StrHash` | fury-test-core/src/main/java/io/fury/test/bean/Cyclic.java:49-56 | `"str".hashCode()` is 114225 |
| `CyclicProperties.CreatedShape` | fury-test-core/src/main/java/io/fury/test/bean/Cyclic.java:54-61 | a node as `create` leaves it terminates, and its shape is the single label `"str"`, self-looping exactly when `circular` |
| `CyclicProperties.CreatedAlikeEqual` | fury-test-core/src/main/java/io/fury/test/bean/Cyclic.java:29-61 | two results of `create` with the same argument are equal in both directions and hash alike |
| `CyclicProperties.CreatedUnlikeUnequal` | fury-test-core/src/main/java/io/fury/test/bean/Cyclic.java:29-61 | `create(true)` and `create(false)` are unequal in both directions |
| `CyclicProperties.CreatedHash` | fury-test-core/src/main/java/io/fury/test/bean/Cyclic.java:45-61 | `create(true).hashCode()` is 114225 and `create(false).hashCode()` is 115186 |
| `CyclicProperties.CreateTwice` | fury-test-core/src/main/java/io/fury/test/bean/Cyclic.java:54-61 | two calls of `create` with the same argument give distinct objects that are equal in both directions and have equal hashes |

## Left out

- fury-testsuite/src/test/java/io/fury/benchmark/SerializationBenchmark.java is not part of this model. It consists of calls into external serializers (Fury, FST, Kryo, JDK object streams) whose code is not available, wall-clock timing, a system property and floating-point throughput logging; none of it states behaviour that can be modelled here.
- fury-test-core/src/test/java/io/fury/test/bean/StructTest.java is not part of this model. It is one assertion over a dynamic class generator (`Struct.createStructClass`, `createPOJO`) whose code is not available.
- Cycles of two or more nodes: Java's `hashCode` recurses without end on them. The model requires the receiver's chain to end in `null` or a self-loop. `TwoCycleDiverges` shows that a two-node cycle does not satisfy this precondition.
- CyclicBean.Cyclic.Equals: `requires Terminates(this)` also excludes calls that Java answers on a receiver inside a longer cycle. These are `a.equals(a)` (true by identity), `a.equals(null)` and objects of another class (false), links that are the same object (`Objects.equals` returns true at once), and an operand whose walk reaches `null` or an identical link before the recursion runs away. The model says nothing about those calls.
- Stack depth: on a long but finite chain the JVM throws `StackOverflowError` from `equals` or `hashCode`. The model's recursion is unbounded and returns a value for every terminating chain.
- Frames: `Equals`, `HashCode` and the predicates over chains read `*`. Dafny requires a function's precondition to lie inside its frame, and the set of nodes a chain visits is only known once termination is established.
- `getClass() != object.getClass()` is modelled as `other is Cyclic`. Dafny classes cannot be subclassed, so the case of a subclass instance does not arise.
- `Objects.equals` and `Objects.hash` are modelled only at the argument types used here (`Cyclic` links and `String` values), not for arbitrary objects.
- `String.hashCode` caches its result in a field. The cache does not change the value returned and is not modelled.
- Thread safety and concurrent mutation of the public fields during `equals` or `hashCode` are not modelled: the functions read one fixed heap.
