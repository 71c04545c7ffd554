# RDF4J triple terms: value semantics

This project models the value semantics of RDF triple terms in Eclipse RDF4J.
This is the behaviour every triple-term class inherits from `AbstractTripleTerm`:

- `equals` is structural. The other object must be some `TripleTerm`, and its object,
  subject and predicate must each equal this one's. The check is `instanceof` on the
  interface, not a comparison of classes.
- `hashCode` is `Objects.hash(subject, predicate, object)` in Java's wrapping 32-bit `int`
  arithmetic.
- `stringValue()` and `toString()` give `<<(subject predicate object)>>`, and nested triple
  terms are rendered recursively.
- `GenericTripleTerm` is a plain holder of the three components.

Files and modules:

- `java_int.dfy`, module `JavaInt`: Java `int` (`Int32`, `Wrap` for two's-complement
  wrap-around) and `Objects.hash` as the `Arrays.hashCode` fold. The module proves that the
  fold is the exact Horner polynomial wrapped once.
- `values.dfy`, module `Values`: the value datatype (`Iri | BNode | Literal | Triple`).
  - Each value carries the `JavaClass` that built it, so a lemma can say that equality ignores
    the class.
  - Java's `Object` argument of `equals` is `Obj = Null | NonValue | Val`.
  - The `JavaValue`/`JavaResource`/`JavaIri`/`JavaTripleTerm` subset types hold the values
    that Java's static types allow.
  - `LeafMethods` bundles `equals`, `hashCode` and `toString` of IRIs, blank nodes and
    literals, whose classes are not part of this model. The module also states the laws those
    methods are assumed to obey.
- `abstract_triple_term.dfy`, module `AbstractTripleTerm`: `equals`, `hashCode`,
  `stringValue`, `toString`, the `GenericTripleTerm` constructor and getters, and the lemmas
  about them.
- `triple_term_examples.dfy`, module `TripleTermExamples`: one concrete choice of
  `LeafMethods` that satisfies every assumed law at once. It replays the scenarios of the
  contract tests on that choice.

The IRI, blank node and literal classes are not part of this model. Their methods are
therefore parameters, and every property of a triple term is proved for every choice of them.
Where a property of a triple term depends on the same property of its components (for example
reflexivity, or hash consistency), the lemma takes that property of the components as its
hypothesis. `TripleTermExamples` shows that these hypotheses can all hold together.

## Model

| member | source | states |
|---|---|---|
| `JavaInt.Wrap` | core/model-api/src/main/java/org/eclipse/rdf4j/model/base/AbstractTripleTerm.java:50-52 | Java `int` overflow: the result is a 32-bit value congruent to the exact result modulo 2^32 |
| `JavaInt.WrapCongruent` | core/model-api/src/main/java/org/eclipse/rdf4j/model/base/AbstractTripleTerm.java:50-52 | two exact results with the same residue modulo 2^32 wrap to the same `int` |
| `JavaInt.ObjectsHash` | core/model-api/src/main/java/org/eclipse/rdf4j/model/base/AbstractTripleTerm.java:50-52 | `Objects.hash` (`Arrays.hashCode`): start at 1, fold in each argument's hash as `31 * result + h` in `int` arithmetic; `ObjectsHashIsWrappedHorner` and `ObjectsHashOfThree` carry its contract |
| `JavaInt.ObjectsHashIsWrappedHorner` | core/model-api/src/main/java/org/eclipse/rdf4j/model/base/AbstractTripleTerm.java:50-52 | `Objects.hash` wraps after every `31 * result + h` step; this equals the exact polynomial 31^n + Σ h_i·31^(n-1-i) wrapped once |
| `JavaInt.ObjectsHashOfThree` | core/model-api/src/main/java/org/eclipse/rdf4j/model/base/AbstractTripleTerm.java:50-52 | `Objects.hash(a, b, c)` is `((31 + a) * 31 + b) * 31 + c` with 32-bit wrap-around |
| `AbstractTripleTerm.NewGenericTripleTerm` | core/model-api/src/main/java/org/eclipse/rdf4j/model/base/AbstractTripleTerm.java:67-71 | the constructor yields a triple term of class `GenericTripleTerm` that Java's types allow; null or ill-typed components are excluded by the parameter types, with no runtime check |
| `AbstractTripleTerm.GetSubject` | core/model-api/src/main/java/org/eclipse/rdf4j/model/base/AbstractTripleTerm.java:73-76 | `getSubject()` returns the stored subject, a `Resource`; `GettersReturnConstructorArguments` carries its contract |
| `AbstractTripleTerm.GetPredicate` | core/model-api/src/main/java/org/eclipse/rdf4j/model/base/AbstractTripleTerm.java:78-81 | `getPredicate()` returns the stored predicate, an `IRI`; `GettersReturnConstructorArguments` carries its contract |
| `AbstractTripleTerm.GetObject` | core/model-api/src/main/java/org/eclipse/rdf4j/model/base/AbstractTripleTerm.java:83-86 | `getObject()` returns the stored object, any `Value`; `GettersReturnConstructorArguments` carries its contract |
| `AbstractTripleTerm.GettersReturnConstructorArguments` | core/model-api/src/main/java/org/eclipse/rdf4j/model/base/AbstractTripleTerm.java:67-86 | `getSubject`, `getPredicate` and `getObject` return exactly the subject, predicate and object given to the constructor |
| `AbstractTripleTerm.Equals` | core/model-api/src/main/java/org/eclipse/rdf4j/model/base/AbstractTripleTerm.java:37-47 | `equals(o)`: a triple term can only equal another triple term (`instanceof TripleTerm`); `EqualsIsComponentwise`, `EqualsRejectsNonTripleTerms`, `EqualsReflexive`, `EqualsSymmetric`, `EqualsTransitive` and `EqualsIsStructural` carry the rest of its contract |
| `AbstractTripleTerm.EqualsIsComponentwise` | core/model-api/src/main/java/org/eclipse/rdf4j/model/base/AbstractTripleTerm.java:37-47 | `t.equals(o)` holds iff `o` is a triple term and the components are equal at every position; the order `Equals` checks them in (object, subject, predicate) does not matter |
| `AbstractTripleTerm.EqualsRejectsNonTripleTerms` | core/model-api/src/main/java/org/eclipse/rdf4j/model/base/AbstractTripleTerm.java:43 | a triple term is never equal to `null`, to an object that is no value, or to an IRI, blank node or literal |
| `AbstractTripleTerm.EqualsReflexive` | core/model-api/src/main/java/org/eclipse/rdf4j/model/base/AbstractTripleTerm.java:43-46 | every value, at any depth of nesting, equals itself, provided IRIs, blank nodes and literals do |
| `AbstractTripleTerm.EqualsSymmetric` | core/model-api/src/main/java/org/eclipse/rdf4j/model/base/AbstractTripleTerm.java:43-46 | `a.equals(b)` implies `b.equals(a)`, provided this holds among the other kinds and none of them equals a triple term |
| `AbstractTripleTerm.EqualsTransitive` | core/model-api/src/main/java/org/eclipse/rdf4j/model/base/AbstractTripleTerm.java:43-46 | `a.equals(b)` and `b.equals(c)` imply `a.equals(c)`, under the matching assumptions about the other kinds |
| `AbstractTripleTerm.EqualsIsStructural` | core/model-api/src/main/java/org/eclipse/rdf4j/model/base/AbstractTripleTerm.java:43-46 | when the other kinds compare kind and payload, two values are equal iff they are the same tree once the building classes are erased |
| `AbstractTripleTerm.EqualsIgnoresImplementationClass` | core/model-api/src/main/java/org/eclipse/rdf4j/model/base/AbstractTripleTerm.java:43-46 | triple terms built by any two classes from pairwise equal components (themselves possibly built by different classes) are equal |
| `AbstractTripleTerm.EqualsIsPositional` | core/model-api/src/main/java/org/eclipse/rdf4j/model/base/AbstractTripleTerm.java:43-46 | replacing any one component by a value it does not equal gives an unequal triple term |
| `AbstractTripleTerm.SwappingPredicateAndObjectBreaksEquality` | core/model-api/src/main/java/org/eclipse/rdf4j/model/base/AbstractTripleTerm.java:43-46 | swapping predicate and object gives an unequal triple term whenever the object does not equal the predicate |
| `AbstractTripleTerm.HashCode` | core/model-api/src/main/java/org/eclipse/rdf4j/model/base/AbstractTripleTerm.java:50-52 | `hashCode()`: for a triple term, `Objects.hash(s, p, o)`, whose ensures gives the closed form `((31 + h(s)) * 31 + h(p)) * 31 + h(o)` with 32-bit wrap-around; `EqualValuesHaveEqualHashCodes` carries its consistency with `equals` |
| `AbstractTripleTerm.EqualValuesHaveEqualHashCodes` | core/model-api/src/main/java/org/eclipse/rdf4j/model/base/AbstractTripleTerm.java:43-52 | equal values have equal hash codes at any nesting depth, provided this holds for IRIs, blank nodes and literals and none of those equals a triple term |
| `AbstractTripleTerm.StringValue` | core/model-api/src/main/java/org/eclipse/rdf4j/model/base/AbstractTripleTerm.java:31-34 | `stringValue()` starts with `<<(`, ends with `)>>` and is exactly eight characters longer than the three component strings; `StringValueShape` adds that each component string occurs in it |
| `AbstractTripleTerm.StringValueShape` | core/model-api/src/main/java/org/eclipse/rdf4j/model/base/AbstractTripleTerm.java:31-34 | `stringValue()` starts with `<<(`, ends with `)>>`, contains each component's string, and is exactly eight characters longer than the three together |
| `AbstractTripleTerm.ToString` | core/model-api/src/main/java/org/eclipse/rdf4j/model/base/AbstractTripleTerm.java:54-57 | `toString()` of a triple term is its `stringValue()`, so it has the `<<( ... )>>` shape; `NestedStringsAppear` carries the recursive rendering of nested terms |
| `AbstractTripleTerm.NestedStringsAppear` | core/model-api/src/main/java/org/eclipse/rdf4j/model/base/AbstractTripleTerm.java:31-57 | nested triple terms render recursively: the string of every value nested at any depth appears in the string of the enclosing value |
| `TripleTermExamples.ContractTestEqualityScenario` | core/model-api/src/test/java/org/eclipse/rdf4j/model/TripleTermTest.java:65-87 | the generic contract test's equality expectations hold: equal to itself and to a copy, unequal to `null`, to a plain object and to each one-component variant |
| `TripleTermExamples.MemoryAndSimpleTripleTermsCompareByContent` | core/sail/memory/src/test/java/org/eclipse/rdf4j/sail/memory/model/MemTripleTermTest.java:59-67 | a memory-store triple term equals a simple-factory triple term with the same IRIs, and differs once predicate and object are swapped |
| `TripleTermExamples.StringValueOfExampleTerm` | core/sail/memory/src/test/java/org/eclipse/rdf4j/sail/memory/model/MemTripleTermTest.java:49-57 | the example term's string starts with `<<(`, ends with `)>>` and contains the three IRIs |

## Left out

- The `this == o` reference-identity shortcut in `equals` (AbstractTripleTerm.java:43) is left out. Values have no identity here. `EqualsReflexive` shows the shortcut changes no result when the components' `equals` is reflexive.
- `serialVersionUID` (AbstractTripleTerm.java:29, 61) and Java serialization are left out. They do not affect value semantics.
- `equals`, `hashCode` and `toString` of IRIs, blank nodes and literals are not modelled. Their classes are not part of this model, so they are parameters (`Values.LeafMethods`) and the properties they must have are hypotheses. Leaf payloads are opaque strings.
- The `TripleTerm`, `Resource` and `Value` interfaces are not part of this model. The model assumes every triple-term class inherits `AbstractTripleTerm`'s `equals`, `hashCode` and `toString`.
- The model also lets a triple term stand in subject position, as a `Resource`. If Java forbids that, the model covers a superset of the possible values, and every lemma still holds for the values Java can build.
- `Objects.hash` treats a `null` argument as hash 0. The model leaves this out because a triple term's components are never null here.
- The memory store is left out: `MemTripleTerm`, `MemIRI`, interning, back-reference lists, snapshots and garbage collection. Their source is not part of this model. Memory-store values appear only as values tagged with their class.
- The HTTP protocol's value codec (`encodeValue`, `decodeValue`, `decodeContext`) and its location builders are left out. Their source is not part of this model, so their textual grammar would have to be invented.
- Java strings are UTF-16 sequences. The model uses Dafny's `string`, and no property here depends on the encoding.
- The factories under test throw `NullPointerException` on a null component (TripleTermTest.java:60-62), but the `GenericTripleTerm` constructor does not check for null (AbstractTripleTerm.java:67-71). The model follows the constructor: the component types rule out null, and there is no error path.
