/** RDF values as the `org.eclipse.rdf4j.model` interfaces see them: IRIs, blank nodes,
    literals and triple terms, where a triple term is itself a value and can be nested
    inside another one. */
module Values {
  import opened JavaInt

  /** The concrete Java class an object was built by (`GenericTripleTerm`, a memory-store
      class, a class of the simple value factory, ...). Equality must not look at it. */
  datatype JavaClass = JavaClass(name: string)

  const GenericTripleTermClass: JavaClass := JavaClass("GenericTripleTerm")

  /** An RDF value. The payloads of the three non-triple kinds are opaque: their classes
      are not part of this model and only their `equals`, `hashCode` and `toString`
      (see `LeafMethods`) matter to a triple term. A literal's `language` tag is empty
      when it has none. */
  datatype Value =
    | Iri(cls: JavaClass, iri: string)
    | BNode(cls: JavaClass, id: string)
    | Literal(cls: JavaClass, lexical: string, datatypeIri: string, language: string)
    | Triple(cls: JavaClass, subj: Value, pred: Value, obj: Value)
  {
    /** A `Resource`: anything that may stand in subject position. */
    predicate IsResource() {
      Iri? || BNode? || Triple?
    }

    /** True of the kinds whose own classes are not modelled. */
    predicate IsLeaf() {
      !Triple?
    }
  }

  /** The argument of `equals(Object o)`: `null`, an object that is no RDF value
      (`new Object()`), or a value. */
  datatype Obj = Null | NonValue(cls: JavaClass) | Val(value: Value)

  /** Java's static types hold at every level: a triple term's subject is a `Resource`,
      its predicate an `IRI`, and its object any `Value`. */
  predicate WellTyped(v: Value) {
    match v
    case Triple(_, s, p, o) => s.IsResource() && p.Iri? && WellTyped(s) && WellTyped(p) && WellTyped(o)
    case _ => true
  }

  /** The values Java code can build; none of them is or contains `null`. */
  type JavaValue = v: Value | WellTyped(v) witness Iri(JavaClass(""), "")
  type JavaResource = v: Value | WellTyped(v) && v.IsResource() witness Iri(JavaClass(""), "")
  type JavaIri = v: Value | v.Iri? witness Iri(JavaClass(""), "")
  type JavaTripleTerm = v: Value | WellTyped(v) && v.Triple?
    witness Triple(JavaClass(""), Iri(JavaClass(""), ""), Iri(JavaClass(""), ""), Iri(JavaClass(""), ""))

  /** `equals`, `hashCode` and `toString` of the IRI, blank node and literal classes. They
      are not part of this model, so a triple term's behaviour is stated for any choice of
      them; only the receiver's kind (never a triple) reaches these functions. */
  datatype LeafMethods = LeafMethods(
    equals: (Value, Obj) -> bool,
    hashCode: Value -> Int32,
    toString: Value -> string)

  /** The same value with every class tag forgotten: what "structurally equal" means. */
  function Erase(v: Value): (e: Value)
    ensures e.IsLeaf() == v.IsLeaf()
  {
    match v
    case Iri(_, i) => Iri(JavaClass(""), i)
    case BNode(_, b) => BNode(JavaClass(""), b)
    case Literal(_, l, d, g) => Literal(JavaClass(""), l, d, g)
    case Triple(_, s, p, o) => Triple(JavaClass(""), Erase(s), Erase(p), Erase(o))
  }

  // The laws the non-triple classes are assumed to obey, one per property of
  // `Object.equals` and `Object.hashCode` that the triple term passes on.

  ghost predicate LeafReflexive(m: LeafMethods) {
    forall a: Value :: a.IsLeaf() ==> m.equals(a, Val(a))
  }

  ghost predicate LeafSymmetric(m: LeafMethods) {
    forall a: Value, b: Value :: a.IsLeaf() && b.IsLeaf() && m.equals(a, Val(b)) ==> m.equals(b, Val(a))
  }

  ghost predicate LeafTransitive(m: LeafMethods) {
    forall a: Value, b: Value, c: Value ::
      a.IsLeaf() && b.IsLeaf() && m.equals(a, Val(b)) && m.equals(b, Val(c)) ==> m.equals(a, Val(c))
  }

  /** An IRI, blank node or literal never equals a triple term. */
  ghost predicate LeafNeverEqualsTriple(m: LeafMethods) {
    forall a: Value, b: Value :: a.IsLeaf() && b.Triple? ==> !m.equals(a, Val(b))
  }

  /** Equal leaves have equal hash codes. */
  ghost predicate LeafHashConsistent(m: LeafMethods) {
    forall a: Value, b: Value :: a.IsLeaf() && b.IsLeaf() && m.equals(a, Val(b)) ==> m.hashCode(a) == m.hashCode(b)
  }

  /** Leaf equality compares kind and payload, and not the class that built the value. */
  ghost predicate LeafStructural(m: LeafMethods) {
    forall a: Value, b: Value :: a.IsLeaf() ==> (m.equals(a, Val(b)) <==> Erase(a) == Erase(b))
  }
}
