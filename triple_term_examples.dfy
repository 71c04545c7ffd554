/** One admissible choice of the IRI, blank node and literal methods, showing that the
    assumptions the triple-term lemmas make can all hold at once, and the scenarios of the
    triple-term contract tests replayed on it. */
module TripleTermExamples {
  import opened JavaInt
  import opened Values
  import opened AbstractTripleTerm

  /** The text a leaf renders as: the IRI itself, `_:` and the node id, or the lexical form. */
  function Payload(v: Value): string
  {
    match v
    case Iri(_, i) => i
    case BNode(_, b) => "_:" + b
    case Literal(_, l, _, _) => l
    case Triple(_, _, _, _) => ""
  }

  /** Leaves equal when kind and payload agree, whatever class built them. */
  function PayloadEquals(a: Value, o: Obj): bool
  {
    o.Val? && Erase(a) == Erase(o.value)
  }

  /** Any function of the payload will do as a hash; here its length. */
  function PayloadHash(a: Value): Int32
  {
    Wrap(|Payload(a)|)
  }

  function PayloadLeaves(): LeafMethods
  {
    LeafMethods(PayloadEquals, PayloadHash, Payload)
  }

  lemma PayloadLeavesReflexive()
    ensures LeafReflexive(PayloadLeaves())
  {
  }

  lemma PayloadLeavesSymmetric()
    ensures LeafSymmetric(PayloadLeaves())
  {
  }

  lemma PayloadLeavesTransitive()
    ensures LeafTransitive(PayloadLeaves())
  {
  }

  lemma PayloadLeavesNeverEqualTriples()
    ensures LeafNeverEqualsTriple(PayloadLeaves())
  {
  }

  lemma PayloadLeavesHashConsistent()
    ensures LeafHashConsistent(PayloadLeaves())
  {
  }

  lemma PayloadLeavesStructural()
    ensures LeafStructural(PayloadLeaves())
  {
  }

  /** Every assumption used by the lemmas about `equals` and `hashCode` holds of it. */
  lemma PayloadLeavesObeyTheLaws()
    ensures LeafReflexive(PayloadLeaves()) && LeafSymmetric(PayloadLeaves())
    ensures LeafTransitive(PayloadLeaves()) && LeafNeverEqualsTriple(PayloadLeaves())
    ensures LeafHashConsistent(PayloadLeaves()) && LeafStructural(PayloadLeaves())
  {
    PayloadLeavesReflexive();
    PayloadLeavesSymmetric();
    PayloadLeavesTransitive();
    PayloadLeavesNeverEqualTriples();
    PayloadLeavesHashConsistent();
    PayloadLeavesStructural();
  }

  const MemIriClass := JavaClass("MemIRI")
  const SimpleIriClass := JavaClass("SimpleIRI")
  const MemTripleTermClass := JavaClass("MemTripleTerm")
  const SimpleTripleTermClass := JavaClass("SimpleTripleTerm")

  /** A memory-store triple term over memory-store IRIs equals the simple factory's triple
      term over simple IRIs with the same text, and is not equal once predicate and object
      are swapped. */
  lemma MemoryAndSimpleTripleTermsCompareByContent()
    ensures var m := PayloadLeaves();
      var mem := Triple(MemTripleTermClass, Iri(MemIriClass, "foo:s1"), Iri(MemIriClass, "foo:p1"), Iri(MemIriClass, "foo:o1"));
      var s1, p1, o1 := Iri(SimpleIriClass, "foo:s1"), Iri(SimpleIriClass, "foo:p1"), Iri(SimpleIriClass, "foo:o1");
      Equals(m, mem, Val(Triple(SimpleTripleTermClass, s1, p1, o1)))
      && !Equals(m, mem, Val(Triple(SimpleTripleTermClass, s1, o1, p1)))
  {
    var m := PayloadLeaves();
    var mem := Triple(MemTripleTermClass, Iri(MemIriClass, "foo:s1"), Iri(MemIriClass, "foo:p1"), Iri(MemIriClass, "foo:o1"));
    var s1, p1, o1 := Iri(SimpleIriClass, "foo:s1"), Iri(SimpleIriClass, "foo:p1"), Iri(SimpleIriClass, "foo:o1");
    assert Equals(m, mem.obj, Val(o1)) && Equals(m, mem.subj, Val(s1)) && Equals(m, mem.pred, Val(p1));
    assert !Equals(m, mem.obj, Val(p1)) by { assert "foo:o1"[4] != "foo:p1"[4]; }
  }

  /** The string form of that triple term starts with `<<(`, ends with `)>>` and holds
      the text of all three IRIs. */
  lemma StringValueOfExampleTerm()
    ensures var m := PayloadLeaves();
      var r := StringValue(m, Triple(MemTripleTermClass, Iri(MemIriClass, "foo:s1"), Iri(MemIriClass, "foo:p1"), Iri(MemIriClass, "foo:o1")));
      r[..3] == "<<(" && r[|r| - 3..] == ")>>"
      && IsInfix("foo:s1", r) && IsInfix("foo:p1", r) && IsInfix("foo:o1", r)
  {
    StringValueShape(PayloadLeaves(), Triple(MemTripleTermClass, Iri(MemIriClass, "foo:s1"), Iri(MemIriClass, "foo:p1"), Iri(MemIriClass, "foo:o1")));
  }

  /** The equality scenario of the generic contract test: a triple term equals itself and a
      copy, differs from `null` and a plain object, and from each one-component variant. */
  lemma ContractTestEqualityScenario(cls: JavaClass, copyCls: JavaClass)
    ensures var m := PayloadLeaves();
      var s, p, o := Iri(cls, "http://example.org/subject"), Iri(cls, "http://example.org/predicate"), Iri(cls, "http://example.org/object");
      var other := Iri(cls, "http://example.org/other");
      var t := Triple(cls, s, p, o);
      Equals(m, t, Val(t)) && Equals(m, t, Val(Triple(copyCls, s, p, o)))
      && !Equals(m, t, Null) && !Equals(m, t, NonValue(JavaClass("Object")))
      && !Equals(m, t, Val(Triple(copyCls, other, p, o)))
      && !Equals(m, t, Val(Triple(copyCls, s, other, o)))
      && !Equals(m, t, Val(Triple(copyCls, s, p, other)))
  {
    var m := PayloadLeaves();
    var s, p, o := Iri(cls, "http://example.org/subject"), Iri(cls, "http://example.org/predicate"), Iri(cls, "http://example.org/object");
    var other := Iri(cls, "http://example.org/other");
    var t := Triple(cls, s, p, o);
    PayloadLeavesReflexive();
    EqualsReflexive(m, t);
    EqualsReflexive(m, s);
    EqualsReflexive(m, p);
    EqualsReflexive(m, o);
    EqualsIgnoresImplementationClass(m, cls, copyCls, s, p, o, s, p, o);
    assert !Equals(m, s, Val(other)) by { assert "http://example.org/other"[19] != "http://example.org/subject"[19]; }
    assert !Equals(m, p, Val(other)) by { assert "http://example.org/other"[19] != "http://example.org/predicate"[19]; }
    assert !Equals(m, o, Val(other)) by { assert "http://example.org/other"[20] != "http://example.org/object"[20]; }
    EqualsIsPositional(m, t, 0, other, copyCls);
    EqualsIsPositional(m, t, 1, other, copyCls);
    EqualsIsPositional(m, t, 2, other, copyCls);
  }
}
