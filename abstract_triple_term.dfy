/** `AbstractTripleTerm`: the value semantics every triple-term class inherits (structural
    `equals`, `hashCode` through `Objects.hash`, the `<<( s p o )>>` string form), and
    `GenericTripleTerm`, the plain holder of the three components. */
module AbstractTripleTerm {
  import opened JavaInt
  import opened Values

  // ---------------------------------------------------------------------------------
  // GenericTripleTerm

  /** `new GenericTripleTerm(subject, predicate, object)`. The parameter types are Java's
      static types, so a null or ill-typed component cannot be passed. */
  function NewGenericTripleTerm(subj: JavaResource, pred: JavaIri, obj: JavaValue): (t: JavaTripleTerm)
    ensures t.cls == GenericTripleTermClass
  {
    assert WellTyped(pred);
    Triple(GenericTripleTermClass, subj, pred, obj)
  }

  function GetSubject(t: JavaTripleTerm): JavaResource { t.subj }

  function GetPredicate(t: JavaTripleTerm): JavaIri { t.pred }

  function GetObject(t: JavaTripleTerm): JavaValue { t.obj }

  /** The getters return exactly what the constructor was given. */
  lemma GettersReturnConstructorArguments(subj: JavaResource, pred: JavaIri, obj: JavaValue)
    ensures GetSubject(NewGenericTripleTerm(subj, pred, obj)) == subj
    ensures GetPredicate(NewGenericTripleTerm(subj, pred, obj)) == pred
    ensures GetObject(NewGenericTripleTerm(subj, pred, obj)) == obj
  {
  }

  // ---------------------------------------------------------------------------------
  // equals

  /** `a.equals(o)`. For a triple-term receiver: `o` must be some `TripleTerm` (of any class),
      and the objects, then the subjects, then the predicates must be equal, each compared
      by the receiver's component's own `equals`. Any other receiver uses its own class's
      `equals`, which is a parameter of the model. */
  function Equals(m: LeafMethods, a: Value, o: Obj): (r: bool)
    ensures a.Triple? && r ==> o.Val? && o.value.Triple?
    decreases a
  {
    match a
    case Triple(_, s, p, ob) =>
      o.Val? && o.value.Triple?
      && Equals(m, ob, Val(o.value.obj))
      && Equals(m, s, Val(o.value.subj))
      && Equals(m, p, Val(o.value.pred))
    case _ => m.equals(a, o)
  }

  /** The three components in the order subject, predicate, object. */
  function Components(t: Value): (c: seq<Value>)
    requires t.Triple?
    ensures |c| == 3
  {
    [t.subj, t.pred, t.obj]
  }

  /** `t` with its component at position `i` replaced by `x`, built by class `cls`. */
  function WithComponent(t: Value, i: nat, x: Value, cls: JavaClass): (r: Value)
    requires t.Triple? && i < 3
    ensures r.Triple? && Components(r)[i] == x
    ensures forall j :: 0 <= j < 3 && j != i ==> Components(r)[j] == Components(t)[j]
  {
    if i == 0 then Triple(cls, x, t.pred, t.obj)
    else if i == 1 then Triple(cls, t.subj, x, t.obj)
    else Triple(cls, t.subj, t.pred, x)
  }

  /** Equality of triple terms is position-wise equality of the components, whatever the
      order `Equals` checks them in (object, subject, predicate): `o` is a triple term and,
      at every position, the components are equal. */
  lemma EqualsIsComponentwise(m: LeafMethods, t: Value, o: Obj)
    requires t.Triple?
    ensures Equals(m, t, o) <==>
      o.Val? && o.value.Triple? &&
      forall i :: 0 <= i < 3 ==> Equals(m, Components(t)[i], Val(Components(o.value)[i]))
  {
    if o.Val? && o.value.Triple? {
      var c, d := Components(t), Components(o.value);
      assert Equals(m, t, o) == (Equals(m, c[2], Val(d[2])) && Equals(m, c[0], Val(d[0])) && Equals(m, c[1], Val(d[1])));
    }
  }

  /** A triple term never equals `null`, an object that is no value, or a value of another kind. */
  lemma EqualsRejectsNonTripleTerms(m: LeafMethods, t: Value, o: Obj)
    requires t.Triple?
    requires o.Null? || o.NonValue? || (o.Val? && o.value.IsLeaf())
    ensures !Equals(m, t, o)
  {
  }

  /** Every value equals itself, given that every IRI, blank node and literal does. */
  lemma {:induction false} EqualsReflexive(m: LeafMethods, v: Value)
    requires LeafReflexive(m)
    ensures Equals(m, v, Val(v))
  {
    if v.Triple? {
      EqualsReflexive(m, v.subj);
      EqualsReflexive(m, v.pred);
      EqualsReflexive(m, v.obj);
    }
  }

  /** `equals` is symmetric, given that it is among IRIs, blank nodes and literals and
      that none of those equals a triple term. */
  lemma {:induction false} EqualsSymmetric(m: LeafMethods, a: Value, b: Value)
    requires LeafSymmetric(m) && LeafNeverEqualsTriple(m)
    ensures Equals(m, a, Val(b)) ==> Equals(m, b, Val(a))
  {
    if a.Triple? && b.Triple? {
      EqualsSymmetric(m, a.subj, b.subj);
      EqualsSymmetric(m, a.pred, b.pred);
      EqualsSymmetric(m, a.obj, b.obj);
    } else if a.IsLeaf() && b.Triple? {
      assert !m.equals(a, Val(b));
    }
  }

  /** `equals` is transitive under the matching assumptions about the other kinds. */
  lemma {:induction false} EqualsTransitive(m: LeafMethods, a: Value, b: Value, c: Value)
    requires LeafTransitive(m) && LeafNeverEqualsTriple(m)
    ensures Equals(m, a, Val(b)) && Equals(m, b, Val(c)) ==> Equals(m, a, Val(c))
  {
    if a.Triple? && b.Triple? && c.Triple? {
      EqualsTransitive(m, a.subj, b.subj, c.subj);
      EqualsTransitive(m, a.pred, b.pred, c.pred);
      EqualsTransitive(m, a.obj, b.obj, c.obj);
    } else if a.IsLeaf() {
      if b.Triple? {
        assert !m.equals(a, Val(b));
      } else if Equals(m, a, Val(b)) && Equals(m, b, Val(c)) {
        assert m.equals(a, Val(b)) && m.equals(b, Val(c));
      }
    }
  }

  /** `equals` is structural: when IRIs, blank nodes and literals compare kind and payload,
      two values are equal exactly when they are the same tree once the building classes
      are forgotten, however deeply triple terms are nested. */
  lemma {:induction false} EqualsIsStructural(m: LeafMethods, a: Value, b: Value)
    requires LeafStructural(m)
    ensures Equals(m, a, Val(b)) <==> Erase(a) == Erase(b)
  {
    if a.Triple? {
      EqualsIsStructural(m, a.subj, if b.Triple? then b.subj else b);
      EqualsIsStructural(m, a.pred, if b.Triple? then b.pred else b);
      EqualsIsStructural(m, a.obj, if b.Triple? then b.obj else b);
    }
  }

  /** `equals` tests the `TripleTerm` interface and not the class: triple terms built by
      any two classes from pairwise equal components (themselves possibly built by
      different classes) are equal. */
  lemma EqualsIgnoresImplementationClass(m: LeafMethods, c1: JavaClass, c2: JavaClass,
                                         s1: Value, p1: Value, o1: Value, s2: Value, p2: Value, o2: Value)
    requires Equals(m, s1, Val(s2)) && Equals(m, p1, Val(p2)) && Equals(m, o1, Val(o2))
    ensures Equals(m, Triple(c1, s1, p1, o1), Val(Triple(c2, s2, p2, o2)))
  {
  }

  /** Equality is positional: replacing one component by a value it does not equal gives a
      triple term that is not equal to the original, whichever class builds it. */
  lemma EqualsIsPositional(m: LeafMethods, t: Value, i: nat, x: Value, cls: JavaClass)
    requires t.Triple? && i < 3
    requires !Equals(m, Components(t)[i], Val(x))
    ensures !Equals(m, t, Val(WithComponent(t, i, x, cls)))
  {
    EqualsIsComponentwise(m, t, Val(WithComponent(t, i, x, cls)));
  }

  /** Swapping predicate and object gives an unequal triple term when the object does not
      equal the predicate (the object is compared first). */
  lemma SwappingPredicateAndObjectBreaksEquality(m: LeafMethods, c1: JavaClass, c2: JavaClass, s: Value, p: Value, o: Value)
    requires !Equals(m, o, Val(p))
    ensures !Equals(m, Triple(c1, s, p, o), Val(Triple(c2, s, o, p)))
  {
  }

  // ---------------------------------------------------------------------------------
  // hashCode

  /** `v.hashCode()`: for a triple term `Objects.hash(subject, predicate, object)`;
      for any other kind its own class's `hashCode`, a parameter of the model.
      The hash of a triple term is, in closed form, `((31 + h(s)) * 31 + h(p)) * 31 + h(o)`
      with 32-bit wrap-around. */
  function HashCode(m: LeafMethods, v: Value): (h: Int32)
    ensures v.Triple? ==>
      h == Wrap(((31 + HashCode(m, v.subj)) * 31 + HashCode(m, v.pred)) * 31 + HashCode(m, v.obj))
    decreases v
  {
    match v
    case Triple(_, s, p, o) =>
      var hs, hp, ho := HashCode(m, s), HashCode(m, p), HashCode(m, o);
      ObjectsHashOfThree(hs, hp, ho);
      ObjectsHash([hs, hp, ho])
    case _ => m.hashCode(v)
  }

  /** The `Object.hashCode` contract: equal values have equal hash codes, given that it
      holds for IRIs, blank nodes and literals and that none of those equals a triple term. */
  lemma {:induction false} EqualValuesHaveEqualHashCodes(m: LeafMethods, a: Value, b: Value)
    requires LeafHashConsistent(m) && LeafNeverEqualsTriple(m)
    ensures Equals(m, a, Val(b)) ==> HashCode(m, a) == HashCode(m, b)
  {
    if a.Triple? && b.Triple? {
      EqualValuesHaveEqualHashCodes(m, a.subj, b.subj);
      EqualValuesHaveEqualHashCodes(m, a.pred, b.pred);
      EqualValuesHaveEqualHashCodes(m, a.obj, b.obj);
    }
  }

  // ---------------------------------------------------------------------------------
  // stringValue and toString

  /** `t.stringValue()`: `"<<(" + subject + " " + predicate + " " + object + ")>>"`, where
      string concatenation renders each component with its `toString`. */
  function StringValue(m: LeafMethods, t: Value): (r: string)
    requires t.Triple?
    ensures |r| == |ToString(m, t.subj)| + |ToString(m, t.pred)| + |ToString(m, t.obj)| + 8
    ensures r[..3] == "<<(" && r[|r| - 3..] == ")>>"
    decreases t, 0
  {
    "<<(" + ToString(m, t.subj) + " " + ToString(m, t.pred) + " " + ToString(m, t.obj) + ")>>"
  }

  /** `v.toString()`: a triple term returns its `stringValue()`; any other kind uses its own
      class's `toString`, a parameter of the model. */
  function ToString(m: LeafMethods, v: Value): (r: string)
    ensures v.Triple? ==> |r| >= 8 && r[..3] == "<<(" && r[|r| - 3..] == ")>>"
    decreases v, 1
  {
    if v.Triple? then StringValue(m, v) else m.toString(v)
  }

  /** `a` occurs in `s` as a contiguous piece. */
  ghost predicate IsInfix(a: string, s: string) {
    exists k :: InfixAt(a, s, k)
  }

  /** `a` occurs in `s` starting at index `k`. */
  predicate InfixAt(a: string, s: string, k: int) {
    0 <= k <= |s| - |a| && s[k..k + |a|] == a
  }

  lemma IsInfixAt(a: string, s: string, k: int)
    requires InfixAt(a, s, k)
    ensures IsInfix(a, s)
  {
  }

  lemma IsInfixTransitive(a: string, b: string, c: string)
    requires IsInfix(a, b) && IsInfix(b, c)
    ensures IsInfix(a, c)
  {
    var i :| InfixAt(a, b, i);
    var j :| InfixAt(b, c, j);
    assert 0 <= i <= |b| - |a| && b[i..i + |a|] == a;
    assert 0 <= j <= |c| - |b| && c[j..j + |b|] == b;
    forall t | 0 <= t < |a| ensures c[j + i + t] == a[t] {
      assert c[j..j + |b|][i + t] == b[i + t];
      assert b[i..i + |a|][t] == a[t];
    }
    assert c[j + i..j + i + |a|] == a;
    IsInfixAt(a, c, j + i);
  }

  /** The string form of a triple term opens with `<<(`, closes with `)>>`, holds the
      string of each component, and adds exactly eight characters to them. */
  lemma StringValueShape(m: LeafMethods, t: Value)
    requires t.Triple?
    ensures var r := StringValue(m, t);
      |r| == |ToString(m, t.subj)| + |ToString(m, t.pred)| + |ToString(m, t.obj)| + 8
      && r[..3] == "<<(" && r[|r| - 3..] == ")>>"
      && IsInfix(ToString(m, t.subj), r)
      && IsInfix(ToString(m, t.pred), r)
      && IsInfix(ToString(m, t.obj), r)
  {
    var r := StringValue(m, t);
    var s, p, o := ToString(m, t.subj), ToString(m, t.pred), ToString(m, t.obj);
    assert r == "<<(" + s + " " + p + " " + o + ")>>";
    assert r[3..3 + |s|] == s;
    IsInfixAt(s, r, 3);
    assert r[4 + |s|..4 + |s| + |p|] == p;
    IsInfixAt(p, r, 4 + |s|);
    assert r[5 + |s| + |p|..5 + |s| + |p| + |o|] == o;
    IsInfixAt(o, r, 5 + |s| + |p|);
  }

  /** `x` is `v` or a component of `v` at any depth of nesting. */
  predicate OccursIn(x: Value, v: Value)
    decreases v
  {
    x == v || (v.Triple? && (OccursIn(x, v.subj) || OccursIn(x, v.pred) || OccursIn(x, v.obj)))
  }

  /** Nested triple terms render recursively: the string of every value nested at any depth
      inside `v`, including inner triple terms and the IRIs, blank nodes and literals at the
      leaves, appears in the string of `v`. */
  lemma {:induction false} NestedStringsAppear(m: LeafMethods, x: Value, v: Value)
    requires OccursIn(x, v)
    ensures IsInfix(ToString(m, x), ToString(m, v))
    decreases v
  {
    if x == v {
      IsInfixAt(ToString(m, x), ToString(m, v), 0);
    } else {
      StringValueShape(m, v);
      var c := if OccursIn(x, v.subj) then v.subj else if OccursIn(x, v.pred) then v.pred else v.obj;
      NestedStringsAppear(m, x, c);
      IsInfixTransitive(ToString(m, x), ToString(m, c), ToString(m, v));
    }
  }
}
