/**
 * Resolved types, as the type oracle (go/types) hands them to the core, and
 * the interface identity comparator built on an abstract signature identity.
 *
 * Signatures are values of a type parameter `S`; their identity is a relation
 * `eq` supplied by the caller (types.Identical on signatures). Nothing is
 * assumed about `eq` except where a lemma says so.
 */
module GoTypes {
  import opened Common

  /** One method of a resolved interface: its name and its signature. */
  datatype Method<S> = Method(name: string, sig: S)

  /** A resolved type: a named type with its underlying type, an interface, a signature, or anything else. */
  datatype Type<S> =
    | Named(name: string, underlying: Type<S>)
    | Interface(methods: seq<Method<S>>)
    | Signature(sig: S)
    | Other

  /** types.Type.Underlying: a named type's underlying type; any other type is its own. */
  function Underlying<S>(t: Type<S>): Type<S>
  {
    if t.Named? then t.underlying else t
  }

  /** `b` declares a method with the name of `m` and an identical signature. */
  predicate HasMatch<S>(m: Method<S>, b: seq<Method<S>>, eq: (S, S) -> bool)
  {
    exists j :: 0 <= j < |b| && b[j].name == m.name && eq(m.sig, b[j].sig)
  }

  /**
   * Interface identity as the comparator decides it: the same number of
   * methods, and every method of `a` has a same-named, identical-signature
   * method in `b`. The order of declaration plays no part.
   */
  predicate SameInterface<S>(a: seq<Method<S>>, b: seq<Method<S>>, eq: (S, S) -> bool)
  {
    |a| == |b| && forall i :: 0 <= i < |a| ==> HasMatch(a[i], b, eq)
  }

  /** Two empty interfaces are the same, and an empty interface is the same only as an empty one. */
  lemma EmptyInterfacesSame<S>(b: seq<Method<S>>, eq: (S, S) -> bool)
    ensures SameInterface([], b, eq) <==> b == []
  {
  }

  /** Method names are unique within one resolved interface (the type checker guarantees it). */
  predicate UniqueNames<S>(a: seq<Method<S>>)
  {
    forall i, j :: 0 <= i < j < |a| ==> a[i].name != a[j].name
  }

  function Names<S>(a: seq<Method<S>>): set<string>
  {
    set i | 0 <= i < |a| :: a[i].name
  }

  lemma {:induction false} NamesCard<S>(a: seq<Method<S>>)
    requires UniqueNames(a)
    ensures |Names(a)| == |a|
  {
    if a != [] {
      NamesCard(a[1..]);
      assert Names(a) == {a[0].name} + Names(a[1..]);
      assert a[0].name !in Names(a[1..]);
    }
  }

  lemma SubsetSameCard<T>(x: set<T>, y: set<T>)
    requires x <= y && |x| == |y|
    ensures x == y
  {
    assert y * x == x;
    assert |y - x| == 0;
  }

  /**
   * The comparator is symmetric when signature identity is an equivalence and
   * each interface has unique method names.
   */
  lemma SameInterfaceSymmetric<S(!new)>(a: seq<Method<S>>, b: seq<Method<S>>, eq: (S, S) -> bool)
    requires IsEquivalence(eq)
    requires UniqueNames(a) && UniqueNames(b)
    ensures SameInterface(a, b, eq) <==> SameInterface(b, a, eq)
  {
    if SameInterface(a, b, eq) {
      OneWay(a, b, eq);
    }
    if SameInterface(b, a, eq) {
      OneWay(b, a, eq);
    }
  }

  lemma OneWay<S(!new)>(a: seq<Method<S>>, b: seq<Method<S>>, eq: (S, S) -> bool)
    requires IsEquivalence(eq)
    requires UniqueNames(a) && UniqueNames(b)
    requires SameInterface(a, b, eq)
    ensures SameInterface(b, a, eq)
  {
    NamesCard(a);
    NamesCard(b);
    assert Names(a) <= Names(b) by {
      forall n | n in Names(a) ensures n in Names(b) {
        var i :| 0 <= i < |a| && a[i].name == n;
        assert HasMatch(a[i], b, eq);
      }
    }
    SubsetSameCard(Names(a), Names(b));
    forall j | 0 <= j < |b| ensures HasMatch(b[j], a, eq) {
      assert b[j].name in Names(a);
      var i :| 0 <= i < |a| && a[i].name == b[j].name;
      assert HasMatch(a[i], b, eq);
      var j' :| 0 <= j' < |b| && b[j'].name == a[i].name && eq(a[i].sig, b[j'].sig);
      assert j' == j;
    }
  }

  /**
   * Without unique names the comparator is not symmetric: [f, f] is "the same"
   * as [f, g] but not the other way round.
   */
  lemma SameInterfaceNeedsUniqueNames(s: int, t: int)
    requires s != t
    ensures var a := [Method("f", s), Method("f", s)];
            var b := [Method("f", s), Method("g", t)];
            var eq := (x: int, y: int) => x == y;
            SameInterface(a, b, eq) && !SameInterface(b, a, eq)
  {
    var a := [Method("f", s), Method("f", s)];
    var b := [Method("f", s), Method("g", t)];
    var eq := (x: int, y: int) => x == y;
    assert HasMatch(a[0], b, eq) && HasMatch(a[1], b, eq) by {
      assert b[0].name == "f";
    }
    assert !HasMatch(b[1], a, eq) by {
      assert a[0].name == "f" && a[1].name == "f" && b[1].name == "g";
    }
  }

  /** Reordering the methods of either interface does not change the verdict. */
  lemma SameInterfaceReorder<S>(a: seq<Method<S>>, a': seq<Method<S>>, b: seq<Method<S>>, b': seq<Method<S>>,
                                eq: (S, S) -> bool)
    requires multiset(a) == multiset(a') && multiset(b) == multiset(b')
    ensures SameInterface(a, b, eq) <==> SameInterface(a', b', eq)
  {
    assert |a| == |multiset(a)| == |a'|;
    assert |b| == |multiset(b)| == |b'|;
    forall m: Method<S> ensures HasMatch(m, b, eq) <==> HasMatch(m, b', eq) {
      if HasMatch(m, b, eq) {
        MatchPermutation(m, b, b', eq);
      }
      if HasMatch(m, b', eq) {
        MatchPermutation(m, b', b, eq);
      }
    }
    if SameInterface(a, b, eq) {
      forall i | 0 <= i < |a'| ensures HasMatch(a'[i], b', eq) {
        assert a'[i] in multiset(a);
        var k :| 0 <= k < |a| && a[k] == a'[i];
      }
    }
    if SameInterface(a', b', eq) {
      forall i | 0 <= i < |a| ensures HasMatch(a[i], b, eq) {
        assert a[i] in multiset(a');
        var k :| 0 <= k < |a'| && a'[k] == a[i];
      }
    }
  }

  lemma MatchPermutation<S>(m: Method<S>, b: seq<Method<S>>, b': seq<Method<S>>, eq: (S, S) -> bool)
    requires multiset(b) == multiset(b')
    requires HasMatch(m, b, eq)
    ensures HasMatch(m, b', eq)
  {
    var j :| 0 <= j < |b| && b[j].name == m.name && eq(m.sig, b[j].sig);
    assert b[j] in multiset(b');
    var j' :| 0 <= j' < |b'| && b'[j'] == b[j];
  }
}
