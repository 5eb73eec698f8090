/** Small shared vocabulary: optional values, subsequences and equivalence relations. */
module Common {

  /** A value that may be absent: Go's nil pointer or nil slice. */
  datatype Option<+T> = None | Some(value: T)

  /** `a` is obtained from `b` by deleting elements, keeping the order of the rest. */
  predicate IsSubsequence<T(==)>(a: seq<T>, b: seq<T>)
    decreases |b|
  {
    if a == [] then true
    else if b == [] then false
    else if a[0] == b[0] then IsSubsequence(a[1..], b[1..])
    else IsSubsequence(a, b[1..])
  }

  lemma {:induction false} SubsequenceNotLonger<T>(a: seq<T>, b: seq<T>)
    requires IsSubsequence(a, b)
    ensures |a| <= |b|
    decreases |b|
  {
    if a != [] {
      if a[0] == b[0] {
        SubsequenceNotLonger(a[1..], b[1..]);
      } else {
        SubsequenceNotLonger(a, b[1..]);
      }
    }
  }

  /** Keeps the elements of `xs` whose flag in `mask` is set. */
  function Select<T>(xs: seq<T>, mask: seq<bool>): (r: seq<T>)
    requires |mask| == |xs|
  {
    if xs == [] then []
    else (if mask[0] then [xs[0]] else []) + Select(xs[1..], mask[1..])
  }

  lemma {:induction false} SelectSnoc<T>(xs: seq<T>, mask: seq<bool>, x: T, b: bool)
    requires |mask| == |xs|
    ensures Select(xs + [x], mask + [b]) == Select(xs, mask) + (if b then [x] else [])
  {
    if xs == [] {
      assert xs + [x] == [x];
      assert mask + [b] == [b];
    } else {
      assert (xs + [x])[1..] == xs[1..] + [x];
      assert (mask + [b])[1..] == mask[1..] + [b];
      SelectSnoc(xs[1..], mask[1..], x, b);
    }
  }

  lemma {:induction false} SelectIsSubsequence<T>(xs: seq<T>, mask: seq<bool>)
    requires |mask| == |xs|
    ensures IsSubsequence(Select(xs, mask), xs)
  {
    if xs != [] {
      var rest := Select(xs[1..], mask[1..]);
      SelectIsSubsequence(xs[1..], mask[1..]);
      if mask[0] {
        assert Select(xs, mask) == [xs[0]] + rest;
        assert ([xs[0]] + rest)[1..] == rest;
      } else {
        assert Select(xs, mask) == rest;
        SubsequenceOfTail(rest, xs);
      }
    }
  }

  lemma {:induction false} SubsequenceOfTail<T>(a: seq<T>, b: seq<T>)
    requires b != [] && IsSubsequence(a, b[1..])
    ensures IsSubsequence(a, b)
    decreases |b|, |a|
  {
    if a != [] && a[0] == b[0] {
      // b[1..] contains a, so b[1..] also contains a[1..] after the element matching a[0]
      SubsequenceDropHead(a, b[1..]);
    }
  }

  lemma {:induction false} SubsequenceDropHead<T>(a: seq<T>, b: seq<T>)
    requires a != [] && IsSubsequence(a, b)
    ensures IsSubsequence(a[1..], b)
    decreases |b|, |a|
  {
    if a[0] == b[0] {
      if b[1..] != [] {
        SubsequenceOfTail(a[1..], b);
      } else {
        assert a[1..] == [];
      }
    } else {
      SubsequenceDropHead(a, b[1..]);
      SubsequenceOfTail(a[1..], b);
    }
  }

  /** Concatenation is associative. */
  lemma ConcatAssoc<T>(a: seq<T>, b: seq<T>, c: seq<T>)
    ensures a + b + c == a + (b + c)
  {
  }

  /** `eq` is reflexive, symmetric and transitive. */
  ghost predicate IsEquivalence<T(!new)>(eq: (T, T) -> bool)
  {
    && (forall x :: eq(x, x))
    && (forall x, y :: eq(x, y) ==> eq(y, x))
    && (forall x, y, z :: eq(x, y) && eq(y, z) ==> eq(x, z))
  }
}
