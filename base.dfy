/** Vocabulary shared by the whole model: optional values, bytes, and two
    relations on sequences (filtering and being a subsequence). */
module Base {

  /** The outcome of a step that may fail, in place of a caught exception. */
  datatype Option<+T> = None | Some(value: T)

  /** One 8-bit value of a Python `bytes` object. */
  type byte = b: int | 0 <= b < 256

  /** All elements of `s` except the last one. */
  function DropLast<T>(s: seq<T>): seq<T>
    requires s != []
  {
    s[..|s| - 1]
  }

  function Last<T>(s: seq<T>): T
    requires s != []
  {
    s[|s| - 1]
  }

  /** A non-empty sequence is its front followed by its last element. */
  lemma Rejoin<T>(s: seq<T>)
    requires s != []
    ensures DropLast(s) + [Last(s)] == s
  {
  }

  /** No element occurs twice in `s`. */
  predicate Distinct<T(==)>(s: seq<T>) {
    forall i, j :: 0 <= i < j < |s| ==> s[i] != s[j]
  }

  /** The elements of `s` that satisfy `p`, in their order in `s`. */
  function Filter<T>(s: seq<T>, p: T -> bool): (r: seq<T>)
    ensures |r| <= |s|
  {
    if s == [] then [] else Filter(DropLast(s), p) + (if p(Last(s)) then [Last(s)] else [])
  }

  /** `a` is obtained from `b` by deleting elements, keeping the rest in order. */
  predicate Subsequence<T(==)>(a: seq<T>, b: seq<T>)
    decreases |b|
  {
    if a == [] then true
    else if b == [] then false
    else if Last(a) == Last(b) then Subsequence(DropLast(a), DropLast(b))
    else Subsequence(a, DropLast(b))
  }

  lemma {:induction false} FilterMembers<T>(s: seq<T>, p: T -> bool, x: T)
    ensures x in Filter(s, p) <==> x in s && p(x)
    decreases |s|
  {
    if s != [] {
      FilterMembers(DropLast(s), p, x);
      assert s == DropLast(s) + [Last(s)];
    }
  }

  lemma {:induction false} FilterAll<T>(s: seq<T>, p: T -> bool)
    ensures forall k :: 0 <= k < |Filter(s, p)| ==> p(Filter(s, p)[k])
    decreases |s|
  {
    if s != [] {
      FilterAll(DropLast(s), p);
    }
  }

  lemma FilterSingle<T>(y: T, p: T -> bool)
    ensures Filter([y], p) == if p(y) then [y] else []
  {
    assert DropLast([y]) == [];
  }

  lemma {:induction false} FilterAppend<T>(a: seq<T>, b: seq<T>, p: T -> bool)
    ensures Filter(a + b, p) == Filter(a, p) + Filter(b, p)
    decreases |b|
  {
    if b == [] {
      assert a + b == a;
    } else {
      assert DropLast(a + b) == a + DropLast(b);
      assert Last(a + b) == Last(b);
      FilterAppend(a, DropLast(b), p);
    }
  }

  /** Filtering a sequence with a head `y`. */
  lemma FilterCons<T>(y: T, s: seq<T>, p: T -> bool)
    ensures Filter([y] + s, p) == (if p(y) then [y] else []) + Filter(s, p)
  {
    FilterAppend([y], s, p);
    FilterSingle(y, p);
  }

  lemma {:induction false} SubsequenceExtend<T>(a: seq<T>, b: seq<T>, x: T)
    requires Subsequence(a, b)
    ensures Subsequence(a, b + [x])
    decreases |b|, 1
  {
    if a != [] {
      assert DropLast(b + [x]) == b;
      if Last(a) == x {
        // Matching `x` against the last element of `a` instead.
        SubsequenceDropLast(a, b);
      }
    }
  }

  /** Removing the last element of `a` keeps it a subsequence. */
  lemma {:induction false} SubsequenceDropLast<T>(a: seq<T>, b: seq<T>)
    requires a != [] && Subsequence(a, b)
    ensures Subsequence(DropLast(a), b)
    decreases |b|, 0
  {
    assert b != [];
    if Last(a) == Last(b) {
      if DropLast(a) != [] {
        SubsequenceExtend(DropLast(a), DropLast(b), Last(b));
        assert DropLast(b) + [Last(b)] == b;
      }
    } else {
      SubsequenceDropLast(a, DropLast(b));
      if DropLast(a) != [] {
        SubsequenceExtend(DropLast(a), DropLast(b), Last(b));
        assert DropLast(b) + [Last(b)] == b;
      }
    }
  }

  lemma {:induction false} FilterIsSubsequence<T>(s: seq<T>, p: T -> bool)
    ensures Subsequence(Filter(s, p), s)
    decreases |s|
  {
    if s != [] {
      FilterIsSubsequence(DropLast(s), p);
      var r := Filter(DropLast(s), p);
      if p(Last(s)) {
        assert DropLast(r + [Last(s)]) == r;
      } else {
        assert Filter(s, p) == r;
        SubsequenceExtend(r, DropLast(s), Last(s));
        assert DropLast(s) + [Last(s)] == s;
      }
    }
  }

  /** Every element of a subsequence is an element of the whole. */
  lemma {:induction false} SubsequenceMembers<T>(a: seq<T>, b: seq<T>, x: T)
    requires Subsequence(a, b) && x in a
    ensures x in b
    decreases |b|
  {
    if Last(a) == Last(b) {
      assert a == DropLast(a) + [Last(a)];
      assert b == DropLast(b) + [Last(b)];
      if x != Last(a) {
        SubsequenceMembers(DropLast(a), DropLast(b), x);
      }
    } else {
      SubsequenceMembers(a, DropLast(b), x);
      assert b == DropLast(b) + [Last(b)];
    }
  }

  lemma {:induction false} FilterDistinct<T>(s: seq<T>, p: T -> bool)
    requires Distinct(s)
    ensures Distinct(Filter(s, p))
    decreases |s|
  {
    if s != [] {
      var init := DropLast(s);
      assert forall i :: 0 <= i < |init| ==> init[i] == s[i];
      FilterDistinct(init, p);
      FilterMembers(init, p, Last(s));
    }
  }

  /** Nothing passes the filter when no element satisfies `p`. */
  lemma FilterNone<T>(s: seq<T>, p: T -> bool)
    requires forall k :: 0 <= k < |s| ==> !p(s[k])
    ensures Filter(s, p) == []
  {
    if Filter(s, p) != [] {
      FilterMembers(s, p, Filter(s, p)[0]);
    }
  }

  lemma {:induction false} SubsequenceLength<T>(a: seq<T>, b: seq<T>)
    requires Subsequence(a, b)
    ensures |a| <= |b|
    decreases |b|
  {
    if a != [] {
      if Last(a) == Last(b) {
        SubsequenceLength(DropLast(a), DropLast(b));
      } else {
        SubsequenceLength(a, DropLast(b));
      }
    }
  }
}
