/** Sequence helpers shared by the repositories and the services. */
module Collections {
  import opened Wrappers

  /** The elements of `s` that satisfy `p`, in their original order (a SQL WHERE over a table). */
  function Filter<T(!new)>(s: seq<T>, p: T -> bool): (r: seq<T>)
    ensures |r| <= |s|
    ensures forall x :: x in r <==> x in s && p(x)
    ensures forall x :: multiset(r)[x] == if p(x) then multiset(s)[x] else 0
  {
    if s == [] then []
    else
      assert s == [s[0]] + s[1..];
      (if p(s[0]) then [s[0]] else []) + Filter(s[1..], p)
  }

  lemma ConcatAssociative<T>(x: seq<T>, y: seq<T>, z: seq<T>)
    ensures x + (y + z) == (x + y) + z
  {
  }

  lemma {:induction false} FilterAppend<T(!new)>(a: seq<T>, b: seq<T>, p: T -> bool)
    ensures Filter(a + b, p) == Filter(a, p) + Filter(b, p)
  {
    if a == [] {
      assert a + b == b;
    } else {
      var ab := a + b;
      assert ab[0] == a[0] && ab[1..] == a[1..] + b;
      FilterAppend(a[1..], b, p);
      var head := if p(a[0]) then [a[0]] else [];
      assert Filter(ab, p) == head + Filter(ab[1..], p);
      assert Filter(a, p) == head + Filter(a[1..], p);
      assert Filter(ab[1..], p) == Filter(a[1..], p) + Filter(b, p);
      ConcatAssociative(head, Filter(a[1..], p), Filter(b, p));
    }
  }

  /** A filter that no element passes yields nothing. */
  lemma {:induction false} FilterNone<T(!new)>(s: seq<T>, p: T -> bool)
    requires forall i :: 0 <= i < |s| ==> !p(s[i])
    ensures Filter(s, p) == []
  {
    if s != [] {
      FilterNone(s[1..], p);
    }
  }

  function Reverse<T>(s: seq<T>): (r: seq<T>)
    ensures |r| == |s|
    ensures forall i :: 0 <= i < |s| ==> r[i] == s[|s| - 1 - i]
    ensures multiset(r) == multiset(s)
  {
    if s == [] then []
    else
      assert s == [s[0]] + s[1..];
      Reverse(s[1..]) + [s[0]]
  }

  /** Sum of `f` over `s`, accumulated front to back as the source's loops do. */
  function SumOf<T>(s: seq<T>, f: T -> int): int
  {
    if s == [] then 0 else SumOf(s[..|s| - 1], f) + f(s[|s| - 1])
  }

  lemma {:induction false} SumOfAppend<T>(a: seq<T>, b: seq<T>, f: T -> int)
    ensures SumOf(a + b, f) == SumOf(a, f) + SumOf(b, f)
    decreases |b|
  {
    if b != [] {
      assert (a + b)[..|a + b| - 1] == a + b[..|b| - 1];
      SumOfAppend(a, b[..|b| - 1], f);
    } else {
      assert a + b == a;
    }
  }

  /** Number of elements of `s` that satisfy `p` (a SQL COUNT). */
  function CountOf<T>(s: seq<T>, p: T -> bool): nat
  {
    if s == [] then 0 else CountOf(s[..|s| - 1], p) + (if p(s[|s| - 1]) then 1 else 0)
  }

  lemma {:induction false} CountPositive<T>(s: seq<T>, p: T -> bool)
    ensures CountOf(s, p) > 0 <==> exists i :: 0 <= i < |s| && p(s[i])
  {
    if s != [] {
      var init := s[..|s| - 1];
      CountPositive(init, p);
      if CountOf(init, p) > 0 {
        var i :| 0 <= i < |init| && p(init[i]);
        assert p(s[i]);
      }
    }
  }

  /** A count above one means two distinct positions match. */
  lemma {:induction false} CountAboveOne<T>(s: seq<T>, p: T -> bool)
    ensures CountOf(s, p) > 1 <==> exists i, j :: 0 <= i < j < |s| && p(s[i]) && p(s[j])
  {
    if s != [] {
      var init := s[..|s| - 1];
      CountAboveOne(init, p);
      CountPositive(init, p);
      if CountOf(s, p) > 1 {
        if CountOf(init, p) > 1 {
          var i, j :| 0 <= i < j < |init| && p(init[i]) && p(init[j]);
          assert p(s[i]) && p(s[j]);
        } else {
          var i :| 0 <= i < |init| && p(init[i]);
          assert p(s[i]) && p(s[|s| - 1]);
        }
      }
      if exists i, j :: 0 <= i < j < |s| && p(s[i]) && p(s[j]) {
        var i, j :| 0 <= i < j < |s| && p(s[i]) && p(s[j]);
        if j < |s| - 1 {
          assert p(init[i]) && p(init[j]);
        } else {
          assert p(init[i]);
        }
      }
    }
  }

  /** One more step of a counting loop over `s`. */
  lemma CountOfStep<T>(s: seq<T>, p: T -> bool, i: int)
    requires 0 <= i < |s|
    ensures CountOf(s[..i + 1], p) == CountOf(s[..i], p) + if p(s[i]) then 1 else 0
  {
    assert s[..i + 1][..i] == s[..i];
  }

  /** One more step of a summing loop over `s`. */
  lemma SumOfStep<T>(s: seq<T>, f: T -> int, i: int)
    requires 0 <= i < |s|
    ensures SumOf(s[..i + 1], f) == SumOf(s[..i], f) + f(s[i])
  {
    assert s[..i + 1][..i] == s[..i];
  }

  lemma {:induction false} CountOfAppend<T>(a: seq<T>, b: seq<T>, p: T -> bool)
    ensures CountOf(a + b, p) == CountOf(a, p) + CountOf(b, p)
    decreases |b|
  {
    if b != [] {
      assert (a + b)[..|a + b| - 1] == a + b[..|b| - 1];
      CountOfAppend(a, b[..|b| - 1], p);
    } else {
      assert a + b == a;
    }
  }

  /** Every element satisfies exactly one of `p` and `q`: the two counts add up to the length. */
  lemma {:induction false} CountComplement<T>(s: seq<T>, p: T -> bool, q: T -> bool)
    requires forall i :: 0 <= i < |s| ==> p(s[i]) != q(s[i])
    ensures CountOf(s, p) + CountOf(s, q) == |s|
  {
    if s != [] {
      CountComplement(s[..|s| - 1], p, q);
    }
  }

  /** Position by position, `p` on `a` implies `q` on `b`: the first count is at most the second. */
  lemma {:induction false} CountMonotone<T, U>(a: seq<T>, b: seq<U>, p: T -> bool, q: U -> bool)
    requires |a| == |b|
    requires forall i :: 0 <= i < |a| ==> p(a[i]) ==> q(b[i])
    ensures CountOf(a, p) <= CountOf(b, q)
  {
    if a != [] {
      CountMonotone(a[..|a| - 1], b[..|b| - 1], p, q);
    }
  }

  /** A sum of `f` splits into a sum of `g` and a sum of `h` when `f` does so on every element. */
  lemma {:induction false} SumOfSplit<T>(s: seq<T>, f: T -> int, g: T -> int, h: T -> int)
    requires forall i :: 0 <= i < |s| ==> f(s[i]) == g(s[i]) + h(s[i])
    ensures SumOf(s, f) == SumOf(s, g) + SumOf(s, h)
  {
    if s != [] {
      SumOfSplit(s[..|s| - 1], f, g, h);
    }
  }

  /** The last element of `s` whose key is `k`: what a Go map keeps when it is filled in order. */
  function LastWith<T>(s: seq<T>, key: T -> int, k: int): (r: Option<T>)
    ensures r.None? <==> forall i :: 0 <= i < |s| ==> key(s[i]) != k
    ensures r.Some? ==>
      exists i :: 0 <= i < |s| && s[i] == r.value && key(s[i]) == k &&
        forall j :: i < j < |s| ==> key(s[j]) != k
  {
    if s == [] then None
    else if key(s[|s| - 1]) == k then Some(s[|s| - 1])
    else LastWith(s[..|s| - 1], key, k)
  }

  /** The map a Go loop `m[key(x)] = val(x)` builds over `s`. */
  function IndexByLast<T, V>(s: seq<T>, key: T -> int, val: T -> V): (m: map<int, V>)
    ensures forall k :: k in m <==> LastWith(s, key, k).Some?
    ensures forall k :: k in m ==> m[k] == val(LastWith(s, key, k).value)
  {
    if s == [] then map[]
    else IndexByLast(s[..|s| - 1], key, val)[key(s[|s| - 1]) := val(s[|s| - 1])]
  }

  /** The loop that fills such a map. */
  method BuildIndex<T, V>(s: seq<T>, key: T -> int, val: T -> V) returns (m: map<int, V>)
    ensures m == IndexByLast(s, key, val)
  {
    m := map[];
    for i := 0 to |s|
      invariant m == IndexByLast(s[..i], key, val)
    {
      assert s[..i + 1][..i] == s[..i];
      m := m[key(s[i]) := val(s[i])];
    }
    assert s[..|s|] == s;
  }
}
