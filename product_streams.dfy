/** The stream pipelines of the cart manager: filtering a product list by
    membership of each product's id in a list of ids, and `distinct`, which
    keeps the first occurrence of every element in encounter order. */
module ProductStreams {
  import opened Model

  /** t is obtained from s by deleting elements, keeping the order of the rest. */
  ghost predicate IsSubsequence<T>(t: seq<T>, s: seq<T>)
    decreases |s|
  {
    if s == [] then t == []
    else (t != [] && t[0] == s[0] && IsSubsequence(t[1..], s[1..])) || IsSubsequence(t, s[1..])
  }

  /** No element occurs twice (under the element type's equality). */
  predicate NoDuplicates<T(==)>(s: seq<T>)
  {
    forall i, j | 0 <= i < j < |s| :: s[i] != s[j]
  }

  function Elements<T>(s: seq<T>): (r: set<T>)
  {
    set x | x in s
  }

  // ---------------------------------------------------------------------
  // Filtering by id: `list.stream().filter(p -> ids.contains(p.getId()))`
  // and its negation.
  // ---------------------------------------------------------------------

  /** The products of s whose id is in ids (keep) or is not in ids (!keep),
      in the order of s. */
  function SelectByIds(s: seq<Product>, ids: seq<Uuid>, keep: bool): (r: seq<Product>)
    ensures |r| <= |s|
    ensures forall p | p in r :: p in s && (p.id in ids) == keep
  {
    if s == [] then []
    else if (s[0].id in ids) == keep then [s[0]] + SelectByIds(s[1..], ids, keep)
    else SelectByIds(s[1..], ids, keep)
  }

  /** The catalog products whose id is requested. */
  function WithIds(catalog: seq<Product>, ids: seq<Uuid>): (r: seq<Product>)
  {
    SelectByIds(catalog, ids, true)
  }

  /** The products whose id is not listed for removal. */
  function WithoutIds(products: seq<Product>, ids: seq<Uuid>): (r: seq<Product>)
  {
    SelectByIds(products, ids, false)
  }

  /** A product is selected exactly when it occurs in s and its id passes the test. */
  lemma {:induction false} SelectMembership(s: seq<Product>, ids: seq<Uuid>, keep: bool, p: Product)
    ensures p in SelectByIds(s, ids, keep) <==> p in s && (p.id in ids) == keep
  {
    if s != [] && p != s[0] {
      SelectMembership(s[1..], ids, keep, p);
    }
  }

  /** Every selected product keeps its multiplicity; every other one is gone. */
  lemma {:induction false} SelectCount(s: seq<Product>, ids: seq<Uuid>, keep: bool, p: Product)
    ensures multiset(SelectByIds(s, ids, keep))[p] == if (p.id in ids) == keep then multiset(s)[p] else 0
  {
    if s != [] {
      SelectCount(s[1..], ids, keep, p);
      assert s == [s[0]] + s[1..];
    }
  }

  /** The selection is in the order of s. */
  lemma {:induction false} SelectIsSubsequence(s: seq<Product>, ids: seq<Uuid>, keep: bool)
    ensures IsSubsequence(SelectByIds(s, ids, keep), s)
  {
    if s != [] {
      SelectIsSubsequence(s[1..], ids, keep);
      var r := SelectByIds(s, ids, keep);
      if (s[0].id in ids) == keep {
        assert r[1..] == SelectByIds(s[1..], ids, keep);
      }
    }
  }

  /** Splitting by one id list loses and invents nothing. */
  lemma {:induction false} SelectPartition(s: seq<Product>, ids: seq<Uuid>)
    ensures multiset(WithIds(s, ids)) + multiset(WithoutIds(s, ids)) == multiset(s)
  {
    if s != [] {
      SelectPartition(s[1..], ids);
      assert s == [s[0]] + s[1..];
    }
  }

  /** Filtering twice by the same ids is filtering once. */
  lemma {:induction false} SelectIdempotent(s: seq<Product>, ids: seq<Uuid>, keep: bool)
    ensures SelectByIds(SelectByIds(s, ids, keep), ids, keep) == SelectByIds(s, ids, keep)
  {
    if s != [] {
      SelectIdempotent(s[1..], ids, keep);
      var r := SelectByIds(s[1..], ids, keep);
      if (s[0].id in ids) == keep {
        assert ([s[0]] + r)[1..] == r;
      }
    }
  }

  /** Removing no ids keeps every product, in place. */
  lemma {:induction false} WithoutNoIds(s: seq<Product>)
    ensures WithoutIds(s, []) == s
  {
    if s != [] {
      WithoutNoIds(s[1..]);
      assert s == [s[0]] + s[1..];
    }
  }

  /** Nothing matches exactly when no catalog product has a requested id. */
  lemma WithIdsEmptyIff(catalog: seq<Product>, ids: seq<Uuid>)
    ensures WithIds(catalog, ids) == [] <==> forall p | p in catalog :: p.id !in ids
  {
    var r := WithIds(catalog, ids);
    if r != [] {
      assert r[0] in r;
    } else {
      forall p | p in catalog ensures p.id !in ids {
        SelectMembership(catalog, ids, true, p);
      }
    }
  }

  // ---------------------------------------------------------------------
  // `Stream.distinct()`: equality-based, first occurrence wins, encounter
  // order kept.
  // ---------------------------------------------------------------------

  /** The elements of s that are not in seen, each once, at its first occurrence. */
  function DistinctAfter<T(==)>(s: seq<T>, seen: set<T>): (r: seq<T>)
    decreases |s|
  {
    if s == [] then []
    else if s[0] in seen then DistinctAfter(s[1..], seen)
    else [s[0]] + DistinctAfter(s[1..], seen + {s[0]})
  }

  /** DistinctAfter drops exactly the seen elements, and repeats nothing. */
  lemma {:induction false} DistinctAfterFacts<T>(s: seq<T>, seen: set<T>)
    ensures forall x | x in DistinctAfter(s, seen) :: x in s && x !in seen
    ensures forall x | x in s && x !in seen :: x in DistinctAfter(s, seen)
    ensures NoDuplicates(DistinctAfter(s, seen))
    decreases |s|
  {
    if s != [] {
      if s[0] in seen {
        DistinctAfterFacts(s[1..], seen);
      } else {
        var rest := DistinctAfter(s[1..], seen + {s[0]});
        DistinctAfterFacts(s[1..], seen + {s[0]});
        var r := [s[0]] + rest;
        assert forall i | 0 < i < |r| :: r[i] == rest[i - 1];
      }
    }
  }

  /** `s.stream().distinct()`. */
  function Distinct<T(==)>(s: seq<T>): (r: seq<T>)
    ensures forall x | x in r :: x in s
    ensures forall x | x in s :: x in r
    ensures NoDuplicates(r)
  {
    DistinctAfterFacts(s, {});
    DistinctAfter(s, {})
  }

  /** The de-duplicated list is in the order of the input. */
  lemma {:induction false} DistinctAfterIsSubsequence<T>(s: seq<T>, seen: set<T>)
    ensures IsSubsequence(DistinctAfter(s, seen), s)
    decreases |s|
  {
    if s != [] {
      if s[0] in seen {
        DistinctAfterIsSubsequence(s[1..], seen);
      } else {
        DistinctAfterIsSubsequence(s[1..], seen + {s[0]});
        var r := DistinctAfter(s, seen);
        assert r[1..] == DistinctAfter(s[1..], seen + {s[0]});
      }
    }
  }

  /** Appending one element to the input appends it to the output exactly
      when it is new: the first occurrence is the one kept. */
  lemma {:induction false} DistinctAfterSnoc<T>(s: seq<T>, x: T, seen: set<T>)
    ensures DistinctAfter(s + [x], seen)
         == DistinctAfter(s, seen) + (if x in s || x in seen then [] else [x])
    decreases |s|
  {
    if s == [] {
      assert s + [x] == [x] && [x][1..] == [];
    } else {
      assert (s + [x])[0] == s[0] && (s + [x])[1..] == s[1..] + [x];
      assert x in s <==> x == s[0] || x in s[1..];
      if s[0] in seen {
        DistinctAfterSnoc(s[1..], x, seen);
      } else {
        DistinctAfterSnoc(s[1..], x, seen + {s[0]});
      }
    }
  }

  /** Distinct as a left-to-right scan: the reference definition
      `Distinct([]) == []`, `Distinct(s + [x]) == Distinct(s) + [x]` when x is
      new and `== Distinct(s)` otherwise. */
  lemma DistinctSnoc<T>(s: seq<T>, x: T)
    ensures Distinct(s + [x]) == if x in s then Distinct(s) else Distinct(s) + [x]
  {
    DistinctAfterSnoc(s, x, {});
  }

  /** An element not yet seen is emitted and then counts as seen. */
  lemma DistinctAfterCons<T>(x: T, t: seq<T>, seen: set<T>)
    requires x !in seen
    ensures DistinctAfter([x] + t, seen) == [x] + DistinctAfter(t, seen + {x})
  {
    assert ([x] + t)[0] == x && ([x] + t)[1..] == t;
  }

  lemma NoDuplicatesTail<T>(a: seq<T>)
    requires a != [] && NoDuplicates(a)
    ensures NoDuplicates(a[1..]) && a[0] !in a[1..]
  {
    var tail := a[1..];
    forall i, j | 0 <= i < j < |tail| ensures tail[i] != tail[j] {
      assert tail[i] == a[i + 1] && tail[j] == a[j + 1];
    }
  }

  lemma ElementsCons<T>(a: seq<T>)
    requires a != []
    ensures Elements(a) == {a[0]} + Elements(a[1..])
    ensures a == [a[0]] + a[1..]
  {
  }

  /** One step of the prefix lemma below: if the rest of the prefix passes
      through, so does the whole prefix. */
  lemma DistinctAfterPrefixStep<T>(a: seq<T>, b: seq<T>, seen: set<T>)
    requires a != [] && a[0] !in seen
    requires DistinctAfter(a[1..] + b, seen + {a[0]}) == a[1..] + DistinctAfter(b, seen + {a[0]} + Elements(a[1..]))
    ensures DistinctAfter(a + b, seen) == a + DistinctAfter(b, seen + Elements(a))
  {
    var tail := a[1..];
    ElementsCons(a);
    assert seen + {a[0]} + Elements(tail) == seen + Elements(a);
    assert a + b == [a[0]] + (tail + b);
    DistinctAfterCons(a[0], tail + b, seen);
  }

  /** A duplicate-free prefix that shares nothing with seen passes through
      unchanged, and what follows is de-duplicated against it. */
  lemma {:induction false} DistinctAfterPrefix<T>(a: seq<T>, b: seq<T>, seen: set<T>)
    requires NoDuplicates(a)
    requires forall x | x in a :: x !in seen
    ensures DistinctAfter(a + b, seen) == a + DistinctAfter(b, seen + Elements(a))
    decreases |a|
  {
    if a == [] {
      assert a + b == b;
      assert seen + Elements(a) == seen;
    } else {
      NoDuplicatesTail(a);
      DistinctAfterPrefix(a[1..], b, seen + {a[0]});
      DistinctAfterPrefixStep(a, b, seen);
    }
  }

  /** `concat(existing, added).distinct()` when existing has no duplicates:
      existing stays first and in order, and only the added elements that are
      not already there follow, each once. */
  lemma DistinctConcat<T>(existing: seq<T>, added: seq<T>)
    requires NoDuplicates(existing)
    ensures Distinct(existing + added) == existing + DistinctAfter(added, Elements(existing))
  {
    DistinctAfterPrefix(existing, added, {});
    assert {} + Elements(existing) == Elements(existing);
  }

  /** De-duplicating a duplicate-free list changes nothing; in particular
      Distinct is idempotent. */
  lemma DistinctOfUnique<T>(s: seq<T>)
    requires NoDuplicates(s)
    ensures Distinct(s) == s
  {
    DistinctConcat(s, []);
    assert s + [] == s;
  }
}
