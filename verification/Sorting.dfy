/** Sorting by a strict order: the result depends on the set of elements only, not on how it was enumerated. */
module Sorting {

  ghost predicate StrictOrder<T(!new)>(less: (T, T) -> bool) {
    && (forall a :: !less(a, a))
    && (forall a, b, c :: less(a, b) && less(b, c) ==> less(a, c))
  }

  /** Any two different elements are comparable. */
  ghost predicate TotalOn<T(!new)>(less: (T, T) -> bool, elements: set<T>) {
    forall a, b :: a in elements && b in elements && a != b ==> less(a, b) || less(b, a)
  }

  ghost predicate Sorted<T>(less: (T, T) -> bool, s: seq<T>) {
    forall i, j :: 0 <= i < j < |s| ==> less(s[i], s[j])
  }

  ghost function Elements<T>(s: seq<T>): set<T> {
    set x | x in s
  }

  function Insert<T>(less: (T, T) -> bool, x: T, s: seq<T>): (t: seq<T>) {
    if s == [] || less(x, s[0]) then [x] + s else [s[0]] + Insert(less, x, s[1..])
  }

  /** Insertion sort of an enumeration without repetitions. */
  function Sort<T>(less: (T, T) -> bool, s: seq<T>): (t: seq<T>) {
    if s == [] then [] else Insert(less, s[0], Sort(less, s[1..]))
  }

  lemma {:induction false} InsertElements<T>(less: (T, T) -> bool, x: T, s: seq<T>)
    ensures Elements(Insert(less, x, s)) == Elements(s) + {x}
    ensures |Insert(less, x, s)| == |s| + 1
  {
    if s != [] && !less(x, s[0]) {
      InsertElements(less, x, s[1..]);
      var t := Insert(less, x, s[1..]);
      assert Elements([s[0]] + t) == {s[0]} + Elements(t);
      assert Elements(s) == {s[0]} + Elements(s[1..]);
    }
  }

  lemma {:induction false} InsertSorted<T(!new)>(less: (T, T) -> bool, x: T, s: seq<T>)
    requires StrictOrder(less) && TotalOn(less, Elements(s) + {x}) && x !in s && Sorted(less, s)
    ensures Sorted(less, Insert(less, x, s))
  {
    if s != [] && !less(x, s[0]) {
      InsertSorted(less, x, s[1..]);
      InsertElements(less, x, s[1..]);
      var t := Insert(less, x, s[1..]);
      forall j | 0 <= j < |t|
        ensures less(s[0], t[j])
      {
        assert t[j] in Elements(t);
      }
    } else if s != [] {
      assert forall j :: 0 < j < |s| ==> less(s[0], s[j]);
    }
  }

  ghost predicate Distinct<T>(s: seq<T>) {
    forall i, j :: 0 <= i < j < |s| ==> s[i] != s[j]
  }

  /** Every finite set can be listed. */
  lemma {:induction false} Listing<T>(elements: set<T>) returns (order: seq<T>)
    ensures Distinct(order) && Elements(order) == elements
    decreases |elements|
  {
    if elements == {} {
      order := [];
    } else {
      var x :| x in elements;
      var rest := Listing(elements - {x});
      order := rest + [x];
      assert x !in Elements(rest);
      assert forall y :: y in order <==> y in rest || y == x;
      assert forall y :: y in rest <==> y in Elements(rest);
      assert Elements(order) == Elements(rest) + {x};
    }
  }

  lemma {:induction false} SortSorts<T(!new)>(less: (T, T) -> bool, s: seq<T>)
    requires StrictOrder(less) && TotalOn(less, Elements(s)) && Distinct(s)
    ensures Sorted(less, Sort(less, s)) && Elements(Sort(less, s)) == Elements(s) && |Sort(less, s)| == |s|
  {
    if s != [] {
      assert Elements(s) == Elements(s[1..]) + {s[0]};
      SortSorts(less, s[1..]);
      assert s[0] !in Elements(Sort(less, s[1..]));
      InsertSorted(less, s[0], Sort(less, s[1..]));
      InsertElements(less, s[0], Sort(less, s[1..]));
    }
  }

  /** The head of a sorted sequence is the least of its elements. */
  lemma SortedHead<T(!new)>(less: (T, T) -> bool, s: seq<T>, x: T)
    requires Sorted(less, s) && x in s && x != s[0]
    ensures less(s[0], x)
  {
  }

  lemma TailElements<T(!new)>(less: (T, T) -> bool, s: seq<T>)
    requires StrictOrder(less) && Sorted(less, s) && s != []
    ensures Elements(s[1..]) == Elements(s) - {s[0]} && Sorted(less, s[1..])
  {
    assert s == [s[0]] + s[1..];
    assert s[0] !in s[1..];
  }

  /** There is only one sorted order of a set. */
  lemma {:induction false} SortedUnique<T(!new)>(less: (T, T) -> bool, s: seq<T>, t: seq<T>)
    requires StrictOrder(less) && Sorted(less, s) && Sorted(less, t) && Elements(s) == Elements(t)
    ensures s == t
  {
    assert t == [] || t[0] in Elements(t);
    assert s == [] || s[0] in Elements(s);
    if s != [] {
      if s[0] != t[0] {
        SortedHead(less, s, t[0]);
        SortedHead(less, t, s[0]);
        assert false;
      }
      TailElements(less, s);
      TailElements(less, t);
      SortedUnique(less, s[1..], t[1..]);
      assert s == [s[0]] + s[1..] && t == [t[0]] + t[1..];
    }
  }

  function Without<T(==)>(s: seq<T>, x: T): seq<T> {
    if s == [] then [] else if s[0] == x then s[1..] else [s[0]] + Without(s[1..], x)
  }

  lemma {:induction false} WithoutSorted<T(!new)>(less: (T, T) -> bool, s: seq<T>, x: T)
    requires StrictOrder(less) && Sorted(less, s)
    ensures Sorted(less, Without(s, x)) && Elements(Without(s, x)) == Elements(s) - {x}
  {
    if s != [] {
      TailElements(less, s);
      if s[0] != x {
        WithoutSorted(less, s[1..], x);
        var rest := Without(s[1..], x);
        forall j | 0 <= j < |rest|
          ensures less(s[0], rest[j])
        {
          assert rest[j] in Elements(rest);
        }
        assert Elements([s[0]] + rest) == {s[0]} + Elements(rest);
      }
    }
  }

  // ---------------------------------------------------------------- lexicographic order of strings

  predicate LexLess(a: string, b: string) {
    if b == "" then false
    else if a == "" then true
    else if a[0] != b[0] then a[0] < b[0]
    else LexLess(a[1..], b[1..])
  }

  /** `k` is where `a` and `b` first differ. */
  ghost predicate DifferFirstAt(a: string, b: string, k: nat) {
    k < |a| && k < |b| && a[..k] == b[..k] && a[k] != b[k]
  }

  /** A string comes before those it is a proper prefix of, and otherwise the first difference decides. */
  lemma {:induction false} LexMeaning(a: string, b: string)
    ensures LexLess(a, b) <==> a < b || exists k: nat :: DifferFirstAt(a, b, k) && a[k] < b[k]
  {
    if a != "" && b != "" {
      if a[0] != b[0] {
        assert a[0] < b[0] ==> DifferFirstAt(a, b, 0);
      } else {
        var x, y := a[1..], b[1..];
        LexMeaning(x, y);
        assert a == [a[0]] + x && b == [b[0]] + y;
        if k: nat :| DifferFirstAt(x, y, k) && x[k] < y[k] {
          assert a[..k + 1] == [a[0]] + x[..k] && b[..k + 1] == [b[0]] + y[..k];
          assert DifferFirstAt(a, b, k + 1);
        }
        if k: nat :| DifferFirstAt(a, b, k) && a[k] < b[k] {
          assert x[..k - 1] == a[1..k] == a[..k][1..] && y[..k - 1] == b[1..k] == b[..k][1..];
          assert DifferFirstAt(x, y, k - 1);
        }
      }
    }
  }

  lemma {:induction false} LexIrreflexive(a: string)
    ensures !LexLess(a, a)
  {
    if a != "" { LexIrreflexive(a[1..]); }
  }

  lemma {:induction false} LexTransitive(a: string, b: string, c: string)
    requires LexLess(a, b) && LexLess(b, c)
    ensures LexLess(a, c)
  {
    if a != "" && a[0] == b[0] && b[0] == c[0] { LexTransitive(a[1..], b[1..], c[1..]); }
  }

  lemma {:induction false} LexTotal(a: string, b: string)
    requires a != b
    ensures LexLess(a, b) || LexLess(b, a)
  {
    if a != "" && b != "" && a[0] == b[0] {
      assert a == [a[0]] + a[1..] && b == [b[0]] + b[1..];
      LexTotal(a[1..], b[1..]);
    }
  }
}
