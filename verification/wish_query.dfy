/**
 * The list query of app/routes/wishes.py (`list_wishes`): keep the wishes priced below a
 * maximum, keep those of one category, then sort by price or title. Python's `sort` is
 * stable; here the sort is a stable insertion sort, first as a function on sequences and
 * then run in place on an array, as the source sorts its local copy in place.
 */
module WishQuery {
  import opened Wrappers
  import opened WishModel

  // ---------------------------------------------------------------------------
  // Sort keys and their order
  // ---------------------------------------------------------------------------

  datatype SortField = ByPrice | ByTitle

  /** A key is a number (a price) or a string: `w.get(field) or ""`. */
  datatype SortKey = Number(n: int) | Text(s: string)

  /**
   * The key of a wish: a missing or zero price becomes the empty string, so a price sort
   * gives a number exactly for a wish with a non-zero price.
   */
  function KeyOf(w: Wish, f: SortField): (k: SortKey)
    ensures k.Number? <==> f == ByPrice && w.data.price.Some? && w.data.price.value != 0
    ensures k.Number? ==> k.n == w.data.price.value
    ensures k.Text? ==> k.s == if f == ByTitle then w.data.title else ""
  {
    match f
    case ByPrice =>
      if w.data.price.Some? && w.data.price.value != 0 then Number(w.data.price.value) else Text("")
    case ByTitle => Text(w.data.title)
  }

  /** Python's string order: by code point, a proper prefix first. */
  predicate TextLess(a: string, b: string)
  {
    if b == [] then false
    else if a == [] then true
    else a[0] < b[0] || (a[0] == b[0] && TextLess(a[1..], b[1..]))
  }

  /**
   * Numbers by value and strings by `TextLess`. Python refuses to compare a number with a
   * string; that case never reaches the sort (see `Comparable`), and strings are put first
   * only so that the order is total.
   */
  predicate KeyLess(a: SortKey, b: SortKey)
  {
    match (a, b)
    case (Number(x), Number(y)) => x < y
    case (Text(s), Text(t)) => TextLess(s, t)
    case (Text(_), Number(_)) => true
    case (Number(_), Text(_)) => false
  }

  lemma {:induction false} TextLessIrreflexive(s: string)
    ensures !TextLess(s, s)
  {
    if s != [] {
      TextLessIrreflexive(s[1..]);
    }
  }

  lemma {:induction false} TextLessTransitive(a: string, b: string, c: string)
    requires TextLess(a, b) && TextLess(b, c)
    ensures TextLess(a, c)
  {
    if a != [] && a[0] == b[0] && b[0] == c[0] {
      TextLessTransitive(a[1..], b[1..], c[1..]);
    }
  }

  lemma {:induction false} TextLessTotal(a: string, b: string)
    requires a != b
    ensures TextLess(a, b) || TextLess(b, a)
  {
    if a != [] && b != [] && a[0] == b[0] {
      assert a == [a[0]] + a[1..] && b == [b[0]] + b[1..];
      TextLessTotal(a[1..], b[1..]);
    }
  }

  /** `KeyLess` is a strict total order. */
  lemma KeyOrder(a: SortKey, b: SortKey, c: SortKey)
    ensures !KeyLess(a, a)
    ensures KeyLess(a, b) && KeyLess(b, c) ==> KeyLess(a, c)
    ensures a != b ==> KeyLess(a, b) || KeyLess(b, a)
  {
    if a.Text? {
      TextLessIrreflexive(a.s);
      if b.Text? && c.Text? && TextLess(a.s, b.s) && TextLess(b.s, c.s) {
        TextLessTransitive(a.s, b.s, c.s);
      }
      if b.Text? && a != b {
        TextLessTotal(a.s, b.s);
      }
    }
  }

  /** "Not greater" is transitive: a <= b and b <= c give a <= c. */
  lemma KeyLeTransitive(a: SortKey, b: SortKey, c: SortKey)
    requires !KeyLess(b, a) && !KeyLess(c, b)
    ensures !KeyLess(c, a)
  {
    KeyOrder(a, b, c);
    KeyOrder(b, c, a);
    KeyOrder(c, a, b);
  }

  // ---------------------------------------------------------------------------
  // Filters
  // ---------------------------------------------------------------------------

  /** The conditions of the query's list comprehensions, and "has this key" for stability. */
  datatype Criterion =
    | PriceBelow(max: int)
    | CategoryIs(category: string)
    | KeyIs(field: SortField, key: SortKey)

  /** A price below the maximum must be present and non-zero (truthy); equal is not below. */
  predicate Matches(w: Wish, c: Criterion)
    ensures c.PriceBelow? && Matches(w, c) ==>
              w.data.price.Some? && KeyOf(w, ByPrice) == Number(w.data.price.value) &&
              w.data.price.value < c.max
    ensures c.CategoryIs? && Matches(w, c) ==> w.data.category.Some?
  {
    match c
    case PriceBelow(m) => w.data.price.Some? && w.data.price.value != 0 && w.data.price.value < m
    case CategoryIs(cat) => w.data.category == Some(cat)
    case KeyIs(f, k) => KeyOf(w, f) == k
  }

  /** `[w for w in s if c(w)]`: the wishes that match, in their order. */
  function Filter(s: seq<Wish>, c: Criterion): (r: seq<Wish>)
    ensures |r| <= |s|
  {
    if s == [] then []
    else (if Matches(s[0], c) then [s[0]] else []) + Filter(s[1..], c)
  }

  /** A wish is kept exactly when it is in s and passes the filter. */
  lemma {:induction false} FilterMembers(s: seq<Wish>, c: Criterion, w: Wish)
    ensures w in Filter(s, c) <==> w in s && Matches(w, c)
  {
    if s != [] {
      FilterMembers(s[1..], c, w);
      assert s == [s[0]] + s[1..];
    }
  }

  /** Filtering keeps order: it distributes over concatenation. */
  lemma {:induction false} FilterConcat(a: seq<Wish>, b: seq<Wish>, c: Criterion)
    ensures Filter(a + b, c) == Filter(a, c) + Filter(b, c)
  {
    if a == [] {
      assert a + b == b;
    } else {
      var head := if Matches(a[0], c) then [a[0]] else [];
      assert (a + b)[0] == a[0] && (a + b)[1..] == a[1..] + b;
      FilterConcat(a[1..], b, c);
      assert Filter(a + b, c) == head + (Filter(a[1..], c) + Filter(b, c));
    }
  }

  /** Filtering a sequence with a given head: the head's verdict, then the rest. */
  lemma FilterCons(w: Wish, s: seq<Wish>, c: Criterion)
    ensures Filter([w] + s, c) == (if Matches(w, c) then [w] else []) + Filter(s, c)
  {
    assert ([w] + s)[0] == w && ([w] + s)[1..] == s;
  }

  /** A filter that every wish passes changes nothing; one that none passes leaves nothing. */
  lemma {:induction false} FilterAllOrNone(s: seq<Wish>, c: Criterion)
    ensures (forall k :: 0 <= k < |s| ==> Matches(s[k], c)) ==> Filter(s, c) == s
    ensures (forall k :: 0 <= k < |s| ==> !Matches(s[k], c)) ==> Filter(s, c) == []
  {
    if s != [] {
      FilterAllOrNone(s[1..], c);
      assert s == [s[0]] + s[1..];
    }
  }

  /**
   * The two filters of `list_wishes`: the price filter when a maximum is given, then the
   * category filter when a non-empty category is given (`if category:`).
   */
  function Selected(ws: seq<Wish>, maxPrice: Option<int>, category: Option<string>): (r: seq<Wish>)
    ensures |r| <= |ws|
    ensures maxPrice.None? && (category.None? || category == Some("")) ==> r == ws
  {
    var byPrice := if maxPrice.Some? then Filter(ws, PriceBelow(maxPrice.value)) else ws;
    if category.Some? && category.value != "" then Filter(byPrice, CategoryIs(category.value)) else byPrice
  }

  /**
   * Exactly the wishes that pass every given filter are selected; a price equal to the
   * maximum is excluded and the category must match exactly.
   */
  lemma SelectedMembers(ws: seq<Wish>, maxPrice: Option<int>, category: Option<string>, w: Wish)
    ensures w in Selected(ws, maxPrice, category) <==>
              && w in ws
              && (maxPrice.Some? ==> w.data.price.Some? && w.data.price.value != 0 &&
                                     w.data.price.value < maxPrice.value)
              && (category.Some? && category.value != "" ==> w.data.category == category)
  {
    var byPrice := if maxPrice.Some? then Filter(ws, PriceBelow(maxPrice.value)) else ws;
    if maxPrice.Some? {
      FilterMembers(ws, PriceBelow(maxPrice.value), w);
    }
    if category.Some? && category.value != "" {
      FilterMembers(byPrice, CategoryIs(category.value), w);
    }
  }

  /** The selection keeps insertion order: it distributes over concatenation. */
  lemma SelectedConcat(a: seq<Wish>, b: seq<Wish>, maxPrice: Option<int>, category: Option<string>)
    ensures Selected(a + b, maxPrice, category) == Selected(a, maxPrice, category) + Selected(b, maxPrice, category)
  {
    var pa := if maxPrice.Some? then Filter(a, PriceBelow(maxPrice.value)) else a;
    var pb := if maxPrice.Some? then Filter(b, PriceBelow(maxPrice.value)) else b;
    if maxPrice.Some? {
      FilterConcat(a, b, PriceBelow(maxPrice.value));
    }
    if category.Some? && category.value != "" {
      FilterConcat(pa, pb, CategoryIs(category.value));
    }
  }

  /**
   * Three wishes priced 700, 1500 and 20 (in cents here): a maximum of 100 keeps only the
   * cheapest, and a category keeps only the wish filed under it, compared exactly.
   */
  lemma SelectedExample()
    ensures var phone := Wish(1, WishData("Phone", None, Some(70000), None, Some("Tech")));
            var trip := Wish(2, WishData("Trip", None, Some(150000), None, Some("Travel")));
            var book := Wish(3, WishData("Book", None, Some(2000), None, Some("Fun")));
            && Selected([phone, trip, book], Some(10000), None) == [book]
            && Selected([phone, trip, book], None, Some("Tech")) == [phone]
            && Selected([phone, trip, book], Some(10000), Some("Tech")) == []
  {
    var phone := Wish(1, WishData("Phone", None, Some(70000), None, Some("Tech")));
    var trip := Wish(2, WishData("Trip", None, Some(150000), None, Some("Travel")));
    var book := Wish(3, WishData("Book", None, Some(2000), None, Some("Fun")));
    var all := [phone, trip, book];
    assert all[1..] == [trip, book] && [trip, book][1..] == [book] && [book][1..] == [];
    assert Filter([book], PriceBelow(10000)) == [book];
    assert Filter([trip, book], PriceBelow(10000)) == [book];
    assert Filter([book], CategoryIs("Tech")) == [];
    assert Filter([trip, book], CategoryIs("Tech")) == [];
    assert [book][0] == book;
  }

  // ---------------------------------------------------------------------------
  // Stable sort
  // ---------------------------------------------------------------------------

  /** Non-decreasing in the key. */
  ghost predicate Sorted(s: seq<Wish>, f: SortField)
  {
    forall i, j :: 0 <= i < j < |s| ==> !KeyLess(KeyOf(s[j], f), KeyOf(s[i], f))
  }

  /** Every key in s is at least b. */
  ghost predicate AllAtLeast(b: SortKey, s: seq<Wish>, f: SortField)
  {
    forall k :: 0 <= k < |s| ==> !KeyLess(KeyOf(s[k], f), b)
  }

  /** Same wishes, and among each group of equal keys the same relative order. */
  ghost predicate StablePermutation(r: seq<Wish>, s: seq<Wish>, f: SortField)
  {
    forall k :: Filter(r, KeyIs(f, k)) == Filter(s, KeyIs(f, k))
  }

  /** Inserts x after every element whose key is not greater than x's. */
  function Insert(x: Wish, t: seq<Wish>, f: SortField): (r: seq<Wish>)
    ensures |r| == |t| + 1
  {
    if t == [] then [x]
    else if KeyLess(KeyOf(x, f), KeyOf(t[0], f)) then [x] + t
    else [t[0]] + Insert(x, t[1..], f)
  }

  /** Insertion sort, taking the elements in order. */
  function InsertionSort(s: seq<Wish>, f: SortField): (r: seq<Wish>)
    ensures |r| == |s|
  {
    if s == [] then []
    else Insert(s[|s| - 1], InsertionSort(s[..|s| - 1], f), f)
  }

  lemma {:induction false} InsertPermutes(x: Wish, t: seq<Wish>, f: SortField)
    ensures multiset(Insert(x, t, f)) == multiset(t) + multiset{x}
  {
    if t != [] && !KeyLess(KeyOf(x, f), KeyOf(t[0], f)) {
      InsertPermutes(x, t[1..], f);
      assert t == [t[0]] + t[1..];
    }
  }

  /** Insertion sort permutes. */
  lemma {:induction false} InsertionSortPermutes(s: seq<Wish>, f: SortField)
    ensures multiset(InsertionSort(s, f)) == multiset(s)
  {
    if s != [] {
      InsertionSortPermutes(s[..|s| - 1], f);
      InsertPermutes(s[|s| - 1], InsertionSort(s[..|s| - 1], f), f);
      assert s == s[..|s| - 1] + [s[|s| - 1]];
    }
  }

  lemma {:induction false} InsertAtLeast(b: SortKey, x: Wish, t: seq<Wish>, f: SortField)
    requires AllAtLeast(b, t, f) && !KeyLess(KeyOf(x, f), b)
    ensures AllAtLeast(b, Insert(x, t, f), f)
  {
    if t != [] && !KeyLess(KeyOf(x, f), KeyOf(t[0], f)) {
      InsertAtLeast(b, x, t[1..], f);
    }
  }

  lemma SortedCons(a: Wish, s: seq<Wish>, f: SortField)
    ensures Sorted([a] + s, f) <==> Sorted(s, f) && AllAtLeast(KeyOf(a, f), s, f)
  {
    var r := [a] + s;
    if Sorted(s, f) && AllAtLeast(KeyOf(a, f), s, f) {
      forall i, j | 0 <= i < j < |r| ensures !KeyLess(KeyOf(r[j], f), KeyOf(r[i], f)) {
        if i > 0 {
          assert r[i] == s[i - 1] && r[j] == s[j - 1];
        } else {
          assert r[j] == s[j - 1];
        }
      }
    }
    if Sorted(r, f) {
      forall k | 0 <= k < |s| ensures !KeyLess(KeyOf(s[k], f), KeyOf(a, f)) {
        assert r[0] == a && r[k + 1] == s[k];
      }
      forall i, j | 0 <= i < j < |s| ensures !KeyLess(KeyOf(s[j], f), KeyOf(s[i], f)) {
        assert r[i + 1] == s[i] && r[j + 1] == s[j];
      }
    }
  }

  /** Inserting into a sorted sequence keeps it sorted. */
  lemma {:induction false} InsertSorted(x: Wish, t: seq<Wish>, f: SortField)
    requires Sorted(t, f)
    ensures Sorted(Insert(x, t, f), f)
  {
    if t == [] {
    } else {
      assert t == [t[0]] + t[1..];
      SortedCons(t[0], t[1..], f);
      if KeyLess(KeyOf(x, f), KeyOf(t[0], f)) {
        forall k | 0 <= k < |t| ensures !KeyLess(KeyOf(t[k], f), KeyOf(x, f)) {
          KeyOrder(KeyOf(x, f), KeyOf(t[0], f), KeyOf(t[k], f));
          KeyOrder(KeyOf(t[k], f), KeyOf(x, f), KeyOf(t[0], f));
          if k > 0 {
            assert t[k] == t[1..][k - 1];
          }
        }
        SortedCons(x, t, f);
      } else {
        InsertSorted(x, t[1..], f);
        InsertAtLeast(KeyOf(t[0], f), x, t[1..], f);
        SortedCons(t[0], Insert(x, t[1..], f), f);
      }
    }
  }

  /** Insertion sort sorts. */
  lemma {:induction false} InsertionSortSorted(s: seq<Wish>, f: SortField)
    ensures Sorted(InsertionSort(s, f), f)
  {
    if s != [] {
      InsertionSortSorted(s[..|s| - 1], f);
      InsertSorted(s[|s| - 1], InsertionSort(s[..|s| - 1], f), f);
    }
  }

  /** A key below the head of a sorted sequence is below every key in it, so equal to none. */
  lemma BelowSorted(x: Wish, t: seq<Wish>, f: SortField)
    requires Sorted(t, f) && t != [] && KeyLess(KeyOf(x, f), KeyOf(t[0], f))
    ensures forall j :: 0 <= j < |t| ==> KeyOf(t[j], f) != KeyOf(x, f)
  {
    forall j | 0 < j < |t| ensures KeyOf(t[j], f) != KeyOf(x, f) {
      KeyOrder(KeyOf(x, f), KeyOf(t[0], f), KeyOf(t[j], f));
      KeyOrder(KeyOf(t[j], f), KeyOf(x, f), KeyOf(t[0], f));
    }
    KeyOrder(KeyOf(x, f), KeyOf(x, f), KeyOf(x, f));
  }

  /** A wish inserted in front of a sorted sequence keys below all of it, so its group gains it at the end. */
  lemma InsertFrontGroups(x: Wish, t: seq<Wish>, f: SortField, k: SortKey)
    requires Sorted(t, f) && t != [] && KeyLess(KeyOf(x, f), KeyOf(t[0], f))
    ensures Filter([x] + t, KeyIs(f, k)) ==
              Filter(t, KeyIs(f, k)) + if KeyOf(x, f) == k then [x] else []
  {
    FilterCons(x, t, KeyIs(f, k));
    if KeyOf(x, f) == k {
      BelowSorted(x, t, f);
      FilterAllOrNone(t, KeyIs(f, k));
    }
  }

  /** Among the wishes of one key, x lands after those already there. */
  lemma {:induction false} InsertKeepsGroups(x: Wish, t: seq<Wish>, f: SortField, k: SortKey)
    requires Sorted(t, f)
    ensures Filter(Insert(x, t, f), KeyIs(f, k)) ==
              Filter(t, KeyIs(f, k)) + if KeyOf(x, f) == k then [x] else []
  {
    var c := KeyIs(f, k);
    if t == [] {
      FilterCons(x, [], c);
    } else if KeyLess(KeyOf(x, f), KeyOf(t[0], f)) {
      assert Insert(x, t, f) == [x] + t;
      InsertFrontGroups(x, t, f, k);
    } else {
      var t0, rest := t[0], t[1..];
      assert t == [t0] + rest;
      SortedCons(t0, rest, f);
      InsertKeepsGroups(x, rest, f, k);
      assert Insert(x, t, f) == [t0] + Insert(x, rest, f);
      FilterCons(t0, Insert(x, rest, f), c);
      FilterCons(t0, rest, c);
    }
  }

  /** Insertion sort is stable: each group of equal keys keeps its original order. */
  lemma {:induction false} InsertionSortStable(s: seq<Wish>, f: SortField, k: SortKey)
    ensures Filter(InsertionSort(s, f), KeyIs(f, k)) == Filter(s, KeyIs(f, k))
  {
    if s != [] {
      var init, last := s[..|s| - 1], s[|s| - 1];
      InsertionSortStable(init, f, k);
      InsertionSortSorted(init, f);
      InsertKeepsGroups(last, InsertionSort(init, f), f, k);
      assert s == init + [last];
      FilterConcat(init, [last], KeyIs(f, k));
    }
  }

  /** The sort's whole contract: sorted, a permutation, and stable. */
  lemma InsertionSortCorrect(s: seq<Wish>, f: SortField)
    ensures Sorted(InsertionSort(s, f), f)
    ensures multiset(InsertionSort(s, f)) == multiset(s)
    ensures StablePermutation(InsertionSort(s, f), s, f)
  {
    InsertionSortSorted(s, f);
    InsertionSortPermutes(s, f);
    forall k {
      InsertionSortStable(s, f, k);
    }
  }

  /**
   * A sorted stable permutation is unique: any two sorted sequences that agree on the order
   * within every key group are equal. So the contract above pins down the result of any
   * stable sort, Python's included, and not only of insertion sort.
   */
  lemma {:induction false} StableSortUnique(r1: seq<Wish>, r2: seq<Wish>, f: SortField)
    requires Sorted(r1, f) && Sorted(r2, f) && StablePermutation(r1, r2, f)
    ensures r1 == r2
  {
    if r1 == [] && r2 == [] {
    } else if r1 == [] || r2 == [] {
      var w := if r1 == [] then r2[0] else r1[0];
      var k := KeyOf(w, f);
      FilterMembers(r1, KeyIs(f, k), w);
      FilterMembers(r2, KeyIs(f, k), w);
      assert false;
    } else {
      var k1, k2 := KeyOf(r1[0], f), KeyOf(r2[0], f);
      assert k1 == k2 by {
        HeadKeyIsLeast(r1, r2, f);
        HeadKeyIsLeast(r2, r1, f);
        KeyOrder(k1, k2, k1);
      }
      assert r1[0] == r2[0] by {
        var g1, g2 := Filter(r1, KeyIs(f, k1)), Filter(r2, KeyIs(f, k1));
        assert g1 == [r1[0]] + Filter(r1[1..], KeyIs(f, k1));
        assert g2 == [r2[0]] + Filter(r2[1..], KeyIs(f, k1));
        assert g1 == g2;
        assert g1[0] == r1[0] && g2[0] == r2[0];
      }
      assert r1 == [r1[0]] + r1[1..] && r2 == [r2[0]] + r2[1..];
      SortedCons(r1[0], r1[1..], f);
      SortedCons(r2[0], r2[1..], f);
      var h := r1[0];
      forall k ensures Filter(r1[1..], KeyIs(f, k)) == Filter(r2[1..], KeyIs(f, k)) {
        var head := if Matches(h, KeyIs(f, k)) then [h] else [];
        var t1, t2 := Filter(r1[1..], KeyIs(f, k)), Filter(r2[1..], KeyIs(f, k));
        assert Filter(r1, KeyIs(f, k)) == head + t1;
        assert Filter(r2, KeyIs(f, k)) == head + t2;
        assert head + t1 == head + t2;
        assert (head + t1)[|head|..] == t1 && (head + t2)[|head|..] == t2;
      }
      StableSortUnique(r1[1..], r2[1..], f);
    }
  }

  /** The first key of a sorted r1 is not above any key present in r2 when both agree by key group. */
  lemma HeadKeyIsLeast(r1: seq<Wish>, r2: seq<Wish>, f: SortField)
    requires r1 != [] && r2 != [] && Sorted(r1, f) && StablePermutation(r1, r2, f)
    ensures !KeyLess(KeyOf(r2[0], f), KeyOf(r1[0], f))
  {
    var w := r2[0];
    var k := KeyOf(w, f);
    FilterMembers(r2, KeyIs(f, k), w);
    assert Filter(r1, KeyIs(f, k)) == Filter(r2, KeyIs(f, k));
    FilterMembers(r1, KeyIs(f, k), w);
    var j :| 0 <= j < |r1| && r1[j] == w;
    if j > 0 {
      assert !KeyLess(KeyOf(r1[j], f), KeyOf(r1[0], f));
    } else {
      KeyOrder(k, k, k);
    }
  }

  /** No key in s is above x's. */
  ghost predicate NoneAbove(x: Wish, s: seq<Wish>, f: SortField)
  {
    forall k :: 0 <= k < |s| ==> !KeyLess(KeyOf(x, f), KeyOf(s[k], f))
  }

  /** Every key in s is above x's. */
  ghost predicate AllAbove(x: Wish, s: seq<Wish>, f: SortField)
  {
    forall k :: 0 <= k < |s| ==> KeyLess(KeyOf(x, f), KeyOf(s[k], f))
  }

  /** Where x goes: after every element not above it, and before every element above it. */
  lemma {:induction false} InsertBetween(x: Wish, p: seq<Wish>, q: seq<Wish>, f: SortField)
    requires NoneAbove(x, p, f) && AllAbove(x, q, f)
    ensures Insert(x, p + q, f) == p + [x] + q
  {
    if p == [] {
      assert p + q == q;
      if q != [] {
        assert KeyLess(KeyOf(x, f), KeyOf(q[0], f));
      }
    } else {
      assert (p + q)[0] == p[0] && (p + q)[1..] == p[1..] + q;
      assert !KeyLess(KeyOf(x, f), KeyOf(p[0], f));
      assert NoneAbove(x, p[1..], f) by {
        forall k | 0 <= k < |p[1..]| ensures !KeyLess(KeyOf(x, f), KeyOf(p[1..][k], f)) {
          assert p[1..][k] == p[k + 1];
        }
      }
      InsertBetween(x, p[1..], q, f);
      assert p == [p[0]] + p[1..];
    }
  }

  /** In a sorted t, if t[j-1] is not above x, no element before j is. */
  lemma SortedPrefixAtMost(x: Wish, t: seq<Wish>, j: nat, f: SortField)
    requires Sorted(t, f) && 0 < j <= |t|
    requires !KeyLess(KeyOf(x, f), KeyOf(t[j - 1], f))
    ensures NoneAbove(x, t[..j], f)
  {
    forall k | 0 <= k < j ensures !KeyLess(KeyOf(x, f), KeyOf(t[..j][k], f)) {
      if k < j - 1 {
        KeyLeTransitive(KeyOf(t[k], f), KeyOf(t[j - 1], f), KeyOf(x, f));
      }
    }
  }

  /**
   * Where x goes in a sorted t: after the first j elements, when t[j-1] is not above x and
   * every element from j on is.
   */
  lemma InsertAt(x: Wish, t: seq<Wish>, j: nat, f: SortField)
    requires Sorted(t, f) && j <= |t|
    requires j > 0 ==> !KeyLess(KeyOf(x, f), KeyOf(t[j - 1], f))
    requires forall k :: j <= k < |t| ==> KeyLess(KeyOf(x, f), KeyOf(t[k], f))
    ensures Insert(x, t, f) == t[..j] + [x] + t[j..]
  {
    if j > 0 {
      SortedPrefixAtMost(x, t, j, f);
    }
    assert AllAbove(x, t[j..], f) by {
      forall k | 0 <= k < |t[j..]| ensures KeyLess(KeyOf(x, f), KeyOf(t[j..][k], f)) {
        assert t[j..][k] == t[j + k];
      }
    }
    assert t == t[..j] + t[j..];
    InsertBetween(x, t[..j], t[j..], f);
  }

  /** Sorting one more element of s inserts it into the sorted prefix. */
  lemma InsertionSortStep(s: seq<Wish>, i: nat, f: SortField)
    requires i < |s|
    ensures InsertionSort(s[..i + 1], f) == Insert(s[i], InsertionSort(s[..i], f), f)
  {
    assert s[..i + 1][..i] == s[..i];
  }

  /**
   * The shifting loop of one in-place step: moves the elements of a[..i] that are above x
   * one place right and returns the gap j they leave.
   */
  method ShiftAbove(a: array<Wish>, i: nat, x: Wish, f: SortField) returns (j: nat)
    requires i < a.Length
    modifies a
    ensures j <= i
    ensures forall k :: 0 <= k < j ==> a[k] == old(a[k])
    ensures forall k :: j < k <= i ==> a[k] == old(a[k - 1])
    ensures forall k :: i < k < a.Length ==> a[k] == old(a[k])
    ensures forall k :: j <= k < i ==> KeyLess(KeyOf(x, f), KeyOf(old(a[k]), f))
    ensures j > 0 ==> !KeyLess(KeyOf(x, f), KeyOf(old(a[j - 1]), f))
  {
    j := i;
    while j > 0 && KeyLess(KeyOf(x, f), KeyOf(a[j - 1], f))
      invariant 0 <= j <= i
      invariant forall k :: 0 <= k < j ==> a[k] == old(a[k])
      invariant forall k :: j < k <= i ==> a[k] == old(a[k - 1])
      invariant forall k :: i < k < a.Length ==> a[k] == old(a[k])
      invariant forall k :: j <= k < i ==> KeyLess(KeyOf(x, f), KeyOf(old(a[k]), f))
    {
      a[j] := a[j - 1];
      j := j - 1;
    }
  }

  /** After the shift and the store of x into the gap at j, the prefix reads t[..j], x, t[j..]. */
  lemma ShiftedContents(t: seq<Wish>, r: seq<Wish>, x: Wish, j: nat)
    requires j <= |t| && |r| == |t| + 1
    requires forall k :: 0 <= k < j ==> r[k] == t[k]
    requires r[j] == x
    requires forall k :: j < k < |r| ==> r[k] == t[k - 1]
    ensures r == t[..j] + [x] + t[j..]
  {
  }

  /** One step of the in-place sort: moves a[i] into place within the sorted prefix a[..i]. */
  method InsertLast(a: array<Wish>, i: nat, f: SortField)
    requires i < a.Length && Sorted(a[..i], f)
    modifies a
    ensures a[..i + 1] == Insert(old(a[i]), old(a[..i]), f)
    ensures forall k :: i < k < a.Length ==> a[k] == old(a[k])
  {
    ghost var t := a[..i];
    var x := a[i];
    var j := ShiftAbove(a, i, x, f);
    a[j] := x;
    InsertAt(x, t, j, f);
    ShiftedContents(t, a[..i + 1], x, j);
  }

  /** The source's in-place `sort` of its local copy, as insertion sort on an array. */
  method SortInPlace(a: array<Wish>, f: SortField)
    modifies a
    ensures a[..] == InsertionSort(old(a[..]), f)
  {
    ghost var orig := a[..];
    var i := 0;
    while i < a.Length
      invariant 0 <= i <= a.Length
      invariant a[..i] == InsertionSort(orig[..i], f)
      invariant forall k :: i <= k < a.Length ==> a[k] == orig[k]
    {
      InsertionSortSorted(orig[..i], f);
      InsertionSortStep(orig, i, f);
      InsertLast(a, i, f);
      i := i + 1;
    }
    assert orig[..a.Length] == orig;
  }
}
