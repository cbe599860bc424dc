/** Strictly ascending sequences of accounts: the shape of every member list the pallet
    keeps, and the `binary_search` followed by `insert(location, …)` pattern it uses to
    keep them ordered and free of duplicates. */
module SortedSeq {

  /** Each element is smaller than the next. */
  predicate StrictlySorted(s: seq<int>) {
    |s| < 2 || (s[0] < s[1] && StrictlySorted(s[1..]))
  }

  predicate Distinct(s: seq<int>) {
    forall i, j :: 0 <= i < j < |s| ==> s[i] != s[j]
  }

  function Elems(s: seq<int>): set<int> {
    set x | x in s
  }

  /** Order between neighbours is order between any two positions. */
  lemma {:induction false} SortedPairwise(s: seq<int>)
    requires StrictlySorted(s)
    ensures forall i, j :: 0 <= i < j < |s| ==> s[i] < s[j]
  {
    if |s| >= 2 {
      SortedPairwise(s[1..]);
      forall i, j | 0 <= i < j < |s|
        ensures s[i] < s[j]
      {
        assert s[j] == s[1..][j - 1];
        if i > 0 {
          assert s[i] == s[1..][i - 1];
        } else if j > 1 {
          assert s[1] == s[1..][0];
        }
      }
    }
  }

  /** The number of elements of an ascending list that are smaller than `x`: where `x` goes. */
  function InsertionPoint(s: seq<int>, x: int): (k: nat)
    ensures k <= |s|
  {
    if s == [] || x <= s[0] then 0 else 1 + InsertionPoint(s[1..], x)
  }

  /** In a strictly ascending list the insertion point is the only index with every element
      before it smaller than `x` and every element from it on larger. */
  lemma {:induction false} InsertionPointUnique(s: seq<int>, x: int, k: nat)
    requires StrictlySorted(s) && k <= |s|
    requires forall i :: 0 <= i < k ==> s[i] < x
    requires forall i :: k <= i < |s| ==> x < s[i]
    ensures InsertionPoint(s, x) == k
  {
    if s != [] && k > 0 {
      InsertionPointUnique(s[1..], x, k - 1);
    }
  }

  /** `Vec::insert(k, x)`. */
  function InsertAt(s: seq<int>, k: nat, x: int): seq<int>
    requires k <= |s|
  {
    s[..k] + [x] + s[k..]
  }

  /** Ordered insertion: `x` goes before the first element not smaller than it. */
  function Insert(s: seq<int>, x: int): seq<int> {
    if s == [] || x <= s[0] then [x] + s else [s[0]] + Insert(s[1..], x)
  }

  /** Inserting at the insertion point is ordered insertion. */
  lemma {:induction false} InsertAtInsertionPoint(s: seq<int>, x: int)
    ensures InsertAt(s, InsertionPoint(s, x), x) == Insert(s, x)
  {
    if s != [] && s[0] < x {
      var k := InsertionPoint(s[1..], x);
      InsertAtInsertionPoint(s[1..], x);
      assert s[..k + 1] == [s[0]] + s[1..][..k];
      assert s[k + 1..] == s[1..][k..];
    }
  }

  /** What `<[T]>::binary_search` returns: `Ok(index)` or `Err(insertion point)`. */
  datatype SearchResult = Found(index: nat) | NotFound(insertAt: nat)

  /** `binary_search` on a strictly ascending slice. */
  method BinarySearch(s: seq<int>, x: int) returns (r: SearchResult)
    requires StrictlySorted(s)
    ensures r.Found? <==> x in s
    ensures r.Found? ==> r.index < |s| && s[r.index] == x
    ensures r.NotFound? ==> r.insertAt == InsertionPoint(s, x)
  {
    SortedPairwise(s);
    var lo, hi := 0, |s|;
    while lo < hi
      invariant 0 <= lo <= hi <= |s|
      invariant forall i :: 0 <= i < lo ==> s[i] < x
      invariant forall i :: hi <= i < |s| ==> x < s[i]
      decreases hi - lo
    {
      var mid := lo + (hi - lo) / 2;
      if s[mid] < x {
        lo := mid + 1;
      } else if x < s[mid] {
        hi := mid;
      } else {
        return Found(mid);
      }
    }
    InsertionPointUnique(s, x, lo);
    return NotFound(lo);
  }

  /** Inserting an absent element keeps a list strictly ascending and adds exactly that
      element. */
  lemma {:induction false} InsertKeepsOrder(s: seq<int>, x: int)
    requires StrictlySorted(s) && x !in s
    ensures StrictlySorted(Insert(s, x))
    ensures multiset(Insert(s, x)) == multiset(s) + multiset{x}
    ensures forall y :: y in Insert(s, x) <==> y in s || y == x
    ensures |Insert(s, x)| == |s| + 1
  {
    if s == [] || x <= s[0] {
      assert ([x] + s)[1..] == s;
    } else {
      assert s == [s[0]] + s[1..];
      var t := Insert(s[1..], x);
      InsertKeepsOrder(s[1..], x);
      assert forall y :: y in s <==> y == s[0] || y in s[1..] by {
        assert s == [s[0]] + s[1..];
      }
      assert ([s[0]] + t)[1..] == t;
      assert t[0] == x || t[0] == s[1];
    }
  }

  /** The `binary_search` then `insert(location, x)` pattern: a search that finds `x` leaves the
      list alone; otherwise `x` is inserted where the search reported. */
  method SortedInsert(s: seq<int>, x: int) returns (present: bool, r: seq<int>)
    requires StrictlySorted(s)
    ensures present <==> x in s
    ensures present ==> r == s
    ensures !present ==> r == Insert(s, x)
  {
    var found := BinarySearch(s, x);
    match found
    case Found(_) =>
      present, r := true, s;
    case NotFound(k) =>
      InsertAtInsertionPoint(s, x);
      present, r := false, InsertAt(s, k, x);
  }

  /** A strictly ascending list is determined by the elements it holds: the member lists
      hold exactly the accounts added to them, in the only possible order. */
  lemma {:induction false} SortedByElems(a: seq<int>, b: seq<int>)
    requires StrictlySorted(a) && StrictlySorted(b)
    requires forall y :: y in a <==> y in b
    ensures a == b
  {
    if a != [] {
      var x := a[0];
      assert x in a;
    }
    if b != [] {
      var x := b[0];
      assert x in b;
    }
    if a != [] && b != [] {
      SortedPairwise(a);
      SortedPairwise(b);
      assert a[0] == b[0];
      forall y
        ensures y in a[1..] <==> y in b[1..]
      {
        assert y in a[1..] <==> y in a && y != a[0] by {
          assert a == [a[0]] + a[1..];
        }
        assert y in b[1..] <==> y in b && y != b[0] by {
          assert b == [b[0]] + b[1..];
        }
      }
      SortedByElems(a[1..], b[1..]);
      assert a == [a[0]] + a[1..];
      assert b == [b[0]] + b[1..];
    }
  }

  /** A strictly ascending list has no repeated element. */
  lemma SortedDistinct(s: seq<int>)
    requires StrictlySorted(s)
    ensures Distinct(s)
  {
    SortedPairwise(s);
  }

  /** A list without repeated elements has as many elements as its set. */
  lemma {:induction false} DistinctCard(s: seq<int>)
    requires Distinct(s)
    ensures |Elems(s)| == |s|
  {
    if s != [] {
      assert Elems(s) == Elems(s[1..]) + {s[0]} by {
        assert s == [s[0]] + s[1..];
      }
      assert s[0] !in Elems(s[1..]);
      DistinctCard(s[1..]);
    }
  }
}
