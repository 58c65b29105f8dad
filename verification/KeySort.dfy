/**
 Sorting by a byte-string key.

 The library sort the program calls is modelled by its contract: a permutation of its input whose
 keys ascend. On pairwise distinct keys that contract has exactly one answer (`AscendingIsUnique`),
 so nothing below depends on which algorithm computes it.
 */
module KeySort {

  /** One sortable entry: the key it is ordered by and what travels with it. */
  datatype Keyed<+T> = Keyed(key: string, item: T)

  /** Strict order of byte strings, compared byte by byte, a proper prefix being the smaller. */
  predicate Less(a: string, b: string) {
    if b == [] then false
    else if a == [] then true
    else if a[0] != b[0] then a[0] < b[0]
    else Less(a[1..], b[1..])
  }

  /** The texts agree on the first `k` bytes, and there `a` ends or has the smaller byte. */
  ghost predicate BeforeAt(a: string, b: string, k: nat) {
    k <= |a| && k < |b| && a[..k] == b[..k] && (k == |a| || a[k] < b[k])
  }

  ghost predicate Precedes(a: string, b: string) {
    exists k: nat :: BeforeAt(a, b, k)
  }

  /** The order is the byte order of the texts: the first difference decides, and an end comes before a byte. */
  lemma {:induction false} LessIsByteOrder(a: string, b: string)
    ensures Less(a, b) <==> Precedes(a, b)
  {
    if Less(a, b) {
      var k := FirstDifference(a, b);
      assert BeforeAt(a, b, k);
    }
    if Precedes(a, b) {
      var k: nat :| BeforeAt(a, b, k);
      DifferenceDecides(a, b, k);
    }
  }

  lemma {:induction false} FirstDifference(a: string, b: string) returns (k: nat)
    requires Less(a, b)
    ensures BeforeAt(a, b, k)
  {
    if a == [] || a[0] != b[0] {
      k := 0;
    } else {
      var rest := FirstDifference(a[1..], b[1..]);
      k := rest + 1;
      assert a[..k] == [a[0]] + a[1..][..rest] && b[..k] == [b[0]] + b[1..][..rest];
    }
  }

  lemma {:induction false} DifferenceDecides(a: string, b: string, k: nat)
    requires BeforeAt(a, b, k)
    ensures Less(a, b)
    decreases k
  {
    if k > 0 {
      assert a[..k][0] == a[0] && b[..k][0] == b[0];
      assert a[1..][..k - 1] == a[..k][1..] && b[1..][..k - 1] == b[..k][1..];
      DifferenceDecides(a[1..], b[1..], k - 1);
    }
  }

  lemma {:induction false} LessTrichotomy(a: string, b: string)
    ensures !Less(a, a)
    ensures a == b || Less(a, b) || Less(b, a)
    ensures !(Less(a, b) && Less(b, a))
    decreases |a| + |b|
  {
    if a != [] && b != [] {
      LessTrichotomy(a[1..], b[1..]);
      if a[0] == b[0] && a[1..] == b[1..] {
        assert a == [a[0]] + a[1..] && b == [b[0]] + b[1..];
      }
    } else if a != [] {
      LessTrichotomy(a[1..], []);
    }
  }

  lemma {:induction false} LessTransitive(a: string, b: string, c: string)
    requires Less(a, b) && Less(b, c)
    ensures Less(a, c)
  {
    if a != [] && a[0] == b[0] && b[0] == c[0] {
      LessTransitive(a[1..], b[1..], c[1..]);
    }
  }

  /** Keys strictly ascend. */
  ghost predicate Ascending<T>(xs: seq<Keyed<T>>) {
    forall i, j :: 0 <= i < j < |xs| ==> Less(xs[i].key, xs[j].key)
  }

  /** Keys never descend: what a sort alone promises. */
  ghost predicate NonDescending<T>(xs: seq<Keyed<T>>) {
    forall i, j :: 0 <= i < j < |xs| ==> !Less(xs[j].key, xs[i].key)
  }

  /** Strictly ascending: each key precedes the next one in byte order. */
  lemma {:induction false} AscendingIsByteOrder<T>(xs: seq<Keyed<T>>)
    ensures Ascending(xs) <==> forall i :: 0 <= i < |xs| - 1 ==> Precedes(xs[i].key, xs[i + 1].key)
  {
    hide Less, Precedes;
    forall i | 0 <= i < |xs| - 1
      ensures Less(xs[i].key, xs[i + 1].key) <==> Precedes(xs[i].key, xs[i + 1].key)
    {
      LessIsByteOrder(xs[i].key, xs[i + 1].key);
    }
    if forall i :: 0 <= i < |xs| - 1 ==> Precedes(xs[i].key, xs[i + 1].key) {
      forall i, j | 0 <= i < j < |xs|
        ensures Less(xs[i].key, xs[j].key)
      {
        StepsAscend(xs, i, j);
      }
    }
  }

  lemma {:induction false} StepsAscend<T>(xs: seq<Keyed<T>>, i: nat, j: nat)
    requires i < j < |xs| && forall m :: 0 <= m < |xs| - 1 ==> Less(xs[m].key, xs[m + 1].key)
    ensures Less(xs[i].key, xs[j].key)
    decreases j - i
  {
    hide Less;
    if i + 1 < j {
      StepsAscend(xs, i, j - 1);
      LessTransitive(xs[i].key, xs[j - 1].key, xs[j].key);
    }
  }

  ghost predicate DistinctKeys<T>(xs: seq<Keyed<T>>) {
    forall i, j :: 0 <= i < j < |xs| ==> xs[i].key != xs[j].key
  }

  /** Some adjacent pair repeats a key: the test made after the sort. */
  predicate AdjacentRepeat<T>(xs: seq<Keyed<T>>) {
    exists i :: 0 <= i < |xs| - 1 && xs[i].key == xs[i + 1].key
  }

  function Insert<T>(x: Keyed<T>, xs: seq<Keyed<T>>): (r: seq<Keyed<T>>)
    ensures |r| == |xs| + 1
  {
    if xs == [] || Less(x.key, xs[0].key) then [x] + xs
    else [xs[0]] + Insert(x, xs[1..])
  }

  function SortByKey<T>(xs: seq<Keyed<T>>): (r: seq<Keyed<T>>)
    ensures |r| == |xs|
  {
    if xs == [] then [] else Insert(xs[0], SortByKey(xs[1..]))
  }

  lemma {:induction false} InsertSorts<T>(x: Keyed<T>, xs: seq<Keyed<T>>)
    requires NonDescending(xs)
    ensures multiset(Insert(x, xs)) == multiset{x} + multiset(xs)
    ensures NonDescending(Insert(x, xs))
  {
    if xs == [] {
    } else if Less(x.key, xs[0].key) {
      assert [x] + xs == Insert(x, xs);
      forall j | 0 <= j < |xs| ensures !Less(xs[j].key, x.key) {
        if Less(xs[j].key, x.key) {
          LessTransitive(xs[j].key, x.key, xs[0].key);
          LessTrichotomy(xs[0].key, xs[0].key);
        }
      }
    } else {
      InsertSorts(x, xs[1..]);
      assert xs == [xs[0]] + xs[1..];
      var rest := Insert(x, xs[1..]);
      forall j | 0 <= j < |rest| ensures !Less(rest[j].key, xs[0].key) {
        assert rest[j] in multiset(rest);
        assert rest[j] == x || rest[j] in xs[1..];
      }
    }
  }

  /** The sort's contract: a permutation whose keys never descend. */
  lemma {:induction false} SortByKeySorts<T>(xs: seq<Keyed<T>>)
    ensures multiset(SortByKey(xs)) == multiset(xs)
    ensures NonDescending(SortByKey(xs))
  {
    if xs != [] {
      SortByKeySorts(xs[1..]);
      InsertSorts(xs[0], SortByKey(xs[1..]));
      assert xs == [xs[0]] + xs[1..];
    }
  }

  /** After any sort, an adjacent repeat is absent exactly when all keys are distinct. */
  lemma {:induction false} AdjacentTestDecides<T>(xs: seq<Keyed<T>>)
    requires NonDescending(xs)
    ensures !AdjacentRepeat(xs) <==> Ascending(xs)
    ensures !AdjacentRepeat(xs) <==> DistinctKeys(xs)
  {
    if !AdjacentRepeat(xs) {
      forall i, j | 0 <= i < j < |xs| ensures Less(xs[i].key, xs[j].key) {
        AdjacentChain(xs, i, j);
      }
    }
    if Ascending(xs) {
      forall i, j | 0 <= i < j < |xs| ensures xs[i].key != xs[j].key {
        LessTrichotomy(xs[i].key, xs[j].key);
      }
    }
  }

  lemma {:induction false} AdjacentChain<T>(xs: seq<Keyed<T>>, i: nat, j: nat)
    requires NonDescending(xs) && !AdjacentRepeat(xs) && i < j < |xs|
    ensures Less(xs[i].key, xs[j].key)
    decreases j - i
  {
    LessTrichotomy(xs[j - 1].key, xs[j].key);
    assert xs[j - 1].key != xs[j - 1 + 1].key;
    if i < j - 1 {
      AdjacentChain(xs, i, j - 1);
      LessTransitive(xs[i].key, xs[j - 1].key, xs[j].key);
    }
  }

  /** Distinctness is a property of the bag, so the sort neither makes nor loses a repeat. */
  lemma {:induction false} DistinctIsABagProperty<T>(xs: seq<Keyed<T>>, ys: seq<Keyed<T>>)
    requires multiset(xs) == multiset(ys) && DistinctKeys(xs)
    ensures DistinctKeys(ys)
  {
    forall i, j | 0 <= i < j < |ys| ensures ys[i].key != ys[j].key {
      if ys[i].key == ys[j].key {
        assert ys[i] in multiset(xs) && ys[j] in multiset(xs);
        var p :| 0 <= p < |xs| && xs[p] == ys[i];
        var q :| 0 <= q < |xs| && xs[q] == ys[j];
        assert p == q;
        TwoPlacesCountTwice(ys, i, j);
        OnePlaceCountsOnce(xs, p);
      }
    }
  }

  lemma {:induction false} TwoPlacesCountTwice<T>(ys: seq<T>, i: nat, j: nat)
    requires i < j < |ys| && ys[i] == ys[j]
    ensures multiset(ys)[ys[i]] >= 2
  {
    assert ys == ys[..j] + [ys[j]] + ys[j + 1..];
    assert ys[..j][i] == ys[i];
    assert ys[i] in multiset(ys[..j]);
  }

  lemma {:induction false} OnePlaceCountsOnce<T>(xs: seq<Keyed<T>>, p: nat)
    requires p < |xs| && DistinctKeys(xs)
    ensures multiset(xs)[xs[p]] == 1
  {
    var left, right := xs[..p], xs[p + 1..];
    assert xs == left + [xs[p]] + right;
    forall i | 0 <= i < |left| ensures left[i] != xs[p] {
      assert xs[i].key != xs[p].key;
    }
    forall i | 0 <= i < |right| ensures right[i] != xs[p] {
      assert xs[p].key != xs[p + 1 + i].key;
    }
  }

  lemma {:induction false} HeadIsLeast<T>(xs: seq<Keyed<T>>, y: Keyed<T>)
    requires Ascending(xs) && y in xs
    ensures y == xs[0] || Less(xs[0].key, y.key)
  {
    var i :| 0 <= i < |xs| && xs[i] == y;
  }

  lemma {:induction false} HeadsAgree<T>(xs: seq<Keyed<T>>, ys: seq<Keyed<T>>)
    requires Ascending(xs) && Ascending(ys) && multiset(xs) == multiset(ys) && xs != [] && ys != []
    ensures xs[0] == ys[0]
  {
    assert xs[0] in multiset(ys) && ys[0] in multiset(xs);
    HeadIsLeast(xs, ys[0]);
    HeadIsLeast(ys, xs[0]);
    LessTrichotomy(xs[0].key, ys[0].key);
  }

  lemma {:induction false} BagOfTail<T>(xs: seq<Keyed<T>>)
    requires xs != []
    ensures multiset(xs[1..]) == multiset(xs) - multiset{xs[0]}
  {
    assert xs == [xs[0]] + xs[1..];
  }

  lemma {:induction false} AscendingTail<T>(xs: seq<Keyed<T>>)
    requires Ascending(xs) && xs != []
    ensures Ascending(xs[1..])
  {
    hide Less;
  }

  /** One bag has at most one strictly ascending arrangement. */
  lemma {:induction false} AscendingIsUnique<T>(xs: seq<Keyed<T>>, ys: seq<Keyed<T>>)
    requires Ascending(xs) && Ascending(ys) && multiset(xs) == multiset(ys)
    ensures xs == ys
  {
    hide Ascending, Less;
    assert |xs| == |multiset(xs)| == |ys|;
    if xs != [] {
      HeadsAgree(xs, ys);
      BagOfTail(xs);
      BagOfTail(ys);
      AscendingTail(xs);
      AscendingTail(ys);
      AscendingIsUnique(xs[1..], ys[1..]);
      assert xs == [xs[0]] + xs[1..] && ys == [ys[0]] + ys[1..];
    }
  }

  /** Sorting an ascending sequence changes nothing. */
  lemma {:induction false} SortOfAscending<T>(xs: seq<Keyed<T>>)
    requires Ascending(xs)
    ensures SortByKey(xs) == xs
  {
    if xs != [] {
      SortOfAscending(xs[1..]);
      assert xs == [xs[0]] + xs[1..];
      if |xs| > 1 {
        assert Less(xs[0].key, xs[1].key);
      }
    }
  }

  /** Taking the head of one arrangement of a bag out of another arrangement of it. */
  lemma {:induction false} TakeOut<T>(xs: seq<T>, ys: seq<T>) returns (i: nat)
    requires xs != [] && multiset(xs) == multiset(ys)
    ensures i < |ys| && ys[i] == xs[0] && ys == ys[..i] + [xs[0]] + ys[i + 1..]
    ensures multiset(xs[1..]) == multiset(ys[..i] + ys[i + 1..])
  {
    assert xs[0] in multiset(ys);
    i :| 0 <= i < |ys| && ys[i] == xs[0];
    assert ys == ys[..i] + [xs[0]] + ys[i + 1..];
    assert xs == [xs[0]] + xs[1..];
    assert multiset(ys) == multiset(ys[..i]) + multiset{xs[0]} + multiset(ys[i + 1..]);
    assert multiset(xs) == multiset{xs[0]} + multiset(xs[1..]);
    assert multiset(xs[1..]) == multiset(xs) - multiset{xs[0]};
    assert multiset(ys[..i] + ys[i + 1..]) == multiset(ys) - multiset{xs[0]};
  }

  lemma {:induction false} DistinctTail<T>(xs: seq<Keyed<T>>)
    requires xs != [] && DistinctKeys(xs)
    ensures DistinctKeys(xs[1..]) && forall i :: 0 < i < |xs| ==> xs[i].key != xs[0].key
  {
  }

  /** Order and distinctness look at nothing but the keys. */
  lemma {:induction false} SameKeys<S, T>(xs: seq<Keyed<S>>, ys: seq<Keyed<T>>)
    requires |xs| == |ys| && forall i :: 0 <= i < |xs| ==> xs[i].key == ys[i].key
    ensures DistinctKeys(xs) <==> DistinctKeys(ys)
    ensures Ascending(xs) <==> Ascending(ys)
  {
    hide Less;
  }

  function Items<T>(xs: seq<Keyed<T>>): (r: seq<T>)
    ensures |r| == |xs| && forall i :: 0 <= i < |xs| ==> r[i] == xs[i].item
  {
    if xs == [] then [] else [xs[0].item] + Items(xs[1..])
  }

  lemma {:induction false} ItemsConcat<T>(xs: seq<Keyed<T>>, ys: seq<Keyed<T>>)
    ensures Items(xs + ys) == Items(xs) + Items(ys)
  {
  }

  lemma {:induction false} ItemsOfBag<T>(xs: seq<Keyed<T>>, ys: seq<Keyed<T>>)
    requires multiset(xs) == multiset(ys)
    ensures multiset(Items(xs)) == multiset(Items(ys))
  {
    assert |xs| == |multiset(xs)| == |ys|;
    if xs != [] {
      var i := TakeOut(xs, ys);
      ItemsOfBag(xs[1..], ys[..i] + ys[i + 1..]);
      ItemsConcat(ys[..i] + [xs[0]], ys[i + 1..]);
      ItemsConcat(ys[..i], [xs[0]]);
      ItemsConcat(ys[..i], ys[i + 1..]);
    }
  }
}
