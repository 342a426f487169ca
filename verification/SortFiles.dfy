/** The orders in which files are written.  A stable sort is characterized without permutations: the
    result is ordered, and the elements of each single key are the same as before, in the same order. */
module SortFiles {

  /** Keys are compared lexicographically. */
  type Key = (int, int)

  predicate Le(a: Key, b: Key) {
    a.0 < b.0 || (a.0 == b.0 && a.1 <= b.1)
  }

  predicate Sorted<T>(key: T -> Key, xs: seq<T>) {
    forall i, j :: 0 <= i < j < |xs| ==> Le(key(xs[i]), key(xs[j]))
  }

  /** The elements with this key, in order. */
  function With<T>(key: T -> Key, k: Key, xs: seq<T>): seq<T> {
    if xs == [] then [] else (if key(xs[0]) == k then [xs[0]] else []) + With(key, k, xs[1..])
  }

  ghost predicate IsStableSort<T>(key: T -> Key, xs: seq<T>, ys: seq<T>) {
    Sorted(key, ys) && forall k :: With(key, k, ys) == With(key, k, xs)
  }

  // ---------------------------------------------------------------- uniqueness

  lemma {:induction false} WithConcat<T>(key: T -> Key, k: Key, xs: seq<T>, ys: seq<T>)
    ensures With(key, k, xs + ys) == With(key, k, xs) + With(key, k, ys)
  {
    if xs == [] {
      assert xs + ys == ys;
    } else {
      assert (xs + ys)[1..] == xs[1..] + ys;
      WithConcat(key, k, xs[1..], ys);
    }
  }

  lemma {:induction false} WithMembers<T>(key: T -> Key, k: Key, xs: seq<T>)
    ensures With(key, k, xs) != [] <==> exists i :: 0 <= i < |xs| && key(xs[i]) == k
  {
    if xs != [] {
      WithMembers(key, k, xs[1..]);
      if exists i :: 0 <= i < |xs| && key(xs[i]) == k {
        var i :| 0 <= i < |xs| && key(xs[i]) == k;
        assert i > 0 ==> xs[1..][i - 1] == xs[i];
      }
    }
  }

  /** The first key of an ordered list is the least of all its keys, so it is the same for two ordered
      lists with the same elements of each key. */
  lemma SameFirst<T>(key: T -> Key, ys: seq<T>, zs: seq<T>)
    requires Sorted(key, ys) && Sorted(key, zs) && ys != [] && zs != []
    requires forall k :: With(key, k, ys) == With(key, k, zs)
    ensures ys[0] == zs[0]
  {
    var k, l := key(ys[0]), key(zs[0]);
    WithMembers(key, k, ys);
    WithMembers(key, k, zs);
    WithMembers(key, l, ys);
    WithMembers(key, l, zs);
    var i :| 0 <= i < |zs| && key(zs[i]) == k;
    var j :| 0 <= j < |ys| && key(ys[j]) == l;
    assert Le(l, k) && Le(k, l);
    assert With(key, k, ys)[0] == ys[0] && With(key, k, zs)[0] == zs[0];
  }

  /** A list has only one stable sort: any two algorithms agree element for element. */
  lemma {:induction false} StableSortUnique<T>(key: T -> Key, ys: seq<T>, zs: seq<T>)
    requires Sorted(key, ys) && Sorted(key, zs)
    requires forall k :: With(key, k, ys) == With(key, k, zs)
    ensures ys == zs
  {
    if ys != [] { NeitherEmpty(key, ys, zs); }
    if zs != [] { NeitherEmpty(key, zs, ys); }
    if ys != [] {
      SameFirst(key, ys, zs);
      forall k
        ensures With(key, k, ys[1..]) == With(key, k, zs[1..])
      {
        var head := if key(ys[0]) == k then [ys[0]] else [];
        assert With(key, k, ys) == head + With(key, k, ys[1..]) && With(key, k, zs) == head + With(key, k, zs[1..]);
        SameTail(head, With(key, k, ys[1..]), With(key, k, zs[1..]));
      }
      StableSortUnique(key, ys[1..], zs[1..]);
      assert ys == [ys[0]] + ys[1..] && zs == [zs[0]] + zs[1..];
    }
  }

  lemma NeitherEmpty<T>(key: T -> Key, ys: seq<T>, zs: seq<T>)
    requires ys != [] && With(key, key(ys[0]), ys) == With(key, key(ys[0]), zs)
    ensures zs != []
  {
    assert With(key, key(ys[0]), ys)[0] == ys[0];
  }

  lemma SameTail<T>(a: seq<T>, b: seq<T>, c: seq<T>)
    requires a + b == a + c
    ensures b == c
  {
    assert (a + b)[|a|..] == b && (a + c)[|a|..] == c;
  }

  // ---------------------------------------------------------------- a stable sort

  /** In front of the first element that is not smaller. */
  function Insert<T>(key: T -> Key, x: T, ys: seq<T>): seq<T> {
    if ys == [] || Le(key(x), key(ys[0])) then [x] + ys else [ys[0]] + Insert(key, x, ys[1..])
  }

  function StableSort<T>(key: T -> Key, xs: seq<T>): seq<T> {
    if xs == [] then [] else Insert(key, xs[0], StableSort(key, xs[1..]))
  }

  lemma {:induction false} InsertSorted<T>(key: T -> Key, x: T, ys: seq<T>)
    requires Sorted(key, ys)
    ensures Sorted(key, Insert(key, x, ys)) && |Insert(key, x, ys)| == |ys| + 1
    ensures forall y :: y in Insert(key, x, ys) ==> y == x || y in ys
  {
    if ys != [] && !Le(key(x), key(ys[0])) {
      var y, rest := ys[0], Insert(key, x, ys[1..]);
      InsertSorted(key, x, ys[1..]);
      forall i | 0 <= i < |rest|
        ensures Le(key(y), key(rest[i]))
      {
        LeastStays(key, x, ys, rest[i]);
      }
    }
  }

  lemma LeastStays<T>(key: T -> Key, x: T, ys: seq<T>, z: T)
    requires Sorted(key, ys) && ys != [] && !Le(key(x), key(ys[0])) && (z == x || z in ys[1..])
    ensures Le(key(ys[0]), key(z))
  {
    if z != x {
      var j :| 0 <= j < |ys[1..]| && ys[1..][j] == z;
      assert Le(key(ys[0]), key(ys[1 + j]));
    }
  }

  lemma {:induction false} InsertWith<T>(key: T -> Key, x: T, ys: seq<T>, k: Key)
    ensures With(key, k, Insert(key, x, ys)) == With(key, k, [x]) + With(key, k, ys)
  {
    if ys == [] || Le(key(x), key(ys[0])) {
      WithConcat(key, k, [x], ys);
    } else {
      InsertWith(key, x, ys[1..], k);
      assert ([ys[0]] + Insert(key, x, ys[1..]))[1..] == Insert(key, x, ys[1..]);
      assert key(x) == k ==> key(ys[0]) != k;
      assert With(key, k, [x]) == if key(x) == k then [x] else [];
    }
  }

  lemma {:induction false} StableSortIs<T>(key: T -> Key, xs: seq<T>)
    ensures IsStableSort(key, xs, StableSort(key, xs)) && |StableSort(key, xs)| == |xs|
  {
    if xs != [] {
      StableSortIs(key, xs[1..]);
      InsertSorted(key, xs[0], StableSort(key, xs[1..]));
      forall k
        ensures With(key, k, StableSort(key, xs)) == With(key, k, xs)
      {
        InsertWith(key, xs[0], StableSort(key, xs[1..]), k);
        assert With(key, k, [xs[0]]) == if key(xs[0]) == k then [xs[0]] else [];
      }
    }
  }

  /** Every stable sort of a list is that one. */
  lemma OnlyStableSort<T>(key: T -> Key, xs: seq<T>, ys: seq<T>)
    requires IsStableSort(key, xs, ys)
    ensures ys == StableSort(key, xs)
  {
    StableSortIs(key, xs);
    StableSortUnique(key, ys, StableSort(key, xs));
  }

  /** `sort.SliceStable`, in place. */
  method SliceStable<T>(key: T -> Key, files: array<T>)
    modifies files
    ensures files[..] == StableSort(key, old(files[..]))
  {
    var sorted := StableSort(key, files[..]);
    StableSortIs(key, files[..]);
    forall i | 0 <= i < files.Length {
      files[i] := sorted[i];
    }
  }

  // ---------------------------------------------------------------- the keys

  const MB10: int := 10 * 1024 * 1024
  const GB4: int := 0x1_0000_0000

  /** Small, medium, and large or unknown. */
  function SizePriority(size: int): (p: int)
    ensures p in {0, 1, 2}
  {
    if size < 0 then 2 else if size < MB10 then 0 else if size < GB4 then 1 else 2
  }

  function Zip64Key<T>(size: T -> int): T -> Key {
    f => (SizePriority(size(f)), size(f))
  }

  function SizeKey<T>(size: T -> int): T -> Key {
    f => (size(f), 0)
  }

  function Descending<T>(size: T -> int): T -> Key {
    f => (-size(f), 0)
  }

  /** True in front of false. */
  function Front<T>(p: T -> bool): T -> Key {
    f => (if p(f) then 0 else 1, 0)
  }

  // ---------------------------------------------------------------- partition

  function Filter<T>(p: T -> bool, xs: seq<T>): seq<T> {
    if xs == [] then [] else Filter(p, xs[..|xs| - 1]) + if p(xs[|xs| - 1]) then [xs[|xs| - 1]] else []
  }

  function Not<T>(p: T -> bool): T -> bool {
    f => !p(f)
  }

  lemma FilterNext<T>(p: T -> bool, xs: seq<T>, i: nat)
    requires i < |xs|
    ensures Filter(p, xs[..i + 1]) == Filter(p, xs[..i]) + if p(xs[i]) then [xs[i]] else []
  {
    assert xs[..i + 1][..i] == xs[..i];
  }

  lemma {:induction false} FilterLengths<T>(p: T -> bool, xs: seq<T>)
    ensures |Filter(p, xs)| + |Filter(Not(p), xs)| == |xs|
  {
    if xs != [] {
      FilterLengths(p, xs[..|xs| - 1]);
    }
  }

  lemma {:induction false} FilterAll<T>(p: T -> bool, xs: seq<T>)
    ensures forall i :: 0 <= i < |Filter(p, xs)| ==> p(Filter(p, xs)[i])
  {
    if xs != [] {
      FilterAll(p, xs[..|xs| - 1]);
    }
  }

  /** Filtering by a property that the key determines keeps or drops all elements of one key. */
  lemma {:induction false} WithFilter<T>(key: T -> Key, k: Key, p: T -> bool, xs: seq<T>, keep: bool)
    requires forall x :: key(x) == k ==> p(x) == keep
    ensures With(key, k, Filter(p, xs)) == if keep then With(key, k, xs) else []
  {
    if xs != [] {
      var init, x := xs[..|xs| - 1], xs[|xs| - 1];
      WithFilter(key, k, p, init, keep);
      assert xs == init + [x];
      WithConcat(key, k, init, [x]);
      WithConcat(key, k, Filter(p, init), if p(x) then [x] else []);
      assert With(key, k, [x]) == if key(x) == k then [x] else [];
    }
  }

  /** Filtering one group and then the other is the stable sort that puts the first in front. */
  lemma PartitionIsStableSort<T>(p: T -> bool, xs: seq<T>)
    ensures Filter(p, xs) + Filter(Not(p), xs) == StableSort(Front(p), xs)
  {
    var key, a, b := Front(p), Filter(p, xs), Filter(Not(p), xs);
    FilterAll(p, xs);
    FilterAll(Not(p), xs);
    forall i, j | 0 <= i < j < |a + b|
      ensures Le(key((a + b)[i]), key((a + b)[j]))
    {
      assert (a + b)[j] == if j < |a| then a[j] else b[j - |a|];
      assert (a + b)[i] == if i < |a| then a[i] else b[i - |a|];
    }
    forall k
      ensures With(key, k, a + b) == With(key, k, xs)
    {
      WithConcat(key, k, a, b);
      WithFilter(key, k, p, xs, k == (0, 0));
      WithFilter(key, k, Not(p), xs, k != (0, 0));
    }
    OnlyStableSort(key, xs, a + b);
  }

  /** `partitionStable`: one pass counts, the other fills a new slice from two positions. */
  method PartitionStable<T>(p: T -> bool, files: array<T>) returns (result: array<T>)
    ensures fresh(result) && result[..] == StableSort(Front(p), files[..])
  {
    var countFirst := 0;
    for i := 0 to files.Length
      invariant countFirst == |Filter(p, files[..i])|
    {
      FilterNext(p, files[..], i);
      assert files[..][..i] == files[..i] && files[..][..i + 1] == files[..i + 1];
      if p(files[i]) {
        countFirst := countFirst + 1;
      }
    }
    assert files[..files.Length] == files[..];
    ghost var a, b := Filter(p, files[..]), Filter(Not(p), files[..]);
    FilterLengths(p, files[..]);
    result := Fill(p, files, countFirst);
    PartitionIsStableSort(p, files[..]);
    assert result[..] == a + b;
  }

  lemma {:induction false} FilterPrefix<T>(p: T -> bool, xs: seq<T>, i: nat)
    requires i <= |xs|
    ensures Filter(p, xs[..i]) <= Filter(p, xs)
  {
    if i < |xs| {
      FilterPrefix(p, xs[..|xs| - 1], i);
      assert xs[..|xs| - 1][..i] == xs[..i];
    } else {
      assert xs[..i] == xs;
    }
  }

  /** Writing at the end of one part extends it and leaves another part alone. */
  lemma PutAt<T>(s: seq<T>, at: nat, x: T, lo: nat, hi: nat, from: nat, to: nat)
    requires lo <= hi == at < |s| && from <= to <= |s| && (to <= at || at < from)
    ensures s[at := x][lo..hi + 1] == s[lo..hi] + [x] && s[at := x][from..to] == s[from..to]
  {
  }

  method Fill<T>(p: T -> bool, files: array<T>, countFirst: nat) returns (result: array<T>)
    requires countFirst == |Filter(p, files[..])|
    requires countFirst + |Filter(Not(p), files[..])| == files.Length
    ensures fresh(result) && result.Length == files.Length
    ensures result[..countFirst] == Filter(p, files[..]) && result[countFirst..] == Filter(Not(p), files[..])
  {
    ghost var xs := files[..];
    result := new T[files.Length](i requires 0 <= i < files.Length reads files => files[i]);
    var idxFirst, idxSecond := 0, countFirst;
    for i := 0 to files.Length
      invariant files[..] == xs
      invariant idxFirst == |Filter(p, xs[..i])| && idxSecond == countFirst + |Filter(Not(p), xs[..i])|
      invariant idxFirst <= countFirst && idxSecond <= result.Length
      invariant result[..idxFirst] == Filter(p, xs[..i]) && result[countFirst..idxSecond] == Filter(Not(p), xs[..i])
    {
      FilterNext(p, xs, i);
      FilterNext(Not(p), xs, i);
      FilterPrefix(p, xs, i + 1);
      FilterPrefix(Not(p), xs, i + 1);
      if p(files[i]) {
        PutAt(result[..], idxFirst, files[i], 0, idxFirst, countFirst, idxSecond);
        result[idxFirst] := files[i];
        idxFirst := idxFirst + 1;
      } else {
        PutAt(result[..], idxSecond, files[i], countFirst, idxSecond, 0, idxFirst);
        result[idxSecond] := files[i];
        idxSecond := idxSecond + 1;
      }
    }
    assert xs[..files.Length] == xs;
  }

  // ---------------------------------------------------------------- the buckets

  function Has<T>(size: T -> int, priority: int): T -> bool {
    f => SizePriority(size(f)) == priority
  }

  /** Elements of one priority are ordered by size alone just as by priority and size. */
  lemma BucketSorted<T>(size: T -> int, priority: int, xs: seq<T>)
    ensures var ys := StableSort(SizeKey(size), Filter(Has(size, priority), xs));
            && (forall i :: 0 <= i < |ys| ==> SizePriority(size(ys[i])) == priority)
            && Sorted(Zip64Key(size), ys)
            && forall k :: With(Zip64Key(size), k, ys) == if k.0 == priority then With(Zip64Key(size), k, xs) else []
  {
    var p, bucket := Has(size, priority), Filter(Has(size, priority), xs);
    var ys := StableSort(SizeKey(size), bucket);
    StableSortIs(SizeKey(size), bucket);
    forall i | 0 <= i < |ys|
      ensures SizePriority(size(ys[i])) == priority
    {
      WithMembers(SizeKey(size), SizeKey(size)(ys[i]), ys);
      WithMembers(SizeKey(size), SizeKey(size)(ys[i]), bucket);
      var j :| 0 <= j < |bucket| && SizeKey(size)(bucket[j]) == SizeKey(size)(ys[i]);
      FilterAll(p, xs);
      assert p(bucket[j]);
    }
    forall i, j | 0 <= i < j < |ys|
      ensures Le(Zip64Key(size)(ys[i]), Zip64Key(size)(ys[j]))
    {
      assert Le(SizeKey(size)(ys[i]), SizeKey(size)(ys[j]));
    }
    forall k
      ensures With(Zip64Key(size), k, ys) == if k.0 == priority then With(Zip64Key(size), k, xs) else []
    {
      WithFilter(Zip64Key(size), k, p, xs, k.0 == priority);
      SameSizes(size, k, ys);
      SameSizes(size, k, bucket);
    }
  }

  /** The size determines the priority. */
  lemma {:induction false} SameSizes<T>(size: T -> int, k: Key, xs: seq<T>)
    ensures With(Zip64Key(size), k, xs) == if SizePriority(k.1) == k.0 then With(SizeKey(size), (k.1, 0), xs) else []
  {
    if xs != [] {
      SameSizes(size, k, xs[1..]);
    }
  }

  /** Three sorted buckets in a row are the stable sort by priority and size. */
  lemma BucketsAreStableSort<T>(size: T -> int, xs: seq<T>)
    ensures var b := (p: int) => StableSort(SizeKey(size), Filter(Has(size, p), xs));
            b(0) + b(1) + b(2) == StableSort(Zip64Key(size), xs)
  {
    var key := Zip64Key(size);
    var a := StableSort(SizeKey(size), Filter(Has(size, 0), xs));
    var b := StableSort(SizeKey(size), Filter(Has(size, 1), xs));
    var c := StableSort(SizeKey(size), Filter(Has(size, 2), xs));
    BucketSorted(size, 0, xs);
    BucketSorted(size, 1, xs);
    BucketSorted(size, 2, xs);
    ThreeInARow(key, a, b, c);
    forall k
      ensures With(key, k, a + b + c) == With(key, k, xs)
    {
      if k.0 !in {0, 1, 2} {
        SameSizes(size, k, xs);
      }
      WithThree(key, k, a, b, c, With(key, k, xs));
    }
    OnlyStableSort(key, xs, a + b + c);
  }

  lemma WithThree<T>(key: T -> Key, k: Key, a: seq<T>, b: seq<T>, c: seq<T>, w: seq<T>)
    requires With(key, k, a) == if k.0 == 0 then w else []
    requires With(key, k, b) == if k.0 == 1 then w else []
    requires With(key, k, c) == if k.0 == 2 then w else []
    requires k.0 !in {0, 1, 2} ==> w == []
    ensures With(key, k, a + b + c) == w
  {
    WithConcat(key, k, a, b);
    WithConcat(key, k, a + b, c);
  }

  /** The keys of one list lie below those of another. */
  predicate Below<T>(key: T -> Key, a: seq<T>, p: int) {
    forall i :: 0 <= i < |a| ==> key(a[i]).0 < p
  }

  lemma InARow<T>(key: T -> Key, a: seq<T>, b: seq<T>, p: int)
    requires Sorted(key, a) && Sorted(key, b) && Below(key, a, p)
    requires forall j :: 0 <= j < |b| ==> key(b[j]).0 == p
    ensures Sorted(key, a + b) && Below(key, a + b, p + 1)
  {
    forall i, j | 0 <= i < j < |a + b|
      ensures Le(key((a + b)[i]), key((a + b)[j]))
    {
      if i < |a| <= j {
        assert key(a[i]).0 < key(b[j - |a|]).0;
      }
    }
  }

  lemma ThreeInARow<T>(key: T -> Key, a: seq<T>, b: seq<T>, c: seq<T>)
    requires Sorted(key, a) && Sorted(key, b) && Sorted(key, c)
    requires (forall i :: 0 <= i < |a| ==> key(a[i]).0 == 0) && (forall i :: 0 <= i < |b| ==> key(b[i]).0 == 1)
    requires forall i :: 0 <= i < |c| ==> key(c[i]).0 == 2
    ensures Sorted(key, a + b + c)
  {
    InARow(key, a, b, 1);
    InARow(key, a + b, c, 2);
  }

  method SortBucket<T>(size: T -> int, bucket: seq<T>) returns (sorted: seq<T>)
    ensures sorted == StableSort(SizeKey(size), bucket)
  {
    var a := new T[|bucket|](i requires 0 <= i < |bucket| => bucket[i]);
    assert a[..] == bucket;
    if |bucket| > 1 {
      SliceStable(SizeKey(size), a);
    }
    sorted := a[..];
  }

  /** `optimizedSortZIP64Buckets`: the result is the very list that the comparison sort gives. */
  method OptimizedSortZip64Buckets<T>(size: T -> int, files: array<T>) returns (result: array<T>)
    ensures fresh(result) && result[..] == StableSort(Zip64Key(size), files[..])
  {
    var small, medium, large: seq<T> := [], [], [];
    ghost var xs := files[..];
    for i := 0 to files.Length
      invariant small == Filter(Has(size, 0), xs[..i]) && medium == Filter(Has(size, 1), xs[..i])
      invariant large == Filter(Has(size, 2), xs[..i])
    {
      FilterNext(Has(size, 0), xs, i);
      FilterNext(Has(size, 1), xs, i);
      FilterNext(Has(size, 2), xs, i);
      var p := SizePriority(size(files[i]));
      if p == 0 {
        small := small + [files[i]];
      } else if p == 1 {
        medium := medium + [files[i]];
      } else {
        large := large + [files[i]];
      }
    }
    assert xs[..files.Length] == xs;
    small := SortBucket(size, small);
    medium := SortBucket(size, medium);
    large := SortBucket(size, large);
    BucketsAreStableSort(size, xs);
    var merged := small + medium + large;
    result := new T[|merged|](i requires 0 <= i < |merged| => merged[i]);
  }

  // ---------------------------------------------------------------- all strategies

  datatype Strategy = Default | LargeLast | LargeFirst | Ascending | DescendingSize | Zip64Optimized | Alphabetical

  /** The order of each strategy; `rank` numbers the names in their alphabetical order. */
  function KeyOf<T>(s: Strategy, size: T -> int, rank: T -> int): T -> Key {
    match s
    case Default => f => (0, 0)
    case LargeLast => Front(f => size(f) < GB4)
    case LargeFirst => Front(f => size(f) >= GB4)
    case Ascending => SizeKey(size)
    case DescendingSize => Descending(size)
    case Zip64Optimized => Zip64Key(size)
    case Alphabetical => SizeKey(rank)
  }

  predicate MakesNewSlice(s: Strategy, n: nat) {
    n > 1 && (s == LargeLast || s == LargeFirst || (s == Zip64Optimized && n > 1000))
  }

  lemma {:induction false} ConstantKey<T>(xs: seq<T>, key: T -> Key)
    requires forall x :: key(x) == (0, 0)
    ensures StableSort(key, xs) == xs
  {
    if xs != [] {
      ConstantKey(xs[1..], key);
      assert xs == [xs[0]] + xs[1..];
    }
  }

  /** `SortFilesOptimized`: every strategy gives the stable sort by its own key, whichever algorithm it
      uses.  Contrary to its description it sorts the caller's slice for most of them: exactly the two
      partitions and the buckets, used above 1000 files, leave it alone. */
  method SortFilesOptimized<T>(s: Strategy, size: T -> int, rank: T -> int, files: array<T>) returns (r: array<T>)
    modifies files
    ensures r[..] == StableSort(KeyOf(s, size, rank), old(files[..]))
    ensures if MakesNewSlice(s, files.Length) then fresh(r) && files[..] == old(files[..]) else r == files
  {
    if files.Length <= 1 {
      ShortIsSorted(KeyOf(s, size, rank), files[..]);
      return files;
    }
    r := files;
    match s
    case LargeLast => r := PartitionStable(f => size(f) < GB4, files);
    case LargeFirst => r := PartitionStable(f => size(f) >= GB4, files);
    case Zip64Optimized =>
      if files.Length > 1000 {
        r := OptimizedSortZip64Buckets(size, files);
      } else {
        SliceStable(Zip64Key(size), files);
      }
    case Ascending => SliceStable(SizeKey(size), files);
    case DescendingSize => SliceStable(Descending(size), files);
    case Alphabetical => SliceStable(SizeKey(rank), files);
    case Default => ConstantKey(files[..], KeyOf(s, size, rank));
  }

  lemma ShortIsSorted<T>(key: T -> Key, xs: seq<T>)
    requires |xs| <= 1
    ensures StableSort(key, xs) == xs
  {
    if xs != [] {
      assert xs == [xs[0]] && StableSort(key, xs[1..]) == [];
    }
  }

  // ---------------------------------------------------------------- the orders in plain words

  /** What may stand in front of what: 0 for known sizes below 4 GB, then unknown sizes, then the rest. */
  function Group(size: int): int {
    if 0 <= size < 4294967296 then 0 else if size < 0 then 1 else 2
  }

  /** For every strategy, what its order says of two files, `a` somewhere in front of `b`. */
  predicate InOrder<T>(s: Strategy, size: T -> int, rank: T -> int, a: T, b: T) {
    match s
    case LargeLast => size(a) >= 4294967296 ==> size(b) >= 4294967296
    case LargeFirst => size(b) >= 4294967296 ==> size(a) >= 4294967296
    case Zip64Optimized => Group(size(a)) < Group(size(b)) || (Group(size(a)) == Group(size(b)) && size(a) <= size(b))
    case Ascending => size(a) <= size(b)
    case DescendingSize => size(a) >= size(b)
    case Alphabetical => rank(a) <= rank(b)
    case Default => true
  }

  /** The keys give exactly these orders; the boundary of 10 MB makes no difference to any of them. */
  lemma KeyMeans<T>(s: Strategy, size: T -> int, rank: T -> int, a: T, b: T)
    ensures Le(KeyOf(s, size, rank)(a), KeyOf(s, size, rank)(b)) <==> InOrder(s, size, rank, a, b)
  {
  }

  lemma {:induction false} InsertedOnce<T>(key: T -> Key, x: T, ys: seq<T>)
    ensures multiset(Insert(key, x, ys)) == multiset(ys) + multiset{x}
  {
    if ys != [] {
      InsertedOnce(key, x, ys[1..]);
      assert ys == [ys[0]] + ys[1..];
    }
  }

  lemma {:induction false} StableSortPermutes<T>(key: T -> Key, xs: seq<T>)
    ensures multiset(StableSort(key, xs)) == multiset(xs)
  {
    if xs != [] {
      StableSortPermutes(key, xs[1..]);
      InsertedOnce(key, xs[0], StableSort(key, xs[1..]));
      assert xs == [xs[0]] + xs[1..];
    }
  }

  /** So the result is in that order, and files that may stand either way keep theirs. */
  lemma ResultInOrder<T>(s: Strategy, size: T -> int, rank: T -> int, xs: seq<T>, i: nat, j: nat)
    requires i < j < |StableSort(KeyOf(s, size, rank), xs)|
    ensures var ys := StableSort(KeyOf(s, size, rank), xs); InOrder(s, size, rank, ys[i], ys[j])
    ensures multiset(StableSort(KeyOf(s, size, rank), xs)) == multiset(xs)
  {
    var key := KeyOf(s, size, rank);
    StableSortIs(key, xs);
    StableSortPermutes(key, xs);
    KeyMeans(s, size, rank, StableSort(key, xs)[i], StableSort(key, xs)[j]);
  }
}
