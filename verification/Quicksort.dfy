/** The quicksort of hw2/src/sort.c:87-127 over an array and any total preorder. */
module Quicksort {

  /** cmp orders the elements of M as a total preorder: antisymmetric in sign, transitive. */
  ghost predicate PreorderOn<T>(cmp: (T, T) -> int, M: multiset<T>) {
    && (forall a, b :: a in M && b in M ==> (cmp(a, b) < 0 <==> cmp(b, a) > 0))
    && (forall a, b, c :: a in M && b in M && c in M && cmp(a, b) <= 0 && cmp(b, c) <= 0 ==> cmp(a, c) <= 0)
  }

  ghost predicate Sorted<T>(cmp: (T, T) -> int, s: seq<T>) {
    forall i, j :: 0 <= i <= j < |s| ==> cmp(s[i], s[j]) <= 0
  }

  /** s[k] is strictly below every other element of s[low..high]. */
  ghost predicate UniqueMin<T>(cmp: (T, T) -> int, s: seq<T>, low: nat, high: nat, k: nat)
    requires low <= k < high <= |s|
  {
    forall j :: low <= j < high && j != k ==> cmp(s[j], s[k]) > 0
  }

  /** 1 if the pivot of s[low..high] is its unique minimum, which partition cannot split off. */
  ghost function Stuck<T>(cmp: (T, T) -> int, s: seq<T>, low: nat, high: nat): nat
    requires low <= high <= |s|
  {
    if low < high && UniqueMin(cmp, s, low, high, (low + high) / 2) then 1 else 0
  }

  /** The same elements, outside [low, high) at the same places. */
  ghost predicate Shuffled<T>(s: seq<T>, t: seq<T>, low: nat, high: nat) {
    && |s| == |t| && low <= high <= |s|
    && s[..low] == t[..low] && s[high..] == t[high..]
    && multiset(s[low..high]) == multiset(t[low..high])
  }

  /** t[low..high] is s[low..high] rotated left by one place. */
  ghost predicate RotatedLeft<T>(s: seq<T>, t: seq<T>, low: nat, high: nat) {
    && |s| == |t| && low < high <= |s|
    && (forall j :: low <= j < high - 1 ==> t[j] == s[j + 1])
    && t[high - 1] == s[low]
  }

  lemma ShuffledSwap<T>(s: seq<T>, t: seq<T>, low: nat, high: nat, i: nat, j: nat)
    requires Shuffled(s, t, low, high) && low <= i < high && low <= j < high
    ensures Shuffled(s, t[i := t[j]][j := t[i]], low, high)
  {
    var u := t[i := t[j]][j := t[i]];
    var a, b := t[low..high], u[low..high];
    assert b == a[i - low := a[j - low]][j - low := a[i - low]];
    assert u[..low] == t[..low] && u[high..] == t[high..];
  }

  lemma ShuffledMultiset<T>(s: seq<T>, t: seq<T>, low: nat, high: nat)
    requires Shuffled(s, t, low, high)
    ensures multiset(s) == multiset(t)
  {
    assert s == s[..low] + s[low..high] + s[high..];
    assert t == t[..low] + t[low..high] + t[high..];
  }

  /** While h moves down from high and nothing goes low, the elements turn by one place. */
  ghost predicate Turned<T>(s: seq<T>, t: seq<T>, low: nat, h: nat, high: nat)
    requires low <= h <= high
  {
    && |s| == |t| && low < high <= |s|
    && (h == high ==> s == t)
    && (h < high ==>
      && (low < h ==> t[low] == s[h])
      && (forall j :: low < j < h ==> t[j] == s[j])
      && (forall j :: h <= j < high - 1 ==> t[j] == s[j + 1])
      && t[high - 1] == s[low])
  }

  /** The loop of partition: [low, l) went low, [h, high) went high, alt is the side the next equal
      element goes to. s is the range on entry, t the range now. */
  ghost predicate Partitioning<T>(cmp: (T, T) -> int, s: seq<T>, t: seq<T>, pivot: T,
                                  low: nat, l: nat, h: nat, high: nat, alt: int)
  {
    && low <= l <= h <= high <= |s| && |t| == |s| && (alt == 1 || alt == -1) && Shuffled(s, t, low, high)
    && (forall j :: low <= j < l ==> cmp(t[j], pivot) <= 0)
    && (forall j :: h <= j < high ==> cmp(t[j], pivot) >= 0)
    // the first element equal to the pivot goes high: it is the pivot, still to come, or it went
    && (h == high ==> alt == 1 && exists j :: l <= j < h && t[j] == pivot)
    // as long as nothing went low, at most one equal element went high and the range turned
    && (l == low ==>
      && Turned(s, t, low, h, high)
      && (alt == 1 ==> forall j :: h <= j < high ==> cmp(t[j], pivot) > 0)
      && (forall i, j :: h <= i < j < high ==> cmp(t[i], pivot) > 0 || cmp(t[j], pivot) > 0))
  }

  lemma GoesHigh<T>(cmp: (T, T) -> int, s: seq<T>, t: seq<T>, pivot: T,
                    low: nat, l: nat, h: nat, high: nat, alt: int, alt2: int)
    requires Partitioning(cmp, s, t, pivot, low, l, h, high, alt) && l < h && cmp(pivot, pivot) == 0
    requires if cmp(t[l], pivot) == 0 then alt == 1 && alt2 == -1 else cmp(t[l], pivot) > 0 && alt2 == alt
    ensures Partitioning(cmp, s, t[h - 1 := t[l]][l := t[h - 1]], pivot, low, l, h - 1, high, alt2)
  {
    hide Shuffled;
    ShuffledSwap(s, t, low, high, h - 1, l);
    var u := t[h - 1 := t[l]][l := t[h - 1]];
    assert u[h - 1] == t[l];
    assert forall j :: low <= j < high && j != l && j != h - 1 ==> u[j] == t[j];
    if l == low { TurnedStep(s, t, low, h, high); }
    if h == high && cmp(t[l], pivot) != 0 {
      var j :| l <= j < h && t[j] == pivot;
      assert j != l;
    }
  }

  lemma TurnedStep<T>(s: seq<T>, t: seq<T>, low: nat, h: nat, high: nat)
    requires low < h <= high && |s| == |t| && Turned(s, t, low, h, high)
    ensures Turned(s, t[h - 1 := t[low]][low := t[h - 1]], low, h - 1, high)
  {
  }

  lemma GoesLow<T>(cmp: (T, T) -> int, s: seq<T>, t: seq<T>, pivot: T,
                   low: nat, l: nat, h: nat, high: nat, alt: int, alt2: int)
    requires Partitioning(cmp, s, t, pivot, low, l, h, high, alt) && l < h && cmp(pivot, pivot) == 0
    requires if cmp(t[l], pivot) == 0 then alt == -1 && alt2 == 1 else cmp(t[l], pivot) < 0 && alt2 == alt
    ensures Partitioning(cmp, s, t, pivot, low, l + 1, h, high, alt2)
  {
  }

  /** What the loop leaves when nothing went low: the pivot is the only element that is not larger. */
  lemma NothingLow<T>(cmp: (T, T) -> int, s: seq<T>, t: seq<T>, pivot: T, low: nat, high: nat, alt: int, m: nat)
    requires Partitioning(cmp, s, t, pivot, low, low, low, high, alt) && low < high && cmp(pivot, pivot) == 0
    requires low <= m < high && s[m] == pivot
    ensures RotatedLeft(s, t, low, high) && UniqueMin(cmp, s, low, high, m)
  {
    var m2 := if m == low then high - 1 else m - 1;
    assert t[m2] == pivot;
    forall j | low <= j < high && j != m ensures cmp(s[j], s[m]) > 0 {
      var j2 := if j == low then high - 1 else j - 1;
      assert t[j2] == s[j];
    }
  }

  lemma SelfEqual<T>(cmp: (T, T) -> int, M: multiset<T>, x: T)
    requires PreorderOn(cmp, M) && x in M
    ensures cmp(x, x) == 0
  {
  }

  lemma PartitioningStart<T>(cmp: (T, T) -> int, s: seq<T>, low: nat, high: nat, m: nat)
    requires low <= m < high <= |s|
    ensures Partitioning(cmp, s, s, s[m], low, low, high, high, 1)
  {
  }

  lemma PartitioningEnd<T>(cmp: (T, T) -> int, s: seq<T>, t: seq<T>, pivot: T, low: nat, l: nat, high: nat, alt: int)
    requires Partitioning(cmp, s, t, pivot, low, l, l, high, alt)
    ensures |t| == |s| && low <= l < high <= |t| && Shuffled(s, t, low, high)
    ensures forall j :: low <= j < l ==> cmp(t[j], pivot) <= 0
    ensures forall j :: l <= j < high ==> cmp(t[j], pivot) >= 0
  {
  }

  /** Lines 100-127. */
  method Partition<T>(stab: array<T>, low: nat, high: nat, cmp: (T, T) -> int) returns (l: nat)
    requires low < high <= stab.Length && PreorderOn(cmp, multiset(stab[..]))
    modifies stab
    ensures low <= l < high && Shuffled(old(stab[..]), stab[..], low, high)
    ensures var pivot := old(stab[(low + high) / 2]);
      && (forall j :: low <= j < l ==> cmp(stab[j], pivot) <= 0)
      && (forall j :: l <= j < high ==> cmp(stab[j], pivot) >= 0)
    ensures l == low ==>
      RotatedLeft(old(stab[..]), stab[..], low, high) && UniqueMin(cmp, old(stab[..]), low, high, (low + high) / 2)
  {
    hide PreorderOn, Partitioning, Shuffled, RotatedLeft, UniqueMin;
    ghost var s, m := stab[..], (low + high) / 2;
    var pivot := stab[(low + high) / 2];
    assert s[m] == pivot;
    SelfEqual(cmp, multiset(s), pivot);
    PartitioningStart(cmp, s, low, high, m);
    l := low;
    var h: nat := high;
    var alt := 1;
    while l < h
      invariant low <= l <= h <= high && (alt == 1 || alt == -1)
      invariant Partitioning(cmp, s, stab[..], pivot, low, l, h, high, alt)
      decreases h - l
    {
      ghost var t, alt0 := stab[..], alt;
      var c := cmp(stab[l], pivot);
      if c == 0 {
        c := alt;
        alt := -alt;
      }
      if c > 0 {
        GoesHigh(cmp, s, t, pivot, low, l, h, high, alt0, alt);
        var temp := stab[h - 1];
        stab[h - 1] := stab[l];
        stab[l] := temp;
        assert stab[..] == t[h - 1 := t[l]][l := t[h - 1]];
        h := h - 1;
      } else {
        GoesLow(cmp, s, t, pivot, low, l, h, high, alt0, alt);
        l := l + 1;
      }
    }
    PartitioningEnd(cmp, s, stab[..], pivot, low, l, high, alt);
    if l == low { NothingLow(cmp, s, stab[..], pivot, low, high, alt, m); }
  }

  /** After a pass that split nothing off, the next pivot is not a unique minimum. */
  lemma RotationUnsticks<T>(cmp: (T, T) -> int, s: seq<T>, t: seq<T>, low: nat, high: nat)
    requires RotatedLeft(s, t, low, high) && low + 1 < high && PreorderOn(cmp, multiset(s))
    requires UniqueMin(cmp, s, low, high, (low + high) / 2)
    ensures Stuck(cmp, s, low, high) == 1 && Stuck(cmp, t, low, high) == 0
  {
    var m := (low + high) / 2;
    assert low < m;
    assert t[m - 1] == s[m];
    var j := if m + 1 < high then m + 1 else low;
    assert t[m] == s[j];
    assert cmp(s[j], s[m]) > 0 && s[j] in multiset(s) && s[m] in multiset(s);
    assert !(cmp(t[m - 1], t[m]) > 0);
  }

  /** Lines 87-98. It terminates although partition may return low. */
  method SortTable<T>(stab: array<T>, low: nat, high: nat, cmp: (T, T) -> int)
    requires low <= high <= stab.Length && PreorderOn(cmp, multiset(stab[..]))
    modifies stab
    ensures Shuffled(old(stab[..]), stab[..], low, high)
    ensures Sorted(cmp, stab[low..high])
    decreases high - low, Stuck(cmp, stab[..], low, high)
  {
    hide PreorderOn, Shuffled, Sorted, RotatedLeft, UniqueMin, Stuck;
    ghost var s := stab[..];
    ShortRange(cmp, s, low, high);
    if low == high { return; }
    var middle := Partition(stab, low, high, cmp);
    ghost var t := stab[..];
    ShuffledMultiset(s, t, low, high);
    ShortRange(cmp, t, low, high);
    if low + 1 == high { return; }
    if middle == low { RotationUnsticks(cmp, s, t, low, high); }
    SortTable(stab, low, middle, cmp);
    ghost var u := stab[..];
    ShuffledMultiset(t, u, low, middle);
    if middle == low { ShuffledNothing(t, u, low); }
    SortTable(stab, middle, high, cmp);
    assert s[(low + high) / 2] in multiset(s);
    Merged(cmp, s, t, u, stab[..], low, middle, high, s[(low + high) / 2]);
  }

  lemma ShuffledNothing<T>(t: seq<T>, u: seq<T>, low: nat)
    requires Shuffled(t, u, low, low)
    ensures t == u
  {
    assert t == t[..low] + t[low..];
  }

  lemma ShortRange<T>(cmp: (T, T) -> int, s: seq<T>, low: nat, high: nat)
    requires low <= high <= |s| && PreorderOn(cmp, multiset(s))
    ensures Shuffled(s, s, low, high)
    ensures low + 1 >= high ==> Sorted(cmp, s[low..high])
  {
    if low + 1 == high { assert s[low] in multiset(s); }
  }

  /** A bound on a range survives shuffling it. */
  lemma BoundsKept<T>(cmp: (T, T) -> int, t: seq<T>, u: seq<T>, low: nat, high: nat, pivot: T)
    requires Shuffled(t, u, low, high)
    ensures (forall j :: low <= j < high ==> cmp(t[j], pivot) <= 0) ==>
      forall j :: low <= j < high ==> cmp(u[j], pivot) <= 0
    ensures (forall j :: low <= j < high ==> cmp(t[j], pivot) >= 0) ==>
      forall j :: low <= j < high ==> cmp(u[j], pivot) >= 0
  {
    forall j | low <= j < high ensures exists k :: low <= k < high && u[j] == t[k] {
      assert u[j] == u[low..high][j - low];
      assert u[j] in multiset(t[low..high]);
      var k :| 0 <= k < high - low && t[low..high][k] == u[j];
      assert t[low + k] == u[j];
    }
  }

  /** Shuffling two parts of a range shuffles the range. */
  lemma ShuffledParts<T>(t: seq<T>, u: seq<T>, v: seq<T>, low: nat, middle: nat, high: nat)
    requires Shuffled(t, u, low, middle) && Shuffled(u, v, middle, high)
    ensures Shuffled(t, v, low, high)
    ensures v[low..middle] == u[low..middle] && u[middle..high] == t[middle..high]
  {
    assert v[low..middle] == v[..middle][low..] == u[low..middle];
    assert u[middle..high] == u[middle..][..high - middle] == t[middle..high];
    assert t[low..high] == t[low..middle] + t[middle..high];
    assert v[low..high] == v[low..middle] + v[middle..high];
    assert v[..low] == v[..middle][..low] == u[..low];
    assert t[high..] == t[middle..][high - middle..] == u[high..];
  }

  lemma ShuffledTransitive<T>(s: seq<T>, t: seq<T>, v: seq<T>, low: nat, high: nat)
    requires Shuffled(s, t, low, high) && Shuffled(t, v, low, high)
    ensures Shuffled(s, v, low, high)
  {
  }

  /** Sorting both sides of a partition sorts the whole range. */
  lemma Merged<T>(cmp: (T, T) -> int, s: seq<T>, t: seq<T>, u: seq<T>, v: seq<T>, low: nat, middle: nat, high: nat,
                  pivot: T)
    requires Shuffled(s, t, low, high) && low <= middle <= high
    requires Shuffled(t, u, low, middle) && Shuffled(u, v, middle, high)
    requires PreorderOn(cmp, multiset(s)) && pivot in multiset(s)
    requires forall j :: low <= j < middle ==> cmp(t[j], pivot) <= 0
    requires forall j :: middle <= j < high ==> cmp(t[j], pivot) >= 0
    requires Sorted(cmp, u[low..middle]) && Sorted(cmp, v[middle..high])
    ensures Shuffled(s, v, low, high) && Sorted(cmp, v[low..high])
  {
    hide Shuffled, Sorted, PreorderOn;
    ShuffledParts(t, u, v, low, middle, high);
    ShuffledTransitive(s, t, v, low, high);
    ShuffledMultiset(s, v, low, high);
    BoundsKept(cmp, t, u, low, middle, pivot);
    Untouched(t, u, low, middle);
    BoundsKept(cmp, u, v, middle, high, pivot);
    Untouched(u, v, middle, high);
    JoinSorted(cmp, v, low, middle, high, pivot);
  }

  lemma Untouched<T>(t: seq<T>, u: seq<T>, low: nat, high: nat)
    requires Shuffled(t, u, low, high)
    ensures low <= high <= |t| == |u|
    ensures forall j :: 0 <= j < low || high <= j < |t| ==> u[j] == t[j]
  {
    assert forall j :: 0 <= j < low ==> u[j] == u[..low][j] && t[j] == t[..low][j];
    assert forall j :: high <= j < |t| ==> u[j] == u[high..][j - high] && t[j] == t[high..][j - high];
  }

  lemma JoinSorted<T>(cmp: (T, T) -> int, v: seq<T>, low: nat, middle: nat, high: nat, pivot: T)
    requires low <= middle <= high <= |v| && PreorderOn(cmp, multiset(v)) && pivot in multiset(v)
    requires Sorted(cmp, v[low..middle]) && Sorted(cmp, v[middle..high])
    requires forall j :: low <= j < middle ==> cmp(v[j], pivot) <= 0
    requires forall j :: middle <= j < high ==> cmp(v[j], pivot) >= 0
    ensures Sorted(cmp, v[low..high])
  {
    var r := v[low..high];
    var m := middle - low;
    assert r[..m] == v[low..middle] && r[m..] == v[middle..high];
    forall i, j | 0 <= i <= j < |r| ensures cmp(r[i], r[j]) <= 0 {
      if j < m {
        assert r[..m][i] == r[i] && r[..m][j] == r[j];
      } else if m <= i {
        assert r[m..][i - m] == r[i] && r[m..][j - m] == r[j];
      } else {
        assert r[i] == v[low + i] && r[j] == v[low + j];
        assert r[i] in multiset(v) && r[j] in multiset(v);
        assert cmp(r[i], pivot) <= 0 && cmp(r[j], pivot) >= 0;
      }
    }
  }
}
