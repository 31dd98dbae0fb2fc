/**
 * Stable sorting by a total preorder. `Sort` is the reference: insertion sort,
 * which inserts each element in front of every element it is equivalent to.
 * `StableSortUnique` shows that a sorted, stable rearrangement is unique, so
 * `Sort` is exactly what any stable sort (Rust's `sort_by`, `sort_by_key`)
 * returns for the same comparison.
 */
module StableSort {
  import opened Seqs

  /** `le` compares every pair and is transitive, as a comparison-based sort demands. */
  ghost predicate TotalPreorder<T(!new)>(le: (T, T) -> bool)
  {
    && (forall x, y :: le(x, y) || le(y, x))
    && (forall x, y, z :: le(x, y) && le(y, z) ==> le(x, z))
  }

  ghost predicate Sorted<T>(s: seq<T>, le: (T, T) -> bool)
  {
    forall i, j :: 0 <= i < j < |s| ==> le(s[i], s[j])
  }

  /** Holds of the elements that `le` does not separate from `x`. */
  function EquivalentTo<T>(le: (T, T) -> bool, x: T): T -> bool
  {
    y => le(x, y) && le(y, x)
  }

  /** The elements of `s` equivalent to `x`, in their order in `s`. */
  function Class<T>(s: seq<T>, le: (T, T) -> bool, x: T): seq<T>
  {
    Filter(s, EquivalentTo(le, x))
  }

  /** `r` lists every group of equivalent elements in the same order as `s` does. */
  ghost predicate StableWith<T(!new)>(r: seq<T>, s: seq<T>, le: (T, T) -> bool)
  {
    forall x :: Class(r, le, x) == Class(s, le, x)
  }

  /** Puts `x` in front of the first element of `t` that is not strictly below it. */
  function Insert<T>(x: T, t: seq<T>, le: (T, T) -> bool): (r: seq<T>)
    ensures multiset(r) == multiset(t) + multiset{x}
  {
    if t == [] then [x]
    else if le(x, t[0]) then [x] + t
    else
      assert t == [t[0]] + t[1..];
      [t[0]] + Insert(x, t[1..], le)
  }

  /** Insertion sort, inserting from the back so that earlier elements end up first among equals. */
  function Sort<T>(s: seq<T>, le: (T, T) -> bool): (r: seq<T>)
    ensures multiset(r) == multiset(s)
  {
    if s == [] then []
    else
      assert s == [s[0]] + s[1..];
      Insert(s[0], Sort(s[1..], le), le)
  }

  lemma {:induction false} SortedTail<T>(s: seq<T>, le: (T, T) -> bool)
    requires s != [] && Sorted(s, le)
    ensures Sorted(s[1..], le)
  {
  }

  lemma {:induction false} InsertSorted<T(!new)>(x: T, t: seq<T>, le: (T, T) -> bool)
    requires TotalPreorder(le)
    requires Sorted(t, le)
    ensures Sorted(Insert(x, t, le), le)
  {
    if t != [] && !le(x, t[0]) {
      var tail := Insert(x, t[1..], le);
      InsertSorted(x, t[1..], le);
      forall j | 0 <= j < |tail|
        ensures le(t[0], tail[j])
      {
        assert tail[j] in multiset(tail);
        if tail[j] != x {
          assert tail[j] in multiset(t[1..]);
          var k :| 0 <= k < |t[1..]| && t[1..][k] == tail[j];
          assert t[k + 1] == tail[j];
        }
      }
    }
  }

  /** The result of `Sort` is ordered by `le`. */
  lemma {:induction false} SortSorted<T(!new)>(s: seq<T>, le: (T, T) -> bool)
    requires TotalPreorder(le)
    ensures Sorted(Sort(s, le), le)
  {
    if s != [] {
      SortSorted(s[1..], le);
      InsertSorted(s[0], Sort(s[1..], le), le);
    }
  }

  /** Inserting `x` adds it in front of its equivalence class and disturbs no class. */
  lemma {:induction false} InsertClass<T(!new)>(x: T, t: seq<T>, le: (T, T) -> bool, z: T)
    requires TotalPreorder(le)
    requires Sorted(t, le)
    ensures Class(Insert(x, t, le), le, z)
         == if EquivalentTo(le, z)(x) then [x] + Class(t, le, z) else Class(t, le, z)
  {
    var p := EquivalentTo(le, z);
    if t == [] {
    } else if le(x, t[0]) {
      assert ([x] + t)[1..] == t;
    } else {
      SortedTail(t, le);
      InsertClass(x, t[1..], le, z);
      var ins := Insert(x, t[1..], le);
      assert ([t[0]] + ins)[1..] == ins;
      assert Class([t[0]] + ins, le, z) == (if p(t[0]) then [t[0]] else []) + Class(ins, le, z);
      assert Class(t, le, z) == (if p(t[0]) then [t[0]] else []) + Class(t[1..], le, z);
      if p(x) {
        assert !p(t[0]);
      }
    }
  }

  /** `Sort` keeps the elements of every equivalence class in their input order. */
  lemma {:induction false} SortStable<T(!new)>(s: seq<T>, le: (T, T) -> bool)
    requires TotalPreorder(le)
    ensures StableWith(Sort(s, le), s, le)
  {
    if s != [] {
      SortStable(s[1..], le);
      SortSorted(s[1..], le);
      forall z
        ensures Class(Sort(s, le), le, z) == Class(s, le, z)
      {
        InsertClass(s[0], Sort(s[1..], le), le, z);
        assert Class(s, le, z)
            == (if EquivalentTo(le, z)(s[0]) then [s[0]] else []) + Class(s[1..], le, z);
      }
    }
  }

  lemma {:induction false} ClassHead<T(!new)>(s: seq<T>, le: (T, T) -> bool)
    requires TotalPreorder(le)
    requires s != []
    ensures Class(s, le, s[0]) != [] && Class(s, le, s[0])[0] == s[0]
  {
    assert le(s[0], s[0]);
  }

  lemma {:induction false} ClassTail<T(!new)>(a: seq<T>, b: seq<T>, le: (T, T) -> bool)
    requires a != [] && b != [] && a[0] == b[0]
    requires StableWith(a, b, le)
    ensures StableWith(a[1..], b[1..], le)
  {
    forall x
      ensures Class(a[1..], le, x) == Class(b[1..], le, x)
    {
      assert Class(a, le, x) == Class(b, le, x);
      assert a == [a[0]] + a[1..];
      assert b == [b[0]] + b[1..];
      FilterCons(a[0], a[1..], EquivalentTo(le, x));
      FilterCons(b[0], b[1..], EquivalentTo(le, x));
      if EquivalentTo(le, x)(a[0]) {
        assert Class(a, le, x) == [a[0]] + Class(a[1..], le, x);
        assert Class(b, le, x) == [b[0]] + Class(b[1..], le, x);
        assert ([a[0]] + Class(a[1..], le, x))[1..] == Class(a[1..], le, x);
        assert ([b[0]] + Class(b[1..], le, x))[1..] == Class(b[1..], le, x);
      } else {
        assert Class(a, le, x) == Class(a[1..], le, x);
        assert Class(b, le, x) == Class(b[1..], le, x);
      }
    }
  }

  /** In a sorted sequence the first element is below every element. */
  lemma {:induction false} SortedHeadLeast<T(!new)>(s: seq<T>, le: (T, T) -> bool, y: T)
    requires TotalPreorder(le)
    requires Sorted(s, le) && y in s
    ensures le(s[0], y)
  {
    var k :| 0 <= k < |s| && s[k] == y;
    if k == 0 {
      assert le(y, y) || le(y, y);
    }
  }

  /** The head of `a` belongs to the matching class of `b`, hence `b`'s head is below it. */
  lemma {:induction false} HeadBelow<T(!new)>(a: seq<T>, b: seq<T>, le: (T, T) -> bool)
    requires TotalPreorder(le)
    requires a != [] && Sorted(b, le) && StableWith(a, b, le)
    ensures b != [] && le(b[0], a[0])
  {
    ClassHead(a, le);
    var c := Class(b, le, a[0]);
    assert c == Class(a, le, a[0]);
    FilterCount(b, EquivalentTo(le, a[0]), a[0]);
    assert a[0] in c;
    assert a[0] in b;
    SortedHeadLeast(b, le, a[0]);
  }

  /**
   * Two sorted sequences that list every equivalence class identically are
   * equal: sortedness and stability determine the result completely.
   */
  lemma {:induction false} StableSortUnique<T(!new)>(a: seq<T>, b: seq<T>, le: (T, T) -> bool)
    requires TotalPreorder(le)
    requires Sorted(a, le) && Sorted(b, le)
    requires StableWith(a, b, le)
    ensures a == b
    decreases |a|
  {
    if a == [] {
      if b != [] {
        ClassHead(b, le);
        assert false;
      }
    } else {
      HeadBelow(a, b, le);
      HeadBelow(b, a, le);
      ClassHead(a, le);
      ClassHead(b, le);
      assert Class(b, le, a[0]) == [b[0]] + Class(b[1..], le, a[0]);
      assert a[0] == b[0];
      ClassTail(a, b, le);
      SortedTail(a, le);
      SortedTail(b, le);
      StableSortUnique(a[1..], b[1..], le);
      assert a == [a[0]] + a[1..];
      assert b == [b[0]] + b[1..];
    }
  }

  /** Any sorted, stable rearrangement of `s` is the one `Sort` computes. */
  lemma SortCharacterized<T(!new)>(s: seq<T>, r: seq<T>, le: (T, T) -> bool)
    requires TotalPreorder(le)
    requires Sorted(r, le) && StableWith(r, s, le)
    ensures r == Sort(s, le)
  {
    SortSorted(s, le);
    SortStable(s, le);
    StableSortUnique(r, Sort(s, le), le);
  }

  /** When `x` goes in front of a sorted `t`, it also goes in front of any selection from `t`. */
  lemma InsertFilterFront<T(!new)>(x: T, t: seq<T>, le: (T, T) -> bool, p: T -> bool)
    requires TotalPreorder(le)
    requires Sorted(t, le)
    requires t != [] && le(x, t[0])
    ensures Insert(x, Filter(t, p), le) == [x] + Filter(t, p)
  {
    var ft := Filter(t, p);
    if ft != [] {
      FilterCount(t, p, ft[0]);
      SortedHeadLeast(t, le, ft[0]);
      assert le(x, ft[0]);
    }
  }

  lemma InsertPast<T>(x: T, y: T, t: seq<T>, le: (T, T) -> bool)
    requires !le(x, y)
    ensures Insert(x, [y] + t, le) == [y] + Insert(x, t, le)
  {
    assert ([y] + t)[1..] == t;
  }

  lemma {:induction false} InsertFilter<T(!new)>(x: T, t: seq<T>, le: (T, T) -> bool, p: T -> bool)
    requires TotalPreorder(le)
    requires Sorted(t, le)
    ensures Filter(Insert(x, t, le), p) == if p(x) then Insert(x, Filter(t, p), le) else Filter(t, p)
  {
    if t == [] {
    } else if le(x, t[0]) {
      FilterCons(x, t, p);
      InsertFilterFront(x, t, le, p);
    } else {
      SortedTail(t, le);
      InsertFilter(x, t[1..], le, p);
      var ins := Insert(x, t[1..], le);
      var ft := Filter(t[1..], p);
      assert t == [t[0]] + t[1..];
      InsertPast(x, t[0], t[1..], le);
      FilterCons(t[0], ins, p);
      FilterCons(t[0], t[1..], p);
      if p(t[0]) {
        assert Filter(t, p) == [t[0]] + ft;
        assert Filter(Insert(x, t, le), p) == [t[0]] + Filter(ins, p);
        if p(x) {
          InsertPast(x, t[0], ft, le);
        }
      } else {
        assert Filter(t, p) == ft;
        assert Filter(Insert(x, t, le), p) == Filter(ins, p);
      }
    }
  }

  lemma SortCons<T>(x: T, f: seq<T>, le: (T, T) -> bool)
    ensures Sort([x] + f, le) == Insert(x, Sort(f, le), le)
  {
    assert ([x] + f)[1..] == f;
  }

  /** Selecting after sorting gives the same sequence as sorting after selecting. */
  lemma {:induction false} SortFilterCommute<T(!new)>(s: seq<T>, le: (T, T) -> bool, p: T -> bool)
    requires TotalPreorder(le)
    ensures Filter(Sort(s, le), p) == Sort(Filter(s, p), le)
  {
    if s != [] {
      var f := Filter(s[1..], p);
      var sorted := Sort(s[1..], le);
      assert s == [s[0]] + s[1..];
      FilterCons(s[0], s[1..], p);
      SortSorted(s[1..], le);
      if p(s[0]) {
        calc {
          Filter(Sort(s, le), p);
          Filter(Insert(s[0], sorted, le), p);
          { InsertFilter(s[0], sorted, le, p); }
          Insert(s[0], Filter(sorted, p), le);
          { SortFilterCommute(s[1..], le, p); }
          Insert(s[0], Sort(f, le), le);
          { SortCons(s[0], f, le); }
          Sort([s[0]] + f, le);
          Sort(Filter(s, p), le);
        }
      } else {
        calc {
          Filter(Sort(s, le), p);
          Filter(Insert(s[0], sorted, le), p);
          { InsertFilter(s[0], sorted, le, p); }
          Filter(sorted, p);
          { SortFilterCommute(s[1..], le, p); }
          Sort(f, le);
          { assert [] + f == f; }
          Sort(Filter(s, p), le);
        }
      }
    }
  }
}
