/**
 * What qsort may do to an option list (mcoap/mc_options_list.c:34-52). The C standard promises a sorted
 * permutation and nothing about equal numbers; a stable sort keeps those in order.
 */
module OptionOrder {
  import opened Bytes
  import opened OptionCodec

  ghost predicate IsSorting(a: seq<Opt>, b: seq<Opt>) {
    Sorted(b) && multiset(a) == multiset(b)
  }

  // The options that carry one number, in list order.
  function WithNum(opts: seq<Opt>, num: u16): seq<Opt> {
    if opts == [] then []
    else (if opts[0].num == num then [opts[0]] else []) + WithNum(opts[1..], num)
  }

  ghost predicate IsStableSorting(a: seq<Opt>, b: seq<Opt>) {
    Sorted(b) && forall num: u16 :: WithNum(a, num) == WithNum(b, num)
  }

  function Insert(o: Opt, opts: seq<Opt>): seq<Opt> {
    if opts == [] || o.num <= opts[0].num then [o] + opts else [opts[0]] + Insert(o, opts[1..])
  }

  function StableSort(opts: seq<Opt>): seq<Opt> {
    if opts == [] then [] else Insert(opts[0], StableSort(opts[1..]))
  }

  // ---------- The stable sort is one, and the only one ----------

  lemma ConsWithNum(o: Opt, opts: seq<Opt>, num: u16)
    ensures WithNum([o] + opts, num) == (if o.num == num then [o] else []) + WithNum(opts, num)
  {
    assert ([o] + opts)[1..] == opts;
  }

  lemma ConsSorted(prev: u16, o: Opt, opts: seq<Opt>)
    ensures SortedFrom(prev, [o] + opts) <==> prev <= o.num && SortedFrom(o.num, opts)
  {
    assert ([o] + opts)[1..] == opts;
  }

  lemma {:induction false} InsertSorts(o: Opt, opts: seq<Opt>, prev: u16)
    requires SortedFrom(prev, opts) && prev <= o.num
    ensures SortedFrom(prev, Insert(o, opts))
    ensures multiset(Insert(o, opts)) == multiset{o} + multiset(opts)
    decreases |opts|
  {
    if opts == [] || o.num <= opts[0].num {
      ConsSorted(prev, o, opts);
    } else {
      InsertSorts(o, opts[1..], opts[0].num);
      ConsSorted(prev, opts[0], Insert(o, opts[1..]));
      assert opts == [opts[0]] + opts[1..];
    }
  }

  lemma {:induction false} InsertKeepsOrder(o: Opt, opts: seq<Opt>, num: u16)
    ensures WithNum(Insert(o, opts), num) == WithNum([o] + opts, num)
    decreases |opts|
  {
    ConsWithNum(o, opts, num);
    if opts != [] && opts[0].num < o.num {
      InsertKeepsOrder(o, opts[1..], num);
      ConsWithNum(o, opts[1..], num);
      ConsWithNum(opts[0], Insert(o, opts[1..]), num);
    }
  }

  /** The model's stable sort sorts, permutes and keeps equal numbers in order. */
  lemma {:induction false} StableSortSorts(opts: seq<Opt>)
    ensures IsSorting(opts, StableSort(opts)) && IsStableSorting(opts, StableSort(opts))
  {
    if opts != [] {
      var rest := StableSort(opts[1..]);
      StableSortSorts(opts[1..]);
      InsertSorts(opts[0], rest, 0);
      assert opts == [opts[0]] + opts[1..];
      forall num: u16 ensures WithNum(StableSort(opts), num) == WithNum(opts, num) {
        InsertKeepsOrder(opts[0], rest, num);
        ConsWithNum(opts[0], rest, num);
      }
    }
  }

  lemma {:induction false} SortedBound(prev: u16, opts: seq<Opt>, i: nat, j: nat)
    requires SortedFrom(prev, opts) && i <= j < |opts|
    ensures prev <= opts[i].num <= opts[j].num
    decreases |opts|
  {
    if i > 0 {
      SortedBound(opts[0].num, opts[1..], i - 1, j - 1);
    } else if j > 0 {
      SortedBound(opts[0].num, opts[1..], 0, j - 1);
    }
  }

  lemma {:induction false} SortedFromIndices(prev: u16, opts: seq<Opt>)
    requires opts != [] ==> prev <= opts[0].num
    requires forall i :: 0 < i < |opts| ==> opts[i - 1].num <= opts[i].num
    ensures SortedFrom(prev, opts)
    decreases |opts|
  {
    if opts != [] {
      forall i | 0 < i < |opts[1..]| ensures opts[1..][i - 1].num <= opts[1..][i].num {
        assert opts[1..][i] == opts[i + 1];
      }
      SortedFromIndices(opts[0].num, opts[1..]);
    }
  }

  lemma {:induction false} NoneBelow(prev: u16, opts: seq<Opt>, num: u16)
    requires SortedFrom(prev, opts)
    ensures num < prev ==> WithNum(opts, num) == []
    decreases |opts|
  {
    if opts != [] {
      NoneBelow(opts[0].num, opts[1..], num);
    }
  }

  /** Two sorted lists with the same options under every number are the same list. */
  lemma {:induction false} StableSortingUnique(prev: u16, a: seq<Opt>, b: seq<Opt>)
    requires SortedFrom(prev, a) && SortedFrom(prev, b)
    requires forall num: u16 :: WithNum(a, num) == WithNum(b, num)
    ensures a == b
    decreases |a| + |b|
  {
    assert a != [] ==> WithNum(a, a[0].num) != [];
    assert b != [] ==> WithNum(b, b[0].num) != [];
    if a != [] {
      NoneBelow(b[0].num, b, if a[0].num < b[0].num then a[0].num else 0);
      NoneBelow(a[0].num, a, if b[0].num < a[0].num then b[0].num else 0);
      var same := a[0].num;
      assert WithNum(a, same) == [a[0]] + WithNum(a[1..], same);
      assert same == b[0].num;
      assert WithNum(b, same) == [b[0]] + WithNum(b[1..], same);
      forall num: u16 ensures WithNum(a[1..], num) == WithNum(b[1..], num) {
        if num == same {
          assert WithNum(a, num)[1..] == WithNum(b, num)[1..];
        } else {
          assert WithNum(a, num) == WithNum(a[1..], num) && WithNum(b, num) == WithNum(b[1..], num);
        }
      }
      assert a[0] == WithNum(a, same)[0] == WithNum(b, same)[0] == b[0];
      StableSortingUnique(same, a[1..], b[1..]);
      assert a == [a[0]] + a[1..] && b == [b[0]] + b[1..];
    }
  }

  /** A stable sort leaves a sorted list alone. */
  lemma StableSortKeepsSorted(opts: seq<Opt>)
    requires Sorted(opts)
    ensures StableSort(opts) == opts
  {
    StableSortSorts(opts);
    StableSortingUnique(0, StableSort(opts), opts);
  }

  lemma {:induction false} WithNumConcat(a: seq<Opt>, b: seq<Opt>, num: u16)
    ensures WithNum(a + b, num) == WithNum(a, num) + WithNum(b, num)
    decreases |a|
  {
    if a == [] {
      assert a + b == b;
    } else {
      WithNumConcat(a[1..], b, num);
      assert (a + b)[1..] == a[1..] + b;
    }
  }

  /** Merged by a stable sort, the options of the first list precede those of the second with the same number. */
  lemma MergedInOrder(a: seq<Opt>, b: seq<Opt>)
    ensures var merged := StableSort(a + b);
            && Sorted(merged) && multiset(merged) == multiset(a) + multiset(b)
            && forall num: u16 :: WithNum(merged, num) == WithNum(a, num) + WithNum(b, num)
  {
    StableSortSorts(a + b);
    forall num: u16 ensures WithNum(StableSort(a + b), num) == WithNum(a, num) + WithNum(b, num) {
      WithNumConcat(a, b, num);
    }
  }

  // ---------- Values by number ----------

  // The values of the options that carry one number, in list order.
  function ValuesUnder(opts: seq<Opt>, num: u16): seq<seq<byte>> {
    if opts == [] then []
    else (if opts[0].num == num then [opts[0].value] else []) + ValuesUnder(opts[1..], num)
  }

  lemma {:induction false} ValuesConcat(a: seq<Opt>, b: seq<Opt>, num: u16)
    ensures ValuesUnder(a + b, num) == ValuesUnder(a, num) + ValuesUnder(b, num)
    decreases |a|
  {
    if a == [] {
      assert a + b == b;
    } else {
      ValuesConcat(a[1..], b, num);
      assert (a + b)[1..] == a[1..] + b;
      Regroup(if a[0].num == num then [a[0].value] else [], ValuesUnder(a[1..], num), ValuesUnder(b, num));
    }
  }

  lemma ValuesOfOne(o: Opt, num: u16)
    ensures ValuesUnder([o], num) == if o.num == num then [o.value] else []
  {
    assert [o][1..] == [];
  }

  // Taking one option out of a list.
  lemma ValuesWithout(opts: seq<Opt>, j: nat, num: u16)
    requires j < |opts|
    ensures multiset(ValuesUnder(opts, num)) ==
              multiset(ValuesUnder([opts[j]], num)) + multiset(ValuesUnder(opts[..j] + opts[j + 1..], num))
    ensures multiset(opts) == multiset{opts[j]} + multiset(opts[..j] + opts[j + 1..])
  {
    hide ValuesUnder;
    assert opts == opts[..j] + ([opts[j]] + opts[j + 1..]);
    ValuesConcat(opts[..j], [opts[j]] + opts[j + 1..], num);
    ValuesConcat([opts[j]], opts[j + 1..], num);
    ValuesConcat(opts[..j], opts[j + 1..], num);
  }

  lemma PlaceIn(opts: seq<Opt>, o: Opt) returns (j: nat)
    requires o in multiset(opts)
    ensures j < |opts| && opts[j] == o
  {
    j :| 0 <= j < |opts| && opts[j] == o;
  }

  lemma SameRest<T>(one: multiset<T>, a: multiset<T>, b: multiset<T>)
    requires one + a == one + b
    ensures a == b
  {
    forall x ensures a[x] == b[x] {
      assert (one + a)[x] == (one + b)[x];
    }
  }

  /** However a list is rearranged, under each number there are the same values. */
  lemma {:induction false} ValuesPermuted(a: seq<Opt>, b: seq<Opt>, num: u16)
    requires multiset(a) == multiset(b)
    ensures multiset(ValuesUnder(a, num)) == multiset(ValuesUnder(b, num))
    decreases |a|
  {
    hide ValuesUnder;
    if a == [] {
      assert |multiset(b)| == |b|;
      assert b == [];
    } else {
      var j := PlaceIn(b, a[0]);
      var rest, others := a[..0] + a[1..], b[..j] + b[j + 1..];
      ValuesWithout(a, 0, num);
      ValuesWithout(b, j, num);
      SameRest(multiset{a[0]}, multiset(rest), multiset(others));
      ValuesPermuted(rest, others, num);
    }
  }

  lemma {:induction false} ValuesOfWithNum(opts: seq<Opt>, num: u16)
    ensures ValuesUnder(WithNum(opts, num), num) == ValuesUnder(opts, num)
  {
    if opts != [] {
      ValuesOfWithNum(opts[1..], num);
      var w := WithNum(opts, num);
      if opts[0].num == num {
        assert w == [opts[0]] + WithNum(opts[1..], num) && w[1..] == WithNum(opts[1..], num);
        assert ValuesUnder(w, num) == [w[0].value] + ValuesUnder(w[1..], num);
      } else {
        assert w == WithNum(opts[1..], num);
      }
    }
  }

  /** Where the sort is stable they are in the same order, too. */
  lemma ValuesKept(a: seq<Opt>, b: seq<Opt>, num: u16)
    requires IsStableSorting(a, b)
    ensures ValuesUnder(a, num) == ValuesUnder(b, num)
  {
    ValuesOfWithNum(a, num);
    ValuesOfWithNum(b, num);
    hide ValuesUnder;
  }

  // ---------- What an unstable sort may do ----------

  ghost predicate NumbersDetermineOptions(opts: seq<Opt>) {
    forall o, p :: o in opts && p in opts && o.num == p.num ==> o == p
  }

  lemma HeadsAgree(prev: u16, a: seq<Opt>, b: seq<Opt>)
    requires SortedFrom(prev, a) && SortedFrom(prev, b) && multiset(a) == multiset(b)
    requires NumbersDetermineOptions(a) && a != []
    ensures b != [] && a[0] == b[0]
  {
    assert |multiset(a)| == |a| && |multiset(b)| == |b|;
    assert a[0] in multiset(b) && b[0] in multiset(a);
    var i :| 0 <= i < |a| && a[i] == b[0];
    var j :| 0 <= j < |b| && b[j] == a[0];
    SortedBound(prev, a, 0, i);
    SortedBound(prev, b, 0, j);
  }

  lemma TailMultiset(a: seq<Opt>)
    requires a != []
    ensures multiset(a[1..]) == multiset(a) - multiset{a[0]}
  {
    assert a == [a[0]] + a[1..];
  }

  lemma {:induction false} OnlySorting(prev: u16, a: seq<Opt>, b: seq<Opt>)
    requires SortedFrom(prev, a) && SortedFrom(prev, b) && multiset(a) == multiset(b)
    requires NumbersDetermineOptions(a)
    ensures a == b
    decreases |a|
  {
    if a == [] {
      assert |multiset(b)| == |b|;
    } else {
      HeadsAgree(prev, a, b);
      TailMultiset(a);
      TailMultiset(b);
      assert forall o :: o in a[1..] ==> o in a;
      OnlySorting(a[0].num, a[1..], b[1..]);
      assert a == [a[0]] + a[1..] && b == [b[0]] + b[1..];
    }
  }

  // Two different options with one number, exchanged: another sorting of the same list.
  lemma ExchangeIsSorting(opts: seq<Opt>, i: nat, j: nat)
    requires Sorted(opts) && i < j < |opts| && opts[i].num == opts[j].num
    ensures IsSorting(opts, opts[i := opts[j]][j := opts[i]])
  {
    var b := opts[i := opts[j]][j := opts[i]];
    forall k | 0 < k < |b| ensures b[k - 1].num <= b[k].num {
      SortedBound(0, opts, k - 1, k);
    }
    SortedFromIndices(0, b);
  }

  /**
   * A list already sorted survives every qsort exactly when no two different options share a number: two
   * path segments of a URI, for one, may come out exchanged unless the library's sort is stable.
   */
  lemma EverySortKeepsIff(opts: seq<Opt>)
    requires Sorted(opts)
    ensures (forall b :: IsSorting(opts, b) ==> b == opts) <==> NumbersDetermineOptions(opts)
  {
    if NumbersDetermineOptions(opts) {
      forall b | IsSorting(opts, b) ensures b == opts {
        OnlySorting(0, opts, b);
      }
    } else {
      var o, p :| o in opts && p in opts && o.num == p.num && o != p;
      var i :| 0 <= i < |opts| && opts[i] == o;
      var j :| 0 <= j < |opts| && opts[j] == p;
      var lo, hi := if i < j then i else j, if i < j then j else i;
      ExchangeIsSorting(opts, lo, hi);
      var b := opts[lo := opts[hi]][hi := opts[lo]];
      assert IsSorting(opts, b) && b[lo] != opts[lo];
    }
  }
}
