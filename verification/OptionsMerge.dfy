/** Copying and merging option lists (mcoap/mc_options_list.c:72-124), whose values are arrays on the heap. */
module OptionsMerge {
  import opened Bytes
  import opened OptionCodec
  import opened OptionOrder

  // An option as it lies in a list: a number and a pointer to its value.
  datatype OptRef = OptRef(num: u16, bytes: array?<byte>)

  function ValueOf(r: OptRef): Opt
    reads r.bytes
  {
    Opt(r.num, if r.bytes == null then [] else r.bytes[..])
  }

  // What the list says.
  function View(refs: seq<OptRef>): (v: seq<Opt>)
    reads set r | r in refs :: r.bytes
    ensures |v| == |refs| && forall i :: 0 <= i < |refs| ==> v[i] == ValueOf(refs[i])
  {
    if refs == [] then [] else [ValueOf(refs[0])] + View(refs[1..])
  }

  ghost function ViewOf(list: array?<OptRef>): seq<Opt>
    reads list, if list == null then {} else set r | r in list[..] :: r.bytes
  {
    if list == null then [] else View(list[..])
  }

  function Arrays(refs: seq<OptRef>): set<array?<byte>> {
    set r | r in refs :: r.bytes
  }

  // Every value has an array of its own.
  ghost predicate Unshared(refs: seq<OptRef>) {
    && (forall i :: 0 <= i < |refs| ==> refs[i].bytes != null)
    && (forall i, j :: 0 <= i < j < |refs| ==> refs[i].bytes != refs[j].bytes)
  }

  // ---------- qsort ----------

  function InsertRef(r: OptRef, refs: seq<OptRef>): seq<OptRef> {
    if refs == [] || r.num <= refs[0].num then [r] + refs else [refs[0]] + InsertRef(r, refs[1..])
  }

  function SortRefs(refs: seq<OptRef>): seq<OptRef> {
    if refs == [] then [] else InsertRef(refs[0], SortRefs(refs[1..]))
  }

  lemma ViewCons(r: OptRef, refs: seq<OptRef>)
    ensures View([r] + refs) == [ValueOf(r)] + View(refs)
  {
    assert ([r] + refs)[1..] == refs;
  }

  lemma {:induction false} InsertRefKeeps(r: OptRef, refs: seq<OptRef>)
    ensures multiset(InsertRef(r, refs)) == multiset{r} + multiset(refs)
  {
    if refs != [] && refs[0].num < r.num {
      InsertRefKeeps(r, refs[1..]);
      assert refs == [refs[0]] + refs[1..];
    }
  }

  lemma {:induction false} InsertRefView(r: OptRef, refs: seq<OptRef>)
    ensures View(InsertRef(r, refs)) == Insert(ValueOf(r), View(refs))
  {
    hide View;
    if refs == [] {
      assert [r] + refs == [r];
      ViewCons(r, []);
      NothingSeen();
    } else {
      assert refs == [refs[0]] + refs[1..];
      ViewCons(refs[0], refs[1..]);
      ViewCons(r, refs);
      hide ValueOf;
      if refs[0].num < r.num {
        InsertRefView(r, refs[1..]);
        ViewCons(refs[0], InsertRef(r, refs[1..]));
        assert View(refs)[1..] == View(refs[1..]);
      }
    }
  }

  lemma NothingSeen()
    ensures View([]) == []
  {
  }

  // Only numbers are compared, so sorting the list sorts what it says.
  lemma {:induction false} SortRefsView(refs: seq<OptRef>)
    ensures multiset(SortRefs(refs)) == multiset(refs)
    ensures View(SortRefs(refs)) == StableSort(View(refs))
  {
    if refs != [] {
      SortRefsView(refs[1..]);
      InsertRefKeeps(refs[0], SortRefs(refs[1..]));
      InsertRefView(refs[0], SortRefs(refs[1..]));
      assert refs == [refs[0]] + refs[1..];
      assert View(refs)[1..] == View(refs[1..]);
    }
  }

  lemma PermutedUnshared(a: seq<OptRef>, b: seq<OptRef>)
    requires multiset(a) == multiset(b) && Unshared(a)
    ensures Unshared(b) && Arrays(b) == Arrays(a)
  {
    SameElements(a, b);
    forall i | 0 <= i < |b| ensures b[i].bytes != null {
      assert b[i] in a;
    }
    forall i, j | 0 <= i < j < |b| ensures b[i].bytes != b[j].bytes {
      assert b[i] in a && b[j] in a;
      if b[i].bytes == b[j].bytes {
        var k :| 0 <= k < |a| && a[k] == b[i];
        var l :| 0 <= l < |a| && a[l] == b[j];
        assert k == l && b[i] == b[j];
        Twice(b, i, j);
        Once(a, k);
      }
    }
  }

  lemma Twice(s: seq<OptRef>, i: nat, j: nat)
    requires i < j < |s| && s[i] == s[j]
    ensures multiset(s)[s[i]] >= 2
  {
    assert s == s[..j] + s[j..];
    assert s[i] in s[..j] && s[j] in s[j..];
  }

  lemma Once(s: seq<OptRef>, k: nat)
    requires k < |s| && Unshared(s)
    ensures multiset(s)[s[k]] == 1
  {
    assert s == s[..k] + [s[k]] + s[k + 1..];
    Absent(s[..k], s[k]);
    Absent(s[k + 1..], s[k]);
    assert multiset(s) == multiset(s[..k]) + multiset{s[k]} + multiset(s[k + 1..]);
  }

  lemma Absent(s: seq<OptRef>, r: OptRef)
    requires forall i :: 0 <= i < |s| ==> s[i].bytes != r.bytes
    ensures multiset(s)[r] == 0
  {
    assert r !in s;
  }

  lemma SameElements(a: seq<OptRef>, b: seq<OptRef>)
    requires multiset(a) == multiset(b)
    ensures forall r :: r in a <==> r in b
  {
    forall r ensures r in a <==> r in b {
      assert r in a <==> r in multiset(a);
      assert r in b <==> r in multiset(b);
    }
  }

  // qsort: some sorting of the list; the entries are moved, not copied.
  method RefsSort(items: array<OptRef>)
    requires Unshared(items[..])
    modifies items
    ensures IsSorting(old(View(items[..])), View(items[..]))
    ensures Unshared(items[..]) && Arrays(items[..]) == old(Arrays(items[..]))
  {
    hide IsSorting, View, Unshared, Arrays;
    SortedRefs(items[..]);
    var sorted := SortRefs(items[..]);
    forall i | 0 <= i < items.Length {
      items[i] := sorted[i];
    }
    assert items[..] == sorted;
  }

  lemma SortedRefs(refs: seq<OptRef>)
    requires Unshared(refs)
    ensures var sorted := SortRefs(refs);
            |sorted| == |refs| && IsSorting(View(refs), View(sorted)) && Unshared(sorted) && Arrays(sorted) == Arrays(refs)
  {
    hide Unshared, Arrays, View, StableSort;
    var sorted := SortRefs(refs);
    SortRefsView(refs);
    StableSortSorts(View(refs));
    PermutedUnshared(refs, sorted);
    assert |sorted| == |multiset(sorted)| == |multiset(refs)| == |refs|;
  }

  // ---------- Copy and merge ----------

  // The first n slots hold the options v, each in an array of its own.
  ghost predicate Holds(options: array<OptRef>, n: nat, v: seq<Opt>)
    reads options, set k | 0 <= k < n && k < options.Length :: options[k].bytes
  {
    n <= options.Length && n <= |v| && Unshared(options[..n]) && forall k :: 0 <= k < n ==> ValueOf(options[k]) == v[k]
  }

  lemma NothingHeld(options: array<OptRef>, v: seq<Opt>)
    ensures Holds(options, 0, v)
  {
  }

  // mc_option_copy_to: the slot gets the number and an array of its own. Here it is the first slot not yet filled.
  method CopyTo(options: array<OptRef>, to: nat, from: OptRef, ghost v: seq<Opt>)
    requires to < options.Length && to < |v| && Holds(options, to, v) && v[to] == ValueOf(from)
    modifies options
    ensures Holds(options, to + 1, v) && fresh(options[to].bytes)
    ensures forall i :: 0 <= i < options.Length && i != to ==> options[i] == old(options[i])
  {
    var bytes;
    if from.bytes == null {
      bytes := new byte[0];
    } else {
      bytes := new byte[from.bytes.Length](i requires 0 <= i < from.bytes.Length reads from.bytes => from.bytes[i]);
    }
    options[to] := OptRef(from.num, bytes);
  }

  // The copying loop: list goes into the slots from start on.
  method CopyList(options: array<OptRef>, start: nat, list: array<OptRef>, ghost v: seq<Opt>)
    requires start + list.Length <= options.Length && list != options && |v| >= start + list.Length
    requires Holds(options, start, v) && forall k :: 0 <= k < list.Length ==> ValueOf(list[k]) == v[start + k]
    modifies options
    ensures Holds(options, start + list.Length, v)
    ensures forall k :: 0 <= k < start ==> options[k] == old(options[k])
    ensures forall k :: start <= k < start + list.Length ==> fresh(options[k].bytes)
  {
    hide Holds;
    var i := 0;
    while i < list.Length
      invariant i <= list.Length && Holds(options, start + i, v)
      invariant forall k :: 0 <= k < start ==> options[k] == old(options[k])
      invariant forall k :: start <= k < start + i ==> fresh(options[k].bytes)
    {
      CopyTo(options, start + i, list[i], v);
      i := i + 1;
    }
  }

  // What is left to do once a new list holds the options v.
  method Finish(r: array<OptRef>, ghost v: seq<Opt>)
    requires |v| == r.Length && Holds(r, r.Length, v)
    modifies r
    ensures IsSorting(v, View(r[..])) && Unshared(r[..]) && Arrays(r[..]) == old(Arrays(r[..]))
  {
    assert r[..r.Length] == r[..];
    ViewIs(r[..], v);
    RefsSort(r);
  }

  lemma ViewIs(refs: seq<OptRef>, v: seq<Opt>)
    requires |refs| == |v| && forall i :: 0 <= i < |refs| ==> ValueOf(refs[i]) == v[i]
    ensures View(refs) == v
  {
  }

  method Copy(list: array?<OptRef>) returns (r: array?<OptRef>)
    ensures r == null <==> list == null
    ensures r != null ==> fresh(r) && IsSorting(old(ViewOf(list)), View(r[..])) && Unshared(r[..])
    ensures r != null ==> fresh(Arrays(r[..]))
  {
    hide IsSorting, Unshared, Arrays, View;
    if list == null {
      return null;
    }
    ghost var v := View(list[..]);
    assert forall k :: 0 <= k < list.Length ==> ValueOf(list[k]) == v[k];
    r := CopyOne(list, v);
  }

  method CopyOne(list: array<OptRef>, ghost v: seq<Opt>) returns (r: array<OptRef>)
    requires |v| == list.Length && forall k :: 0 <= k < list.Length ==> ValueOf(list[k]) == v[k]
    ensures fresh(r) && IsSorting(v, View(r[..])) && Unshared(r[..]) && fresh(Arrays(r[..]))
  {
    hide IsSorting, View, Holds, Unshared;
    r := new OptRef[list.Length](_ => OptRef(0, null));
    NothingHeld(r, v);
    CopyList(r, 0, list, v);
    assert forall k :: 0 <= k < r.Length ==> fresh(r[k].bytes);
    assert fresh(Arrays(r[..]));
    Finish(r, v);
  }

  /**
   * A new sorted list of the options of both, each with an array of its own: neither list is changed, nor
   * does the new one share anything with them.
   */
  method Merge(list1: array?<OptRef>, list2: array?<OptRef>) returns (r: array?<OptRef>)
    ensures r == null <==> list1 == null && list2 == null
    ensures r != null ==> fresh(r) && IsSorting(old(ViewOf(list1) + ViewOf(list2)), View(r[..])) && Unshared(r[..])
    ensures r != null ==> fresh(Arrays(r[..]))
  {
    hide IsSorting, Unshared, Arrays, View;
    if list1 == null {
      r := Copy(list2);
      assert old(ViewOf(list1) + ViewOf(list2)) == old(ViewOf(list2));
      return;
    }
    if list2 == null {
      r := Copy(list1);
      assert old(ViewOf(list1) + ViewOf(list2)) == old(ViewOf(list1));
      return;
    }
    ghost var v1, v2 := View(list1[..]), View(list2[..]);
    assert forall k :: 0 <= k < list1.Length ==> ValueOf(list1[k]) == (v1 + v2)[k];
    assert forall k :: 0 <= k < list2.Length ==> ValueOf(list2[k]) == (v1 + v2)[list1.Length + k];
    r := MergeTwo(list1, list2, v1 + v2);
  }

  // The general case: first all of list1, then all of list2, then the sort.
  method MergeTwo(list1: array<OptRef>, list2: array<OptRef>, ghost v: seq<Opt>) returns (r: array<OptRef>)
    requires |v| == list1.Length + list2.Length
    requires forall k :: 0 <= k < list1.Length ==> ValueOf(list1[k]) == v[k]
    requires forall k :: 0 <= k < list2.Length ==> ValueOf(list2[k]) == v[list1.Length + k]
    ensures fresh(r) && IsSorting(v, View(r[..])) && Unshared(r[..]) && fresh(Arrays(r[..]))
  {
    hide IsSorting, View, Holds, Unshared;
    var n := list1.Length;
    r := new OptRef[n + list2.Length](_ => OptRef(0, null));
    NothingHeld(r, v);
    assert forall k :: 0 <= k < list1.Length ==> ValueOf(list1[k]) == v[0 + k];
    assert forall k :: 0 <= k < list2.Length ==> ValueOf(list2[k]) == v[n + k];
    CopyList(r, 0, list1, v);
    CopyList(r, n, list2, v);
    hide ValueOf;
    assert forall k :: 0 <= k < r.Length ==> fresh(r[k].bytes);
    assert fresh(Arrays(r[..]));
    Finish(r, v);
  }

  // A list in memory that says what list says.
  method Store(list: seq<Opt>) returns (r: array<OptRef>)
    ensures fresh(r) && fresh(Arrays(r[..])) && View(r[..]) == list
  {
    hide View;
    r := new OptRef[|list|](_ => OptRef(0, null));
    var i := 0;
    while i < |list|
      invariant 0 <= i <= |list| == r.Length
      invariant forall k :: 0 <= k < i ==> fresh(r[k].bytes) && ValueOf(r[k]) == list[k]
    {
      var value := list[i].value;
      var bytes := new byte[|value|](j requires 0 <= j < |value| => value[j]);
      assert bytes[..] == value;
      r[i] := OptRef(list[i].num, bytes);
      i := i + 1;
    }
    ViewIs(r[..], list);
  }
}
