/** The font sizes of a list of categories: the more often a category occurs, the greater it is shown. */
module FontSizeLists {
  import opened Zids

  const FONT_SIZES: nat := 6

  function Sum(s: seq<nat>): (n: nat) {
    if s == [] then 0 else s[0] + Sum(s[1..])
  }

  /** What is still to come, shared out among the sizes that are left. */
  function CalcBudget(total: nat, size: nat): (b: nat)
    requires size < FONT_SIZES
  {
    (2 * total + (FONT_SIZES - size)) / (2 * (FONT_SIZES - size))
  }

  /** The budget and the size for what comes next, after a budget has been spent down to `budget`. */
  function Spent(total: int, budget: int, size: nat): (r: (int, nat)) {
    if budget >= 1 then (budget, size)
    else if size + 1 >= FONT_SIZES || total < 0 then (0, FONT_SIZES)
    else (CalcBudget(total, size + 1), size + 1)
  }

  /**
   The sizes of counts that occur `occurs[0]`, `occurs[1]`, ... times. There are still `total`
   occurrences to come, and `budget` of them are for the current size.
   */
  function Sizes(occurs: seq<nat>, total: int, budget: int, size: nat): (r: seq<nat>)
    ensures |r| == |occurs|
    decreases |occurs|, size
  {
    if occurs == [] then [] else
    var next := Spent(total - occurs[0], budget - occurs[0], size);
    [size] + Sizes(occurs[1..], total - occurs[0], next.0, next.1)
  }

  /** The shares are as near to what there is as whole numbers can be; of two that are equally near, the greater. */
  lemma BudgetIsShare(total: nat, size: nat)
    requires size < FONT_SIZES
    ensures var left, share := FONT_SIZES - size, CalcBudget(total, size);
            2 * (share * left - total) <= left && 2 * (total - share * left) < left
  {
    var left, share := FONT_SIZES - size, CalcBudget(total, size);
    assert 2 * total + left == share * (2 * left) + (2 * total + left) % (2 * left);
  }

  /** Every occurrence counted is still to come, and at the last size all of them are in the budget. */
  ghost predicate InBudget(occurs: seq<nat>, total: int, budget: int, size: nat) {
    && (forall i :: 0 <= i < |occurs| ==> occurs[i] > 0)
    && total == Sum(occurs) && (size == FONT_SIZES - 1 ==> budget == total)
    && (occurs != [] ==> size < FONT_SIZES)
  }

  lemma InBudgetNext(occurs: seq<nat>, total: int, budget: int, size: nat)
    requires InBudget(occurs, total, budget, size) && occurs != []
    ensures var next := Spent(total - occurs[0], budget - occurs[0], size);
            total - occurs[0] >= 0 && InBudget(occurs[1..], total - occurs[0], next.0, next.1)
  {
    if occurs[1..] != [] {
      assert occurs[1..][0] == occurs[1] > 0;
    }
  }

  /** From each to the next the size stays or grows by one, and it is below the last one. */
  ghost predicate Growing(r: seq<nat>, size: nat) {
    && (r != [] ==> r[0] == size)
    && (forall i :: 0 <= i < |r| ==> size <= r[i] < FONT_SIZES)
    && (forall i :: 0 < i < |r| ==> r[i - 1] <= r[i] <= r[i - 1] + 1)
  }

  lemma GrowingCons(size: nat, rest: seq<nat>, next: nat)
    requires Growing(rest, next) && size < FONT_SIZES && (rest != [] ==> size <= next <= size + 1)
    ensures Growing([size] + rest, size)
  {}

  /** No size beyond the last one is ever given, although the size may be set beyond it. */
  lemma {:induction false} SizesInRange(occurs: seq<nat>, total: int, budget: int, size: nat)
    requires InBudget(occurs, total, budget, size)
    ensures Growing(Sizes(occurs, total, budget, size), size)
    decreases |occurs|
  {
    if occurs != [] {
      InBudgetNext(occurs, total, budget, size);
      var next := Spent(total - occurs[0], budget - occurs[0], size);
      SizesInRange(occurs[1..], total - occurs[0], next.0, next.1);
      GrowingCons(size, Sizes(occurs[1..], total - occurs[0], next.0, next.1), next.1);
    }
  }

  lemma {:induction false} GrowingOrder(r: seq<nat>, size: nat, i: nat, j: nat)
    requires Growing(r, size) && i <= j < |r|
    ensures r[i] <= r[j]
    decreases j - i
  {
    if i < j { GrowingOrder(r, size, i, j - 1); }
  }

  /** A count has the same size as the first one iff those before it do not use up the budget of this size. */
  lemma {:induction false} SameSizeIff(occurs: seq<nat>, total: int, budget: int, size: nat, i: nat)
    requires InBudget(occurs, total, budget, size) && i < |occurs|
    ensures Sizes(occurs, total, budget, size)[i] == size <==> i == 0 || Sum(occurs[..i]) < budget
    decreases |occurs|
  {
    if i > 0 {
      var next := Spent(total - occurs[0], budget - occurs[0], size);
      var rest := Sizes(occurs[1..], total - occurs[0], next.0, next.1);
      InBudgetNext(occurs, total, budget, size);
      SizesInRange(occurs[1..], total - occurs[0], next.0, next.1);
      assert occurs[..i][0] == occurs[0] && occurs[..i][1..] == occurs[1..][..i - 1];
      assert Sizes(occurs, total, budget, size)[i] == rest[i - 1];
      if next.1 == size {
        SameSizeIff(occurs[1..], total - occurs[0], next.0, size, i - 1);
      } else {
        GrowingOrder(rest, next.1, 0, i - 1);
      }
    }
  }

  // ---------- The sizes of all counts ----------

  function Occurs(counts: seq<nat>, c: nat): (n: nat) {
    multiset(counts)[c]
  }

  function CountSet(counts: seq<nat>): (s: set<nat>) {
    set c | c in counts
  }

  function Distinct(counts: seq<nat>): (r: seq<nat>) {
    Sorted(CountSet(counts))
  }

  function OccursOf(counts: seq<nat>, list: seq<nat>): (r: seq<nat>)
    ensures |r| == |list| && forall i :: 0 <= i < |r| ==> r[i] == Occurs(counts, list[i])
  {
    if list == [] then [] else [Occurs(counts, list[0])] + OccursOf(counts, list[1..])
  }

  lemma {:induction false} OccursMore(counts: seq<nat>, c: nat, list: seq<nat>)
    requires NoDup(list)
    ensures Sum(OccursOf(counts + [c], list)) == Sum(OccursOf(counts, list)) + if c in list then 1 else 0
  {
    if list != [] {
      assert multiset(counts + [c]) == multiset(counts) + multiset{c};
      assert c in list <==> c == list[0] || c in list[1..];
      assert list[0] !in list[1..];
      OccursMore(counts, c, list[1..]);
    }
  }

  lemma {:induction false} NoneOccurs(list: seq<nat>)
    ensures Sum(OccursOf([], list)) == 0
  {
    if list != [] { NoneOccurs(list[1..]); }
  }

  /** Every occurrence is counted once. */
  lemma {:induction false} OccursSum(counts: seq<nat>, list: seq<nat>)
    requires NoDup(list) && forall c :: c in counts ==> c in list
    ensures Sum(OccursOf(counts, list)) == |counts|
    decreases |counts|
  {
    if counts == [] {
      NoneOccurs(list);
    } else {
      var front, last := counts[..|counts| - 1], counts[|counts| - 1];
      assert counts == front + [last];
      OccursSum(front, list);
      OccursMore(front, last, list);
    }
  }

  /** The sizes of the distinct counts in ascending order; a few counts are centred. */
  function SizesOf(counts: seq<nat>): (r: seq<nat>)
    ensures |r| == |Distinct(counts)|
  {
    var list := Distinct(counts);
    if |list| <= FONT_SIZES then seq(|list|, i requires 0 <= i < |list| => (FONT_SIZES - |list|) / 2 + i)
    else Sizes(OccursOf(counts, list), |counts|, CalcBudget(|counts|, 0), 0)
  }

  /**
   Every count gets a size that exists; a greater count never gets a smaller one, and, if there are few,
   a greater one.
   */
  lemma SizesOrdered(counts: seq<nat>, i: nat, j: nat)
    requires i <= j < |Distinct(counts)|
    ensures SizesOf(counts)[i] <= SizesOf(counts)[j] < FONT_SIZES
    ensures i < j && |Distinct(counts)| <= FONT_SIZES ==> SizesOf(counts)[i] < SizesOf(counts)[j]
  {
    var list := Distinct(counts);
    if |list| > FONT_SIZES {
      ManyInBudget(counts);
      SizesInRange(OccursOf(counts, list), |counts|, CalcBudget(|counts|, 0), 0);
      GrowingOrder(SizesOf(counts), 0, i, j);
    }
  }

  /** A few counts have sizes next to each other, in the middle: above is as much room as below, or one more. */
  lemma FewCentred(counts: seq<nat>)
    requires 0 < |Distinct(counts)| <= FONT_SIZES
    ensures var sizes := SizesOf(counts);
      && (forall i :: 0 < i < |sizes| ==> sizes[i] == sizes[i - 1] + 1)
      && FONT_SIZES - 1 - sizes[|sizes| - 1] - sizes[0] in {0, 1}
  {
    assert |SizesOf(counts)| == |Distinct(counts)|;
  }

  lemma ManyInBudget(counts: seq<nat>)
    ensures InBudget(OccursOf(counts, Distinct(counts)), |counts|, CalcBudget(|counts|, 0), 0)
  {
    var list := Distinct(counts);
    SortedAscending(CountSet(counts));
    OccursSum(counts, list);
    forall i | 0 <= i < |list| ensures Occurs(counts, list[i]) > 0 {
      assert list[i] in list;
    }
  }

  /** The first `n` counts with their sizes. */
  function Assigned(list: seq<nat>, sizes: seq<nat>, n: nat): (r: map<nat, nat>)
    requires n <= |list| && n <= |sizes|
    decreases n
  {
    if n == 0 then map[] else Assigned(list, sizes, n - 1)[list[n - 1] := sizes[n - 1]]
  }

  lemma {:induction false} AssignedAt(list: seq<nat>, sizes: seq<nat>, n: nat)
    requires n <= |list| && n <= |sizes| && NoDup(list)
    ensures forall c :: c in Assigned(list, sizes, n) <==> c in list[..n]
    ensures forall i :: 0 <= i < n ==>
              list[i] in Assigned(list, sizes, n) && Assigned(list, sizes, n)[list[i]] == sizes[i]
    decreases n
  {
    if n > 0 {
      AssignedAt(list, sizes, n - 1);
      assert list[..n] == list[..n - 1] + [list[n - 1]];
    }
  }

  function FontSizes(counts: seq<nat>): (r: map<nat, nat>) {
    Assigned(Distinct(counts), SizesOf(counts), |Distinct(counts)|)
  }

  lemma DistinctOnce(counts: seq<nat>)
    ensures NoDup(Distinct(counts)) && forall c :: c in counts <==> c in Distinct(counts)
  {
    SortedAscending(CountSet(counts));
  }

  /** Just the counts that occur have a size. */
  lemma FontSizesKeys(counts: seq<nat>)
    ensures FontSizes(counts).Keys == CountSet(counts)
    ensures forall i :: 0 <= i < |Distinct(counts)| ==>
                          Distinct(counts)[i] in FontSizes(counts)
                              && FontSizes(counts)[Distinct(counts)[i]] == SizesOf(counts)[i]
  {
    var list, sizes := Distinct(counts), SizesOf(counts);
    DistinctOnce(counts);
    AssignedAt(list, sizes, |list|);
    assert list[..|list|] == list;
  }

  /** The order of the sizes, all of which exist, is the order of the counts. */
  lemma FontSizesOrdered(counts: seq<nat>, c: nat, d: nat)
    requires c in counts && d in counts && c <= d
    ensures c in FontSizes(counts) && d in FontSizes(counts)
    ensures FontSizes(counts)[c] <= FontSizes(counts)[d] < FONT_SIZES
    ensures c < d && |Distinct(counts)| <= FONT_SIZES ==> FontSizes(counts)[c] < FontSizes(counts)[d]
  {
    var i, j := FontSizeAt(counts, c), FontSizeAt(counts, d);
    DistinctOnce(counts);
    SortedAscending(CountSet(counts));
    SizesOrdered(counts, i, j);
  }

  ghost function FontSizeAt(counts: seq<nat>, c: nat): (i: nat)
    requires c in counts
    ensures i < |Distinct(counts)| && Distinct(counts)[i] == c
    ensures c in FontSizes(counts) && FontSizes(counts)[c] == SizesOf(counts)[i]
  {
    FontSizesKeys(counts);
    DistinctOnce(counts);
    assert c in Distinct(counts);
    var i :| 0 <= i < |Distinct(counts)| && Distinct(counts)[i] == c;
    i
  }

  method CalcFontSizes(counts: seq<nat>) returns (result: map<nat, nat>)
    ensures result == FontSizes(counts)
  {
    var countMap := CountAll(counts);
    var countList := Sorted(countMap.Keys);
    assert countList == Distinct(counts);
    if |countList| <= FONT_SIZES {
      result := Centre(countList, SizesOf(counts));
    } else {
      result := SpendBudget(counts, countMap, countList);
    }
  }

  method Centre(countList: seq<nat>, ghost sizes: seq<nat>) returns (result: map<nat, nat>)
    requires |countList| == |sizes| <= FONT_SIZES
    requires forall i :: 0 <= i < |sizes| ==> sizes[i] == (FONT_SIZES - |countList|) / 2 + i
    ensures result == Assigned(countList, sizes, |countList|)
  {
    result := map[];
    var curSize := (FONT_SIZES - |countList|) / 2;
    for i := 0 to |countList|
      invariant curSize == (FONT_SIZES - |countList|) / 2 + i
      invariant result == Assigned(countList, sizes, i)
    {
      result := result[countList[i] := curSize];
      curSize := curSize + 1;
    }
  }

  method CountAll(counts: seq<nat>) returns (countMap: map<nat, nat>)
    ensures countMap.Keys == CountSet(counts)
    ensures forall c :: c in countMap ==> countMap[c] == Occurs(counts, c)
  {
    countMap := map[];
    for i := 0 to |counts|
      invariant countMap.Keys == CountSet(counts[..i])
      invariant forall c :: c in countMap ==> countMap[c] == Occurs(counts[..i], c)
    {
      var c := counts[i];
      assert counts[..i + 1] == counts[..i] + [c];
      assert c !in countMap ==> c !in counts[..i];
      countMap := countMap[c := (if c in countMap then countMap[c] else 0) + 1];
    }
    assert counts[..|counts|] == counts;
  }

  /** The number of occurrences of a count is subtracted from the budget of the current size. */
  method SpendBudget(counts: seq<nat>, countMap: map<nat, nat>, countList: seq<nat>) returns (result: map<nat, nat>)
    requires countList == Distinct(counts) && countMap.Keys == CountSet(counts) && |countList| > FONT_SIZES
    requires forall c :: c in countMap ==> countMap[c] == Occurs(counts, c)
    ensures result == FontSizes(counts)
  {
    ghost var occurs, sizes := OccursOf(counts, countList), SizesOf(counts);
    result := map[];
    var total: int, curSize: nat := |counts|, 0;
    var budget: int := CalcBudget(total, 0);
    ManyInBudget(counts);
    assert occurs[0..] == occurs && sizes[0..] == sizes;
    for i := 0 to |countList|
      invariant OnTrack(occurs, sizes, i, total, budget, curSize)
      invariant result == Assigned(countList, sizes, i)
    {
      assert countList[i] in countList && countMap[countList[i]] == occurs[i];
      SizesNext(occurs, sizes, i, total, budget, curSize);
      result := result[countList[i] := curSize];
      total, budget, curSize := SpendOne(occurs, sizes, i, total, budget, curSize, countMap[countList[i]]);
    }
  }

  method SpendOne(ghost occurs: seq<nat>, ghost sizes: seq<nat>, ghost i: nat, total: int, budget: int, curSize: nat,
                  cc: nat)
    returns (total': int, budget': int, curSize': nat)
    requires i < |occurs| == |sizes| && cc == occurs[i] && OnTrack(occurs, sizes, i, total, budget, curSize)
    ensures OnTrack(occurs, sizes, i + 1, total', budget', curSize')
  {
    SizesNext(occurs, sizes, i, total, budget, curSize);
    total' := total - cc;
    budget', curSize' := Spend(total', budget - cc, curSize);
  }

  method Spend(total: int, budget: int, curSize: nat) returns (budget': int, curSize': nat)
    requires total >= 0
    ensures budget' == Spent(total, budget, curSize).0 && curSize' == Spent(total, budget, curSize).1
  {
    budget', curSize' := budget, curSize;
    if budget < 1 {
      curSize' := curSize + 1;
      if curSize' >= FONT_SIZES {
        curSize', budget' := FONT_SIZES, 0;
      } else {
        budget' := CalcBudget(total, curSize');
      }
    }
  }

  /** From the `i`-th count on the sizes are those given with this budget. */
  ghost predicate OnTrack(occurs: seq<nat>, sizes: seq<nat>, i: nat, total: int, budget: int, size: nat)
    requires i <= |occurs| && i <= |sizes|
  {
    InBudget(occurs[i..], total, budget, size) && sizes[i..] == Sizes(occurs[i..], total, budget, size)
  }

  lemma SizesNext(occurs: seq<nat>, sizes: seq<nat>, i: nat, total: int, budget: int, size: nat)
    requires i < |occurs| == |sizes| && OnTrack(occurs, sizes, i, total, budget, size)
    ensures sizes[i] == size < FONT_SIZES && total - occurs[i] >= 0
    ensures var next := Spent(total - occurs[i], budget - occurs[i], size);
            OnTrack(occurs, sizes, i + 1, total - occurs[i], next.0, next.1)
  {
    InBudgetNext(occurs[i..], total, budget, size);
    assert occurs[i..][1..] == occurs[i + 1..] && sizes[i..][1..] == sizes[i + 1..] && sizes[i..][0] == sizes[i];
  }
}
