/**
 * The in-memory delivery store of src/backend/storage.py: an append-only
 * list of delivery records with a full listing, a filter by expected date
 * and an append. Here the store and its records are values; every operation
 * is a pure function from the old store to its result, so in the model a
 * query can neither change the store nor hand out a list that aliases it,
 * unlike the source, whose records are shared mutable objects (see README).
 */
module Storage {
  import opened Wrappers
  import opened Models

  datatype DeliveryStore = DeliveryStore(deliveries: seq<DeliveryObject>)

  /**
   * The two records a fresh store is seeded with. Each reads the clock on
   * its own: `day1` and `day2` are the two `date.today()` results, `created1`
   * and `created2` the two `last_update` defaults. They differ when
   * construction straddles midnight.
   */
  function SampleDeliveries(day1: Date, day2: Date, created1: Instant, created2: Instant): seq<DeliveryObject> {
    [ DeliveryObject("sample-1", "DE_DHL", "123456789", day1, Some("14:00-16:00"),
                     "announced", "gmail_marco", map[], created1),
      DeliveryObject("sample-2", "DE_HERMES", "HERMES-987654", day2, None,
                     "updated", "gmail_partner", map[], created2) ]
  }

  /** The store as constructed: exactly the two sample records, in order. */
  function NewStore(day1: Date, day2: Date, created1: Instant, created2: Instant): (s: DeliveryStore)
    ensures |s.deliveries| == 2
    ensures s.deliveries[0].id == "sample-1" && s.deliveries[1].id == "sample-2"
    ensures s.deliveries[0].dateExpected == day1 && s.deliveries[1].dateExpected == day2
  {
    DeliveryStore(SampleDeliveries(day1, day2, created1, created2))
  }

  /** `list_all`: the stored records, in stored order. */
  function ListAll(s: DeliveryStore): (r: seq<DeliveryObject>)
    ensures |r| == |s.deliveries|
    ensures forall i :: 0 <= i < |r| ==> r[i] == s.deliveries[i]
  {
    s.deliveries
  }
  /**
   * The records of `xs` whose expected date equals `d`, in their order in
   * `xs`: the list comprehension of `list_for_date`.
   */
  function Matching(xs: seq<DeliveryObject>, d: Date): (r: seq<DeliveryObject>)
    ensures |r| <= |xs|
    ensures forall i :: 0 <= i < |r| ==> r[i].dateExpected == d
    ensures forall i :: 0 <= i < |xs| && xs[i].dateExpected == d ==> xs[i] in r
    decreases |xs|
  {
    if |xs| == 0 then []
    else
      var last := xs[|xs| - 1];
      Matching(xs[..|xs| - 1], d) + (if last.dateExpected == d then [last] else [])
  }

  /** `list_for_date`: the stored records expected on `d`. */
  function ListForDate(s: DeliveryStore, d: Date): (r: seq<DeliveryObject>)
    ensures |r| <= |s.deliveries|
    ensures forall x :: x in r ==> x.dateExpected == d
    ensures forall x :: x in s.deliveries && x.dateExpected == d ==> x in r
  {
    Matching(s.deliveries, d)
  }

  /** `add`: append one record at the end; nothing is checked or merged. */
  function Add(s: DeliveryStore, x: DeliveryObject): (r: DeliveryStore)
    ensures |r.deliveries| == |s.deliveries| + 1
    ensures r.deliveries[..|s.deliveries|] == s.deliveries
    ensures r.deliveries[|s.deliveries|] == x
  {
    DeliveryStore(s.deliveries + [x])
  }

  /** The store after the records `xs` have been added one by one, in order. */
  function AddAll(s: DeliveryStore, xs: seq<DeliveryObject>): DeliveryStore
    decreases |xs|
  {
    if |xs| == 0 then s else Add(AddAll(s, xs[..|xs| - 1]), xs[|xs| - 1])
  }

  // ---------------------------------------------------------------------
  // The filter as an ordered selection of positions
  // ---------------------------------------------------------------------

  /** The positions in `xs` of the records expected on `d`, ascending. */
  function MatchingIndices(xs: seq<DeliveryObject>, d: Date): seq<nat>
    decreases |xs|
  {
    if |xs| == 0 then []
    else
      MatchingIndices(xs[..|xs| - 1], d)
      + (if xs[|xs| - 1].dateExpected == d then [|xs| - 1] else [])
  }

  /** `r` consists of the records of `xs` at the strictly ascending positions `idx`. */
  ghost predicate SelectsInOrder(r: seq<DeliveryObject>, xs: seq<DeliveryObject>, idx: seq<nat>) {
    && |idx| == |r|
    && (forall j :: 0 <= j < |idx| ==> idx[j] < |xs| && r[j] == xs[idx[j]])
    && (forall j, k :: 0 <= j < k < |idx| ==> idx[j] < idx[k])
  }

  /** `a` is an order-preserving subsequence of `b`. */
  ghost predicate IsSubsequence(a: seq<DeliveryObject>, b: seq<DeliveryObject>) {
    exists idx :: SelectsInOrder(a, b, idx)
  }

  /** `idx` holds exactly the positions of `xs` whose record is expected on `d`. */
  ghost predicate ExactlyMatchingPositions(xs: seq<DeliveryObject>, d: Date, idx: seq<nat>) {
    forall i :: 0 <= i < |xs| ==> (xs[i].dateExpected == d <==> i in idx)
  }

  lemma {:induction false} MatchingSelects(xs: seq<DeliveryObject>, d: Date)
    ensures SelectsInOrder(Matching(xs, d), xs, MatchingIndices(xs, d))
    ensures ExactlyMatchingPositions(xs, d, MatchingIndices(xs, d))
    decreases |xs|
  {
    if |xs| > 0 {
      var n := |xs| - 1;
      var pre := xs[..n];
      MatchingSelects(pre, d);
      var r0, idx0 := Matching(pre, d), MatchingIndices(pre, d);
      var tail := if xs[n].dateExpected == d then [n] else [];
      var r, idx := Matching(xs, d), MatchingIndices(xs, d);
      assert r == r0 + (if xs[n].dateExpected == d then [xs[n]] else []);
      assert idx == idx0 + tail;
      forall j | 0 <= j < |idx|
        ensures idx[j] < |xs| && r[j] == xs[idx[j]]
      {
        if j < |idx0| {
          assert idx[j] == idx0[j] && r[j] == r0[j];
        }
      }
      forall j, k | 0 <= j < k < |idx|
        ensures idx[j] < idx[k]
      {
        if k < |idx0| {
          assert idx[j] == idx0[j] && idx[k] == idx0[k];
        } else {
          assert idx[j] == idx0[j];
        }
      }
      forall i | 0 <= i < |xs|
        ensures xs[i].dateExpected == d <==> i in idx
      {
        if i < n {
          assert xs[i] == pre[i];
          assert i !in tail;
        } else {
          forall j | 0 <= j < |idx0|
            ensures idx0[j] != i
          {
          }
        }
      }
    }
  }

  /**
   * `list_for_date(d)` picks out, in their stored order, exactly the stored
   * records expected on `d`: a record is in the result at the position of
   * its stored slot precisely when its date is `d`.
   */
  lemma ListForDateIsOrderedSelection(s: DeliveryStore, d: Date)
    ensures SelectsInOrder(ListForDate(s, d), ListAll(s), MatchingIndices(s.deliveries, d))
    ensures ExactlyMatchingPositions(ListAll(s), d, MatchingIndices(s.deliveries, d))
  {
    MatchingSelects(s.deliveries, d);
  }

  /** `list_for_date(d)` is an order-preserving subsequence of `list_all()`. */
  lemma ListForDateIsSubsequence(s: DeliveryStore, d: Date)
    ensures IsSubsequence(ListForDate(s, d), ListAll(s))
  {
    ListForDateIsOrderedSelection(s, d);
  }

  /** Dropping the last selected position leaves an ordered selection below it. */
  lemma SelectionDropLast(r: seq<DeliveryObject>, xs: seq<DeliveryObject>, idx: seq<nat>)
    requires SelectsInOrder(r, xs, idx)
    requires |idx| > 0
    ensures SelectsInOrder(r[..|r| - 1], xs, idx[..|idx| - 1])
    ensures forall j :: 0 <= j < |idx| - 1 ==> idx[j] < idx[|idx| - 1]
  {
  }

  /** A selection of positions below `n` is also a selection from the first `n` records. */
  lemma SelectionNarrow(r: seq<DeliveryObject>, xs: seq<DeliveryObject>, idx: seq<nat>, n: nat)
    requires SelectsInOrder(r, xs, idx)
    requires n <= |xs|
    requires forall j :: 0 <= j < |idx| ==> idx[j] < n
    ensures SelectsInOrder(r, xs[..n], idx)
  {
  }

  /** When the last position of `xs` is selected, it is the last selected position. */
  lemma LastPositionSelectedLast(r: seq<DeliveryObject>, xs: seq<DeliveryObject>, idx: seq<nat>)
    requires SelectsInOrder(r, xs, idx)
    requires |xs| > 0 && |xs| - 1 in idx
    ensures |idx| > 0 && idx[|idx| - 1] == |xs| - 1
  {
    var n, m := |xs| - 1, |idx| - 1;
    var j :| 0 <= j < |idx| && idx[j] == n;
    if j < m {
      assert idx[j] < idx[m];
    }
  }

  /** Removing a matching last record from `xs` removes the last selected position. */
  lemma SelectionOfPrefixWhenLastMatches(r: seq<DeliveryObject>, xs: seq<DeliveryObject>, d: Date, idx: seq<nat>)
    requires SelectsInOrder(r, xs, idx)
    requires ExactlyMatchingPositions(xs, d, idx)
    requires |xs| > 0 && xs[|xs| - 1].dateExpected == d
    ensures |r| > 0 && r[|r| - 1] == xs[|xs| - 1]
    ensures SelectsInOrder(r[..|r| - 1], xs[..|xs| - 1], idx[..|idx| - 1])
    ensures ExactlyMatchingPositions(xs[..|xs| - 1], d, idx[..|idx| - 1])
  {
    var n := |xs| - 1;
    var pre := xs[..n];
    LastPositionSelectedLast(r, xs, idx);
    var m := |idx| - 1;
    var r0, idx0 := r[..m], idx[..m];
    SelectionDropLast(r, xs, idx);
    SelectionNarrow(r0, xs, idx0, n);
    assert idx == idx0 + [n];
    forall i | 0 <= i < n
      ensures pre[i].dateExpected == d <==> i in idx0
    {
      assert pre[i] == xs[i];
    }
  }

  /** Removing a non-matching last record from `xs` leaves the selection as it is. */
  lemma SelectionOfPrefixWhenLastDiffers(r: seq<DeliveryObject>, xs: seq<DeliveryObject>, d: Date, idx: seq<nat>)
    requires SelectsInOrder(r, xs, idx)
    requires ExactlyMatchingPositions(xs, d, idx)
    requires |xs| > 0 && xs[|xs| - 1].dateExpected != d
    ensures SelectsInOrder(r, xs[..|xs| - 1], idx)
    ensures ExactlyMatchingPositions(xs[..|xs| - 1], d, idx)
  {
    var n := |xs| - 1;
    var pre := xs[..n];
    forall j | 0 <= j < |idx|
      ensures idx[j] < n
    {
      assert idx[j] in idx;
    }
    SelectionNarrow(r, xs, idx, n);
    forall i | 0 <= i < n
      ensures pre[i].dateExpected == d <==> i in idx
    {
      assert pre[i] == xs[i];
    }
  }

  /**
   * The ordered selection of the matching positions determines the result:
   * any list built from exactly those positions, in ascending order, is
   * `Matching(xs, d)`.
   */
  lemma {:induction false} SelectionIsUnique(r: seq<DeliveryObject>, xs: seq<DeliveryObject>, d: Date, idx: seq<nat>)
    requires SelectsInOrder(r, xs, idx)
    requires ExactlyMatchingPositions(xs, d, idx)
    ensures r == Matching(xs, d)
    decreases |xs|
  {
    if |xs| == 0 {
      if |idx| > 0 {
        assert false;
      }
    } else {
      var n := |xs| - 1;
      if xs[n].dateExpected == d {
        SelectionOfPrefixWhenLastMatches(r, xs, d, idx);
        SelectionIsUnique(r[..|r| - 1], xs[..n], d, idx[..|idx| - 1]);
        assert r == r[..|r| - 1] + [xs[n]];
      } else {
        SelectionOfPrefixWhenLastDiffers(r, xs, d, idx);
        SelectionIsUnique(r, xs[..n], d, idx);
      }
    }
  }

  /**
   * A record occurs in `list_for_date(d)` exactly as often as it is stored
   * when it is expected on `d`, and never otherwise.
   */
  lemma {:induction false} MatchingCount(xs: seq<DeliveryObject>, d: Date, x: DeliveryObject)
    ensures multiset(Matching(xs, d))[x] == if x.dateExpected == d then multiset(xs)[x] else 0
    decreases |xs|
  {
    if |xs| > 0 {
      var n := |xs| - 1;
      MatchingCount(xs[..n], d, x);
      assert xs == xs[..n] + [xs[n]];
    }
  }

  lemma ListForDateCount(s: DeliveryStore, d: Date, x: DeliveryObject)
    ensures multiset(ListForDate(s, d))[x] == if x.dateExpected == d then multiset(ListAll(s))[x] else 0
  {
    MatchingCount(s.deliveries, d, x);
  }

  /** The filter distributes over concatenation of record lists. */
  lemma {:induction false} MatchingConcat(a: seq<DeliveryObject>, b: seq<DeliveryObject>, d: Date)
    ensures Matching(a + b, d) == Matching(a, d) + Matching(b, d)
    decreases |b|
  {
    if |b| == 0 {
      assert a + b == a;
    } else {
      var n := |b| - 1;
      MatchingConcat(a, b[..n], d);
      var ab := a + b;
      assert ab[..|ab| - 1] == a + b[..n];
      assert ab[|ab| - 1] == b[n];
    }
  }

  // ---------------------------------------------------------------------
  // Effect of `add` on the queries
  // ---------------------------------------------------------------------

  /** After `add(x)`, the records expected on `d` are the earlier ones plus `x` when `x` is. */
  lemma ListForDateAfterAdd(s: DeliveryStore, x: DeliveryObject, d: Date)
    ensures x.dateExpected == d ==> ListForDate(Add(s, x), d) == ListForDate(s, d) + [x]
    ensures x.dateExpected != d ==> ListForDate(Add(s, x), d) == ListForDate(s, d)
  {
  }

  /** The number of records in `xs` with identifier `id`. */
  function CountId(xs: seq<DeliveryObject>, id: string): nat
    decreases |xs|
  {
    if |xs| == 0 then 0
    else CountId(xs[..|xs| - 1], id) + (if xs[|xs| - 1].id == id then 1 else 0)
  }

  /** The number of records in `xs` about the same parcel as `x`. */
  function CountParcel(xs: seq<DeliveryObject>, x: DeliveryObject): nat
    decreases |xs|
  {
    if |xs| == 0 then 0
    else CountParcel(xs[..|xs| - 1], x) + (if SameParcel(xs[|xs| - 1], x) then 1 else 0)
  }

  /**
   * `add` never deduplicates: a record whose id or (carrier, tracking id)
   * is already stored gains one more stored copy.
   */
  lemma AddDoesNotDeduplicate(s: DeliveryStore, x: DeliveryObject)
    ensures CountId(ListAll(Add(s, x)), x.id) == CountId(ListAll(s), x.id) + 1
    ensures CountParcel(ListAll(Add(s, x)), x) == CountParcel(ListAll(s), x) + 1
  {
  }

  /** Listing after a run of `add` calls gives the old contents followed by the added records. */
  lemma {:induction false} ListAllAfterAdds(s: DeliveryStore, xs: seq<DeliveryObject>)
    ensures ListAll(AddAll(s, xs)) == ListAll(s) + xs
    decreases |xs|
  {
    if |xs| == 0 {
      assert ListAll(s) + xs == ListAll(s);
    } else {
      var n := |xs| - 1;
      ListAllAfterAdds(s, xs[..n]);
      assert xs == xs[..n] + [xs[n]];
    }
  }

  /** Filtering after a run of `add` calls: the old result followed by the added records expected on `d`. */
  lemma ListForDateAfterAdds(s: DeliveryStore, xs: seq<DeliveryObject>, d: Date)
    ensures ListForDate(AddAll(s, xs), d) == ListForDate(s, d) + Matching(xs, d)
  {
    ListAllAfterAdds(s, xs);
    MatchingConcat(s.deliveries, xs, d);
  }

  /**
   * At construction, `list_for_date(d)` holds each sample whose clock read
   * gave `d`, in seeding order.
   */
  lemma NewStoreListForDate(day1: Date, day2: Date, created1: Instant, created2: Instant, d: Date)
    ensures var xs := ListAll(NewStore(day1, day2, created1, created2));
      ListForDate(NewStore(day1, day2, created1, created2), d)
      == (if day1 == d then [xs[0]] else []) + (if day2 == d then [xs[1]] else [])
  {
    var xs := SampleDeliveries(day1, day2, created1, created2);
    assert xs[..1][..0] == [];
    assert Matching(xs[..1], d) == Matching([], d) + (if xs[0].dateExpected == d then [xs[0]] else []);
    assert Matching(xs, d) == Matching(xs[..1], d) + (if xs[1].dateExpected == d then [xs[1]] else []);
  }

  /**
   * When both clock reads give the same day, a fresh store lists both
   * samples, in order, for that day and nothing for any other date.
   */
  lemma NewStoreListsSamplesToday(today: Date, created1: Instant, created2: Instant, d: Date)
    ensures ListForDate(NewStore(today, today, created1, created2), today) == ListAll(NewStore(today, today, created1, created2))
    ensures d != today ==> ListForDate(NewStore(today, today, created1, created2), d) == []
  {
    NewStoreListForDate(today, today, created1, created2, today);
    NewStoreListForDate(today, today, created1, created2, d);
    var xs := ListAll(NewStore(today, today, created1, created2));
    assert xs == [xs[0]] + [xs[1]];
  }

  /**
   * The left-to-right scan of the list comprehension in `list_for_date`:
   * it builds exactly the filtered list.
   */
  method ListForDateScan(s: DeliveryStore, d: Date) returns (r: seq<DeliveryObject>)
    ensures r == ListForDate(s, d)
  {
    var xs := s.deliveries;
    r := [];
    var i := 0;
    while i < |xs|
      invariant 0 <= i <= |xs|
      invariant r == Matching(xs[..i], d)
    {
      assert xs[..i + 1][..i] == xs[..i];
      if xs[i].dateExpected == d {
        r := r + [xs[i]];
      }
      i := i + 1;
    }
    assert xs[..|xs|] == xs;
  }
}
