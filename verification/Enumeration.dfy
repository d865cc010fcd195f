/** Complete enumeration of a paged collection, reconciled against the declared total. */
module Enumeration {
  import opened Wrappers

  const PER_PAGE: nat := 100
  const MAX_PAGES: nat := 50
  const MAX_RECORDS: nat := 5000

  /** One item of a page: a record with an identifier, or something that is not one. */
  datatype Item = NotARecord | Record(id: nat, body: string)

  datatype TotalCount = NoTotal | NotAnInteger | Total(value: int)

  /** One answer of the server. */
  datatype Page = Malformed | Page(items: seq<Item>, total: TotalCount)

  datatype EnumerationError = PaginationBound | PaginationMalformed | TotalMalformed | TotalMissing
                            | RepeatedRecord | TotalInconsistent

  // ---------- what an acceptable collection looks like ----------

  predicate TotalInRange(t: TotalCount) {
    t.Total? && 0 <= t.value <= 5000
  }

  predicate WellFormed(page: Page, governed: bool) {
    && page.Page? && |page.items| <= 100
    && (forall i | 0 <= i < |page.items| :: page.items[i].Record?)
    && (TotalInRange(page.total) || (page.total == NoTotal && !governed))
  }

  /** The items of pages 1 to `p`, in order. */
  function Gather(server: nat -> Page, p: nat): seq<Item> {
    if p == 0 then [] else Gather(server, p - 1) + if server(p).Page? then server(p).items else []
  }

  ghost predicate DistinctIds(items: seq<Item>) {
    forall i, j | 0 <= i < j < |items| && items[i].Record? && items[j].Record? :: items[i].id != items[j].id
  }

  /** The totals of pages 1 to `p` that are present agree, and for a governed endpoint equal the
      number of records. */
  ghost predicate TotalsAgree(server: nat -> Page, p: nat, governed: bool) {
    && (forall q, r | 1 <= q <= p && 1 <= r <= p && server(q).Page? && server(r).Page?
                      && server(q).total.Total? && server(r).total.Total? ::
          server(q).total == server(r).total)
    && (governed ==> forall q | 1 <= q <= p :: server(q).Page? && server(q).total == Total(|Gather(server, p)|))
  }

  /** Pages 1 to `p` are a complete, consistent collection: full pages and then a short one. */
  ghost predicate Complete(server: nat -> Page, governed: bool, p: nat) {
    && 1 <= p <= 50
    && (forall q | 1 <= q <= p :: WellFormed(server(q), governed))
    && (forall q | 1 <= q < p :: |server(q).items| == 100)
    && |server(p).items| < 100
    && DistinctIds(Gather(server, p))
    && TotalsAgree(server, p, governed)
  }

  // ---------- the enumeration ----------

  /** Pages 1 to `n` were read, all of them full and sound. */
  ghost predicate Read(server: nat -> Page, governed: bool, n: nat) {
    && (forall q | 1 <= q <= n :: WellFormed(server(q), governed) && |server(q).items| == PER_PAGE)
    && DistinctIds(Gather(server, n))
  }

  ghost predicate Collected(server: nat -> Page, n: nat, totals: seq<int>) {
    && (forall q | 1 <= q <= n && server(q).Page? && server(q).total.Total? :: server(q).total.value in totals)
    && (forall t | t in totals :: exists q :: 1 <= q <= n && server(q).Page? && server(q).total == Total(t))
  }

  ghost predicate Identified(items: seq<Item>, ids: set<nat>) {
    && (forall i | 0 <= i < |items| :: items[i].Record?)
    && ids == set i | 0 <= i < |items| :: items[i].id
  }

  lemma IdentifyAppend(items: seq<Item>, ids: set<nat>, x: Item)
    requires Identified(items, ids) && x.Record?
    ensures Identified(items + [x], ids + {x.id})
  {
    var more := items + [x];
    forall id
      ensures id in ids + {x.id} <==> id in set i | 0 <= i < |more| :: more[i].id
    {
      if id in ids {
        var i :| 0 <= i < |items| && items[i].id == id;
        assert more[i].id == id;
      } else if id == x.id {
        assert more[|items|].id == id;
      }
    }
  }

  /** Adds one page's items; stops at something that is not a record or an identifier seen before. */
  method AddItems(batch: seq<Item>, items0: seq<Item>, ids0: set<nat>)
      returns (r: Result<(seq<Item>, set<nat>), EnumerationError>)
    requires Identified(items0, ids0) && DistinctIds(items0)
    ensures r.Success? <==> (forall i | 0 <= i < |batch| :: batch[i].Record?) && DistinctIds(items0 + batch)
    ensures r.Success? ==> r.value.0 == items0 + batch && Identified(r.value.0, r.value.1)
    ensures r.Failure? ==> r.error in {PaginationMalformed, RepeatedRecord}
  {
    var items, ids := items0, ids0;
    for i := 0 to |batch|
      invariant items == items0 + batch[..i] && Identified(items, ids) && DistinctIds(items)
    {
      assert batch[..i + 1] == batch[..i] + [batch[i]];
      if batch[i].NotARecord? {
        return Failure(PaginationMalformed);
      }
      if batch[i].id in ids {
        var k :| 0 <= k < |items| && items[k].id == batch[i].id;
        assert (items0 + batch)[k] == items[k] && (items0 + batch)[|items0| + i] == batch[i];
        return Failure(RepeatedRecord);
      }
      IdentifyAppend(items, ids, batch[i]);
      ids := ids + {batch[i].id};
      items := items + [batch[i]];
    }
    assert batch[..|batch|] == batch;
    assert forall i | 0 <= i < |batch| :: items[|items0| + i] == batch[i];
    r := Success((items, ids));
  }

  lemma GatherStep(server: nat -> Page, n: nat)
    requires server(n + 1).Page?
    ensures Gather(server, n + 1) == Gather(server, n) + server(n + 1).items
  {
  }

  lemma {:induction false} GatherPrefix(server: nat -> Page, n: nat, p: nat)
    requires n <= p
    ensures Gather(server, n) <= Gather(server, p)
    decreases p - n
  {
    if n < p {
      GatherPrefix(server, n + 1, p);
    }
  }

  lemma {:induction false} FullPages(server: nat -> Page, governed: bool, n: nat)
    requires forall q | 1 <= q <= n :: WellFormed(server(q), governed) && |server(q).items| == PER_PAGE
    ensures |Gather(server, n)| == n * PER_PAGE
  {
    if n > 0 {
      FullPages(server, governed, n - 1);
    }
  }

  /** If the pages read so far are full and the next one cannot be part of a complete collection,
      there is none. */
  lemma NoneComplete(server: nat -> Page, governed: bool, n: nat)
    requires Read(server, governed, n)
    requires n >= MAX_PAGES || !WellFormed(server(n + 1), governed) || !DistinctIds(Gather(server, n + 1))
    ensures forall p :: !Complete(server, governed, p)
  {
    forall p: nat | Complete(server, governed, p)
      ensures false
    {
      if p > n {
        GatherPrefix(server, n + 1, p);
        PrefixDistinct(Gather(server, n + 1), Gather(server, p));
      }
    }
  }

  lemma PrefixDistinct(a: seq<Item>, b: seq<Item>)
    requires a <= b && DistinctIds(b)
    ensures DistinctIds(a)
  {
    forall i, j | 0 <= i < j < |a| && a[i].Record? && a[j].Record?
      ensures a[i].id != a[j].id
    {
      assert a[i] == b[i] && a[j] == b[j];
    }
  }

  /** Only the page that came back short can end the collection. */
  lemma OnlyShortPage(server: nat -> Page, governed: bool, n: nat, p: nat)
    requires Read(server, governed, n) && server(n + 1).Page? && |server(n + 1).items| < PER_PAGE
    requires Complete(server, governed, p)
    ensures p == n + 1
  {
    hide TotalsAgree, DistinctIds, Gather;
    var lengths := (|server(n + 1).items|, |server(p).items|);
  }

  /** A short page ends the collection, soundly or not. */
  lemma CompleteIff(server: nat -> Page, governed: bool, page: nat)
    requires 1 <= page <= MAX_PAGES && Read(server, governed, page - 1)
    requires server(page).Page? && WellFormed(server(page), governed) && |server(page).items| < PER_PAGE
    requires DistinctIds(Gather(server, page))
    ensures Complete(server, governed, page) <==> TotalsAgree(server, page, governed)
    ensures forall p: nat | Complete(server, governed, p) :: p == page
  {
    hide TotalsAgree, DistinctIds, Gather, WellFormed;
    forall p: nat | Complete(server, governed, p)
      ensures p == page
    {
      OnlyShortPage(server, governed, page - 1, p);
    }
  }

  // ---------- reconciliation ----------

  lemma OneDistinct(totals: seq<int>, distinct: set<int>)
    requires totals != [] && distinct == set t | t in totals
    ensures |distinct| == 1 <==> forall t | t in totals :: t == totals[0]
  {
    if forall t | t in totals :: t == totals[0] {
      assert distinct == {totals[0]};
    }
    if |distinct| == 1 {
      assert totals[0] in distinct;
      assert |distinct - {totals[0]}| == 0;
      assert distinct - {totals[0]} == {};
      assert forall t | t in totals :: t in distinct;
    }
  }

  lemma IdsButLast(items: seq<Item>, ids: set<nat>) returns (rest: set<nat>)
    requires Identified(items, ids) && items != []
    ensures Identified(items[..|items| - 1], rest) && ids == rest + {items[|items| - 1].id}
  {
    var n := |items| - 1;
    rest := set i | 0 <= i < n :: items[i].id;
    assert forall i | 0 <= i < n :: items[..n][i] == items[i];
  }

  lemma DistinctButLast(items: seq<Item>, rest: set<nat>)
    requires items != [] && Identified(items[..|items| - 1], rest) && items[|items| - 1].Record?
    ensures DistinctIds(items) <==> DistinctIds(items[..|items| - 1]) && items[|items| - 1].id !in rest
  {
    var n := |items| - 1;
    assert forall i | 0 <= i < n :: items[..n][i] == items[i];
    if items[n].id in rest {
      var i :| 0 <= i < n && items[..n][i].id == items[n].id;
    }
  }

  /** There are as many identifiers as records exactly when none repeats. */
  lemma {:induction false} IdCount(items: seq<Item>, ids: set<nat>)
    requires Identified(items, ids)
    ensures |ids| <= |items| && (|ids| == |items| <==> DistinctIds(items))
  {
    if items == [] {
      assert ids == {};
    } else {
      var n := |items| - 1;
      var rest := IdsButLast(items, ids);
      assert items[n].Record?;
      DistinctButLast(items, rest);
      hide Identified, DistinctIds;
      IdCount(items[..n], rest);
      if items[n].id in rest {
        assert ids == rest;
      }
    }
  }

  /** The totals collected agree, and for a governed endpoint with the records counted. */
  lemma TotalsAgreeIff(server: nat -> Page, page: nat, governed: bool, totals: seq<int>)
    requires Collected(server, page, totals) && page >= 1
    requires forall q | 1 <= q <= page :: WellFormed(server(q), governed)
    ensures governed ==> totals != []
    ensures TotalsAgree(server, page, governed) <==>
            && (totals != [] ==> forall t | t in totals :: t == totals[0])
            && (governed ==> totals[0] == |Gather(server, page)|)
  {
    if governed {
      assert WellFormed(server(1), governed) && server(1).total.value in totals;
    }
    if totals != [] && (forall t | t in totals :: t == totals[0]) {
      assert forall q | 1 <= q <= page && server(q).total.Total? :: server(q).total.value == totals[0];
    }
    if TotalsAgree(server, page, governed) && totals != [] {
      assert totals[0] in totals;
      var q :| 1 <= q <= page && server(q).Page? && server(q).total == Total(totals[0]);
      forall t | t in totals
        ensures t == totals[0]
      {
        var r :| 1 <= r <= page && server(r).Page? && server(r).total == Total(t);
        assert server(q).total == server(r).total;
      }
    }
  }

  /** The reconciliation at the end.  Beside the totals it asks, of a governed endpoint, that no
      identifier repeats and that a short page ended the reading: once enumeration has seen to
      both, only a total that varies or differs from the records can fail it. */
  method Reconcile(ghost server: nat -> Page, governed: bool, ghost page: nat, totals: seq<int>, items: seq<Item>,
                   ids: set<nat>, terminatedByShortPage: bool)
      returns (failure: Option<EnumerationError>)
    requires Collected(server, page, totals) && page >= 1
    requires forall q | 1 <= q <= page :: WellFormed(server(q), governed)
    requires items == Gather(server, page) && Identified(items, ids)
    ensures failure.None? <==>
            TotalsAgree(server, page, governed) && (governed ==> DistinctIds(items) && terminatedByShortPage)
    ensures failure.None? || failure == Some(TotalInconsistent)
  {
    TotalsAgreeIff(server, page, governed, totals);
    IdCount(items, ids);
    if governed {
      if totals == [] {
        return Some(TotalMissing);
      }
      var distinct := set t | t in totals;
      OneDistinct(totals, distinct);
      if |distinct| != 1 {
        return Some(TotalInconsistent);
      }
      var total := totals[0];
      if |items| != total || |ids| != |items| || |ids| != total || !terminatedByShortPage {
        return Some(TotalInconsistent);
      }
    } else if totals != [] {
      var distinct := set t | t in totals;
      OneDistinct(totals, distinct);
      if |distinct| != 1 {
        return Some(TotalInconsistent);
      }
    }
    failure := None;
  }

  lemma CollectPage(server: nat -> Page, page: nat, before: seq<int>, totals: seq<int>)
    requires page >= 1 && Collected(server, page - 1, before) && server(page).Page?
    requires totals == if server(page).total.Total? then before + [server(page).total.value] else before
    ensures Collected(server, page, totals)
  {
    if server(page).total.Total? {
      assert server(page).total.value in totals;
    }
    forall t | t in totals
      ensures exists q :: 1 <= q <= page && server(q).Page? && server(q).total == Total(t)
    {
      if t in before {
        var q :| 1 <= q <= page - 1 && server(q).Page? && server(q).total == Total(t);
      } else {
        assert server(page).total == Total(t);
      }
    }
  }

  /** What the loop knows after `n` pages. */
  ghost predicate Sofar(server: nat -> Page, governed: bool, n: nat, totals: seq<int>, items: seq<Item>,
                        ids: set<nat>) {
    && items == Gather(server, n) && Identified(items, ids) && DistinctIds(items)
    && Collected(server, n, totals) && (governed && n > 0 ==> totals != [])
  }

  /** Reads one more page onto full ones; a failure means no complete collection exists. */
  method ReadPage(server: nat -> Page, governed: bool, page: nat, totals0: seq<int>, items0: seq<Item>, ids0: set<nat>)
      returns (failure: Option<EnumerationError>, totals: seq<int>, items: seq<Item>, ids: set<nat>)
    requires 1 <= page <= MAX_PAGES && Read(server, governed, page - 1)
    requires Sofar(server, governed, page - 1, totals0, items0, ids0)
    ensures failure.Some? ==> forall p: nat :: !Complete(server, governed, p)
    ensures failure.None? <==> WellFormed(server(page), governed) && DistinctIds(Gather(server, page))
    ensures failure.None? ==> Sofar(server, governed, page, totals, items, ids)
    ensures failure != Some(PaginationBound)
  {
    hide Complete, TotalsAgree, DistinctIds, Identified, Collected, Read;
    totals, items, ids := totals0, items0, ids0;
    var payload := server(page);
    if payload.Malformed? || |payload.items| > PER_PAGE {
      NoneComplete(server, governed, page - 1);
      return Some(PaginationMalformed), totals, items, ids;
    }
    if payload.total != NoTotal {
      if payload.total.NotAnInteger? || payload.total.value < 0 || payload.total.value > MAX_RECORDS {
        NoneComplete(server, governed, page - 1);
        return Some(TotalMalformed), totals, items, ids;
      }
      totals := totals + [payload.total.value];
    } else if governed {
      NoneComplete(server, governed, page - 1);
      return Some(TotalMissing), totals, items, ids;
    }
    GatherStep(server, page - 1);
    var added := AddItems(payload.items, items, ids);
    if added.Failure? {
      NoneComplete(server, governed, page - 1);
      return Some(added.error), totals, items, ids;
    }
    items, ids := added.value.0, added.value.1;
    CollectPage(server, page, totals0, totals);
    failure := None;
  }

  /** Enumerates every page.  It succeeds exactly when the server's pages are a complete,
      consistent collection, and returns that collection.  It reports a bound exactly when fifty
      sound full pages came back, so the bound on records is never what stops it. */
  method Enumerate(server: nat -> Page, governed: bool) returns (r: Result<seq<Item>, EnumerationError>)
    ensures r.Success? ==> exists p: nat :: Complete(server, governed, p) && r.value == Gather(server, p)
    ensures r.Failure? ==> forall p: nat :: !Complete(server, governed, p)
    ensures r == Failure(PaginationBound) <==> Read(server, governed, 50)
  {
    hide Complete, TotalsAgree, WellFormed;
    var items: seq<Item> := [];
    var ids: set<nat> := {};
    var totals: seq<int> := [];
    var page: nat := 1;
    var terminatedByShortPage := false;
    while !terminatedByShortPage
      invariant 1 <= page <= MAX_PAGES + 1 && (terminatedByShortPage ==> page <= MAX_PAGES)
      invariant Read(server, governed, page - 1)
      invariant !terminatedByShortPage ==> Sofar(server, governed, page - 1, totals, items, ids)
      invariant terminatedByShortPage ==>
                  && Sofar(server, governed, page, totals, items, ids) && WellFormed(server(page), governed)
                  && server(page).Page? && |server(page).items| < PER_PAGE
      decreases !terminatedByShortPage, MAX_PAGES + 1 - page
    {
      if page > MAX_PAGES {
        NoneComplete(server, governed, page - 1);
        return Failure(PaginationBound);
      }
      var failure;
      failure, totals, items, ids := ReadPage(server, governed, page, totals, items, ids);
      if failure.Some? {
        NotRead(server, governed, page);
        return Failure(failure.value);
      }
      PageSizes(server, governed, page);
      if |items| > MAX_RECORDS {
        return Failure(PaginationBound);
      }
      if |server(page).items| < PER_PAGE {
        terminatedByShortPage := true;
      } else {
        page := page + 1;
      }
    }
    NotRead(server, governed, page);
    CompleteIff(server, governed, page);
    var reconciled := Reconcile(server, governed, page, totals, items, ids, terminatedByShortPage);
    if reconciled.Some? {
      return Failure(reconciled.value);
    }
    r := Success(items);
  }

  /** One unsound or short page is enough to stay below the bound. */
  lemma NotRead(server: nat -> Page, governed: bool, page: nat)
    requires 1 <= page <= MAX_PAGES
    requires !WellFormed(server(page), governed) || |server(page).items| < PER_PAGE
               || !DistinctIds(Gather(server, page))
    ensures !Read(server, governed, MAX_PAGES)
  {
    if Read(server, governed, MAX_PAGES) {
      GatherPrefix(server, page, MAX_PAGES);
      PrefixDistinct(Gather(server, page), Gather(server, MAX_PAGES));
    }
  }

  lemma PageSizes(server: nat -> Page, governed: bool, page: nat)
    requires 1 <= page <= MAX_PAGES && Read(server, governed, page - 1) && WellFormed(server(page), governed)
    ensures server(page).Page? && |server(page).items| <= PER_PAGE && |Gather(server, page)| <= MAX_RECORDS
    ensures |server(page).items| == PER_PAGE && DistinctIds(Gather(server, page)) ==> Read(server, governed, page)
  {
    FullPages(server, governed, page - 1);
  }

  lemma {:induction false} GatheredRecords(server: nat -> Page, governed: bool, p: nat)
    requires forall q | 1 <= q <= p :: WellFormed(server(q), governed)
    ensures forall i | 0 <= i < |Gather(server, p)| :: Gather(server, p)[i].Record?
  {
    if p > 0 {
      GatheredRecords(server, governed, p - 1);
    }
  }

  /** A complete collection holds nothing but records, none of them twice, a hundred a page but for the
      last; every total it shows is between 0 and 5000 and the same, and a governed one is their number. */
  lemma CompleteCollection(server: nat -> Page, governed: bool, p: nat)
    requires Complete(server, governed, p)
    ensures var records := Gather(server, p);
            && (forall i | 0 <= i < |records| :: records[i].Record?)
            && (forall i, j | 0 <= i < j < |records| :: records[i].id != records[j].id)
            && 100 * (p - 1) <= |records| < 100 * p <= 5000
            && (forall q | 1 <= q <= p :: server(q).Page? && !server(q).total.NotAnInteger?
                  && (governed ==> server(q).total == Total(|records|))
                  && (server(q).total.Total? ==> 0 <= server(q).total.value <= 5000))
            && (forall q, r | 1 <= q <= p && 1 <= r <= p && server(q).total.Total? && server(r).total.Total? ::
                  server(q).total == server(r).total)
  {
    GatheredRecords(server, governed, p);
    FullPages(server, governed, p - 1);
    hide Gather;
    GatherStep(server, p - 1);
  }

  // ---------- honest servers ----------

  function Slice(records: seq<Item>, lo: nat, hi: nat): seq<Item> {
    if lo >= |records| then [] else if hi >= |records| then records[lo..] else if lo <= hi then records[lo..hi] else []
  }

  /** A server that pages through `records` and declares how many there are. */
  ghost predicate Honest(server: nat -> Page, records: seq<Item>) {
    forall q | q >= 1 :: server(q) == Page(Slice(records, (q - 1) * 100, q * 100), Total(|records|))
  }

  lemma {:induction false} HonestGather(server: nat -> Page, records: seq<Item>, p: nat)
    requires Honest(server, records)
    ensures Gather(server, p) == if p * PER_PAGE >= |records| then records else records[..p * PER_PAGE]
  {
    if p > 0 {
      HonestGather(server, records, p - 1);
      assert server(p) == Page(Slice(records, (p - 1) * PER_PAGE, p * PER_PAGE), Total(|records|));
    }
  }

  /** An honest server with distinct records has a complete collection exactly when it holds at
      most 4999 of them, and that collection is the records themselves. */
  lemma HonestCompleteIff(server: nat -> Page, records: seq<Item>, governed: bool)
    requires Honest(server, records) && DistinctIds(records) && forall i | 0 <= i < |records| :: records[i].Record?
    ensures (exists p :: Complete(server, governed, p)) <==> |records| <= 4999
    ensures forall p: nat | Complete(server, governed, p) :: Gather(server, p) == records
  {
    forall p: nat | Complete(server, governed, p)
      ensures |records| <= 4999 && Gather(server, p) == records
    {
      HonestGather(server, records, p);
      assert server(p) == Page(Slice(records, (p - 1) * PER_PAGE, p * PER_PAGE), Total(|records|));
      assert |Slice(records, (p - 1) * PER_PAGE, p * PER_PAGE)| < PER_PAGE;
    }
    if |records| <= 4999 {
      var p := |records| / PER_PAGE + 1;
      HonestGather(server, records, p);
      forall q | 1 <= q <= p
        ensures server(q).Page? && WellFormed(server(q), governed) && server(q).total == Total(|records|)
        ensures |server(q).items| == if q < p then PER_PAGE else |records| % PER_PAGE
      {
        HonestPage(server, records, governed, q);
      }
      assert Complete(server, governed, p);
    }
  }

  lemma HonestPage(server: nat -> Page, records: seq<Item>, governed: bool, q: nat)
    requires Honest(server, records) && (forall i | 0 <= i < |records| :: records[i].Record?)
    requires |records| <= 4999 && 1 <= q <= |records| / PER_PAGE + 1
    ensures server(q).Page? && WellFormed(server(q), governed) && server(q).total == Total(|records|)
    ensures |server(q).items| == if q < |records| / PER_PAGE + 1 then PER_PAGE else |records| % PER_PAGE
  {
    assert server(q) == Page(Slice(records, (q - 1) * PER_PAGE, q * PER_PAGE), Total(|records|));
  }
}
