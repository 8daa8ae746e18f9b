/** The paginated extraction loop of etl.py (`extract_cms_data`).

    The HTTP request, its status check and the JSON decoding are one
    abstract page oracle `fetch(state, offset)`, which answers with a
    decoded page or a failure. The state list, the specialty allow-list
    and the page size are parameters. */
module Extract {
  import opened Common

  /** What one page request gives: a failure (network error, bad status,
      undecodable body) or the decoded list of records. */
  datatype Response = Failed | Page(rows: seq<Record>)

  /** One page request as issued: the state it is restricted to and the
      OFFSET of its LIMIT/OFFSET clause. */
  datatype Query = Query(state: string, offset: nat)

  type Fetcher = (string, nat) -> Response

  /** The record's `pri_spec` is present, not null and on the allow-list. */
  predicate Allowed(rec: Record, allow: seq<string>)
  {
    Get(rec, "pri_spec").Some? && Get(rec, "pri_spec").value in allow
  }

  /** The list comprehension over one page: the records whose `pri_spec`
      is allowed, in page order. */
  function Keep(rows: seq<Record>, allow: seq<string>): seq<Record>
  {
    if rows == [] then []
    else (if Allowed(rows[0], allow) then [rows[0]] else []) + Keep(rows[1..], allow)
  }

  /** A record is kept exactly when it is on the page and allowed; nothing
      is added, and a page of allowed records is kept whole. */
  lemma {:induction false} KeepExactly(rows: seq<Record>, allow: seq<string>)
    ensures forall x :: x in Keep(rows, allow) <==> x in rows && Allowed(x, allow)
    ensures |Keep(rows, allow)| <= |rows|
    ensures (forall x | x in rows :: Allowed(x, allow)) ==> Keep(rows, allow) == rows
  {
    if rows != [] {
      KeepExactly(rows[1..], allow);
      assert rows == [rows[0]] + rows[1..];
    }
  }

  /** Filtering keeps the relative order of records: filtering two pages
      one after the other is filtering their concatenation. */
  lemma {:induction false} KeepAppend(a: seq<Record>, b: seq<Record>, allow: seq<string>)
    ensures Keep(a + b, allow) == Keep(a, allow) + Keep(b, allow)
  {
    if a == [] {
      assert a + b == b;
    } else {
      var head := if Allowed(a[0], allow) then [a[0]] else [];
      assert (a + b)[0] == a[0] && (a + b)[1..] == a[1..] + b;
      assert Keep(a + b, allow) == head + Keep(a[1..] + b, allow);
      KeepAppend(a[1..], b, allow);
      assert Keep(a, allow) == head + Keep(a[1..], allow);
    }
  }

  /** The page ends paging for its state: the request failed, the page is
      empty, or it holds fewer rows than were asked for. */
  predicate EndsPaging(r: Response, chunk: nat)
  {
    r.Failed? || r.rows == [] || |r.rows| < chunk
  }

  /** What one response adds to the accumulator. */
  function Retained(r: Response, allow: seq<string>): (kept: seq<Record>)
    ensures r.Page? ==> kept == Keep(r.rows, allow)
    ensures r.Failed? ==> kept == []
  {
    if r.Failed? || r.rows == [] then [] else Keep(r.rows, allow)
  }

  /** A failed request keeps nothing; a page keeps exactly its allowed
      records, so never more records than it has. */
  lemma RetainedExactly(r: Response, allow: seq<string>)
    ensures forall x :: x in Retained(r, allow) <==> r.Page? && x in r.rows && Allowed(x, allow)
    ensures |Retained(r, allow)| <= if r.Page? then |r.rows| else 0
  {
    if r.Page? {
      KeepExactly(r.rows, allow);
    }
  }

  /** The offset of the `i`-th page request of a state: the running sum
      `offset += CHUNK_SIZE`, once per page. */
  function Offset(i: nat, chunk: nat): nat
  {
    if i == 0 then 0 else Offset(i - 1, chunk) + chunk
  }

  /** The running offset is `i * chunk`. */
  lemma {:induction false} OffsetIsProduct(i: nat, chunk: nat)
    ensures Offset(i, chunk) == i * chunk
  {
    if i > 0 {
      OffsetIsProduct(i - 1, chunk);
      assert (i - 1) * chunk + chunk == i * chunk;
    }
  }

  /** The response to the `i`-th page request of a state. */
  function PageAt(fetch: Fetcher, state: string, chunk: nat, i: nat): Response
  {
    fetch(state, Offset(i, chunk))
  }

  /** Paging of `state` comes to an end: some page ends it. Without this the
      loop in etl.py never leaves the state. */
  ghost predicate Finite(fetch: Fetcher, state: string, chunk: nat)
  {
    exists i: nat :: EndsPaging(PageAt(fetch, state, chunk, i), chunk)
  }

  /** Paging of every listed state ends. */
  ghost predicate AllFinite(fetch: Fetcher, states: seq<string>, chunk: nat)
  {
    forall s | s in states :: Finite(fetch, state := s, chunk := chunk)
  }

  /** The first page at or after `i` that ends paging, given that page `bound` does. */
  function FirstStopFrom(fetch: Fetcher, state: string, chunk: nat, i: nat, bound: nat): (k: nat)
    requires i <= bound && EndsPaging(PageAt(fetch, state, chunk, bound), chunk)
    ensures i <= k <= bound
    ensures EndsPaging(PageAt(fetch, state, chunk, k), chunk)
    ensures forall j | i <= j < k :: !EndsPaging(PageAt(fetch, state, chunk, j), chunk)
    decreases bound - i
  {
    if EndsPaging(PageAt(fetch, state, chunk, i), chunk) then i
    else FirstStopFrom(fetch, state, chunk, i + 1, bound)
  }

  /** Index of the last page requested for `state`: the first one that ends
      paging. (A state whose paging never ends has no last page: the loop in
      etl.py does not terminate. The 0 given for it is never used, as
      `ExtractCmsData` requires every state to end.) */
  ghost function LastPage(fetch: Fetcher, state: string, chunk: nat): (k: nat)
    ensures Finite(fetch, state, chunk) ==> EndsPaging(PageAt(fetch, state, chunk, k), chunk)
    ensures Finite(fetch, state, chunk) ==> forall j | 0 <= j < k :: !EndsPaging(PageAt(fetch, state, chunk, j), chunk)
  {
    if Finite(fetch, state, chunk) then
      var bound: nat :| EndsPaging(PageAt(fetch, state, chunk, bound), chunk);
      FirstStopFrom(fetch, state, chunk, 0, bound)
    else 0
  }

  /** Records retained from pages 0 .. n-1 of `state`. */
  function PagesRetained(fetch: Fetcher, state: string, chunk: nat, allow: seq<string>, n: nat): seq<Record>
  {
    if n == 0 then []
    else PagesRetained(fetch, state, chunk, allow, n - 1) + Retained(PageAt(fetch, state, chunk, n - 1), allow)
  }

  /** The first `n` page requests of `state`. */
  function PageQueries(state: string, chunk: nat, n: nat): (qs: seq<Query>)
    ensures |qs| == n
  {
    if n == 0 then [] else PageQueries(state, chunk, n - 1) + [Query(state, Offset(n - 1, chunk))]
  }

  /** The `i`-th of those requests is for `state` at the `i`-th offset. */
  lemma {:induction false} PageQueryAt(state: string, chunk: nat, n: nat, i: nat)
    requires i < n
    ensures PageQueries(state, chunk, n)[i] == Query(state, Offset(i, chunk))
  {
    if i < n - 1 {
      PageQueryAt(state, chunk, n - 1, i);
    }
  }

  /** Everything `state` contributes to the result. */
  ghost function StateRecords(fetch: Fetcher, state: string, chunk: nat, allow: seq<string>): seq<Record>
  {
    PagesRetained(fetch, state, chunk, allow, LastPage(fetch, state, chunk) + 1)
  }

  /** Every request issued for `state`. */
  ghost function StateQueries(fetch: Fetcher, state: string, chunk: nat): seq<Query>
  {
    PageQueries(state, chunk, LastPage(fetch, state, chunk) + 1)
  }

  /** The extraction result: the states' contributions in state-list order. */
  ghost function Extraction(fetch: Fetcher, states: seq<string>, chunk: nat, allow: seq<string>): seq<Record>
  {
    if states == [] then []
    else Extraction(fetch, states[..|states| - 1], chunk, allow) + StateRecords(fetch, states[|states| - 1], chunk, allow)
  }

  /** Every request the extraction issues, in the order it issues them. */
  ghost function ExtractionQueries(fetch: Fetcher, states: seq<string>, chunk: nat): seq<Query>
  {
    if states == [] then []
    else ExtractionQueries(fetch, states[..|states| - 1], chunk) + StateQueries(fetch, states[|states| - 1], chunk)
  }

  /** Every record retained from the first `n` pages of a state is allowed. */
  lemma {:induction false} PagesRetainedAllowed(fetch: Fetcher, state: string, chunk: nat, allow: seq<string>, n: nat)
    ensures forall x | x in PagesRetained(fetch, state, chunk, allow, n) :: Allowed(x, allow)
  {
    if n > 0 {
      PagesRetainedAllowed(fetch, state, chunk, allow, n - 1);
      RetainedExactly(PageAt(fetch, state, chunk, n - 1), allow);
    }
  }

  /** Every record of the extraction result has an allowed `pri_spec`; a
      record without `pri_spec`, or with a null one, is never in it. */
  lemma {:induction false} ExtractionAllowed(fetch: Fetcher, states: seq<string>, chunk: nat, allow: seq<string>)
    ensures forall x | x in Extraction(fetch, states, chunk, allow) :: Allowed(x, allow)
  {
    if states != [] {
      var last := states[|states| - 1];
      ExtractionAllowed(fetch, states[..|states| - 1], chunk, allow);
      PagesRetainedAllowed(fetch, last, chunk, allow, LastPage(fetch, last, chunk) + 1);
    }
  }

  /** The `while True` loop of `extract_cms_data` for one state: request
      pages at offsets 0, chunk, 2*chunk, ... and extend `acc` with the
      allowed records of each page, until a request fails, a page is empty
      or a page is short. `queries` records the requests issued. */
  method ExtractState(fetch: Fetcher, state: string, allow: seq<string>, chunk: nat, acc: seq<Record>)
    returns (result: seq<Record>, ghost queries: seq<Query>)
    requires Finite(fetch, state, chunk)
    ensures result == acc + StateRecords(fetch, state, chunk, allow)
    ensures queries == StateQueries(fetch, state, chunk)
  {
    ghost var last := LastPage(fetch, state, chunk);
    ghost var page: nat := 0;
    result, queries := acc, [];
    var offset := 0;
    while true
      invariant offset == Offset(page, chunk)
      invariant page <= last
      invariant forall i | 0 <= i < page :: !EndsPaging(PageAt(fetch, state, chunk, i), chunk)
      invariant result == acc + PagesRetained(fetch, state, chunk, allow, page)
      invariant queries == PageQueries(state, chunk, page)
      decreases last - page
    {
      var data := fetch(state, offset);
      queries := queries + [Query(state, offset)];
      if data.Failed? || data.rows == [] {
        StopsAtFirstEndingPage(fetch, state, chunk, allow, page);
        ConcatAssoc(acc, PagesRetained(fetch, state, chunk, allow, page), []);
        break;
      }
      var filtered := Keep(data.rows, allow);
      ConcatAssoc(acc, PagesRetained(fetch, state, chunk, allow, page), filtered);
      result := result + filtered;
      if |data.rows| < chunk {
        StopsAtFirstEndingPage(fetch, state, chunk, allow, page);
        break;
      }
      BeforeLastPage(fetch, state, chunk, page);
      offset := offset + chunk;
      page := page + 1;
    }
  }

  /** A page that does not end paging comes before the last page. */
  lemma BeforeLastPage(fetch: Fetcher, state: string, chunk: nat, i: nat)
    requires Finite(fetch, state, chunk) && !EndsPaging(PageAt(fetch, state, chunk, i), chunk)
    requires forall j | 0 <= j < i :: !EndsPaging(PageAt(fetch, state, chunk, j), chunk)
    ensures i < LastPage(fetch, state, chunk)
  {
  }

  /** `extract_cms_data`: page through every state in list order, extending
      one accumulator. `queries` records every request issued. */
  method ExtractCmsData(fetch: Fetcher, states: seq<string>, allow: seq<string>, chunk: nat)
    returns (result: seq<Record>, ghost queries: seq<Query>)
    requires AllFinite(fetch, states, chunk)
    ensures result == Extraction(fetch, states, chunk, allow)
    ensures queries == ExtractionQueries(fetch, states, chunk)
    ensures forall x | x in result :: Allowed(x, allow)
  {
    result := [];
    queries := [];
    for j := 0 to |states|
      invariant result == Extraction(fetch, states[..j], chunk, allow)
      invariant queries == ExtractionQueries(fetch, states[..j], chunk)
    {
      var state := states[j];
      assert state in states;
      ghost var stateQueries;
      result, stateQueries := ExtractState(fetch, state, allow, chunk, result);
      queries := queries + stateQueries;
      assert states[..j + 1][..j] == states[..j];
    }
    assert states[..|states|] == states;
    ExtractionAllowed(fetch, states, chunk, allow);
  }

  /** Concatenation is associative; called where a proof step needs this
      one instance. */
  lemma ConcatAssoc<T>(x: seq<T>, y: seq<T>, z: seq<T>)
    ensures (x + y) + z == x + (y + z)
  {
  }

  /** A run over `s + [state]` is the run over `s`, then `state`. */
  lemma ExtractionSnoc(fetch: Fetcher, s: seq<string>, state: string, chunk: nat, allow: seq<string>)
    ensures Extraction(fetch, s + [state], chunk, allow) == Extraction(fetch, s, chunk, allow) + StateRecords(fetch, state, chunk, allow)
  {
    assert (s + [state])[..|s|] == s;
  }

  /** The requests of a run over `s + [state]` are those over `s`, then those for `state`. */
  lemma QueriesSnoc(fetch: Fetcher, s: seq<string>, state: string, chunk: nat)
    ensures ExtractionQueries(fetch, s + [state], chunk) == ExtractionQueries(fetch, s, chunk) + StateQueries(fetch, state, chunk)
  {
    assert (s + [state])[..|s|] == s;
  }

  /** The result of a run over `a + b` is the result of a run over `a`
      followed by that of a run over `b`: states are processed in list order
      and none affects another. */
  lemma {:induction false} ExtractionAppend(fetch: Fetcher, a: seq<string>, b: seq<string>, chunk: nat, allow: seq<string>)
    ensures Extraction(fetch, a + b, chunk, allow) == Extraction(fetch, a, chunk, allow) + Extraction(fetch, b, chunk, allow)
    decreases |b|
  {
    if b == [] {
      assert a + b == a;
    } else {
      var init, last := b[..|b| - 1], b[|b| - 1];
      assert a + b == (a + init) + [last] && b == init + [last];
      ExtractionSnoc(fetch, a + init, last, chunk, allow);
      ExtractionSnoc(fetch, init, last, chunk, allow);
      ExtractionAppend(fetch, a, init, chunk, allow);
      ConcatAssoc(Extraction(fetch, a, chunk, allow), Extraction(fetch, init, chunk, allow), StateRecords(fetch, last, chunk, allow));
    }
  }

  /** The requests of a run over `a + b` are those of a run over `a`
      followed by those of a run over `b`. */
  lemma {:induction false} QueriesAppend(fetch: Fetcher, a: seq<string>, b: seq<string>, chunk: nat)
    ensures ExtractionQueries(fetch, a + b, chunk) == ExtractionQueries(fetch, a, chunk) + ExtractionQueries(fetch, b, chunk)
    decreases |b|
  {
    if b == [] {
      assert a + b == a;
    } else {
      var init, last := b[..|b| - 1], b[|b| - 1];
      assert a + b == (a + init) + [last] && b == init + [last];
      QueriesSnoc(fetch, a + init, last, chunk);
      QueriesSnoc(fetch, init, last, chunk);
      QueriesAppend(fetch, a, init, chunk);
      ConcatAssoc(ExtractionQueries(fetch, a, chunk), ExtractionQueries(fetch, init, chunk), StateQueries(fetch, last, chunk));
    }
  }

  /** Paging of a state ends exactly at its first page that fails, is empty
      or is short: that page is the last one requested, and nothing after it
      is requested or retained. */
  lemma StopsAtFirstEndingPage(fetch: Fetcher, state: string, chunk: nat, allow: seq<string>, i: nat)
    requires EndsPaging(PageAt(fetch, state, chunk, i), chunk)
    requires forall j | 0 <= j < i :: !EndsPaging(PageAt(fetch, state, chunk, j), chunk)
    ensures Finite(fetch, state, chunk) && LastPage(fetch, state, chunk) == i
    ensures StateQueries(fetch, state, chunk) == PageQueries(state, chunk, i + 1)
    ensures StateRecords(fetch, state, chunk, allow)
         == PagesRetained(fetch, state, chunk, allow, i) + Retained(PageAt(fetch, state, chunk, i), allow)
  {
  }

  /** With a positive page size, later pages are requested at larger offsets. */
  lemma {:induction false} OffsetsIncrease(i: nat, j: nat, chunk: nat)
    requires i < j && chunk > 0
    ensures Offset(i, chunk) < Offset(j, chunk)
    decreases j
  {
    if i < j - 1 {
      OffsetsIncrease(i, j - 1, chunk);
    }
  }

  /** The requests for one state are at offsets 0, chunk, 2*chunk, ...,
      strictly increasing when the page size is positive; each page before
      the last was full (a non-empty page of at least `chunk` rows) and the
      last one ended paging. */
  lemma PagingShape(fetch: Fetcher, state: string, chunk: nat)
    requires Finite(fetch, state, chunk)
    ensures var qs := StateQueries(fetch, state, chunk);
      && |qs| == LastPage(fetch, state, chunk) + 1
      && (forall i | 0 <= i < |qs| :: qs[i] == Query(state, i * chunk))
      && (chunk > 0 ==> forall i, j | 0 <= i < j < |qs| :: qs[i].offset < qs[j].offset)
      && (forall i | 0 <= i < |qs| - 1 ::
            PageAt(fetch, state, chunk, i).Page? && PageAt(fetch, state, chunk, i).rows != []
            && |PageAt(fetch, state, chunk, i).rows| >= chunk)
      && EndsPaging(PageAt(fetch, state, chunk, |qs| - 1), chunk)
  {
    var last := LastPage(fetch, state, chunk);
    var qs := StateQueries(fetch, state, chunk);
    forall i | 0 <= i < |qs| ensures qs[i] == Query(state, i * chunk) {
      PageQueryAt(state, chunk, |qs|, i);
      OffsetIsProduct(i, chunk);
    }
    if chunk > 0 {
      forall i, j | 0 <= i < j < |qs| ensures qs[i].offset < qs[j].offset {
        OffsetsIncrease(i, j, chunk);
      }
    }
    forall i | 0 <= i < last
      ensures PageAt(fetch, state, chunk, i).Page? && PageAt(fetch, state, chunk, i).rows != []
      ensures |PageAt(fetch, state, chunk, i).rows| >= chunk
    {
      assert !EndsPaging(PageAt(fetch, state, chunk, i), chunk);
    }
  }

  /** A run of one state whose request at page `i` fails or gives an empty
      page (after `i` full pages) keeps the records of those `i` pages and
      still runs every later state. */
  lemma FailureIsolation(fetch: Fetcher, before: seq<string>, state: string, after: seq<string>,
                         chunk: nat, allow: seq<string>, i: nat)
    requires PageAt(fetch, state, chunk, i).Failed? || PageAt(fetch, state, chunk, i).rows == []
    requires forall j | 0 <= j < i :: !EndsPaging(PageAt(fetch, state, chunk, j), chunk)
    ensures Extraction(fetch, before + [state] + after, chunk, allow)
         == Extraction(fetch, before, chunk, allow) + PagesRetained(fetch, state, chunk, allow, i)
            + Extraction(fetch, after, chunk, allow)
  {
    ExtractionAppend(fetch, before + [state], after, chunk, allow);
    ExtractionAppend(fetch, before, [state], chunk, allow);
    StopsAtFirstEndingPage(fetch, state, chunk, allow, i);
    assert [state][..0] == [];
    assert Extraction(fetch, [state], chunk, allow) == StateRecords(fetch, state, chunk, allow);
    assert StateRecords(fetch, state, chunk, allow) == PagesRetained(fetch, state, chunk, allow, i);
  }

  /** After a failed request or an empty page at page `i` of a state, no
      further request is issued for that state, and every later state is
      still requested. */
  lemma FailureIsolationQueries(fetch: Fetcher, before: seq<string>, state: string, after: seq<string>,
                                chunk: nat, i: nat)
    requires PageAt(fetch, state, chunk, i).Failed? || PageAt(fetch, state, chunk, i).rows == []
    requires forall j | 0 <= j < i :: !EndsPaging(PageAt(fetch, state, chunk, j), chunk)
    ensures ExtractionQueries(fetch, before + [state] + after, chunk)
         == ExtractionQueries(fetch, before, chunk) + PageQueries(state, chunk, i + 1)
            + ExtractionQueries(fetch, after, chunk)
  {
    QueriesAppend(fetch, before + [state], after, chunk);
    QueriesAppend(fetch, before, [state], chunk);
    StopsAtFirstEndingPage(fetch, state, chunk, [], i);
    assert [state][..0] == [];
    assert ExtractionQueries(fetch, [state], chunk) == StateQueries(fetch, state, chunk);
  }

  /** `n` records with no fields. */
  function BlankRows(n: nat): (rows: seq<Record>)
    ensures |rows| == n
  {
    seq(n, _ => [])
  }

  /** A source with pages of 1000, 1000, 1000 and 400 rows for every state. */
  function FourPageSource(state: string, offset: nat): Response
  {
    if offset < 3000 then Page(BlankRows(1000))
    else if offset == 3000 then Page(BlankRows(400))
    else Page([])
  }

  /** The first three pages of that source are full and the fourth is short. */
  lemma FourPagesStop(state: string)
    ensures forall j | 0 <= j < 3 :: !EndsPaging(PageAt(FourPageSource, state, 1000, j), 1000)
    ensures EndsPaging(PageAt(FourPageSource, state, 1000, 3), 1000)
  {
    forall j | 0 <= j < 3 ensures !EndsPaging(PageAt(FourPageSource, state, 1000, j), 1000) {
      OffsetsIncrease(j, 3, 1000);
      OffsetIsProduct(3, 1000);
    }
    OffsetIsProduct(3, 1000);
  }

  /** The first four requests for a state, written out. */
  lemma FirstFourQueries(state: string, chunk: nat)
    ensures PageQueries(state, chunk, 4)
         == [Query(state, 0), Query(state, chunk), Query(state, 2 * chunk), Query(state, 3 * chunk)]
  {
    var qs := PageQueries(state, chunk, 4);
    forall i | 0 <= i < 4 ensures qs[i] == Query(state, i * chunk) {
      PageQueryAt(state, chunk, 4, i);
      OffsetIsProduct(i, chunk);
    }
  }

  /** With page sizes 1000, 1000, 1000, 400 and a page size of 1000, exactly
      four requests are issued, at offsets 0, 1000, 2000 and 3000: the short
      page ends paging without a further request for an empty page. */
  lemma FourPagesExample(state: string)
    ensures Finite(FourPageSource, state, 1000)
    ensures StateQueries(FourPageSource, state, 1000)
         == [Query(state, 0), Query(state, 1000), Query(state, 2000), Query(state, 3000)]
  {
    FourPagesStop(state);
    StopsAtFirstEndingPage(FourPageSource, state, 1000, [], 3);
    FirstFourQueries(state, 1000);
  }
}
