/**
 * Offset pagination against the CRM query endpoint. A source is the
 * sequence of answers it gives to requests at offsets 0, 200, 400, ...;
 * a request past the end of that sequence gets an empty page with
 * `more_records` false. `PageFailed` is a request that threw.
 *
 * The sync modules use two loop shapes:
 * - `while (hasMoreRecords)` (cities, attributes, project states) keeps
 *   every page's data and stops after a page whose `more_records` is false;
 * - `while (more)` with `if (!data.length) break` (projects, mega projects)
 *   also stops at the first empty page.
 */
module Pager {

  const PageSize: nat := 200

  datatype Page<T> = Page(data: seq<T>, more: bool) | PageFailed

  /** The answer to the request with the given index. */
  function PageAt<T>(pages: seq<Page<T>>, i: nat): Page<T> {
    if i < |pages| then pages[i] else Page([], false)
  }

  /** What a loop collected, how many requests it sent, and whether the last one threw. */
  datatype Drained<T> = Drained(records: seq<T>, requests: nat, failed: bool)

  /** `while (hasMoreRecords)` from request `i` on. */
  function DrainWhileMore<T>(pages: seq<Page<T>>, i: nat): (d: Drained<T>)
    ensures d.requests >= 1
    decreases |pages| - i
  {
    if i >= |pages| then Drained([], 1, false)
    else
      match pages[i]
      case PageFailed => Drained([], 1, true)
      case Page(data, more) =>
        if more then
          var rest := DrainWhileMore(pages, i + 1);
          Drained(data + rest.records, rest.requests + 1, rest.failed)
        else Drained(data, 1, false)
  }

  /** `while (more)` with a break on an empty page, from request `i` on. */
  function DrainUntilEmpty<T>(pages: seq<Page<T>>, i: nat): (d: Drained<T>)
    ensures d.requests >= 1
    decreases |pages| - i
  {
    if i >= |pages| then Drained([], 1, false)
    else
      match pages[i]
      case PageFailed => Drained([], 1, true)
      case Page(data, more) =>
        if |data| == 0 then Drained([], 1, false)
        else if more then
          var rest := DrainUntilEmpty(pages, i + 1);
          Drained(data + rest.records, rest.requests + 1, rest.failed)
        else Drained(data, 1, false)
  }

  /** The data of the answers to requests `from` up to (not including) `to`. */
  function DataOf<T>(pages: seq<Page<T>>, from: nat, to: nat): seq<T>
    decreases to - from
  {
    if from >= to then []
    else (match PageAt(pages, from) case Page(data, _) => data case PageFailed => []) + DataOf(pages, from + 1, to)
  }

  /**
   * `while (hasMoreRecords)` sends requests until the first answer that
   * threw or has `more_records` false, and collects the data of every
   * answer it received, empty pages included.
   */
  lemma {:induction false} DrainWhileMoreStops<T>(pages: seq<Page<T>>, i: nat)
    ensures var d := DrainWhileMore(pages, i);
      && (forall j :: i <= j < i + d.requests - 1 ==> PageAt(pages, j).Page? && PageAt(pages, j).more)
      && (PageAt(pages, i + d.requests - 1).PageFailed? || !PageAt(pages, i + d.requests - 1).more)
      && (d.failed <==> PageAt(pages, i + d.requests - 1).PageFailed?)
      && d.records == DataOf(pages, i, i + d.requests)
    decreases |pages| - i
  {
    var d := DrainWhileMore(pages, i);
    if i < |pages| && pages[i].Page? && pages[i].more {
      DrainWhileMoreStops(pages, i + 1);
    }
  }

  /**
   * The `while (more)` loop stops at the first answer that threw, is
   * empty, or has `more_records` false; every answer before it had data
   * and `more_records` true.
   */
  lemma {:induction false} DrainUntilEmptyStops<T>(pages: seq<Page<T>>, i: nat)
    ensures var d := DrainUntilEmpty(pages, i);
      var last := PageAt(pages, i + d.requests - 1);
      && (forall j :: i <= j < i + d.requests - 1 ==>
            PageAt(pages, j).Page? && PageAt(pages, j).more && |PageAt(pages, j).data| > 0)
      && (last.PageFailed? || !last.more || |last.data| == 0)
      && (d.failed <==> last.PageFailed?)
      && d.records == DataOf(pages, i, i + d.requests)
    decreases |pages| - i
  {
    if i < |pages| && pages[i].Page? && |pages[i].data| > 0 && pages[i].more {
      DrainUntilEmptyStops(pages, i + 1);
    }
  }

  /**
   * The `while (hasMoreRecords)` loop as written, with its requested
   * offsets: request `k` asks for offset `(page - 1) * 200` with
   * `page == k + 1`, and the loop ends for every finite source.
   */
  method FetchWhileMore<T>(pages: seq<Page<T>>) returns (records: seq<T>, offsets: seq<nat>, failed: bool)
    ensures DrainWhileMore(pages, 0) == Drained(records, |offsets|, failed)
    ensures forall k :: 0 <= k < |offsets| ==> offsets[k] == k * PageSize
  {
    records := [];
    offsets := [];
    failed := false;
    var page: nat := 1;
    var hasMore := true;
    while hasMore
      invariant page >= 1
      invariant hasMore ==> page - 1 <= |pages| && |offsets| == page - 1 && !failed
      invariant forall k :: 0 <= k < |offsets| ==> offsets[k] == k * PageSize
      invariant hasMore ==>
        var rest := DrainWhileMore(pages, page - 1);
        DrainWhileMore(pages, 0) == Drained(records + rest.records, |offsets| + rest.requests, rest.failed)
      invariant !hasMore ==> DrainWhileMore(pages, 0) == Drained(records, |offsets|, failed)
      decreases if hasMore then |pages| + 2 - page else 0
    {
      offsets := offsets + [(page - 1) * PageSize];
      var answer := PageAt(pages, page - 1);
      match answer
      case PageFailed =>
        failed := true;
        hasMore := false;
      case Page(data, more) =>
        records := records + data;
        hasMore := more;
        if hasMore {
          page := page + 1;
        }
    }
  }

  /**
   * The `while (more)` loop of the projects and mega-projects syncs:
   * `offset` starts at 0 and grows by 200 after every non-empty page.
   */
  method FetchUntilEmpty<T>(pages: seq<Page<T>>) returns (records: seq<T>, offsets: seq<nat>, failed: bool)
    ensures DrainUntilEmpty(pages, 0) == Drained(records, |offsets|, failed)
    ensures forall k :: 0 <= k < |offsets| ==> offsets[k] == k * PageSize
  {
    records := [];
    offsets := [];
    failed := false;
    var offset: nat := 0;
    var more := true;
    while more
      invariant more ==> offset == |offsets| * PageSize && |offsets| <= |pages| && !failed
      invariant forall k :: 0 <= k < |offsets| ==> offsets[k] == k * PageSize
      invariant more ==>
        var rest := DrainUntilEmpty(pages, |offsets|);
        DrainUntilEmpty(pages, 0) == Drained(records + rest.records, |offsets| + rest.requests, rest.failed)
      invariant !more ==> DrainUntilEmpty(pages, 0) == Drained(records, |offsets|, failed)
      decreases if more then |pages| + 1 - |offsets| else 0
    {
      var answer := PageAt(pages, |offsets|);
      offsets := offsets + [offset];
      match answer
      case PageFailed =>
        failed := true;
        more := false;
      case Page(data, hasMore) =>
        if |data| == 0 {
          more := false;
        } else {
          records := records + data;
          more := hasMore;
          offset := offset + PageSize;
        }
    }
  }
}
