/**
 * Pages of an ordered query result and the page-size guard shared by every
 * list operation: a size below the accepted minimum still yields a page of
 * 10 rows, carried by PageSizeTooSmall; a size above 50 yields a page of 50
 * rows, carried by PageSizeTooLarge; any other size is used as given.
 */
module Paging {
  import opened Entities
  import opened Errors

  const DefaultPageSize: int := 10
  const MaxPageSize: int := 50

  /** Page `number` of a result when every page holds `size` rows. */
  datatype Page<T> = Page(number: nat, size: nat, content: seq<T>)

  /** The rows on page `number` of `rows` when pages hold `size` rows (OFFSET number * size LIMIT size). */
  function Slice<T>(rows: seq<T>, number: nat, size: nat): (r: seq<T>)
    ensures |r| <= size
    ensures forall k :: 0 <= k < |r| ==> number * size + k < |rows| && r[k] == rows[number * size + k]
    ensures number * size + size <= |rows| ==> |r| == size
  {
    var start := number * size;
    if start >= |rows| then []
    else rows[start .. if start + size <= |rows| then start + size else |rows|]
  }

  /** Position `k` of page `number` is row `number * size + k` of the result, when that row exists. */
  lemma SliceAt<T>(rows: seq<T>, number: nat, size: nat, k: nat)
    requires k < size && number * size + k < |rows|
    ensures k < |Slice(rows, number, size)| && Slice(rows, number, size)[k] == rows[number * size + k]
  {
  }

  /** Every row of a result appears on page `i / size`, at position `i % size`. */
  lemma EveryRowOnItsPage<T>(rows: seq<T>, size: nat, i: nat)
    requires size >= 1 && i < |rows|
    ensures i % size < |Slice(rows, i / size, size)|
    ensures Slice(rows, i / size, size)[i % size] == rows[i]
  {
    assert (i / size) * size + i % size == i;
    SliceAt(rows, i / size, size, i % size);
  }

  /** Spring Data's PageRequest.of(number, size) applied to an ordered result. */
  function PageOf<T>(rows: seq<T>, number: int, size: int): (r: Result<Page<T>>)
    ensures r.Ok? <==> number >= 0 && size >= 1
    ensures r.Err? ==> r.error == InvalidPageRequest
    ensures r.Ok? ==> r.value.number == number && r.value.size == size
    ensures r.Ok? ==> r.value.content == Slice(rows, number, size)
  {
    if number < 0 || size < 1 then Err(InvalidPageRequest)
    else Ok(Page(number, size, Slice(rows, number, size)))
  }

  /**
   * The page-size guard: sizes below `smallest` fall back to 10 rows and
   * report PageSizeTooSmall, sizes above 50 fall back to 50 rows and report
   * PageSizeTooLarge; the fallback page is built before the error is raised.
   */
  function Paginate<T>(rows: seq<T>, number: int, size: int, smallest: int): (r: Result<Page<T>>)
    ensures number < 0 ==> r == Err(InvalidPageRequest)
    ensures number >= 0 && size < smallest ==>
      r == Err(PageSizeTooSmall(Page(number, DefaultPageSize, Slice(rows, number, DefaultPageSize))))
    ensures number >= 0 && smallest <= size && size > MaxPageSize ==>
      r == Err(PageSizeTooLarge(Page(number, MaxPageSize, Slice(rows, number, MaxPageSize))))
    ensures number >= 0 && smallest <= size && 1 <= size <= MaxPageSize ==>
      r == Ok(Page(number, size, Slice(rows, number, size)))
    ensures number >= 0 && smallest <= size < 1 ==> r == Err(InvalidPageRequest)
    ensures r.Err? ==> r.error.InvalidPageRequest? || r.error.PageSizeTooSmall? || r.error.PageSizeTooLarge?
  {
    if size < smallest then
      var p := PageOf(rows, number, DefaultPageSize);
      if p.Ok? then Err(PageSizeTooSmall(p.value)) else Err(InvalidPageRequest)
    else if size > MaxPageSize then
      var p := PageOf(rows, number, MaxPageSize);
      if p.Ok? then Err(PageSizeTooLarge(p.value)) else Err(InvalidPageRequest)
    else
      PageOf(rows, number, size)
  }

  /** The page a guarded list operation hands back, whether as its result or as its error's payload. */
  function Delivered<T>(r: Result<Page<T>>): (d: Option<Page<T>>)
  {
    if r.Ok? then Some(r.value)
    else if r.error.PageSizeTooSmall? || r.error.PageSizeTooLarge? then Some(r.error.payload)
    else None
  }

  /** A page holds only rows of the result. */
  lemma SliceFromRows<T>(rows: seq<T>, number: nat, size: nat)
    ensures forall x :: x in Slice(rows, number, size) ==> x in rows
  {
    var s := Slice(rows, number, size);
    forall x | x in s ensures x in rows {
      var k :| 0 <= k < |s| && s[k] == x;
    }
  }

  /**
   * Whatever size is asked for, a valid page index always gets a page back,
   * holding between 1 and 50 rows per page, and only rows of the result.
   */
  lemma PaginateAlwaysDelivers<T>(rows: seq<T>, number: int, size: int, smallest: int)
    requires number >= 0 && smallest >= 1
    ensures Delivered(Paginate(rows, number, size, smallest)).Some?
    ensures var p := Delivered(Paginate(rows, number, size, smallest)).value;
      1 <= p.size <= MaxPageSize && |p.content| <= p.size && p.number == number &&
      forall x :: x in p.content ==> x in rows
  {
    SliceFromRows(rows, number, Delivered(Paginate(rows, number, size, smallest)).value.size);
  }

  /** Whatever page a guarded list operation hands back holds only rows of the ordered result. */
  lemma DeliveredFromRows<T>(rows: seq<T>, number: int, size: int, smallest: int)
    ensures var d := Delivered(Paginate(rows, number, size, smallest));
      d.Some? ==> d.value.size <= MaxPageSize && forall x :: x in d.value.content ==> x in rows
  {
    var d := Delivered(Paginate(rows, number, size, smallest));
    if d.Some? {
      SliceFromRows(rows, number, d.value.size);
    }
  }
}
