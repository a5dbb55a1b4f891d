/**
 * The generic service every entity service builds on: listing, pagination,
 * lookup by id and deletion by id, over a table given as the sequence of its
 * rows in store order, with `idOf` reading an entity's primary key.
 */
module BaseService {
  import opened Wrappers
  import opened Errors
  import opened Seqs

  const DEFAULT_PAGE: nat := 1
  const DEFAULT_LIMIT: nat := 10

  datatype PageMeta = PageMeta(
    itemCount: nat,
    totalItems: nat,
    perPage: nat,
    totalPages: nat,
    currentPage: nat)

  datatype Paginated<T> = Paginated(items: seq<T>, meta: PageMeta)

  /** `Math.ceil(a / b)`: the least q with q * b >= a. */
  function CeilDiv(a: nat, b: nat): (q: nat)
    requires b > 0
    ensures q * b >= a
    ensures q == 0 || (q - 1) * b < a
  {
    var q := (a + b - 1) / b;
    assert q * b <= a + b - 1 < q * b + b;
    q
  }

  function Min(a: nat, b: nat): nat { if a <= b then a else b }

  /** The number of rows skipped before a page: `(page - 1) * limit`. */
  function Offset(page: nat, limit: nat): nat
    requires page >= 1
  {
    (page - 1) * limit
  }

  /** At most `limit` elements of s starting at `offset` (SQL `LIMIT`/`OFFSET`). */
  function Window<T>(s: seq<T>, offset: nat, limit: nat): (w: seq<T>)
    ensures |w| == if offset >= |s| then 0 else Min(limit, |s| - offset)
    ensures forall k :: 0 <= k < |w| ==> w[k] == s[offset + k]
  {
    if offset >= |s| then [] else s[offset..Min(offset + limit, |s|)]
  }

  /** `list`: the rows the condition selects. */
  function List<T(!new)>(rows: seq<T>, where: T -> bool): (r: seq<T>)
    ensures forall x :: x in r <==> x in rows && where(x)
  {
    Filter(rows, where)
  }

  /**
   * `paginate`: page and limit default to 1 and 10; the page is the window of
   * the selected rows at offset (page - 1) * limit, and the meta data counts
   * the page, the selection and the pages it spans.
   */
  function Paginate<T(!new)>(rows: seq<T>, where: T -> bool, page: Option<nat>, limit: Option<nat>): (r: Paginated<T>)
    requires page.None? || page.value >= 1
    requires limit.None? || limit.value >= 1
    ensures var p := if page.None? then DEFAULT_PAGE else page.value;
            var l := if limit.None? then DEFAULT_LIMIT else limit.value;
            var selected := List(rows, where);
            && r.meta.currentPage == p && r.meta.perPage == l
            && r.meta.totalItems == |selected|
            && r.meta.itemCount == |r.items| && |r.items| <= l
            && |r.items| == (if Offset(p, l) >= |selected| then 0 else Min(l, |selected| - Offset(p, l)))
            && (forall k :: 0 <= k < |r.items| ==> r.items[k] == selected[Offset(p, l) + k])
            && r.meta.totalPages * l >= r.meta.totalItems
            && (r.meta.totalPages == 0 || (r.meta.totalPages - 1) * l < r.meta.totalItems)
  {
    var p := if page.None? then DEFAULT_PAGE else page.value;
    var l := if limit.None? then DEFAULT_LIMIT else limit.value;
    var offset := Offset(p, l);
    var selected := List(rows, where);
    var items := Window(selected, offset, l);
    var totalItems := |selected|;
    Paginated(items, PageMeta(|items|, totalItems, l, CeilDiv(totalItems, l), p))
  }

  lemma MulMonotone(a: nat, b: nat, c: nat)
    requires a <= b
    ensures a * c <= b * c
  {
    assert b * c == a * c + (b - a) * c;
  }

  /** A page holds items exactly when its number is at most the page count. */
  lemma PageWithinCount<T(!new)>(rows: seq<T>, where: T -> bool, page: nat, limit: nat)
    requires page >= 1 && limit >= 1
    ensures var r := Paginate(rows, where, Some(page), Some(limit));
      |r.items| > 0 <==> page <= r.meta.totalPages
  {
    var r := Paginate(rows, where, Some(page), Some(limit));
    var total := r.meta.totalItems;
    var pages := r.meta.totalPages;
    var offset := Offset(page, limit);
    assert |r.items| > 0 <==> offset < total;
    if page <= pages {
      MulMonotone(page - 1, pages - 1, limit);
    } else {
      MulMonotone(pages, page - 1, limit);
    }
  }

  /** Two rows with limit 10 make one page; no rows make no page. */
  lemma PaginateExamples()
    ensures var r := Paginate<nat>([1, 2], (x: nat) => true, Some(1), Some(10));
      r.meta == PageMeta(2, 2, 10, 1, 1) && r.items == [1, 2]
    ensures var r := Paginate<nat>([], (x: nat) => true, Some(1), Some(10));
      r.meta == PageMeta(0, 0, 10, 0, 1) && r.items == []
  {
    var s := List<nat>([1, 2], (x: nat) => true);
    assert s == [1, 2] by {
      assert 1 in s && 2 in s && |s| <= 2;
    }
  }

  /** `detail`: the entity with that id; an absent id is a NotFound. */
  function Detail<T>(rows: seq<T>, idOf: T -> nat, id: nat): (r: Result<T, Failure>)
    ensures r.Ok? ==> r.value in rows && idOf(r.value) == id
    ensures r.Err? <==> forall i :: 0 <= i < |rows| ==> idOf(rows[i]) != id
    ensures r.Err? ==> r.error == NotFound(EntityMissing(id))
  {
    if |rows| == 0 then Err(NotFound(EntityMissing(id)))
    else if idOf(rows[0]) == id then Ok(rows[0])
    else
      var r := Detail(rows[1..], idOf, id);
      assert forall i :: 1 <= i < |rows| ==> rows[i] == rows[1..][i - 1];
      r
  }

  /** The table after `removeAndFlush` of the entity with that id: every other row, in order. */
  function Without<T(!new)>(rows: seq<T>, idOf: T -> nat, id: nat): (r: seq<T>)
    ensures forall x :: x in r <==> x in rows && idOf(x) != id
    ensures |r| <= |rows|
    ensures |r| < |rows| <==> exists i :: 0 <= i < |rows| && idOf(rows[i]) == id
    ensures DistinctKeys(rows, idOf) ==> DistinctKeys(r, idOf)
  {
    if |rows| == 0 then []
    else
      var rest := Without(rows[1..], idOf, id);
      assert forall i :: 1 <= i < |rows| ==> rows[i] == rows[1..][i - 1];
      assert rows == [rows[0]] + rows[1..];
      if idOf(rows[0]) == id then rest
      else
        var r := [rows[0]] + rest;
        assert DistinctKeys(rows, idOf) ==> DistinctKeys(r, idOf) by {
          if DistinctKeys(rows, idOf) {
            TailDistinct(rows, idOf);
            PrependDistinct(rows[0], rest, idOf);
          }
        }
        r
  }

  /** The rows after the first have distinct keys, none of them the first row's. */
  lemma TailDistinct<T>(rows: seq<T>, idOf: T -> nat)
    requires DistinctKeys(rows, idOf) && |rows| > 0
    ensures DistinctKeys(rows[1..], idOf)
    ensures forall x :: x in rows[1..] ==> idOf(x) != idOf(rows[0])
  {
    assert forall i :: 1 <= i < |rows| ==> rows[i] == rows[1..][i - 1];
  }

  /** A row whose key no other row has can be put in front. */
  lemma PrependDistinct<T>(x: T, rest: seq<T>, idOf: T -> nat)
    requires DistinctKeys(rest, idOf) && forall y :: y in rest ==> idOf(y) != idOf(x)
    ensures DistinctKeys([x] + rest, idOf)
  {
    var r := [x] + rest;
    assert forall i :: 1 <= i < |r| ==> r[i] == rest[i - 1];
  }

}
