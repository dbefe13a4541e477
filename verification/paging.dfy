/** Offset paging as the item and request services set it up: missing
    parameters default to `from = 0` and `size = 10`, both are validated, and
    the offset `from` is turned into the page number `from / size`. */
module Paging {
  import opened Common

  /** Spring Data's `PageRequest.of(page, size)`. */
  datatype PageRequest = PageRequest(page: nat, size: nat)

  const DefaultFrom := 0
  const DefaultSize := 10

  /** `validatePaginationParameters`: a negative offset is reported before a
      non-positive page size. */
  function ValidatePaginationParameters(from: int, size: int): (r: Outcome)
    ensures r.Pass? <==> from >= 0 && size > 0
    ensures from < 0 ==> r == Fail(Validation(NegativeFrom))
    ensures from >= 0 && size <= 0 ==> r == Fail(Validation(NonPositiveSize))
  {
    if from < 0 then Fail(Validation(NegativeFrom))
    else if size <= 0 then Fail(Validation(NonPositiveSize))
    else Pass
  }

  /** The page request for an offset `from` and a page length `size` that
      are already known to be valid: the page that contains offset `from`.
      Java's truncating `/` and Dafny's `/` agree on these operands. */
  function PageContaining(from: int, size: int): (r: PageRequest)
    requires from >= 0 && size > 0
    ensures r.size == size
    ensures r.page * size <= from < (r.page + 1) * size
  {
    PageRequest(from / size, size)
  }

  /** `createPageable`: fills in the defaults, validates, and returns the page
      that contains offset `from`. */
  function CreatePageable(from: Option<int>, size: Option<int>): (r: Result<PageRequest>)
    ensures r.Ok? <==> from.GetOr(DefaultFrom) >= 0 && size.GetOr(DefaultSize) > 0
    ensures from.GetOr(DefaultFrom) < 0 ==> r == Err(Validation(NegativeFrom))
    ensures from.GetOr(DefaultFrom) >= 0 && size.GetOr(DefaultSize) <= 0 ==>
              r == Err(Validation(NonPositiveSize))
    ensures r.Ok? ==> r.value.size == size.GetOr(DefaultSize)
    ensures r.Ok? ==> r.value.page * r.value.size <= from.GetOr(DefaultFrom) < (r.value.page + 1) * r.value.size
  {
    var f := from.GetOr(DefaultFrom);
    var s := size.GetOr(DefaultSize);
    match ValidatePaginationParameters(f, s)
    case Fail(e) => Err(e)
    case Pass => Ok(PageContaining(f, s))
  }

  /** Without parameters the first ten rows are requested. */
  lemma DefaultPage()
    ensures CreatePageable(None, None) == Ok(PageRequest(0, 10))
  {
  }

  /** Offsets alias to the page that contains them: every `from` in
      `[k * size, (k + 1) * size)` selects page `k`. */
  lemma PageAliasing(from: int, size: int, k: nat)
    requires size > 0
    requires k * size <= from < (k + 1) * size
    ensures CreatePageable(Some(from), Some(size)) == Ok(PageRequest(k, size))
  {
    var r := CreatePageable(Some(from), Some(size));
    assert 0 <= k * size;
    var p := r.value.page;
    if p < k {
      assert (p + 1) * size <= k * size by {
        MulMonotone(p + 1, k, size);
      }
    } else if p > k {
      assert (k + 1) * size <= p * size by {
        MulMonotone(k + 1, p, size);
      }
    }
  }

  /** The offset of the first row of page `k` selects page `k`. */
  lemma OffsetOfPage(k: nat, size: int)
    requires size > 0
    ensures k * size >= 0
    ensures PageContaining(k * size, size).page == k
  {
    assert k * size >= 0 by {
      MulMonotone(0, k, size);
    }
    assert (k + 1) * size == k * size + size;
    PageAliasing(k * size, size, k);
  }

  lemma MulMonotone(a: nat, b: nat, c: nat)
    requires a <= b
    ensures a * c <= b * c
  {
  }
}
