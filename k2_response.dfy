/**
 * The uniform response envelopes of the K2 SmartObject interface (`K2Response<T>` and
 * `K2ListResponse<T>`): status code 0 means success, anything else an error.
 */
module K2Responses {
  import opened Wrappers

  const SuccessCode: int := 0
  const DefaultErrorCode: int := 1
  const DefaultSuccessMessage: string := "Success"

  /**
   * `K2Response<T>`. `data` is `None` where the source leaves `Data` at `default`;
   * `totalRecords` is the nullable `TotalRecords`.
   */
  datatype K2Response<T> = K2Response(statusCode: int, message: string, data: Option<T>, totalRecords: Option<int>)

  /** The envelope reports success. */
  predicate IsSuccess<T>(r: K2Response<T>) {
    r.statusCode == SuccessCode
  }

  /** `K2Response<T>.Success(data, message = "Success")`. */
  function Success<T>(data: T, message: string := DefaultSuccessMessage): (r: K2Response<T>)
    ensures IsSuccess(r) && r.data == Some(data) && r.message == message
    ensures r.totalRecords == None
  {
    K2Response(SuccessCode, message, Some(data), None)
  }

  /** `K2Response<T>.Success(data, totalRecords, message = "Success")`: the paginated overload. */
  function PagedSuccess<T>(data: T, totalRecords: int, message: string := DefaultSuccessMessage): (r: K2Response<T>)
    ensures IsSuccess(r) && r.data == Some(data) && r.message == message
    ensures r.totalRecords == Some(totalRecords)
  {
    K2Response(SuccessCode, message, Some(data), Some(totalRecords))
  }

  /** The paginated success is the plain success with the record count filled in. */
  lemma PagedSuccessExtendsSuccess<T>(data: T, totalRecords: int, message: string)
    ensures PagedSuccess(data, totalRecords, message) == Success(data, message).(totalRecords := Some(totalRecords))
  {
  }

  /** `K2Response<T>.Error(statusCode, message)`: no data, whatever the code. */
  function Error<T>(statusCode: int, message: string): (r: K2Response<T>)
    ensures r.statusCode == statusCode && r.message == message
    ensures r.data == None && r.totalRecords == None
    ensures IsSuccess(r) <==> statusCode == SuccessCode
  {
    K2Response(statusCode, message, None, None)
  }

  /** `K2Response<T>.Error(message)`: an error with the default code 1, which never reads as success. */
  function DefaultError<T>(message: string): (r: K2Response<T>)
    ensures r == Error(DefaultErrorCode, message)
    ensures r.statusCode == DefaultErrorCode && !IsSuccess(r)
    ensures r.message == message && r.data == None && r.totalRecords == None
  {
    Error(DefaultErrorCode, message)
  }

  /** Success and error envelopes are told apart by the status code alone, unless the error code is 0. */
  lemma SuccessAndErrorDiffer<T>(data: T, code: int, message: string, errorMessage: string)
    requires code != SuccessCode
    ensures Success(data, message) != Error(code, errorMessage)
    ensures IsSuccess(Success(data, message)) && !IsSuccess(Error<T>(code, errorMessage))
  {
  }

  /** `K2ListResponse<T>`: a page of items with paging information. */
  datatype K2ListResponse<T> = K2ListResponse(
    statusCode: int, message: string, items: seq<T>,
    totalRecords: int, pageNumber: int, pageSize: int)

  const DefaultPageNumber: int := 1
  const DefaultPageSize: int := 10

  /**
   * `TotalPages`: the number of pages of `pageSize` records needed for `totalRecords`
   * records (the ceiling of their quotient), and 0 when the page size is not positive.
   */
  function TotalPages<T>(r: K2ListResponse<T>): (pages: int)
    ensures r.pageSize <= 0 ==> pages == 0
    ensures r.pageSize > 0 ==> (pages - 1) * r.pageSize < r.totalRecords <= pages * r.pageSize
    ensures r.pageSize > 0 && r.totalRecords >= 0 ==> 0 <= pages <= r.totalRecords
  {
    if r.pageSize > 0 then CeilDiv(r.totalRecords, r.pageSize) else 0
  }

  /** Integer ceiling division for a positive divisor. */
  function CeilDiv(n: int, d: int): (q: int)
    requires d > 0
    ensures (q - 1) * d < n <= q * d
    ensures n >= 0 ==> 0 <= q <= n
  {
    CeilDivBounds(n, d);
    (n + d - 1) / d
  }

  /** Rounding `n + d - 1` down to a multiple of `d` rounds `n` up. */
  lemma CeilDivBounds(n: int, d: int)
    requires d > 0
    ensures ((n + d - 1) / d - 1) * d < n <= ((n + d - 1) / d) * d
    ensures n >= 0 ==> 0 <= (n + d - 1) / d <= n
  {
    var m := n + d - 1;
    var q := m / d;
    var r := m % d;
    assert m == q * d + r && 0 <= r < d;
    assert (q - 1) * d == q * d - d;
    if n >= 0 {
      MulMonotone(1, d, n);
      assert m < (n + 1) * d;
      CancelFactor(q, n + 1, d);
    }
  }

  /** A positive factor can be cancelled from a strict inequality. */
  lemma CancelFactor(a: int, b: int, c: int)
    requires c > 0 && a * c < b * c
    ensures a < b
  {
    assert (b - a) * c == b * c - a * c;
  }

  /** Multiplying by a non-negative factor preserves order. */
  lemma MulMonotone(a: int, b: int, c: int)
    requires a <= b && c >= 0
    ensures a * c <= b * c
  {
    assert b * c - a * c == (b - a) * c;
  }

  /** `K2ListResponse<T>.Success(items, totalRecords, pageNumber = 1, pageSize = 10, message = "Success")`. */
  function ListSuccess<T>(items: seq<T>, totalRecords: int, pageNumber: int := DefaultPageNumber,
                          pageSize: int := DefaultPageSize, message: string := DefaultSuccessMessage)
    : (r: K2ListResponse<T>)
    ensures r.statusCode == SuccessCode && r.message == message && r.items == items
    ensures r.totalRecords == totalRecords && r.pageNumber == pageNumber && r.pageSize == pageSize
  {
    K2ListResponse(SuccessCode, message, items, totalRecords, pageNumber, pageSize)
  }

  /** With the default page size, n records fill ceil(n / 10) pages. */
  lemma DefaultPaging<T>(items: seq<T>, totalRecords: int)
    requires totalRecords >= 0
    ensures TotalPages(ListSuccess(items, totalRecords)) * 10 >= totalRecords
    ensures TotalPages(ListSuccess(items, totalRecords)) * 10 < totalRecords + 10
    ensures ListSuccess(items, totalRecords).pageNumber == 1
  {
  }

  /** `K2ListResponse<T>.Error(statusCode, message)`: no items, no records, and paging fields at 0. */
  function ListError<T>(statusCode: int, message: string): (r: K2ListResponse<T>)
    ensures r.statusCode == statusCode && r.message == message
    ensures r.items == [] && r.totalRecords == 0
    ensures TotalPages(r) == 0
  {
    K2ListResponse(statusCode, message, [], 0, 0, 0)
  }
}
