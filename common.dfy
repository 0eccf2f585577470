/**
 * Shared vocabulary of the model: optional values, the response envelope that
 * every endpoint returns, SQL-style paging and Python's rendering of numbers.
 */
module Common {

  datatype Option<T> = None | Some(value: T)

  /**
   * What an endpoint hands back to its client.
   * `Ok` and `Refused` are the envelope {success, data, error} with success
   * true and false; `Raised` is an HTTPException with its status code (an
   * unhandled Python error is surfaced the same way, with status 500).
   */
  datatype Reply<T> =
    | Ok(data: T)
    | Refused(error: string)
    | Raised(status: nat, detail: string)

  function Min(a: int, b: int): int
  {
    if a < b then a else b
  }

  /** `query.offset(skip).limit(limit)`: the rows at positions skip, skip + 1, ... that exist, at most `limit` of them. */
  function Page<T>(s: seq<T>, skip: nat, limit: nat): (r: seq<T>)
    ensures |r| == if skip >= |s| then 0 else Min(limit, |s| - skip)
    ensures forall k :: 0 <= k < |r| ==> r[k] == s[skip + k]
  {
    if skip >= |s| then [] else s[skip .. skip + Min(limit, |s| - skip)]
  }

  function Digit(d: nat): (c: char)
    requires d < 10
    ensures '0' <= c <= '9'
  {
    ('0' as int + d) as char
  }

  /** Python's `str(n)` for a non-negative integer: its decimal digits, most significant first. */
  function NatToString(n: nat): (s: string)
    ensures 1 <= |s|
    ensures forall i :: 0 <= i < |s| ==> '0' <= s[i] <= '9'
    ensures n < 10 <==> |s| == 1
  {
    if n < 10 then [Digit(n)] else NatToString(n / 10) + [Digit(n % 10)]
  }

  /** Python's `str(i)` for any integer. */
  function IntToString(i: int): (s: string)
    ensures i < 0 <==> (|s| > 0 && s[0] == '-')
  {
    if i < 0 then "-" + NatToString(-i) else NatToString(i)
  }

  /** Python's f-string rendering of an optional value: the value itself, or "None". */
  function OptionalText(o: Option<string>): string
  {
    if o.Some? then o.value else "None"
  }

  function OptionalInt(o: Option<int>): string
  {
    if o.Some? then IntToString(o.value) else "None"
  }

  /** Python truthiness of an optional string: present and nonempty. */
  predicate TruthyText(o: Option<string>)
  {
    o.Some? && o.value != ""
  }

  /** Python truthiness of an optional integer: present and nonzero. */
  predicate TruthyInt(o: Option<int>)
  {
    o.Some? && o.value != 0
  }
}
