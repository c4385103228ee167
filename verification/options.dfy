/** The optional value used for attributes that may be absent and for clicks
    that may or may not request a page. */
module Options {

  datatype Option<T> = None | Some(value: T)

  /** The value held by `o`, or `fallback` when `o` holds none; this is the
      `??` of the component's attribute reads. */
  function ValueOr<T>(o: Option<T>, fallback: T): (r: T)
    ensures o.Some? ==> r == o.value
    ensures o.None? ==> r == fallback
  {
    if o.Some? then o.value else fallback
  }

  /** The values held by `o`, as a list of zero or one elements. */
  function ToSeq<T>(o: Option<T>): (r: seq<T>)
    ensures |r| <= 1
    ensures o.Some? ==> r == [o.value]
    ensures o.None? <==> r == []
  {
    if o.Some? then [o.value] else []
  }
}
