/** Values shared by the modules: an optional value, the handful of Python
    values the guard clauses distinguish, and bytes. */
module Values {

  datatype Option<+T> = None | Some(value: T)

  /** A Python argument as the guard clauses see it: `None`, a `str`, or any
      other object (for which `type(x) is not str` holds). */
  datatype PyValue = PNone | PStr(s: string) | POther

  /** A `str | None` result handed on to the next stage as a Python value. */
  function FromOption(o: Option<string>): (v: PyValue)
    ensures v.PStr? <==> o.Some?
    ensures o.Some? ==> v.s == o.value
    ensures !v.POther?
  {
    match o
    case None => PNone
    case Some(s) => PStr(s)
  }

  /** One element of a Python `bytes` object. */
  type Byte = x: int | 0 <= x < 256

  predicate StartsWith<T(==)>(s: seq<T>, prefix: seq<T>) {
    |prefix| <= |s| && s[..|prefix|] == prefix
  }
}
