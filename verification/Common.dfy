/** Small definitions shared by the models. */
module Common {
  datatype Option<+T> = None | Some(value: T)

  /** An octet of a Node `Buffer`. */
  newtype byte = x: int | 0 <= x < 256

  type Bytes = seq<byte>

  datatype ConnectivityState = IDLE | CONNECTING | READY | TRANSIENT_FAILURE | SHUTDOWN

  /** EndpointMap tells endpoints apart by their addresses, in any order. */
  datatype EndpointKey = EndpointKey(addresses: set<string>)

  function Min(a: int, b: int): int { if a <= b then a else b }

  /** `Array.prototype.slice(start)`: a negative `start` counts from the end. */
  function JsSlice<T>(s: seq<T>, start: int): seq<T> {
    if start >= |s| then []
    else if start >= 0 then s[start..]
    else if -start >= |s| then s
    else s[|s| + start..]
  }

  ghost predicate Distinct<T>(s: seq<T>) {
    forall i, j | 0 <= i < j < |s| :: s[i] != s[j]
  }
}
