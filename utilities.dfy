/** Small helpers: an enum-like object whose every key names itself, and an array copy. */
module Utilities {

  /** `strEnum(o)`: `o.reduce((res, key) => { res[key] = key; return res; }, Object.create(null))`.
      The accumulator starts with no keys at all, inherited ones included. */
  method StrEnum(o: seq<string>) returns (res: map<string, string>)
    ensures res.Keys == set k | k in o
    ensures forall k :: k in res ==> res[k] == k
  {
    res := map[];
    var n := 0;
    while n < |o|
      invariant 0 <= n <= |o|
      invariant res.Keys == set k | k in o[..n]
      invariant forall k :: k in res ==> res[k] == k
    {
      assert o[..n + 1] == o[..n] + [o[n]];
      res := res[o[n] := o[n]];
      n := n + 1;
    }
    assert o[..n] == o;
  }

  /** `copy(arr)`: `arr.map((i) => i)`. */
  function Copy(arr: seq<string>): (r: seq<string>)
    ensures |r| == |arr|
    ensures forall i :: 0 <= i < |arr| ==> r[i] == arr[i]
  {
    seq(|arr|, i requires 0 <= i < |arr| => arr[i])
  }
}
