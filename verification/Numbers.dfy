/** Exact real numbers: the larger, the smaller, the size, and counting in samples. */
module Numbers {
  function Min(a: real, b: real): (r: real)
    ensures r <= a && r <= b && (r == a || r == b)
  {
    if a <= b then a else b
  }

  function Max(a: real, b: real): (r: real)
    ensures r >= a && r >= b && (r == a || r == b)
  {
    if a <= b then b else a
  }

  function Abs(x: real): (r: real)
    ensures r >= 0.0 && (r == x || r == -x)
  {
    if x < 0.0 then -x else x
  }

  /** How many samples are not above the value. */
  function CountAtMost(samples: seq<real>, value: real): (n: nat)
    ensures n <= |samples|
  {
    if samples == [] then 0
    else CountAtMost(samples[..|samples| - 1], value) + if samples[|samples| - 1] <= value then 1 else 0
  }
}
