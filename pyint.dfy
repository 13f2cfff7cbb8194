/** Python's integer built-ins that several parts of the model share. */
module PyInt {

  /** `abs(n)`. */
  function Abs(n: int): (r: nat)
    ensures r == n || r == -n
  {
    if n < 0 then -n else n
  }
}
