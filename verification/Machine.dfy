/** The integer types of C, what its programs return where there may be nothing, and lists
    in which nothing stands twice. */
module Machine {

  datatype Option<+T> = None | Some(value: T)

  ghost predicate NoDup<T>(s: seq<T>) {
    forall i, j :: 0 <= i < j < |s| ==> s[i] != s[j]
  }

  type Byte = b: int | 0 <= b < 256

  function Max(a: int, b: int): int {
    if a > b then a else b
  }

  predicate Int32(v: int) {
    -0x8000_0000 <= v < 0x8000_0000
  }

  predicate Int64(v: int) {
    -0x8000_0000_0000_0000 <= v < 0x8000_0000_0000_0000
  }

  /** Unsigned arithmetic of 32 and of 64 bits. */
  function Wrap32(n: int): nat {
    n % 0x1_0000_0000
  }

  function Wrap64(n: int): nat {
    n % 0x1_0000_0000_0000_0000
  }

  /** Conversion to the signed types: unchanged exactly where the value fits. */
  function Signed32(v: int): (r: int)
    ensures Int32(r) && (Int32(v) <==> r == v)
  {
    (v + 0x8000_0000) % 0x1_0000_0000 - 0x8000_0000
  }

  function Signed64(v: int): (r: int)
    ensures Int64(r) && (Int64(v) <==> r == v)
  {
    (v + 0x8000_0000_0000_0000) % 0x1_0000_0000_0000_0000 - 0x8000_0000_0000_0000
  }
}
