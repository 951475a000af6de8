/** Types every component shares. */
module Common {
  datatype Option<+V> = None | Some(value: V)

  type Byte = b: nat | b < 256 witness 0

  const M32: nat := 0x1_0000_0000

  const M64: nat := 0x1_0000_0000_0000_0000

  function Zeros(n: nat): (z: seq<Byte>)
    ensures |z| == n && forall i :: 0 <= i < n ==> z[i] == 0
  {
    seq(n, _ => 0)
  }
}
