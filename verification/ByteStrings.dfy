/** Byte strings, as the std::string arguments of the codecs. */
module ByteStrings {

  type byte = x: nat | x < 256

  type Bytes = seq<byte>

  const CR: byte := 13

  function Zeros(n: nat): (z: Bytes)
    ensures |z| == n
    ensures forall i :: 0 <= i < n ==> z[i] == 0
  {
    seq(n, _ => 0)
  }
}
