/** PKCS#5 / PKCS#7 padding as common.go and aec.go do it. */
module Padding {
  import opened Arith
  import opened Bytes
  import opened Wrappers

  /** How many bytes are added: a whole block when the data already fills its last one. */
  function PadLength(n: nat, blockSize: nat): (p: nat)
    requires blockSize >= 1
    ensures 1 <= p <= blockSize
  {
    blockSize - n % blockSize
  }

  function Repeat(b: byte, n: nat): (r: Bytes)
    ensures |r| == n
    ensures forall i :: 0 <= i < n ==> r[i] == b
  {
    seq(n, i => b)
  }

  function PKCS5Padding(data: Bytes, blockSize: nat): Bytes
    requires blockSize >= 1
  {
    var padding := PadLength(|data|, blockSize);
    data + Repeat((padding % 256) as byte, padding)
  }

  /** None where the Go code runs off the slice: no last byte, or more padding claimed than there are bytes. */
  function PKCS5Trimming(data: Bytes): Option<Bytes> {
    if data == [] then None
    else
      var padding := data[|data| - 1] as nat;
      if padding > |data| then None else Some(data[..|data| - padding])
  }

  function Pkcs7Pad(data: Bytes, blockSize: int): Result<Bytes> {
    if blockSize <= 0 then Err("invalid blocksize")
    else if data == [] then Err("invalid data")
    else Ok(PKCS5Padding(data, blockSize))
  }

  /** Padding reaches the next multiple of the block, strictly beyond the data. */
  lemma PaddedLength(data: Bytes, blockSize: nat)
    requires blockSize >= 1
    ensures var p := PKCS5Padding(data, blockSize);
            |p| == (|data| / blockSize + 1) * blockSize && |data| < |p| <= |data| + blockSize
            && |p| % blockSize == 0 && data <= p
  {
    var q, r := |data| / blockSize, |data| % blockSize;
    assert |data| == q * blockSize + r;
    assert (q + 1) * blockSize == q * blockSize + blockSize;
    MultipleOf(q + 1, blockSize);
  }

  /** Every added byte holds the number of bytes added, as far as that fits in a byte. */
  lemma PaddingBytes(data: Bytes, blockSize: nat, i: nat)
    requires blockSize >= 1
    ensures var p := PKCS5Padding(data, blockSize);
            |data| <= i < |p| ==> p[i] as nat == (|p| - |data|) % 256
  {
    var padding := PadLength(|data|, blockSize);
    var pad := Repeat((padding % 256) as byte, padding);
    assert |data| <= i < |data + pad| ==> (data + pad)[i] == pad[i - |data|];
  }

  /** Trimming takes off as many bytes as the last byte says; it fails without one, and when there are not so many. */
  lemma TrimSpelledOut(data: Bytes, r: Bytes)
    ensures PKCS5Trimming(data) == Some(r) <==>
            data != [] && r <= data && |data| - |r| == data[|data| - 1] as nat
  {
    if data != [] && r <= data && |data| - |r| == data[|data| - 1] as nat {
      assert data[..|r|] == r;
    }
  }

  /** Trimming undoes padding exactly when the number of added bytes fits in a byte. */
  lemma TrimUndoesPadIff(data: Bytes, blockSize: nat)
    requires blockSize >= 1
    ensures PKCS5Trimming(PKCS5Padding(data, blockSize)) == Some(data) <==> PadLength(|data|, blockSize) <= 255
  {}

  /** So it does for every block size from 1 to 255. */
  lemma TrimUndoesPad(data: Bytes, blockSize: nat)
    requires 1 <= blockSize <= 255
    ensures PKCS5Trimming(PKCS5Padding(data, blockSize)) == Some(data)
  {}

  /** With 256-byte blocks an empty input is not recovered. */
  lemma TrimFailsAt256()
    ensures PKCS5Trimming(PKCS5Padding([], 256)) != Some([])
  {}
}
