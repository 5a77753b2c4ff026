/** Little-endian byte strings, the format of every multi-byte value in memory and on disk. */
module LittleEndian {

  type Byte = b: int | 0 <= b < 256

  function Pow256(n: nat): (p: nat)
    ensures p > 0
  {
    if n == 0 then 1 else 256 * Pow256(n - 1)
  }

  function ToBytes(v: nat, n: nat): (bytes: seq<Byte>)
    ensures |bytes| == n
  {
    if n == 0 then [] else [v % 256] + ToBytes(v / 256, n - 1)
  }

  function FromBytes(bytes: seq<Byte>): nat
  {
    if bytes == [] then 0 else bytes[0] + 256 * FromBytes(bytes[1..])
  }

  lemma {:induction false} FromBytesBounded(bytes: seq<Byte>)
    ensures FromBytes(bytes) < Pow256(|bytes|)
  {
    if bytes != [] {
      FromBytesBounded(bytes[1..]);
    }
  }

  /** Encoding then decoding keeps the value modulo the width. */
  lemma {:induction false} DecodeEncode(v: nat, n: nat)
    ensures FromBytes(ToBytes(v, n)) < Pow256(n)
    ensures v < Pow256(n) ==> FromBytes(ToBytes(v, n)) == v
  {
    FromBytesBounded(ToBytes(v, n));
    if n > 0 {
      assert ToBytes(v, n)[1..] == ToBytes(v / 256, n - 1);
      DecodeEncode(v / 256, n - 1);
    }
  }

  /** Decoding then encoding gives back the bytes: the two are inverse in both directions. */
  lemma {:induction false} EncodeDecode(bytes: seq<Byte>)
    ensures ToBytes(FromBytes(bytes), |bytes|) == bytes
  {
    if bytes != [] {
      EncodeDecode(bytes[1..]);
      assert FromBytes(bytes) % 256 == bytes[0];
      assert FromBytes(bytes) / 256 == FromBytes(bytes[1..]);
      assert bytes == [bytes[0]] + bytes[1..];
    }
  }

  lemma {:induction false} FromBytesAppend(a: seq<Byte>, b: Byte)
    ensures FromBytes(a + [b]) == FromBytes(a) + Pow256(|a|) * b
  {
    if a == [] {
      assert a + [b] == [b];
      assert FromBytes([b]) == b + 256 * FromBytes([b][1..]);
    } else {
      FromBytesAppend(a[1..], b);
      assert (a + [b])[1..] == a[1..] + [b];
      var p := Pow256(|a| - 1);
      assert 256 * (p * b) == (256 * p) * b;
    }
  }

  /** The byte at position k of the encoding: what a shift by 8k and a mask select. */
  function ByteAt(v: nat, k: nat): Byte
  {
    if k == 0 then v % 256 else ByteAt(v / 256, k - 1)
  }

  lemma {:induction false} ToBytesAt(v: nat, n: nat, k: nat)
    requires k < n
    ensures ToBytes(v, n)[k] == ByteAt(v, k)
  {
    if k > 0 {
      ToBytesAt(v / 256, n - 1, k - 1);
    }
  }

  /** Replaces the byte at position k, as clearing it with a mask and or-ing in the new one does. */
  function SetByteAt(v: nat, k: nat, b: Byte): nat
  {
    if k == 0 then v - v % 256 + b else v % 256 + 256 * SetByteAt(v / 256, k - 1, b)
  }

  lemma {:induction false} SetByteAtFromBytes(bytes: seq<Byte>, k: nat, b: Byte)
    requires k < |bytes|
    ensures SetByteAt(FromBytes(bytes), k, b) == FromBytes(bytes[k := b])
  {
    var v := FromBytes(bytes);
    assert v % 256 == bytes[0] && v / 256 == FromBytes(bytes[1..]);
    if k == 0 {
      assert bytes[0 := b][1..] == bytes[1..];
    } else {
      SetByteAtFromBytes(bytes[1..], k - 1, b);
      assert bytes[k := b][1..] == bytes[1..][k - 1 := b];
    }
  }
}
