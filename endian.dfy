/**
 * Byte-order helpers for values written to and read from shared streams.
 * A value of type T is modelled by its object representation, the sequence
 * of its `sizeof(T)` bytes, so the template's N is always `sizeof(T)`.
 */
module Endian {

  import opened SeqSteps

  type Byte = bv8

  datatype EndianOrder = Small | Big

  /**
   * `reverseBytes`: copy the value into a byte union and fill a second union
   * from the back of the first.
   */
  method ReverseBytes(value: seq<Byte>) returns (r: seq<Byte>)
    ensures |r| == |value|
    ensures forall i :: 0 <= i < |value| ==> r[i] == value[|value| - 1 - i]
    ensures r == Reversed(value)
  {
    var n := |value|;
    var dat1 := new Byte[n](i requires 0 <= i < n => value[i]);
    var dat2 := new Byte[n];
    var i := 0;
    while i < n
      invariant 0 <= i <= n
      invariant dat1[..] == value
      invariant forall k :: 0 <= k < i ==> dat2[k] == value[n - 1 - k]
    {
      dat2[i] := dat1[n - 1 - i];
      i := i + 1;
    }
    r := dat2[..];
  }

  /** `convert`: swap the bytes on a big-endian host, pass the value through otherwise. */
  function Convert(host: EndianOrder, value: seq<Byte>): (r: seq<Byte>)
    ensures |r| == |value|
  {
    if host == Big then Reversed(value) else value
  }

  /** Reversing twice gives back the original bytes. */
  lemma ReverseTwice(s: seq<Byte>)
    ensures Reversed(Reversed(s)) == s
  {
    var r := Reversed(Reversed(s));
    forall i | 0 <= i < |s| ensures r[i] == s[i] {
      assert Reversed(s)[|s| - 1 - i] == s[i];
    }
  }

  /** `convert` is its own inverse on either host, so reading back what was written restores the value. */
  lemma ConvertRoundTrip(host: EndianOrder, value: seq<Byte>)
    ensures Convert(host, Convert(host, value)) == value
    ensures host == Small ==> Convert(host, value) == value
  {
    if host == Big {
      ReverseTwice(value);
    }
  }
}
