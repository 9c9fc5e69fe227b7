/** The signature comparison of IBeamFix: a resource's bytes are compared with
    the signature buffer, length first and then byte by byte.

    The size handed to the comparison is the DWORD from SizeofResource,
    received as a 32-bit `int`, and compared against the vector's `size_t`
    size. Both conversions are written out here, so a resource of 2^31 bytes
    or more is modelled as the program treats it: it never matches.
 */
module Signature {
  import opened Types

  /** A DWORD reinterpreted as a 32-bit two's-complement `int`. */
  function ToInt(size: nat): (v: int)
    requires size < DWORD_LIMIT
    ensures -INT_LIMIT <= v < INT_LIMIT
    ensures (v - size) % DWORD_LIMIT == 0
  {
    if size < INT_LIMIT then size else size - DWORD_LIMIT
  }

  /** A 32-bit `int` converted to the 64-bit `size_t` of an x64 build for an
      `!=` comparison. */
  function ToSizeT(v: int): (r: nat)
    requires -INT_LIMIT <= v < INT_LIMIT
    ensures r < SIZE_T_LIMIT
    ensures (r - v) % SIZE_T_LIMIT == 0
  {
    if 0 <= v then v else v + SIZE_T_LIMIT
  }

  /** What the comparison accepts, stated over the converted size: the sizes
      agree after conversion and every byte below the (signed) size agrees. */
  predicate Accepts(source: Blob, signature: seq<Byte>) {
    var size := ToInt(|source|);
    ToSizeT(size) == |signature| &&
    forall i :: 0 <= i < size ==> source[i] == signature[i]
  }

  /** The comparison as the program performs it: reject on a size mismatch,
      then scan the bytes and reject at the first one that differs. */
  method CheckSignature(source: Blob, signature: seq<Byte>) returns (r: bool)
    ensures r <==> Accepts(source, signature)
  {
    var size := ToInt(|source|);
    if ToSizeT(size) != |signature| {
      return false;
    }
    var i := 0;
    while i < size
      invariant 0 <= i
      invariant size < 0 ==> i == 0
      invariant 0 <= size ==> i <= size == |source| == |signature|
      invariant forall j :: 0 <= j < i ==> source[j] == signature[j]
    {
      if source[i] != signature[i] {
        return false;
      }
      i := i + 1;
    }
    return true;
  }

  /** Anything the comparison accepts is an exact copy of the signature, for
      every signature a 64-bit process can hold: a differing length or a
      single differing byte is rejected. */
  lemma AcceptedMeansEqual(source: Blob, signature: seq<Byte>)
    requires |signature| < SIZE_T_LIMIT - INT_LIMIT
    ensures Accepts(source, signature) ==> source == signature
    ensures |source| != |signature| ==> !Accepts(source, signature)
    ensures forall k :: 0 <= k < |source| && k < |signature| && source[k] != signature[k]
              ==> !Accepts(source, signature)
  {
  }

  /** An exact copy of the signature is accepted, whenever its size fits the
      32-bit `int` the comparison receives. */
  lemma EqualIsAccepted(source: Blob, signature: seq<Byte>)
    requires |source| < INT_LIMIT
    ensures source == signature ==> Accepts(source, signature)
  {
  }

  /** A resource of 2^31 bytes or more turns into a negative `int` and then
      into a `size_t` no signature can have, so it is never accepted, not
      even when it is an exact copy. */
  lemma OversizedNeverAccepted(source: Blob, signature: seq<Byte>)
    requires INT_LIMIT <= |source|
    requires |signature| < SIZE_T_LIMIT - INT_LIMIT
    ensures !Accepts(source, signature)
  {
  }
}
