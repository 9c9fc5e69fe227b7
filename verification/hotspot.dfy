/** The one-byte hotspot fix. Byte 0 of the cursor resource is its horizontal
    hotspot; the fix moves it from 8 to 10 in a copy of the signature, and
    refuses a buffer whose byte 0 is anything else.
 */
module Hotspot {
  import opened Types

  /** Horizontal hotspot of the unpatched cursor. */
  const ORIGINAL_HOTSPOT_X: Byte := 8

  /** Horizontal hotspot the fix writes. */
  const CORRECTED_HOTSPOT_X: Byte := 10

  /** The fix as the program writes it: the byte-0 read has no length guard,
      so this version is only defined on a non-empty buffer. */
  function ApplyFixAsWritten(signature: seq<Byte>): (r: Option<seq<Byte>>)
    requires |signature| > 0
    ensures r.Some? <==> signature[0] == ORIGINAL_HOTSPOT_X
    ensures r.Some? ==> |r.value| == |signature| && r.value[0] == CORRECTED_HOTSPOT_X
  {
    if signature[0] != ORIGINAL_HOTSPOT_X then None
    else Some(signature[0 := CORRECTED_HOTSPOT_X])
  }

  /** The fix with the empty buffer refused like any other unexpected one.
      None means "unexpected signature": nothing is written. */
  function ApplyFix(signature: seq<Byte>): (r: Option<seq<Byte>>)
    ensures r.Some? <==> |signature| > 0 && signature[0] == ORIGINAL_HOTSPOT_X
    ensures |signature| > 0 ==> r == ApplyFixAsWritten(signature)
  {
    if |signature| == 0 then None else ApplyFixAsWritten(signature)
  }

  /** Positions at which two buffers of the same length differ. */
  function Differences(a: seq<Byte>, b: seq<Byte>): set<int>
    requires |a| == |b|
  {
    set i | 0 <= i < |a| && a[i] != b[i]
  }

  /** The patched buffer keeps the length of the signature and differs from
      it at position 0 only, where 8 became 10. */
  lemma FixChangesOnlyTheHotspot(signature: seq<Byte>)
    requires ApplyFix(signature).Some?
    ensures |ApplyFix(signature).value| == |signature|
    ensures signature[0] == ORIGINAL_HOTSPOT_X
    ensures ApplyFix(signature).value[0] == CORRECTED_HOTSPOT_X
    ensures Differences(signature, ApplyFix(signature).value) == {0}
    ensures forall i :: 0 < i < |signature| ==> ApplyFix(signature).value[i] == signature[i]
  {
  }

  /** A buffer that has already been fixed is refused: applying the fix to
      its own output never writes a second time. */
  lemma FixRefusesFixedBuffer(signature: seq<Byte>)
    requires ApplyFix(signature).Some?
    ensures ApplyFix(ApplyFix(signature).value) == None
  {
  }
}
