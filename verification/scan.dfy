/** The two enumeration callbacks of IBeamFix, turned into plain queries.

    The cursor callback is invoked once per cursor resource, in the order the
    module reports them. It skips an entry it cannot look up, and otherwise
    compares the entry's bytes with the signature; on the first match it
    records the identity and stops the enumeration. The language callback
    records the first language it is given and stops.
 */
module Scan {
  import opened Types
  import opened Signature

  /** The lookup of `e` succeeds and the comparison accepts its bytes. */
  predicate IsMatch(e: Entry, signature: seq<Byte>) {
    e.data.Some? && Accepts(e.data.value, signature)
  }

  /** Entry `k` matches and no entry before it does. */
  predicate IsFirstMatch(entries: seq<Entry>, signature: seq<Byte>, k: int) {
    0 <= k < |entries| && IsMatch(entries[k], signature) &&
    forall j :: 0 <= j < k ==> !IsMatch(entries[j], signature)
  }

  /** What the scan leaves behind: nothing, or the position of the matching
      entry in enumeration order together with the identity recorded for it. */
  datatype ScanResult = NotFound | Found(index: nat, id: ResId)

  /** The scan over the entries from `start` on. */
  function ScanFrom(entries: seq<Entry>, signature: seq<Byte>, start: nat): (r: ScanResult)
    requires start <= |entries|
    ensures r.Found? ==>
      start <= r.index < |entries| && IsMatch(entries[r.index], signature) &&
      r.id == entries[r.index].id &&
      forall j :: start <= j < r.index ==> !IsMatch(entries[j], signature)
    ensures r.NotFound? ==>
      forall j :: start <= j < |entries| ==> !IsMatch(entries[j], signature)
    decreases |entries| - start
  {
    if start == |entries| then NotFound
    else if IsMatch(entries[start], signature) then Found(start, entries[start].id)
    else ScanFrom(entries, signature, start + 1)
  }

  /** The first-match query the cursor enumeration answers. */
  function FindMatch(entries: seq<Entry>, signature: seq<Byte>): (r: ScanResult)
    ensures r.Found? <==> exists j :: 0 <= j < |entries| && IsMatch(entries[j], signature)
    ensures r.Found? ==> IsFirstMatch(entries, signature, r.index)
    ensures r.Found? ==> r.id == entries[r.index].id
  {
    ScanFrom(entries, signature, 0)
  }

  /** The enumeration as the program drives it: one callback invocation per
      entry until a callback asks to stop. `examined` counts the invocations. */
  method EnumerateCursors(entries: seq<Entry>, signature: seq<Byte>)
    returns (result: ScanResult, examined: nat)
    ensures result == FindMatch(entries, signature)
    ensures examined == if result.Found? then result.index + 1 else |entries|
  {
    var i := 0;
    while i < |entries|
      invariant i <= |entries|
      invariant forall j :: 0 <= j < i ==> !IsMatch(entries[j], signature)
    {
      var e := entries[i];
      if e.data.Some? {
        var accepted := CheckSignature(e.data.value, signature);
        if accepted {
          FirstMatchIsFound(entries, signature, i);
          result, examined := Found(i, e.id), i + 1;
          return;
        }
      }
      i := i + 1;
    }
    result, examined := NotFound, |entries|;
  }

  /** The query returns exactly the first match, and records its identity. */
  lemma FirstMatchIsFound(entries: seq<Entry>, signature: seq<Byte>, k: int)
    requires IsFirstMatch(entries, signature, k)
    ensures FindMatch(entries, signature) == Found(k, entries[k].id)
  {
  }

  /** When two entries both match, the earlier one is reported and the later
      one never is. */
  lemma EarlierMatchWins(entries: seq<Entry>, signature: seq<Byte>, a: int, b: int)
    requires 0 <= a < b < |entries|
    requires IsMatch(entries[a], signature) && IsMatch(entries[b], signature)
    ensures FindMatch(entries, signature).Found?
    ensures FindMatch(entries, signature).index <= a
    ensures FindMatch(entries, signature).index != b
  {
  }

  /** Entries after the first match have no influence on the result. */
  lemma LaterEntriesIgnored(entries: seq<Entry>, rest: seq<Entry>, signature: seq<Byte>)
    requires FindMatch(entries, signature).Found?
    ensures FindMatch(entries + rest, signature) == FindMatch(entries, signature)
  {
    var r := FindMatch(entries, signature);
    var all := entries + rest;
    assert IsFirstMatch(all, signature, r.index) by {
      assert all[r.index] == entries[r.index];
      forall j | 0 <= j < r.index
        ensures !IsMatch(all[j], signature)
      {
        assert all[j] == entries[j];
      }
    }
    FirstMatchIsFound(all, signature, r.index);
  }

  /** The result for a scan that has one more entry in front. */
  function Shift(r: ScanResult): ScanResult {
    match r
    case NotFound => NotFound
    case Found(i, id) => Found(i + 1, id)
  }

  /** An entry whose lookup fails is skipped and the scan carries on with
      the entries after it. */
  lemma FailedLookupSkipped(e: Entry, rest: seq<Entry>, signature: seq<Byte>)
    requires e.data.None?
    ensures FindMatch([e] + rest, signature) == Shift(FindMatch(rest, signature))
  {
    var all := [e] + rest;
    assert !IsMatch(all[0], signature);
    var r := FindMatch(rest, signature);
    if r.Found? {
      assert IsFirstMatch(all, signature, r.index + 1) by {
        assert all[r.index + 1] == rest[r.index];
        forall j | 0 <= j < r.index + 1
          ensures !IsMatch(all[j], signature)
        {
          if j > 0 {
            assert all[j] == rest[j - 1];
          }
        }
      }
      FirstMatchIsFound(all, signature, r.index + 1);
    } else {
      forall j | 0 <= j < |all|
        ensures !IsMatch(all[j], signature)
      {
        if j > 0 {
          assert all[j] == rest[j - 1];
        }
      }
    }
  }

  /** The language the language callback records: the first one reported,
      or the record's initial 0 when nothing is reported. */
  function ResolveLanguage(reported: seq<Word>): (w: Word)
    ensures w != 0 <==> |reported| > 0 && reported[0] != 0
  {
    if |reported| == 0 then 0 else reported[0]
  }

  /** The first reported language decides: whatever is reported after it
      never changes the recorded language. */
  lemma LanguageFixedByFirstReport(reported: seq<Word>, later: seq<Word>)
    requires |reported| > 0
    ensures ResolveLanguage(reported + later) == reported[0]
  {
  }
}
