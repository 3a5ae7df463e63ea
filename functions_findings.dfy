/**
  The string helpers as their code is written, where that differs from what
  their comments and result types promise. The intended behaviour is the one
  module StringFunctions implements and proves.
*/
module StringFindings {
  import opened Wrappers
  import opened StringFunctions

  // ---------------------------------------------------------------------------
  // `length` returns a 16-bit value but counts in an 8-bit variable.

  /** `length(string)` as written: the counter wraps at 256. */
  method LengthAsWritten(s: seq<char>) returns (r: nat)
    requires HasNul(s, 0)
    ensures r < 0x100 && r == CStrLen(s) % 0x100
  {
    var length := 0;
    var i := 0;
    while s[i] != '\0'
      invariant i <= CStrLen(s) && length == i % 0x100
      decreases CStrLen(s) - i
    {
      length := (length + 1) % 0x100;
      i := i + 1;
    }
    return length;
  }

  /** A string of 256 characters: as written its length is 0, while the
      16-bit result type holds 256. */
  lemma LengthAsWrittenWraps(s: seq<char>)
    requires |s| == 257 && s[256] == '\0'
    requires forall k :: 0 <= k < 256 ==> s[k] == 'a'
    ensures HasNul(s, 0) && CStrLen(s) == 256
    ensures CStrLen(s) % 0x100 == 0 && CStrLen(s) % 0x10000 == 256
  {
    assert HasNul(s, 0);
  }

  // ---------------------------------------------------------------------------
  // `find` compares past the NUL of `tofind` (the source's own fixme).

  /** The inner loop of `find` at position `p`, as written: the number of
      equal characters, NULs included; `None` when the comparison runs off
      the end of either buffer. */
  function MatchAsWritten(s: seq<char>, t: seq<char>, p: nat, f: nat): (r: Option<nat>)
    ensures r.Some? ==> f <= r.value < |t| && p + r.value < |s| && s[p + r.value] != t[r.value]
    ensures r.Some? ==> forall k :: f <= k < r.value ==> s[p + k] == t[k]
    decreases |t| - f
  {
    if p + f >= |s| || f >= |t| then None
    else if s[p + f] == t[f] then MatchAsWritten(s, t, p, f + 1)
    else Some(f)
  }

  /** `find` from position `p` as written: `None` when it reads past a
      buffer. */
  function FindAsWritten(s: seq<char>, t: seq<char>, p: nat): (r: Option<nat>)
    ensures r.Some? ==> r.value < 0x10000
    decreases |s| - p
  {
    if p >= |s| then None
    else if s[p] == '\0' then Some(0xFFFF)
    else match MatchAsWritten(s, t, p, 0)
      case None => None
      case Some(f) =>
        if t[f] == '\0' then Some((p + f) % 0x10000)
        else FindAsWritten(s, t, p + 1)
  }

  /** `find("ab", "ab")` in buffers that end at the NUL: as written the
      comparison matches the NULs and reads past both buffers. */
  lemma FindAsWrittenReadsPast()
    ensures FindAsWritten(['a', 'b', '\0'], ['a', 'b', '\0'], 0) == None
  {
    assert MatchAsWritten(['a', 'b', '\0'], ['a', 'b', '\0'], 0, 0) == None;
  }

  /** `find("b", "b")` where the bytes after the NULs differ: as written the
      match at 0 goes on past the NULs, fails on those bytes, and `find`
      answers 0xFFFF; the intended answer is 1. */
  lemma FindAsWrittenMisses()
    ensures FindAsWritten(['b', '\0', 'x'], ['b', '\0', 'y'], 0) == Some(0xFFFF)
    ensures HasNul(['b', '\0', 'x'], 0) && HasNul(['b', '\0', 'y'], 0)
    ensures FirstOccurrence(['b', '\0', 'x'], ['b', '\0', 'y'], 0) == Some(0)
    ensures CStrLen(['b', '\0', 'y']) == 1
  {
    var s, t := ['b', '\0', 'x'], ['b', '\0', 'y'];
    assert s[1] == '\0' && t[1] == '\0';
    assert CStrLen(s) == 1 && CStrLen(t) == 1;
    assert MatchAsWritten(s, t, 0, 2) == Some(2);
    assert MatchAsWritten(s, t, 0, 0) == Some(2);
    assert FindAsWritten(s, t, 1) == Some(0xFFFF);
    assert s[0..1] == CStr(t);
  }

  // ---------------------------------------------------------------------------
  // `getStrParam` as written: its `for` takes the failure test as its body,
  // and the cursor steps past the stop character even when that was the NUL.

  /** Where a call starts reading as written: one past the previous stop
      whenever the cursor is not 0, even when that stop was the NUL. */
  function ParamStartAsWritten(slot: nat): (q: nat)
    ensures q == 0 || q > slot
  {
    if slot != 0 then slot + 1 else 0
  }

  /** One call as written. `ok` is false only if the `for` body's test fires:
      it runs once per character copied, at a position the loop condition
      has just found not to be a NUL. A quoted parameter steps the cursor
      one further whatever stopped the scan. */
  function ParamScanAsWritten(param: seq<char>, slot: nat): (sc: ParamScan)
    requires HasNul(param, ParamStartAsWritten(slot))
    ensures ParamStartAsWritten(slot) <= sc.first <= sc.end < |param|
    ensures param[sc.end] == '\0' || param[sc.end] == (if sc.quoted then '"' else ' ')
    ensures forall k :: sc.first <= k < sc.end ==> param[k] != '\0'
    ensures sc.next >= sc.end
  {
    var q := ParamStartAsWritten(slot);
    var quoted := param[q] == '"';
    var first := if quoted then q + 1 else q;
    if quoted then
      HasNulNext(param, q);
      var end := Scan(param, first, '"');
      var ok := !(exists k :: first <= k < end && param[k] == '\0' && k == first);
      ParamScan(ok, quoted, first, end, end + 1)
    else
      var end := Scan(param, first, ' ');
      var ok := !(exists k :: first <= k < end && param[k] == '\0' && k == first);
      ParamScan(ok, quoted, first, end, end)
  }

  /** As written `getStrParam` never returns false. */
  lemma {:induction false} NeverFailsAsWritten(param: seq<char>, slot: nat)
    requires HasNul(param, ParamStartAsWritten(slot))
    ensures ParamScanAsWritten(param, slot).ok
  {
    var sc := ParamScanAsWritten(param, slot);
    forall k | sc.first <= k < sc.end
      ensures param[k] != '\0'
    {
    }
  }

  /** As written, once a call stops at the NUL with the cursor off 0, the
      next call starts past the NUL, outside the string. */
  lemma StartsPastNulAsWritten(param: seq<char>, slot: nat)
    requires HasNul(param, ParamStartAsWritten(slot))
    requires param[ParamScanAsWritten(param, slot).end] == '\0' && ParamScanAsWritten(param, slot).next != 0
    ensures ParamStartAsWritten(ParamScanAsWritten(param, slot).next) > ParamScanAsWritten(param, slot).end
  {
  }

  /** The empty parameter string on the first call: as written the call
      succeeds with an empty parameter; the intended call fails. */
  lemma EmptyInputAsWritten()
    ensures HasNul(['\0'], 0)
    ensures ParamScanAsWritten(['\0'], 0).ok
    ensures !NextParam(['\0'], 0).ok
  {
    var p := ['\0'];
    assert p[0] == '\0';
    NeverFailsAsWritten(p, 0);
  }

  /** `"a b"`: as written the cursor goes 0, 1, 3, and the third call starts
      reading at index 4, one past the NUL. The intended reader's third call
      fails at the NUL. */
  lemma ReadsPastEndAsWritten()
    ensures var p := ['a', ' ', 'b', '\0'];
            HasNul(p, 0) && ParamScanAsWritten(p, 0).next == 1
            && HasNul(p, ParamStartAsWritten(1)) && ParamScanAsWritten(p, 1).next == 3
            && ParamStartAsWritten(3) == |p|
    ensures var p := ['a', ' ', 'b', '\0'];
            HasNul(p, 0) && NextParam(p, 0).ok && NextParam(p, 0).next == 1
            && HasNul(p, 1) && NextParam(p, 1).ok && NextParam(p, 1).next == 3
            && HasNul(p, 3) && !NextParam(p, 3).ok
  {
    var p := ['a', ' ', 'b', '\0'];
    assert p[3] == '\0';
    assert HasNul(p, 3);
  }
}
