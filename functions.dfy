/**
  The string helpers: `mov`, `length`, `compare`, `find` and the tokenizer
  `getStrParam`. A C string is a `seq<char>` holding a NUL; its contents are
  the characters before the first NUL. Pointer arithmetic becomes an index,
  and `getStrParam`'s `static` cursor becomes a field of `ParamReader`.
*/
module StringFunctions {
  import opened Wrappers

  /** `s` holds a NUL at or after index `i`. */
  predicate HasNul(s: seq<char>, i: nat)
  {
    exists k :: i <= k < |s| && s[k] == '\0'
  }

  lemma HasNulNext(s: seq<char>, i: nat)
    requires HasNul(s, i) && i < |s| && s[i] != '\0'
    ensures HasNul(s, i + 1)
  {
    var k :| i <= k < |s| && s[k] == '\0';
    assert i + 1 <= k;
  }

  /** The first index at or after `i` holding `stop` or a NUL. */
  function Scan(s: seq<char>, i: nat, stop: char): (r: nat)
    requires HasNul(s, i)
    ensures i <= r < |s| && (s[r] == stop || s[r] == '\0')
    ensures forall k :: i <= k < r ==> s[k] != stop && s[k] != '\0'
    decreases |s| - i
  {
    if s[i] == stop || s[i] == '\0' then i
    else
      HasNulNext(s, i);
      Scan(s, i + 1, stop)
  }

  /** The length of the C string `s`: the index of its first NUL. */
  function CStrLen(s: seq<char>): (n: nat)
    requires HasNul(s, 0)
    ensures n < |s| && s[n] == '\0'
    ensures forall k :: 0 <= k < n ==> s[k] != '\0'
  {
    Scan(s, 0, '\0')
  }

  /** The characters of the C string `s`. */
  function CStr(s: seq<char>): (r: seq<char>)
    requires HasNul(s, 0)
    ensures |r| == CStrLen(s) && r <= s && '\0' !in r
  {
    s[..CStrLen(s)]
  }

  // ---------------------------------------------------------------------------
  // mov

  /** `mov(to, from, length)` with `to` and `from` pointing at `toOff` and
      `fromOff` of their arrays: copies `length` elements one at a time,
      lowest first, and writes nothing else. */
  method Mov<T>(to: array<T>, toOff: nat, from: array<T>, fromOff: nat, length: nat)
    requires toOff + length <= to.Length && fromOff + length <= from.Length
    requires to != from || toOff <= fromOff
    modifies to
    ensures forall k :: toOff <= k < toOff + length ==> to[k] == old(from[k - toOff + fromOff])
    ensures forall k :: 0 <= k < to.Length && !(toOff <= k < toOff + length) ==> to[k] == old(to[k])
  {
    var i := 0;
    while i != length
      invariant i <= length
      invariant forall k :: toOff <= k < toOff + i ==> to[k] == old(from[k - toOff + fromOff])
      invariant forall k :: fromOff + i <= k < fromOff + length ==> from[k] == old(from[k])
      invariant forall k :: 0 <= k < to.Length && !(toOff <= k < toOff + i) ==> to[k] == old(to[k])
    {
      to[toOff + i] := from[fromOff + i];
      i := i + 1;
    }
  }

  // ---------------------------------------------------------------------------
  // length

  /** `length(string)` counting in its 16-bit result type: the length of the
      C string, modulo 2^16. The source counts in 8 bits (see README). */
  method Length(s: seq<char>) returns (r: nat)
    requires HasNul(s, 0)
    ensures r < 0x10000 && r == CStrLen(s) % 0x10000
    ensures CStrLen(s) < 0x10000 ==> r == |CStr(s)|
  {
    var length := 0;
    var i := 0;
    while s[i] != '\0'
      invariant i <= CStrLen(s) && length == i % 0x10000
      decreases CStrLen(s) - i
    {
      length := (length + 1) % 0x10000;
      i := i + 1;
    }
    return length;
  }

  // ---------------------------------------------------------------------------
  // compare

  /** `compare(str1, str2)`: whether the two C strings are equal, character
      for character and in length. Neither is read past its NUL. */
  method Compare(s1: seq<char>, s2: seq<char>) returns (r: bool)
    requires HasNul(s1, 0) && HasNul(s2, 0)
    ensures r <==> CStr(s1) == CStr(s2)
  {
    var i := 0;
    while s1[i] != '\0' || s2[i] != '\0'
      invariant i <= CStrLen(s1) && i <= CStrLen(s2)
      invariant s1[..i] == s2[..i]
      decreases CStrLen(s1) - i
    {
      if s1[i] != s2[i] {
        if i < CStrLen(s1) && i < CStrLen(s2) {
          assert CStr(s1)[i] != CStr(s2)[i];
        } else {
          assert |CStr(s1)| != |CStr(s2)|;
        }
        return false;
      }
      i := i + 1;
    }
    assert CStr(s1) == s1[..i] && CStr(s2) == s2[..i];
    return true;
  }

  // ---------------------------------------------------------------------------
  // find

  /** The C string `t` occurs in the C string `s` at position `p`. */
  predicate OccursAt(s: seq<char>, t: seq<char>, p: nat)
    requires HasNul(s, 0) && HasNul(t, 0)
  {
    p + CStrLen(t) <= CStrLen(s) && s[p..p + CStrLen(t)] == CStr(t)
  }

  /** The first position from `p` on, before the end of `s`, where `t`
      occurs. */
  function FirstOccurrence(s: seq<char>, t: seq<char>, p: nat): (r: Option<nat>)
    requires HasNul(s, 0) && HasNul(t, 0)
    ensures r.Some? ==> p <= r.value < CStrLen(s) && OccursAt(s, t, r.value)
    ensures r.Some? ==> forall q :: p <= q < r.value ==> !OccursAt(s, t, q)
    ensures r.None? ==> forall q :: p <= q < CStrLen(s) ==> !OccursAt(s, t, q)
    decreases |s| - p
  {
    if p >= CStrLen(s) then None
    else if OccursAt(s, t, p) then Some(p)
    else FirstOccurrence(s, t, p + 1)
  }

  /** `find(string, tofind)`: the position just past the first occurrence of
      `tofind`, as a 16-bit value, or 0xFFFF when there is none. The match
      stops at `tofind`'s NUL, which the source does not do (see README). */
  method Find(s: seq<char>, t: seq<char>) returns (r: nat)
    requires HasNul(s, 0) && HasNul(t, 0)
    ensures r < 0x10000
    ensures r == match FirstOccurrence(s, t, 0)
                 case Some(p) => (p + CStrLen(t)) % 0x10000
                 case None => 0xFFFF
  {
    var slot := 0;
    while s[slot] != '\0'
      invariant slot <= CStrLen(s)
      invariant FirstOccurrence(s, t, 0) == FirstOccurrence(s, t, slot)
      decreases CStrLen(s) - slot
    {
      var findSlot := 0;
      while t[findSlot] != '\0' && s[slot + findSlot] == t[findSlot]
        invariant findSlot <= CStrLen(t) && slot + findSlot <= CStrLen(s)
        invariant s[slot..slot + findSlot] == t[..findSlot]
        decreases CStrLen(t) - findSlot
      {
        MatchExtends(s, t, slot, findSlot);
        findSlot := findSlot + 1;
      }
      if t[findSlot] == '\0' {
        MatchFound(s, t, slot, findSlot);
        return (slot + findSlot) % 0x10000;
      }
      MatchFails(s, t, slot, findSlot);
      slot := slot + 1;
    }
    return 0xFFFF;
  }

  /** The inner loop of `find` goes on: one more character matches. */
  lemma MatchExtends(s: seq<char>, t: seq<char>, p: nat, f: nat)
    requires HasNul(s, 0) && HasNul(t, 0)
    requires f <= CStrLen(t) && p + f <= CStrLen(s) && s[p..p + f] == t[..f]
    requires t[f] != '\0' && s[p + f] == t[f]
    ensures f + 1 <= CStrLen(t) && p + f + 1 <= CStrLen(s) && s[p..p + f + 1] == t[..f + 1]
  {
    assert s[p..p + f + 1] == s[p..p + f] + [s[p + f]];
    assert t[..f + 1] == t[..f] + [t[f]];
  }

  /** The inner loop of `find` reached the NUL of `t`: `t` occurs at `p`. */
  lemma MatchFound(s: seq<char>, t: seq<char>, p: nat, f: nat)
    requires HasNul(s, 0) && HasNul(t, 0)
    requires f <= CStrLen(t) && p + f <= CStrLen(s) && s[p..p + f] == t[..f]
    requires t[f] == '\0'
    ensures f == CStrLen(t) && OccursAt(s, t, p)
  {
  }

  /** The inner loop of `find` stopped on a mismatch before the NUL of `t`:
      `t` does not occur at `p`. */
  lemma MatchFails(s: seq<char>, t: seq<char>, p: nat, f: nat)
    requires HasNul(s, 0) && HasNul(t, 0)
    requires f <= CStrLen(t) && p + f <= CStrLen(s) && s[p..p + f] == t[..f]
    requires t[f] != '\0' && s[p + f] != t[f]
    ensures !OccursAt(s, t, p)
  {
  }

  // ---------------------------------------------------------------------------
  // getStrParam

  /** One call of `getStrParam`: the parameter occupies `param[first..end]`,
      `ok` is the result, and `next` is the cursor afterwards. */
  datatype ParamScan = ParamScan(ok: bool, quoted: bool, first: nat, end: nat, next: nat)

  /** Where a call starts reading from cursor `slot`: one past the previous
      call's stop, so that the separator is skipped, except on the first call
      and when the previous call stopped at the NUL. */
  function ParamStart(param: seq<char>, slot: nat): (q: nat)
    requires HasNul(param, slot)
    ensures slot <= q && HasNul(param, q)
    ensures q == slot || param[slot] != '\0'
  {
    if slot != 0 && param[slot] != '\0' then
      HasNulNext(param, slot);
      slot + 1
    else
      slot
  }

  /** The call from cursor `slot`: a parameter starting with `"` runs to the
      next `"`, any other to the next space, and either stops at a NUL. The
      call fails when it is at a NUL with nothing to copy; a closing quote is
      stepped over. */
  function NextParam(param: seq<char>, slot: nat): (sc: ParamScan)
    requires HasNul(param, slot)
    ensures ParamStart(param, slot) <= sc.first <= sc.end < |param|
    ensures sc.quoted <==> param[ParamStart(param, slot)] == '"'
    ensures sc.first == if sc.quoted then ParamStart(param, slot) + 1 else ParamStart(param, slot)
    ensures forall k :: sc.first <= k < sc.end ==> param[k] != '\0' && param[k] != (if sc.quoted then '"' else ' ')
    ensures param[sc.end] == '\0' || param[sc.end] == (if sc.quoted then '"' else ' ')
    ensures sc.ok <==> sc.end > sc.first || param[sc.end] != '\0'
    ensures sc.next == if sc.ok && sc.quoted && param[sc.end] == '"' then sc.end + 1 else sc.end
  {
    var q := ParamStart(param, slot);
    var quoted := param[q] == '"';
    var first := if quoted then q + 1 else q;
    if quoted then
      HasNulNext(param, q);
      var end := Scan(param, first, '"');
      var ok := !(param[end] == '\0' && end == first);
      ParamScan(ok, quoted, first, end, if ok && param[end] == '"' then end + 1 else end)
    else
      var end := Scan(param, first, ' ');
      var ok := !(param[end] == '\0' && end == first);
      ParamScan(ok, quoted, first, end, end)
  }

  /** The cursor never leaves the string: a call may always be made again. */
  lemma {:induction false} ParamStaysInside(param: seq<char>, slot: nat)
    requires HasNul(param, slot)
    ensures HasNul(param, NextParam(param, slot).next)
  {
    var sc := NextParam(param, slot);
    var k :| sc.first <= k < |param| && param[k] == '\0';
    assert sc.end <= k;
    assert HasNul(param, sc.end);
    if sc.next != sc.end {
      HasNulNext(param, sc.end);
    }
  }

  /** A call from a cursor resting on the NUL fails and leaves the cursor
      there. */
  lemma ParamEndFails(param: seq<char>, slot: nat)
    requires HasNul(param, slot) && param[slot] == '\0'
    ensures !NextParam(param, slot).ok && NextParam(param, slot).next == slot
  {
  }

  /** After the last parameter, the one the NUL ends, every further call
      fails. */
  lemma {:induction false} LastParamThenFails(param: seq<char>, slot: nat)
    requires HasNul(param, slot)
    requires NextParam(param, slot).ok && param[NextParam(param, slot).end] == '\0'
    ensures HasNul(param, NextParam(param, slot).next)
    ensures !NextParam(param, NextParam(param, slot).next).ok
  {
    var sc := NextParam(param, slot);
    ParamStaysInside(param, slot);
    ParamEndFails(param, sc.next);
  }

  /** Each successful call moves the cursor past the parameter it copied:
      the next call starts after it, or fails at the NUL. */
  lemma {:induction false} ParamAdvances(param: seq<char>, slot: nat)
    requires HasNul(param, slot)
    requires NextParam(param, slot).ok && NextParam(param, slot).next != 0
    ensures HasNul(param, NextParam(param, slot).next)
    ensures var sc := NextParam(param, slot);
            ParamStart(param, sc.next) > sc.end || !NextParam(param, sc.next).ok
  {
    var sc := NextParam(param, slot);
    ParamStaysInside(param, slot);
    if param[sc.end] == '\0' {
      ParamEndFails(param, sc.next);
    }
  }

  /** The cursor value 0 also means "first call": a parameter string that
      starts with a space yields the same empty parameter on every call. */
  lemma ParamStuckOnLeadingSpace(param: seq<char>)
    requires HasNul(param, 0) && param[0] == ' '
    ensures NextParam(param, 0) == ParamScan(true, false, 0, 0, 0)
  {
  }

  /** `getStrParam`'s state: the `static` cursor `paramSlot`, 0 before the
      first call. */
  class ParamReader {
    var paramSlot: nat

    constructor ()
      ensures paramSlot == 0
    {
      paramSlot := 0;
    }

    /** `getStrParam(param, output)`: copies the next parameter into `output`
        and NUL-terminates it; fails, copying nothing, when the input is
        used up, and the cursor stays inside the string. This is the reader
        the code's comments describe; module StringFindings keeps the one
        written, which never fails and can step past the NUL. */
    method GetStrParam(param: seq<char>, output: array<char>) returns (ok: bool)
      requires HasNul(param, paramSlot)
      requires output.Length > NextParam(param, paramSlot).end - NextParam(param, paramSlot).first
      modifies this, output
      ensures HasNul(param, paramSlot)
      ensures var sc := NextParam(param, old(paramSlot));
              ok == sc.ok && paramSlot == sc.next
              && (ok ==> (forall k :: 0 <= k < sc.end - sc.first ==> output[k] == param[sc.first + k])
                         && output[sc.end - sc.first] == '\0')
      ensures var sc := NextParam(param, old(paramSlot));
              forall k :: 0 <= k < output.Length && !(ok && k <= sc.end - sc.first) ==> output[k] == old(output[k])
    {
      ghost var sc := NextParam(param, paramSlot);
      ParamStaysInside(param, paramSlot);
      var strSlot := 0;
      var terminator := ' ';
      if paramSlot != 0 && param[paramSlot] != '\0' {
        paramSlot := paramSlot + 1;
      }
      if param[paramSlot] == '"' {
        terminator := '"';
        paramSlot := paramSlot + 1;
      }
      while param[paramSlot] != terminator && param[paramSlot] != '\0'
        invariant sc.first <= paramSlot <= sc.end
        invariant terminator == if sc.quoted then '"' else ' '
        invariant strSlot == paramSlot - sc.first
        invariant forall k :: 0 <= k < strSlot ==> output[k] == param[sc.first + k]
        invariant forall k :: strSlot <= k < output.Length ==> output[k] == old(output[k])
        decreases sc.end - paramSlot
      {
        output[strSlot] := param[paramSlot];
        strSlot := strSlot + 1;
        paramSlot := paramSlot + 1;
      }
      if param[paramSlot] == '\0' && strSlot == 0 {
        return false;
      }
      if terminator == '"' && param[paramSlot] == '"' {
        paramSlot := paramSlot + 1;
      }
      output[strSlot] := '\0';
      return true;
    }
  }
}
