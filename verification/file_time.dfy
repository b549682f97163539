/**
 The last-write time of a file as the Win32 FILETIME structure delivers it: two 32-bit
 halves, combined through the ULARGE_INTEGER union into one 64-bit count.
 */
module FileTime {

  const TWO_TO_32: nat := 0x1_0000_0000

  newtype uint32 = x: int | 0 <= x < 0x1_0000_0000

  datatype FileTime = FileTime(dwLowDateTime: uint32, dwHighDateTime: uint32)

  /**
   ULARGE_INTEGER.QuadPart after LowPart and HighPart were assigned: an unsigned 64-bit
   value whose low and high 32-bit halves are read back unchanged.
   */
  function QuadPart(ft: FileTime): (q: nat)
    ensures q < TWO_TO_32 * TWO_TO_32
    ensures q % TWO_TO_32 == ft.dwLowDateTime as nat
    ensures q / TWO_TO_32 == ft.dwHighDateTime as nat
  {
    var high := ft.dwHighDateTime as nat;
    var low := ft.dwLowDateTime as nat;
    HalvesBound(high, low);
    HalvesReadBack(high, low);
    high * TWO_TO_32 + low
  }

  lemma HalvesBound(high: nat, low: nat)
    requires high < TWO_TO_32 && low < TWO_TO_32
    ensures high * TWO_TO_32 + low < TWO_TO_32 * TWO_TO_32
  {
    assert high * TWO_TO_32 <= (TWO_TO_32 - 1) * TWO_TO_32;
  }

  lemma HalvesReadBack(high: nat, low: nat)
    requires low < TWO_TO_32
    ensures (high * TWO_TO_32 + low) % TWO_TO_32 == low
    ensures (high * TWO_TO_32 + low) / TWO_TO_32 == high
  {
  }

  /** `a` is not later than `b`, comparing the high halves first and the low halves second. */
  predicate NotLater(a: FileTime, b: FileTime) {
    a.dwHighDateTime < b.dwHighDateTime
    || (a.dwHighDateTime == b.dwHighDateTime && a.dwLowDateTime <= b.dwLowDateTime)
  }

  /** Comparing the combined 64-bit values agrees with comparing the halves lexicographically. */
  lemma QuadPartOrderIsLexicographic(a: FileTime, b: FileTime)
    ensures QuadPart(a) <= QuadPart(b) <==> NotLater(a, b)
  {
    var ha, la := a.dwHighDateTime as nat, a.dwLowDateTime as nat;
    var hb, lb := b.dwHighDateTime as nat, b.dwLowDateTime as nat;
    if ha < hb {
      assert (ha + 1) * TWO_TO_32 <= hb * TWO_TO_32;
    } else if hb < ha {
      assert (hb + 1) * TWO_TO_32 <= ha * TWO_TO_32;
    }
  }
}
