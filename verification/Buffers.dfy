/** memcpy into a byte buffer. */
module Buffers {

  method CopyInto(d: array<char>, at: nat, text: string)
    requires at + |text| <= d.Length
    modifies d
    ensures forall k :: 0 <= k < d.Length ==> d[k] == if at <= k < at + |text| then text[k - at] else old(d[k])
  {
    forall i | 0 <= i < |text| {
      d[at + i] := text[i];
    }
  }

  method CopyBlock(d: array<char>, at: nat, s: array<char>, from: nat, n: nat)
    requires d != s && at + n <= d.Length && from + n <= s.Length
    modifies d
    ensures forall k :: 0 <= k < d.Length ==> d[k] == if at <= k < at + n then s[from + (k - at)] else old(d[k])
  {
    forall i | 0 <= i < n {
      d[at + i] := s[from + i];
    }
  }
}
