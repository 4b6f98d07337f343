/** The white space class that the browser code matches. */
module Whitespace {
  predicate IsSpace(c: char) {
    var code := c as int;
    || 0x09 <= code <= 0x0d || code == 0x20 || code == 0xa0 || code == 0x1680 || 0x2000 <= code <= 0x200a
    || code == 0x2028 || code == 0x2029 || code == 0x202f || code == 0x205f || code == 0x3000 || code == 0xfeff
  }

  // ----- Trimming -----

  function TrimEnd(s: string, from: nat, to: nat): (end: nat)
    requires from <= to <= |s|
    ensures from <= end <= to
    ensures end > from ==> !IsSpace(s[end - 1])
    ensures forall k :: end <= k < to ==> IsSpace(s[k])
  {
    if from < to && IsSpace(s[to - 1]) then TrimEnd(s, from, to - 1) else to
  }

  function Trim(s: string): string {
    var from := TrimStart(s, 0);
    s[from..TrimEnd(s, from, |s|)]
  }

  function TrimStart(s: string, at: nat): (from: nat)
    requires at <= |s|
    ensures at <= from <= |s|
    ensures from < |s| ==> !IsSpace(s[from])
    ensures forall k :: at <= k < from ==> IsSpace(s[k])
    decreases |s| - at
  {
    if at < |s| && IsSpace(s[at]) then TrimStart(s, at + 1) else at
  }
}
