// The driver's clean-up of NUL-padded text: a `replace` with the regular expression
// "one or more NULs, then any characters" and an empty replacement.
//
// The regular expression matches from the first NUL through the end of that line
// (`.` stops at a line terminator), and only its first match is replaced. The text is
// handled here as bytes; the line terminators are LF and CR.
module Text {
  import opened ByteSeq

  predicate IsLineTerminator(b: Byte) {
    b == 0x0A || b == 0x0D
  }

  predicate NoNul(s: Bytes) {
    forall i :: 0 <= i < |s| ==> s[i] != 0
  }

  /** Index of the first NUL, or `|s|` when there is none. */
  function FirstNul(s: Bytes): (i: nat)
    ensures i <= |s|
    ensures NoNul(s[..i])
    ensures i < |s| ==> s[i] == 0
  {
    if |s| == 0 then 0
    else if s[0] == 0 then 0
    else
      var k := FirstNul(s[1..]);
      assert s[1..][..k] == s[1..k + 1];
      1 + k
  }

  /** Index of the first line terminator at or after `from`, or `|s|`. */
  function LineEnd(s: Bytes, from: nat): (k: nat)
    requires from <= |s|
    ensures from <= k <= |s|
    ensures forall j :: from <= j < k ==> !IsLineTerminator(s[j])
    ensures k < |s| ==> IsLineTerminator(s[k])
    decreases |s| - from
  {
    if from == |s| then from
    else if IsLineTerminator(s[from]) then from
    else LineEnd(s, from + 1)
  }

  /** The trim: the first NUL, the rest of its line, and nothing else
      is removed. */
  function TrimAtNul(s: Bytes): (r: Bytes)
    ensures FirstNul(s) <= |r| && r[..FirstNul(s)] == s[..FirstNul(s)]
    ensures NoNul(s) ==> r == s
    ensures !NoNul(s) ==> |r| < |s|
  {
    var i := FirstNul(s);
    if i == |s| then
      assert s[..i] == s;
      s
    else
      s[..i] + s[LineEnd(s, i)..]
  }

  /** On a single line (the version strings, padded with NULs to 41 bytes) the trim
      keeps exactly the text before the first NUL, and trimming again changes nothing. */
  lemma {:induction false} TrimSingleLine(s: Bytes)
    requires forall j :: 0 <= j < |s| ==> !IsLineTerminator(s[j])
    ensures TrimAtNul(s) == s[..FirstNul(s)]
    ensures NoNul(TrimAtNul(s))
    ensures TrimAtNul(TrimAtNul(s)) == TrimAtNul(s)
  {
    var i := FirstNul(s);
    if i < |s| {
      assert LineEnd(s, i) == |s|;
    }
    var r := TrimAtNul(s);
    assert r == s[..i];
    assert NoNul(r);
  }

  /** Only the line holding the first NUL is cut: whatever follows its line break is
      kept, NULs included. */
  lemma {:induction false} TrimStopsAtLineBreak(s: Bytes, k: nat)
    requires k < |s| && IsLineTerminator(s[k])
    requires FirstNul(s) < k
    requires forall j :: FirstNul(s) <= j < k ==> !IsLineTerminator(s[j])
    ensures TrimAtNul(s) == s[..FirstNul(s)] + s[k..]
  {
    assert LineEnd(s, FirstNul(s)) == k;
  }
}
