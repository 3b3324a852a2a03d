/** Key bytes and the shifted "characters" a branch decides on (node.go). */
module Chars {

  /** An unsigned 8-bit key byte. */
  newtype byte = x: int | 0 <= x < 256

  /** Keys are arbitrary byte strings, the empty one included. */
  type Key = seq<byte>

  /** 256 byte values plus the terminal marker. */
  const BranchingFactor: nat := 257

  /** The character meaning "the key ended before this position". */
  const TerminalChar: nat := 0

  /** A character: 0 is the terminal marker, byte b is b + 1. */
  type Char = c: nat | c < 257

  /** The character of a real key byte; it is never the terminal marker
      and decodes back to the byte. */
  function CharFromByte(b: byte): (c: Char)
    ensures c != TerminalChar
    ensures (c - 1) as byte == b
  {
    b as int + 1
  }

  /** The character a key shows at a position: the terminal marker when the
      position is outside the key (negative positions included). */
  function CharAt(key: Key, index: int): (c: Char)
    ensures c == TerminalChar <==> !(0 <= index < |key|)
    ensures c != TerminalChar ==> key[index] == (c - 1) as byte
  {
    if 0 <= index && index < |key| then CharFromByte(key[index]) else TerminalChar
  }

  /** Two keys show the same character at a position exactly when both end
      before it or both hold the same byte there. */
  lemma CharAtAgree(a: Key, b: Key, i: int)
    ensures CharAt(a, i) == CharAt(b, i) <==>
      (!(0 <= i < |a|) && !(0 <= i < |b|)) || (0 <= i < |a| && 0 <= i < |b| && a[i] == b[i])
  {
  }

  /** Positions below the length of a common prefix show equal characters. */
  lemma CharAtPrefix(a: Key, b: Key, j: nat, i: int)
    requires j <= |a| && j <= |b| && a[..j] == b[..j]
    requires 0 <= i < j
    ensures CharAt(a, i) == CharAt(b, i)
  {
    assert a[i] == a[..j][i];
  }

  /** Keys sharing their first `j` bytes share every shorter prefix. */
  lemma PrefixShorter(a: Key, b: Key, j: nat, i: nat)
    requires i <= j <= |a| && j <= |b| && a[..j] == b[..j]
    ensures a[..i] == b[..i]
  {
    assert a[..i] == a[..j][..i];
    assert b[..i] == b[..j][..i];
  }

  /** The first position where two keys differ, or the shorter length when one
      is a prefix of the other (trie.go findCriticalIndex). */
  function CriticalIndex(a: Key, b: Key): (r: nat)
    ensures r <= |a| && r <= |b|
    ensures a[..r] == b[..r]
    ensures r < |a| && r < |b| ==> a[r] != b[r]
    decreases |a|
  {
    if |a| == 0 || |b| == 0 || a[0] != b[0] then 0
    else
      var r := 1 + CriticalIndex(a[1..], b[1..]);
      assert a[..r] == [a[0]] + a[1..][..r - 1];
      assert b[..r] == [b[0]] + b[1..][..r - 1];
      r
  }

  /** The loop of trie.go findCriticalIndex, scanning up to the shorter length. */
  method FindCriticalIndex(a: Key, b: Key) returns (r: nat)
    ensures r == CriticalIndex(a, b)
  {
    var length := |a|;
    if |b| < length {
      length := |b|;
    }
    var i := 0;
    while i < length
      invariant 0 <= i <= length
      invariant length == |a| || length == |b|
      invariant length <= |a| && length <= |b|
      invariant a[..i] == b[..i]
    {
      if a[i] != b[i] {
        CriticalIndexUnique(a, b, i);
        return i;
      }
      assert a[..i + 1] == a[..i] + [a[i]];
      assert b[..i + 1] == b[..i] + [b[i]];
      i := i + 1;
    }
    CriticalIndexUnique(a, b, length);
    return length;
  }

  /** The critical index is the only position up to the shorter length with a
      common prefix before it and a difference (or an end) at it. */
  lemma CriticalIndexUnique(a: Key, b: Key, r: nat)
    requires r <= |a| && r <= |b| && a[..r] == b[..r]
    requires r < |a| && r < |b| ==> a[r] != b[r]
    ensures r == CriticalIndex(a, b)
  {
  }

  /** Distinct keys show distinct characters at their critical index, so the
      two children of a fresh split branch never share a slot
      (trie.go:64-69, trie.go:79-83). */
  lemma CriticalCharsDiffer(a: Key, b: Key)
    requires a != b
    ensures CharAt(a, CriticalIndex(a, b)) != CharAt(b, CriticalIndex(a, b))
  {
  }
}
