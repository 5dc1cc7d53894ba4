/** Bit sets as the library lays them out (src/base_struct/yf_bit_op.h): a 64-bit word
    is the sequence of its bits, least significant first. */
module BitOps {

  type Word = w: seq<bool> | |w| == 64 witness seq(64, i => false)

  const ZERO: Word := seq(64, i => false)

  /** The word with every bit moved `d` places down; the vacated top bits are clear. */
  function Shr(w: Word, d: nat): (r: Word)
    ensures forall s :: 0 <= s < 64 ==> r[s] == (s + d < 64 && w[s + d])
  {
    seq(64, s requires 0 <= s => s + d < 64 && w[s + d])
  }

  /** The word with every bit moved `d` places up; bits pushed past the top are lost. */
  function Shl(w: Word, d: nat): (r: Word)
    ensures forall s :: 0 <= s < 64 ==> r[s] == (s >= d && w[s - d])
  {
    seq(64, s requires 0 <= s < 64 => s >= d && w[s - d])
  }

  function Or(a: Word, b: Word): (r: Word)
    ensures forall s :: 0 <= s < 64 ==> r[s] == (a[s] || b[s])
  {
    seq(64, s requires 0 <= s < 64 => a[s] || b[s])
  }

  /** Bit `s` of the two-word set `flags[0]`, `flags[1]`. */
  predicate Bit(w0: Word, w1: Word, s: nat)
    requires s < 128
  {
    if s < 64 then w0[s] else w1[s - 64]
  }

  /** The set bits of a 16-bit value, lowest first: what one row of yf_bit_indexs lists
      before its end mark. */
  function SetBits(bits: seq<bool>): (r: seq<nat>)
    ensures forall k :: 0 <= k < |r| ==> r[k] < |bits| && bits[r[k]]
    ensures forall j, k :: 0 <= j < k < |r| ==> r[j] < r[k]
    ensures forall b :: 0 <= b < |bits| && bits[b] ==> b in r
  {
    if |bits| == 0 then [] else
      var n := |bits| - 1;
      var low := SetBits(bits[..n]);
      assert forall b :: 0 <= b < n ==> bits[..n][b] == bits[b];
      if bits[n] then low + [n] else low
  }

  const END_INDEX := -1

  /** Value of a bit sequence as an unsigned number. */
  function Value(bits: seq<bool>): nat
  {
    if |bits| == 0 then 0 else (if bits[0] then 1 else 0) + 2 * Value(bits[1..])
  }

  lemma {:induction false} ValueZero(bits: seq<bool>)
    ensures Value(bits) == 0 <==> forall b :: 0 <= b < |bits| ==> !bits[b]
  {
    if |bits| != 0 {
      ValueZero(bits[1..]);
      assert forall b :: 0 < b < |bits| ==> bits[b] == bits[1..][b - 1];
    }
  }

  /** One row of the table: the positions of the set bits of `v`, then the end mark. The loop
      shifts the value down until nothing is left. */
  method BitIndexRow(bits: seq<bool>) returns (row: seq<int>)
    requires |bits| <= 16
    ensures |row| == |SetBits(bits)| + 1 && row[|row| - 1] == END_INDEX
    ensures forall k :: 0 <= k < |row| - 1 ==> row[k] == SetBits(bits)[k]
  {
    row := [];
    var val := Value(bits);
    var index := 0;
    while val != 0
      invariant index <= |bits| && val == Value(bits[index..])
      invariant |row| == |SetBits(bits[..index])|
      invariant forall k :: 0 <= k < |row| ==> row[k] == SetBits(bits[..index])[k]
      decreases val
    {
      assert index < |bits|;
      assert bits[..index + 1][..index] == bits[..index];
      assert bits[index..][1..] == bits[index + 1..];
      if val % 2 == 1 {
        row := row + [index];
      }
      val := val / 2;
      index := index + 1;
    }
    SetBitsTail(bits, index);
    row := row + [END_INDEX];
  }

  lemma {:induction false} SetBitsTail(bits: seq<bool>, k: nat)
    requires k <= |bits| && Value(bits[k..]) == 0
    ensures SetBits(bits) == SetBits(bits[..k])
    decreases |bits| - k
  {
    if k == |bits| {
      assert bits[..k] == bits;
    } else {
      ValueZero(bits[k..]);
      assert !bits[k..][0];
      assert bits[k..][1..] == bits[k + 1..];
      SetBitsTail(bits, k + 1);
      assert bits[..k + 1][..k] == bits[..k];
    }
  }
}
