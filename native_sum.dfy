/** The native summation kernel `fast_sum` of test/another-command/test.c.
    The C pointer `int64_t *values` is modelled as an array together with the
    offset the pointer starts at; advancing the pointer advances an index. */
module NativeSum {

  const Int64Min: int := -0x8000_0000_0000_0000
  const Int64Max: int := 0x7FFF_FFFF_FFFF_FFFF

  /** C's `int64_t`. Arithmetic on it is checked: leaving the range is an
      error in the model, just as signed overflow is undefined in C. */
  newtype int64 = x: int | -0x8000_0000_0000_0000 <= x < 0x8000_0000_0000_0000

  predicate InInt64Range(x: int) {
    Int64Min <= x <= Int64Max
  }

  /** The arithmetic sum of a sequence, taken from the front. */
  function Sum(s: seq<int64>): int {
    if s == [] then 0 else s[0] as int + Sum(s[1..])
  }

  /** Every running total that `fast_sum` forms on `s` (including the empty
      one) is an `int64`, so none of its additions overflows. */
  predicate PrefixSumsFit(s: seq<int64>) {
    forall k :: 0 <= k <= |s| ==> InInt64Range(Sum(s[..k]))
  }

  function Max0(n: int): nat {
    if n <= 0 then 0 else n
  }

  /** Appending one element adds it to the sum: the step of the C loop. */
  lemma {:induction false} SumSnoc(s: seq<int64>, x: int64)
    ensures Sum(s + [x]) == Sum(s) + x as int
  {
    if s != [] {
      assert (s + [x])[1..] == s[1..] + [x];
      SumSnoc(s[1..], x);
    }
  }

  /** Summing a concatenation is adding the sums of its parts. */
  lemma {:induction false} SumAppend(a: seq<int64>, b: seq<int64>)
    ensures Sum(a + b) == Sum(a) + Sum(b)
  {
    if a != [] {
      assert (a + b)[1..] == a[1..] + b;
      SumAppend(a[1..], b);
    } else {
      assert a + b == b;
    }
  }

  /** A sequence of non-negative elements has a non-negative sum. */
  lemma {:induction false} SumNonNegative(s: seq<int64>)
    requires forall i :: 0 <= i < |s| ==> 0 <= s[i]
    ensures 0 <= Sum(s)
  {
    if s != [] {
      SumNonNegative(s[1..]);
    }
  }

  /** For non-negative elements it is enough that the total fits: every
      running total lies between 0 and the total. */
  lemma NonNegativeTotalFits(s: seq<int64>)
    requires forall i :: 0 <= i < |s| ==> 0 <= s[i]
    requires InInt64Range(Sum(s))
    ensures PrefixSumsFit(s)
  {
    forall k | 0 <= k <= |s|
      ensures InInt64Range(Sum(s[..k]))
    {
      assert s == s[..k] + s[k..];
      SumAppend(s[..k], s[k..]);
      SumNonNegative(s[..k]);
      SumNonNegative(s[k..]);
    }
  }

  /** With elements of mixed sign a total that fits does not protect the
      running totals: on [max, 1, -1] the second partial sum overflows. */
  lemma TotalFitsButPrefixOverflows()
    ensures var s: seq<int64> := [Int64Max as int64, 1, -1];
      InInt64Range(Sum(s)) && !PrefixSumsFit(s)
  {
    var s: seq<int64> := [Int64Max as int64, 1, -1];
    var one: seq<int64> := [1];
    assert one[1..] == [];
    assert Sum([-1 as int64][1..]) == 0;
    assert s[..2] == [Int64Max as int64] + one && s[..2][1..] == one;
    assert s[1..] == one + [-1] && s[1..][1..] == [-1];
    assert Sum(s[..2]) == Int64Max + 1;
    assert Sum(s[1..][1..]) == -1;
    assert Sum(s[1..]) == 0;
  }

  /** `fast_sum(values + start, n)`: sums the `n` elements that follow the
      pointer. The counter is decremented before it is tested, so for any
      `n <= 0` no element is read and the result is 0. `visited` records the
      offsets dereferenced, in the order the loop dereferences them. The
      method has no `modifies` clause: the array is only read. */
  method FastSum(values: array<int64>, start: nat, n: int64)
    returns (sum: int64, ghost visited: seq<nat>)
    requires Int64Min < n as int
    requires start + Max0(n as int) <= values.Length
    requires PrefixSumsFit(values[start..start + Max0(n as int)])
    ensures sum as int == Sum(values[start..start + Max0(n as int)])
    ensures n <= 0 ==> sum == 0
    ensures |visited| == Max0(n as int)
    ensures forall i :: 0 <= i < |visited| ==> visited[i] == start + i
  {
    ghost var elems := values[start..start + Max0(n as int)];
    sum := 0;
    visited := [];
    var p := start;
    // `while (--n >= 0)`: the decrement happens before every test.
    var m := n - 1;
    while m >= 0
      invariant start <= p <= start + Max0(n as int)
      invariant m as int == n as int - 1 - (p - start)
      invariant sum as int == Sum(values[start..p])
      invariant |visited| == p - start
      invariant forall i :: 0 <= i < |visited| ==> visited[i] == start + i
      decreases m
    {
      ghost var k := p - start;
      assert values[start..p + 1] == values[start..p] + [values[p]];
      assert elems[..k + 1] == values[start..p + 1];
      SumSnoc(values[start..p], values[p]);
      sum := sum + values[p];
      visited := visited + [p];
      p := p + 1;
      m := m - 1;
    }
  }
}
