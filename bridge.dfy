/** The Go side of the summation bridge, `superFastSum` of
    test/another-command/main.go. The Go slice is modelled by the array
    backing it: cgo hands `fast_sum` a pointer into that same memory, without
    copying. */
module Bridge {
  import opened NativeSum

  /** The one foreign call `superFastSum` may make: the offset of the element
      whose address is passed, and the count. */
  datatype NativeCall = NativeCall(offset: nat, count: int64)

  datatype Option<T> = None | Some(value: T)

  /** `superFastSum(values)`: 0 for an empty slice, reached without calling
      `fast_sum` and without forming `&values[0]`; otherwise `fast_sum` on the
      address of element 0 and `len(values)`. `call` records the arguments of
      the foreign call, if any, and those are the arguments passed;
      `visited` is the offsets the call dereferences, in order. The method has
      no `modifies` clause: the slice is only read. */
  method SuperFastSum(values: array<int64>)
    returns (r: int64, ghost call: Option<NativeCall>, ghost visited: seq<nat>)
    requires values.Length <= Int64Max
    requires PrefixSumsFit(values[..])
    ensures r as int == Sum(values[..])
    ensures call == None <==> values.Length == 0
    ensures call.Some? ==> call.value == NativeCall(0, values.Length as int64)
    ensures |visited| == values.Length
    ensures forall i :: 0 <= i < |visited| ==> visited[i] == i
  {
    if values.Length == 0 {
      return 0, None, [];
    }
    var c := NativeCall(0, values.Length as int64);
    assert values[c.offset..c.offset + Max0(c.count as int)] == values[..];
    r, visited := FastSum(values, c.offset, c.count);
    call := Some(c);
  }

  /** The call `superFastSum([]int64{1, 2})` made by `main`: it yields 3. */
  method SumOfOneAndTwo() returns (r: int64)
    ensures r == 3
  {
    var values := new int64[2];
    values[0], values[1] := 1, 2;
    ghost var s := values[..];
    assert s[1..] == [2] && s[1..][1..] == [];
    assert Sum(s[1..]) == 2;
    assert Sum(s) == 3;
    NonNegativeTotalFits(values[..]);
    ghost var call, visited;
    r, call, visited := SuperFastSum(values);
  }
}
