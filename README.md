# Summation bridge of `another-command`

This project models the integer-summation path of the `another-command`
demo program: the Go function `superFastSum`, which hands a slice of
`int64` to native code, and the C function `fast_sum`, which sums it.

- `native_sum.dfy`, module `NativeSum`: `fast_sum` from
  `test/another-command/test.c`. The C pointer is an `array<int64>` plus the
  offset it points at; `values++` advances that offset. The loop keeps C's
  shape: the counter is decremented before each test (`--n >= 0`). `int64`
  is a newtype over the signed 64-bit range, so every addition is checked to
  stay in range. `Sum` is the arithmetic sum of a sequence. `PrefixSumsFit`
  says that every running total of the loop is an `int64`.
- `bridge.dfy`, module `Bridge`: `superFastSum` from
  `test/another-command/main.go`. The Go slice is the array that backs it.
  cgo passes a pointer into that memory without copying. A ghost
  out-parameter records the foreign call, if any: the offset of the
  element whose address is taken, and the count. `SumOfOneAndTwo` is the
  call `superFastSum([]int64{1, 2})` made by `main`.

Neither method has a `modifies` clause, so Dafny checks that both only read
the array.

## Model

| member | source | states |
|---|---|---|
| NativeSum.FastSum | test/another-command/test.c:6-13 | The result is the arithmetic sum of the `max(n, 0)` elements after the pointer. Any `n <= 0`, including negative counts, reads nothing and returns 0. The loop dereferences exactly the offsets `start .. start+n-1`, each once and in increasing order, so it runs `max(n, 0)` times. Nothing past offset `n-1` is read and the array is not written. The loop invariant ties `sum` to the sum of the elements read so far and `n` to the number of steps taken. |
| NativeSum.SumSnoc | test/another-command/test.c:8-10 | One step of the loop, `sum += *(values++)`, adds the next element to the sum of the elements before it. |
| NativeSum.SumAppend | test/another-command/test.c:7-10 | The sum of a concatenation is the sum of the sums of its two parts, so a running total is a prefix sum plus nothing else. |
| NativeSum.SumNonNegative | test/another-command/test.c:9 | Elements that are all non-negative have a non-negative sum. |
| NativeSum.NonNegativeTotalFits | test/another-command/test.c:9 | If no element is negative and the total is an `int64`, then no running total of the loop overflows. The input `{1, 2}` is such a case. |
| NativeSum.TotalFitsButPrefixOverflows | test/another-command/test.c:9 | With elements of mixed sign a total that fits is not enough: on `[2^63-1, 1, -1]` the total fits but the second running total overflows. |
| Bridge.SuperFastSum | test/another-command/main.go:10-18 | The result is the arithmetic sum of the whole slice. An empty slice gives 0, records no foreign call and reads no element, so `&values[0]` is never formed. For a non-empty slice the recorded call to `fast_sum` has the address of element 0 and the count `len(values)`. The offsets read are `0 .. len-1`, once each and in order. The slice is not modified. |
| Bridge.SumOfOneAndTwo | test/another-command/main.go:22 | `superFastSum([]int64{1, 2})` returns 3, the value `main` prints. |

A natural contract for the bridge is "the sum, whenever the true total fits
in `int64`". The C loop needs more. Signed overflow is undefined behaviour in
C, so every running total must fit, not only the last one. The model follows
the code and requires `PrefixSumsFit`. `NonNegativeTotalFits` shows that the
two conditions agree when no element is negative. `TotalFitsButPrefixOverflows`
shows where they differ. This is not a defect of the source: with
two's-complement wrap-around, the usual behaviour of compiled code, the final
total would still come out right. Only the C language standard leaves the step
undefined.

## Left out

- `main`'s two `fmt.Println` lines and its call to `lib.Hello()` (test/another-command/main.go:20-24) are output, and a call into `test/lib`. `test/lib` is not part of this model. Only the `superFastSum([]int64{1, 2})` call of line 22 is modelled, as `Bridge.SumOfOneAndTwo`.
- The cgo and `unsafe.Pointer` mechanics are not modelled, and neither is the header `test.h` (main.go:3-4, 7, 15; test.c:1). The pointer is modelled as an array and an offset, not as raw memory. Go-to-C conversions of `int64` values are identities.
- Overflow is not modelled: no wrap-around and no saturation. Both methods require that every running total fits in `int64` (`PrefixSumsFit`), because the C addition is undefined behaviour otherwise.
- NativeSum.FastSum: requires `n > -2^63`. Decrementing the most negative `int64_t` in `--n` is undefined behaviour in C, so no result is promised for that count.
- Bridge.SuperFastSum: requires `len(values) <= 2^63-1`. Go's `int` is at most 64 bits wide, so every slice meets this and `C.int64_t(len(values))` is exact.
- Bridge.SuperFastSum: the contract does not count foreign calls. It ties the recorded call to the arguments passed and fixes the offsets read, but does not state that `fast_sum` is entered only once.
