/** The exceptions the word-count pipeline can raise, as explicit values. */
module Faults {

  datatype Fault =
    | ZeroDivision        // `len(text) // num_threads` with num_threads == 0
    | ZeroSliceStep       // `range(0, len(text), 0)`: the slice width came out as 0
    | NonPositiveWorkers  // `ThreadPoolExecutor(max_workers=num_threads)` with num_threads < 0
    | EmptyReduce         // `functools.reduce` over an empty list with no initial value
    | NothingToUnpack     // `words, counts = zip(*[])`: the selection was empty

  datatype Result<T> = Ok(value: T) | Err(fault: Fault)
}
