/** Shared vocabulary of the PrairieView loader model: optional values, results carrying the
    loader's exceptions, and the flattening of nested lists. */
module Common {

  datatype Option<+T> = None | Some(value: T)

  /** The exceptions that the loader and the reader raise, one constructor per cause. */
  datatype Error =
    | MissingElement            // a descriptor lookup that the code dereferences found nothing
    | AmbiguousZController      // zero or several Z controllers vary across the planes
    | DepthMismatch             // the Z list does not hold one entry per plane
    | EmptyZList                // the reader's Z list is empty after removing the repeated value
    | DivisionByZero            // num_planes or scan_duration is zero in the frame adjustment
    | AmbiguousPlane            // plane omitted while several planes exist
    | AmbiguousChannel          // channel omitted while several channels exist
    | InvalidPlane              // supplied plane is not one of the plane indices
    | InvalidChannel            // supplied channel is not one of the channels
    | NoPlaneIndices            // plane omitted and the plane list is empty
    | NoChannels                // channel omitted and the channel list is empty
    | MissingKey(key: string)   // a metadata entry that a failed adjustment left out
    | UnreadableSource(name: string)
    | CorruptSourcePage(name: string)

  datatype Result<+T> = Success(value: T) | Failure(error: Error) {
    predicate IsFailure() { Failure? }
    function PropagateFailure<U>(): Result<U> requires Failure? { Failure(error) }
    function Extract(): T requires Success? { value }
  }

  /** The elements of a list, as a set. */
  function Elems<T>(s: seq<T>): set<T> { set x | x in s }

  /** Concatenation of a list of lists, in order. */
  function Flatten<T>(ss: seq<seq<T>>): seq<T> {
    if ss == [] then [] else Flatten(ss[..|ss| - 1]) + ss[|ss| - 1]
  }

  lemma {:induction false} FlattenAppend<T>(a: seq<seq<T>>, b: seq<seq<T>>)
    ensures Flatten(a + b) == Flatten(a) + Flatten(b)
    decreases |b|
  {
    if b == [] {
      assert a + b == a;
    } else {
      var b' := b[..|b| - 1];
      assert (a + b)[..|a + b| - 1] == a + b';
      FlattenAppend(a, b');
    }
  }

  /** The sum of the lengths of a list of lists. */
  function TotalLength<T>(ss: seq<seq<T>>): nat {
    if ss == [] then 0 else TotalLength(ss[..|ss| - 1]) + |ss[|ss| - 1]|
  }

  lemma {:induction false} FlattenLength<T>(ss: seq<seq<T>>)
    ensures |Flatten(ss)| == TotalLength(ss)
  {
    if ss != [] { FlattenLength(ss[..|ss| - 1]); }
  }
}
