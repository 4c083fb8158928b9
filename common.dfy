/** Shared vocabulary of the audio engine: optional values, bytes, the two
    speaking detectives, and concatenation of a sequence of pieces. */
module Common {

  /** The conventional Some/None datatype, standing for a value or `null`. */
  datatype Option<+T> = None | Some(value: T)

  /** One element of a `Uint8Array`. */
  type byte = b: int | 0 <= b < 256

  /** The characters whose lines are spoken aloud (`'Harris' | 'Moore'`). */
  datatype Detective = Harris | Moore

  /** The pieces of `xs` joined in order. */
  function Flatten<T>(xs: seq<seq<T>>): seq<T>
  {
    if xs == [] then [] else Flatten(xs[..|xs| - 1]) + xs[|xs| - 1]
  }

  /** The sum of the lengths of the pieces, as `chunks.reduce((acc, c) => acc + c.length, 0)`. */
  function TotalLength<T>(xs: seq<seq<T>>): nat
  {
    if xs == [] then 0 else TotalLength(xs[..|xs| - 1]) + |xs[|xs| - 1]|
  }

  lemma {:induction false} FlattenLength<T>(xs: seq<seq<T>>)
    ensures |Flatten(xs)| == TotalLength(xs)
  {
    if xs != [] {
      FlattenLength(xs[..|xs| - 1]);
    }
  }

  lemma {:induction false} FlattenAppend<T>(xs: seq<seq<T>>, ys: seq<seq<T>>)
    ensures Flatten(xs + ys) == Flatten(xs) + Flatten(ys)
    decreases |ys|
  {
    if ys == [] {
      assert xs + ys == xs;
    } else {
      var init, last := ys[..|ys| - 1], ys[|ys| - 1];
      assert ys == init + [last];
      assert xs + ys == (xs + init) + [last];
      FlattenSnoc(xs + init, last);
      FlattenSnoc(init, last);
      FlattenAppend(xs, init);
    }
  }

  lemma FlattenSnoc<T>(xs: seq<seq<T>>, x: seq<T>)
    ensures Flatten(xs + [x]) == Flatten(xs) + x
  {
    assert (xs + [x])[..|xs|] == xs;
  }
}
