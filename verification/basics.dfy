/** Small shared datatypes: a nullable value, a computation that may throw,
    and the `nonNulls` list filter used when collecting channels. */
module Basics {

  /** A JavaScript value that may be `null`/`undefined`. */
  datatype Option<T> = None | Some(value: T)

  /** The result of code that either returns normally or throws; a thrown
      exception is kept only as its message. */
  datatype Result<T> = Ok(value: T) | Thrown(error: string)

  function Max(a: nat, b: nat): nat {
    if a < b then b else a
  }

  /** `nonNulls`: the non-null entries of `xs`, front to back. */
  function NonNulls<T(==)>(xs: seq<Option<T>>): (r: seq<T>)
    ensures |r| <= |xs|
    ensures forall j | 0 <= j < |r| :: Some(r[j]) in xs
    ensures forall i | 0 <= i < |xs| && xs[i].Some? :: xs[i].value in r
  {
    if |xs| == 0 then []
    else if xs[0].Some? then [xs[0].value] + NonNulls(xs[1..])
    else NonNulls(xs[1..])
  }

  /** Filtering distributes over concatenation, so the kept values keep
      their relative order. */
  lemma {:induction false} NonNullsAppend<T>(xs: seq<Option<T>>, ys: seq<Option<T>>)
    ensures NonNulls(xs + ys) == NonNulls(xs) + NonNulls(ys)
    decreases |xs|
  {
    if |xs| == 0 {
      assert xs + ys == ys;
    } else {
      assert (xs + ys)[1..] == xs[1..] + ys;
      NonNullsAppend(xs[1..], ys);
    }
  }

  /** Only nulls are dropped: a list without nulls loses nothing. */
  lemma {:induction false} NonNullsKeepsAllWhenNoNulls<T>(xs: seq<Option<T>>)
    requires forall i | 0 <= i < |xs| :: xs[i].Some?
    ensures |NonNulls(xs)| == |xs|
    ensures forall i | 0 <= i < |xs| :: NonNulls(xs)[i] == xs[i].value
    decreases |xs|
  {
    if |xs| > 0 {
      NonNullsKeepsAllWhenNoNulls(xs[1..]);
    }
  }
}
