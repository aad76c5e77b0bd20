/** Small shared vocabulary: optional values and results of operations that may raise. */
module Prelude {

  datatype Option<+T> = None | Some(value: T)

  /** The outcome of an operation of the source that either returns or raises. */
  datatype Result<+T> = Returned(value: T) | Raised

  /** The length limits of the `Identifier` strings of `contracts.py`. */
  predicate IsIdentifier(s: string) {
    1 <= |s| <= 160
  }

  /** A harness clock reading in nanoseconds. */
  type Nanos = nat

  /** The pieces of a list of lists, laid end to end. */
  function Flatten<T>(parts: seq<seq<T>>): (whole: seq<T>) {
    if parts == [] then [] else parts[0] + Flatten(parts[1..])
  }

  lemma {:induction false} FlattenAppend<T>(left: seq<seq<T>>, right: seq<seq<T>>)
    ensures Flatten(left + right) == Flatten(left) + Flatten(right)
  {
    if left == [] {
      assert left + right == right;
    } else {
      assert (left + right)[1..] == left[1..] + right;
      FlattenAppend(left[1..], right);
    }
  }

  lemma FlattenSnoc<T>(parts: seq<seq<T>>, last: seq<T>)
    ensures Flatten(parts + [last]) == Flatten(parts) + last
  {
    FlattenAppend(parts, [last]);
    assert Flatten([last]) == last + Flatten([last][1..]) == last;
  }

  lemma FlattenFew<T>(a: seq<T>, b: seq<T>)
    ensures Flatten([a]) == a && Flatten([a, b]) == a + b
  {
    assert [a][1..] == [] && [b][1..] == [] && [a, b][1..] == [b];
    ConcatNothing(a);
    ConcatNothing(b);
  }

  lemma ConcatAssociates<T>(a: seq<T>, b: seq<T>, c: seq<T>)
    ensures a + b + c == a + (b + c)
  {
  }

  lemma ConcatNothing<T>(a: seq<T>)
    ensures a + [] == a && [] + a == a
  {
  }

  lemma SliceOfSlice<T>(s: seq<T>, i: nat, j: nat)
    requires i + j <= |s|
    ensures s[i..][j..] == s[i + j..]
  {
  }

  lemma InitOfConcat<T>(a: seq<T>, b: seq<T>)
    requires b != []
    ensures a + b != [] && (a + b)[..|a + b| - 1] == a + b[..|b| - 1] && (a + b)[|a + b| - 1] == b[|b| - 1]
  {
  }

  lemma SplitAt<T>(s: seq<T>, at: nat)
    requires at <= |s|
    ensures s == s[..at] + s[at..]
  {
  }
}
