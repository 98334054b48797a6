/** Bytes, optional values and the selection from a one-element set, used throughout the model. */
module Wrappers {
  newtype byte = b: int | 0 <= b < 256

  datatype Option<+T> = None | Some(value: T)

  /** The element of a one-element set. */
  function TheOne<T(==)>(s: set<T>): (x: T)
    requires |s| == 1
    ensures s == {x}
  {
    OneElement(s);
    var x :| x in s;
    x
  }

  lemma OneElement<T>(s: set<T>)
    requires |s| == 1
    ensures forall x, y | x in s && y in s :: x == y
    ensures forall x | x in s :: s == {x}
  {
    forall x, y | x in s && y in s ensures x == y {
      assert |s - {x}| == 0;
    }
  }

  lemma Associate<T>(a: seq<T>, b: seq<T>, c: seq<T>)
    ensures a + b + c == a + (b + c)
  {
  }
}
