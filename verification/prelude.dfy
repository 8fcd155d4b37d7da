/** Types and small sequence helpers shared by every module. */
module Prelude {

  datatype Option<+T> = None | Some(value: T) {
    function GetOr(default: T): T {
      if None? then default else value
    }
  }

  datatype Result<+T, +E> = Ok(value: T) | Err(error: E)

  type byte = b: int | 0 <= b < 256

  type Bytes = seq<bv8>

  /** File contents by path. */
  type Files = map<string, Bytes>

  datatype Uuid = Uuid(bits: nat)

  datatype WorkspaceStatus = Created | Active | Submitted | Merged | Discarded

  function Elems(s: seq<string>): set<string> { set x | x in s }

  ghost predicate NoDuplicates<T>(s: seq<T>) {
    forall i, j | 0 <= i < j < |s| :: s[i] != s[j]
  }

  /** The elements of a set in some order: the iteration order of a hash set or
      hash map is unspecified, so nothing more is promised. */
  method Elements<T(==)>(s: set<T>) returns (xs: seq<T>)
    ensures forall x :: x in xs <==> x in s
    ensures NoDuplicates(xs)
  {
    xs := [];
    var rest := s;
    while rest != {}
      invariant rest <= s
      invariant forall x :: x in xs <==> x in s - rest
      invariant NoDuplicates(xs)
      decreases rest
    {
      var x :| x in rest;
      assert x !in xs;
      ghost var older := xs;
      xs := xs + [x];
      rest := rest - {x};
      assert forall y :: y in xs <==> y == x || y in older;
    }
  }
}
