/** Error codes, optional values and results shared by every component. */
module Core {

  /** The error codes of the kernel; only those that the modelled components return. */
  datatype ErrorCode =
    | Ok
    | OutOfMemory
    | InvalidPid
    | InvalidAddress
    | SegmentationFault
    | PermissionDenied
    | InvalidState
    | InvalidArgument
    | ResourceBusy
    | NotFound
    | AlreadyExists

  datatype Option<+T> = None | Some(value: T)

  /** A success value or an error code; `Result<()>` is the outcome of an operation that returns nothing else. */
  datatype Result<+T> = Success(value: T) | Failure(error: ErrorCode)

  type byte = b: int | 0 <= b < 256

  /** A strictly positive size. */
  type pos = n: int | 0 < n witness 1

  /** The process id that no process has. */
  const INVALID_PID: nat := 0

  function Max(a: nat, b: nat): nat {
    if a < b then b else a
  }

  function Min(a: nat, b: nat): nat {
    if a < b then a else b
  }

  lemma SmallRemainder(r: nat, n: nat)
    requires r < n
    ensures r % n == r
  {
  }

  ghost predicate Distinct<T>(s: seq<T>) {
    forall i, j | 0 <= i < j < |s| :: s[i] != s[j]
  }

  ghost function Members<T>(s: seq<T>): set<T> {
    set x | x in s
  }

  lemma {:induction false} MembersCount<T>(s: seq<T>)
    ensures |Members(s)| <= |s| && (Distinct(s) ==> |Members(s)| == |s|)
  {
    if s != [] {
      var n := |s| - 1;
      MembersCount(s[..n]);
      assert s == s[..n] + [s[n]];
      assert Members(s) == Members(s[..n]) + {s[n]};
      assert Distinct(s) ==> s[n] !in Members(s[..n]);
    }
  }

  lemma SomeMember<T>(s: seq<T>)
    ensures s == [] || exists x :: x in s
  {
    if s != [] {
      assert s[0] in s;
    }
  }

  /** The sequence without `x`. */
  function Without(s: seq<nat>, x: nat): (r: seq<nat>)
    ensures forall y :: y in r <==> y in s && y != x
    ensures x !in s ==> r == s
    ensures |r| <= |s|
  {
    if s == [] then []
    else
      var n := |s| - 1;
      assert s == s[..n] + [s[n]];
      if s[n] == x then Without(s[..n], x) else Without(s[..n], x) + [s[n]]
  }

  lemma {:induction false} WithoutKeepsDistinct(s: seq<nat>, x: nat)
    requires Distinct(s)
    ensures Distinct(Without(s, x))
  {
    if s != [] {
      var n := |s| - 1;
      WithoutKeepsDistinct(s[..n], x);
      assert s[n] !in s[..n];
    }
  }
}
