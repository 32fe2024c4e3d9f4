/** Running every lane once and summing up the outcome: the serial runtime and the pool's summary. */
module LaneDispatch {
  import opened Core

  /** The lane outcome that decides the answer: success, else the first real error, else idle. */
  function FirstError(codes: seq<ErrorCode>): (e: ErrorCode)
    ensures e == Ok <==> forall i | 0 <= i < |codes| :: codes[i] == Ok || codes[i] == NotFound
    ensures e != Ok ==>
              exists i :: 0 <= i < |codes| && codes[i] == e && e != NotFound &&
                          forall j | 0 <= j < i :: codes[j] == Ok || codes[j] == NotFound
  {
    if codes == [] then Ok
    else
      var n := |codes| - 1;
      var before := FirstError(codes[..n]);
      if before != Ok || codes[n] == NotFound then before else codes[n]
  }

  function Summary(codes: seq<ErrorCode>): Result<()> {
    if Ok in codes then Success(())
    else if FirstError(codes) != Ok then Failure(FirstError(codes))
    else Failure(NotFound)
  }

  /**
   Success exactly if some lane succeeded; else the first outcome that is more than idleness;
   else not found.
   */
  ghost predicate SumsUp(codes: seq<ErrorCode>, r: Result<()>) {
    && (r.Success? <==> exists i :: 0 <= i < |codes| && codes[i] == Ok)
    && (r.Failure? && r.error != NotFound ==>
          exists i :: 0 <= i < |codes| && codes[i] == r.error && forall j | 0 <= j < i :: codes[j] == NotFound)
    && (r == Failure(NotFound) <==> forall i | 0 <= i < |codes| :: codes[i] == NotFound)
  }

  lemma SummarySumsUp(codes: seq<ErrorCode>)
    ensures SumsUp(codes, Summary(codes))
  {
  }

  /** The outcomes leave no choice of answer. */
  lemma OneSum(codes: seq<ErrorCode>, r: Result<()>, q: Result<()>)
    requires SumsUp(codes, r) && SumsUp(codes, q)
    ensures (r.Success? <==> q.Success?) && (r.Failure? ==> r.error == q.error)
  {
    if r.Failure? && r.error != NotFound {
      var i :| 0 <= i < |codes| && codes[i] == r.error && forall j | 0 <= j < i :: codes[j] == NotFound;
      var k :| 0 <= k < |codes| && codes[k] == q.error && forall j | 0 <= j < k :: codes[j] == NotFound;
    }
  }

  /** The summary loop of the pool. */
  method AggregateDispatchErrors(laneErrors: seq<ErrorCode>) returns (r: Result<()>)
    ensures r == Summary(laneErrors) && SumsUp(laneErrors, r)
  {
    SummarySumsUp(laneErrors);
    var anySuccess, firstError := false, Ok;
    for i := 0 to |laneErrors|
      invariant anySuccess == (Ok in laneErrors[..i])
      invariant firstError == FirstError(laneErrors[..i])
    {
      assert laneErrors[..i + 1][..i] == laneErrors[..i];
      assert laneErrors[..i + 1] == laneErrors[..i] + [laneErrors[i]];
      if laneErrors[i] == Ok {
        anySuccess := true;
      } else if firstError == Ok && laneErrors[i] != NotFound {
        firstError := laneErrors[i];
      }
    }
    assert laneErrors[..|laneErrors|] == laneErrors;
    if anySuccess {
      return Success(());
    }
    if firstError != Ok {
      return Failure(firstError);
    }
    return Failure(NotFound);
  }

  /** Every lane after it ran once. */
  function LanesAfter<L>(lanes: seq<L>, act: L -> (L, ErrorCode)): (r: seq<L>)
    ensures |r| == |lanes|
    ensures forall i | 0 <= i < |lanes| :: r[i] == act(lanes[i]).0
  {
    seq(|lanes|, i requires 0 <= i < |lanes| => act(lanes[i]).0)
  }

  function CodesAfter<L>(lanes: seq<L>, act: L -> (L, ErrorCode)): (r: seq<ErrorCode>)
    ensures |r| == |lanes|
    ensures forall i | 0 <= i < |lanes| :: r[i] == act(lanes[i]).1
  {
    seq(|lanes|, i requires 0 <= i < |lanes| => act(lanes[i]).1)
  }

  /** The serial runtime: one lane after the other on the calling thread. */
  method SerialDispatch<L>(lanes: seq<L>, act: L -> (L, ErrorCode)) returns (lanes': seq<L>, r: Result<()>)
    ensures lanes == [] ==> lanes' == lanes && r == Failure(InvalidState)
    ensures lanes != [] ==> lanes' == LanesAfter(lanes, act) && r == Summary(CodesAfter(lanes, act))
    ensures lanes != [] ==> SumsUp(CodesAfter(lanes, act), r)
  {
    if lanes == [] {
      return lanes, Failure(InvalidState);
    }
    var anySuccess, firstError := false, Ok;
    ghost var codes := CodesAfter(lanes, act);
    SummarySumsUp(codes);
    lanes' := lanes;
    for i := 0 to |lanes|
      invariant |lanes'| == |lanes|
      invariant forall j | 0 <= j < i :: lanes'[j] == act(lanes[j]).0
      invariant forall j | i <= j < |lanes| :: lanes'[j] == lanes[j]
      invariant anySuccess == (Ok in codes[..i])
      invariant firstError == FirstError(codes[..i])
    {
      assert codes[..i + 1][..i] == codes[..i];
      assert codes[..i + 1] == codes[..i] + [codes[i]];
      var (lane, code) := act(lanes'[i]);
      lanes' := lanes'[i := lane];
      if code == Ok {
        anySuccess := true;
      } else if firstError == Ok && code != NotFound {
        firstError := code;
      }
    }
    assert codes[..|lanes|] == codes;
    assert lanes' == LanesAfter(lanes, act);
    if anySuccess {
      return lanes', Success(());
    }
    if firstError != Ok {
      return lanes', Failure(firstError);
    }
    return lanes', Failure(NotFound);
  }
}
