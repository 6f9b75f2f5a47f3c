/** The MediatR pipeline step that runs every registered validator before a handler
    and short-circuits with the collected failures. */
module ValidationBehavior {
  import opened Wrappers
  import opened Results

  /** The failures of one validator run: its `Errors` list, whose entries may be null. */
  type ValidationResult = seq<Option<string>>

  /** `SelectMany(r => r.Errors).Where(f => f != null)`: the failure messages of all
      runs, run by run and in each run's order, without the nulls. */
  function CollectFailures(results: seq<ValidationResult>): (failures: seq<string>)
    ensures failures == [] <==> forall i :: 0 <= i < |results| ==> AllNull(results[i])
  {
    if results == [] then []
    else
      var rest := CollectFailures(results[1..]);
      assert forall i :: 1 <= i < |results| ==> results[i] == results[1..][i - 1];
      Present(results[0]) + rest
  }

  /** Every entry of the run is null. */
  predicate AllNull(errors: ValidationResult) {
    forall j :: 0 <= j < |errors| ==> errors[j].None?
  }

  /** The non-null entries of one run, in order. */
  function Present(errors: ValidationResult): (messages: seq<string>)
    ensures messages == [] <==> AllNull(errors)
    ensures |messages| <= |errors|
  {
    if errors == [] then []
    else
      var rest := Present(errors[1..]);
      assert forall j :: 1 <= j < |errors| ==> errors[j] == errors[1..][j - 1];
      (if errors[0].Some? then [errors[0].value] else []) + rest
  }

  /** A message survives exactly when the run reported it. */
  lemma {:induction false} PresentMessages(errors: ValidationResult, m: string)
    ensures m in Present(errors) <==> Some(m) in errors
  {
    if errors != [] {
      PresentMessages(errors[1..], m);
      assert errors == [errors[0]] + errors[1..];
    }
  }

  /** Dropping the nulls of a run piece by piece: a run split in two keeps the first
      part's messages, then the second part's, each in its own order. */
  lemma {:induction false} PresentAppend(a: ValidationResult, b: ValidationResult)
    ensures Present(a + b) == Present(a) + Present(b)
  {
    if a != [] {
      assert (a + b)[0] == a[0] && (a + b)[1..] == a[1..] + b;
      PresentAppend(a[1..], b);
      var head := if a[0].Some? then [a[0].value] else [];
      assert Present(a + b) == head + Present(a[1..] + b);
      assert Present(a) == head + Present(a[1..]);
    } else {
      assert a + b == b;
    }
  }

  /** One entry keeps its message, or nothing when it is null. */
  lemma PresentSingle(e: Option<string>)
    ensures e.Some? ==> Present([e]) == [e.value]
    ensures e.None? ==> Present([e]) == []
  {
  }

  /** Collecting over two groups of validators is collecting over each in turn. */
  lemma {:induction false} CollectFailuresAppend(a: seq<ValidationResult>, b: seq<ValidationResult>)
    ensures CollectFailures(a + b) == CollectFailures(a) + CollectFailures(b)
  {
    if a != [] {
      assert (a + b)[1..] == a[1..] + b;
      CollectFailuresAppend(a[1..], b);
    } else {
      assert a + b == b;
    }
  }

  /** A message is collected exactly when some validator reported it. */
  lemma {:induction false} CollectedMessages(results: seq<ValidationResult>, m: string)
    ensures m in CollectFailures(results) <==> exists i :: 0 <= i < |results| && Some(m) in results[i]
  {
    if results != [] {
      CollectedMessages(results[1..], m);
      PresentMessages(results[0], m);
      assert forall i :: 1 <= i < |results| ==> results[i] == results[1..][i - 1];
      if m in CollectFailures(results[1..]) {
        var i :| 0 <= i < |results[1..]| && Some(m) in results[1..][i];
        assert Some(m) in results[i + 1];
      }
    }
  }

  /** `Handle`: `results` holds one entry per registered validator, `next` the result
      the rest of the pipeline produces. Returns the response and how many times
      `next` was invoked. */
  method Handle<T>(results: seq<ValidationResult>, next: Result<T>) returns (response: Result<T>, nextCalls: nat)
    ensures results == [] ==> response == next && nextCalls == 1
    ensures var failures := CollectFailures(results);
      && (failures != [] ==> response == Fail(PlainErrors(failures)) && nextCalls == 0)
      && (failures == [] ==> response == next && nextCalls == 1)
  {
    if |results| == 0 {
      return next, 1;
    }
    var failures := CollectFailures(results);
    if |failures| != 0 {
      var reasons: seq<Error> := [];
      for k := 0 to |failures|
        invariant |reasons| == k
        invariant forall i :: 0 <= i < k ==> reasons[i] == Plain(failures[i])
      {
        reasons := reasons + [Plain(failures[k])];
      }
      assert reasons == PlainErrors(failures);
      return Fail(reasons), 0;
    }
    return next, 1;
  }
}
