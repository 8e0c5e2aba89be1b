/** What an invocation does that the outside world sees: its requests to the
    server and the waits between them. */
module Events {
  import opened Bytes
  import opened Job

  datatype Event =
    | GetSd                                                      // the session request (`get_sd`)
    | SaveJson(sd: string, job: JobData)                         // the advance save of the job parameters
    | UploadPost(sd: string, fileName: string, chunk: seq<Byte>) // one attempt to post one chunk
    | Sleep(seconds: nat)                                        // the wait after a failed attempt
    | GaveUp(sd: string)                                         // the warning after the last attempt failed
    | RunPost(fields: map<string, string>)                       // the run request

  /** The number of post attempts among `events`. */
  function CountPosts(events: seq<Event>): nat {
    if events == [] then 0
    else (if events[0].UploadPost? then 1 else 0) + CountPosts(events[1..])
  }

  /** The waits among `events`, in order, in seconds. */
  function Sleeps(events: seq<Event>): seq<nat> {
    if events == [] then []
    else (if events[0].Sleep? then [events[0].seconds] else []) + Sleeps(events[1..])
  }

  /** The number of abandoned chunks among `events`. */
  function CountGaveUp(events: seq<Event>): nat {
    if events == [] then 0
    else (if events[0].GaveUp? then 1 else 0) + CountGaveUp(events[1..])
  }

  lemma {:induction false} CountsAppend(a: seq<Event>, b: seq<Event>)
    ensures CountPosts(a + b) == CountPosts(a) + CountPosts(b)
    ensures Sleeps(a + b) == Sleeps(a) + Sleeps(b)
    ensures CountGaveUp(a + b) == CountGaveUp(a) + CountGaveUp(b)
  {
    if a == [] {
      assert a + b == b;
    } else {
      assert (a + b)[1..] == a[1..] + b;
      CountsAppend(a[1..], b);
    }
  }
}

/**
 * The retry loop around each chunk's post: at most 20 attempts, stopping at
 * the first attempt that does not raise, with a wait of `i * 60` seconds after
 * failed attempt `i`. Any response counts as success, whatever its status.
 */
module Retry {
  import opened Wrappers
  import opened Events

  /** What one post attempt does: return a response, or raise an exception. */
  datatype Attempt = Returned | Raised(exception: string)

  const MaxAttempts: nat := 20

  /** The wait in seconds after failed attempt `i` (counted from 0). */
  function Backoff(i: nat): nat {
    i * 60
  }

  /** The events of the attempt loop from attempt `i` on. */
  function AttemptsFrom(post: Event, outcome: nat -> Attempt, i: nat): seq<Event>
    decreases MaxAttempts - i
  {
    if i >= MaxAttempts then []
    else if outcome(i).Returned? then [post]
    else [post, Sleep(Backoff(i))] + AttemptsFrom(post, outcome, i + 1)
  }

  /** The first attempt from `i` on that returns, or `MaxAttempts` when none of
      the remaining attempts does. */
  function FirstReturnFrom(outcome: nat -> Attempt, i: nat): (f: nat)
    requires i <= MaxAttempts
    ensures i <= f <= MaxAttempts
    ensures forall j :: i <= j < f ==> outcome(j).Raised?
    ensures f < MaxAttempts ==> outcome(f).Returned?
    decreases MaxAttempts - i
  {
    if i == MaxAttempts || outcome(i).Returned? then i else FirstReturnFrom(outcome, i + 1)
  }

  /** The waits after failed attempts `i` to `f - 1`. */
  function BackoffsFrom(i: nat, f: nat): (w: seq<nat>)
    requires i <= f
    ensures |w| == f - i
    ensures forall j :: 0 <= j < |w| ==> w[j] == Backoff(i + j)
    decreases f - i
  {
    if i == f then [] else [Backoff(i)] + BackoffsFrom(i + 1, f)
  }

  /** The attempt loop posts once per failed attempt plus once for the attempt
      that returns, if any, and waits `Backoff(j)` after each failed attempt `j`. */
  lemma {:induction false} AttemptCounts(post: Event, outcome: nat -> Attempt, i: nat)
    requires post.UploadPost? && i <= MaxAttempts
    decreases MaxAttempts - i
    ensures var f := FirstReturnFrom(outcome, i); var t := AttemptsFrom(post, outcome, i);
      && CountPosts(t) == (if f < MaxAttempts then f + 1 else MaxAttempts) - i
      && Sleeps(t) == BackoffsFrom(i, f)
      && CountGaveUp(t) == 0
  {
    var t := AttemptsFrom(post, outcome, i);
    if i < MaxAttempts {
      if outcome(i).Returned? {
        assert t[1..] == [];
      } else {
        var rest := AttemptsFrom(post, outcome, i + 1);
        AttemptCounts(post, outcome, i + 1);
        assert t == [post, Sleep(Backoff(i))] + rest;
        FailedAttemptCounts(post, Backoff(i), rest);
        var f := FirstReturnFrom(outcome, i);
        assert BackoffsFrom(i, f) == [Backoff(i)] + BackoffsFrom(i + 1, f);
      }
    }
  }

  /** A failed attempt adds one post and its wait to the events after it. */
  lemma FailedAttemptCounts(post: Event, wait: nat, rest: seq<Event>)
    requires post.UploadPost?
    ensures CountPosts([post, Sleep(wait)] + rest) == 1 + CountPosts(rest)
    ensures Sleeps([post, Sleep(wait)] + rest) == [wait] + Sleeps(rest)
    ensures CountGaveUp([post, Sleep(wait)] + rest) == CountGaveUp(rest)
  {
    CountsAppend([post, Sleep(wait)], rest);
    assert [post, Sleep(wait)][1..] == [Sleep(wait)];
  }

  /** Some attempt among the first `MaxAttempts` returns exactly when the
      first one that returns comes before the end of the loop. */
  lemma FirstReturnExists(outcome: nat -> Attempt)
    ensures FirstReturnFrom(outcome, 0) < MaxAttempts
        <==> exists j :: 0 <= j < MaxAttempts && outcome(j).Returned?
  {
  }

  /** The waits grow with the attempt number. */
  lemma BackoffsGrow(f: nat)
    ensures var w := BackoffsFrom(0, f);
      && (|w| > 0 ==> w[0] == 0)
      && (forall a, b :: 0 <= a <= b < |w| ==> w[a] <= w[b])
  {
  }

  /** Retry bound: a chunk gets at least one post and at most `MaxAttempts`;
      the waits start at 0 and never decrease; and exactly when every attempt
      raises, it gets `MaxAttempts` posts, each followed by its wait, so that
      the loop ends on a wait of 19 minutes. */
  lemma RetryBound(post: Event, outcome: nat -> Attempt)
    requires post.UploadPost?
    ensures var t := AttemptsFrom(post, outcome, 0); var w := Sleeps(t);
      && 1 <= CountPosts(t) <= MaxAttempts
      && (|w| > 0 ==> w[0] == 0)
      && (forall a, b :: 0 <= a <= b < |w| ==> w[a] <= w[b])
      && ((CountPosts(t) == MaxAttempts && |w| == MaxAttempts)
           <==> (forall j :: 0 <= j < MaxAttempts ==> outcome(j).Raised?))
      && ((forall j :: 0 <= j < MaxAttempts ==> outcome(j).Raised?) ==> t[|t| - 1] == Sleep(19 * 60))
  {
    PostBounds(post, outcome);
    WaitsGrow(post, outcome);
    ExhaustedIff(post, outcome);
    ExhaustedEndsOnWait(post, outcome);
  }

  lemma PostBounds(post: Event, outcome: nat -> Attempt)
    requires post.UploadPost?
    ensures 1 <= CountPosts(AttemptsFrom(post, outcome, 0)) <= MaxAttempts
  {
    AttemptCounts(post, outcome, 0);
  }

  lemma WaitsGrow(post: Event, outcome: nat -> Attempt)
    requires post.UploadPost?
    ensures var w := Sleeps(AttemptsFrom(post, outcome, 0));
      && (|w| > 0 ==> w[0] == 0)
      && (forall a, b :: 0 <= a <= b < |w| ==> w[a] <= w[b])
  {
    AttemptCounts(post, outcome, 0);
    BackoffsGrow(FirstReturnFrom(outcome, 0));
  }

  lemma ExhaustedEndsOnWait(post: Event, outcome: nat -> Attempt)
    ensures var t := AttemptsFrom(post, outcome, 0);
      (forall j :: 0 <= j < MaxAttempts ==> outcome(j).Raised?) ==> t[|t| - 1] == Sleep(19 * 60)
  {
    if forall j :: 0 <= j < MaxAttempts ==> outcome(j).Raised? {
      LastWait(post, outcome, 0);
    }
  }

  /** The loop makes all `MaxAttempts` posts and waits exactly when every
      attempt raises. */
  lemma ExhaustedIff(post: Event, outcome: nat -> Attempt)
    requires post.UploadPost?
    ensures var t := AttemptsFrom(post, outcome, 0);
      (CountPosts(t) == MaxAttempts && |Sleeps(t)| == MaxAttempts)
      <==> (forall j :: 0 <= j < MaxAttempts ==> outcome(j).Raised?)
  {
    var t := AttemptsFrom(post, outcome, 0);
    AttemptCounts(post, outcome, 0);
    ExhaustedCounts(CountPosts(t), |Sleeps(t)|, FirstReturnFrom(outcome, 0), outcome);
  }

  /** The counts of a loop whose first returning attempt is `f` reach
      `MaxAttempts` exactly when no attempt returns. */
  lemma ExhaustedCounts(posts: nat, waits: nat, f: nat, outcome: nat -> Attempt)
    requires f <= MaxAttempts
    requires forall j :: 0 <= j < f ==> outcome(j).Raised?
    requires f < MaxAttempts ==> outcome(f).Returned?
    requires posts == (if f < MaxAttempts then f + 1 else MaxAttempts) && waits == f
    ensures (posts == MaxAttempts && waits == MaxAttempts)
            <==> (forall j :: 0 <= j < MaxAttempts ==> outcome(j).Raised?)
  {
  }

  /** The sum of a sequence of waits. */
  function Total(w: seq<nat>): nat {
    if w == [] then 0 else w[0] + Total(w[1..])
  }

  /** The waits after failed attempts `i` to `f - 1` add up to
      `60 * (i + ... + (f - 1))` seconds. */
  lemma {:induction false} TotalBackoffs(i: nat, f: nat)
    requires i <= f
    decreases f - i
    ensures 2 * Total(BackoffsFrom(i, f)) == 60 * (f * (f - 1) - i * (i - 1))
  {
    if i < f {
      TotalBackoffs(i + 1, f);
      assert BackoffsFrom(i, f)[1..] == BackoffsFrom(i + 1, f);
      assert (i + 1) * i - i * (i - 1) == 2 * i;
    }
  }

  /** When every attempt raises, the loop waits 11400 seconds (3 hours and 10
      minutes) in all before it gives up on the chunk. */
  lemma ExhaustedWait(post: Event, outcome: nat -> Attempt)
    requires post.UploadPost?
    requires forall j :: 0 <= j < MaxAttempts ==> outcome(j).Raised?
    ensures Total(Sleeps(AttemptsFrom(post, outcome, 0))) == 11400
  {
    NoReturnReachesEnd(outcome);
    AttemptCounts(post, outcome, 0);
    TotalBackoffs(0, MaxAttempts);
    assert 2 * Total(BackoffsFrom(0, MaxAttempts)) == 60 * 380;
  }

  lemma NoReturnReachesEnd(outcome: nat -> Attempt)
    requires forall j :: 0 <= j < MaxAttempts ==> outcome(j).Raised?
    ensures FirstReturnFrom(outcome, 0) == MaxAttempts
  {
    var f := FirstReturnFrom(outcome, 0);
    if f < MaxAttempts {
      assert outcome(f).Raised?;
    }
  }

  /** When no attempt from `i` on returns, the loop ends with the wait after
      the last attempt. */
  lemma {:induction false} LastWait(post: Event, outcome: nat -> Attempt, i: nat)
    requires i < MaxAttempts
    requires forall j :: i <= j < MaxAttempts ==> outcome(j).Raised?
    decreases MaxAttempts - i
    ensures var t := AttemptsFrom(post, outcome, i); |t| > 0 && t[|t| - 1] == Sleep(Backoff(MaxAttempts - 1))
  {
    if i + 1 < MaxAttempts {
      LastWait(post, outcome, i + 1);
    }
  }

  /** The failed attempts `i` to `n - 1`: each posts and then waits. */
  function FailedRange(post: Event, i: nat, n: nat): seq<Event>
    requires i <= n
    decreases n - i
  {
    if i == n then [] else [post, Sleep(Backoff(i))] + FailedRange(post, i + 1, n)
  }

  lemma {:induction false} FailedRangeSnoc(post: Event, i: nat, n: nat)
    requires i <= n
    decreases n - i
    ensures FailedRange(post, i, n + 1) == FailedRange(post, i, n) + [post, Sleep(Backoff(n))]
  {
    if i < n {
      FailedRangeSnoc(post, i + 1, n);
    }
  }

  lemma AppendAssoc<T>(a: seq<T>, b: seq<T>, c: seq<T>)
    ensures a + (b + c) == (a + b) + c
  {
  }

  /** When attempts `i` to `n - 1` all raise, the loop from `i` is those failed
      attempts followed by the loop from `n`. */
  lemma {:induction false} AttemptsSplit(post: Event, outcome: nat -> Attempt, i: nat, n: nat)
    requires i <= n <= MaxAttempts
    requires forall j :: i <= j < n ==> outcome(j).Raised?
    decreases n - i
    ensures AttemptsFrom(post, outcome, i) == FailedRange(post, i, n) + AttemptsFrom(post, outcome, n)
  {
    if i < n {
      var step := [post, Sleep(Backoff(i))];
      assert AttemptsFrom(post, outcome, i) == step + AttemptsFrom(post, outcome, i + 1);
      assert FailedRange(post, i, n) == step + FailedRange(post, i + 1, n);
      AttemptsSplit(post, outcome, i + 1, n);
      AppendAssoc(step, FailedRange(post, i + 1, n), AttemptsFrom(post, outcome, n));
    } else {
      assert FailedRange(post, i, n) == [];
    }
  }

  /** The `for i in range(20)` loop: each attempt posts; a return ends the loop
      with no error; a raise records the exception class and waits. `error` is
      `None` where the source has `error == ''`. */
  method PostWithRetry(post: Event, outcome: nat -> Attempt) returns (events: seq<Event>, error: Option<string>)
    ensures events == AttemptsFrom(post, outcome, 0)
    ensures error.None? <==> exists j :: 0 <= j < MaxAttempts && outcome(j).Returned?
    ensures error.Some? ==> error == Some(outcome(MaxAttempts - 1).exception)
  {
    events := [];
    error := None;
    var i := 0;
    while i < MaxAttempts
      invariant 0 <= i <= MaxAttempts
      invariant events == FailedRange(post, 0, i)
      invariant forall j :: 0 <= j < i ==> outcome(j).Raised?
      invariant i == 0 ==> error.None?
      invariant i > 0 ==> error == Some(outcome(i - 1).exception)
    {
      events := events + [post];
      var result := outcome(i);
      if result.Returned? {
        ReturnedAt(post, outcome, i);
        error := None;
        return;
      }
      error := Some(result.exception);
      events := events + [Sleep(Backoff(i))];
      FailedRangeSnoc(post, 0, i);
      i := i + 1;
    }
    NoneReturned(post, outcome);
  }

  /** The loop that stops at attempt `i`, the first to return. */
  lemma ReturnedAt(post: Event, outcome: nat -> Attempt, i: nat)
    requires i < MaxAttempts && outcome(i).Returned?
    requires forall j :: 0 <= j < i ==> outcome(j).Raised?
    ensures AttemptsFrom(post, outcome, 0) == FailedRange(post, 0, i) + [post]
    ensures exists j :: 0 <= j < MaxAttempts && outcome(j).Returned?
  {
    AttemptsSplit(post, outcome, 0, i);
  }

  /** The loop in which every attempt raises. */
  lemma NoneReturned(post: Event, outcome: nat -> Attempt)
    requires forall j :: 0 <= j < MaxAttempts ==> outcome(j).Raised?
    ensures AttemptsFrom(post, outcome, 0) == FailedRange(post, 0, MaxAttempts)
    ensures !exists j :: 0 <= j < MaxAttempts && outcome(j).Returned?
  {
    AttemptsSplit(post, outcome, 0, MaxAttempts);
  }
}
