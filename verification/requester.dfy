/** `Requester` (src/core/requester.rs): its construction defaults and the pick of
    the next URL from the shared work queue. The concurrent request loop, which
    spawns tasks and sends HTTP requests, is not modelled. */
module Requester {
  import opened Wrappers

  const DEFAULT_MAX_CONCURRENCY: nat := 20

  /** The request options are opaque to the requester; `O` stands for them. */
  datatype Requester<O> = Requester(options: O, maxConcurrency: nat)

  /** `new`: each missing argument takes its default. */
  function New<O>(maxConcurrency: Option<nat>, options: Option<O>, defaultOptions: O): (r: Requester<O>)
    ensures r.maxConcurrency == if maxConcurrency.Some? then maxConcurrency.value else DEFAULT_MAX_CONCURRENCY
    ensures r.options == if options.Some? then options.value else defaultOptions
  {
    Requester(options.GetOr(defaultOptions), maxConcurrency.GetOr(DEFAULT_MAX_CONCURRENCY))
  }

  /** The index of the first queued URL not yet processed. */
  function FirstUnprocessed(queue: seq<string>, processed: set<string>): (r: Option<nat>)
    ensures r.None? <==> forall i :: 0 <= i < |queue| ==> queue[i] in processed
    ensures r.Some? ==> r.value < |queue| && queue[r.value] !in processed &&
                        forall i :: 0 <= i < r.value ==> queue[i] in processed
    decreases |queue|
  {
    if |queue| == 0 then None
    else if queue[0] !in processed then Some(0)
    else
      match FirstUnprocessed(queue[1..], processed)
      case None => None
      case Some(i) => Some(i + 1)
  }

  /** `get_next_url`: the first unprocessed URL in queue order, removed from the
      queue; the queue stays as it is when every URL has been processed. */
  function GetNextUrl(queue: seq<string>, processed: set<string>): (r: (Option<string>, seq<string>))
    ensures r.0.None? <==> forall i :: 0 <= i < |queue| ==> queue[i] in processed
    ensures r.0.None? ==> r.1 == queue
    ensures r.0.Some? ==> r.0.value !in processed
    ensures r.0.Some? ==> exists i :: 0 <= i < |queue| && queue[i] == r.0.value &&
                                     (forall j :: 0 <= j < i ==> queue[j] in processed) &&
                                     r.1 == queue[..i] + queue[i + 1..]
  {
    match FirstUnprocessed(queue, processed)
    case None => (None, queue)
    case Some(i) => (Some(queue[i]), queue[..i] + queue[i + 1..])
  }

  /** A pick takes exactly one occurrence out of the queue and keeps the rest. */
  lemma GetNextUrlRemovesOne(queue: seq<string>, processed: set<string>)
    requires GetNextUrl(queue, processed).0.Some?
    ensures var (u, rest) := GetNextUrl(queue, processed);
      multiset(rest) + multiset{u.value} == multiset(queue) && |rest| == |queue| - 1
  {
    var i := FirstUnprocessed(queue, processed).value;
    assert queue == queue[..i] + [queue[i]] + queue[i + 1..];
  }

  /** Marking each picked URL as processed, as the request loop does, picks every
      URL at most once: after `u` is marked, no later pick returns `u`. */
  lemma PickedNotPickedAgain(queue: seq<string>, processed: set<string>, more: seq<string>)
    requires GetNextUrl(queue, processed).0.Some?
    ensures var (u, rest) := GetNextUrl(queue, processed);
      GetNextUrl(rest + more, processed + {u.value}).0 != u
  {
  }

  /** Picks from the queue, marking each as processed, until none is left or
      `n` picks have been made. */
  function Drain(queue: seq<string>, processed: set<string>, n: nat): (r: seq<string>)
    ensures |r| <= n
    ensures forall i :: 0 <= i < |r| ==> r[i] !in processed
    decreases n
  {
    if n == 0 then []
    else
      match GetNextUrl(queue, processed)
      case (None, _) => []
      case (Some(u), rest) => [u] + Drain(rest, processed + {u}, n - 1)
  }

  predicate Distinct(s: seq<string>) {
    forall i, j :: 0 <= i < j < |s| ==> s[i] != s[j]
  }

  /** Draining never yields the same URL twice, even from a queue that holds a
      URL several times. */
  lemma {:induction false} DrainDistinct(queue: seq<string>, processed: set<string>, n: nat)
    ensures Distinct(Drain(queue, processed, n))
    decreases n
  {
    if n > 0 {
      match GetNextUrl(queue, processed)
      case (None, _) =>
      case (Some(u), rest) =>
        DrainDistinct(rest, processed + {u}, n - 1);
        var tail := Drain(rest, processed + {u}, n - 1);
        assert Drain(queue, processed, n) == [u] + tail;
        var r := [u] + tail;
        forall i, j | 0 <= i < j < |r| ensures r[i] != r[j] {
          assert r[j] == tail[j - 1];
          if i > 0 {
            assert r[i] == tail[i - 1];
          } else {
            assert tail[j - 1] !in processed + {u};
          }
        }
    }
  }
}
