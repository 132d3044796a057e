/** The health monitor's retry of its exchange and queue declarations: one stored counter, raised by
    every refused declaration and reset by a successful exchange declaration alone. */
module DeclareBackoff {
  import opened Powers

  const INITIAL_DELAY := 1000
  const MAX_DELAY := 64000

  /** `calculate_delay`, in milliseconds. */
  function Delay(attempt: nat): nat {
    var delay := INITIAL_DELAY * Pow2(attempt);
    if delay <= MAX_DELAY then delay else MAX_DELAY
  }

  lemma DelayShape(a: nat, b: nat)
    requires a <= b
    ensures 1000 <= Delay(a) <= Delay(b) <= 64000
    ensures Delay(b) == 64000 <==> b >= 6
    ensures b <= 6 ==> Delay(b) == 1000 * Pow2(b)
  {
    Pow2Grows(a, b);
    assert Pow2(5) == 32 && Pow2(6) == 64;
    if b >= 6 {
      Pow2Grows(6, b);
    } else {
      Pow2Grows(b, 5);
    }
  }

  /** What the broker does with a declaration: accepts it, answers an error, or makes the call raise. */
  datatype Outcome = Accepted | Refused | Raised

  /** What a run of connections did, as far as the counter is concerned. */
  datatype Event = ExchangeDeclared | DeclarationFailed

  function FailuresSince(log: seq<Event>): nat
    decreases |log|
  {
    if log == [] then 0
    else match log[|log| - 1]
      case ExchangeDeclared => 0
      case DeclarationFailed => FailuresSince(log[..|log| - 1]) + 1
  }

  /** The waits a log amounts to: each failure waits by the failures before it since the last success. */
  function WaitsOf(log: seq<Event>): seq<nat>
    decreases |log|
  {
    if log == [] then []
    else
      var before := log[..|log| - 1];
      WaitsOf(before) + if log[|log| - 1].DeclarationFailed? then [Delay(FailuresSince(before))] else []
  }

  lemma Snoc(log: seq<Event>, e: Event)
    ensures FailuresSince(log + [e]) == if e.ExchangeDeclared? then 0 else FailuresSince(log) + 1
    ensures WaitsOf(log + [e]) == WaitsOf(log) + if e.DeclarationFailed? then [Delay(FailuresSince(log))] else []
  {
  }

  lemma {:induction false} FailuresAlong(log: seq<Event>, i: nat, j: nat)
    requires i <= j <= |log| && forall k :: i <= k < j ==> log[k].DeclarationFailed?
    ensures FailuresSince(log[..j]) == FailuresSince(log[..i]) + (j - i)
    decreases j - i
  {
    if i < j {
      FailuresAlong(log, i, j - 1);
      assert log[..j] == log[..j - 1] + [log[j - 1]];
      Snoc(log[..j - 1], log[j - 1]);
    }
  }

  /** The wait a failure at position `i` of a log causes. */
  function WaitAt(log: seq<Event>, i: nat): nat
    requires i < |log|
  {
    Delay(FailuresSince(log[..i]))
  }

  /** While no exchange declaration succeeds, waits never get shorter: each doubles the one before
      until the sixth doubling, and from there all are the longest. */
  lemma WaitsBetweenResets(log: seq<Event>, i: nat, j: nat)
    requires i < j < |log| && forall k :: i <= k < j ==> log[k].DeclarationFailed?
    ensures WaitAt(log, i) <= WaitAt(log, j) <= 64000
    ensures j == i + 1 && FailuresSince(log[..i]) < 6 ==> WaitAt(log, j) == 2 * WaitAt(log, i)
    ensures j - i >= 6 ==> WaitAt(log, j) == 64000
  {
    FailuresAlong(log, i, j);
    var k := FailuresSince(log[..i]);
    DelayShape(k, k + (j - i));
    DelayShape(k, k);
    DelayShape(k, k + 1);
  }

  lemma Regroup<T>(x: seq<T>, y: seq<T>, z: seq<T>)
    ensures x + y + z == x + (y + z)
  {
  }

  /** The declaration does not keep being refused. */
  predicate Ends(outcomes: seq<Outcome>)
    decreases |outcomes|
  {
    outcomes != [] && (!outcomes[0].Refused? || Ends(outcomes[1..]))
  }

  function ExchangeEvents(outcomes: seq<Outcome>): seq<Event>
    decreases |outcomes|
  {
    if outcomes == [] then []
    else match outcomes[0]
      case Accepted => [ExchangeDeclared]
      case Raised => []
      case Refused => [DeclarationFailed] + ExchangeEvents(outcomes[1..])
  }

  function QueueEvents(outcomes: seq<Outcome>): seq<Event>
    decreases |outcomes|
  {
    if outcomes == [] || !outcomes[0].Refused? then [] else [DeclarationFailed] + QueueEvents(outcomes[1..])
  }

  /** One wait for each refusal before the first other outcome, by a counter that starts at `from`. */
  ghost predicate Refusals(outcomes: seq<Outcome>, waits: seq<nat>, from: nat) {
    && |waits| <= |outcomes|
    && (|waits| < |outcomes| ==> !outcomes[|waits|].Refused?)
    && (forall i :: 0 <= i < |waits| ==> outcomes[i].Refused? && waits[i] == Delay(from + i))
  }

  lemma OneMoreRefusal(outcomes: seq<Outcome>, more: seq<nat>, from: nat)
    requires outcomes != [] && outcomes[0].Refused? && Refusals(outcomes[1..], more, from + 1)
    ensures Refusals(outcomes, [Delay(from)] + more, from)
    ensures 1 + |more| < |outcomes| ==> outcomes[1 + |more|] == outcomes[1..][|more|]
  {
    var waits := [Delay(from)] + more;
    forall i | 0 <= i < |waits| ensures outcomes[i].Refused? && waits[i] == Delay(from + i) {
      if i > 0 {
        assert outcomes[1..][i - 1] == outcomes[i] && waits[i] == more[i - 1];
      }
    }
  }

  class HealthSubscriber {
    var counter: nat
    ghost var log: seq<Event>   // since the subscriber started

    ghost predicate Valid()
      reads this
    {
      counter == FailuresSince(log)
    }

    constructor ()
      ensures Valid() && log == []
    {
      counter, log := 0, [];
    }

    method IncrementBackoff() returns (attempt: nat)
      modifies `counter
      ensures attempt == old(counter) && counter == old(counter) + 1
    {
      attempt := counter;
      counter := attempt + 1;
    }

    method ResetBackoff()
      modifies `counter
      ensures counter == 0
    {
      counter := 0;
    }

    /** `ensure_exchange` against the broker's next outcomes. It ends when the exchange is declared or
        the call raises, which is rescued: there is one wait for each refusal before that. */
    method EnsureExchange(outcomes: seq<Outcome>) returns (waits: seq<nat>, ended: bool)
      requires Valid()
      modifies this
      ensures Valid() && log == old(log) + ExchangeEvents(outcomes)
      ensures WaitsOf(log) == WaitsOf(old(log)) + waits
      ensures ended <==> |waits| < |outcomes|
      ensures Refusals(outcomes, waits, old(counter))
      ensures counter == if ended && outcomes[|waits|].Accepted? then 0 else old(counter) + |waits|
      ensures ended <==> Ends(outcomes)
      decreases |outcomes|
    {
      if outcomes == [] || outcomes[0].Raised? {
        assert log + [] == log;
        return [], outcomes != [];
      }
      if outcomes[0].Accepted? {
        SucceedOnce();
        return [], true;
      }
      ghost var before := log;
      var delay := FailOnce();
      var more;
      more, ended := EnsureExchange(outcomes[1..]);
      waits := [delay] + more;
      OneMoreRefusal(outcomes, more, old(counter));
      Regroup(before, [DeclarationFailed], ExchangeEvents(outcomes[1..]));
      Regroup(WaitsOf(before), [delay], more);
    }

    method SucceedOnce()
      modifies this
      ensures Valid() && counter == 0 && log == old(log) + [ExchangeDeclared] && WaitsOf(log) == WaitsOf(old(log))
    {
      Snoc(log, ExchangeDeclared);
      ResetBackoff();
      log := log + [ExchangeDeclared];
    }

    /** An error answer: the counter is raised, and the wait goes by its old value. */
    method FailOnce() returns (delay: nat)
      requires Valid()
      modifies this
      ensures Valid() && delay == Delay(old(counter)) && counter == old(counter) + 1
      ensures log == old(log) + [DeclarationFailed]
      ensures WaitsOf(log) == WaitsOf(old(log)) + [delay]
    {
      Snoc(log, DeclarationFailed);
      var attempt := IncrementBackoff();
      delay := Delay(attempt);
      log := log + [DeclarationFailed];
    }

    /** `ensure_queue`: as above, but a declared queue leaves the counter as it is. */
    method EnsureQueue(outcomes: seq<Outcome>) returns (waits: seq<nat>, ended: bool)
      requires Valid()
      modifies this
      ensures Valid() && log == old(log) + QueueEvents(outcomes)
      ensures WaitsOf(log) == WaitsOf(old(log)) + waits
      ensures ended <==> |waits| < |outcomes|
      ensures Refusals(outcomes, waits, old(counter))
      ensures counter == old(counter) + |waits|
      ensures ended <==> Ends(outcomes)
      decreases |outcomes|
    {
      if outcomes == [] || !outcomes[0].Refused? {
        assert log + [] == log;
        return [], outcomes != [];
      }
      ghost var before := log;
      var delay := FailOnce();
      var more;
      more, ended := EnsureQueue(outcomes[1..]);
      waits := [delay] + more;
      OneMoreRefusal(outcomes, more, old(counter));
      Regroup(before, [DeclarationFailed], QueueEvents(outcomes[1..]));
      Regroup(WaitsOf(before), [delay], more);
    }

    /** `after_connect`: the queue is tried even when declaring the exchange raised, and its waits go on
        from the counter the exchange left. */
    method AfterConnect(exchange: seq<Outcome>, queue: seq<Outcome>) returns (first: seq<nat>, second: seq<nat>)
      requires Valid()
      modifies this
      ensures Valid()
      ensures log == old(log) + ExchangeEvents(exchange) + if Ends(exchange) then QueueEvents(queue) else []
      ensures WaitsOf(log) == WaitsOf(old(log)) + first + second
      ensures Refusals(exchange, first, old(counter))
      ensures if |first| == |exchange| then second == [] && counter == old(counter) + |first|
              else
                var from := if exchange[|first|].Accepted? then 0 else old(counter) + |first|;
                Refusals(queue, second, from) && counter == from + |second|
    {
      var ended, declared;
      first, ended := EnsureExchange(exchange);
      second := [];
      if ended {
        second, declared := EnsureQueue(queue);
      }
    }
  }
}
