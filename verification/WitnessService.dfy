/** The TPM witness daemon: a monotonic counter behind one lock, advanced by
    compare-and-set (witness_daemon/service.py, witness_daemon/tpm_cli.py). */

/** What one call promises on its own, and the service that keeps the promise. */
module WitnessService {

  datatype Call = Read | Advance(expected: nat)

  /** `Failed` stands for every propagated TpmUnavailableError, including a
      definite rejection of the increment. */
  datatype Reply = ReadValue(value: nat) | Conflict(value: nat) | Moved(value: nat) | Failed

  /** What becomes of one increment command: exit status zero, a non-zero
      status, or a timeout or OS failure that leaves the outcome unknown (it
      had landed, was lost, or is still on its way to the device). */
  datatype Increment = Applied | Refused | AmbiguousApplied | AmbiguousLost | AmbiguousPending

  predicate Lands(outcome: Increment) {
    outcome.Applied? || outcome.AmbiguousApplied?
  }

  /** The sequential specification: which reply a call may give when it runs
      alone and takes the counter from `before` to `after`. */
  ghost predicate Allowed(call: Call, before: nat, after: nat, reply: Reply) {
    match call
    case Read =>
      after == before && (reply == ReadValue(before) || reply == Failed)
    case Advance(expected) =>
      && (after == before || (before == expected && after == before + 1))
      && match reply
         case ReadValue(_) => false
         case Conflict(v) => before != expected && after == before && v == before
         case Moved(v) => before == expected && v == after
         case Failed => true
  }

  /** How one `advance` ends: its reply, the counter afterwards, and how many
      increments were issued. */
  datatype Ending = Ending(reply: Reply, counter: nat, increments: nat)

  /** `first` and `second` say whether the two reads worked. Every ending meets
      the sequential specification, and the caller is left without an answer
      exactly when a tool it needed failed. */
  function Ended(counter: nat, expected: nat, first: bool, outcome: Increment, second: bool): (e: Ending)
    ensures Allowed(Advance(expected), counter, e.counter, e.reply)
    ensures e.reply.Failed? <==> !first || (counter == expected && (outcome.Refused? || !second))
    ensures e.counter != counter <==> first && counter == expected && Lands(outcome)
    ensures e.increments == if first && !e.reply.Conflict? then 1 else 0
  {
    if !first then Ending(Failed, counter, 0)
    else if counter != expected then Ending(Conflict(counter), counter, 0)
    else
      var after := counter + (if Lands(outcome) then 1 else 0);
      if outcome.Refused? || !second then Ending(Failed, after, 1) else Ending(Moved(after), after, 1)
  }

  /** The device as tpm_cli.py presents it. `readWorks` and `outcomes` are the
      environment's choices, one per command issued. */
  class Tpm {
    var counter: nat
    var readCount: nat
    var incrementCount: nat
    const readWorks: nat -> bool
    const outcomes: nat -> Increment

    constructor (initial: nat, readWorks: nat -> bool, outcomes: nat -> Increment)
      ensures counter == initial && readCount == 0 && incrementCount == 0
      ensures this.readWorks == readWorks && this.outcomes == outcomes
    {
      counter, readCount, incrementCount := initial, 0, 0;
      this.readWorks, this.outcomes := readWorks, outcomes;
    }

    method ReadCounter() returns (ok: bool, value: nat)
      modifies this`readCount
      ensures ok == readWorks(old(readCount)) && value == counter && readCount == old(readCount) + 1
    {
      ok, value := readWorks(readCount), counter;
      readCount := readCount + 1;
    }

    method IncrementCounter() returns (outcome: Increment)
      modifies this`counter, this`incrementCount
      ensures outcome == outcomes(old(incrementCount)) && incrementCount == old(incrementCount) + 1
      ensures counter == old(counter) + if Lands(outcome) then 1 else 0
    {
      outcome := outcomes(incrementCount);
      incrementCount := incrementCount + 1;
      if Lands(outcome) {
        counter := counter + 1;
      }
    }
  }

  class Service {
    const tpm: Tpm

    constructor (tpm: Tpm)
      ensures this.tpm == tpm
    {
      this.tpm := tpm;
    }

    method Read() returns (reply: Reply)
      modifies tpm`readCount
      ensures reply == if tpm.readWorks(old(tpm.readCount)) then ReadValue(tpm.counter) else Failed
    {
      var ok, value := tpm.ReadCounter();
      reply := if ok then ReadValue(value) else Failed;
    }

    method Advance(expected: nat) returns (reply: Reply)
      modifies tpm
      ensures tpm.incrementCount >= old(tpm.incrementCount)
      ensures Ending(reply, tpm.counter, tpm.incrementCount - old(tpm.incrementCount)) ==
              Ended(old(tpm.counter), expected, tpm.readWorks(old(tpm.readCount)),
                    tpm.outcomes(old(tpm.incrementCount)), tpm.readWorks(old(tpm.readCount) + 1))
    {
      var ok, current := tpm.ReadCounter();
      if !ok {
        return Failed;
      }
      if current != expected {
        return Conflict(current);
      }
      var outcome := tpm.IncrementCounter();
      if outcome.Refused? {
        return Failed;
      }
      // Confirmed or ambiguous: one fresh read decides what is reported.
      var reread, value := tpm.ReadCounter();
      reply := if reread then Moved(value) else Failed;
    }
  }
}
