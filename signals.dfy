/** `handlesig`, installed for SIGINT and SIGTERM by all four daemons: the
    first such signal sets the global `done` flag that ends the serving
    loop, a second one exits at once with `EXIT_FAILURE`. */
module Signals {
  import opened Wrappers
  import opened CStrings

  const SIGINT: int := 2
  const SIGTERM: int := 15

  predicate Terminating(sig: int) { sig == SIGINT || sig == SIGTERM }

  /** The process as the handler sees it: `done`, and the status it exited
      with, if it has. */
  datatype Proc = Proc(done: bool, exited: Option<int>)

  /** One call of the handler on a running process. */
  function OnSignal(p: Proc, sig: int): Proc
  {
    if p.exited.Some? || !Terminating(sig) then p
    else if p.done then Proc(true, Some(EXIT_FAILURE))
    else Proc(true, None)
  }

  /** The handler called for each signal in turn. */
  function OnSignals(p: Proc, sigs: seq<int>): Proc
    decreases |sigs|
  {
    if sigs == [] then p else OnSignals(OnSignal(p, sigs[0]), sigs[1..])
  }

  /** How many of the signals are SIGINT or SIGTERM. */
  function CountTerminating(sigs: seq<int>): nat
  {
    if sigs == [] then 0 else (if Terminating(sigs[0]) then 1 else 0) + CountTerminating(sigs[1..])
  }

  /** From a fresh start: the process has exited (with EXIT_FAILURE) exactly
      when at least two terminating signals arrived, and `done` is set
      exactly when at least one did. */
  lemma {:induction false} SignalCount(sigs: seq<int>)
    ensures OnSignals(Proc(false, None), sigs).exited == (if CountTerminating(sigs) >= 2 then Some(EXIT_FAILURE) else None)
    ensures OnSignals(Proc(false, None), sigs).done <==> CountTerminating(sigs) >= 1
  {
    if sigs != [] {
      if Terminating(sigs[0]) {
        AfterFirst(sigs[1..]);
      } else {
        SignalCount(sigs[1..]);
      }
    }
  }

  /** After the first terminating signal: one more makes the process exit. */
  lemma {:induction false} AfterFirst(sigs: seq<int>)
    ensures OnSignals(Proc(true, None), sigs).done
    ensures OnSignals(Proc(true, None), sigs).exited == (if CountTerminating(sigs) >= 1 then Some(EXIT_FAILURE) else None)
  {
    if sigs != [] {
      if Terminating(sigs[0]) {
        Exited(sigs[1..]);
      } else {
        AfterFirst(sigs[1..]);
      }
    }
  }

  /** Nothing happens to a process that has exited. */
  lemma {:induction false} Exited(sigs: seq<int>)
    ensures OnSignals(Proc(true, Some(EXIT_FAILURE)), sigs) == Proc(true, Some(EXIT_FAILURE))
  {
    if sigs != [] {
      Exited(sigs[1..]);
    }
  }

  /** The global `done` and the exit of the process. */
  class Process {
    var done: bool
    var exited: Option<int>

    function State(): Proc
      reads this
    {
      Proc(done, exited)
    }

    constructor ()
      ensures State() == Proc(false, None)
    {
      done := false;
      exited := None;
    }

    /** `handlesig(sig)`. */
    method HandleSig(sig: int)
      requires exited.None?
      modifies this
      ensures State() == OnSignal(old(State()), sig)
    {
      if sig == SIGTERM || sig == SIGINT {
        if done {
          exited := Some(EXIT_FAILURE);
        } else {
          done := true;
        }
      }
    }
  }
}
