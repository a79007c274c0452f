/**
 The transaction-time logging switch: the class variables
 `@@log_transaction_time` and `@@logging_proc`, the class methods that set
 them, and `do_logged_transaction`, which runs the network call (the block)
 and then, when the switch is on, hands a log record to the registered proc.
 The switch is process-wide: every client shares the one object.
 */
module Logging {
  import opened Objects

  /** A block registered with `transaction_time_logging_on!`, by identity,
      with what calling it does: return normally (`raises == None`) or raise. */
  datatype Proc = Proc(id: nat, raises: Option<Exception>)

  /** What a logged transaction does, in order: run the block, call the proc. */
  datatype Event = BlockRan | ProcCalled(proc: Proc, url: Value)

  /** How running the block once ended. */
  datatype BlockOutcome = Returned(raw: RawResponse) | Raised(error: Exception)

  /** The events of one `do_logged_transaction` and the exception it lets escape. */
  datatype Logged = Logged(events: seq<Event>, raised: Option<Exception>)

  function ProcCalls(events: seq<Event>): nat {
    if |events| == 0 then 0
    else (if events[0].ProcCalled? then 1 else 0) + ProcCalls(events[1..])
  }

  function BlockRuns(events: seq<Event>): nat {
    if |events| == 0 then 0
    else (if events[0].BlockRan? then 1 else 0) + BlockRuns(events[1..])
  }

  class TransactionLogging {
    var logTransactionTime: bool
    var loggingProc: Option<Proc>

    /** The class variables as the class body initialises them. */
    constructor ()
      ensures !logTransactionTime && loggingProc == None
    {
      logTransactionTime := false;
      loggingProc := None;
    }

    /** `transaction_time_logging_on!(&block)`: the block may be absent (nil). */
    method TransactionTimeLoggingOn(block: Option<Proc>)
      modifies this
      ensures logTransactionTime && loggingProc == block
    {
      logTransactionTime := true;
      loggingProc := block;
    }

    /** `transaction_time_logging_off!` */
    method TransactionTimeLoggingOff()
      modifies this
      ensures !logTransactionTime && loggingProc == None
    {
      logTransactionTime := false;
      loggingProc := None;
    }

    /** `do_logged_transaction(url) { ... }`, where the block ended with
        `outcome`. The block runs exactly once. The proc is called once when
        the switch is on and the block returned; an exception from the block
        escapes before the proc is reached, and one from the proc escapes
        too. With the switch on and no proc, calling nil raises NoMethodError
        after the block returned. */
    function DoLoggedTransaction(url: Value, outcome: BlockOutcome): (r: Logged)
      reads this
      ensures |r.events| >= 1 && r.events[0] == BlockRan && BlockRuns(r.events) == 1
      ensures ProcCalls(r.events) == if logTransactionTime && loggingProc.Some? && outcome.Returned? then 1 else 0
      ensures logTransactionTime && loggingProc.Some? && outcome.Returned? ==>
                r.events == [BlockRan, ProcCalled(loggingProc.value, url)]
      ensures outcome.Raised? ==> r.raised == Some(outcome.error)
      ensures outcome.Returned? ==>
                (r.raised.Some? <==> logTransactionTime && (loggingProc.None? || loggingProc.value.raises.Some?))
      ensures outcome.Returned? && logTransactionTime && loggingProc.None? ==> r.raised == Some(NoMethodError)
      ensures outcome.Returned? && logTransactionTime && loggingProc.Some? ==> r.raised == loggingProc.value.raises
    {
      if logTransactionTime then
        match outcome
        case Raised(e) => Logged([BlockRan], Some(e))
        case Returned(_) =>
          match loggingProc
          case None => Logged([BlockRan], Some(NoMethodError))
          case Some(p) =>
            CountsWithProc(p, url);
            Logged([BlockRan, ProcCalled(p, url)], p.raises)
      else
        Logged([BlockRan], if outcome.Raised? then Some(outcome.error) else None)
    }

    static lemma CountsWithProc(p: Proc, url: Value)
      ensures BlockRuns([BlockRan, ProcCalled(p, url)]) == 1
      ensures ProcCalls([BlockRan, ProcCalled(p, url)]) == 1
    {
      var events := [BlockRan, ProcCalled(p, url)];
      assert events[1..] == [ProcCalled(p, url)];
      assert events[1..][1..] == [];
      assert ProcCalls(events[1..]) == 1 + ProcCalls([]);
      assert BlockRuns(events[1..]) == 0 + BlockRuns([]);
    }
  }
}
