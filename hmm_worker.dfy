/** `fit_hmm` of HMM_analysis_python/hmm_worker.py, the callback a worker
    runs for each job taken from the "hmm" queue: fit the model the job
    describes and, when the optimiser fails with ZeroDivisionError, hand the
    job back to the queue and say whether it will be retried. The fit
    (`get_fitted_hmm`) and the queue's answer to `requeue()` belong to
    hmmsupport and are inputs here. */
module HmmWorker {
  import opened Wrappers

  /** The exception classes the callback tells apart. `ZeroDivisionError`
      stands for that class and all of its subclasses (such as
      `decimal.DivisionByZero`), which `except ZeroDivisionError` catches
      alike; `OtherException` is any exception outside that family. */
  datatype Exception = ZeroDivisionError | OtherException(kind: string)

  /** How a call of `get_fitted_hmm` ends. */
  datatype FitOutcome = Fitted | Raised(exception: Exception)

  /** The keyword arguments in `job.params`. */
  type Params = map<string, string>

  const RetryingMessage := "Optimization failed, retrying."
  const FailedMessage := "Optimization failed."

  /** A job as the callback sees it: its parameters, how many times
      `requeue()` has been called on it, and the answer the queue gives to
      that call (true: the job will be run again). */
  class Job {
    const params: Params
    const requeueAccepted: bool
    var requeueCalls: nat

    constructor (params: Params, requeueAccepted: bool)
      ensures this.params == params && this.requeueAccepted == requeueAccepted
      ensures requeueCalls == 0
    {
      this.params := params;
      this.requeueAccepted := requeueAccepted;
      requeueCalls := 0;
    }

    /** `job.requeue()`: counted, and answered by the queue. */
    method Requeue() returns (accepted: bool)
      modifies this
      ensures requeueCalls == old(requeueCalls) + 1
      ensures accepted == requeueAccepted
    {
      requeueCalls := requeueCalls + 1;
      accepted := requeueAccepted;
    }
  }

  /** Standard output, as the lines printed so far. */
  class Console {
    var lines: seq<string>

    constructor ()
      ensures lines == []
    {
      lines := [];
    }

    method Print(line: string)
      modifies this
      ensures lines == old(lines) + [line]
    {
      lines := lines + [line];
    }
  }

  /** `fit_hmm(job)`. `fit` is how the whole call expression
      `get_fitted_hmm(**job.params, verbose=True)` ends for the given keyword
      arguments and `verbose` flag, Python's argument binding included: the
      TypeError raised when `job.params` already holds "verbose" is one of its
      outcomes. `escaped` is the exception that leaves the callback, if any. */
  method FitHmm(job: Job, fit: (Params, bool) -> FitOutcome, console: Console)
    returns (escaped: Option<Exception>)
    modifies job, console
    // The fit is asked for with the job's parameters and verbose=True.
    ensures var outcome := fit(job.params, true);
      // requeue() is called exactly once after a ZeroDivisionError, and
      // never otherwise.
      && job.requeueCalls == old(job.requeueCalls) + (if outcome == Raised(ZeroDivisionError) then 1 else 0)
      // One line is printed after a ZeroDivisionError: "retrying" exactly
      // when the queue took the job back. Nothing is printed otherwise.
      && console.lines == old(console.lines) +
           (if outcome == Raised(ZeroDivisionError)
            then [if job.requeueAccepted then RetryingMessage else FailedMessage]
            else [])
      // Any other exception propagates unchanged; success returns normally.
      && (escaped.Some? <==> outcome.Raised? && outcome.exception != ZeroDivisionError)
      && (escaped.Some? ==> escaped.value == outcome.exception)
  {
    var outcome := fit(job.params, true);
    match outcome {
      case Fitted =>
        escaped := None;
      case Raised(ZeroDivisionError) =>
        var accepted := job.Requeue();
        if accepted {
          console.Print(RetryingMessage);
        } else {
          console.Print(FailedMessage);
        }
        escaped := None;
      case Raised(other) =>
        escaped := Some(other);
    }
  }
}
