/** Error values for the exceptions and `sys.exit` paths of the affinity tools. */
module Results {

  datatype Option<+T> = None | Some(value: T)

  /** The ways a request can be refused; each constructor names the message site it stands for. */
  datatype Error =
    // net.py
    | BadRangeToken(token: string)        // a token with '-' that is not digits-digits
    | StartAfterEnd(token: string)        // a range token whose start exceeds its end
    | BadNumber(token: string)            // a bare token that is not all digits
    | BadMask(mask: string)               // a template mask not of the segmented hex form
    | CpuBeyondMask(cpu: int, lastCpu: int) // a CPU that does not fit the template's width
    | BadMaskSegment(segment: string)     // a mask segment that int(_, 16) refuses
    | EmptyCpuRange                       // round-robin over no CPUs
    | BadMapping(clause: string)          // a mapping clause with a blank queue or CPU part
    | DuplicateQueue(queue: nat)          // a queue given CPUs twice
    | NoMapping                           // a mapping string that assigns no queue
    | BadFlowPart(part: string)           // a flow clause without ':'
    | FlowNotNumber(flow: string)         // a flow count that is not all digits
    | DuplicateFlowQueue(queue: nat)      // a queue given a flow count twice
    | NoFlowMapping                       // a flow string that assigns no queue
    | QueueOutOfRange(queue: nat, total: nat)
    | FlowQueueMismatch(missing: set<nat>, extra: set<nat>)
    // msix.py
    | BadCpuRangeFormat                   // a CPU range outside N(-N)?(,N(-N)?)*
    | CpuRangeReversed(start: nat, end: nat)
    | CpuBeyondSystem(cpuCount: nat)       // a CPU not below the processor count
    | BadAffinityEntry(text: string)      // an smp_affinity_list entry int() refuses
    | NoMsiIrqs                           // no numeric entry under msi_irqs

  datatype Result<+T> = Ok(value: T) | Err(error: Error) {

    predicate IsFailure() {
      Err?
    }

    function PropagateFailure<U>(): Result<U>
      requires Err?
    {
      Err(error)
    }

    function Extract(): T
      requires Ok?
    {
      value
    }
  }
}
