/**
  The coordinating loop of the checkpoint crate's `main`: each turn routes
  one received `MainMsg` and says whether the loop goes on (`Running`) or
  breaks out (`Stopped`).
*/
module MainThread {
  import opened Wrappers
  import opened Messages

  datatype Phase = Running | Stopped

  /** The result of `main_rx.recv()`: a message, or failure once every
      sender is gone. */
  datatype Received = Got(msg: MainMsg) | RecvFailed

  /** What the coordinator does on one receive: the result it prints, the
      message it sends to the worker, whether it joins the worker thread,
      and whether the loop goes on afterwards. */
  datatype Reaction = Reaction(printed: Option<string>, forward: Option<WorkerMsg>, joinWorker: bool, next: Phase)

  /** One turn of the main loop: what it does with the result of one
      `main_rx.recv()`.  `workerAlive` says whether a send to the worker
      succeeds; a failed forward of user input breaks out of the loop, a
      failed `Quit` is only logged.  Main prints only on a turn after which
      it goes on, and joins the worker only on its last turn, right after
      sending it `Quit`. */
  function Dispatch(received: Received, workerAlive: bool): (r: Reaction)
    ensures r.printed.Some? ==> r.next == Running
    ensures r.joinWorker ==> r.next == Stopped && r.forward == Some(WorkerMsg.Quit)
  {
    match received
    case RecvFailed => Reaction(None, None, false, Stopped)
    case Got(WorkResult(s)) => Reaction(Some(s), None, false, Running)
    case Got(UserInput(s)) => Reaction(None, Some(DoWork(s)), false, if workerAlive then Running else Stopped)
    case Got(Quit) => Reaction(None, Some(WorkerMsg.Quit), true, Stopped)
  }

  /** How the running coordinator routes each message: user input goes to
      the worker unchanged as `DoWork`, results are printed and forward
      nothing, `Quit` sends one `Quit` to the worker, joins it and stops,
      and a failed receive stops without a word to the worker. */
  lemma DispatchRoutes(received: Received, workerAlive: bool)
    ensures var r := Dispatch(received, workerAlive);
      && (r.forward.Some? && r.forward.value.DoWork? <==> received.Got? && received.msg.UserInput?)
      && (r.forward.Some? && r.forward.value.DoWork? ==> r.forward.value.text == received.msg.input)
      && (r.forward == Some(WorkerMsg.Quit) <==> received == Got(MainMsg.Quit))
      && (r.joinWorker <==> r.forward == Some(WorkerMsg.Quit))
      && (r.printed.Some? <==> received.Got? && received.msg.WorkResult?)
      && (r.printed.Some? ==> r.printed.value == received.msg.result && r.forward.None?)
      && (r.next == Running <==>
            received.Got? && (received.msg.WorkResult? || (received.msg.UserInput? && workerAlive)))
  {
  }
}
