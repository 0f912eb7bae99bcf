/** XilanhController of xilanh.py: the pneumatic cylinder ("xi lanh") driven by UDP
    commands `XILANH:<n>`. The controller remembers the last state it commanded
    successfully: 0 stopped, 1 moving down, 2 moving up. */
module Xilanh {
  import opened Wrappers
  import opened Communication

  const Stopped: int := 0
  const MovingDown: int := 1
  const MovingUp: int := 2

  datatype Controller = Controller(state: int, comm: Handler)

  /** A controller as XilanhController.__init__ leaves it around a handler. */
  function NewController(comm: Handler): (c: Controller)
    ensures c.state == Stopped && c.comm == comm
  {
    Controller(Stopped, comm)
  }

  /** The command that asks for state `target`. */
  function CommandFor(target: int): string
    requires target == Stopped || target == MovingDown || target == MovingUp
  {
    if target == Stopped then "XILANH:0" else if target == MovingDown then "XILANH:1" else "XILANH:2"
  }

  /** The shared body of move_up, move_down and stop: send the command through the handler
      and adopt the target state only when the send went out; report the send result. */
  function Command(c: Controller, target: int, outcome: SendOutcome, maxEntries: int, timestamp: string)
    : (r: (Controller, bool))
    requires target == Stopped || target == MovingDown || target == MovingUp
    ensures r.1 <==> outcome.Sent?
    ensures r.0.state == (if r.1 then target else c.state)
    ensures (r.0.comm, r.1) == SendUdpCommand(c.comm, CommandFor(target), outcome, maxEntries, timestamp)
  {
    var (comm', ok) := SendUdpCommand(c.comm, CommandFor(target), outcome, maxEntries, timestamp);
    (Controller(if ok then target else c.state, comm'), ok)
  }

  /** XilanhController.move_up: sends `XILANH:2`; state 2 once sent. */
  function MoveUp(c: Controller, outcome: SendOutcome, maxEntries: int, timestamp: string): (r: (Controller, bool))
    ensures r.1 <==> outcome.Sent?
    ensures r.0.state == (if r.1 then MovingUp else c.state)
    ensures r.0.comm == SendUdpCommand(c.comm, "XILANH:2", outcome, maxEntries, timestamp).0
  {
    Command(c, MovingUp, outcome, maxEntries, timestamp)
  }

  /** XilanhController.move_down: sends `XILANH:1`; state 1 once sent. */
  function MoveDown(c: Controller, outcome: SendOutcome, maxEntries: int, timestamp: string): (r: (Controller, bool))
    ensures r.1 <==> outcome.Sent?
    ensures r.0.state == (if r.1 then MovingDown else c.state)
    ensures r.0.comm == SendUdpCommand(c.comm, "XILANH:1", outcome, maxEntries, timestamp).0
  {
    Command(c, MovingDown, outcome, maxEntries, timestamp)
  }

  /** XilanhController.stop: sends `XILANH:0`; state 0 once sent. */
  function Stop(c: Controller, outcome: SendOutcome, maxEntries: int, timestamp: string): (r: (Controller, bool))
    ensures r.1 <==> outcome.Sent?
    ensures r.0.state == (if r.1 then Stopped else c.state)
    ensures r.0.comm == SendUdpCommand(c.comm, "XILANH:0", outcome, maxEntries, timestamp).0
  {
    Command(c, Stopped, outcome, maxEntries, timestamp)
  }

  /** The text get_state shows for a state. */
  function StateText(state: int): (t: string)
    ensures state == Stopped <==> t == "Stopped"
    ensures state == MovingDown <==> t == "Moving Down"
    ensures state == MovingUp <==> t == "Moving Up"
    ensures t == "Unknown" <==> !(Stopped <= state <= MovingUp)
  {
    if state == Stopped then "Stopped"
    else if state == MovingDown then "Moving Down"
    else if state == MovingUp then "Moving Up"
    else "Unknown"
  }

  /** XilanhController.get_state: the state and its text. */
  function GetState(c: Controller): (r: (int, string))
    ensures r.0 == c.state && r.1 == StateText(c.state)
    ensures Stopped <= c.state <= MovingUp ==> r.1 != "Unknown"
  {
    (c.state, StateText(c.state))
  }

  /** The requests a user can make of the controller. */
  datatype Request = Up | Down | Halt

  /** Applies one request with the send's outcome. */
  function Apply(c: Controller, req: Request, outcome: SendOutcome, maxEntries: int, timestamp: string): (Controller, bool) {
    match req
    case Up => MoveUp(c, outcome, maxEntries, timestamp)
    case Down => MoveDown(c, outcome, maxEntries, timestamp)
    case Halt => Stop(c, outcome, maxEntries, timestamp)
  }

  /** Applies requests in order, each with its send outcome. */
  function Run(c: Controller, reqs: seq<(Request, SendOutcome)>, maxEntries: int, timestamp: string): Controller
    decreases |reqs|
  {
    if |reqs| == 0 then c else Run(Apply(c, reqs[0].0, reqs[0].1, maxEntries, timestamp).0, reqs[1..], maxEntries, timestamp)
  }

  /** The state is always one of the three known ones, and get_state never says "Unknown". */
  lemma {:induction false} StateStaysKnown(c: Controller, reqs: seq<(Request, SendOutcome)>, maxEntries: int, timestamp: string)
    requires Stopped <= c.state <= MovingUp
    ensures Stopped <= Run(c, reqs, maxEntries, timestamp).state <= MovingUp
    ensures GetState(Run(c, reqs, maxEntries, timestamp)).1 != "Unknown"
    decreases |reqs|
  {
    if |reqs| > 0 {
      StateStaysKnown(Apply(c, reqs[0].0, reqs[0].1, maxEntries, timestamp).0, reqs[1..], maxEntries, timestamp);
    }
  }

  /** The state is that of the last request whose send went out, or the starting state
      when none did. */
  lemma {:induction false} StateIsLastSent(c: Controller, reqs: seq<(Request, SendOutcome)>, maxEntries: int, timestamp: string)
    ensures var last := LastSent(reqs);
            Run(c, reqs, maxEntries, timestamp).state == (if last.None? then c.state else TargetOf(last.value))
    decreases |reqs|
  {
    if |reqs| > 0 {
      StateIsLastSent(Apply(c, reqs[0].0, reqs[0].1, maxEntries, timestamp).0, reqs[1..], maxEntries, timestamp);
    }
  }

  /** The state a request asks for. */
  function TargetOf(req: Request): int {
    match req
    case Up => MovingUp
    case Down => MovingDown
    case Halt => Stopped
  }

  /** The last request whose send went out. */
  function LastSent(reqs: seq<(Request, SendOutcome)>): Option<Request>
    decreases |reqs|
  {
    if |reqs| == 0 then None
    else
      var later := LastSent(reqs[1..]);
      if later.Some? then later
      else if reqs[0].1.Sent? then Some(reqs[0].0)
      else None
  }
}
