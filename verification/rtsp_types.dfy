/** The vocabulary both ends of the control connection share. */
module RtspTypes {
  import opened Wrappers

  /** Session states, INIT = 0, READY = 1, PLAYING = 2 on both sides. */
  datatype State = Init | Ready | Playing

  /** The four control requests. */
  datatype Method = Setup | Play | Pause | Teardown

  /** The request-line keyword of each method. */
  function MethodName(m: Method): string
  {
    match m
    case Setup => "SETUP"
    case Play => "PLAY"
    case Pause => "PAUSE"
    case Teardown => "TEARDOWN"
  }

  /** The method a request-line keyword names, if any. */
  function MethodOf(keyword: string): (r: Option<Method>)
    ensures r.Some? ==> MethodName(r.value) == keyword
    ensures forall m: Method :: MethodName(m) == keyword ==> r == Some(m)
  {
    if keyword == "SETUP" then Some(Setup)
    else if keyword == "PLAY" then Some(Play)
    else if keyword == "PAUSE" then Some(Pause)
    else if keyword == "TEARDOWN" then Some(Teardown)
    else None
  }

  /** The states in which each method is honoured (the server's guards and
      the client's send guards agree). */
  predicate Allowed(m: Method, from: State)
  {
    match m
    case Setup => from == Init
    case Play => from == Ready
    case Pause => from == Playing
    case Teardown => true
  }

  /** The state a successful request leads to. */
  function Target(m: Method): State
  {
    match m
    case Setup => Ready
    case Play => Playing
    case Pause => Ready
    case Teardown => Init
  }
}
