/**
  The game loop of `logic/engine.rs` as written: a five-state machine that prints one line per
  state and moves along a fixed chain Init, Shuffling, Peeping, Predicting, End, stopping at End.
 */
module Engine {

  import opened Wrappers

  datatype State = Init | Shuffling | Peeping | Predicting | End

  /** The line printed on entering a state. */
  function Message(s: State): string {
    match s
    case Init => "Welcome to the game!"
    case Shuffling => "Shuffling the deck..."
    case Peeping => "Peeping the monitor..."
    case Predicting => "Predicting the agent's action..."
    case End => "Game over!"
  }

  /** Each state prints its own line: no two states print the same one. */
  lemma MessagesDistinct(a: State, b: State)
    ensures Message(a) == Message(b) <==> a == b
  {
  }

  /** The state the loop moves to, or None where it breaks. */
  function Next(s: State): (r: Option<State>)
    ensures r.None? <==> s == End
    ensures r.Some? ==> Remaining(r.value) + 1 == Remaining(s)
  {
    match s
    case Init => Some(Shuffling)
    case Shuffling => Some(Peeping)
    case Peeping => Some(Predicting)
    case Predicting => Some(End)
    case End => None
  }

  /** How many transitions remain before the loop breaks. */
  function Remaining(s: State): nat {
    match s
    case Init => 4
    case Shuffling => 3
    case Peeping => 2
    case Predicting => 1
    case End => 0
  }

  /** The states the loop visits from s on, s first and End last. */
  function Run(s: State): (trace: seq<State>)
    ensures |trace| == Remaining(s) + 1
    ensures trace[0] == s && trace[|trace| - 1] == End
    ensures forall k :: 0 <= k < |trace| - 1 ==> Next(trace[k]) == Some(trace[k + 1])
    decreases Remaining(s)
  {
    match Next(s)
    case None => [s]
    case Some(t) => [s] + Run(t)
  }

  /** From any state the visits are distinct: no state is entered twice. */
  lemma RunVisitsOnce(s: State)
    ensures forall a, b :: 0 <= a < b < |Run(s)| ==> Run(s)[a] != Run(s)[b]
    ensures forall k :: 0 <= k < |Run(s)| ==> Remaining(Run(s)[k]) == Remaining(s) - k
    decreases Remaining(s)
  {
    match Next(s)
    case None =>
    case Some(t) =>
      RunVisitsOnce(t);
      var trace := Run(s);
      assert trace == [s] + Run(t);
      forall k | 1 <= k < |trace|
        ensures Remaining(trace[k]) == Remaining(s) - k
      {
        assert trace[k] == Run(t)[k - 1];
      }
  }

  /** The run from Init is the five states in order. */
  lemma RunFromInit()
    ensures Run(Init) == [Init, Shuffling, Peeping, Predicting, End]
  {
    assert Run(Predicting) == [Predicting, End];
    assert Run(Peeping) == [Peeping, Predicting, End];
    assert Run(Shuffling) == [Shuffling, Peeping, Predicting, End];
  }

  /** `start()`: runs the loop from Init and returns the states entered and the lines printed, in order. */
  method Start() returns (visited: seq<State>, printed: seq<string>)
    ensures visited == Run(Init)
    ensures visited == [Init, Shuffling, Peeping, Predicting, End]
    ensures printed == ["Welcome to the game!", "Shuffling the deck...", "Peeping the monitor...",
                        "Predicting the agent's action...", "Game over!"]
  {
    RunFromInit();
    var order := Run(Init);
    var state := Init;
    var running := true;
    visited, printed := [], [];
    while running
      invariant |visited| <= 5 && visited == order[..|visited|]
      invariant running ==> |visited| < 5 && state == order[|visited|]
      invariant !running ==> |visited| == 5
      invariant |printed| == |visited| && forall k :: 0 <= k < |visited| ==> printed[k] == Message(visited[k])
      decreases 5 - |visited|
    {
      visited, printed := visited + [state], printed + [Message(state)];
      match Next(state)
      case None =>
        running := false;
      case Some(t) =>
        state := t;
    }
  }
}
