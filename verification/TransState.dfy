/** The registry of states: which ones exist, and which is the current one. */
module TransState {

  datatype StateId = Initial | SetConfig | SetFailed | SetConfigFinished | Process | Finished | Reset | Idle

  /** The eight states in the order in which they are registered. */
  const REGISTERED: seq<StateId> := [Initial, SetConfig, SetFailed, SetConfigFinished, Process, Finished, Reset, Idle]

  class Status {
    var modes: set<StateId>
    var current: StateId

    /** Before `Initialize` no state is registered; the current one is not to be used. */
    constructor ()
      ensures modes == {}
    {
      modes, current := {}, Idle;
    }

    method Initialize()
      modifies this
      ensures forall s: StateId :: s in modes
      ensures current == Idle
    {
      for k := 0 to |REGISTERED|
        invariant forall j | 0 <= j < k :: REGISTERED[j] in modes
      {
        if REGISTERED[k] !in modes {
          modes := modes + {REGISTERED[k]};
        }
      }
      current := Idle;
      forall s: StateId
        ensures s in modes
      {
        assert exists j | 0 <= j < |REGISTERED| :: REGISTERED[j] == s by {
          match s
          case Initial => assert REGISTERED[0] == s;
          case SetConfig => assert REGISTERED[1] == s;
          case SetFailed => assert REGISTERED[2] == s;
          case SetConfigFinished => assert REGISTERED[3] == s;
          case Process => assert REGISTERED[4] == s;
          case Finished => assert REGISTERED[5] == s;
          case Reset => assert REGISTERED[6] == s;
          case Idle => assert REGISTERED[7] == s;
        }
      }
    }

    /** A state that is not registered is ignored. */
    method SetState(s: StateId)
      modifies this`current
      ensures current == if s in modes then s else old(current)
    {
      if s in modes {
        current := s;
      }
    }

    method GetCurrentId() returns (s: StateId)
      ensures s == current
    {
      return current;
    }
  }
}
