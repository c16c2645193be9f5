/** Waiting for the lock of a part of the key-value store, as a reader does before it lists it. */
module Locks {
  /** What reading the lock's key gives: an error, no entry, or an entry with its flags, the session
      that holds it ("" for none) and the index of the read. */
  datatype Read =
    | ReadError
    | Absent
    | Present(flags: nat, session: string, lastIndex: nat)

  datatype Waited = Free | Failed | Conflict | StillHeld

  predicate IsHeld(r: Read, lockFlag: nat) {
    r.Present? && r.flags == lockFlag && r.session != ""
  }

  /** How a wait ends that comes to this read. */
  function Ending(r: Read, lockFlag: nat): Waited
    requires !IsHeld(r, lockFlag)
  {
    match r
    case ReadError => Failed
    case Absent => Free
    case Present(flags, _, _) => if flags != lockFlag then Conflict else Free
  }

  /** The blocking reads answer one after the other. The wait ends at the first answer that does not
      show a held lock, and every read waits for a change after the answer before it. */
  method WaitLock(answers: seq<Read>, lockFlag: nat) returns (result: Waited, waitIndices: seq<nat>)
    ensures |waitIndices| <= |answers|
    ensures forall i | 0 <= i < |waitIndices| :: i > 0 ==>
      IsHeld(answers[i - 1], lockFlag) && waitIndices[i] == answers[i - 1].lastIndex
    ensures waitIndices != [] ==> waitIndices[0] == 0
    ensures result == StillHeld <==> forall i | 0 <= i < |answers| :: IsHeld(answers[i], lockFlag)
    ensures result != StillHeld ==>
      && waitIndices != [] && !IsHeld(answers[|waitIndices| - 1], lockFlag)
      && result == Ending(answers[|waitIndices| - 1], lockFlag)
    ensures result != StillHeld ==>
      var last := answers[|waitIndices| - 1];
      && (result == Failed <==> last.ReadError?)
      && (result == Conflict <==> last.Present? && last.flags != lockFlag)
      && (result == Free <==> last.Absent? || (last.Present? && last.flags == lockFlag && last.session == ""))
  {
    var waitIndex: nat := 0;
    waitIndices := [];
    while |waitIndices| < |answers|
      invariant |waitIndices| <= |answers|
      invariant forall i | 0 <= i < |waitIndices| :: IsHeld(answers[i], lockFlag)
      invariant forall i | 0 < i < |waitIndices| :: waitIndices[i] == answers[i - 1].lastIndex
      invariant waitIndices != [] ==> waitIndices[0] == 0
      invariant waitIndex == if waitIndices == [] then 0 else answers[|waitIndices| - 1].lastIndex
      decreases |answers| - |waitIndices|
    {
      var pair := answers[|waitIndices|];
      waitIndices := waitIndices + [waitIndex];
      if pair.ReadError? {
        return Failed, waitIndices;
      }
      if pair.Present? && pair.flags != lockFlag {
        return Conflict, waitIndices;
      }
      if pair.Present? && pair.session != "" {
        waitIndex := pair.lastIndex;
      } else {
        return Free, waitIndices;
      }
    }
    result := StillHeld;
  }
}
