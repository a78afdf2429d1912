/** The two closes of a pipe (kernel/pipe.c), each under the lock of its own end, next to the ring. */
module PipeClose {
  import R = PipeRing

  datatype Side = WriteEnd | ReadEnd

  /** How far a close of an end has come: not begun; flag cleared, which tells it whether the other was clear already; sleepers
      woken; lock let go; over. The one that found the other flag clear frees the pipe. */
  datatype Closer = Before | Cleared(frees: bool) | Woken(frees: bool) | Unlocked(frees: bool) | Over(frees: bool)

  /** The ring, the two closes, how often the pipe has been freed, and whether a step has touched it after that. */
  datatype State = State(ring: R.State, w: Closer, r: Closer, freed: nat, late: bool)

  datatype Move = Use(m: R.Move) | Clear(side: Side) | Wake(side: Side) | Unlock(side: Side) | Leave(side: Side)

  function Of(s: State, side: Side): Closer {
    if side.WriteEnd? then s.w else s.r
  }

  function Other(side: Side): Side {
    if side.WriteEnd? then ReadEnd else WriteEnd
  }

  function With(s: State, side: Side, c: Closer): State {
    if side.WriteEnd? then s.(w := c) else s.(r := c)
  }

  /** The state after a step that touches the pipe. */
  function Touched(s: State): State {
    s.(late := s.late || s.freed > 0)
  }

  predicate IsOpen(s: State, side: Side) {
    if side.WriteEnd? then s.ring.writeOpen else s.ring.readOpen
  }

  /** One step. The close of an end takes the lock of that end and clears its flag in one step; then it wakes sleepers, lets go
      of the lock and, if it found the other end closed, frees the pipe. */
  ghost predicate Next(s: State, m: Move, s': State) {
    match m
    case Use(m) => !m.CloseWrite? && !m.CloseRead? && R.Next(s.ring, m, s'.ring) && s' == Touched(s).(ring := s'.ring)
    case Clear(side) =>
      && Of(s, side).Before? && R.Next(s.ring, if side.WriteEnd? then R.CloseWrite else R.CloseRead, s'.ring)
      && s' == With(Touched(s), side, Cleared(!IsOpen(s, Other(side)))).(ring := s'.ring)
    case Wake(side) => Of(s, side).Cleared? && s' == With(Touched(s), side, Woken(Of(s, side).frees))
    case Unlock(side) => Of(s, side).Woken? && s' == With(Touched(s), side, Unlocked(Of(s, side).frees))
    case Leave(side) =>
      && Of(s, side).Unlocked?
      && s' == With(s, side, Over(Of(s, side).frees)).(freed := s.freed + if Of(s, side).frees then 1 else 0)
  }

  // ---------- the invariant ----------

  predicate Frees(c: Closer) {
    !c.Before? && c.frees
  }

  predicate HasFreed(c: Closer) {
    c.Over? && c.frees
  }

  ghost predicate Good(s: State) {
    && R.Good(s.ring) && (!s.ring.readOpen ==> s.ring.reader == R.Waiting)
    && (s.w.Before? <==> s.ring.writeOpen) && (s.r.Before? <==> s.ring.readOpen)
    && (if s.w.Before? || s.r.Before? then !Frees(s.w) && !Frees(s.r) else Frees(s.w) != Frees(s.r))
    && s.freed == (if HasFreed(s.w) || HasFreed(s.r) then 1 else 0)
    && (s.late ==> s.freed == 1)
  }

  /** Closing an end of the ring changes nothing but its flag. */
  lemma ClosesFlag(s: R.State, side: Side, s': R.State)
    requires R.Next(s, if side.WriteEnd? then R.CloseWrite else R.CloseRead, s')
    ensures if side.WriteEnd? then s' == s.(writeOpen := false) && s.writeOpen else s' == s.(readOpen := false) && s.readOpen && s.reader == R.Waiting
  {
  }

  /** Using the ring changes no flag, and nothing can be done with one that has both ends closed. */
  lemma UsesRing(s: R.State, m: R.Move, s': R.State)
    requires R.Good(s) && R.Next(s, m, s') && !m.CloseWrite? && !m.CloseRead? && (!s.readOpen ==> s.reader == R.Waiting)
    ensures s'.readOpen == s.readOpen && s'.writeOpen == s.writeOpen && (!s.readOpen ==> s'.reader == R.Waiting)
    ensures s.readOpen || s.writeOpen
  {
    hide R.Holds;
  }

  lemma NextGood(s: State, m: Move, s': State)
    requires Good(s) && Next(s, m, s')
    ensures Good(s')
  {
    hide R.Good, R.Next;
    match m {
      case Use(u) =>
        UsesRing(s.ring, u, s'.ring);
        R.NextGood(s.ring, u, s'.ring);
      case Clear(side) =>
        ClosesFlag(s.ring, side, s'.ring);
        R.NextGood(s.ring, if side.WriteEnd? then R.CloseWrite else R.CloseRead, s'.ring);
      case _ =>
    }
  }

  ghost predicate IsRun(states: seq<State>, moves: seq<Move>) {
    && |states| == |moves| + 1 && R.Fresh(states[0].ring) && states[0] == State(states[0].ring, Before, Before, 0, false)
    && forall i :: 0 <= i < |moves| ==> Next(states[i], moves[i], states[i + 1])
  }

  lemma {:induction false} RunGood(states: seq<State>, moves: seq<Move>, i: nat)
    requires IsRun(states, moves) && i < |states|
    ensures Good(states[i])
  {
    if i > 0 {
      hide Good, Next;
      RunGood(states, moves, i - 1);
      NextGood(states[i - 1], moves[i - 1], states[i]);
    }
  }

  /** In every run the pipe is freed at most once, only when both ends are closed, and it has been when both closes are over. */
  lemma FreedOnce(states: seq<State>, moves: seq<Move>, i: nat)
    requires IsRun(states, moves) && i < |states|
    ensures states[i].freed <= 1
    ensures states[i].freed == 1 ==> !states[i].ring.readOpen && !states[i].ring.writeOpen
    ensures states[i].w.Over? && states[i].r.Over? ==> states[i].freed == 1
  {
    hide IsRun;
    RunGood(states, moves, i);
  }

  // ---------- touched after it was freed ----------

  /** The close still has the pipe to touch. */
  predicate Busy(c: Closer) {
    c.Cleared? || c.Woken?
  }

  /** Once one close has freed the pipe, only the other one can touch it, and does so with every step before its lock is let go. */
  lemma FreedStep(s: State, m: Move, s': State, side: Side)
    requires Good(s) && Next(s, m, s') && HasFreed(Of(s, side))
    ensures HasFreed(Of(s', side)) && (Busy(Of(s', Other(side))) ==> Busy(Of(s, Other(side))))
    ensures s'.late <==> s.late || (Busy(Of(s, Other(side))) && Of(s', Other(side)) != Of(s, Other(side)))
    ensures !Busy(Of(s, Other(side))) ==> s'.late == s.late
    ensures Busy(Of(s, Other(side))) && Of(s', Other(side)) != Of(s, Other(side)) ==> Rank(Of(s', Other(side))) > Rank(Of(s, Other(side)))
    ensures Rank(Of(s', Other(side))) >= Rank(Of(s, Other(side)))
  {
    if m.Use? { UsesRing(s.ring, m.m, s'.ring); }
    hide R.Good, R.Next;
  }

  function Rank(c: Closer): int {
    match c case Before => 0 case Cleared(_) => 1 case Woken(_) => 2 case Unlocked(_) => 3 case Over(_) => 4
  }

  /** From the free in step `j` on, the pipe has been touched exactly if the other close had not let go of its lock by then and has
      gone on since. */
  lemma {:induction false} LateAfter(states: seq<State>, moves: seq<Move>, j: nat, i: nat, side: Side)
    requires IsRun(states, moves) && j < i < |states| && moves[j] == Leave(side) && Frees(Of(states[j], side))
    ensures HasFreed(Of(states[i], side)) && Rank(Of(states[i], Other(side))) >= Rank(Of(states[j], Other(side)))
    ensures states[i].late <==> Busy(Of(states[j], Other(side))) && Of(states[i], Other(side)) != Of(states[j], Other(side))
    ensures Rank(Of(states[i], Other(side))) == Rank(Of(states[j], Other(side))) ==> Of(states[i], Other(side)) == Of(states[j], Other(side))
    decreases i
  {
    hide Good, Next;
    if i == j + 1 {
      RunGood(states, moves, j);
      Freeing(states[j], states[i], side);
    } else {
      LateAfter(states, moves, j, i - 1, side);
      RunGood(states, moves, i - 1);
      RunGood(states, moves, j);
      NotBefore(states[j], side);
      SameRank(states[i - 1], moves[i - 1], states[i], Other(side));
      FreedStep(states[i - 1], moves[i - 1], states[i], side);
      hide Of, Other;
      Onwards(Of(states[j], Other(side)), Of(states[i - 1], Other(side)), Of(states[i], Other(side)));
    }
  }

  /** Whether a close was busy and has gone on, over one more step. */
  lemma Onwards(a: Closer, b: Closer, c: Closer)
    requires Rank(a) >= 1 && Rank(b) >= Rank(a) && Rank(c) >= Rank(b) && (Rank(b) == Rank(a) ==> b == a) && (Rank(c) == Rank(b) ==> c == b)
    ensures (Busy(a) && b != a) || (Busy(b) && c != b) <==> Busy(a) && c != a
    ensures Rank(c) == Rank(a) ==> c == a
  {
  }

  lemma NotBefore(s: State, side: Side)
    requires Good(s) && Frees(Of(s, side))
    ensures Rank(Of(s, Other(side))) >= 1
  {
    hide R.Good;
  }

  /** The step that frees the pipe. */
  lemma Freeing(s: State, s': State, side: Side)
    requires Good(s) && Next(s, Leave(side), s') && Frees(Of(s, side))
    ensures HasFreed(Of(s', side)) && Of(s', Other(side)) == Of(s, Other(side)) && !s'.late
  {
    hide R.Good, R.Next;
  }

  lemma SameRank(s: State, m: Move, s': State, side: Side)
    requires Next(s, m, s')
    ensures Rank(Of(s', side)) == Rank(Of(s, side)) ==> Of(s', side) == Of(s, side)
  {
    hide R.Next;
  }

  /** The step in which the pipe was freed. */
  lemma {:induction false} FreeStep(states: seq<State>, moves: seq<Move>, i: nat) returns (j: nat, side: Side)
    requires IsRun(states, moves) && i < |states| && states[i].freed > 0
    ensures j < i && moves[j] == Leave(side) && Frees(Of(states[j], side))
  {
    if states[i - 1].freed > 0 {
      j, side := FreeStep(states, moves, i - 1);
    } else {
      assert Next(states[i - 1], moves[i - 1], states[i]);
      j, side := i - 1, moves[i - 1].side;
    }
  }

  /** In every run the pipe has been touched after it was freed exactly if it was freed while the other close had not let go of
      its lock, and that close has gone on since. */
  lemma LateExactly(states: seq<State>, moves: seq<Move>, i: nat)
    requires IsRun(states, moves) && i < |states|
    ensures states[i].late <==> exists j, side :: FreedBusy(states, moves, j, i, side)
  {
    RunGood(states, moves, i);
    if states[i].late {
      var j, side := FreeStep(states, moves, i);
      LateAfter(states, moves, j, i, side);
      assert FreedBusy(states, moves, j, i, side);
    }
    hide Good, Next;
    if exists j, side :: FreedBusy(states, moves, j, i, side) {
      var j, side :| FreedBusy(states, moves, j, i, side);
      LateAfter(states, moves, j, i, side);
    }
  }

  ghost predicate FreedBusy(states: seq<State>, moves: seq<Move>, j: int, i: int, side: Side) {
    && 0 <= j < i < |states| && j < |moves| && moves[j] == Leave(side) && Frees(Of(states[j], side))
    && Busy(Of(states[j], Other(side))) && Of(states[i], Other(side)) != Of(states[j], Other(side))
  }

  /** If the first close has let go of its lock before the second clears its flag, the pipe is never touched after it was freed. */
  lemma {:induction false} InTurn(states: seq<State>, moves: seq<Move>, j: nat, i: nat, side: Side)
    requires IsRun(states, moves) && j < i < |states| && moves[j] == Clear(side) && Rank(Of(states[j], Other(side))) >= 3
    ensures !states[i].late && Rank(Of(states[i], Other(side))) >= 3 && !Frees(Of(states[i], Other(side)))
    decreases i
  {
    hide Good, Next;
    RunGood(states, moves, i - 1);
    if i == j + 1 {
      Turn(states[j], states[i], side);
    } else {
      InTurn(states, moves, j, i - 1, side);
      InTurnStep(states[i - 1], moves[i - 1], states[i], side);
    }
  }

  lemma Turn(s: State, s': State, side: Side)
    requires Good(s) && Next(s, Clear(side), s') && Rank(Of(s, Other(side))) >= 3
    ensures !s'.late && Rank(Of(s', Other(side))) >= 3 && !Frees(Of(s', Other(side)))
  {
    hide R.Good, R.Next;
  }

  lemma InTurnStep(s: State, m: Move, s': State, side: Side)
    requires Good(s) && Next(s, m, s') && !s.late && Rank(Of(s, Other(side))) >= 3 && !Frees(Of(s, Other(side)))
    ensures !s'.late && Rank(Of(s', Other(side))) >= 3 && !Frees(Of(s', Other(side)))
  {
    if m.Use? { UsesRing(s.ring, m.m, s'.ring); }
    hide R.Good, R.Next;
  }

  /** A writer's close has cleared its flag; the reader's close goes through and frees the pipe; the writer's goes on. */
  lemma TouchedAfter(ring: R.State) returns (states: seq<State>, moves: seq<Move>)
    requires R.Fresh(ring)
    ensures IsRun(states, moves) && |moves| == 6 && states[6].freed == 1 && states[6].late
  {
    var shut := ring.(writeOpen := false);
    var both := shut.(readOpen := false);
    assert R.Writes(ring, R.CloseWrite, shut) && R.Reads(shut, R.CloseRead, both);
    var s0 := State(ring, Before, Before, 0, false);
    var s1 := State(shut, Cleared(false), Before, 0, false);
    var s2 := State(both, Cleared(false), Cleared(true), 0, false);
    var s3 := State(both, Cleared(false), Woken(true), 0, false);
    var s4 := State(both, Cleared(false), Unlocked(true), 0, false);
    var s5 := State(both, Cleared(false), Over(true), 1, false);
    var s6 := State(both, Woken(false), Over(true), 1, true);
    hide R.Writes, R.Reads;
    moves := [Clear(WriteEnd), Clear(ReadEnd), Wake(ReadEnd), Unlock(ReadEnd), Leave(ReadEnd), Wake(WriteEnd)];
    states := [s0, s1, s2, s3, s4, s5, s6];
  }
}
