/** The ring of kernel/pipe.c. A writer and a reader hold different locks, so each copies its bytes, one at a time,
    while the other moves, and each goes by a reading of the other's counter taken before it started. */
module PipeRing {
  import opened Basics

  const PIPESIZE := 512
  const WORD := 0x1_0000_0000

  /** PIPE_READABLE_SIZE, on 32-bit counters */
  function Readable(nwrite: int, nread: int): int {
    (nwrite - nread) % WORD
  }

  /** PIPE_WRITABLE_SIZE */
  function Writable(nwrite: int, nread: int): int {
    (PIPESIZE - Readable(nwrite, nread)) % WORD
  }

  function Min(a: int, b: int): int {
    if a < b then a else b
  }

  /** What a side is doing while it holds its lock. Both first load the other's counter, and only then look at the flag of the
      other end; `had` and `seen` record how many bytes had been taken or put by then. A reader that finds no bytes and the
      write end closed reports the end of the file. */
  datatype Writer = Resting | Peeked(nread: int, had: nat) | Copying(src: seq<Byte>, k: nat)
  datatype Reader = Waiting | Looked(nwrite: int, seen: nat) | Filling(size: nat, got: seq<Byte>) | AtEnd(seen: nat)

  /** The pipe, both sides, a record of all bytes published and all bytes handed to readers, and which ends are open. */
  datatype State = State(data: seq<Byte>, nread: int, nwrite: int, writer: Writer, reader: Reader,
                         put: seq<Byte>, taken: seq<Byte>, readOpen: bool, writeOpen: bool)

  datatype Move = Peek | StartWrite(src: seq<Byte>) | StopWrite | CopyByte | PublishWrite | CloseWrite
                | Look | StartRead(n: nat) | StopRead | EndOfFile | FillByte | PublishRead | Return | CloseRead

  /** One step of a writer, which is there only while the write end is open, or the close of that end. */
  ghost predicate Writes(s: State, m: Move, s': State) {
    |s.data| == PIPESIZE && match m
    case Peek => s.writer == Resting && s.writeOpen && s' == s.(writer := Peeked(s.nread, |s.taken|))
    case StartWrite(src) =>
      && s.writer.Peeked? && s.readOpen
      && var size := Min(|src|, Writable(s.nwrite, s.writer.nread));
         size > 0 && s' == s.(writer := Copying(src[..size], 0))
    case StopWrite => s.writer.Peeked? && (!s.readOpen || Writable(s.nwrite, s.writer.nread) == 0) && s' == s.(writer := Resting)
    case CopyByte =>
      && s.writer.Copying? && s.writer.k < |s.writer.src|
      && s' == s.(data := s.data[(s.nwrite % PIPESIZE + s.writer.k) % PIPESIZE := s.writer.src[s.writer.k]],
                  writer := Copying(s.writer.src, s.writer.k + 1))
    case PublishWrite =>
      && s.writer.Copying? && s.writer.k == |s.writer.src|
      && s' == s.(nwrite := (s.nwrite + |s.writer.src|) % WORD, put := s.put + s.writer.src, writer := Resting)
    case CloseWrite => s.writer == Resting && s.writeOpen && s' == s.(writeOpen := false)
    case _ => false
  }

  /** One step of a reader or the close of the read end. */
  ghost predicate Reads(s: State, m: Move, s': State) {
    |s.data| == PIPESIZE && match m
    case Look => s.reader == Waiting && s.readOpen && s' == s.(reader := Looked(s.nwrite, |s.put|))
    case StartRead(n) =>
      && s.reader.Looked?
      && var size := Min(n, Readable(s.reader.nwrite, s.nread));
         size > 0 && s' == s.(reader := Filling(size, []))
    case StopRead => s.reader.Looked? && Readable(s.reader.nwrite, s.nread) == 0 && s.writeOpen && s' == s.(reader := Waiting)
    case EndOfFile => s.reader.Looked? && Readable(s.reader.nwrite, s.nread) == 0 && !s.writeOpen && s' == s.(reader := AtEnd(s.reader.seen))
    case FillByte =>
      && s.reader.Filling? && |s.reader.got| < s.reader.size
      && s' == s.(reader := Filling(s.reader.size, s.reader.got + [s.data[(s.nread % PIPESIZE + |s.reader.got|) % PIPESIZE]]))
    case PublishRead =>
      && s.reader.Filling? && |s.reader.got| == s.reader.size
      && s' == s.(nread := (s.nread + s.reader.size) % WORD, taken := s.taken + s.reader.got, reader := Waiting)
    case Return => s.reader.AtEnd? && s' == s.(reader := Waiting)
    case CloseRead => s.reader == Waiting && s.readOpen && s' == s.(readOpen := false)
    case _ => false
  }

  ghost predicate Next(s: State, m: Move, s': State) {
    Writes(s, m, s') || Reads(s, m, s')
  }

  // ---------- the invariant ----------

  /** The ring holds bytes `start` up to `end` of the stream. */
  ghost predicate Holds(data: seq<Byte>, stream: seq<Byte>, start: int, end: int)
    requires |data| == PIPESIZE && 0 <= start && end <= |stream|
  {
    forall i :: start <= i < end ==> data[i % PIPESIZE] == stream[i]
  }

  /** All bytes published and the ones being published. */
  ghost function Stream(s: State): seq<Byte> {
    if s.writer.Copying? then s.put + s.writer.src else s.put
  }

  ghost function Copied(s: State): int {
    if s.writer.Copying? then |s.put| + s.writer.k else |s.put|
  }

  ghost predicate Counted(s: State) {
    && s.nwrite == |s.put| % WORD && s.nread == |s.taken| % WORD
    && |s.taken| <= |s.put| && |Stream(s)| - |s.taken| <= PIPESIZE
    && (s.writer.Copying? ==> s.writer.k <= |s.writer.src| && s.writer.src != [])
  }

  /** The snapshots are of counts that were right once. No one writes to a pipe whose write end is closed. */
  ghost predicate Snapped(s: State) {
    && (s.writer.Peeked? ==> s.writer.nread == s.writer.had % WORD && s.writer.had <= |s.taken| && |s.put| - s.writer.had <= PIPESIZE)
    && (s.reader.Looked? ==> s.reader.nwrite == s.reader.seen % WORD && |s.taken| <= s.reader.seen <= |s.put|)
    && (s.reader.AtEnd? ==> !s.writeOpen && s.reader.seen == |s.taken|)
    && (!s.writeOpen ==> s.writer == Resting)
  }

  ghost predicate Good(s: State) {
    && |s.data| == PIPESIZE && Counted(s) && Snapped(s)
    && Holds(s.data, Stream(s), |s.taken|, Copied(s))
    && s.taken == s.put[..|s.taken|]
    && (s.reader.Filling? ==>
          && |s.reader.got| <= s.reader.size && |s.taken| + s.reader.size <= |s.put|
          && s.reader.got == s.put[|s.taken|..|s.taken| + |s.reader.got|])
  }

  lemma Wraps(n: nat, m: nat)
    ensures n % WORD % PIPESIZE == n % PIPESIZE && (n % PIPESIZE + m) % PIPESIZE == (n + m) % PIPESIZE
    ensures (n % WORD + m) % WORD == (n + m) % WORD
  {
    var q := n / WORD;
    assert n == n % WORD + WORD * q;
    ModRing(n % WORD, q * 8388608);
    ModRing(n % PIPESIZE + m, n / PIPESIZE);
    ModWord(n % WORD + m, q);
  }

  lemma ModRing(x: nat, k: nat)
    ensures (x + PIPESIZE * k) % PIPESIZE == x % PIPESIZE
  {
  }

  lemma ModWord(x: nat, k: nat)
    ensures (x + WORD * k) % WORD == x % WORD
  {
  }

  lemma Sizes(w: nat, r: nat)
    requires r <= w <= r + PIPESIZE
    ensures Readable(w % WORD, r % WORD) == w - r && Writable(w % WORD, r % WORD) == PIPESIZE - (w - r)
  {
  }

  lemma SlotsApart(x: int, y: int)
    requires 0 < y - x < PIPESIZE
    ensures x % PIPESIZE != y % PIPESIZE
  {
  }

  /** While both copy, the slot being written is never one that is being read or is still to be read. */
  lemma NeverSameSlot(s: State, i: nat)
    requires Good(s) && s.writer.Copying? && s.writer.k < |s.writer.src| && |s.taken| <= i < |s.put|
    ensures (s.nwrite % PIPESIZE + s.writer.k) % PIPESIZE != i % PIPESIZE
  {
    Wraps(|s.put|, s.writer.k);
    SlotsApart(i, |s.put| + s.writer.k);
  }

  /** The ring takes in the next byte of the stream. */
  lemma OneMore(data: seq<Byte>, stream: seq<Byte>, start: nat, end: nat)
    requires |data| == PIPESIZE && start <= end < |stream| && end - start < PIPESIZE && Holds(data, stream, start, end)
    ensures Holds(data[end % PIPESIZE := stream[end]], stream, start, end + 1)
  {
    forall i | start <= i < end ensures i % PIPESIZE != end % PIPESIZE { SlotsApart(i, end); }
  }

  lemma CopyGood(s: State, s': State)
    requires Good(s) && Writes(s, CopyByte, s')
    ensures Good(s')
  {
    hide Holds;
    Wraps(|s.put|, s.writer.k);
    OneMore(s.data, Stream(s), |s.taken|, Copied(s));
  }

  /** What the ring holds of the bytes put in. */
  lemma HeldAt(s: State, j: nat)
    requires Good(s) && |s.taken| <= j < |s.put|
    ensures s.data[j % PIPESIZE] == s.put[j]
  {
    assert s.data[j % PIPESIZE] == Stream(s)[j];
  }

  /** The byte a reader copies next. */
  lemma NextByte(s: State) returns (b: Byte)
    requires Good(s) && s.reader.Filling? && |s.reader.got| < s.reader.size
    ensures b == s.data[(s.nread % PIPESIZE + |s.reader.got|) % PIPESIZE] == s.put[|s.taken| + |s.reader.got|]
  {
    hide Holds;
    HeldAt(s, |s.taken| + |s.reader.got|);
    Wraps(|s.taken|, |s.reader.got|);
    b := s.put[|s.taken| + |s.reader.got|];
  }

  lemma GotMore(put: seq<Byte>, k: nat, got: seq<Byte>, b: Byte)
    requires k + |got| < |put| && got == put[k..k + |got|] && b == put[k + |got|]
    ensures got + [b] == put[k..k + |got| + 1]
  {
  }

  lemma FilledGood(s: State, b: Byte, s': State)
    requires Good(s) && s.reader.Filling? && |s.reader.got| < s.reader.size && b == s.put[|s.taken| + |s.reader.got|]
    requires s' == s.(reader := Filling(s.reader.size, s.reader.got + [b]))
    ensures Good(s')
  {
    hide Holds;
    GotMore(s.put, |s.taken|, s.reader.got, b);
  }

  lemma FillGood(s: State, s': State)
    requires Good(s) && Reads(s, FillByte, s')
    ensures Good(s')
  {
    hide Good;
    var b := NextByte(s);
    FilledGood(s, b, s');
  }

  /** The ring still holds what comes later. */
  lemma Later(data: seq<Byte>, stream: seq<Byte>, start: nat, start': nat, end: nat)
    requires |data| == PIPESIZE && start <= start' && end <= |stream| && Holds(data, stream, start, end)
    ensures Holds(data, stream, start', end)
  {
  }

  lemma PublishWriteGood(s: State, s': State)
    requires Good(s) && Writes(s, PublishWrite, s')
    ensures Good(s')
  {
    hide Holds;
    Wraps(|s.put|, |s.writer.src|);
  }

  lemma PublishReadGood(s: State, s': State)
    requires Good(s) && Reads(s, PublishRead, s')
    ensures Good(s')
  {
    hide Holds;
    Wraps(|s.taken|, s.reader.size);
    Later(s.data, Stream(s), |s.taken|, |s.taken| + s.reader.size, Copied(s));
  }

  /** However old a writer's snapshot, the room it finds is there. */
  lemma StartWriteGood(s: State, src: seq<Byte>, s': State)
    requires Good(s) && Writes(s, StartWrite(src), s')
    ensures Good(s')
  {
    Sizes(|s.put|, s.writer.had);
  }

  /** However old a reader's snapshot, the bytes it finds are there. */
  lemma LookedGood(s: State, m: Move, s': State)
    requires Good(s) && Reads(s, m, s') && (m.StartRead? || m.StopRead? || m.EndOfFile?)
    ensures Good(s')
  {
    hide Holds;
    Sizes(s.reader.seen, |s.taken|);
  }

  lemma NextGood(s: State, m: Move, s': State)
    requires Good(s) && Next(s, m, s')
    ensures Good(s')
  {
    hide Holds;
    match m {
      case CopyByte => CopyGood(s, s');
      case FillByte => FillGood(s, s');
      case PublishWrite => PublishWriteGood(s, s');
      case PublishRead => PublishReadGood(s, s');
      case StartWrite(src) => StartWriteGood(s, src, s');
      case StartRead(_) => LookedGood(s, m, s');
      case StopRead => LookedGood(s, m, s');
      case EndOfFile => LookedGood(s, m, s');
      case _ =>
    }
  }

  ghost predicate Fresh(s: State) {
    |s.data| == PIPESIZE && s.nread == s.nwrite == 0 && s.put == s.taken == [] && s.writer == Resting && s.reader == Waiting && s.readOpen && s.writeOpen
  }

  ghost predicate IsRun(states: seq<State>, moves: seq<Move>) {
    && |states| == |moves| + 1 && Fresh(states[0])
    && forall i :: 0 <= i < |moves| ==> Next(states[i], moves[i], states[i + 1])
  }

  /** In every interleaving the bytes taken are a prefix of the bytes put, and at most PIPESIZE are between them. */
  lemma {:induction false} RunGood(states: seq<State>, moves: seq<Move>, k: nat)
    requires IsRun(states, moves) && k < |states|
    ensures Good(states[k])
    ensures states[k].taken <= states[k].put && |states[k].put| - |states[k].taken| <= PIPESIZE
  {
    if k > 0 {
      RunGood(states, moves, k - 1);
      NextGood(states[k - 1], moves[k - 1], states[k]);
    }
  }

  // ---------- what a write puts in and a read takes out ----------

  lemma CopyingStep(s: State, m: Move, s': State)
    requires Next(s, m, s') && s.writer.Copying? && s'.writer.Copying?
    ensures s'.writer.src == s.writer.src && s'.put == s.put
  {
  }

  lemma FillingStep(s: State, m: Move, s': State)
    requires Next(s, m, s') && s.reader.Filling? && s'.reader.Filling?
    ensures s'.reader.size == s.reader.size && s'.taken == s.taken
  {
  }

  lemma {:induction false} CopyingSince(states: seq<State>, moves: seq<Move>, i: nat, j: nat)
    requires IsRun(states, moves) && i < j < |states| && forall n :: i < n <= j ==> states[n].writer.Copying?
    ensures states[j].writer.src == states[i + 1].writer.src && states[j].put == states[i + 1].put
    decreases j
  {
    hide Next;
    if j > i + 1 {
      CopyingSince(states, moves, i, j - 1);
      CopyingStep(states[j - 1], moves[j - 1], states[j]);
    }
  }

  lemma {:induction false} FillingSince(states: seq<State>, moves: seq<Move>, i: nat, j: nat)
    requires IsRun(states, moves) && i < j < |states| && forall n :: i < n <= j ==> states[n].reader.Filling?
    ensures states[j].reader.size == states[i + 1].reader.size && states[j].taken == states[i + 1].taken
    decreases j
  {
    hide Next;
    if j > i + 1 {
      FillingSince(states, moves, i, j - 1);
      FillingStep(states[j - 1], moves[j - 1], states[j]);
    }
  }

  /** A turn of a writer, whatever happens meanwhile, appends the first bytes it was given: all of them, or as many as there was
      room for when it looked. */
  lemma WritePuts(states: seq<State>, moves: seq<Move>, i: nat, j: nat)
    requires IsRun(states, moves) && i < j < |moves| && moves[i].StartWrite? && moves[j] == PublishWrite
    requires forall n :: i < n <= j ==> states[n].writer.Copying?
    ensures states[i].writer.Peeked?
    ensures var src, room := moves[i].src, 512 - (|states[i].put| - states[i].writer.had);
            var k := if |src| <= room then |src| else room;
            0 < k <= |src| && states[j + 1].put == states[i].put + src[..k]
  {
    RunGood(states, moves, i);
    var s, s' := states[i], states[i + 1];
    assert Next(s, moves[i], s') && Next(states[j], PublishWrite, states[j + 1]);
    CopyingSince(states, moves, i, j);
    Sizes(|s.put|, s.writer.had);
    hide Holds;
  }

  /** A turn of a reader takes the oldest bytes that are left: as many as it wanted, or all there were when it looked. */
  lemma ReadTakes(states: seq<State>, moves: seq<Move>, i: nat, j: nat)
    requires IsRun(states, moves) && i < j < |moves| && moves[i].StartRead? && moves[j] == PublishRead
    requires forall n :: i < n <= j ==> states[n].reader.Filling?
    ensures states[i].reader.Looked?
    ensures var n, there := moves[i].n, states[i].reader.seen - |states[i].taken|;
            var k := if n <= there then n else there;
            0 < k && |states[i].taken| + k <= |states[j].put|
            && states[j + 1].taken == states[i].taken + states[j].put[|states[i].taken|..|states[i].taken| + k]
  {
    RunGood(states, moves, i);
    RunGood(states, moves, j);
    var s, s' := states[i], states[i + 1];
    assert Next(s, moves[i], s') && Next(states[j], PublishRead, states[j + 1]);
    FillingSince(states, moves, i, j);
    Sizes(s.reader.seen, |s.taken|);
    hide Holds;
  }

  // ---------- the end of the file ----------

  /** While a reader has its snapshot, bytes are published only by PublishWrite, and then some are. */
  lemma LookedStep(s: State, m: Move, s': State)
    requires Good(s) && Next(s, m, s') && s.reader.Looked? && s'.reader.Looked?
    ensures s'.reader == s.reader && s'.taken == s.taken && s.put <= s'.put
    ensures |s'.put| > |s.put| <==> m == PublishWrite
    ensures !s.writeOpen ==> !s'.writeOpen && m != PublishWrite
  {
    hide Holds;
  }

  /** From the load of nwrite in step `i` to state `j` the reader has its snapshot. */
  ghost predicate Looking(states: seq<State>, moves: seq<Move>, i: nat, j: nat) {
    && IsRun(states, moves) && i < j < |states| && moves[i] == Look
    && forall n :: i < n <= j ==> states[n].reader.Looked?
  }

  lemma LookStep(s: State, s': State)
    requires Next(s, Look, s')
    ensures s'.reader == Looked(s.nwrite, |s.put|) && s'.put == s.put && s'.taken == s.taken && s'.writeOpen == s.writeOpen
  {
  }

  lemma {:induction false} Since(states: seq<State>, moves: seq<Move>, i: nat, j: nat)
    requires Looking(states, moves, i, j)
    ensures states[j].reader.seen == |states[i].put| && states[j].taken == states[i].taken && states[i].put <= states[j].put
    ensures states[i].put == states[j].put <==> forall n :: i <= n < j ==> moves[n] != PublishWrite
    ensures !states[i].writeOpen ==> !states[j].writeOpen && states[i].put == states[j].put
    decreases j
  {
    hide Good, Next;
    if j == i + 1 {
      LookStep(states[i], states[j]);
    } else {
      Since(states, moves, i, j - 1);
      RunGood(states, moves, j - 1);
      LookedStep(states[j - 1], moves[j - 1], states[j]);
      Longer(states[i].put, states[j - 1].put, states[j].put);
    }
  }

  lemma Longer(a: seq<Byte>, b: seq<Byte>, c: seq<Byte>)
    requires a <= b <= c
    ensures a <= c && (a == c <==> a == b && |c| == |b|)
  {
  }

  /** When a reader reports the end of the file all bytes that were there when it loaded nwrite have been taken. No byte at all
      is left exactly if none was published between that load and the test of the flag, which is sure if the write end was
      closed before the load. */
  lemma EndOfFileMeans(states: seq<State>, moves: seq<Move>, i: nat, j: nat)
    requires Looking(states, moves, i, j) && j < |moves| && moves[j] == EndOfFile
    ensures states[j + 1].taken == states[i].put
    ensures states[j + 1].taken == states[j + 1].put <==> forall n :: i <= n < j ==> moves[n] != PublishWrite
    ensures !states[i].writeOpen ==> states[j + 1].taken == states[j + 1].put
  {
    Since(states, moves, i, j);
    RunGood(states, moves, j);
    RunGood(states, moves, j + 1);
    var s, s' := states[j], states[j + 1];
    assert Next(s, EndOfFile, s');
    assert s'.taken == s'.put[..|s'.taken|] && s'.put == s.put;
    assert states[i].put == s.put[..|states[i].put|];
  }

  /** A byte published and the write end closed between a reader's two loads: the reader reports the end of the file with the
      byte still in the pipe. */
  lemma EndTooEarly(data: seq<Byte>) returns (states: seq<State>, moves: seq<Move>)
    requires |data| == PIPESIZE
    ensures IsRun(states, moves) && |moves| == 7 && Looking(states, moves, 0, 6) && moves[6] == EndOfFile
    ensures states[7].reader.AtEnd? && states[7].taken == [] && states[7].put == [7]
  {
    var s0 := State(data, 0, 0, Resting, Waiting, [], [], true, true);
    var s1 := s0.(reader := Looked(0, 0));
    var s6 := s1.(data := data[0 := 7], nwrite := 1, put := [7], writeOpen := false);
    var s7 := s6.(reader := AtEnd(0));
    var s2, s3, s4, s5 := WriteOne(s1);
    assert Reads(s0, Look, s1) && Writes(s5, CloseWrite, s6) && Reads(s6, EndOfFile, s7);
    states, moves := [s0, s1, s2, s3, s4, s5, s6, s7], [Look, Peek, StartWrite([7]), CopyByte, PublishWrite, CloseWrite, EndOfFile];
    hide Writes, Reads;
  }

  /** A writer puts one byte into an empty pipe. */
  lemma WriteOne(s: State) returns (s2: State, s3: State, s4: State, s': State)
    requires |s.data| == PIPESIZE && s.nread == s.nwrite == 0 && s.put == s.taken == [] && s.writer == Resting && s.readOpen && s.writeOpen
    ensures Writes(s, Peek, s2) && Writes(s2, StartWrite([7]), s3) && Writes(s3, CopyByte, s4) && Writes(s4, PublishWrite, s')
    ensures s' == s.(data := s.data[0 := 7], nwrite := 1, put := [7])
    ensures s2.reader == s3.reader == s4.reader == s.reader
  {
    s2 := s.(writer := Peeked(0, 0));
    s3 := s2.(writer := Copying([7], 0));
    s4 := s3.(data := s.data[0 := 7], writer := Copying([7], 1));
    s' := s4.(nwrite := 1, put := [7], writer := Resting);
    assert Writes(s2, StartWrite([7]), s3) by { Sizes(0, 0); assert [7][..1] == [7]; }
  }
}
