/** The copies inside pipewrite_kernel and piperead_kernel (kernel/pipe.c), each in one or two stretches of the ring. */
module Pipe {
  import opened Basics
  import opened PipeRing

  /** The ring after the bytes have been put in one at a time from stream position `at`. */
  ghost function Written(data: seq<Byte>, at: nat, src: seq<Byte>): (r: seq<Byte>)
    requires |data| == PIPESIZE
    ensures |r| == PIPESIZE
  {
    if src == [] then data
    else
      var n := |src| - 1;
      Written(data, at, src[..n])[(at + n) % PIPESIZE := src[n]]
  }

  /** Position `j` of what the ring holds after `src` went in: the byte of `src` that belongs there, if any. */
  lemma {:induction false} WrittenAt(data: seq<Byte>, at: nat, src: seq<Byte>, j: int)
    requires |data| == PIPESIZE && |src| <= PIPESIZE && 0 <= j < PIPESIZE
    ensures Written(data, at, src)[j] == if (j - at) % PIPESIZE < |src| then src[(j - at) % PIPESIZE] else data[j]
  {
    if src != [] {
      var n := |src| - 1;
      WrittenAt(data, at, src[..n], j);
      var d := (j - at) % PIPESIZE;
      Offset(j, at, n);
    }
  }

  lemma Offset(j: int, at: nat, n: int)
    requires 0 <= j < PIPESIZE && 0 <= n < PIPESIZE
    ensures j == (at + n) % PIPESIZE <==> (j - at) % PIPESIZE == n
  {
  }

  class Ring {
    const data: array<Byte>
    var nread: int
    var nwrite: int

    /** Whether the read end and the write end are open */
    var readOpen: bool
    var writeOpen: bool

    ghost var put: seq<Byte>
    ghost var taken: seq<Byte>

    ghost function View(): State
      reads this, data
    {
      State(data[..], nread, nwrite, Resting, Waiting, put, taken, readOpen, writeOpen)
    }

    ghost predicate Valid()
      reads this, data
    {
      Good(View())
    }

    /** What has been written and not yet read. */
    ghost function Contents(): seq<Byte>
      reads this, data
      requires Valid()
    {
      put[|taken|..]
    }

    constructor ()
      ensures Valid() && Contents() == [] && readOpen && writeOpen && fresh(data)
    {
      data := new Byte[PIPESIZE];
      nread, nwrite, readOpen, writeOpen := 0, 0, true, true;
      put, taken := [], [];
    }

    /** memmove into the ring */
    method MoveIn(start: int, src: seq<Byte>)
      requires 0 <= start && start + |src| <= data.Length
      modifies data
      ensures forall j :: 0 <= j < data.Length ==> data[j] == if start <= j < start + |src| then src[j - start] else old(data[j])
    {
      forall j | 0 <= j < |src| { data[start + j] := src[j]; }
    }

    /** The copy into the ring, split where the ring ends, is the copy one byte at a time. */
    method CopyIn(idx: int, src: seq<Byte>, ghost at: nat)
      requires data.Length == PIPESIZE && idx == at % PIPESIZE && |src| <= PIPESIZE
      modifies data
      ensures data[..] == Written(old(data[..]), at, src)
    {
      ghost var d := data[..];
      if idx + |src| <= PIPESIZE {
        MoveIn(idx, src);
      } else {
        var first := PIPESIZE - idx;
        MoveIn(idx, src[..first]);
        MoveIn(0, src[first..]);
      }
      forall j | 0 <= j < PIPESIZE ensures data[j] == Written(d, at, src)[j] {
        WrittenAt(d, at, src, j);
        Distance(j, at, idx);
      }
    }

    static lemma Distance(j: int, at: nat, idx: int)
      requires 0 <= j < PIPESIZE && idx == at % PIPESIZE
      ensures (j - at) % PIPESIZE == if j >= idx then j - idx else j - idx + PIPESIZE
    {
    }

    /** The copy out of the ring, split where the ring ends */
    method CopyOut(idx: int, size: int) returns (got: seq<Byte>)
      requires data.Length == PIPESIZE && 0 <= idx < PIPESIZE && 0 <= size <= PIPESIZE
      ensures |got| == size && forall k :: 0 <= k < size ==> got[k] == data[(idx + k) % PIPESIZE]
    {
      if idx + size <= PIPESIZE {
        got := data[idx..idx + size];
      } else {
        var first := PIPESIZE - idx;
        got := data[idx..] + data[..size - first];
      }
    }

    /** One turn of pipewrite_kernel's loop: -1 if no one can read, 0 if it has to wait, else the number of bytes put in */
    method WriteSome(buf: seq<Byte>) returns (k: int)
      requires Valid() && buf != []
      modifies this`nwrite, this`put, data
      ensures Valid() && (k == -1 <==> !readOpen) && (k == 0 <==> readOpen && |old(Contents())| == PIPESIZE)
      ensures -1 <= k <= |buf|
      ensures k > 0 ==> k == Min(|buf|, PIPESIZE - |old(Contents())|)
      ensures Contents() == if k > 0 then old(Contents()) + buf[..k] else old(Contents())
    {
      hide Good, Written, Writable, Readable;
      Room(View());
      if !readOpen { return -1; }
      var writable := Writable(nwrite, nread);
      if writable == 0 { return 0; }
      k := Min(|buf|, writable);
      ghost var s := View();
      Place(s);
      CopyIn(nwrite % PIPESIZE, buf[..k], |put|);
      nwrite := (nwrite + k) % WORD;
      put := put + buf[..k];
      ByteByByte(s, View(), buf[..k]);
    }

    static lemma Room(s: State)
      requires Good(s) && s.writer == Resting
      ensures |s.data| == PIPESIZE && |s.taken| <= |s.put| <= |s.taken| + PIPESIZE
      ensures Readable(s.nwrite, s.nread) == |s.put| - |s.taken| && Writable(s.nwrite, s.nread) == PIPESIZE - (|s.put| - |s.taken|)
    {
      Sizes(|s.put|, |s.taken|);
    }

    static lemma Starts(s: State, src: seq<Byte>)
      requires Good(s) && s.writer == Resting && 0 < |src| && |s.put| - |s.taken| + |src| <= PIPESIZE
      requires s.readOpen && s.writeOpen
      ensures Good(s.(writer := Copying(src, 0)))
    {
      hide Good, Writable, Readable;
      Room(s);
      assert src[..|src|] == src;
      var t := s.(writer := Peeked(s.nread, |s.taken|));
      NextGood(s, Peek, t);
      NextGood(t, StartWrite(src), s.(writer := Copying(src, 0)));
    }

    /** Between turns the flags do not matter. */
    static lemma Flags(s: State, readOpen: bool, writeOpen: bool)
      requires Good(s) && s.writer == Resting && s.reader == Waiting
      ensures Good(s.(readOpen := readOpen, writeOpen := writeOpen))
    {
      hide Holds;
    }

    static lemma Place(s: State)
      requires Good(s)
      ensures s.nwrite % PIPESIZE == |s.put| % PIPESIZE && s.nread % PIPESIZE == |s.taken| % PIPESIZE
    {
      Wraps(|s.put|, 0);
      Wraps(|s.taken|, 0);
    }

    /** The same turn taken step by step, with the reader still: the pipe ends up the same. */
    static lemma ByteByByte(s: State, s': State, src: seq<Byte>)
      requires Good(s) && s.writer == Resting && s.reader == Waiting && 0 < |src| && |s.put| - |s.taken| + |src| <= PIPESIZE
      requires s' == s.(data := Written(s.data, |s.put|, src), nwrite := (s.nwrite + |src|) % WORD, put := s.put + src)
      ensures Good(s')
    {
      hide Good, Written;
      Flags(s, true, true);
      var o := s.(readOpen := true, writeOpen := true);
      var o' := s'.(readOpen := true, writeOpen := true);
      OpenTurn(o, o', src);
      Flags(o', s.readOpen, s.writeOpen);
    }

    static lemma OpenTurn(s: State, s': State, src: seq<Byte>)
      requires Good(s) && s.writer == Resting && 0 < |src| && |s.put| - |s.taken| + |src| <= PIPESIZE && s.readOpen && s.writeOpen
      requires s' == s.(data := Written(s.data, |s.put|, src), nwrite := (s.nwrite + |src|) % WORD, put := s.put + src)
      ensures Good(s')
    {
      hide Good, Written;
      Room(s);
      var c := s.(writer := Copying(src, 0));
      var e := c.(data := Written(s.data, |s.put|, src), writer := Copying(src, |src|));
      Starts(s, src);
      CopiesAll(c, src);
      hide Min, Readable, Writable;
      NextGood(e, PublishWrite, s');
    }

    static lemma CopiesAll(c: State, src: seq<Byte>)
      requires Good(c) && c.writer == Copying(src, 0)
      ensures |c.data| == PIPESIZE && Good(c.(data := Written(c.data, |c.put|, src), writer := Copying(src, |src|)))
    {
      hide Written;
      assert src[..|src|] == src;
      Copies(c, src, |src|);
    }

    static lemma OneMoreByte(data: seq<Byte>, at: nat, src: seq<Byte>, k: nat)
      requires |data| == PIPESIZE && 0 < k <= |src|
      ensures Written(data, at, src[..k]) == Written(data, at, src[..k - 1])[(at + (k - 1)) % PIPESIZE := src[k - 1]]
    {
      assert src[..k][..k - 1] == src[..k - 1];
    }

    static lemma {:induction false} Copies(c: State, src: seq<Byte>, k: nat)
      requires Good(c) && c.writer == Copying(src, 0) && k <= |src|
      ensures Good(c.(data := Written(c.data, |c.put|, src[..k]), writer := Copying(src, k)))
    {
      if k > 0 {
        Copies(c, src, k - 1);
        var b := c.(data := Written(c.data, |c.put|, src[..k - 1]), writer := Copying(src, k - 1));
        var e := c.(data := Written(c.data, |c.put|, src[..k]), writer := Copying(src, k));
        OneMoreByte(c.data, |c.put|, src, k);
        Place(c);
        Wraps(|c.put|, k - 1);
        assert e.data == b.data[(c.nwrite % PIPESIZE + (k - 1)) % PIPESIZE := src[k - 1]];
        hide Good, Written;
        NextGood(b, CopyByte, e);
      } else {
        assert src[..0] == [];
      }
    }

    /** One turn of piperead_kernel's loop: it waits on an empty pipe that can still be written, and is at the end of
        one that cannot */
    method ReadSome(n: int) returns (got: seq<Byte>, end: bool)
      requires Valid() && 0 < n
      modifies this`nread, this`taken
      ensures Valid() && got == old(Contents())[..Min(n, |old(Contents())|)] && Contents() == old(Contents())[|got|..]
      ensures end <==> old(Contents()) == [] && !writeOpen
    {
      hide Good, Writable, Readable;
      Room(View());
      ghost var s, c := View(), Contents();
      var readable := Readable(nwrite, nread);
      if readable == 0 { return [], !writeOpen; }
      var size := Min(n, readable);
      got := CopyOut(nread % PIPESIZE, size);
      Fills(s, got);
      assert got == c[..size] && put[|taken + got|..] == c[size..];
      nread := (nread + size) % WORD;
      taken := taken + got;
      end := false;
    }

    static lemma Fills(s: State, got: seq<Byte>)
      requires Good(s) && s.writer == Resting && s.reader == Waiting && 0 < |got| <= |s.put| - |s.taken|
      requires forall k :: 0 <= k < |got| ==> got[k] == s.data[(s.nread % PIPESIZE + k) % PIPESIZE]
      ensures got == s.put[|s.taken|..|s.taken| + |got|]
      ensures Good(s.(nread := (s.nread + |got|) % WORD, taken := s.taken + got))
    {
      forall k | 0 <= k < |got| ensures got[k] == s.put[|s.taken| + k] {
        Wraps(|s.taken|, k);
        assert s.data[(|s.taken| + k) % PIPESIZE] == Stream(s)[|s.taken| + k];
      }
      Wraps(|s.taken|, |got|);
    }
  }
}
