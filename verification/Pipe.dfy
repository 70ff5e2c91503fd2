/** Pipes (fs/pipe.c): a ring of PIPE_BUF bytes, and readers and writers that sleep on it in any order. */
module Pipe {
  import opened Blocks

  const PIPE_BUF := 512

  datatype Result = Count(n: nat) | Epipe | Eagain | Restart

  /** The end of a turn: asleep or about to look again, or back with a result. */
  datatype Turn = Again | Back(result: Result)

  /** What a reader of count bytes takes from a pipe holding c. */
  function Taken(c: seq<Byte>, count: int): (out: seq<Byte>)
    ensures out <= c && (if count <= 0 then out == [] else |out| <= count && (|out| < count ==> out == c))
  {
    c[..if count < 0 then 0 else if count < |c| then count else |c|]
  }

  /** How much of data a pipe holding c has space for. */
  function Fits(c: seq<Byte>, data: seq<Byte>): (n: nat)
    requires |c| <= PIPE_BUF
    ensures n <= |data| && |c| + n <= PIPE_BUF && (n == |data| || |c| + n == PIPE_BUF)
  {
    if |data| < PIPE_BUF - |c| then |data| else PIPE_BUF - |c|
  }

  /** A writer that needs room bytes of space gets nothing in before there is that much. */
  function Accepts(c: seq<Byte>, data: seq<Byte>, room: nat): (n: nat)
    requires |c| <= PIPE_BUF
    ensures n <= |data| && |c| + n <= PIPE_BUF
    ensures |c| + room > PIPE_BUF ==> n == 0
    ensures |c| + room <= PIPE_BUF ==> n == |data| || |c| + n == PIPE_BUF
  {
    if PIPE_BUF - |c| < room then 0 else Fits(c, data)
  }

  /** What a reader is told: how much it got; or, with nothing, end of file exactly if nobody can write. */
  function ReadResult(c: seq<Byte>, writers: nat, count: int, nonblock: bool, signal: bool): (t: Turn)
    ensures c != [] && count > 0 ==> t == Back(Count(|Taken(c, count)|))
    ensures c == [] || count <= 0 ==>
              && (t == Back(Count(0)) <==> writers == 0)
              && (t == Again <==> writers != 0 && c == [] && !nonblock && !signal)
              && (t == Back(Restart) <==> writers != 0 && c == [] && !nonblock && signal)
              && (t == Back(Eagain) <==> writers != 0 && (nonblock || c != []))
  {
    if c == [] then
      if writers == 0 then Back(Count(0)) else if nonblock then Back(Eagain) else if signal then Back(Restart)
          else Again
    else if Taken(c, count) != [] then Back(Count(|Taken(c, count)|))
    else if writers != 0 then Back(Eagain) else Back(Count(0))
  }

  /** What a writer is told when nothing of the rest goes in: to wait, or how much went in before, or why nothing
    * did. */
  function Refused(readers: nat, written: nat, nonblock: bool, signal: bool): (t: Turn)
    ensures t == Again <==> readers != 0 && !signal && !nonblock
    ensures t == Back(Count(written)) <==> !t.Again? && written > 0
    ensures t == Back(Epipe) <==> written == 0 && readers == 0
    ensures t == Back(Restart) <==> written == 0 && readers != 0 && signal
    ensures t == Back(Eagain) <==> written == 0 && readers != 0 && !signal && nonblock
  {
    if readers != 0 && !signal && !nonblock then Again
    else if written > 0 then Back(Count(written))
    else if readers == 0 then Back(Epipe)
    else if signal then Back(Restart)
    else Back(Eagain)
  }

  // ---------------------------------------------------------------- the ring

  type Ring = b: seq<Byte> | |b| == PIPE_BUF witness seq(PIPE_BUF, _ => 0)

  /** The bytes in the pipe, oldest first. */
  function Bytes(b: Ring, start: nat, len: nat): (r: seq<Byte>)
    requires start < PIPE_BUF && len <= PIPE_BUF
    ensures |r| == len && forall k :: 0 <= k < len ==> r[k] == b[(start + k) % PIPE_BUF]
  {
    seq(len, k requires 0 <= k < len => b[(start + k) % PIPE_BUF])
  }

  lemma TakeFront(b: Ring, start: nat, len: nat, n: nat)
    requires start < PIPE_BUF && len <= PIPE_BUF && n <= len && n <= PIPE_BUF - start
    ensures Bytes(b, start, len) == b[start..start + n] + Bytes(b, (start + n) % PIPE_BUF, len - n)
  {
    var r := Bytes(b, (start + n) % PIPE_BUF, len - n);
    forall k | n <= k < len ensures r[k - n] == Bytes(b, start, len)[k] {
      assert ((start + n) % PIPE_BUF + (k - n)) % PIPE_BUF == (start + k) % PIPE_BUF;
    }
  }

  lemma PutBack(b: Ring, start: nat, len: nat, d: seq<Byte>, c: Ring)
    requires start < PIPE_BUF && len + |d| <= PIPE_BUF
    requires var p := (start + len) % PIPE_BUF;
             p + |d| <= PIPE_BUF && c == b[..p] + d + b[p + |d|..]
    ensures Bytes(c, start, len + |d|) == Bytes(b, start, len) + d
  {
    var p := (start + len) % PIPE_BUF;
    var r := Bytes(c, start, len + |d|);
    forall k | 0 <= k < len ensures r[k] == Bytes(b, start, len)[k] {
      Before(start, len, k, |d|);
      assert c[(start + k) % PIPE_BUF] == b[(start + k) % PIPE_BUF];
    }
    forall k | 0 <= k < |d| ensures r[len + k] == d[k] {
      Within(start, len, k);
      assert c[p + k] == d[k];
    }
  }

  lemma Before(start: nat, len: nat, k: nat, n: nat)
    requires start < PIPE_BUF && k < len && len + n <= PIPE_BUF && (start + len) % PIPE_BUF + n <= PIPE_BUF
    ensures var q := (start + k) % PIPE_BUF; var p := (start + len) % PIPE_BUF;
            0 <= q < PIPE_BUF && (q < p || q >= p + n)
  {}

  lemma Within(start: nat, len: nat, k: nat)
    requires start < PIPE_BUF && (start + len) % PIPE_BUF + k < PIPE_BUF
    ensures (start + (len + k)) % PIPE_BUF == (start + len) % PIPE_BUF + k
  {}

  /** struct pipe_inode_info. */
  class Fifo {
    const base: array<Byte>
    var start: nat
    var len: nat
    var lock: nat
    var readers: nat
    var writers: nat

    /** get_pipe_inode. */
    constructor ()
      ensures Valid() && Contents() == [] && readers == 1 && writers == 1 && fresh(base)
    {
      base := new Byte[PIPE_BUF](_ => 0);
      start, len, lock, readers, writers := 0, 0, 0, 1, 1;
    }

    /** Between two sleeps nobody is in the copying loops, so the lock is off. */
    ghost predicate Valid()
      reads this
    {
      base.Length == PIPE_BUF && start < PIPE_BUF && len <= PIPE_BUF && lock == 0
    }

    ghost function Contents(): seq<Byte>
      reads this, base
      requires base.Length == PIPE_BUF && start < PIPE_BUF && len <= PIPE_BUF
    {
      Bytes(base[..], start, len)
    }

    ghost predicate InRange()
      reads this
    {
      base.Length == PIPE_BUF && start < PIPE_BUF && len <= PIPE_BUF
    }

    /** One pass of the copying loop: the bytes up to the end of the ring. */
    method ChunkOut(want: int) returns (chunk: seq<Byte>)
      requires InRange() && want > 0 && len != 0
      modifies this`start, this`len
      ensures InRange() && len < old(len) && 0 < |chunk| <= want
      ensures |chunk| <= |old(Contents())| && chunk == old(Contents())[..|chunk|]
                && Contents() == old(Contents())[|chunk|..]
    {
      var chars := PIPE_BUF - start;
      if chars > want { chars := want; }
      if chars > len { chars := len; }
      TakeFront(base[..], start, len, chars);
      chunk := base[start..start + chars];
      start := (start + chars) % PIPE_BUF;
      len := len - chars;
    }

    /** pipe_read from the lock on: the copying loop takes what there is, at most count bytes, oldest first. */
    method CopyOut(count: int) returns (out: seq<Byte>)
      requires Valid()
      modifies this`start, this`len, this`lock
      ensures Valid()
      ensures out == Taken(old(Contents()), count) && Contents() == old(Contents())[|out|..]
    {
      ghost var was := Contents();
      lock := lock + 1;
      var want := count;
      out := [];
      while want > 0 && len != 0
        invariant InRange() && lock == 1 && |out| <= |was| && want == count - |out| && (|out| > 0 ==> want >= 0)
        invariant out == was[..|out|] && Contents() == was[|out|..]
        decreases len
      {
        var chunk := ChunkOut(want);
        assert was[..|out| + |chunk|] == was[..|out|] + was[|out|..][..|chunk|];
        out := out + chunk;
        want := want - |chunk|;
      }
      lock := lock - 1;
    }

    /** memcpy_fromfs into the ring. */
    method Copy(at: nat, d: seq<Byte>)
      requires base.Length == PIPE_BUF && at + |d| <= PIPE_BUF
      modifies base
      ensures base[..] == old(base[..])[..at] + d + old(base[..])[at + |d|..]
    {
      forall k | 0 <= k < |d| { base[at + k] := d[k]; }
    }

    /** One pass of the copying loop: up to the end of the ring or of the space. */
    method ChunkIn(data: seq<Byte>) returns (n: nat)
      requires InRange() && data != [] && len < PIPE_BUF
      modifies this`len, base
      ensures InRange() && len > old(len) && 0 < n <= |data| && Contents() == old(Contents()) + data[..n]
    {
      var at := (start + len) % PIPE_BUF;
      n := PIPE_BUF - at;
      if n > |data| { n := |data|; }
      if n > PIPE_BUF - len { n := PIPE_BUF - len; }
      ghost var was := base[..];
      Copy(at, data[..n]);
      PutBack(was, start, len, data[..n], base[..]);
      len := len + n;
    }

    /** pipe_write from the lock on: the copying loop appends as much of data as fits. */
    method CopyIn(data: seq<Byte>) returns (n: nat)
      requires Valid()
      modifies this`len, this`lock, base
      ensures Valid()
      ensures n == Fits(old(Contents()), data) && Contents() == old(Contents()) + data[..n]
    {
      ghost var was := Contents();
      lock := lock + 1;
      n := 0;
      while n < |data| && PIPE_BUF - len != 0
        invariant InRange() && lock == 1 && n <= |data| && Contents() == was + data[..n]
        decreases PIPE_BUF - len
      {
        var k := ChunkIn(data[n..]);
        assert data[..n + k] == data[..n] + data[n..][..k];
        n := n + k;
      }
      lock := lock - 1;
    }

    /** pipe_read from one look at the pipe to its return or its next sleep. */
    method ReadTurn(count: int, nonblock: bool, signal: bool) returns (t: Turn, out: seq<Byte>)
      requires Valid()
      modifies this`start, this`len, this`lock
      ensures Valid()
      ensures t == ReadResult(old(Contents()), writers, count, nonblock, signal)
      ensures out == (if old(Contents()) == [] then [] else Taken(old(Contents()), count))
      ensures out != [] ==> t == Back(Count(|out|)) && |out| <= count
      ensures out == [] ==>
                && (t == Back(Count(0)) <==> writers == 0)
                && (t == Again <==> writers != 0 && old(Contents()) == [] && !nonblock && !signal)
                && (t == Back(Restart) <==> writers != 0 && old(Contents()) == [] && !nonblock && signal)
                && (t == Back(Eagain) <==> writers != 0 && (nonblock || old(Contents()) != []))
      ensures count > 0 && old(Contents()) != [] ==> out != []
      ensures Contents() == old(Contents())[|out|..]
    {
      out := [];
      if nonblock {
        if lock != 0 { return Back(Eagain), []; }
        if len == 0 { return if writers != 0 then Back(Eagain) else Back(Count(0)), []; }
      } else if len == 0 || lock != 0 {
        if len == 0 && writers == 0 { return Back(Count(0)), []; }
        if signal { return Back(Restart), []; }
        return Again, [];
      }
      out := CopyOut(count);
      t := if out != [] then Back(Count(|out|)) else if writers != 0 then Back(Eagain) else Back(Count(0));
    }

    /** pipe_write from one look at the pipe to its return or its next sleep. written bytes are in already, and
      * room is what the next chunk needs. */
    method WriteTurn(data: seq<Byte>, written: nat, room: nat, nonblock: bool, signal: bool)
      returns (t: Turn, n: nat)
      requires Valid() && written < |data| && room > 0
      modifies this`len, this`lock, base
      ensures Valid()
      ensures n == Accepts(old(Contents()), data[written..], room)
      ensures n == 0 <==> |old(Contents())| + room > PIPE_BUF
      ensures n > 0 ==> n == |data| - written || |Contents()| == PIPE_BUF
      ensures n == 0 ==> t == Refused(readers, written, nonblock, signal)
      ensures n == 0 ==>
                && (t == Again <==> readers != 0 && !signal && !nonblock)
                && (!t.Again? && written > 0 ==> t == Back(Count(written)))
                && (!t.Again? && written == 0 ==>
                      t == Back(if readers == 0 then Epipe else if signal then Restart else Eagain))
      ensures n > 0 ==> t == if written + n == |data| then Back(Count(written + n)) else Again
      ensures Contents() == old(Contents()) + data[written..][..n]
    {
      if PIPE_BUF - len < room || lock != 0 {
        n := 0;
        if readers == 0 { return if written > 0 then Back(Count(written)) else Back(Epipe), 0; }
        if signal { return if written > 0 then Back(Count(written)) else Back(Restart), 0; }
        if nonblock { return if written > 0 then Back(Count(written)) else Back(Eagain), 0; }
        return Again, 0;
      }
      n := CopyIn(data[written..]);
      t := if written + n == |data| then Back(Count(written + n)) else Again;
    }
  }

  // ---------------------------------------------------------------- readers and writers in any order

  /** Bytes of one write call that went in together. */
  datatype Piece = Piece(call: nat, bytes: seq<Byte>)

  datatype Pc = Idle | Reading(count: int, nonblock: bool) | Writing(call: nat, written: nat, room: nat, nonblock: bool)

  /** A read call that has returned: what it got and what it was told. */
  datatype Got = Got(bytes: seq<Byte>, result: Result)

  /** For the proof: returned are the read calls that have returned, taken is all that was ever read, log all that was
    * ever accepted; of each write call, its data, how much of it was accepted, and how it ended. */
  datatype State = State(content: seq<Byte>, readers: nat, writers: nat, tasks: seq<Pc>, returned: seq<Got>,
                         taken: seq<Byte>, log: seq<Piece>, calls: seq<seq<Byte>>, accepted: seq<nat>, ends: seq<Turn>)

  datatype Step = StartRead(i: nat, count: int, nonblock: bool)
                | StartWrite(i: nat, data: seq<Byte>, nonblock: bool)
                | Look(i: nat, signal: bool)
                | OpenClose(readers: nat, writers: nat)

  predicate Enabled(s: State, step: Step) {
    match step
    case StartRead(i, _, _) => i < |s.tasks| && s.tasks[i].Idle?
    case StartWrite(i, _, _) => i < |s.tasks| && s.tasks[i].Idle?
    case Look(i, _) => i < |s.tasks| && !s.tasks[i].Idle?
    case OpenClose(_, _) => true
  }

  /** pipe_write up to its first look: free is the whole count if that can fit at all, else one byte. */
  function Started(s: State, i: nat, data: seq<Byte>, nonblock: bool): State
    requires i < |s.tasks|
  {
    var call := |s.calls|;
    var t := s.(calls := s.calls + [data], accepted := s.accepted + [0]);
    if s.readers == 0 then t.(ends := s.ends + [Back(Epipe)])
    else if data == [] then t.(ends := s.ends + [Back(Count(0))])
    else t.(ends := s.ends + [Again],
            tasks := s.tasks[i := Writing(call, 0, if |data| <= PIPE_BUF then |data| else 1, nonblock)])
  }

  /** A write fails at once exactly if nobody reads, and goes on exactly if there is something to write. */
  lemma StartEnds(s: State, i: nat, data: seq<Byte>, nonblock: bool)
    requires i < |s.tasks| && s.tasks[i].Idle?
    ensures var t := Started(s, i, data, nonblock);
            && |t.ends| == |s.ends| + 1
            && (t.ends[|s.ends|] == Back(Epipe) <==> s.readers == 0)
            && (t.ends[|s.ends|] == Back(Count(0)) <==> s.readers > 0 && data == [])
            && (t.tasks[i].Writing? <==> s.readers > 0 && data != [])
            && (t.tasks[i].Writing? <==> t.ends[|s.ends|] == Again)
            && t.content == s.content && t.log == s.log
  {}

  /** One ReadTurn. */
  function Read(s: State, i: nat, signal: bool): State
    requires i < |s.tasks| && s.tasks[i].Reading?
  {
    var a := s.tasks[i];
    var out := if s.content == [] then [] else Taken(s.content, a.count);
    var t := ReadResult(s.content, s.writers, a.count, a.nonblock, signal);
    s.(content := s.content[|out|..], taken := s.taken + out,
       returned := if t.Again? then s.returned else s.returned + [Got(out, t.result)],
       tasks := if t.Again? then s.tasks else s.tasks[i := Idle])
  }

  ghost predicate WriterAt(s: State, i: nat) {
    |s.calls| == |s.accepted| == |s.ends| && |s.content| <= PIPE_BUF
    && (i < |s.tasks| && s.tasks[i].Writing? ==>
          && s.tasks[i].call < |s.calls|
          && s.tasks[i].written == s.accepted[s.tasks[i].call] < |s.calls[s.tasks[i].call]|
          && s.ends[s.tasks[i].call].Again?
          && s.tasks[i].room == (if |s.calls[s.tasks[i].call]| <= PIPE_BUF then |s.calls[s.tasks[i].call]| else 1)
          && (|s.calls[s.tasks[i].call]| <= PIPE_BUF ==> s.tasks[i].written == 0))
  }

  /** One WriteTurn. */
  function Wrote(s: State, i: nat, signal: bool): State
    requires i < |s.tasks| && s.tasks[i].Writing? && WriterAt(s, i)
  {
    var a := s.tasks[i];
    var rest := s.calls[a.call][a.written..];
    var n := Accepts(s.content, rest, a.room);
    if n == 0 then
      var t := Refused(s.readers, a.written, a.nonblock, signal);
      s.(ends := s.ends[a.call := t], tasks := if t.Again? then s.tasks else s.tasks[i := Idle])
    else
      var last := a.written + n == |s.calls[a.call]|;
      s.(content := s.content + rest[..n], log := s.log + [Piece(a.call, rest[..n])],
         accepted := s.accepted[a.call := a.written + n],
         ends := s.ends[a.call := if last then Back(Count(a.written + n)) else Again],
         tasks := s.tasks[i := if last then Idle else Writing(a.call, a.written + n, 1, a.nonblock)])
  }

  ghost function Apply(s: State, step: Step): State
    requires Enabled(s, step) && forall i :: WriterAt(s, i)
  {
    match step
    case StartRead(i, count, nonblock) => s.(tasks := s.tasks[i := Reading(count, nonblock)])
    case StartWrite(i, data, nonblock) => Started(s, i, data, nonblock)
    case Look(i, signal) => if s.tasks[i].Reading? then Read(s, i, signal) else Wrote(s, i, signal)
    case OpenClose(readers, writers) => s.(readers := readers, writers := writers)
  }

  /** The stream: all accepted bytes in order. */
  function Flat(log: seq<Piece>): seq<Byte> {
    if log == [] then [] else log[0].bytes + Flat(log[1..])
  }

  lemma {:induction false} FlatJoin(a: seq<Piece>, b: seq<Piece>)
    ensures Flat(a + b) == Flat(a) + Flat(b)
  {
    if a == [] {
      assert a + b == b;
    } else {
      assert (a + b)[1..] == a[1..] + b;
      FlatJoin(a[1..], b);
    }
  }

  /** The bytes of one call in the stream. */
  function Of(log: seq<Piece>, c: nat): seq<Byte> {
    if log == [] then [] else (if log[0].call == c then log[0].bytes else []) + Of(log[1..], c)
  }

  lemma {:induction false} OfPush(log: seq<Piece>, p: Piece, c: nat)
    ensures Of(log + [p], c) == Of(log, c) + if p.call == c then p.bytes else []
  {
    if log == [] {
      assert log + [p] == [p] && [p][1..] == [];
    } else {
      var h := if log[0].call == c then log[0].bytes else [];
      assert (log + [p])[1..] == log[1..] + [p];
      assert Of(log + [p], c) == h + Of(log[1..] + [p], c);
      OfPush(log[1..], p, c);
      assert Of(log, c) == h + Of(log[1..], c);
    }
  }

  /** What is known of a piece: a call that fits the pipe went in whole. */
  ghost predicate PieceAt(s: State, k: nat) {
    k < |s.log| ==>
      && s.log[k].call < |s.calls| && s.log[k].bytes != []
      && (|s.calls[s.log[k].call]| <= PIPE_BUF ==> s.log[k].bytes == s.calls[s.log[k].call])
  }

  /** What is known of a call: what went in is a prefix of its data, as long as it was told. */
  ghost predicate CallAt(s: State, c: nat) {
    c < |s.calls| == |s.accepted| == |s.ends| ==>
      && s.accepted[c] <= |s.calls[c]| && Of(s.log, c) == s.calls[c][..s.accepted[c]]
      && (s.ends[c].Back? ==> s.accepted[c] == if s.ends[c].result.Count? then s.ends[c].result.n else 0)
      && (s.ends[c].Back? && s.ends[c].result.Count? ==> s.ends[c].result.n > 0 || s.calls[c] == [])
  }

  /** What is known of a read that has returned: it was told as many bytes as it got. */
  ghost predicate GotAt(s: State, k: nat) {
    k < |s.returned| ==> |s.returned[k].bytes| == if s.returned[k].result.Count? then s.returned[k].result.n else 0
  }

  /** All bytes got, in order. */
  function AllGot(got: seq<Got>): seq<Byte> {
    if got == [] then [] else AllGot(got[..|got| - 1]) + got[|got| - 1].bytes
  }

  ghost predicate ApartAt(s: State, i: nat, j: nat) {
    i < j < |s.tasks| && s.tasks[i].Writing? && s.tasks[j].Writing? ==> s.tasks[i].call != s.tasks[j].call
  }

  ghost predicate Inv(s: State) {
    && s.taken + s.content == Flat(s.log) && |s.content| <= PIPE_BUF
    && AllGot(s.returned) == s.taken && (forall k :: GotAt(s, k))
    && (forall i :: WriterAt(s, i)) && (forall k :: PieceAt(s, k)) && (forall c :: CallAt(s, c))
    && (forall i, j :: ApartAt(s, i, j))
  }

  lemma StartKeeps(s: State, i: nat, data: seq<Byte>, nonblock: bool)
    requires Inv(s) && i < |s.tasks| && s.tasks[i].Idle?
    ensures Inv(Started(s, i, data, nonblock))
  {
    var t := Started(s, i, data, nonblock);
    assert WriterAt(s, 0);
    forall k: nat ensures GotAt(t, k) { assert GotAt(s, k); }
    forall j: nat ensures WriterAt(t, j) { assert WriterAt(s, j); }
    forall k: nat ensures PieceAt(t, k) { assert PieceAt(s, k); }
    forall c: nat ensures CallAt(t, c) {
      assert CallAt(s, c);
      if c == |s.calls| { NotYet(s, s.log, c); }
    }
    forall j: nat, k: nat ensures ApartAt(t, j, k) { assert ApartAt(s, j, k) && WriterAt(s, j) && WriterAt(s, k); }
  }

  lemma {:induction false} NotYet(s: State, log: seq<Piece>, c: nat)
    requires c >= |s.calls| && (forall k :: 0 <= k < |log| ==> log[k] in s.log) && forall k :: PieceAt(s, k)
    ensures Of(log, c) == []
    decreases |log|
  {
    if log != [] {
      var k :| 0 <= k < |s.log| && s.log[k] == log[0];
      assert PieceAt(s, k);
      NotYet(s, log[1..], c);
    }
  }

  lemma ReadKeeps(s: State, i: nat, signal: bool)
    requires Inv(s) && i < |s.tasks| && s.tasks[i].Reading?
    ensures Inv(Read(s, i, signal)) && Read(s, i, signal).log == s.log
  {
    var t := Read(s, i, signal);
    var out := if s.content == [] then [] else Taken(s.content, s.tasks[i].count);
    assert s.content == out + s.content[|out|..];
    assert t.taken + t.content == s.taken + s.content;
    if t.returned != s.returned {
      assert t.returned[..|t.returned| - 1] == s.returned;
    } else {
      assert out == [];
    }
    forall k: nat ensures GotAt(t, k) { assert GotAt(s, k); }
    forall j: nat ensures WriterAt(t, j) { assert WriterAt(s, j); }
    forall k: nat ensures PieceAt(t, k) { assert PieceAt(s, k); }
    forall c: nat ensures CallAt(t, c) { assert CallAt(s, c); }
    forall j: nat, k: nat ensures ApartAt(t, j, k) { assert ApartAt(s, j, k); }
  }

  lemma WroteStream(s: State, i: nat, signal: bool)
    requires Inv(s) && i < |s.tasks| && s.tasks[i].Writing? && WriterAt(s, i)
    ensures var t := Wrote(s, i, signal);
            && t.taken + t.content == Flat(t.log) && |t.content| <= PIPE_BUF && t.calls == s.calls
            && t.returned == s.returned && t.taken == s.taken
  {
    var t := Wrote(s, i, signal);
    var a := s.tasks[i];
    var rest := s.calls[a.call][a.written..];
    var n := Accepts(s.content, rest, a.room);
    if n != 0 {
      var p := Piece(a.call, rest[..n]);
      FlatJoin(s.log, [p]);
      assert Flat([p]) == p.bytes + Flat([p][1..]) == p.bytes;
      assert s.taken + (s.content + rest[..n]) == (s.taken + s.content) + rest[..n];
    }
  }

  lemma WrotePieces(s: State, i: nat, signal: bool, k: nat)
    requires Inv(s) && i < |s.tasks| && s.tasks[i].Writing? && WriterAt(s, i)
    ensures PieceAt(Wrote(s, i, signal), k)
  {
    var a := s.tasks[i];
    var rest := s.calls[a.call][a.written..];
    assert PieceAt(s, k);
    if a.written == 0 {
      assert rest == s.calls[a.call];
      assert rest[..|rest|] == rest;
    }
  }

  lemma WroteCalls(s: State, i: nat, signal: bool, c: nat)
    requires Inv(s) && i < |s.tasks| && s.tasks[i].Writing? && WriterAt(s, i)
    ensures CallAt(Wrote(s, i, signal), c)
  {
    var a := s.tasks[i];
    var rest := s.calls[a.call][a.written..];
    var n := Accepts(s.content, rest, a.room);
    assert CallAt(s, c);
    if n != 0 {
      OfPush(s.log, Piece(a.call, rest[..n]), c);
      assert s.calls[a.call][..a.written] + rest[..n] == s.calls[a.call][..a.written + n];
    }
  }

  lemma WroteTasks(s: State, i: nat, signal: bool)
    requires Inv(s) && i < |s.tasks| && s.tasks[i].Writing? && WriterAt(s, i)
    ensures var t := Wrote(s, i, signal); (forall j :: WriterAt(t, j)) && (forall j, k :: ApartAt(t, j, k))
  {
    var t := Wrote(s, i, signal);
    WroteStream(s, i, signal);
    forall j: nat ensures WriterAt(t, j) {
      assert WriterAt(s, j) && ApartAt(s, i, j) && ApartAt(s, j, i);
    }
    forall j: nat, k: nat ensures ApartAt(t, j, k) { assert ApartAt(s, j, k); }
  }

  lemma StepInv(s: State, step: Step)
    requires Inv(s) && Enabled(s, step)
    ensures Inv(Apply(s, step))
  {
    var t := Apply(s, step);
    match step {
      case StartWrite(i, data, nonblock) => StartKeeps(s, i, data, nonblock);
      case Look(i, signal) =>
        if s.tasks[i].Reading? {
          ReadKeeps(s, i, signal);
        } else {
          WroteStream(s, i, signal);
          WroteTasks(s, i, signal);
          forall k: nat ensures GotAt(t, k) { assert GotAt(s, k); }
          forall k: nat ensures PieceAt(t, k) { WrotePieces(s, i, signal, k); }
          forall c: nat ensures CallAt(t, c) { WroteCalls(s, i, signal, c); }
        }
      case _ =>
        forall j: nat ensures WriterAt(t, j) { assert WriterAt(s, j); }
        forall k: nat ensures PieceAt(t, k) { assert PieceAt(s, k); }
        forall c: nat ensures CallAt(t, c) { assert CallAt(s, c); }
        forall k: nat ensures GotAt(t, k) { assert GotAt(s, k); }
        forall j: nat, k: nat ensures ApartAt(t, j, k) { assert ApartAt(s, j, k); }
    }
  }

  ghost predicate Reaches(s: State, steps: seq<Step>, t: State)
    decreases |steps|
  {
    if steps == [] then t == s
    else Enabled(s, steps[0]) && (forall i :: WriterAt(s, i)) && Reaches(Apply(s, steps[0]), steps[1..], t)
  }

  function Fresh(tasks: nat): State { State([], 1, 1, seq(tasks, _ => Idle), [], [], [], [], [], []) }

  lemma {:induction false} RunKeeps(s: State, steps: seq<Step>, t: State)
    requires Inv(s) && Reaches(s, steps, t)
    ensures Inv(t)
    decreases |steps|
  {
    if steps != [] {
      StepInv(s, steps[0]);
      RunKeeps(Apply(s, steps[0]), steps[1..], t);
    }
  }

  /** A pipe is first in, first out, for any readers and writers in any order: what was read is a prefix of what
    * was accepted, the rest is in the pipe, and each call's accepted bytes are a prefix of its data, as many as
    * the call was told if it has returned; and what readers were told adds up to what was read. */
  lemma FirstInFirstOut(tasks: nat, steps: seq<Step>, t: State)
    requires Reaches(Fresh(tasks), steps, t)
    ensures t.taken <= Flat(t.log) && |Flat(t.log)| - |t.taken| == |t.content| <= PIPE_BUF
    ensures forall c :: CallAt(t, c)
    ensures AllGot(t.returned) == t.taken && forall k :: GotAt(t, k)
  {
    var s := Fresh(tasks);
    forall k: nat ensures GotAt(s, k) {}
    forall j: nat ensures WriterAt(s, j) {}
    forall k: nat ensures PieceAt(s, k) {}
    forall c: nat ensures CallAt(s, c) {}
    forall j: nat, k: nat ensures ApartAt(s, j, k) {}
    RunKeeps(s, steps, t);
  }

  /** The pipe and the state of a run agree. */
  ghost predicate Mirrors(f: Fifo, s: State)
    reads f, f.base
  {
    f.Valid() && f.Contents() == s.content && f.readers == s.readers && f.writers == s.writers
  }

  /** A reader's look is a step of the run. */
  method LookToRead(f: Fifo, ghost s: State, i: nat, count: int, nonblock: bool, signal: bool)
      returns (t: Turn, out: seq<Byte>)
    requires Mirrors(f, s) && Inv(s) && i < |s.tasks| && s.tasks[i] == Reading(count, nonblock)
    modifies f
    ensures var now := Apply(s, Look(i, signal));
            && Mirrors(f, now) && now.taken == s.taken + out
            && if t.Again? then now.returned == s.returned && now.tasks == s.tasks && out == []
               else now.returned == s.returned + [Got(out, t.result)] && now.tasks == s.tasks[i := Idle]
  {
    t, out := f.ReadTurn(count, nonblock, signal);
  }

  /** So is a writer's. */
  method LookToWrite(f: Fifo, ghost s: State, i: nat, data: seq<Byte>, written: nat, room: nat, nonblock: bool,
                     signal: bool)
      returns (t: Turn, n: nat)
    requires Mirrors(f, s) && Inv(s) && i < |s.tasks| && s.tasks[i].Writing? && WriterAt(s, i)
    requires s.tasks[i] == Writing(s.tasks[i].call, written, room, nonblock) && s.calls[s.tasks[i].call] == data
    modifies f, f.base
    ensures var now := Apply(s, Look(i, signal)); var c := s.tasks[i].call;
            && Mirrors(f, now) && now.accepted == s.accepted[c := written + n] && now.ends == s.ends[c := t]
            && (t.Again? <==> now.tasks[i].Writing?)
  {
    t, n := f.WriteTurn(data, written, room, nonblock, signal);
  }

  lemma {:induction false} OfLong(log: seq<Piece>, c: nat, k: nat)
    requires k < |log| && log[k].call == c
    ensures |Of(log, c)| == |log[k].bytes| + |Of(log[..k], c)| + |Of(log[k + 1..], c)|
    decreases k
  {
    if k == 0 {
      assert log[..0] == [] && log[1..] == log[0 + 1..];
    } else {
      OfLong(log[1..], c, k - 1);
      assert log[1..][..k - 1] == log[..k][1..] && log[1..][k..] == log[k + 1..];
    }
  }

  lemma {:induction false} OfSome(log: seq<Piece>, c: nat, j: nat)
    requires j < |log| && log[j].call == c && log[j].bytes != []
    ensures Of(log, c) != []
  {
    OfLong(log, c, j);
  }

  lemma {:induction false} SomePiece(log: seq<Piece>, c: nat) returns (k: nat)
    requires Of(log, c) != []
    ensures k < |log| && log[k].call == c
  {
    if log[0].call == c { return 0; }
    k := SomePiece(log[1..], c);
    k := k + 1;
  }

  /** A write of at most PIPE_BUF bytes that was accepted in full went in as one piece of the stream, no other
    * bytes of the call being anywhere else in it. */
  lemma WholeWrite(t: State, c: nat) returns (k: nat)
    requires Inv(t) && c < |t.calls| && 0 < |t.calls[c]| <= PIPE_BUF && c < |t.accepted|
        && t.accepted[c] == |t.calls[c]|
    ensures k < |t.log| && t.log[k] == Piece(c, t.calls[c])
    ensures Flat(t.log) == Flat(t.log[..k]) + t.calls[c] + Flat(t.log[k + 1..])
    ensures forall j :: 0 <= j < |t.log| && j != k ==> t.log[j].call != c
  {
    assert WriterAt(t, 0) && CallAt(t, c);
    k := SomePiece(t.log, c);
    assert PieceAt(t, k);
    OfLong(t.log, c, k);
    var before, after := t.log[..k], t.log[k + 1..];
    FlatJoin(before, t.log[k..]);
    assert t.log == before + t.log[k..] && t.log[k..][1..] == after;
    forall j | 0 <= j < |t.log| && j != k ensures t.log[j].call != c {
      assert PieceAt(t, j);
      if t.log[j].call == c {
        if j < k { OfSome(before, c, j); } else { assert after[j - k - 1] == t.log[j]; OfSome(after, c, j - k - 1); }
      }
    }
  }
}
