/** splice: two copiers, an idle watcher and a close-once, interleaved arbitrarily. */
module Splice {
  import opened Text

  const BUFFER_SIZE: nat := 32 * 1024

  // ----- one copier on its own -----

  datatype ReadEnd = More | Eof | ReadFailed

  /** A connection as its reader sees it: a byte stream handed out in pieces of the
      environment's choosing, any of which may come with the end or an error.  A reader asked
      for bytes returns some or says why not. */
  class Source {
    const stream: Bytes
    const pieces: nat -> (nat, ReadEnd)
    var pos: nat
    var turn: nat

    ghost predicate Valid()
      reads this
    {
      pos <= |stream|
    }

    constructor (stream: Bytes, pieces: nat -> (nat, ReadEnd))
      ensures Valid() && pos == 0 && this.stream == stream
    {
      this.stream, this.pieces, pos, turn := stream, pieces, 0, 0;
    }

    method Read(max: nat) returns (buf: Bytes, end: ReadEnd)
      requires Valid() && max > 0
      modifies this
      ensures Valid() && old(pos) <= pos <= old(pos) + max
      ensures buf == stream[old(pos)..pos]
      ensures buf == [] ==> end != More
    {
      var (want, stop) := pieces(turn);
      turn := turn + 1;
      var left := |stream| - pos;
      var n := if want <= max && want <= left then want else if left <= max then left else max;
      buf := stream[pos..pos + n];
      pos := pos + n;
      end := if n == 0 && stop == More then Eof else stop;
    }
  }

  lemma SliceOfFirst(a: Bytes, b: Bytes, i: nat, j: nat)
    requires i <= j <= |a|
    ensures (a + b)[i..j] == a[i..j]
  {
  }

  lemma SliceOfSecond(a: Bytes, b: Bytes, i: nat, j: nat)
    requires |a| <= i <= j <= |a| + |b|
    ensures (a + b)[i..j] == b[i - |a|..j - |a|]
  {
  }

  lemma SliceExtends(before: Bytes, stream: Bytes, i: nat, j: nat, k: nat)
    requires i <= j <= k <= |stream|
    ensures before + stream[i..j] + stream[j..k] == before + stream[i..k]
  {
    assert stream[i..j] + stream[j..k] == stream[i..k];
  }

  /** readerConn over a MultiReader of the bytes buffered behind the CONNECT header, held back
      by a LimitReader, and the connection itself; just the connection if nothing is buffered. */
  class ReaderConn {
    const buffered: Bytes
    const conn: Source
    var limit: nat
    var readers: nat
    ghost var taken: nat

    ghost predicate Valid()
      reads this, conn
    {
      taken == |buffered| - limit + conn.pos <= |Stream()| &&
      conn.Valid() && limit <= |buffered| && readers <= 2 && (limit > 0 ==> readers == 2 && conn.pos == 0)
    }

    /** Everything there is to read, the buffer first. */
    ghost function Stream(): Bytes {
      buffered + conn.stream
    }

    constructor (buffered: Bytes, conn: Source)
      requires conn.Valid() && conn.pos == 0
      ensures Valid() && taken == 0 && this.buffered == buffered && this.conn == conn
    {
      this.buffered, this.conn := buffered, conn;
      limit, readers, taken := |buffered|, if |buffered| > 0 then 2 else 1, 0;
    }

    method Read(max: nat) returns (buf: Bytes, end: ReadEnd)
      requires Valid() && max > 0
      modifies this, conn
      ensures Valid() && taken == old(taken) + |buf| && |buf| <= max
      ensures buf == Stream()[old(taken)..taken]
      ensures buf == [] ==> end != More
      ensures old(limit) > 0 ==> buf != [] && end == More && conn.pos == old(conn.pos)
    {
      if readers == 2 {
        if limit > 0 {
          var start, n := |buffered| - limit, if max <= limit then max else limit;
          limit, taken := limit - n, taken + n;
          SliceOfFirst(buffered, conn.stream, start, start + n);
          return buffered[start..start + n], More;
        }
        readers := 1;
      }
      if readers == 0 {
        return [], Eof;
      }
      buf, end := conn.Read(max);
      if end == Eof {
        readers := 0;
      }
      taken := taken + |buf|;
      SliceOfSecond(buffered, conn.stream, old(taken), taken);
    }
  }

  /** Where a copier writes: a short write always comes with an error. */
  class Sink {
    var received: Bytes
    const accepts: nat -> nat
    var writes: nat

    constructor (accepts: nat -> nat)
      ensures received == []
    {
      received, writes, this.accepts := [], 0, accepts;
    }

    method Write(b: Bytes) returns (written: nat, failed: bool)
      modifies this
      ensures written <= |b| && received == old(received) + b[..written]
      ensures !failed ==> written == |b|
    {
      var room := accepts(writes);
      writes := writes + 1;
      written := if room < |b| then room else |b|;
      failed := written < |b|;
      received := received + b[..written];
    }
  }

  datatype CopyEnd = SourceEnded | SourceFailed | SinkFailed

  /** The loop body: one read, and one write of what it gave. */
  method CopyPiece(dst: Sink, src: ReaderConn) returns (written: nat, failed: bool, stop: ReadEnd)
    requires src.Valid()
    modifies dst, src, src.conn
    ensures src.Valid() && old(src.taken) + written <= src.taken
    ensures dst.received == old(dst.received) + src.Stream()[old(src.taken)..old(src.taken) + written]
    ensures !failed ==> old(src.taken) + written == src.taken
    ensures !failed && stop == More ==> written > 0
  {
    var buf, end := src.Read(BUFFER_SIZE);
    written, failed, stop := 0, false, end;
    if |buf| > 0 {
      written, failed := dst.Write(buf);
      assert buf[..written] == src.Stream()[old(src.taken)..old(src.taken) + written];
    }
  }

  /** copyWithActivity: the count returned is what arrived, what arrived is a prefix of what
      was read, and unless a write failed it is all of it. */
  method CopyWithActivity(dst: Sink, src: ReaderConn) returns (total: nat, end: CopyEnd)
    requires src.Valid()
    modifies dst, src, src.conn
    ensures src.Valid() && old(src.taken) + total <= src.taken <= |src.Stream()|
    ensures dst.received == old(dst.received) + src.Stream()[old(src.taken)..old(src.taken) + total]
    ensures end != SinkFailed ==> old(src.taken) + total == src.taken
  {
    total := 0;
    var failed, stop := false, More;
    ghost var before, start, stream := dst.received, src.taken, src.Stream();
    while !failed && stop == More
      invariant src.Valid() && start + total <= src.taken && (!failed ==> start + total == src.taken)
      invariant dst.received == before + stream[start..start + total]
      decreases |stream| - src.taken, if !failed && stop == More then 1 else 0
    {
      var written;
      ghost var at := src.taken;
      written, failed, stop := CopyPiece(dst, src);
      SliceExtends(before, stream, start, at, at + written);
      total := total + written;
    }
    end := if failed then SinkFailed else if stop == Eof then SourceEnded else SourceFailed;
  }

  // ----- the interleaved system -----

  datatype Dir = Up | Down

  /** Where a copier goroutine stands: before a read, before touch, before a write, after the
      loop, at closeBoth, gone; last is whether the read said it was the last. */
  datatype Phase = Reading | Touching(last: bool) | Writing(last: bool) | Counting | Closing | Exited

  /** One direction: what was buffered before the splice began, what the source's peer has
      sent since, whether the source has ended or failed, how much the sink's peer has room
      for, and whether the sink's connection is broken; how far the copier has read in the
      buffer and on the connection, what it holds between a read and a write, what the sink
      got, how many bytes a failed write lost; counted is the atomic counter read at the end. */
  datatype Copier = Copier(
    buffered: Bytes, arrived: Bytes, ended: bool, room: nat, broken: bool,
    fromBuffer: nat, fromConn: nat, held: Bytes, got: Bytes, total: nat, lost: nat,
    writeFailed: bool, counted: nat, phase: Phase)

  datatype Actor = Copying(dir: Dir) | Watching | Main

  /** sync.Once around close(done); client.Close(); server.Close(). */
  datatype Once = Unused | ClosingDone | ClosingClient | ClosingServer | Over

  datatype Watcher = Armed | Firing | Gone

  /** The capacity of the activity channel. */
  const ACTIVITY: nat := 2

  /** The clock, the idle timeout and when it runs out, how many tokens are in the activity
      channel, and when bytes were last read. */
  datatype Timer = Timer(now: nat, idle: nat, deadline: nat, tokens: nat, active: nat)

  datatype MainPhase = Waiting | Finishing | Returned(up: nat, down: nat)

  datatype State = State(
    up: Copier, down: Copier, once: Once, doneCloses: nat,
    clientClosed: bool, serverClosed: bool, watcher: Watcher, main: MainPhase, timer: Timer)

  function Side(s: State, dir: Dir): Copier {
    if dir == Up then s.up else s.down
  }

  function PutSide(s: State, dir: Dir, c: Copier): State {
    if dir == Up then s.(up := c) else s.(down := c)
  }

  datatype Step =
    | Send(dir: Dir, bytes: Bytes)
    | EndSource(dir: Dir)
    | Accept(dir: Dir, n: nat)
    | BreakSink(dir: Dir)
    | Tick(now: nat)
    | Read(dir: Dir, n: nat, last: bool)
    | Touch(dir: Dir)
    | Write(dir: Dir, n: nat, failed: bool)
    | Count(dir: Dir)
    | EnterOnce(actor: Actor)
    | RunOnce
    | LeaveOnce(actor: Actor)
    | WatcherResets
    | WatcherFires
    | WatcherSeesDone
    | MainWakes

  predicate SourceClosed(s: State, dir: Dir) {
    if dir == Up then s.clientClosed else s.serverClosed
  }

  predicate SinkClosed(s: State, dir: Dir) {
    if dir == Up then s.serverClosed else s.clientClosed
  }

  predicate ReadableSide(c: Copier) {
    c.fromBuffer <= |c.buffered| && c.fromConn <= |c.arrived|
  }

  /** How much one read can hand over: from the buffer while it lasts, then from the connection. */
  function Available(c: Copier): nat
    requires ReadableSide(c)
  {
    if c.fromBuffer < |c.buffered| then |c.buffered| - c.fromBuffer else |c.arrived| - c.fromConn
  }

  function Piece(c: Copier, n: nat): Bytes
    requires ReadableSide(c) && n <= Available(c)
  {
    if c.fromBuffer < |c.buffered| then c.buffered[c.fromBuffer..c.fromBuffer + n]
    else c.arrived[c.fromConn..c.fromConn + n]
  }

  /** What a read may return: buffered bytes as long as there are some; then bytes that have
      arrived, or the end, but neither before the source has one; only the end once closed. */
  predicate MayRead(s: State, dir: Dir, c: Copier, n: nat, last: bool) {
    && c.phase == Reading && ReadableSide(c)
    && n <= BUFFER_SIZE && n <= Available(c)
    && (n > 0 || last)
    && if c.fromBuffer < |c.buffered| then !last
       else (n > 0 ==> !SourceClosed(s, dir)) && (last ==> c.ended || SourceClosed(s, dir))
  }

  function AfterRead(c: Copier, n: nat, last: bool): Copier
    requires ReadableSide(c) && n <= Available(c)
  {
    if n == 0 then c.(phase := Counting)
    else
      var held := Piece(c, n);
      if c.fromBuffer < |c.buffered| then c.(fromBuffer := c.fromBuffer + n, held := held, phase := Touching(last))
      else c.(fromConn := c.fromConn + n, held := held, phase := Touching(last))
  }

  /** A write ends when the peer has had room for it, or fails, wholly or in part, when the
      connection is broken or closed; writing to a closed connection always fails. */
  predicate MayWrite(s: State, dir: Dir, c: Copier, n: nat, failed: bool) {
    && c.phase.Writing? && n <= |c.held| && n <= c.room
    && if failed then c.broken || SinkClosed(s, dir) else n == |c.held| && !SinkClosed(s, dir)
  }

  function AfterWrite(c: Copier, n: nat, failed: bool): Copier
    requires c.phase.Writing? && n <= |c.held| && n <= c.room
  {
    c.(held := [], got := c.got + c.held[..n], total := c.total + n, lost := c.lost + |c.held| - n, room := c.room - n,
       writeFailed := c.writeFailed || failed, phase := if failed || c.phase.last then Counting else Reading)
  }

  /** Whether an actor is at its call of closeBoth. */
  predicate AtClose(s: State, actor: Actor) {
    match actor
    case Copying(dir) => Side(s, dir).phase == Closing
    case Watching => s.watcher == Firing
    case Main => s.main == Finishing
  }

  /** Returning from closeBoth, once it has run to its end. */
  function Left(s: State, actor: Actor): State
    requires AtClose(s, actor)
  {
    match actor
    case Copying(dir) => PutSide(s, dir, Side(s, dir).(phase := Exited))
    case Watching => s.(watcher := Gone)
    case Main => s.(main := Returned(s.up.counted, s.down.counted))
  }

  function OnceStep(s: State): Option<State> {
    match s.once
    case ClosingDone => Some(s.(once := ClosingClient, doneCloses := s.doneCloses + 1))
    case ClosingClient => Some(s.(once := ClosingServer, clientClosed := true))
    case ClosingServer => Some(s.(once := Over, serverClosed := true))
    case Unused => None
    case Over => None
  }

  /** The steps that are the two peers' doing. */
  predicate PeerStep(step: Step) {
    step.Send? || step.EndSource? || step.Accept? || step.BreakSink?
  }

  /** The steps the splice has no part in: the peers' and the clock's. */
  predicate Outside(step: Step) {
    PeerStep(step) || step.Tick?
  }

  predicate CopierStep(step: Step) {
    PeerStep(step) || step.Read? || step.Touch? || step.Write? || step.Count?
  }

  function NextCopier(s: State, step: Step): Option<Copier>
    requires CopierStep(step)
  {
    var c := Side(s, step.dir);
    match step
    case Send(_, bytes) => if c.ended then None else Some(c.(arrived := c.arrived + bytes))
    case EndSource(_) => Some(c.(ended := true))
    case Accept(_, n) => Some(c.(room := c.room + n))
    case BreakSink(_) => Some(c.(broken := true))
    case Read(dir, n, last) => if MayRead(s, dir, c, n, last) then Some(AfterRead(c, n, last)) else None
    case Touch(_) => if c.phase.Touching? then Some(c.(phase := Writing(c.phase.last))) else None
    case Write(dir, n, failed) => if MayWrite(s, dir, c, n, failed) then Some(AfterWrite(c, n, failed)) else None
    case Count(_) => if c.phase == Counting then Some(c.(counted := c.counted + c.total, phase := Closing)) else None
  }

  /** A read of bytes is activity; touch puts a token in the channel unless it is full. */
  function Noted(t: Timer, step: Step): Timer {
    match step
    case Read(_, n, _) => if n > 0 then t.(active := t.now) else t
    case Touch(_) => t.(tokens := if t.tokens < ACTIVITY then t.tokens + 1 else t.tokens)
    case _ => t
  }

  function Apply(s: State, step: Step): Option<State> {
    if CopierStep(step) then
      match NextCopier(s, step)
      case None => None
      case Some(c) => Some(PutSide(s, step.dir, c).(timer := Noted(s.timer, step)))
    else ControlStep(s, step)
  }

  function ControlStep(s: State, step: Step): Option<State>
    requires !CopierStep(step)
  {
    match step
    case Tick(now) => if s.timer.now <= now then Some(s.(timer := s.timer.(now := now))) else None
    case EnterOnce(actor) => if AtClose(s, actor) && s.once == Unused then Some(s.(once := ClosingDone)) else None
    case RunOnce => OnceStep(s)
    case LeaveOnce(actor) => if AtClose(s, actor) && s.once == Over then Some(Left(s, actor)) else None
    case WatcherResets =>
      if s.watcher == Armed && s.timer.tokens > 0
      then Some(s.(timer := s.timer.(tokens := s.timer.tokens - 1, deadline := s.timer.now + s.timer.idle))) else None
    case WatcherFires =>
      if s.watcher == Armed && s.timer.deadline <= s.timer.now then Some(s.(watcher := Firing)) else None
    case WatcherSeesDone => if s.watcher == Armed && s.doneCloses > 0 then Some(s.(watcher := Gone)) else None
    case MainWakes =>
      if s.main == Waiting && s.up.phase == Exited && s.down.phase == Exited
      then Some(s.(main := Finishing)) else None
  }

  function Start(buffered: Bytes): Copier {
    Copier(buffered, [], false, 0, false, 0, 0, [], [], 0, 0, false, 0, Reading)
  }

  /** The tunnel opens with some bytes of the client still in the CONNECT reader's buffer; the
      watcher is there only when an idle timeout is set, and starts the timer. */
  predicate Initial(s: State, buffered: Bytes) {
    && s.up == Start(buffered) && s.down == Start([])
    && s.once == Unused && s.doneCloses == 0 && !s.clientClosed && !s.serverClosed
    && s.watcher == (if s.timer.idle > 0 then Armed else Gone) && s.main == Waiting
    && s.timer.deadline == s.timer.now + s.timer.idle && s.timer.tokens == 0 && s.timer.active == s.timer.now
  }

  ghost predicate IsRun(buffered: Bytes, steps: seq<Step>, states: seq<State>) {
    && |states| == |steps| + 1
    && Initial(states[0], buffered)
    && forall k :: 0 <= k < |steps| ==> Apply(states[k], steps[k]) == Some(states[k + 1])
  }

  // ----- conservation -----

  /** Everything there has been to read, and how much of it was. */
  function Stream(c: Copier): Bytes {
    c.buffered + c.arrived
  }

  function Taken(c: Copier): Bytes
    requires ReadableSide(c)
  {
    Stream(c)[..c.fromBuffer + c.fromConn]
  }

  /** The buffer is read first. */
  predicate BufferFirst(c: Copier) {
    ReadableSide(c) && (c.fromConn > 0 ==> c.fromBuffer == |c.buffered|)
  }

  /** Between a read and its write. */
  predicate Holding(p: Phase) {
    p.Touching? || p.Writing?
  }

  /** Every byte read is delivered, held, or lost to a failed write; delivered bytes are the
      first ones, in order; nothing is read off the connection before the buffer is empty. */
  ghost predicate CopierInv(c: Copier) {
    && BufferFirst(c)
    && c.got <= Taken(c)
    && c.total == |c.got|
    && |Taken(c)| == |c.got| + |c.held| + c.lost
    && (!c.writeFailed ==> c.lost == 0)
    && (!c.writeFailed || c.phase == Reading || Holding(c.phase) ==> c.got + c.held == Taken(c))
    && (!Holding(c.phase) ==> c.held == [])
    && c.counted == if c.phase == Closing || c.phase == Exited then c.total else 0
  }

  ghost predicate OnceInv(s: State) {
    && s.doneCloses == (if s.once == Unused || s.once == ClosingDone then 0 else 1)
    && (s.clientClosed <==> s.once == ClosingServer || s.once == Over)
    && (s.serverClosed <==> s.once == Over)
    && (s.up.phase == Exited || s.down.phase == Exited ==> s.once == Over)
  }

  ghost predicate Inv(s: State) {
    && CopierInv(s.up) && CopierInv(s.down)
    && OnceInv(s)
    && (s.main != Waiting ==> s.up.phase == Exited && s.down.phase == Exited)
    && (s.main.Returned? ==> s.once == Over && s.main == Returned(s.up.counted, s.down.counted))
  }

  /** What a step reads is what ReaderConn.Read is proved to return: the next slice of the
      buffer followed by the connection. */
  lemma PieceIsSlice(c: Copier, n: nat)
    requires BufferFirst(c) && n <= Available(c)
    ensures c.fromBuffer + c.fromConn + n <= |Stream(c)|
    ensures Piece(c, n) == Stream(c)[c.fromBuffer + c.fromConn..c.fromBuffer + c.fromConn + n]
  {
    var k := c.fromBuffer + c.fromConn;
    if c.fromBuffer < |c.buffered| {
      SliceOfFirst(c.buffered, c.arrived, k, k + n);
    } else {
      SliceOfSecond(c.buffered, c.arrived, k, k + n);
    }
  }

  lemma PieceContinues(c: Copier, n: nat, last: bool)
    requires BufferFirst(c) && 0 < n <= Available(c)
    ensures var c' := AfterRead(c, n, last);
            BufferFirst(c') && Taken(c') == Taken(c) + c'.held && |c'.held| == n
  {
    PieceIsSlice(c, n);
    var stream, k := Stream(c), c.fromBuffer + c.fromConn;
    assert stream[..k + n] == stream[..k] + stream[k..k + n];
  }

  lemma ReadKeeps(c: Copier, n: nat, last: bool)
    requires CopierInv(c) && c.phase == Reading
    requires n <= Available(c)
    ensures CopierInv(AfterRead(c, n, last))
  {
    if n > 0 {
      PieceContinues(c, n, last);
      assert c.got + c.held == c.got;
    }
  }

  lemma WriteKeeps(c: Copier, n: nat, failed: bool)
    requires CopierInv(c) && c.phase.Writing? && n <= |c.held| && n <= c.room && (!failed ==> n == |c.held|)
    ensures CopierInv(AfterWrite(c, n, failed))
  {
    var c' := AfterWrite(c, n, failed);
    assert c.held == c.held[..n] + c.held[n..];
    assert c.got + c.held == c'.got + c.held[n..];
    assert !failed ==> c'.got + [] == c.got + c.held;
  }

  lemma SendKeeps(c: Copier, bytes: Bytes)
    requires CopierInv(c)
    ensures CopierInv(c.(arrived := c.arrived + bytes))
  {
    var c' := c.(arrived := c.arrived + bytes);
    assert Stream(c') == Stream(c) + bytes;
    assert Taken(c') == Taken(c);
  }

  /** What a step leaves alone: the buffer, and whether the copier is gone. */
  ghost predicate SameCopier(c: Copier, c': Copier) {
    && c'.buffered == c.buffered
    && if c'.phase == Exited then c.phase == Exited && c'.counted == c.counted else c.phase != Exited
  }

  lemma NextCopierKeeps(s: State, step: Step)
    requires CopierStep(step) && NextCopier(s, step).Some? && CopierInv(Side(s, step.dir))
    ensures CopierInv(NextCopier(s, step).value) && SameCopier(Side(s, step.dir), NextCopier(s, step).value)
  {
    var c := Side(s, step.dir);
    if PeerStep(step) {
      PeerStepKeeps(s, step, c);
    } else if step.Read? {
      ReadStepKeeps(s, step, c);
    } else if step.Write? {
      WriteStepKeeps(s, step, c);
    } else {
      OwnStepKeeps(s, step, c);
    }
  }

  lemma ReadStepKeeps(s: State, step: Step, c: Copier)
    requires step.Read? && NextCopier(s, step).Some? && c == Side(s, step.dir) && CopierInv(c)
    ensures CopierInv(NextCopier(s, step).value) && SameCopier(c, NextCopier(s, step).value)
  {
    ReadKeeps(c, step.n, step.last);
  }

  lemma OwnStepKeeps(s: State, step: Step, c: Copier)
    requires step.Touch? || step.Count?
    requires NextCopier(s, step).Some? && c == Side(s, step.dir) && CopierInv(c)
    ensures CopierInv(NextCopier(s, step).value) && SameCopier(c, NextCopier(s, step).value)
  {
    if step.Touch? {
      TouchKeeps(c);
    } else {
      CountKeeps(c);
    }
  }

  lemma WriteStepKeeps(s: State, step: Step, c: Copier)
    requires step.Write? && NextCopier(s, step).Some? && c == Side(s, step.dir) && CopierInv(c)
    ensures CopierInv(NextCopier(s, step).value) && SameCopier(c, NextCopier(s, step).value)
  {
    WriteKeeps(c, step.n, step.failed);
  }

  lemma PeerStepKeeps(s: State, step: Step, c: Copier)
    requires PeerStep(step) && NextCopier(s, step).Some? && c == Side(s, step.dir) && CopierInv(c)
    ensures CopierInv(NextCopier(s, step).value) && SameCopier(c, NextCopier(s, step).value)
  {
    match step {
      case Send(_, bytes) => SendKeeps(c, bytes);
      case EndSource(_) => PeerKeeps(c, true, c.room, c.broken);
      case Accept(_, n) => PeerKeeps(c, c.ended, c.room + n, c.broken);
      case BreakSink(_) => PeerKeeps(c, c.ended, c.room, true);
    }
  }

  lemma PeerKeeps(c: Copier, ended: bool, room: nat, broken: bool)
    requires CopierInv(c)
    ensures CopierInv(c.(ended := ended, room := room, broken := broken))
  {
    assert Taken(c.(ended := ended, room := room, broken := broken)) == Taken(c);
  }

  lemma TouchKeeps(c: Copier)
    requires CopierInv(c) && c.phase.Touching?
    ensures CopierInv(c.(phase := Writing(c.phase.last)))
  {
    assert Taken(c.(phase := Writing(c.phase.last))) == Taken(c);
  }

  lemma CountKeeps(c: Copier)
    requires CopierInv(c) && c.phase == Counting
    ensures CopierInv(c.(counted := c.counted + c.total, phase := Closing))
  {
    assert Taken(c.(counted := c.counted + c.total, phase := Closing)) == Taken(c);
  }

  lemma StepKeepsInv(s: State, step: Step, s': State)
    requires Inv(s) && Apply(s, step) == Some(s')
    ensures Inv(s')
    ensures s'.up.buffered == s.up.buffered && s'.down.buffered == s.down.buffered
  {
    if CopierStep(step) {
      NextCopierKeeps(s, step);
      SideKeepsInv(s, step.dir, NextCopier(s, step).value, Noted(s.timer, step));
    } else {
      ControlKeepsInv(s, step, s');
    }
  }

  lemma SideKeepsInv(s: State, dir: Dir, c: Copier, t: Timer)
    requires Inv(s) && CopierInv(c) && SameCopier(Side(s, dir), c)
    ensures var s' := PutSide(s, dir, c).(timer := t);
            Inv(s') && s'.up.buffered == s.up.buffered && s'.down.buffered == s.down.buffered
  {
  }

  lemma ControlKeepsInv(s: State, step: Step, s': State)
    requires Inv(s) && !CopierStep(step) && ControlStep(s, step) == Some(s')
    ensures Inv(s')
    ensures s'.up.buffered == s.up.buffered && s'.down.buffered == s.down.buffered
  {
    if step.LeaveOnce? {
      LeavingKeepsInv(s, step.actor);
    }
  }

  lemma LeavingKeepsInv(s: State, actor: Actor)
    requires Inv(s) && AtClose(s, actor) && s.once == Over
    ensures var s' := Left(s, actor);
            Inv(s') && s'.up.buffered == s.up.buffered && s'.down.buffered == s.down.buffered
  {
    if actor.Copying? {
      ExitKeeps(Side(s, actor.dir));
    }
  }

  lemma ExitKeeps(c: Copier)
    requires CopierInv(c) && c.phase == Closing
    ensures CopierInv(c.(phase := Exited))
  {
  }

  lemma {:induction false} InvHolds(buffered: Bytes, steps: seq<Step>, states: seq<State>, n: nat)
    requires IsRun(buffered, steps, states) && n < |states|
    ensures Inv(states[n]) && states[n].up.buffered == buffered && states[n].down.buffered == []
  {
    if n > 0 {
      InvHolds(buffered, steps, states, n - 1);
      StepKeepsInv(states[n - 1], steps[n - 1], states[n]);
    }
  }

  /** What has reached the upstream, at every moment of every run, is a beginning of the bytes
      buffered behind the CONNECT header, or all of them followed by a beginning of what the
      client sent after them. */
  lemma BufferedComesFirst(buffered: Bytes, steps: seq<Step>, states: seq<State>, n: nat)
    requires IsRun(buffered, steps, states) && n < |states|
    ensures var got := states[n].up.got;
            if |got| <= |buffered| then got <= buffered
            else got[..|buffered|] == buffered && got[|buffered|..] <= states[n].up.arrived
  {
    InvHolds(buffered, steps, states, n);
    var c := states[n].up;
    assert CopierInv(c);
    var n := |c.got|;
    assert c.got == Taken(c)[..n] == Stream(c)[..n];
    if n <= |buffered| {
      SliceOfFirst(buffered, c.arrived, 0, n);
    } else {
      SliceOfFirst(buffered, c.arrived, 0, |buffered|);
      SliceOfSecond(buffered, c.arrived, |buffered|, n);
      assert c.got[|buffered|..] == Stream(c)[|buffered|..n] == c.arrived[0..n - |buffered|];
    }
  }

  /** In every interleaving, at every moment: what each side received is a prefix of what the
      other sent, and nothing read is missing unless a write failed; done is closed at most
      once. */
  lemma SpliceConserves(buffered: Bytes, steps: seq<Step>, states: seq<State>, n: nat, dir: Dir)
    requires IsRun(buffered, steps, states) && n < |states|
    ensures var c := Side(states[n], dir);
            && c.got <= Stream(c) && c.buffered == (if dir == Up then buffered else [])
            && ReadableSide(c) && (!c.writeFailed ==> c.got + c.held == Taken(c))
    ensures states[n].doneCloses <= 1
  {
    InvHolds(buffered, steps, states, n);
    var c := Side(states[n], dir);
    assert CopierInv(c);
  }

  /** When splice returns: the counts are the delivered lengths, both connections are closed,
      done was closed exactly once, and both copiers are gone. */
  lemma SpliceReturns(buffered: Bytes, steps: seq<Step>, states: seq<State>, n: nat)
    requires IsRun(buffered, steps, states) && n < |states|
    requires states[n].main.Returned?
    ensures var s := states[n];
            && s.main == Returned(|s.up.got|, |s.down.got|)
            && s.clientClosed && s.serverClosed && s.doneCloses == 1
            && s.up.phase == Exited && s.down.phase == Exited
  {
    InvHolds(buffered, steps, states, n);
    var s := states[n];
    assert CopierInv(s.up) && CopierInv(s.down);
  }

  // ----- who waits for whom -----

  /** The copier is blocked on a peer: reading where nothing has arrived and nothing has ended,
      or writing more than there is room for. */
  predicate Waits(s: State, dir: Dir) {
    var c := Side(s, dir);
    || (c.phase == Reading && c.fromBuffer >= |c.buffered| && c.fromConn >= |c.arrived| &&
        !c.ended && !SourceClosed(s, dir))
    || (c.phase.Writing? && c.room < |c.held| && !c.broken && !SinkClosed(s, dir))
  }

  /** The watcher, if there is one, has no activity to take note of and time left. */
  predicate WatcherWaits(s: State) {
    s.watcher == Gone || (s.watcher == Armed && s.timer.tokens == 0 && s.timer.now < s.timer.deadline)
  }

  /** Only the peers and the clock can make anything happen. */
  ghost predicate Blocked(s: State) {
    forall step :: Apply(s, step).Some? ==> Outside(step)
  }

  /** Splice has returned and its watcher goroutine is gone too. */
  predicate Finished(s: State) {
    s.main.Returned? && s.watcher == Gone
  }

  /** A copier that is not waiting and not gone has a step to take, unless it is at closeBoth. */
  lemma CopierMoves(s: State, dir: Dir) returns (step: Step)
    requires Inv(s) && !Waits(s, dir)
    requires var phase := Side(s, dir).phase; phase == Reading || Holding(phase) || phase == Counting
    ensures !Outside(step) && Apply(s, step).Some?
  {
    var c := Side(s, dir);
    assert CopierInv(c);
    if c.phase == Reading {
      step := if c.fromBuffer < |c.buffered| || (c.fromConn < |c.arrived| && !SourceClosed(s, dir))
              then Read(dir, 1, false) else Read(dir, 0, true);
    } else if c.phase.Touching? {
      step := Touch(dir);
    } else if c.phase.Writing? {
      step := if c.broken || SinkClosed(s, dir) then Write(dir, 0, true) else Write(dir, |c.held|, false);
    } else {
      step := Count(dir);
    }
  }

  /** Once both connections are closed the splice can always go on to its end by itself,
      whatever the peers hold back: a closed source ends reads, a closed sink fails writes. */
  lemma ClosedNeverStuck(s: State) returns (step: Step)
    requires Inv(s) && s.clientClosed && s.serverClosed && !Finished(s)
    ensures !Outside(step) && Apply(s, step).Some?
  {
    if s.up.phase != Exited {
      step := NextOf(s, Up);
    } else if s.down.phase != Exited {
      step := NextOf(s, Down);
    } else if s.main == Waiting {
      step := MainWakes;
    } else if s.main == Finishing {
      step := LeaveOnce(Main);
    } else {
      step := if s.watcher == Armed then WatcherSeesDone else LeaveOnce(Watching);
    }
  }

  lemma NextOf(s: State, dir: Dir) returns (step: Step)
    requires Inv(s) && s.clientClosed && s.serverClosed && Side(s, dir).phase != Exited
    ensures !Outside(step) && Apply(s, step).Some?
  {
    if Side(s, dir).phase == Closing {
      step := LeaveOnce(Copying(dir));
    } else {
      step := CopierMoves(s, dir);
    }
  }

  /** Closing has not begun, and both copiers and the watcher wait. */
  predicate AllWait(s: State) {
    s.once == Unused && WatcherWaits(s) && Waits(s, Up) && Waits(s, Down)
  }

  /** Exactly when a splice is blocked: it is finished, or closing has not begun, both copiers
      wait on their peers, and the idle timeout is not set or has not run out. */
  lemma BlockedExactly(s: State)
    requires Inv(s)
    ensures Blocked(s) <==> Finished(s) || AllWait(s)
  {
    if !Finished(s) && !AllWait(s) {
      var step := SomethingMoves(s);
      assert Apply(s, step).Some? && !Outside(step);
    } else {
      forall step | !Outside(step) ensures Apply(s, step).None? {
        NothingMoves(s, step);
      }
    }
  }

  lemma SomethingMoves(s: State) returns (step: Step)
    requires Inv(s) && !Finished(s) && !AllWait(s)
    ensures !Outside(step) && Apply(s, step).Some?
  {
    if s.once == Over {
      step := ClosedNeverStuck(s);
    } else if s.once != Unused {
      step := RunOnce;
    } else if s.watcher == Firing {
      step := EnterOnce(Watching);
    } else if !WatcherWaits(s) {
      step := if s.timer.tokens > 0 then WatcherResets else WatcherFires;
    } else {
      var dir := if Waits(s, Up) then Down else Up;
      if Side(s, dir).phase == Closing {
        step := EnterOnce(Copying(dir));
      } else {
        step := CopierMoves(s, dir);
      }
    }
  }

  lemma NothingMoves(s: State, step: Step)
    requires Inv(s) && !Outside(step) && (Finished(s) || AllWait(s))
    ensures Apply(s, step).None?
  {
    assert CopierInv(s.up) && CopierInv(s.down);
  }

  /** Without an idle timeout it can be blocked for good, before anything is closed: the client
      has sent a byte the upstream leaves no room for, and the upstream sends nothing. */
  lemma BlockedBeforeClosing(b: byte) returns (steps: seq<Step>, states: seq<State>)
    ensures IsRun([], steps, states)
    ensures var s := states[|states| - 1];
            && s.up.phase.Writing? && s.down.phase == Reading && !s.clientClosed && !s.serverClosed
            && Blocked(s) && !Finished(s)
            && forall now :: Apply(s, Tick(now)).Some? ==> Blocked(Apply(s, Tick(now)).value)
  {
    var s0 := State(Start([]), Start([]), Unused, 0, false, false, Gone, Waiting, Timer(0, 0, 0, 0, 0));
    var s1 := Apply(s0, Send(Up, [b])).value;
    var s2 := Apply(s1, Read(Up, 1, false)).value;
    var s3 := Apply(s2, Touch(Up)).value;
    steps, states := [Send(Up, [b]), Read(Up, 1, false), Touch(Up)], [s0, s1, s2, s3];
    InvHolds([], steps, states, 3);
    BlockedForGood(s3);
  }

  lemma BlockedForGood(s: State)
    requires Inv(s) && AllWait(s) && s.watcher == Gone
    ensures Blocked(s) && forall now :: Apply(s, Tick(now)).Some? ==> Blocked(Apply(s, Tick(now)).value)
  {
    BlockedExactly(s);
    forall now | Apply(s, Tick(now)).Some? ensures Blocked(Apply(s, Tick(now)).value) {
      StepKeepsInv(s, Tick(now), Apply(s, Tick(now)).value);
      BlockedExactly(Apply(s, Tick(now)).value);
    }
  }

  // ----- the idle timeout -----

  /** Bytes have been read that the watcher has not taken note of yet. */
  predicate Signalled(s: State) {
    s.timer.tokens > 0 || s.up.phase.Touching? || s.down.phase.Touching?
  }

  /** The deadline is an idle period after something the watcher knows of; whatever was read
      since is signalled. */
  predicate TimerInv(s: State) {
    && s.timer.active <= s.timer.now && s.timer.deadline <= s.timer.now + s.timer.idle
    && (Signalled(s) || s.timer.active + s.timer.idle <= s.timer.deadline)
  }

  lemma StepKeepsTimer(s: State, step: Step, s': State)
    requires TimerInv(s) && Apply(s, step) == Some(s')
    ensures TimerInv(s') && s'.timer.idle == s.timer.idle
  {
    if CopierStep(step) {
      CopierKeepsTimer(s, step, s');
    }
  }

  lemma CopierKeepsTimer(s: State, step: Step, s': State)
    requires TimerInv(s) && CopierStep(step) && Apply(s, step) == Some(s')
    ensures TimerInv(s') && s'.timer.idle == s.timer.idle
    ensures Signalled(s') ==> Signalled(s) || s'.timer.active == s'.timer.now
  {
    var c, c' := Side(s, step.dir), NextCopier(s, step).value;
    assert step.Touch? ==> s'.timer.tokens > 0;
    assert !step.Touch? && c.phase.Touching? ==> c'.phase.Touching?;
  }

  /** A watcher armed at the start is there until closing begins; the timer's invariant holds. */
  lemma {:induction false} TimerHolds(buffered: Bytes, steps: seq<Step>, states: seq<State>, n: nat)
    requires IsRun(buffered, steps, states) && n < |states|
    ensures TimerInv(states[n]) && states[n].timer.idle == states[0].timer.idle
    ensures states[0].timer.idle > 0 && states[n].watcher == Gone ==> states[n].once != Unused
  {
    if n > 0 {
      TimerHolds(buffered, steps, states, n - 1);
      InvHolds(buffered, steps, states, n - 1);
      assert Apply(states[n - 1], steps[n - 1]) == Some(states[n]);
      StepKeepsTimer(states[n - 1], steps[n - 1], states[n]);
    }
  }

  /** A timeout closes an idle tunnel: in every run, if the timer runs out with no read waiting
      to be noted, then nothing has been read for the whole idle period. */
  lemma TimeoutMeansIdle(buffered: Bytes, steps: seq<Step>, states: seq<State>, n: nat)
    requires IsRun(buffered, steps, states) && n < |steps| && steps[n] == WatcherFires
    ensures !Signalled(states[n]) ==> states[n].timer.active + states[0].timer.idle <= states[n].timer.now
  {
    TimerHolds(buffered, steps, states, n);
    assert Apply(states[n], steps[n]) == Some(states[n + 1]);
  }

  /** Goroutines run as soon as they can: while the watcher is there, no time passes before a
      read is noted. */
  ghost predicate Prompt(steps: seq<Step>, states: seq<State>)
    requires |states| == |steps| + 1
  {
    forall k :: 0 <= k < |steps| ==>
      steps[k].Tick? && states[k].watcher == Armed && Signalled(states[k]) ==> steps[k].now == states[k].timer.now
  }

  lemma {:induction false} SignalIsNow(buffered: Bytes, steps: seq<Step>, states: seq<State>, n: nat)
    requires IsRun(buffered, steps, states) && n < |states| && Prompt(steps, states)
    ensures states[n].watcher == Armed && Signalled(states[n]) ==> states[n].timer.active == states[n].timer.now
  {
    if n > 0 {
      var s, step := states[n - 1], steps[n - 1];
      SignalIsNow(buffered, steps, states, n - 1);
      TimerHolds(buffered, steps, states, n - 1);
      assert Apply(s, step) == Some(states[n]);
      SignalStaysNow(s, step, states[n]);
    }
  }

  lemma SignalStaysNow(s: State, step: Step, s': State)
    requires TimerInv(s) && Apply(s, step) == Some(s')
    requires s.watcher == Armed && Signalled(s) ==> s.timer.active == s.timer.now
    requires step.Tick? && s.watcher == Armed && Signalled(s) ==> step.now == s.timer.now
    ensures s'.watcher == Armed && Signalled(s') ==> s'.timer.active == s'.timer.now
  {
    if CopierStep(step) {
      CopierKeepsTimer(s, step, s');
    }
  }

  /** With prompt goroutines that is exact: the timeout closes a tunnel idle for the period
      exactly when no read is waiting to be noted. */
  lemma PromptTimeoutIsExact(buffered: Bytes, steps: seq<Step>, states: seq<State>, n: nat)
    requires IsRun(buffered, steps, states) && n < |steps| && steps[n] == WatcherFires && Prompt(steps, states)
    ensures states[n].timer.active + states[0].timer.idle <= states[n].timer.now <==> !Signalled(states[n])
  {
    TimeoutMeansIdle(buffered, steps, states, n);
    TimerHolds(buffered, steps, states, n);
    SignalIsNow(buffered, steps, states, n);
    WatcherNeedsIdle(buffered, steps, states, n);
    assert Apply(states[n], steps[n]) == Some(states[n + 1]);
  }

  lemma {:induction false} WatcherNeedsIdle(buffered: Bytes, steps: seq<Step>, states: seq<State>, n: nat)
    requires IsRun(buffered, steps, states) && n < |states|
    ensures states[n].watcher == Armed ==> states[0].timer.idle > 0
  {
    if n > 0 {
      WatcherNeedsIdle(buffered, steps, states, n - 1);
      assert Apply(states[n - 1], steps[n - 1]) == Some(states[n]);
    }
  }

  /** And a read may lose that race: a tunnel that has just read a byte, its token already in
      the channel, is closed as idle when the timer runs out at that moment. */
  lemma ActiveTunnelMayTimeOut(b: byte, idle: nat) returns (steps: seq<Step>, states: seq<State>)
    requires idle > 0
    ensures IsRun([], steps, states) && Prompt(steps, states)
    ensures |steps| > 0 && steps[|steps| - 1] == WatcherFires
    ensures var s := states[|steps| - 1]; s.timer.active == s.timer.now && s.timer.tokens == 1
  {
    var s0 := State(Start([]), Start([]), Unused, 0, false, false, Armed, Waiting, Timer(0, idle, idle, 0, 0));
    var s1 := Apply(s0, Send(Up, [b])).value;
    var s2 := Apply(s1, Tick(idle)).value;
    var s3 := Apply(s2, Read(Up, 1, false)).value;
    var s4 := Apply(s3, Touch(Up)).value;
    var s5 := Apply(s4, WatcherFires).value;
    steps := [Send(Up, [b]), Tick(idle), Read(Up, 1, false), Touch(Up), WatcherFires];
    states := [s0, s1, s2, s3, s4, s5];
  }

  /** With an idle timeout set, a run that is not finished is blocked only until the deadline,
      which is at most the idle period away. */
  lemma IdleTimeoutUnblocks(buffered: Bytes, steps: seq<Step>, states: seq<State>, n: nat)
    requires IsRun(buffered, steps, states) && n < |states| && states[0].timer.idle > 0
    requires Blocked(states[n]) && !Finished(states[n])
    ensures var t := states[n].timer;
            && t.now < t.deadline <= t.now + states[0].timer.idle
            && Apply(states[n], Tick(t.deadline)).Some? && !Blocked(Apply(states[n], Tick(t.deadline)).value)
  {
    TimerHolds(buffered, steps, states, n);
    InvHolds(buffered, steps, states, n);
    BlockedExactly(states[n]);
    var later := Apply(states[n], Tick(states[n].timer.deadline)).value;
    assert Apply(later, WatcherFires).Some?;
  }

  // ----- shutdown -----

  function PhaseRank(p: Phase): nat {
    match p
    case Reading => 6
    case Touching(_) => 5
    case Writing(_) => 3
    case Counting => 2
    case Closing => 1
    case Exited => 0
  }

  /** How much is left to do once everything is closed; a touch may leave a token to be taken. */
  function Measure(s: State): nat
  {
    PhaseRank(s.up.phase) + PhaseRank(s.down.phase) + s.timer.tokens +
    (match s.watcher { case Armed => 2 case Firing => 1 case Gone => 0 }) +
    (match s.main { case Waiting => 2 case Finishing => 1 case Returned(_, _) => 0 })
  }

  /** Once closed, every step but the peers' and the clock's brings the end closer. */
  lemma ClosedStepsDescend(s: State, step: Step, s': State)
    requires Inv(s) && s.once == Over && Apply(s, step) == Some(s')
    ensures s'.once == Over
    ensures if Outside(step) then Measure(s') == Measure(s) else Measure(s') < Measure(s)
  {
    assert OnceInv(s);
    if CopierStep(step) {
      var c' := NextCopier(s, step).value;
      ClosedCopierDescends(s, step, c');
      MeasureOfSide(s, step.dir, c', Noted(s.timer, step));
    } else {
      ControlDescends(s, step, s');
    }
  }

  lemma MeasureOfSide(s: State, dir: Dir, c: Copier, t: Timer)
    ensures Measure(PutSide(s, dir, c).(timer := t)) - Measure(s) ==
            PhaseRank(c.phase) - PhaseRank(Side(s, dir).phase) + t.tokens - s.timer.tokens
  {
  }

  lemma ControlDescends(s: State, step: Step, s': State)
    requires !CopierStep(step) && s.once == Over && ControlStep(s, step) == Some(s')
    ensures s'.once == Over
    ensures if step.Tick? then Measure(s') == Measure(s) else Measure(s') < Measure(s)
  {
    if step.LeaveOnce? {
      LeavingDescends(s, step.actor);
    }
  }

  lemma LeavingDescends(s: State, actor: Actor)
    requires AtClose(s, actor)
    ensures Left(s, actor).once == s.once && Measure(Left(s, actor)) < Measure(s)
  {
    if actor.Copying? {
      MeasureOfSide(s, actor.dir, Side(s, actor.dir).(phase := Exited), s.timer);
    }
  }

  lemma ClosedCopierDescends(s: State, step: Step, c': Copier)
    requires s.clientClosed && s.serverClosed && CopierStep(step) && NextCopier(s, step) == Some(c')
    ensures var c, more := Side(s, step.dir), Noted(s.timer, step).tokens - s.timer.tokens;
            if PeerStep(step) then c'.phase == c.phase && more == 0
            else PhaseRank(c'.phase) + more < PhaseRank(c.phase)
  {
    if step.Write? {
      assert SinkClosed(s, step.dir);
    }
  }

  function SystemSteps(steps: seq<Step>): nat {
    if steps == [] then 0 else (if Outside(steps[0]) then 0 else 1) + SystemSteps(steps[1..])
  }

  /** So from the moment everything is closed a run takes at most Measure more system steps,
      and, as ClosedNeverStuck says, it stops only when it is finished. */
  lemma {:induction false} ShutdownIsBounded(steps: seq<Step>, states: seq<State>)
    requires |states| == |steps| + 1 && Inv(states[0]) && states[0].once == Over
    requires forall k :: 0 <= k < |steps| ==> Apply(states[k], steps[k]) == Some(states[k + 1])
    ensures SystemSteps(steps) + Measure(states[|steps|]) <= Measure(states[0])
  {
    if steps != [] {
      StepKeepsInv(states[0], steps[0], states[1]);
      ClosedStepsDescend(states[0], steps[0], states[1]);
      forall k | 0 <= k < |steps[1..]| ensures Apply(states[1..][k], steps[1..][k]) == Some(states[1..][k + 1]) {
        assert Apply(states[k + 1], steps[k + 1]) == Some(states[k + 2]);
      }
      ShutdownIsBounded(steps[1..], states[1..]);
    }
  }
}
