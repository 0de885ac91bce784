/**
  What reaches the output sink. A rendering is described by a `Trace`: the
  rows it emits, in order, and the error that ended it early, if any. A
  `Writer` stands for the `io.Writer` the renderer writes to.
 */
module Output {
  import opened Wrappers
  import opened Format

  datatype Error =
    | CannotRead(name: string)       // `os.Open` or `Readdir` failed
    | NotADirectory(name: string)    // `Readdir` on something that is not a directory
    | WriteFailed(line: string)      // the sink refused this line

  datatype Trace = Trace(rows: seq<Row>, failure: Option<Error>)

  /** Runs `u` after `t`, unless `t` already failed: the first error ends the
      walk and nothing after it is emitted. */
  function Then(t: Trace, u: Trace): (r: Trace)
  {
    if t.failure.Some? then t else Trace(t.rows + u.rows, u.failure)
  }

  /** Running `u` after `t` keeps what `t` drew; the result fails exactly
      when one of them does, and a failed `t` is the whole result. */
  lemma ThenFirstError(t: Trace, u: Trace)
    ensures t.rows <= Then(t, u).rows
    ensures Then(t, u).failure.None? <==> t.failure.None? && u.failure.None?
    ensures t.failure.Some? ==> Then(t, u) == t
  {
  }

  /** The text of a sequence of rows. */
  function Lines(rows: seq<Row>): (text: seq<string>)
  {
    seq(|rows|, i requires 0 <= i < |rows| => Text(rows[i]))
  }

  lemma LinesConcat(a: seq<Row>, b: seq<Row>)
    ensures Lines(a + b) == Lines(a) + Lines(b)
  {
    forall i | 0 <= i < |a| + |b|
      ensures Lines(a + b)[i] == (Lines(a) + Lines(b))[i]
    {
      if i < |a| {
        assert (a + b)[i] == a[i];
      } else {
        assert (a + b)[i] == b[i - |a|];
      }
    }
  }

  lemma AppendAssociative<T>(a: seq<T>, b: seq<T>, c: seq<T>)
    ensures (a + b) + c == a + (b + c)
  {
  }

  lemma LinesCons(row: Row, rows: seq<Row>)
    ensures Lines([row] + rows) == [Text(row)] + Lines(rows)
  {
    LinesConcat([row], rows);
    assert Lines([row]) == [Text(row)];
  }

  /** What a writer that accepts `room` more writes makes of the trace `t`:
      every row that fits goes out, and the first row that does not becomes
      the error. */
  function Deliver(t: Trace, room: nat): (d: Trace)
  {
    if |t.rows| <= room then t
    else Trace(t.rows[..room], Some(WriteFailed(Text(t.rows[room]))))
  }

  /** What goes out is a prefix of the walk; it ends in an error exactly when
      the walk failed or the writer ran out of room, and when rows are missing
      the error is the first line that was refused. */
  lemma DeliverFirstError(t: Trace, room: nat)
    ensures var d := Deliver(t, room);
      && d.rows <= t.rows && |d.rows| <= room
      && (d.failure.None? <==> t.failure.None? && |t.rows| <= room)
      && (|d.rows| < |t.rows| ==> d.failure == Some(WriteFailed(Text(t.rows[|d.rows|]))))
      && (|d.rows| == |t.rows| ==> d == t)
  {
  }

  /** Delivering a walk in two parts is delivering the first part and, if it
      went through without error, the second part in the room that is left. */
  lemma {:induction false} DeliverThen(t: Trace, u: Trace, room: nat)
    ensures Deliver(Then(t, u), room) ==
      if t.failure.Some? || room < |t.rows| then Deliver(t, room)
      else Then(t, Deliver(u, room - |t.rows|))
  {
    if t.failure.None? && room >= |t.rows| {
      var both := t.rows + u.rows;
      if |both| > room {
        assert both[..room] == t.rows + u.rows[..room - |t.rows|];
        assert both[room] == u.rows[room - |t.rows|];
      }
    } else if t.failure.None? {
      assert (t.rows + u.rows)[..room] == t.rows[..room];
      assert (t.rows + u.rows)[room] == t.rows[room];
    }
  }

  /** A row alone: it goes out if there is room, else its line is the error. */
  lemma DeliverRow(row: Row, room: nat)
    ensures Deliver(Trace([row], None), room) ==
      if room == 0 then Trace([], Some(WriteFailed(Text(row)))) else Trace([row], None)
  {
  }

  /** A row followed by the walk `sub` below it: the row goes out if there
      is room, and `sub` gets the room that is left. */
  lemma DeliverRowThen(row: Row, sub: Trace, room: nat)
    ensures room == 0 ==> Deliver(Then(Trace([row], None), sub), room) == Trace([], Some(WriteFailed(Text(row))))
    ensures room > 0 ==> var d := Deliver(sub, room - 1);
      Deliver(Then(Trace([row], None), sub), room) == Trace([row] + d.rows, d.failure)
  {
    DeliverThen(Trace([row], None), sub, room);
  }

  /** A walk that has delivered `done` so far moves on past one item: if the
      item's delivery failed, that is the end of the whole delivery;
      otherwise the item's rows join `done` and the rest goes out in the
      room that is left. */
  lemma AdvancePast(total: Trace, done: seq<Row>, item: Trace, rest: Trace, room: nat)
    requires total == Then(Trace(done, None), Deliver(Then(item, rest), room))
    ensures var d := Deliver(item, room);
      d.failure.Some? ==> total == Trace(done + d.rows, d.failure)
    ensures var d := Deliver(item, room);
      d.failure.None? ==>
        |d.rows| <= room && total == Then(Trace(done + d.rows, None), Deliver(rest, room - |d.rows|))
  {
    DeliverThen(item, rest, room);
    var d := Deliver(item, room);
    if d.failure.None? {
      assert d == item;
      AppendAssociative(done, item.rows, Deliver(rest, room - |item.rows|).rows);
    }
  }

  /** The output sink. Writes succeed while `room` lasts; from then on every
      write fails. The renderer stops at its first failed write, so only the
      position of that first failure matters, and `room` fixes it. */
  /** How many writes a delivery saw refused: one when it ended on a refused
      line, none otherwise. */
  function Refused(d: Trace): (n: nat)
  {
    if d.failure.Some? && d.failure.value.WriteFailed? then 1 else 0
  }

  class Writer {
    var lines: seq<string>
    var room: nat
    /** The number of writes refused so far. */
    ghost var refusals: nat

    constructor (room: nat)
      ensures lines == [] && this.room == room && refusals == 0
    {
      lines := [];
      this.room := room;
      refusals := 0;
    }

    method Write(line: string) returns (err: Option<Error>)
      modifies this
      ensures old(room) > 0 ==>
        err == None && lines == old(lines) + [line] && room == old(room) - 1 && refusals == old(refusals)
      ensures old(room) == 0 ==>
        err == Some(WriteFailed(line)) && lines == old(lines) && room == 0 && refusals == old(refusals) + 1
    {
      if room == 0 {
        err := Some(WriteFailed(line));
        refusals := refusals + 1;
      } else {
        lines := lines + [line];
        room := room - 1;
        err := None;
      }
    }
  }
}
