/** `parse_application_data`: application bytes become user commands. LF
    ends a line, NUL and NOP are keepalives that become an idle command, and
    every other byte joins the line being typed, which persists between
    calls. */
module TelnetLines {
  import opened TelnetCodes

  /** What reaches `user_command`: a finished line (without its LF) or the
      idle command a keepalive stands for. */
  datatype Input = Idle | Line(text: seq<byte>)

  /** The word a keepalive is handed on as. */
  const IdleCommand: seq<byte> := [73, 68, 76, 69]

  /** The bytes `user_command` receives for an input: a keepalive arrives
      as the word `IDLE`, the same bytes a typed line `IDLE` gives. */
  function UserCommand(x: Input): seq<byte> {
    match x
    case Idle => IdleCommand
    case Line(text) => text
  }

  predicate IsKeepalive(b: byte) {
    b == NUL || b == NOP
  }

  /** A line buffer can hold neither line ends nor keepalives. */
  predicate Clean(s: seq<byte>) {
    forall i :: 0 <= i < |s| ==> s[i] != LF && !IsKeepalive(s[i])
  }

  /** The buffer after one byte. */
  function Next(buf: seq<byte>, b: byte): seq<byte> {
    if IsKeepalive(b) then buf else if b == LF then [] else buf + [b]
  }

  /** The inputs one byte hands on. */
  function Emitted(buf: seq<byte>, b: byte): seq<Input> {
    if IsKeepalive(b) then [Idle] else if b == LF then [Line(buf)] else []
  }

  /** The line left in the buffer and the inputs handed on, in order. */
  function Split(buf: seq<byte>, data: seq<byte>): (r: (seq<byte>, seq<Input>))
    decreases |data|
  {
    if |data| == 0 then (buf, [])
    else
      var r := Split(Next(buf, data[0]), data[1..]);
      (r.0, Emitted(buf, data[0]) + r.1)
  }

  /** A clean buffer stays clean, and every line handed on is clean. */
  lemma {:induction false} SplitKeepsClean(buf: seq<byte>, data: seq<byte>)
    requires Clean(buf)
    ensures Clean(Split(buf, data).0)
    ensures forall x :: x in Split(buf, data).1 && x.Line? ==> Clean(x.text)
    decreases |data|
  {
    if |data| > 0 {
      var b := data[0];
      assert Clean(Next(buf, b));
      SplitKeepsClean(Next(buf, b), data[1..]);
    }
  }

  /** The bytes of the inputs put back together, each line with its LF. */
  function Rejoin(ins: seq<Input>): seq<byte> {
    if |ins| == 0 then []
    else (if ins[0].Line? then ins[0].text + [LF] else []) + Rejoin(ins[1..])
  }

  /** The data with keepalives dropped. */
  function Visible(data: seq<byte>): seq<byte> {
    if |data| == 0 then []
    else (if IsKeepalive(data[0]) then [] else [data[0]]) + Visible(data[1..])
  }

  function Count(data: seq<byte>, b: byte): nat {
    if |data| == 0 then 0 else (if data[0] == b then 1 else 0) + Count(data[1..], b)
  }

  function Idles(ins: seq<Input>): nat {
    if |ins| == 0 then 0 else (if ins[0].Idle? then 1 else 0) + Idles(ins[1..])
  }

  function Lines(ins: seq<Input>): nat {
    if |ins| == 0 then 0 else (if ins[0].Line? then 1 else 0) + Lines(ins[1..])
  }

  lemma RejoinConcat(a: seq<Input>, b: seq<Input>)
    ensures Rejoin(a + b) == Rejoin(a) + Rejoin(b)
  {
    if |a| > 0 {
      assert (a + b)[0] == a[0] && (a + b)[1..] == a[1..] + b;
      RejoinConcat(a[1..], b);
    } else {
      assert a + b == b;
    }
  }

  function VisibleByte(b: byte): seq<byte> {
    if IsKeepalive(b) then [] else [b]
  }

  lemma StepReassembles(buf: seq<byte>, b: byte)
    ensures Rejoin(Emitted(buf, b)) + Next(buf, b) == buf + VisibleByte(b)
  {
    if IsKeepalive(b) {
      assert Rejoin([Idle]) == [];
    } else if b == LF {
      assert Rejoin([Line(buf)]) == buf + [LF] + Rejoin([]);
    } else {
      assert Rejoin([]) + (buf + [b]) == buf + [b];
    }
  }

  /** Nothing is lost or invented: the lines handed on, each with its LF,
      followed by the line still being typed, are the old buffer followed
      by the new data without its keepalives. */
  lemma {:induction false} SplitReassembles(buf: seq<byte>, data: seq<byte>)
    ensures Rejoin(Split(buf, data).1) + Split(buf, data).0 == buf + Visible(data)
    decreases |data|
  {
    if |data| == 0 {
      assert buf + Visible(data) == buf;
    } else {
      var b := data[0];
      var next := Next(buf, b);
      var e := Emitted(buf, b);
      var r := Split(next, data[1..]);
      assert Split(buf, data) == (r.0, e + r.1);
      SplitReassembles(next, data[1..]);
      RejoinConcat(e, r.1);
      StepReassembles(buf, b);
      assert Visible(data) == VisibleByte(b) + Visible(data[1..]);
      Regroup(Rejoin(e), Rejoin(r.1), r.0, next, Visible(data[1..]), buf, VisibleByte(b));
    }
  }

  lemma Regroup(a: seq<byte>, b: seq<byte>, c: seq<byte>, next: seq<byte>, rest: seq<byte>, buf: seq<byte>, one: seq<byte>)
    requires b + c == next + rest && a + next == buf + one
    ensures (a + b) + c == buf + (one + rest)
  {
    calc {
      (a + b) + c;
      a + (b + c);
      a + (next + rest);
      (a + next) + rest;
    }
  }

  /** One idle command per keepalive byte, one line per LF. */
  lemma {:induction false} SplitCounts(buf: seq<byte>, data: seq<byte>)
    ensures Idles(Split(buf, data).1) == Count(data, NUL) + Count(data, NOP)
    ensures Lines(Split(buf, data).1) == Count(data, LF)
    decreases |data|
  {
    if |data| > 0 {
      var b := data[0];
      SplitCounts(Next(buf, b), data[1..]);
      var ins := Split(Next(buf, b), data[1..]).1;
      if IsKeepalive(b) {
        assert ([Idle] + ins)[1..] == ins;
      } else if b == LF {
        assert ([Line(buf)] + ins)[1..] == ins;
      } else {
        assert [] + ins == ins;
      }
    }
  }

  /** Data split between two calls gives the same lines as the data in one
      call: the unfinished line carries over in the buffer. */
  lemma {:induction false} SplitConcat(buf: seq<byte>, x: seq<byte>, y: seq<byte>)
    ensures Split(buf, x + y) == (Split(Split(buf, x).0, y).0, Split(buf, x).1 + Split(Split(buf, x).0, y).1)
    decreases |x|
  {
    if |x| == 0 {
      assert x + y == y;
      assert [] + Split(buf, y).1 == Split(buf, y).1;
    } else {
      assert (x + y)[0] == x[0] && (x + y)[1..] == x[1..] + y;
      var next := Next(buf, x[0]);
      SplitConcat(next, x[1..], y);
      var a := Split(next, x[1..]).1;
      var c := Split(Split(next, x[1..]).0, y).1;
      assert Emitted(buf, x[0]) + (a + c) == (Emitted(buf, x[0]) + a) + c;
    }
  }

  /** A typed line arrives whole, without its LF. */
  lemma OneLine(text: seq<byte>)
    requires Clean(text)
    ensures Split([], text + [LF]) == ([], [Line(text)])
  {
    SplitConcat([], text, [LF]);
    SplitNoBreak([], text);
    assert [] + text == text;
    assert Split([], text) == (text, []);
    assert [LF][0] == LF && [LF][1..] == [];
    assert Next(text, LF) == [] && Emitted(text, LF) == [Line(text)];
    assert Split(text, [LF]) == (Split([], []).0, [Line(text)] + Split([], []).1);
    assert Split([], []) == ([], []);
    assert [Line(text)] + [] == [Line(text)];
    assert Split(text, [LF]) == ([], [Line(text)]);
    assert [] + [Line(text)] == [Line(text)];
  }

  /** Bytes with no line end or keepalive only extend the buffer. */
  lemma {:induction false} SplitNoBreak(buf: seq<byte>, data: seq<byte>)
    requires Clean(data)
    ensures Split(buf, data) == (buf + data, [])
    decreases |data|
  {
    if |data| == 0 {
      assert buf + data == buf;
    } else {
      var b, rest := data[0], data[1..];
      assert b != LF && !IsKeepalive(b);
      assert Next(buf, b) == buf + [b] && Emitted(buf, b) == [];
      assert forall i :: 0 <= i < |rest| ==> rest[i] == data[i + 1];
      SplitNoBreak(buf + [b], rest);
      var r := Split(buf + [b], rest);
      assert r.0 == buf + data by {
        assert buf + [b] + rest == buf + data;
      }
      assert r.1 == [] && [] + r.1 == [];
      assert Split(buf, data) == (r.0, Emitted(buf, b) + r.1);
    }
  }
}
