/** go/src/protocol/redis/handle.go: framing a byte stream that arrives in chunks. */
module RespConn {
  import opened RespSpec
  import RespParser

  /** A connection: the bytes not yet taken, and the parser at work. */
  datatype Conn = Conn(buf: seq<byte>, m: Machine)

  const NewConn := Conn([], NewMachine)

  /** Between calls a parser is at work, unless the process has panicked. */
  predicate AtWork(c: Conn) { c.m.Running? || c.m.Panicked? }

  /** HandleBytes: at most one command a call; the parser is renewed when it is over. */
  function Handle(c: Conn, chunk: seq<byte>): (Conn, Option<Item>) {
    var buf := c.buf + chunk;
    var (m, n) := Feed(c.m, buf);
    match m
    case Over(cmd) => (Conn(buf[n..], NewMachine), Some(Got(cmd)))
    case Failed => (Conn(buf[n..], NewMachine), Some(Broken))
    case _ => (Conn(buf[n..], m), None)
  }

  function Concat(chunks: seq<seq<byte>>): seq<byte> {
    if chunks == [] then [] else chunks[0] + Concat(chunks[1..])
  }

  function AsSeq(o: Option<Item>): seq<Item> { if o.Some? then [o.value] else [] }

  function HandleAll(c: Conn, chunks: seq<seq<byte>>): (Conn, seq<Item>)
    decreases |chunks|
  {
    if chunks == [] then (c, []) else
    var (c1, o) := Handle(c, chunks[0]);
    var (c2, items) := HandleAll(c1, chunks[1..]);
    (c2, AsSeq(o) + items)
  }

  lemma {:induction false} DecodeSplit(m: Machine, a: seq<byte>, b: seq<byte>)
    requires Feed(m, a).0.Running?
    ensures Decode(m, a + b) == Decode(Feed(m, a).0, b)
  {
    FeedSplit(m, a, b);
    var m1 := Feed(m, a).0;
    var n2 := Feed(m1, b).1;
    assert (a + b)[|a| + n2..] == b[n2..];
    if a + b != [] && b == [] { assert a + b == a; }
    if a == [] { assert a + b == b; }
  }

  lemma {:induction false} HandleDecode(c: Conn, chunk: seq<byte>, rest: seq<byte>)
    requires AtWork(c)
    ensures var (c', o) := Handle(c, chunk);
      AtWork(c') && Decode(c.m, c.buf + chunk + rest) == AsSeq(o) + Decode(c'.m, c'.buf + rest)
  {
    var buf := c.buf + chunk;
    var (m, n) := Feed(c.m, buf);
    if m.Running? {
      DecodeSplit(c.m, buf, rest);
      assert buf[n..] + rest == rest;
    } else {
      FeedSplit(c.m, buf, rest);
      assert (buf + rest)[n..] == buf[n..] + rest;
    }
  }

  /** However a stream is cut into chunks: what the calls yield, followed by what the retained
      bytes still decode to, is what the whole stream decodes to. */
  lemma {:induction false} ChunksDecode(c: Conn, chunks: seq<seq<byte>>)
    requires AtWork(c)
    ensures var (c', items) := HandleAll(c, chunks);
      items + Decode(c'.m, c'.buf) == Decode(c.m, c.buf + Concat(chunks)) && |items| <= |chunks|
    decreases |chunks|
  {
    if chunks == [] {
      assert c.buf + [] == c.buf;
    } else {
      var (c1, o) := Handle(c, chunks[0]);
      var rest := Concat(chunks[1..]);
      var (c2, items) := HandleAll(c1, chunks[1..]);
      assert Decode(c.m, c.buf + Concat(chunks)) == AsSeq(o) + Decode(c1.m, c1.buf + rest) && AtWork(c1) by {
        HandleDecode(c, chunks[0], rest);
        Assoc(c.buf, chunks[0], rest);
      }
      ChunksDecode(c1, chunks[1..]);
      Assoc(AsSeq(o), items, Decode(c2.m, c2.buf));
    }
  }

  /** The commands yielded are a prefix of the one-shot decoding of everything received. */
  lemma {:induction false} YieldsArePrefix(chunks: seq<seq<byte>>)
    ensures HandleAll(NewConn, chunks).1 <= Decode(NewMachine, Concat(chunks))
  {
    ChunksDecode(NewConn, chunks);
    assert [] + Concat(chunks) == Concat(chunks);
  }

  /** Nothing is lost or repeated: the bytes retained are a suffix of those received. */
  lemma {:induction false} RetainedSuffix(c: Conn, chunks: seq<seq<byte>>) returns (taken: seq<byte>)
    ensures taken + HandleAll(c, chunks).0.buf == c.buf + Concat(chunks)
    decreases |chunks|
  {
    if chunks == [] {
      taken := [];
    } else {
      var (c1, _) := Handle(c, chunks[0]);
      var buf, rest := c.buf + chunks[0], Concat(chunks[1..]);
      var head := buf[..Feed(c.m, buf).1];
      assert head + c1.buf == buf;
      var t := RetainedSuffix(c1, chunks[1..]);
      var b := HandleAll(c1, chunks[1..]).0.buf;
      taken := head + t;
      Assoc(head, t, b); Assoc(head, c1.buf, rest); Assoc(c.buf, chunks[0], rest);
    }
  }

  lemma Assoc<A>(a: seq<A>, b: seq<A>, c: seq<A>)
    ensures a + (b + c) == a + b + c
  {
  }

  // ---------- The connection object ----------

  /** `cmd` and what is below it spell out `c`. */
  ghost predicate IsCommand(cmd: RespParser.Command?, c: Cmd, tree: Option<RespParser.Ended>)
    reads if tree.Some? then RespParser.Nodes(tree.value) else {}
  {
    tree.Some? && RespParser.Rep(tree.value) && tree.value.node == cmd && RespParser.View(tree.value) == c
  }

  class Connection {
    var buf: seq<byte>
    var parser: RespParser.Parser

    ghost predicate Valid()
      reads this, parser, parser.Commands()
    {
      parser.Valid() && parser.Abs().Running?
    }

    ghost function View(): Conn
      reads this, parser, parser.Commands()
    {
      Conn(buf, parser.Abs())
    }

    constructor ()
      ensures Valid() && View() == NewConn
    {
      buf := [];
      parser := new RespParser.Parser();
    }

    /** The end of HandleBytes: the command that is over, if any, and a new parser after it. */
    method TakeCommand() returns (cmd: RespParser.Command?, ok: bool, ghost tree: Option<RespParser.Ended>)
      requires parser.Valid()
      modifies this`parser
      ensures Valid() && buf == old(buf)
      ensures match old(parser.Abs())
        case Over(c) => IsCommand(cmd, c, tree) && (ok <==> c.kind != Unknown && c.state.End?) && parser.Abs() == NewMachine
        case Failed => cmd != null && !ok && parser.Abs() == NewMachine
        case _ => cmd == null && parser == old(parser) && parser.Abs() == old(parser.Abs())
    {
      ok, tree := false, None;
      assert allocated(parser.Commands());
      cmd := parser.GetCommand();
      if cmd != null {
        ok := cmd.kind != Unknown && cmd.status == End;
        if parser.phase.Finished? {
          tree := Some(parser.phase.tree);
          assert allocated(RespParser.Nodes(tree.value));
        }
        parser := new RespParser.Parser();
      }
    }

    /** HandleBytes: the command that is over, if any, and whether it is a good one. */
    method HandleBytes(chunk: seq<byte>)
      returns (cmd: RespParser.Command?, ok: bool, panicked: bool, ghost tree: Option<RespParser.Ended>, ghost item: Option<Item>)
      requires Valid()
      modifies this, parser, parser.Commands()
      ensures panicked <==> Handle(old(View()), chunk).0.m.Panicked?
      ensures !panicked ==> Valid() && (View(), item) == Handle(old(View()), chunk) && (cmd != null <==> item.Some?)
      ensures !panicked && item.Some? && item.value.Got? ==>
        IsCommand(cmd, item.value.cmd, tree) && (ok <==> item.value.cmd.kind != Unknown && item.value.cmd.state.End?)
      ensures !panicked && item.Some? && item.value.Broken? ==> !ok
    {
      cmd, ok, tree := null, false, None;
      item := Handle(View(), chunk).1;
      buf := buf + chunk;
      var i;
      i, panicked := parser.Write(buf);
      if panicked { return; }
      buf := buf[i..];
      cmd, ok, tree := TakeCommand();
    }
  }
}
