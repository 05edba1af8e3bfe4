/** go/src/redisparser/parser.go: the parser over command objects, with its explicit stack. */
module RespParser {
  import opened RespSpec

  class Command {
    var kind: Kind
    var status: State
    var num: int
    var bytes: Option<seq<byte>>
    var commands: seq<Command>

    constructor ()
      ensures Pristine(this)
    {
      kind, status, num, bytes, commands := Unknown, Start, 0, None, [];
    }
  }

  ghost predicate Pristine(c: Command)
    reads c
  {
    c.kind.Unknown? && c.status.Start? && c.num == 0 && c.bytes == None && c.commands == []
  }

  /** An ended command with everything below it. */
  datatype Ended = Ended(node: Command, kind: Kind, num: int, bytes: Option<seq<byte>>, kids: EndedList)
  datatype EndedList = Nil | Snoc(init: EndedList, last: Ended)

  ghost function Nodes(e: Ended): set<Command> { {e.node} + ListNodes(e.kids) }

  ghost function ListNodes(es: EndedList): set<Command> {
    match es
    case Nil => {}
    case Snoc(init, last) => ListNodes(init) + Nodes(last)
  }

  ghost function Roots(es: EndedList): seq<Command> {
    match es
    case Nil => []
    case Snoc(init, last) => Roots(init) + [last.node]
  }

  ghost function View(e: Ended): Cmd { Cmd(e.kind, End, e.num, e.bytes, ListView(e.kids)) }

  ghost function ListView(es: EndedList): seq<Cmd> {
    match es
    case Nil => []
    case Snoc(init, last) => ListView(init) + [View(last)]
  }

  ghost predicate Rep(e: Ended)
    reads Nodes(e)
  {
    match e
    case Ended(node, kind, num, bytes, kids) =>
      && node.kind == kind && node.status.End? && node.num == num && node.bytes == bytes
      && node.commands == Roots(kids) && ListRep(kids)
  }

  ghost predicate ListRep(es: EndedList)
    reads ListNodes(es)
  {
    match es
    case Nil => true
    case Snoc(init, last) => ListRep(init) && Rep(last)
  }

  /** The open arrays above a command: ended children, and siblings that have not begun. */
  datatype Above = Nothing | Array(up: Above, arr: Command, done: EndedList, later: seq<Command>)

  ghost function AboveNodes(h: Above): set<Command> {
    match h
    case Nothing => {}
    case Array(up, arr, done, later) => AboveNodes(up) + {arr} + ListNodes(done) + set x | x in later
  }

  ghost predicate AboveRep(h: Above, child: Command)
    reads AboveNodes(h)
  {
    match h
    case Nothing => true
    case Array(up, arr, done, later) =>
      && arr.kind.Multi? && arr.status.Open? && arr.num == 0 && arr.bytes == None
      && arr.commands == Roots(done) + [child] + later
      && ListRep(done) && (forall x :: x in later ==> Pristine(x))
      && AboveRep(up, arr)
  }

  /** All these commands are different objects. */
  ghost predicate Apart(h: Above) {
    match h
    case Nothing => true
    case Array(up, arr, done, later) =>
      && Apart(up) && arr !in AboveNodes(up) && arr !in ListNodes(done) && arr !in later
      && AboveNodes(up) !! ListNodes(done)
      && (forall x :: x in later ==> x !in AboveNodes(up) && x !in ListNodes(done))
      && forall i, j :: 0 <= i < j < |later| ==> later[i] != later[j]
  }

  ghost function CtxOf(h: Above): Ctx {
    match h
    case Nothing => Root
    case Array(up, _, done, later) => Arr(CtxOf(up), ListView(done), |later|)
  }

  ghost function Top(h: Above, child: Command): Command { if h.Nothing? then child else Top(h.up, h.arr) }

  lemma {:induction false} TopAmong(h: Above, child: Command)
    ensures Top(h, child) in AboveNodes(h) + {child}
  {
    if h.Array? { TopAmong(h.up, h.arr); }
  }

  function Reverse<A>(s: seq<A>): seq<A> { if s == [] then [] else Reverse(s[1..]) + [s[0]] }

  /** The stack under the current command: each open array, then its later children, first on top. */
  ghost function StackOf(h: Above): seq<Command> {
    match h
    case Nothing => []
    case Array(up, arr, _, later) => StackOf(up) + [arr] + Reverse(later)
  }

  /** `e` has ended below `h`: nothing else is out of place. */
  ghost predicate Ending(h: Above, e: Ended)
    reads AboveNodes(h), Nodes(e)
  {
    AboveRep(h, e.node) && Apart(h) && Rep(e) && Nodes(e) !! AboveNodes(h)
  }

  /** An array whose last child has ended, as an ended command. */
  ghost function Closed(h: Above, e: Ended): Ended
    requires h.Array?
  {
    Ended(h.arr, Multi, 0, None, Snoc(h.done, e))
  }

  method CloseArray(ghost h: Above, ghost e: Ended, arr: Command)
    requires Ending(h, e) && h.Array? && h.arr == arr && h.later == []
    modifies arr`status
    ensures Ending(h.up, Closed(h, e)) && AboveNodes(h.up) + Nodes(Closed(h, e)) == AboveNodes(h) + Nodes(e)
    ensures forall b, n :: Finish(CtxOf(h), View(e), b, n) == Finish(CtxOf(h.up), View(Closed(h, e)), b, n)
  {
    arr.status := End;
    assert Roots(h.done) + [e.node] + h.later == Roots(Snoc(h.done, e));
  }

  lemma {:induction false} StackTop(h: Above)
    requires h.Array?
    ensures var s := StackOf(h);
      && s != [] && s[|s| - 1] == (if h.later == [] then h.arr else h.later[0])
      && s[..|s| - 1] == (if h.later == [] then StackOf(h.up) else StackOf(h.(later := h.later[1..])))
  {
    if h.later == [] {
      assert Reverse(h.later) == [];
    } else {
      assert Reverse(h.later) == Reverse(h.later[1..]) + [h.later[0]];
    }
  }

  /** The next sibling of an ended command becomes the current one. */
  ghost function Advanced(h: Above, e: Ended): Above
    requires h.Array? && h.later != []
  {
    Array(h.up, h.arr, Snoc(h.done, e), h.later[1..])
  }

  lemma {:induction false} NextSibling(h: Above, e: Ended)
    requires Ending(h, e) && h.Array? && h.later != []
    ensures var h', cur := Advanced(h, e), h.later[0];
      && AboveRep(h', cur) && Apart(h') && cur !in AboveNodes(h') && Pristine(cur)
      && AboveNodes(h') + {cur} == AboveNodes(h) + Nodes(e)
      && StackOf(h') == StackOf(h.(later := h.later[1..])) && Top(h', cur) == Top(h, e.node)
    ensures forall b, n :: Finish(CtxOf(h), View(e), b, n) == Running(CtxOf(Advanced(h, e)), NewCmd, b, n)
  {
    var h', cur := Advanced(h, e), h.later[0];
    assert Roots(h.done) + [e.node] + h.later == Roots(Snoc(h.done, e)) + [cur] + h.later[1..];
    assert forall x :: x in h.later <==> x == cur || x in h.later[1..];
  }

  /** The commands of a new array are fit to go below `h`, the first of them as the current one. */
  ghost predicate Opened(h: Above, r: Command, rcs: seq<Command>)
    reads AboveNodes(h), r, rcs
  {
    && AboveRep(h, r) && Apart(h) && r !in AboveNodes(h)
    && r.kind.Multi? && r.status.Open? && r.num == 0 && r.bytes == None && r.commands == rcs
    && (forall x :: x in rcs ==> Pristine(x) && x != r && x !in AboveNodes(h))
    && forall i, j :: 0 <= i < j < |rcs| ==> rcs[i] != rcs[j]
  }

  lemma {:induction false} FirstChild(h: Above, r: Command, rcs: seq<Command>)
    requires Opened(h, r, rcs) && rcs != []
    ensures var h', cur := Array(h, r, Nil, rcs[1..]), rcs[0];
      && AboveRep(h', cur) && Apart(h') && cur !in AboveNodes(h') && Pristine(cur)
      && AboveNodes(h') + {cur} == AboveNodes(h) + {r} + (set x | x in rcs)
      && StackOf(h') + [cur] == StackOf(h) + [r] + Reverse(rcs)
      && CtxOf(h') == Arr(CtxOf(h), [], |rcs| - 1) && Top(h', cur) == Top(h, r)
  {
    var h', cur := Array(h, r, Nil, rcs[1..]), rcs[0];
    assert rcs == [cur] + rcs[1..] && cur in rcs;
    assert forall x :: x in rcs <==> x == cur || x in rcs[1..];
  }

  /** `make` and the loop that fills it: new commands, all different. */
  method NewCommands(n: nat) returns (rcs: seq<Command>)
    ensures |rcs| == n && fresh(set x | x in rcs)
    ensures forall x :: x in rcs ==> Pristine(x)
    ensures forall i, j :: 0 <= i < j < n ==> rcs[i] != rcs[j]
  {
    rcs := [];
    while |rcs| < n
      invariant |rcs| <= n && fresh(set x | x in rcs)
      invariant forall x :: x in rcs ==> Pristine(x)
      invariant forall i, j :: 0 <= i < j < |rcs| ==> rcs[i] != rcs[j]
    {
      var c := new Command();
      rcs := rcs + [c];
    }
  }

  /** The array command `r` gets its `n` commands. */
  method Populate(r: Command, n: nat, ghost h: Above) returns (rcs: seq<Command>)
    requires AboveRep(h, r) && Apart(h) && r !in AboveNodes(h) && r.kind.Multi? && r.num == 0 && r.bytes == None
    modifies r`status, r`commands
    ensures Opened(h, r, rcs) && |rcs| == n && fresh(set x | x in rcs)
  {
    assert allocated(AboveNodes(h));
    r.status := Open;
    rcs := NewCommands(n);
    r.commands := rcs;
  }

  datatype Phase = Working(above: Above, cur: Command) | Finished(tree: Ended) | Broke

  class Parser {
    var stack: seq<Command>
    var buffer: seq<byte>
    var argLen: int
    var redisCommand: Command
    ghost var phase: Phase

    ghost function Commands(): set<Command>
      reads this
    {
      match phase
      case Working(h, cur) => AboveNodes(h) + {cur}
      case Finished(e) => Nodes(e)
      case Broke => {redisCommand}
    }

    ghost predicate Valid()
      reads this, Commands()
    {
      match phase
      case Working(h, cur) =>
        && stack == StackOf(h) + [cur] && redisCommand == Top(h, cur)
        && AboveRep(h, cur) && Apart(h) && cur !in AboveNodes(h)
        && cur.commands == [] && !cur.status.End? && !cur.status.Bad?
        && (cur.kind.Multi? || cur.status.Start? ==> cur.num == 0 && cur.bytes == None)
        && (cur.status.FixedLen? ==> cur.kind.Bulk?)
      case Finished(e) => stack == [] && redisCommand == e.node && Rep(e)
      case Broke => stack == [] && redisCommand.status.Bad?
    }

    /** The parser as a machine on values. */
    ghost function Abs(): Machine
      reads this, Commands()
    {
      match phase
      case Working(h, cur) => Running(CtxOf(h), Cmd(cur.kind, cur.status, cur.num, cur.bytes, []), buffer, argLen)
      case Finished(e) => Over(View(e))
      case Broke => Failed
    }

    constructor ()
      ensures Valid() && Abs() == NewMachine && fresh(Commands())
    {
      var rc := new Command();
      stack, buffer, argLen, redisCommand := [rc], [], 0, rc;
      phase := Working(Nothing, rc);
    }

    /** The sibling on top of the stack is the current command from now on. */
    ghost method Resume(h: Above, e: Ended)
      requires Ending(h, e) && h.Array? && h.later != [] && stack == StackOf(h) && redisCommand == Top(h, e.node)
      modifies this`phase
      ensures Valid() && Abs() == Finish(CtxOf(h), View(e), buffer, argLen) && Commands() == AboveNodes(h) + Nodes(e)
    {
      NextSibling(h, e);
      StackTop(h);
      assert stack == stack[..|stack| - 1] + [stack[|stack| - 1]];
      phase := Working(Advanced(h, e), h.later[0]);
    }

    /** One turn of popStacks below an ended command: an open array on top ends and is popped. */
    method PopTurn(ghost h: Above, ghost e: Ended) returns (open: bool, ghost h': Above, ghost e': Ended)
      requires Ending(h, e) && stack == StackOf(h) && stack != [] && redisCommand == Top(h, e.node)
      modifies this`stack, this`phase, AboveNodes(h)`status
      ensures open ==> Ending(h', e') && stack == StackOf(h') && redisCommand == Top(h', e'.node) && |stack| < old(|stack|)
      ensures open ==> AboveNodes(h') + Nodes(e') == AboveNodes(h) + Nodes(e) && AboveNodes(h') <= AboveNodes(h)
      ensures open ==> Finish(CtxOf(h'), View(e'), buffer, argLen) == Finish(CtxOf(h), View(e), buffer, argLen)
      ensures !open ==> Valid() && Abs() == Finish(CtxOf(h), View(e), buffer, argLen)
      ensures !open ==> Commands() == AboveNodes(h) + Nodes(e)
    {
      var l := |stack|;
      var top := stack[l - 1];
      StackTop(h);
      assert h.later == [] ==> top.status == Open;
      assert h.later != [] ==> top in h.later && Pristine(top);
      open, h', e' := top.status == Open, h, e;
      if open {
        CloseArray(h, e, top);
        stack := stack[..l - 1];
        h', e' := h.up, Closed(h, e);
      } else {
        Resume(h, e);
      }
    }

    /** popStacks: from an ended command on top, up to the next sibling that has not begun. The
        loop's first turn pops the ended command itself; after that the top is an open array or new. */
    method PopStacks(ghost h0: Above, ghost e0: Ended)
      requires Ending(h0, e0) && stack == StackOf(h0) + [e0.node] && redisCommand == Top(h0, e0.node)
      modifies this`stack, this`phase, AboveNodes(h0)`status
      ensures Valid() && Abs() == Finish(CtxOf(h0), View(e0), buffer, argLen)
      ensures Commands() == AboveNodes(h0) + Nodes(e0)
    {
      stack := stack[..|stack| - 1];
      ghost var h, e := h0, e0;
      while |stack| > 0
        invariant stack == StackOf(h) && Ending(h, e) && redisCommand == Top(h, e.node)
        invariant AboveNodes(h) + Nodes(e) == AboveNodes(h0) + Nodes(e0) && AboveNodes(h) <= AboveNodes(h0)
        invariant Finish(CtxOf(h), View(e), buffer, argLen) == Finish(CtxOf(h0), View(e0), buffer, argLen)
        decreases |stack|
      {
        var open;
        open, h, e := PopTurn(h, e);
        if !open { return; }
      }
      if h.Array? { StackTop(h); }
      phase := Finished(e);
    }

    /** Every byte handler ends a command without children this way. */
    method EndCurrent(r: Command)
      requires Valid() && phase.Working? && phase.cur == r
      modifies this`stack, this`phase, r`status, AboveNodes(phase.above)`status
      ensures Valid() && Commands() == old(Commands()) && r.status.End?
      ensures Abs() == Finish(old(CtxOf(phase.above)), Cmd(r.kind, End, r.num, r.bytes, []), buffer, argLen)
    {
      ghost var h, e := phase.above, Ended(r, r.kind, r.num, r.bytes, Nil);
      r.status := End;
      PopStacks(h, e);
    }

    method ParseStart(b: byte, r: Command)
      requires Valid() && phase.Working? && phase.cur == r && r.status.Start?
      modifies this`buffer, r`kind, r`status
      ensures Valid() && Abs() == Step(old(Abs()), b) && Commands() == old(Commands())
    {
      if b == 43 {
        r.kind := StatusLine;
      } else if b == 45 {
        r.kind := ErrorLine;
      } else if b == 36 {
        r.kind := Bulk;
      } else if b == 58 {
        r.kind := Integer;
      } else if b == 42 {
        r.kind := Multi;
      } else {
        r.kind := Unknown;
        r.status := Bad;
      }
      buffer := [];
      r.status := UntilCrlf;
    }

    method ParseFixedLen(b: byte, r: Command)
      requires Valid() && phase.Working? && phase.cur == r && r.status.FixedLen?
      modifies this`buffer, this`stack, this`phase, r`bytes, r`status, AboveNodes(phase.above)`status
      ensures r.status.Bad? <==> Step(old(Abs()), b) == Failed
      ensures Step(old(Abs()), b) != Failed ==> Valid() && Abs() == Step(old(Abs()), b) && Commands() == old(Commands())
      ensures Step(old(Abs()), b) == Failed ==> phase == old(phase)
    {
      buffer := buffer + [b];
      var l := |buffer|;
      if l == argLen + 2 {
        if EndByCrlf(buffer) {
          r.bytes := Some(buffer[..l - 2]);
          EndCurrent(r);
        } else {
          r.status := Bad;
        }
      }
    }

    /** The last of `rcs` is pushed first. */
    method PushAll(rcs: seq<Command>)
      modifies this`stack
      ensures stack == old(stack) + Reverse(rcs)
    {
      var j := |rcs|;
      while j > 0
        invariant 0 <= j <= |rcs| && stack == old(stack) + Reverse(rcs[j..])
      {
        j := j - 1;
        assert rcs[j..][1..] == rcs[j + 1..];
        stack := stack + [rcs[j]];
      }
      assert rcs[0..] == rcs;
    }

    /** The first of the new commands is the current one from now on. */
    ghost method Enter(h: Above, r: Command, rcs: seq<Command>)
      requires Opened(h, r, rcs) && rcs != [] && redisCommand == Top(h, r) && stack == StackOf(h) + [r] + Reverse(rcs)
      modifies this`phase
      ensures Valid() && Commands() == AboveNodes(h) + {r} + (set x | x in rcs)
      ensures Abs() == Running(Arr(CtxOf(h), [], |rcs| - 1), NewCmd, buffer, argLen)
    {
      FirstChild(h, r, rcs);
      phase := Working(Array(h, r, Nil, rcs[1..]), rcs[0]);
    }

    /** A new array of `n` commands: they all go on the stack, the first one on top. */
    method OpenArray(r: Command, n: nat)
      requires Valid() && phase.Working? && phase.cur == r && r.kind.Multi? && r.status.UntilCrlf?
      modifies this`stack, this`phase, r`status, r`commands
      ensures Valid() && Commands() >= old(Commands()) && (forall x :: x in Commands() && x !in old(Commands()) ==> fresh(x))
      ensures Abs() == if n == 0 then Running(old(CtxOf(phase.above)), ArrayOf(Open, []), buffer, argLen)
                       else Running(Arr(old(CtxOf(phase.above)), [], n - 1), NewCmd, buffer, argLen)
    {
      ghost var h := phase.above;
      assert allocated(AboveNodes(h));
      var rcs := Populate(r, n, h);
      PushAll(rcs);
      if n > 0 { Enter(h, r, rcs); }
    }

    /** A line that is a number, for a bulk. */
    method BulkLength(r: Command, i: int)
      requires Valid() && phase.Working? && phase.cur == r && r.status.UntilCrlf? && r.kind.Bulk?
      modifies this`stack, this`phase, this`argLen, r`bytes, r`status, AboveNodes(phase.above)`status
      ensures Valid() && Commands() == old(Commands())
      ensures Abs() == if i < 0 then Finish(old(CtxOf(phase.above)), old(Cmd(Bulk, End, r.num, None, [])), buffer, old(argLen))
                       else Running(old(CtxOf(phase.above)), old(Cmd(Bulk, FixedLen, r.num, r.bytes, [])), buffer, i)
    {
      if i < 0 {
        r.bytes := None;
        EndCurrent(r);
      } else {
        argLen := i;
        r.status := FixedLen;
      }
    }

    /** A complete line. A negative array count makes `make` panic. */
    method LineEnd(r: Command, line: seq<byte>) returns (panicked: bool)
      requires Valid() && phase.Working? && phase.cur == r && r.status.UntilCrlf? && buffer == []
      modifies this`stack, this`phase, this`argLen, r, AboveNodes(phase.above)`status
      ensures var m := LineDone(old(CtxOf(phase.above)), old(Cmd(r.kind, UntilCrlf, r.num, r.bytes, [])), line, old(argLen));
        (panicked <==> m.Panicked?) && (!panicked ==> Valid() && Abs() == m)
      ensures !panicked ==> Commands() >= old(Commands()) && (forall x :: x in Commands() && x !in old(Commands()) ==> fresh(x))
    {
      panicked := false;
      if r.kind == StatusLine || r.kind == ErrorLine || r.kind == Unknown {
        r.bytes := Some(line);
        EndCurrent(r);
      } else {
        var i := Atoi(line);
        if i.Some? {
          if r.kind == Integer {
            r.num := i.value;
            EndCurrent(r);
          } else if r.kind == Bulk {
            BulkLength(r, i.value);
          } else if i.value < 0 {
            panicked := true;
          } else {
            OpenArray(r, i.value);
          }
        }
      }
    }

    method ParseUntilCrlf(b: byte, r: Command) returns (panicked: bool)
      requires Valid() && phase.Working? && phase.cur == r && r.status.UntilCrlf?
      modifies this`stack, this`phase, this`argLen, this`buffer, r, AboveNodes(phase.above)`status
      ensures var m := Step(old(Abs()), b); (panicked <==> m.Panicked?) && (!panicked ==> Valid() && Abs() == m)
      ensures !panicked ==> Commands() >= old(Commands()) && (forall x :: x in Commands() && x !in old(Commands()) ==> fresh(x))
    {
      panicked := false;
      ghost var ctx, cur := CtxOf(phase.above), Cmd(r.kind, r.status, r.num, r.bytes, []);
      ghost var all := Commands();
      buffer := buffer + [b];
      if EndByCrlf(buffer) {
        var line := buffer[..|buffer| - 2];
        assert Step(old(Abs()), b) == LineDone(ctx, cur, line, argLen);
        buffer := [];
        assert Commands() == all;
        panicked := LineEnd(r, line);
      } else {
        assert Step(old(Abs()), b) == Running(ctx, cur, buffer, argLen) && Commands() == all;
      }
    }

    /** The body of Write's loop: one byte for the command on top of the stack. */
    method WriteByte(b: byte) returns (panicked: bool)
      requires Valid() && stack != []
      modifies this, Commands()
      ensures var m := Step(old(Abs()), b); (panicked <==> m.Panicked?) && (!panicked ==> Valid() && Abs() == m)
      ensures !panicked ==> (forall x :: x in Commands() && x !in old(Commands()) ==> fresh(x))
    {
      panicked := false;
      var r := stack[|stack| - 1];
      assert phase.Working? && r == phase.cur;
      match r.status {
        case Start => ParseStart(b, r);
        case UntilCrlf => panicked := ParseUntilCrlf(b, r);
        case FixedLen =>
          ParseFixedLen(b, r);
          if r.status == Bad {
            TopAmong(phase.above, phase.cur);
            stack := [];
            redisCommand.status := Bad;
            phase := Broke;
          }
        case _ =>
      }
    }

    /** Write: takes bytes until the command is over, and says how many it took. */
    method Write(bs: seq<byte>) returns (n: nat, panicked: bool)
      requires Valid()
      modifies this, Commands()
      ensures panicked <==> Feed(old(Abs()), bs).0.Panicked?
      ensures !panicked ==> Valid() && (Abs(), n) == Feed(old(Abs()), bs)
      ensures !panicked ==> (forall x :: x in Commands() && x !in old(Commands()) ==> fresh(x))
    {
      n, panicked := 0, false;
      ghost var m0, all := Abs(), Commands();
      while n < |bs| && |stack| != 0
        invariant n <= |bs| && Valid() && (forall x :: x in Commands() && x !in all ==> fresh(x))
        invariant Feed(m0, bs).0 == Feed(Abs(), bs[n..]).0 && Feed(m0, bs).1 == n + Feed(Abs(), bs[n..]).1
      {
        FeedNext(Abs(), bs, n);
        panicked := WriteByte(bs[n]);
        if panicked { return; }
        n := n + 1;
      }
    }

    /** GetCommand: the command, once nothing is left on the stack. */
    method GetCommand() returns (c: Command?)
      requires Valid()
      ensures c == if stack == [] then redisCommand else null
      ensures c == null <==> Abs().Running?
      ensures Abs().Over? ==> c != null && c.kind == Abs().cmd.kind && c.status == Abs().cmd.state && c.num == Abs().cmd.num && c.bytes == Abs().cmd.bytes
      ensures Abs().Failed? ==> c != null && c.status == Bad
    {
      c := if stack == [] then redisCommand else null;
    }
  }
}
