/** The Redis reply/command parser as a machine on values: one byte at a time, an explicit
    context of open arrays, and the decoder a whole stream defines. */
module RespSpec {
  type byte = b: int | 0 <= b < 256

  datatype Option<+A> = None | Some(value: A)

  /** go/src/redisparser/parser.go: RC_TYPE_* and _SM_*. */
  datatype Kind = StatusLine | ErrorLine | Bulk | Integer | Multi | Unknown
  datatype State = Start | UntilCrlf | FixedLen | Open | End | Bad

  /** A command as the parser leaves it; `bytes` is None where the source has nil. */
  datatype Cmd = Cmd(kind: Kind, state: State, num: int, bytes: Option<seq<byte>>, kids: seq<Cmd>)

  const NewCmd := Cmd(Unknown, Start, 0, None, [])

  /** Open arrays around the current node, innermost first: the children that have ended, and
      how many to the right of the current one have not begun. */
  datatype Ctx = Root | Arr(up: Ctx, done: seq<Cmd>, later: nat)

  function ArrayOf(state: State, kids: seq<Cmd>): Cmd { Cmd(Multi, state, 0, None, kids) }

  datatype Machine =
    | Running(ctx: Ctx, cur: Cmd, buffer: seq<byte>, argLen: int)
    | Over(cmd: Cmd)
    | Failed
    | Panicked

  const NewMachine := Running(Root, NewCmd, [], 0)

  const CR: byte := 13
  const LF: byte := 10

  predicate EndByCrlf(s: seq<byte>) { |s| >= 2 && s[|s| - 2] == CR && s[|s| - 1] == LF }

  // ---------- strconv.Atoi ----------

  const MaxInt := 0x7fff_ffff_ffff_ffff
  const Zero: byte := 48

  predicate IsDigit(b: byte) { Zero <= b < Zero + 10 }

  /** The value of a run of decimal digits; None for anything else, and for the empty run. */
  function Digits(s: seq<byte>): Option<nat> {
    if s == [] || !IsDigit(s[|s| - 1]) then None
    else if |s| == 1 then Some(s[|s| - 1] - Zero)
    else match Digits(s[..|s| - 1])
         case None => None
         case Some(v) => Some(10 * v + (s[|s| - 1] - Zero))
  }

  /** An optional sign, then digits, within the range of a 64-bit int. */
  function Atoi(s: seq<byte>): Option<int> {
    var neg := s != [] && s[0] == 45;
    var body := if s != [] && (s[0] == 45 || s[0] == 43) then s[1..] else s;
    match Digits(body)
    case None => None
    case Some(v) =>
      var i: int := if neg then 0 - v else v;
      if -MaxInt - 1 <= i <= MaxInt then Some(i) else None
  }

  // ---------- One byte ----------

  function KindOf(b: byte): Kind {
    if b == 43 then StatusLine
    else if b == 45 then ErrorLine
    else if b == 36 then Bulk
    else if b == 58 then Integer
    else if b == 42 then Multi
    else Unknown
  }

  /** `c` has ended: so do the arrays it was the last child of; then the next sibling, if any. */
  function Finish(ctx: Ctx, c: Cmd, buffer: seq<byte>, argLen: int): Machine {
    match ctx
    case Root => Over(c)
    case Arr(up, done, later) =>
      if later > 0 then Running(Arr(up, done + [c], later - 1), NewCmd, buffer, argLen)
      else Finish(up, ArrayOf(End, done + [c]), buffer, argLen)
  }

  /** A complete line, without its CRLF. A number that does not parse restarts the line. */
  function LineDone(ctx: Ctx, cur: Cmd, line: seq<byte>, argLen: int): Machine {
    var again := Running(ctx, cur, [], argLen);
    match cur.kind
    case Integer => (
      match Atoi(line)
      case None => again
      case Some(i) => Finish(ctx, cur.(num := i, state := End), [], argLen))
    case Bulk => (
      match Atoi(line)
      case None => again
      case Some(i) =>
        if i < 0 then Finish(ctx, cur.(bytes := None, state := End), [], argLen)
        else Running(ctx, cur.(state := FixedLen), [], i))
    case Multi => (
      match Atoi(line)
      case None => again
      case Some(i) =>
        if i < 0 then Panicked
        else if i == 0 then Running(ctx, cur.(state := Open), [], argLen)
        else Running(Arr(ctx, [], i - 1), NewCmd, [], argLen))
    case _ => Finish(ctx, cur.(bytes := Some(line), state := End), [], argLen)
  }

  function Step(m: Machine, b: byte): Machine
    requires m.Running?
  {
    var Running(ctx, cur, buffer, argLen) := m;
    var grown := buffer + [b];
    match cur.state
    case Start => Running(ctx, cur.(kind := KindOf(b), state := UntilCrlf), [], argLen)
    case UntilCrlf =>
      if EndByCrlf(grown) then LineDone(ctx, cur, grown[..|grown| - 2], argLen)
      else Running(ctx, cur, grown, argLen)
    case FixedLen =>
      if |grown| != argLen + 2 then Running(ctx, cur, grown, argLen)
      else if EndByCrlf(grown) then
        Finish(ctx, cur.(bytes := Some(grown[..|grown| - 2]), state := End), grown, argLen)
      else Failed
    case _ => m
  }

  // ---------- A slice of bytes ----------

  /** The machine after the bytes it takes, and how many it takes. */
  function Feed(m: Machine, bs: seq<byte>): (r: (Machine, nat))
    ensures r.1 <= |bs|
    ensures r.0.Running? ==> r.1 == |bs|
    ensures m.Running? && bs != [] ==> r.1 > 0
    ensures !m.Running? ==> r == (m, 0)
    decreases |bs|
  {
    if !m.Running? || bs == [] then (m, 0)
    else
      var (m', n) := Feed(Step(m, bs[0]), bs[1..]);
      (m', n + 1)
  }

  /** Taking the bytes from index `n` on, one at a time. */
  lemma {:induction false} FeedNext(m: Machine, bs: seq<byte>, n: nat)
    requires m.Running? && n < |bs|
    ensures Feed(m, bs[n..]) == var (m', k) := Feed(Step(m, bs[n]), bs[n + 1..]); (m', k + 1)
  {
    assert bs[n..][0] == bs[n] && bs[n..][1..] == bs[n + 1..];
  }

  /** Two writes are one write of the two slices together: same state, same count. */
  lemma {:induction false} FeedSplit(m: Machine, a: seq<byte>, b: seq<byte>)
    ensures var (m1, n1) := Feed(m, a); var (m2, n2) := Feed(m1, b);
      Feed(m, a + b) == (m2, n1 + n2)
    decreases |a|
  {
    if a == [] {
      assert a + b == b;
    } else if m.Running? {
      assert (a + b)[1..] == a[1..] + b;
      FeedSplit(Step(m, a[0]), a[1..], b);
    }
  }

  /** What the bytes after the last one taken are does not matter. */
  lemma {:induction false} FeedTaken(m: Machine, s: seq<byte>)
    ensures Feed(m, s[..Feed(m, s).1]) == Feed(m, s)
    decreases |s|
  {
    if m.Running? && s != [] {
      var n := Feed(m, s).1;
      assert s[..n][1..] == s[1..][..n - 1];
      FeedTaken(Step(m, s[0]), s[1..]);
    }
  }

  // ---------- The stream decoder ----------

  datatype Item = Got(cmd: Cmd) | Broken

  /** Every command of a stream, one parser after the other. */
  function Decode(m: Machine, s: seq<byte>): seq<Item>
    decreases |s|
  {
    if !m.Running? || s == [] then [] else
    var (m', n) := Feed(m, s);
    match m'
    case Over(cmd) => [Got(cmd)] + Decode(NewMachine, s[n..])
    case Failed => [Broken] + Decode(NewMachine, s[n..])
    case _ => []
  }

  // ---------- The command tree ----------

  /** The whole tree as it stands: unstarted siblings are new commands. */
  function Whole(ctx: Ctx, c: Cmd): Cmd {
    match ctx
    case Root => c
    case Arr(up, done, later) => Whole(up, ArrayOf(Open, done + [c] + seq(later, i => NewCmd)))
  }

  ghost predicate AllEnded(c: Cmd) {
    c.state.End? && forall k :: k in c.kids ==> AllEnded(k)
  }

  ghost predicate CtxOk(ctx: Ctx) {
    match ctx
    case Root => true
    case Arr(up, done, _) => CtxOk(up) && forall k :: k in done ==> AllEnded(k)
  }

  /** What holds after any bytes: ended children are ended through and through, the current node
      has none yet, and only `*0` leaves an array current. */
  ghost predicate Reachable(m: Machine) {
    match m
    case Running(ctx, cur, _, argLen) =>
      && CtxOk(ctx) && cur.kids == [] && !cur.state.End? && !cur.state.Bad?
      && (cur.state.FixedLen? ==> cur.kind.Bulk? && argLen >= 0) && (cur.state.Open? ==> cur.kind.Multi?)
    case Over(cmd) => AllEnded(cmd)
    case _ => true
  }

  lemma {:induction false} FinishReachable(ctx: Ctx, c: Cmd, buffer: seq<byte>, argLen: int)
    requires CtxOk(ctx) && AllEnded(c)
    ensures Reachable(Finish(ctx, c, buffer, argLen))
  {
    match ctx
    case Root =>
    case Arr(up, done, later) =>
      if later == 0 { FinishReachable(up, ArrayOf(End, done + [c]), buffer, argLen); }
  }

  lemma {:induction false} StepReachable(m: Machine, b: byte)
    requires m.Running? && Reachable(m)
    ensures Reachable(Step(m, b))
  {
    var Running(ctx, cur, buffer, argLen) := m;
    forall c: Cmd, buf: seq<byte> | c.state.End? && c.kids == [] ensures Reachable(Finish(ctx, c, buf, argLen)) {
      FinishReachable(ctx, c, buf, argLen);
    }
  }

  /** On every byte sequence from a new parser. */
  lemma {:induction false} FeedReachable(m: Machine, bs: seq<byte>)
    requires Reachable(m)
    ensures Reachable(Feed(m, bs).0)
    decreases |bs|
  {
    if m.Running? && bs != [] {
      StepReachable(m, bs[0]);
      FeedReachable(Step(m, bs[0]), bs[1..]);
    }
  }

  lemma {:induction false} WholeEnded(ctx: Ctx, c: Cmd)
    requires !AllEnded(c)
    ensures !AllEnded(Whole(ctx, c))
  {
    match ctx
    case Root =>
    case Arr(up, done, later) =>
      var a := ArrayOf(Open, done + [c] + seq(later, i => NewCmd));
      assert c in a.kids;
      WholeEnded(up, a);
  }

  /** The parser is over exactly when every node of its command tree has ended. */
  lemma {:induction false} OverWhenAllEnded(bs: seq<byte>)
    ensures var m := Feed(NewMachine, bs).0;
      && (m.Running? ==> !AllEnded(Whole(m.ctx, m.cur)))
      && (m.Over? ==> AllEnded(m.cmd))
  {
    FeedReachable(NewMachine, bs);
    var m := Feed(NewMachine, bs).0;
    if m.Running? { WholeEnded(m.ctx, m.cur); }
  }
}
