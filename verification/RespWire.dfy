/** go/src/dial/redis/wrap.go: printing a command, and reading it back. */
module RespWire {
  import opened RespSpec

  const Crlf: seq<byte> := [CR, LF]

  /** `%d` for a number that is not negative. */
  function Itoa(n: nat): seq<byte>
  {
    if n < 10 then [Zero + n] else Itoa(n / 10) + [Zero + n % 10]
  }

  function Decimal(i: int): seq<byte> { if i < 0 then [45] + Itoa(-i) else Itoa(i) }

  function WrapBulk(bs: Option<seq<byte>>): seq<byte> {
    match bs
    case None => [36] + Decimal(-1) + Crlf
    case Some(b) => [36] + Decimal(|b|) + Crlf + b + Crlf
  }

  function Bulks(args: seq<Option<seq<byte>>>): seq<byte> {
    if args == [] then [] else WrapBulk(args[0]) + Bulks(args[1..])
  }

  lemma {:induction false} BulksSnoc(args: seq<Option<seq<byte>>>, a: Option<seq<byte>>)
    ensures Bulks(args + [a]) == Bulks(args) + WrapBulk(a)
  {
    if args == [] {
      assert Bulks([a]) == WrapBulk(a) + Bulks([]);
    } else {
      assert (args + [a])[1..] == args[1..] + [a];
      BulksSnoc(args[1..], a);
    }
  }

  lemma {:induction false} AppendBulk(header: seq<byte>, argv: seq<Option<seq<byte>>>, i: nat)
    requires i < |argv|
    ensures header + Bulks(argv[..i]) + WrapBulk(argv[i]) == header + Bulks(argv[..i + 1])
  {
    assert argv[..i + 1] == argv[..i] + [argv[i]];
    BulksSnoc(argv[..i], argv[i]);
  }

  /** The printer appends one bulk at a time. An `argn` above the number of arguments would index
      past the end of `argv`. */
  method WrapMulitBulk(argn: int, argv: seq<Option<seq<byte>>>) returns (wc: seq<byte>)
    requires argn <= |argv|
    ensures wc == [42] + Decimal(argn) + Crlf + Bulks(argv[..if argn < 0 then 0 else argn])
  {
    wc := [42] + Decimal(argn) + Crlf;
    ghost var header := wc;
    var i := 0;
    while i < argn
      invariant 0 <= i && (i <= argn || i == 0)
      invariant wc == header + Bulks(argv[..i])
    {
      AppendBulk(header, argv, i);
      wc := wc + WrapBulk(argv[i]);
      i := i + 1;
    }
  }

  // ---------- Numbers ----------

  lemma {:induction false} ItoaDigits(n: nat)
    ensures Itoa(n) != [] && Digits(Itoa(n)) == Some(n)
    ensures forall b :: b in Itoa(n) ==> IsDigit(b)
  {
    if n >= 10 {
      ItoaDigits(n / 10);
      var s := Itoa(n);
      assert s[..|s| - 1] == Itoa(n / 10);
    }
  }

  /** Digits without a leading zero, unless it is the only one. */
  predicate Canonical(s: seq<byte>) {
    s != [] && (forall i :: 0 <= i < |s| ==> IsDigit(s[i])) && (s[0] == Zero ==> |s| == 1)
  }

  lemma {:induction false} ItoaCanonical(n: nat)
    ensures Canonical(Itoa(n))
  {
    if n >= 10 {
      ItoaCanonical(n / 10);
      assert Itoa(n)[0] == Itoa(n / 10)[0];
      if Itoa(n / 10)[0] == Zero { ItoaDigits(n / 10); }
    }
  }

  /** `%d` prints the digits of a number without a leading zero, after a minus sign if it is negative. */
  lemma {:induction false} DecimalCanonical(i: int)
    ensures i >= 0 ==> Canonical(Decimal(i)) && Digits(Decimal(i)) == Some(i)
    ensures i < 0 ==> Decimal(i)[..1] == [45] && Canonical(Decimal(i)[1..]) && Digits(Decimal(i)[1..]) == Some(-i)
  {
    var n := if i < 0 then -i else i;
    ItoaDigits(n); ItoaCanonical(n);
    if i < 0 { assert Decimal(i)[1..] == Itoa(n); }
  }

  /** No other digits do: only one such form has the value n. */
  lemma {:induction false} CanonicalUnique(s: seq<byte>, n: nat)
    requires Canonical(s) && Digits(s) == Some(n)
    ensures s == Decimal(n)
  {
    if |s| > 1 {
      var init := s[..|s| - 1];
      var v := Digits(init).value;
      assert init[0] == s[0];
      CanonicalUnique(init, v);
      assert v == 0 ==> Decimal(v) == [Zero];
      assert s == init + [s[|s| - 1]];
    }
  }

  /** The bytes of a printed bulk. */
  lemma BulkBytes(arg: Option<seq<byte>>)
    ensures arg.None? ==> WrapBulk(arg) == [36, 45, 49, 13, 10]
    ensures arg.Some? ==> WrapBulk(arg) == [36] + Decimal(|arg.value|) + [13, 10] + arg.value + [13, 10]
  {
    assert Itoa(1) == [49];
  }

  /** What strconv.Atoi makes of a run of digits, with a sign or without. */
  lemma {:induction false} AtoiForms(d: seq<byte>, n: nat)
    requires Digits(d) == Some(n)
    ensures Atoi(d) == Atoi([43] + d) == if n <= MaxInt then Some(n) else None
    ensures n <= MaxInt + 1 ==> var m: int := 0 - n; Atoi([45] + d) == Some(m)
    ensures n > MaxInt + 1 ==> Atoi([45] + d) == None
  {
    FirstDigit(d);
    assert ([43] + d)[1..] == d && ([45] + d)[1..] == d;
  }

  lemma {:induction false} FirstDigit(d: seq<byte>)
    requires Digits(d).Some?
    ensures IsDigit(d[0])
  {
    if |d| > 1 { FirstDigit(d[..|d| - 1]); }
  }

  /** Every 64-bit number reads back from its decimal form. */
  lemma {:induction false} AtoiDecimal(i: int)
    requires -MaxInt - 1 <= i <= MaxInt
    ensures Atoi(Decimal(i)) == Some(i) && CR !in Decimal(i)
  {
    var n := if i < 0 then -i else i;
    ItoaDigits(n);
    AtoiForms(Itoa(n), n);
  }

  /** And nothing else is a number. */
  lemma {:induction false} AtoiOnly(s: seq<byte>)
    requires Atoi(s).Some?
    ensures exists d: seq<byte> :: Digits(d).Some? && (s == d || s == [43] + d || s == [45] + d)
  {
    if s != [] && (s[0] == 45 || s[0] == 43) {
      assert s == [s[0]] + s[1..];
      assert Digits(s[1..]).Some?;
    } else {
      assert Digits(s).Some?;
    }
  }

  /** A run of digits is a number, by its digits. */
  lemma {:induction false} DigitsOf(s: seq<byte>)
    ensures Digits(s).Some? <==> s != [] && forall i :: 0 <= i < |s| ==> IsDigit(s[i])
    ensures Digits(s).Some? && |s| > 1 ==> Digits(s[..|s| - 1]).Some? && Digits(s).value == 10 * Digits(s[..|s| - 1]).value + (s[|s| - 1] - Zero)
  {
    if |s| > 1 { DigitsOf(s[..|s| - 1]); }
  }

  // ---------- Reading back ----------

  /** `m`, having taken `n` bytes already, goes on with `rest`. */
  function Resume(m: Machine, n: nat, rest: seq<byte>): (Machine, nat) {
    var (m', k) := Feed(m, rest);
    (m', n + k)
  }

  /** No CRLF inside. */
  predicate Line(s: seq<byte>) { forall i :: 0 <= i < |s| - 1 ==> !(s[i] == CR && s[i + 1] == LF) }

  lemma {:induction false} FeedLine(ctx: Ctx, cur: Cmd, buffer: seq<byte>, argLen: int, line: seq<byte>, rest: seq<byte>)
    requires cur.state.UntilCrlf? && Line(buffer + line)
    ensures Feed(Running(ctx, cur, buffer, argLen), line + Crlf + rest)
         == Resume(LineDone(ctx, cur, buffer + line, argLen), |line| + 2, rest)
    decreases |line|
  {
    var m, s := Running(ctx, cur, buffer, argLen), line + Crlf + rest;
    if line == [] {
      assert s[0] == CR && s[1..][0] == LF && s[1..][1..] == rest;
      var m1 := Running(ctx, cur, buffer + [CR], argLen);
      assert Step(m, CR) == m1;
      assert (buffer + [CR] + [LF])[..|buffer|] == buffer + line;
      assert Step(m1, LF) == LineDone(ctx, cur, buffer + line, argLen);
    } else {
      var all := buffer + line;
      assert s[0] == line[0] && s[1..] == line[1..] + Crlf + rest;
      assert buffer + [line[0]] + line[1..] == all && (buffer + [line[0]]) == all[..|buffer| + 1];
      FeedLine(ctx, cur, buffer + [line[0]], argLen, line[1..], rest);
    }
  }

  /** The body of a bulk and the two bytes after it, which must be CR LF. */
  lemma {:induction false} FeedFixed(ctx: Ctx, cur: Cmd, buffer: seq<byte>, argLen: int, body: seq<byte>, x: byte, y: byte, rest: seq<byte>)
    requires cur.state.FixedLen? && |buffer| + |body| == argLen
    ensures Feed(Running(ctx, cur, buffer, argLen), body + [x, y] + rest)
         == Resume(if x == CR && y == LF
                   then Finish(ctx, cur.(bytes := Some(buffer + body), state := End), buffer + body + Crlf, argLen)
                   else Failed, |body| + 2, rest)
    decreases |body|
  {
    var m, s := Running(ctx, cur, buffer, argLen), body + [x, y] + rest;
    if body == [] {
      assert s[0] == x && s[1..][0] == y && s[1..][1..] == rest;
      var m1 := Running(ctx, cur, buffer + [x], argLen);
      assert Step(m, x) == m1;
      var full := buffer + [x] + [y];
      assert full == buffer + body + [x, y] && full[..|full| - 2] == buffer + body;
    } else {
      assert s[0] == body[0] && s[1..] == body[1..] + [x, y] + rest;
      assert buffer + [body[0]] + body[1..] == buffer + body;
      FeedFixed(ctx, cur, buffer + [body[0]], argLen, body[1..], x, y, rest);
    }
  }

  function Begun(b: byte): Cmd { NewCmd.(kind := KindOf(b), state := UntilCrlf) }

  /** A type byte and the line after it. */
  lemma {:induction false} FeedTyped(ctx: Ctx, buffer: seq<byte>, argLen: int, b: byte, line: seq<byte>, rest: seq<byte>)
    requires Line(line)
    ensures Feed(Running(ctx, NewCmd, buffer, argLen), [b] + line + Crlf + rest)
         == Resume(LineDone(ctx, Begun(b), line, argLen), |line| + 3, rest)
  {
    var s := [b] + line + Crlf + rest;
    assert s[0] == b && s[1..] == line + Crlf + rest;
    assert Step(Running(ctx, NewCmd, buffer, argLen), b) == Running(ctx, Begun(b), [], argLen);
    assert [] + line == line;
    FeedLine(ctx, Begun(b), [], argLen, line, rest);
  }

  /** A type byte and a number. */
  lemma {:induction false} FeedNumber(ctx: Ctx, buffer: seq<byte>, argLen: int, b: byte, i: int, rest: seq<byte>)
    requires -MaxInt - 1 <= i <= MaxInt
    ensures Feed(Running(ctx, NewCmd, buffer, argLen), [b] + Decimal(i) + Crlf + rest)
         == Resume(LineDone(ctx, Begun(b), Decimal(i), argLen), |Decimal(i)| + 3, rest)
    ensures Atoi(Decimal(i)) == Some(i)
  {
    AtoiDecimal(i);
    assert Line(Decimal(i));
    FeedTyped(ctx, buffer, argLen, b, Decimal(i), rest);
  }

  function BulkCmd(arg: Option<seq<byte>>): Cmd { Cmd(Bulk, End, 0, arg, []) }

  predicate Fits(arg: Option<seq<byte>>) { arg.Some? ==> |arg.value| <= MaxInt }

  /** A bulk of the announced length, with whatever two bytes after it. */
  lemma {:induction false} FeedBody(ctx: Ctx, buffer: seq<byte>, argLen: int, body: seq<byte>, x: byte, y: byte, rest: seq<byte>)
    requires |body| <= MaxInt
    ensures var enc := [36] + Decimal(|body|) + Crlf + body + [x, y];
      Feed(Running(ctx, NewCmd, buffer, argLen), enc + rest)
         == Resume(if x == CR && y == LF then Finish(ctx, BulkCmd(Some(body)), body + Crlf, |body|) else Failed, |enc|, rest)
  {
    var head, tail := [36] + Decimal(|body|) + Crlf, body + [x, y];
    assert head + body + [x, y] + rest == head + (tail + rest);
    FeedNumber(ctx, buffer, argLen, 36, |body|, tail + rest);
    FeedFixed(ctx, Begun(36).(state := FixedLen), [], |body|, body, x, y, rest);
    assert [] + body == body;
  }

  /** A printed bulk is taken whole, and is the bulk that was printed. */
  lemma {:induction false} FeedBulk(ctx: Ctx, buffer: seq<byte>, argLen: int, arg: Option<seq<byte>>, rest: seq<byte>)
    returns (buffer': seq<byte>, argLen': int)
    requires Fits(arg)
    ensures Feed(Running(ctx, NewCmd, buffer, argLen), WrapBulk(arg) + rest)
         == Resume(Finish(ctx, BulkCmd(arg), buffer', argLen'), |WrapBulk(arg)|, rest)
  {
    match arg
    case None =>
      FeedNumber(ctx, buffer, argLen, 36, -1, rest);
      buffer', argLen' := [], argLen;
    case Some(b) =>
      assert Crlf == [CR, LF];
      FeedBody(ctx, buffer, argLen, b, CR, LF, rest);
      buffer', argLen' := b + Crlf, |b|;
  }

  // ---------- Lines that go wrong ----------

  /** A bulk whose announced length is not followed by CRLF is an error, wherever it stands. */
  lemma {:induction false} BulkWithoutCrlf(ctx: Ctx, buffer: seq<byte>, argLen: int, body: seq<byte>, x: byte, y: byte, rest: seq<byte>)
    requires |body| <= MaxInt && !(x == CR && y == LF)
    ensures var enc := [36] + Decimal(|body|) + Crlf + body + [x, y];
      Feed(Running(ctx, NewCmd, buffer, argLen), enc + rest) == (Failed, |enc|)
  {
    FeedBody(ctx, buffer, argLen, body, x, y, rest);
  }

  /** A line that should be a number and is not starts over. */
  lemma {:induction false} NotANumber(ctx: Ctx, buffer: seq<byte>, argLen: int, b: byte, line: seq<byte>, rest: seq<byte>)
    requires (b == 58 || b == 36 || b == 42) && Line(line) && Atoi(line) == None
    ensures Feed(Running(ctx, NewCmd, buffer, argLen), [b] + line + Crlf + rest)
         == Resume(Running(ctx, Begun(b), [], argLen), |line| + 3, rest)
  {
    FeedTyped(ctx, buffer, argLen, b, line, rest);
  }

  /** A negative array count panics. */
  lemma {:induction false} NegativeCount(ctx: Ctx, buffer: seq<byte>, argLen: int, i: int, rest: seq<byte>)
    requires -MaxInt - 1 <= i < 0
    ensures Feed(Running(ctx, NewCmd, buffer, argLen), [42] + Decimal(i) + Crlf + rest).0 == Panicked
  {
    FeedNumber(ctx, buffer, argLen, 42, i, rest);
  }

  /** A negative length is a nil bulk, whatever the number. */
  lemma {:induction false} NegativeLength(ctx: Ctx, buffer: seq<byte>, argLen: int, i: int, rest: seq<byte>)
    requires -MaxInt - 1 <= i < 0
    ensures Feed(Running(ctx, NewCmd, buffer, argLen), [36] + Decimal(i) + Crlf + rest)
         == Resume(Finish(ctx, BulkCmd(None), [], argLen), |Decimal(i)| + 3, rest)
  {
    FeedNumber(ctx, buffer, argLen, 36, i, rest);
  }

  /** Any other type byte makes its line a command of unknown type. */
  lemma {:induction false} UnknownType(ctx: Ctx, buffer: seq<byte>, argLen: int, b: byte, line: seq<byte>, rest: seq<byte>)
    requires b != 43 && b != 45 && b != 36 && b != 58 && b != 42 && Line(line)
    ensures Feed(Running(ctx, NewCmd, buffer, argLen), [b] + line + Crlf + rest)
         == Resume(Finish(ctx, Cmd(Unknown, End, 0, Some(line), []), [], argLen), |line| + 3, rest)
  {
    FeedTyped(ctx, buffer, argLen, b, line, rest);
  }

  // ---------- Whole command trees ----------

  /** What the protocol can say: lines without CRLF inside, 64-bit numbers, bulks, and arrays of one
      element or more, nested to any depth. */
  predicate Sayable(c: Cmd)
    decreases c
  {
    c.state.End? &&
    match c.kind
    case StatusLine => c.num == 0 && c.kids == [] && c.bytes.Some? && Line(c.bytes.value)
    case ErrorLine => c.num == 0 && c.kids == [] && c.bytes.Some? && Line(c.bytes.value)
    case Integer => c.bytes == None && c.kids == [] && -MaxInt - 1 <= c.num <= MaxInt
    case Bulk => c.num == 0 && c.kids == [] && Fits(c.bytes)
    case Multi => c.num == 0 && c.bytes == None && 1 <= |c.kids| <= MaxInt && forall k :: k in c.kids ==> Sayable(k)
    case Unknown => false
  }

  function Say(c: Cmd): seq<byte>
    decreases c, |c.kids| + 1
  {
    var text := if c.bytes.Some? then c.bytes.value else [];
    match c.kind
    case StatusLine => [43] + text + Crlf
    case ErrorLine => [45] + text + Crlf
    case Integer => [58] + Decimal(c.num) + Crlf
    case Bulk => WrapBulk(c.bytes)
    case Multi => [42] + Decimal(|c.kids|) + Crlf + SayFrom(c, 0)
    case Unknown => []
  }

  /** The elements of an array from the i-th on. */
  function SayFrom(c: Cmd, i: nat): seq<byte>
    requires i <= |c.kids|
    decreases c, |c.kids| - i
  {
    if i == |c.kids| then [] else Say(c.kids[i]) + SayFrom(c, i + 1)
  }

  lemma {:induction false} FeedLeaf(ctx: Ctx, buffer: seq<byte>, argLen: int, c: Cmd, rest: seq<byte>)
    returns (buffer': seq<byte>, argLen': int)
    requires Sayable(c) && !c.kind.Multi?
    ensures Feed(Running(ctx, NewCmd, buffer, argLen), Say(c) + rest)
         == Resume(Finish(ctx, c, buffer', argLen'), |Say(c)|, rest)
  {
    buffer', argLen' := [], argLen;
    match c.kind
    case StatusLine => FeedTyped(ctx, buffer, argLen, 43, c.bytes.value, rest);
    case ErrorLine => FeedTyped(ctx, buffer, argLen, 45, c.bytes.value, rest);
    case Integer => FeedNumber(ctx, buffer, argLen, 58, c.num, rest);
    case Bulk => buffer', argLen' := FeedBulk(ctx, buffer, argLen, c.bytes, rest);
  }

  /** The number line of an array of one element or more opens it. */
  lemma {:induction false} FeedOpen(ctx: Ctx, buffer: seq<byte>, argLen: int, n: int, rest: seq<byte>)
    requires 1 <= n <= MaxInt
    ensures Feed(Running(ctx, NewCmd, buffer, argLen), [42] + Decimal(n) + Crlf + rest)
         == Resume(Running(Arr(ctx, [], n - 1), NewCmd, [], argLen), |Decimal(n)| + 3, rest)
  {
    FeedNumber(ctx, buffer, argLen, 42, n, rest);
  }

  /** From any place in a stream where a command can begin. */
  lemma {:induction false} FeedTree(ctx: Ctx, buffer: seq<byte>, argLen: int, c: Cmd, rest: seq<byte>)
    returns (buffer': seq<byte>, argLen': int)
    requires Sayable(c)
    ensures Feed(Running(ctx, NewCmd, buffer, argLen), Say(c) + rest)
         == Resume(Finish(ctx, c, buffer', argLen'), |Say(c)|, rest)
    decreases c, |c.kids| + 1
  {
    if !c.kind.Multi? {
      buffer', argLen' := FeedLeaf(ctx, buffer, argLen, c, rest);
    } else {
      var head, tail := [42] + Decimal(|c.kids|) + Crlf, SayFrom(c, 0);
      assert Say(c) + rest == head + (tail + rest);
      FeedOpen(ctx, buffer, argLen, |c.kids|, tail + rest);
      buffer', argLen' := FeedKids(ctx, [], argLen, c, 0, rest);
    }
  }

  /** The elements of an array, one after the other, from any of them on. */
  lemma {:induction false} FeedKids(up: Ctx, buffer: seq<byte>, argLen: int, c: Cmd, i: nat, rest: seq<byte>)
    returns (buffer': seq<byte>, argLen': int)
    requires Sayable(c) && c.kind.Multi? && i < |c.kids|
    ensures Feed(Running(Arr(up, c.kids[..i], |c.kids| - 1 - i), NewCmd, buffer, argLen), SayFrom(c, i) + rest)
         == Resume(Finish(up, c, buffer', argLen'), |SayFrom(c, i)|, rest)
    decreases c, |c.kids| - i
  {
    var ctx, k := Arr(up, c.kids[..i], |c.kids| - 1 - i), c.kids[i];
    var first, others := Say(k), SayFrom(c, i + 1);
    assert first + others + rest == first + (others + rest);
    buffer', argLen' := FeedTree(ctx, buffer, argLen, k, others + rest);
    assert c.kids[..i] + [k] == c.kids[..i + 1];
    if i + 1 == |c.kids| {
      assert c.kids[..i + 1] == c.kids && c == ArrayOf(End, c.kids);
      assert others + rest == rest;
    } else {
      buffer', argLen' := FeedKids(up, buffer', argLen', c, i + 1, rest);
    }
  }

  /** Whatever can be said is read back as it was said, and exactly its bytes are taken. */
  lemma {:induction false} TreeRoundTrip(c: Cmd, rest: seq<byte>)
    requires Sayable(c)
    ensures Feed(NewMachine, Say(c) + rest) == (Over(c), |Say(c)|)
  {
    var _, _ := FeedTree(Root, [], 0, c, rest);
  }

  // ---------- What the printer prints ----------

  function BulkCmds(args: seq<Option<seq<byte>>>): seq<Cmd> {
    seq(|args|, i requires 0 <= i < |args| => BulkCmd(args[i]))
  }

  lemma {:induction false} SayBulks(args: seq<Option<seq<byte>>>, i: nat)
    requires i <= |args|
    ensures SayFrom(ArrayOf(End, BulkCmds(args)), i) == Bulks(args[i..])
    decreases |args| - i
  {
    if i < |args| {
      assert args[i..][1..] == args[i + 1..];
      SayBulks(args, i + 1);
    }
  }

  /** Printing then parsing: the encoding is consumed exactly, whatever follows it, and the
      array read back holds the arguments, nil and empty ones included, in order. */
  lemma {:induction false} RoundTrip(args: seq<Option<seq<byte>>>, rest: seq<byte>)
    requires 1 <= |args| <= MaxInt && forall a :: a in args ==> Fits(a)
    ensures var enc := [42] + Decimal(|args|) + Crlf + Bulks(args);
      Feed(NewMachine, enc + rest) == (Over(ArrayOf(End, BulkCmds(args))), |enc|)
  {
    var c := ArrayOf(End, BulkCmds(args));
    forall k | k in c.kids ensures Sayable(k) {
      var i :| 0 <= i < |args| && k == BulkCmd(args[i]);
      assert args[i] in args;
    }
    SayBulks(args, 0);
    assert args[0..] == args;
    TreeRoundTrip(c, rest);
  }

  // ---------- The empty array ----------

  /** An array of no elements is never popped: every later byte is taken and ignored. */
  lemma {:induction false} OpenIsStuck(m: Machine, rest: seq<byte>)
    requires m.Running? && m.cur.state.Open?
    ensures Feed(m, rest) == (m, |rest|)
    decreases |rest|
  {
    if rest != [] { OpenIsStuck(m, rest[1..]); }
  }

  /** So the printer's output reads back exactly when there is an argument. */
  lemma {:induction false} RoundTripExactly(args: seq<Option<seq<byte>>>, rest: seq<byte>)
    requires |args| <= MaxInt && forall a :: a in args ==> Fits(a)
    ensures var enc := [42] + Decimal(|args|) + Crlf + Bulks(args);
      Feed(NewMachine, enc + rest).0.Over? <==> args != []
  {
    if args != [] {
      RoundTrip(args, rest);
    } else {
      var head := [42] + Decimal(0) + Crlf;
      assert head + Bulks(args) + rest == head + rest;
      FeedNumber(Root, [], 0, 42, 0, rest);
      OpenIsStuck(Running(Root, NewCmd.(kind := Multi, state := Open), [], 0), rest);
    }
  }
}
