/** The loop stack of the shell-list collector, and the grammar it accepts. */
module ShellGrammar {

  const MAX_LOOPS := 32

  /** What a list segment contributes: `do` opens a body that may start with
      something else, so a segment has up to two tokens. */
  datatype Token = For | Do | Done | Plain

  /** True for a header that still awaits `do`, false inside a body. */
  type Loops = seq<bool>

  predicate Awaiting(loops: Loops) {
    loops != [] && loops[|loops| - 1]
  }

  function Pop(loops: Loops): Loops
    requires loops != []
  {
    loops[..|loops| - 1]
  }

  /** One token on the stack, or no stack at all when it is out of place. */
  function Push(loops: Loops, t: Token): (r: (bool, Loops))
  {
    if t.Do? then (if Awaiting(loops) then (true, Pop(loops) + [false]) else (false, []))
    else if Awaiting(loops) then (false, [])
    else if t.For? then (if |loops| >= MAX_LOOPS then (false, []) else (true, loops + [true]))
    else if t.Done? then (if loops == [] then (false, []) else (true, Pop(loops)))
    else (true, loops)
  }

  predicate Accepts(tokens: seq<Token>, loops: Loops) {
    if tokens == [] then loops == []
    else Push(loops, tokens[0]).0 && Accepts(tokens[1..], Push(loops, tokens[0]).1)
  }

  /** Only the top of the stack can await `do`. */
  predicate OnlyTopAwaits(loops: Loops) {
    forall i :: 0 <= i < |loops| - 1 ==> !loops[i]
  }

  lemma PushKeepsOnlyTop(loops: Loops, t: Token)
    requires OnlyTopAwaits(loops) && Push(loops, t).0
    ensures OnlyTopAwaits(Push(loops, t).1) && |Push(loops, t).1| <= if |loops| > MAX_LOOPS then |loops| else MAX_LOOPS
  {
    if t.Done? || t.Do? {
      assert forall i :: 0 <= i < |loops| - 1 ==> Pop(loops)[i] == loops[i];
    }
  }

  // ----- the grammar -----

  /** A list is a sequence of simple commands and loops over lists. */
  datatype Item = Simple | Loop(body: seq<Item>)

  function Yield(items: seq<Item>): seq<Token> {
    if items == [] then []
    else
      (match items[0]
       case Simple => [Plain]
       case Loop(body) => [For, Do] + Yield(body) + [Done])
      + Yield(items[1..])
  }

  function Max(a: nat, b: nat): nat {
    if a < b then b else a
  }

  function Nesting(items: seq<Item>): nat {
    if items == [] then 0
    else
      Max(match items[0]
          case Simple => 0
          case Loop(body) => 1 + Nesting(body),
          Nesting(items[1..]))
  }

  function Bodies(n: nat): Loops {
    seq(n, _ => false)
  }

  lemma BodiesStep(n: nat)
    ensures Pop(Bodies(n) + [true]) + [false] == Bodies(n + 1)
    ensures Pop(Bodies(n + 1)) == Bodies(n)
    ensures !Awaiting(Bodies(n)) && Awaiting(Bodies(n) + [true])
  {
  }

  lemma AcceptsEntry(inner: seq<Token>, n: nat)
    requires n < MAX_LOOPS
    ensures Accepts([For, Do] + inner, Bodies(n)) <==> Accepts(inner, Bodies(n + 1))
  {
    BodiesStep(n);
    assert ([For, Do] + inner)[1..] == [Do] + inner && ([Do] + inner)[1..] == inner;
  }

  lemma AcceptsExit(more: seq<Token>, n: nat)
    ensures Accepts([Done] + more, Bodies(n + 1)) <==> Accepts(more, Bodies(n))
  {
    BodiesStep(n);
    BodiesStep(n + 1);
    assert ([Done] + more)[1..] == more;
  }

  lemma {:induction false} AcceptsYield(items: seq<Item>, rest: seq<Token>, n: nat)
    requires Nesting(items) + n <= MAX_LOOPS
    ensures Accepts(Yield(items) + rest, Bodies(n)) <==> Accepts(rest, Bodies(n))
    decreases items
  {
    hide Push, Bodies;
    if items == [] {
      assert Yield(items) + rest == rest;
    } else {
      var more := Yield(items[1..]) + rest;
      AcceptsYield(items[1..], rest, n);
      match items[0]
      case Simple =>
        assert Yield(items) + rest == [Plain] + more;
        assert ([Plain] + more)[1..] == more;
        PlainIsFree(n);
      case Loop(body) =>
        var inner := Yield(body) + ([Done] + more);
        assert Yield(items) + rest == [For, Do] + inner;
        AcceptsEntry(inner, n);
        AcceptsYield(body, [Done] + more, n + 1);
        AcceptsExit(more, n);
    }
  }

  lemma PlainIsFree(n: nat)
    ensures Push(Bodies(n), Plain) == (true, Bodies(n))
  {
  }

  /** Lists that each end at a `done`, except the last. */
  function YieldFrames(frames: seq<seq<Item>>): seq<Token>
    requires frames != []
  {
    if |frames| == 1 then Yield(frames[0]) else Yield(frames[0]) + [Done] + YieldFrames(frames[1..])
  }

  predicate FramesFit(frames: seq<seq<Item>>) {
    forall k :: 0 <= k < |frames| ==> Nesting(frames[k]) + (|frames| - 1 - k) <= MAX_LOOPS
  }

  /** What the stack accepts inside `n` bodies is `n` lists closed by `done` and a
      last one. */
  lemma {:induction false} AcceptedIsYield(tokens: seq<Token>, n: nat) returns (frames: seq<seq<Item>>)
    requires n <= MAX_LOOPS && Accepts(tokens, Bodies(n))
    ensures |frames| == n + 1 && YieldFrames(frames) == tokens && FramesFit(frames)
    decreases |tokens|
  {
    hide YieldFrames, FramesFit, Nesting, Yield, Push, Bodies;
    if tokens == [] {
      frames := EmptyFrame(n);
    } else {
      assert tokens == [tokens[0]] + tokens[1..];
      FirstToken(tokens, n);
      match tokens[0]
      case Plain =>
        var g := AcceptedIsYield(tokens[1..], n);
        frames := PlainFrame(g);
      case Done =>
        AcceptsExit(tokens[1..], n - 1);
        var g := AcceptedIsYield(tokens[1..], n - 1);
        frames := DoneFrame(g);
      case For =>
        assert tokens == [For, Do] + tokens[2..];
        AcceptsEntry(tokens[2..], n);
        var g := AcceptedIsYield(tokens[2..], n + 1);
        frames := LoopFrame(g);
    }
  }

  lemma FirstToken(tokens: seq<Token>, n: nat)
    requires tokens != [] && n <= MAX_LOOPS && Accepts(tokens, Bodies(n))
    ensures !tokens[0].Do?
    ensures tokens[0].Plain? ==> Accepts(tokens[1..], Bodies(n))
    ensures tokens[0].Done? ==> n > 0
    ensures tokens[0].For? ==> n < MAX_LOOPS && |tokens| >= 2 && tokens[1].Do?
  {
    BodiesStep(n);
  }

  lemma EmptyFrame(n: nat) returns (frames: seq<seq<Item>>)
    requires Accepts([], Bodies(n))
    ensures n == 0 && |frames| == 1 && YieldFrames(frames) == [] && FramesFit(frames)
  {
    frames := [[]];
  }

  lemma PlainFrame(g: seq<seq<Item>>) returns (frames: seq<seq<Item>>)
    requires g != [] && FramesFit(g)
    ensures |frames| == |g| && YieldFrames(frames) == [Plain] + YieldFrames(g) && FramesFit(frames)
  {
    var first := [Simple] + g[0];
    frames := [first] + g[1..];
    assert frames[1..] == g[1..] && first[1..] == g[0];
    assert Nesting(first) == Nesting(g[0]);
    assert forall k :: 0 < k < |frames| ==> frames[k] == g[k];
  }

  lemma DoneFrame(g: seq<seq<Item>>) returns (frames: seq<seq<Item>>)
    requires g != [] && FramesFit(g) && |g| <= MAX_LOOPS
    ensures |frames| == |g| + 1 && YieldFrames(frames) == [Done] + YieldFrames(g) && FramesFit(frames)
  {
    frames := [[]] + g;
    assert frames[1..] == g;
    assert Yield(frames[0]) + [Done] + YieldFrames(g) == [Done] + YieldFrames(g);
    assert forall k :: 0 < k < |frames| ==> frames[k] == g[k - 1];
  }

  lemma LoopFrame(g: seq<seq<Item>>) returns (frames: seq<seq<Item>>)
    requires |g| >= 2 && FramesFit(g)
    ensures |frames| == |g| - 1 && YieldFrames(frames) == [For, Do] + YieldFrames(g) && FramesFit(frames)
  {
    var first := [Loop(g[0])] + g[1];
    frames := [first] + g[2..];
    assert first[1..] == g[1] && frames[1..] == g[2..] && g[1..][1..] == g[2..];
    assert Yield(first) == [For, Do] + Yield(g[0]) + [Done] + Yield(g[1]);
    assert YieldFrames(g) == Yield(g[0]) + [Done] + YieldFrames(g[1..]);
    if |g| > 2 {
      assert YieldFrames(g[1..]) == Yield(g[1]) + [Done] + YieldFrames(g[2..]);
    }
    forall k | 0 <= k < |frames| ensures Nesting(frames[k]) + (|frames| - 1 - k) <= MAX_LOOPS {
      if k == 0 {
        assert Nesting(g[0]) + (|g| - 1) <= MAX_LOOPS && Nesting(g[1]) + (|g| - 2) <= MAX_LOOPS;
      } else {
        assert frames[k] == g[k + 1];
      }
    }
  }

  /** The stack accepts exactly the token lists of the grammar, with loops nested
      at most 32 deep. */
  lemma AcceptsExactlyTheGrammar(tokens: seq<Token>)
    ensures Accepts(tokens, []) <==> exists items :: Yield(items) == tokens && Nesting(items) <= MAX_LOOPS
  {
    assert Bodies(0) == [];
    if Accepts(tokens, []) {
      var frames := AcceptedIsYield(tokens, 0);
      assert Yield(frames[0]) == tokens && Nesting(frames[0]) <= MAX_LOOPS;
    }
    forall items | Yield(items) == tokens && Nesting(items) <= MAX_LOOPS ensures Accepts(tokens, []) {
      AcceptsYield(items, [], 0);
      assert Yield(items) + [] == tokens;
    }
  }
}
