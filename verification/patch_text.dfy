/** Text as the patch engine sees it: line endings, lines, trimming, sizes in
    bytes, and edits of a list of lines. */
module PatchText {

  // ----- characters and sizes -----

  /** Unicode White_Space. */
  predicate IsSpace(c: char) {
    var n := c as int;
    || 9 <= n <= 13 || n == 0x20 || n == 0x85 || n == 0xA0 || n == 0x1680
    || 0x2000 <= n <= 0x200A || n == 0x2028 || n == 0x2029 || n == 0x202F || n == 0x205F || n == 0x3000
  }

  /** The width of a character in UTF-8. */
  function Width(c: char): (w: nat)
    ensures 1 <= w <= 4
  {
    var n := c as int;
    if n < 0x80 then 1 else if n < 0x800 then 2 else if n < 0x10000 then 3 else 4
  }

  function Size(s: string): nat {
    if s == [] then 0 else Width(s[0]) + Size(s[1..])
  }

  function TotalSize(lines: seq<string>): nat {
    if lines == [] then 0 else Size(lines[0]) + TotalSize(lines[1..])
  }

  function TrimStart(s: string): string {
    if s != [] && IsSpace(s[0]) then TrimStart(s[1..]) else s
  }

  function TrimEnd(s: string): string {
    if s != [] && IsSpace(s[|s| - 1]) then TrimEnd(s[..|s| - 1]) else s
  }

  function Trim(s: string): string {
    TrimStart(TrimEnd(s))
  }

  // ----- lines -----

  /** Every CR LF and every lone CR becomes LF. */
  function Normalize(s: string): string {
    if s == [] then []
    else if s[0] == '\r' then ['\n'] + Normalize(if |s| > 1 && s[1] == '\n' then s[2..] else s[1..])
    else [s[0]] + Normalize(s[1..])
  }

  /** The pieces between newlines: one more than there are newlines. */
  function Split(s: string): (pieces: seq<string>)
    ensures |pieces| > 0
  {
    if s == [] then [[]]
    else if s[0] == '\n' then [[]] + Split(s[1..])
    else var rest := Split(s[1..]); [[s[0]] + rest[0]] + rest[1..]
  }

  /** The lines a newline ends, and a last one without a newline if there is one. */
  function Lines(s: string): seq<string> {
    var pieces := Split(s);
    if pieces[|pieces| - 1] == [] then pieces[..|pieces| - 1] else pieces
  }

  function Join(lines: seq<string>): string {
    if lines == [] then []
    else if |lines| == 1 then lines[0]
    else lines[0] + ['\n'] + Join(lines[1..])
  }

  function WithCrlf(s: string): string {
    if s == [] then []
    else if s[0] == '\n' then ['\r', '\n'] + WithCrlf(s[1..])
    else [s[0]] + WithCrlf(s[1..])
  }

  predicate HasCrlf(s: string) {
    exists i :: 0 <= i < |s| - 1 && s[i] == '\r' && s[i + 1] == '\n'
  }

  predicate EndsWithNewline(s: string) {
    s != [] && s[|s| - 1] == '\n'
  }

  // ----- edits of lines -----

  /** Lines `start..end` are replaced by `after`. */
  datatype Edit = Edit(start: nat, end: nat, after: seq<string>)

  /** Edits in order, disjoint, and all before `upto`. */
  predicate Ordered(edits: seq<Edit>, upto: nat) {
    if edits == [] then true
    else
      var last := edits[|edits| - 1];
      last.start <= last.end <= upto && Ordered(edits[..|edits| - 1], last.start)
  }

  /** The lines before `upto`, rewritten from left to right. */
  function Written(lines: seq<string>, edits: seq<Edit>, upto: nat): seq<string>
    requires upto <= |lines| && Ordered(edits, upto)
  {
    if edits == [] then lines[..upto]
    else
      var last := edits[|edits| - 1];
      Written(lines, edits[..|edits| - 1], last.start) + last.after + lines[last.end..upto]
  }

  predicate NoChange(lines: seq<string>, e: Edit) {
    e.start <= e.end <= |lines| && e.after == lines[e.start..e.end]
  }

  function Splice(lines: seq<string>, e: Edit): seq<string>
    requires e.start <= e.end <= |lines|
  {
    lines[..e.start] + e.after + lines[e.end..]
  }

  // ----- lemmas about trimming -----

  predicate AllSpace(s: string) {
    forall i :: 0 <= i < |s| ==> IsSpace(s[i])
  }

  lemma {:induction false} TrimEndParts(a: string) returns (s: string)
    ensures a == TrimEnd(a) + s && AllSpace(s)
  {
    if a != [] && IsSpace(a[|a| - 1]) {
      s := TrimEndParts(a[..|a| - 1]);
      s := s + [a[|a| - 1]];
    } else {
      s := [];
    }
  }

  lemma {:induction false} TrimEndIgnores(a: string, s: string)
    requires AllSpace(s)
    ensures TrimEnd(a + s) == TrimEnd(a)
  {
    if s == [] {
      assert a + s == a;
    } else {
      assert (a + s)[..|a + s| - 1] == a + s[..|s| - 1];
      TrimEndIgnores(a, s[..|s| - 1]);
    }
  }

  lemma {:induction false} TrimStartParts(a: string) returns (s: string)
    ensures a == s + TrimStart(a) && AllSpace(s)
  {
    if a != [] && IsSpace(a[0]) {
      s := TrimStartParts(a[1..]);
      s := [a[0]] + s;
    } else {
      s := [];
    }
  }

  lemma {:induction false} TrimStartIgnores(s: string, a: string)
    requires AllSpace(s)
    ensures TrimStart(s + a) == TrimStart(a)
  {
    if s == [] {
      assert s + a == a;
    } else {
      assert (s + a)[1..] == s[1..] + a;
      TrimStartIgnores(s[1..], a);
    }
  }

  /** Trimming is the same whichever end comes first. */
  lemma {:induction false} TrimEitherEnd(a: string)
    ensures Trim(a) == TrimEnd(TrimStart(a))
  {
    hide TrimEnd;
    var s := TrimEndParts(a);
    var b := TrimEnd(a);
    if b != [] && IsSpace(b[0]) {
      assert a[0] == b[0] && a[1..] == b[1..] + s;
      TrimEitherEnd(a[1..]);
      TrimEndIgnores(b[1..], s);
      TrimEndAgain(a);
      TrimEndOfTail(b);
    } else if b != [] {
      assert a[0] == b[0];
    } else {
      assert a == s;
      TrimStartIgnores(s, []);
      assert s + [] == s;
      NothingTrimmed();
    }
  }

  lemma NothingTrimmed()
    ensures TrimStart([]) == [] && TrimEnd([]) == []
  {
  }

  lemma {:induction false} TrimEndAgain(a: string)
    ensures TrimEnd(TrimEnd(a)) == TrimEnd(a)
  {
    if a != [] && IsSpace(a[|a| - 1]) {
      TrimEndAgain(a[..|a| - 1]);
    }
  }

  /** Without its first character, a text that ends in no space still does. */
  lemma TrimEndOfTail(b: string)
    requires b != [] && TrimEnd(b) == b
    ensures TrimEnd(b[1..]) == b[1..]
  {
    LastIsNoSpace(b);
    if |b| > 1 {
      assert b[1..][|b[1..]| - 1] == b[|b| - 1];
    }
  }

  lemma {:induction false} LastIsNoSpace(a: string)
    ensures TrimEnd(a) != [] ==> !IsSpace(TrimEnd(a)[|TrimEnd(a)| - 1])
  {
    if a != [] && IsSpace(a[|a| - 1]) {
      LastIsNoSpace(a[..|a| - 1]);
    }
  }

  lemma TrimBoth(s: string, core: string, t: string)
    requires AllSpace(s) && AllSpace(t)
    ensures Trim(s + core + t) == Trim(core)
  {
    TrimEndIgnores(s + core, t);
    TrimEitherEnd(s + core);
    TrimStartIgnores(s, core);
    TrimEitherEnd(core);
  }

  /** Nothing is left of a text exactly when it is white space only. */
  lemma TrimsToNothing(a: string)
    ensures Trim(a) == [] <==> AllSpace(a)
  {
    var s := TrimEndParts(a);
    var t := TrimStartParts(TrimEnd(a));
    if Trim(a) == [] {
      assert a == t + Trim(a) + s;
    }
    if AllSpace(a) {
      TrimBoth(a, [], []);
      assert a + [] + [] == a;
    }
  }

  // ----- lemmas about sizes -----

  lemma {:induction false} SizeConcat(a: string, b: string)
    ensures Size(a + b) == Size(a) + Size(b)
  {
    if a == [] {
      assert a + b == b;
    } else {
      assert (a + b)[1..] == a[1..] + b;
      SizeConcat(a[1..], b);
    }
  }

  lemma {:induction false} TotalSizeConcat(a: seq<string>, b: seq<string>)
    ensures TotalSize(a + b) == TotalSize(a) + TotalSize(b)
  {
    if a == [] {
      assert a + b == b;
    } else {
      assert (a + b)[1..] == a[1..] + b;
      TotalSizeConcat(a[1..], b);
    }
  }

  lemma {:induction false} NormalizeShrinks(s: string)
    ensures Size(Normalize(s)) <= Size(s)
  {
    if s != [] {
      if s[0] == '\r' {
        var rest := if |s| > 1 && s[1] == '\n' then s[2..] else s[1..];
        if |s| > 1 && s[1] == '\n' {
          assert s[1..][1..] == s[2..];
        }
        NormalizeShrinks(rest);
        assert Normalize(s)[1..] == Normalize(rest);
      } else {
        NormalizeShrinks(s[1..]);
        assert Normalize(s)[1..] == Normalize(s[1..]);
      }
    }
  }

  lemma {:induction false} SplitShrinks(s: string)
    ensures TotalSize(Split(s)) <= Size(s)
  {
    if s != [] {
      SplitShrinks(s[1..]);
      var rest := Split(s[1..]);
      if s[0] == '\n' {
        assert Split(s)[1..] == rest;
      } else {
        assert Split(s)[1..] == rest[1..];
        assert ([s[0]] + rest[0])[1..] == rest[0];
      }
    }
  }

  /** The lines of a text are no larger than the text. */
  lemma LinesShrink(content: string)
    ensures TotalSize(Lines(Normalize(content))) <= Size(content)
  {
    hide Normalize, Split, Size, TotalSize;
    NormalizeShrinks(content);
    SplitShrinks(Normalize(content));
    var pieces := Split(Normalize(content));
    TotalSizeConcat(pieces[..|pieces| - 1], [pieces[|pieces| - 1]]);
    assert pieces == pieces[..|pieces| - 1] + [pieces[|pieces| - 1]];
  }

  // ----- lemmas about lines -----

  lemma {:induction false} JoinSplit(s: string)
    ensures Join(Split(s)) == s
  {
    if s != [] {
      JoinSplit(s[1..]);
      var rest := Split(s[1..]);
      if s[0] == '\n' {
        assert Split(s)[1..] == rest;
      } else {
        assert Split(s)[1..] == rest[1..];
        if |rest| > 1 {
          assert Join(rest) == rest[0] + ['\n'] + Join(rest[1..]);
        }
      }
    }
  }

  lemma {:induction false} JoinEmptyLast(lines: seq<string>)
    requires lines != []
    ensures Join(lines + [[]]) == Join(lines) + ['\n']
  {
    if |lines| == 1 {
      assert (lines + [[]])[1..] == [[]];
    } else {
      assert (lines + [[]])[1..] == lines[1..] + [[]];
      JoinEmptyLast(lines[1..]);
    }
  }

  lemma {:induction false} NormalizeLf(s: string)
    requires '\r' !in s
    ensures Normalize(s) == s && !HasCrlf(s)
  {
    if s != [] {
      NormalizeLf(s[1..]);
    }
  }

  lemma {:induction false} SplitLast(s: string)
    requires EndsWithNewline(s)
    ensures Split(s)[|Split(s)| - 1] == [] && |Split(s)| > 1
  {
    var rest := Split(s[1..]);
    if |s| == 1 {
      assert s[1..] == [] && rest == [[]];
    } else {
      assert s[1..][|s[1..]| - 1] == s[|s| - 1];
      SplitLast(s[1..]);
    }
    assert Split(s) == if s[0] == '\n' then [[]] + rest else [[s[0]] + rest[0]] + rest[1..];
  }

  // ----- lemmas about edits -----

  /** An edit that replaces a range by what it holds can be left out. */
  lemma WrittenNoChange(lines: seq<string>, edits: seq<Edit>, e: Edit, upto: nat)
    requires upto <= |lines| && Ordered(edits, e.start) && NoChange(lines, e) && e.end <= upto
    ensures Ordered(edits, upto) && Ordered(edits + [e], upto)
    ensures Written(lines, edits + [e], upto) == Written(lines, edits, upto)
  {
    assert (edits + [e])[..|edits|] == edits;
    assert lines[..e.start] + e.after + lines[e.end..upto] == lines[..upto];
    if edits != [] {
      var last := edits[|edits| - 1];
      assert lines[last.end..e.start] + e.after + lines[e.end..upto] == lines[last.end..upto];
    }
  }

  /** Writing further only appends the lines that come next. */
  lemma WrittenExtends(lines: seq<string>, edits: seq<Edit>, mid: nat, upto: nat)
    requires mid <= upto <= |lines| && Ordered(edits, mid)
    ensures Ordered(edits, upto)
    ensures Written(lines, edits, upto) == Written(lines, edits, mid) + lines[mid..upto]
  {
    if edits == [] {
      assert lines[..upto] == lines[..mid] + lines[mid..upto];
    } else {
      var last := edits[|edits| - 1];
      assert lines[last.end..upto] == lines[last.end..mid] + lines[mid..upto];
    }
  }

  /** `small` is `large` without lines that stay the same at either end. */
  predicate TrimOf(lines: seq<string>, small: Edit, large: Edit) {
    && large.start <= small.start <= small.end <= large.end <= |lines|
    && large.after == lines[large.start..small.start] + small.after + lines[small.end..large.end]
  }

  lemma WrittenPush(lines: seq<string>, edits: seq<Edit>, e: Edit, upto: nat)
    requires upto <= |lines| && Ordered(edits, e.start) && e.start <= e.end <= upto
    ensures Ordered(edits + [e], upto)
    ensures Written(lines, edits + [e], upto) == Written(lines, edits, e.start) + e.after + lines[e.end..upto]
  {
    assert (edits + [e])[..|edits|] == edits;
  }

  lemma Regroup(a: seq<string>, b: seq<string>, c: seq<string>, d: seq<string>, e: seq<string>)
    ensures (a + b) + c + (d + e) == a + (b + c + d) + e
  {
  }

  lemma WrittenTrim(lines: seq<string>, edits: seq<Edit>, small: Edit, large: Edit, upto: nat)
    requires upto <= |lines| && Ordered(edits, large.start) && TrimOf(lines, small, large) && large.end <= upto
    ensures Ordered(edits + [small], upto) && Ordered(edits + [large], upto)
    ensures Written(lines, edits + [small], upto) == Written(lines, edits + [large], upto)
  {
    hide Written, Ordered;
    WrittenExtends(lines, edits, large.start, small.start);
    WrittenPush(lines, edits, small, upto);
    WrittenPush(lines, edits, large, upto);
    assert lines[small.end..upto] == lines[small.end..large.end] + lines[large.end..upto];
    Regroup(Written(lines, edits, large.start), lines[large.start..small.start], small.after,
            lines[small.end..large.end], lines[large.end..upto]);
  }

  lemma {:induction false} OrderedWiden(edits: seq<Edit>, mid: nat, upto: nat)
    requires Ordered(edits, mid) && mid <= upto
    ensures Ordered(edits, upto)
  {
  }

  lemma SpliceStep(lines: seq<string>, edits: seq<Edit>, e: Edit, upto: nat, was: seq<string>)
    requires upto <= |lines| && upto <= |was| && was[..upto] == lines[..upto]
    requires Ordered(edits, e.start) && e.start <= e.end <= upto
    ensures Ordered(edits + [e], upto)
    ensures var now := Splice(was, e);
            && e.start <= |now| && now[..e.start] == lines[..e.start]
            && Written(lines, edits + [e], upto) + was[upto..] == Written(lines, edits, e.start) + now[e.start..]
  {
    hide Written, Ordered;
    WrittenPush(lines, edits, e, upto);
    var now := Splice(was, e);
    var head, middle, tail := was[..e.start], was[e.end..upto], was[upto..];
    SamePart(was, lines, upto, e.end, upto);
    SamePart(was, lines, upto, 0, e.start);
    assert was[0..e.start] == head && lines[0..e.start] == lines[..e.start];
    assert was[e.end..] == middle + tail;
    assert now == head + e.after + (middle + tail);
    assert now[e.start..] == e.after + (middle + tail);
    Reassociate(Written(lines, edits, e.start), e.after, middle, tail);
  }

  lemma SamePart(a: seq<string>, b: seq<string>, upto: nat, lo: nat, hi: nat)
    requires lo <= hi <= upto <= |a| && upto <= |b| && a[..upto] == b[..upto]
    ensures a[lo..hi] == b[lo..hi]
  {
    assert a[..upto][lo..hi] == a[lo..hi] && b[..upto][lo..hi] == b[lo..hi];
  }

  lemma Reassociate(a: seq<string>, b: seq<string>, c: seq<string>, d: seq<string>)
    ensures a + b + c + d == a + (b + (c + d))
  {
  }

  /** Splicing from the last edit to the first gives what writing from left to
      right gives: earlier edits keep their place. */
  method SpliceBack(lines: seq<string>, placements: seq<Edit>) returns (updated: seq<string>)
    requires Ordered(placements, |lines|)
    ensures updated == Written(lines, placements, |lines|)
  {
    updated := lines;
    var i := |placements|;
    ghost var upto: nat := |lines|;
    assert placements[..i] == placements && Written(lines, placements, upto) + [] == Written(lines, placements, upto);
    while i > 0
      invariant 0 <= i <= |placements| && upto <= |lines|
      invariant Ordered(placements[..i], upto)
      invariant upto <= |updated| && updated[..upto] == lines[..upto]
      invariant Written(lines, placements, |lines|) == Written(lines, placements[..i], upto) + updated[upto..]
    {
      i := i - 1;
      var e := placements[i];
      assert placements[..i + 1] == placements[..i] + [e] && placements[..i + 1][..i] == placements[..i];
      SpliceStep(lines, placements[..i], e, upto, updated);
      updated := Splice(updated, e);
      upto := e.start;
    }
    assert placements[..0] == [];
    assert updated == updated[..upto] + updated[upto..];
  }
}
