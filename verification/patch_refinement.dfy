/** How the two appliers relate, and when rewriting a text keeps its line endings. */
module PatchRefinement {
  import opened Wrappers
  import opened PatchText
  import U = PatchUpdate
  import L = PatchLegacy

  // ----- line endings -----

  /** Every CR is followed by LF, and every LF follows a CR. */
  predicate UniformCrlf(s: string) {
    s == [] ||
    (if s[0] == '\r' then |s| > 1 && s[1] == '\n' && UniformCrlf(s[2..]) else s[0] != '\n' && UniformCrlf(s[1..]))
  }

  lemma {:induction false} NormalizeHasNoCr(s: string)
    ensures '\r' !in Normalize(s)
  {
    if s != [] {
      NormalizeHasNoCr(if s[0] == '\r' && |s| > 1 && s[1] == '\n' then s[2..] else s[1..]);
    }
  }

  lemma {:induction false} CrlfRoundTrip(s: string)
    ensures WithCrlf(Normalize(s)) == s <==> UniformCrlf(s)
  {
    if s != [] {
      var rest := if s[0] == '\r' && |s| > 1 && s[1] == '\n' then s[2..] else s[1..];
      CrlfRoundTrip(rest);
      assert Normalize(s)[1..] == Normalize(rest);
      if s[0] == '\r' {
        assert WithCrlf(Normalize(s)) == ['\r', '\n'] + WithCrlf(Normalize(rest));
        if |s| > 1 && s[1] == '\n' {
          assert s == ['\r', '\n'] + rest;
        } else if |s| > 1 {
          assert WithCrlf(Normalize(s))[1] == '\n' != s[1];
        }
      } else if s[0] != '\n' {
        assert WithCrlf(Normalize(s)) == [s[0]] + WithCrlf(Normalize(rest));
        assert s == [s[0]] + rest;
      }
    }
  }

  lemma JoinLines(s: string)
    ensures var lines := Lines(s);
            s == if lines != [] && EndsWithNewline(s) then Join(lines) + ['\n'] else Join(lines)
  {
    hide Split, Join;
    var pieces := Split(s);
    JoinSplit(s);
    if EndsWithNewline(s) {
      SplitLast(s);
      assert pieces == Lines(s) + [[]];
      JoinEmptyLast(Lines(s));
    } else if pieces[|pieces| - 1] == [] {
      LastPieceEmpty(s);
      EmptySplit();
    }
  }

  lemma EmptySplit()
    ensures Split([]) == [[]] && Join([]) == []
  {
  }

  lemma {:induction false} LastPieceEmpty(s: string)
    requires Split(s)[|Split(s)| - 1] == []
    ensures s == [] || EndsWithNewline(s)
  {
    if s != [] {
      var rest := Split(s[1..]);
      if s[0] == '\n' {
        assert Split(s)[|Split(s)| - 1] == rest[|rest| - 1];
      } else if |rest| > 1 {
        assert Split(s)[|Split(s)| - 1] == rest[|rest| - 1];
      }
      LastPieceEmpty(s[1..]);
    }
  }

  /** All line endings are CR LF, or all are LF. */
  predicate Uniform(content: string) {
    if HasCrlf(content) then UniformCrlf(content) else '\r' !in content
  }

  /** Taking a text apart and rebuilding it gives the text back exactly when its
      line endings are uniform. So an edit elsewhere leaves the other lines' endings
      alone in exactly those texts. */
  lemma RebuildKeepsUniformEndings(content: string)
    ensures U.Rebuild(content, Lines(Normalize(content))) == content <==> Uniform(content)
  {
    var s := Normalize(content);
    JoinLines(s);
    CrlfRoundTrip(content);
    NormalizeHasNoCr(content);
    if '\r' !in content {
      NormalizeLf(content);
    }
  }

  lemma {:induction false} NormalizeEnds(s: string)
    ensures EndsWithNewline(Normalize(s)) <==> s != [] && s[|s| - 1] in {'\n', '\r'}
  {
    if s != [] {
      var rest := if s[0] == '\r' && |s| > 1 && s[1] == '\n' then s[2..] else s[1..];
      NormalizeEnds(rest);
      var first := if s[0] == '\r' then '\n' else s[0];
      assert Normalize(s) == [first] + Normalize(rest);
      if rest == [] {
        assert Normalize(rest) == [];
      } else {
        assert rest[|rest| - 1] == s[|s| - 1];
        NormalizeKeepsSome(rest);
        assert Normalize(s)[|Normalize(s)| - 1] == Normalize(rest)[|Normalize(rest)| - 1];
      }
    }
  }

  lemma NormalizeKeepsSome(s: string)
    requires s != []
    ensures Normalize(s) != []
  {
  }

  lemma {:induction false} CrlfIsUniform(s: string)
    requires '\r' !in s
    ensures UniformCrlf(WithCrlf(s)) && Normalize(WithCrlf(s)) == s
  {
    if s != [] {
      CrlfIsUniform(s[1..]);
      var rest := WithCrlf(s[1..]);
      if s[0] == '\n' {
        assert WithCrlf(s) == ['\r', '\n'] + rest && WithCrlf(s)[2..] == rest;
      } else {
        assert WithCrlf(s)[1..] == rest;
      }
    }
  }

  lemma {:induction false} JoinedHasNoCr(lines: seq<string>)
    requires forall k :: 0 <= k < |lines| ==> '\r' !in lines[k]
    ensures '\r' !in Join(lines)
  {
    if |lines| > 1 {
      JoinedHasNoCr(lines[1..]);
    }
  }

  ghost predicate Contains(s: string, part: string) {
    exists a: string, b: string :: a + part + b == s
  }

  /** What a changed text is rebuilt to: its lines, with a newline at the end when the
      text ended with one or was empty, and with CR LF everywhere when the text had one
      anywhere, and LF everywhere when it had none. */
  lemma RebuildMeans(content: string, lines: seq<string>)
    requires forall k :: 0 <= k < |lines| ==> '\r' !in lines[k]
    ensures var r := U.Rebuild(content, lines);
            var ends := content == [] || content[|content| - 1] == '\n' || content[|content| - 1] == '\r';
            && Normalize(r) == (if lines != [] && ends then Join(lines) + ['\n'] else Join(lines))
            && (Contains(content, "\r\n") ==> UniformCrlf(r))
            && (!Contains(content, "\r\n") ==> '\r' !in r)
  {
    hide Join;
    NormalizeEnds(content);
    JoinedHasNoCr(lines);
    var text := if lines != [] && (EndsWithNewline(Normalize(content)) || content == []) then Join(lines) + ['\n'] else Join(lines);
    CrlfIsUniform(text);
    NormalizeLf(text);
    PairsAreCrlf(content);
  }

  lemma PairsAreCrlf(s: string)
    ensures HasCrlf(s) <==> Contains(s, "\r\n")
  {
    if i :| 0 <= i < |s| - 1 && s[i] == '\r' && s[i + 1] == '\n' {
      assert s[..i] + "\r\n" + s[i + 2..] == s;
    }
    if a: string, b: string :| a + "\r\n" + b == s {
      assert s[|a|] == '\r' && s[|a| + 1] == '\n';
    }
  }

  // ----- the current applier refines the frozen one -----

  /** Inside the lines that are a prefix of the pieces, occurring and fitting agree. */
  lemma OccursIsFits(pieces: seq<string>, lines: seq<string>, needle: seq<string>, i: nat, eof: bool)
    requires lines <= pieces
    ensures U.Fits(lines, needle, i, eof, 0) <==>
              && L.OccursAt(pieces, needle, i) && i + |needle| <= |lines|
              && (eof ==> i + |needle| == |lines|)
  {
    if i + |needle| <= |lines| {
      var window := pieces[i..i + |needle|];
      assert forall k :: 0 <= k < |needle| ==> window[k] == lines[i + k];
    }
  }

  /** A unique place in the whole text is the only place after the cursor. */
  lemma UniqueIsOnlyFit(pieces: seq<string>, lines: seq<string>, raw: seq<string>, cursor: nat, eof: bool)
    requires lines <= pieces && U.Side(raw, '-') != []
    requires L.EditOf(pieces, raw).Ok?
    requires cursor <= L.EditOf(pieces, raw).value.start && L.EditOf(pieces, raw).value.end <= |lines|
    requires eof ==> L.EditOf(pieces, raw).value.end == |lines|
    ensures var e := L.EditOf(pieces, raw).value;
            && U.OnlyFit(lines, U.Side(raw, '-'), cursor, eof, 0, e.start)
            && e.start < e.end && lines[e.start..e.end] == U.Side(raw, '-') && e.after == U.Side(raw, '+')
  {
    var needle := U.Side(raw, '-');
    var p := L.EditOf(pieces, raw).value.start;
    L.FindAllIsAll(pieces, needle, 0);
    var found := L.FindAll(pieces, needle, 0);
    assert found == [p] && p in found;
    OccursIsFits(pieces, lines, needle, p, eof);
    forall q: nat | U.Fits(lines, needle, q, eof, 0) ensures q == p {
      OccursIsFits(pieces, lines, needle, q, eof);
      assert q in found;
    }
    assert lines[p..p + |needle|] == pieces[p..p + |needle|];
  }

  /** A hunk the frozen parser accepts reads the same for both appliers. */
  lemma {:induction false} HunksAgree(raw: seq<string>)
    requires L.Parses(raw)
    ensures U.Parses(raw) && U.HunkOf(raw).anchor.None?
  {
    if raw != [] {
      var front := raw[..|raw| - 1];
      HunksAgree(front);
      assert raw == front + [raw[|raw| - 1]];
      U.HunkStep(front, raw[|raw| - 1]);
    }
  }

  /** The places the frozen applier found, hunk by hunk, go forward through the real
      lines of the text, every hunk has an old side, and one that is marked as the
      end of the file is there. */
  ghost predicate Forward(lines: seq<string>, hunks: seq<seq<string>>, edits: seq<Edit>) {
    && |edits| == |hunks|
    && (forall i :: 0 <= i < |hunks| ==> U.Side(hunks[i], '-') != [])
    && (forall i :: 0 <= i < |hunks| ==> U.END_OF_FILE in hunks[i] ==> edits[i].end == |lines|)
    && L.AdjacentDisjoint(edits)
    && (edits != [] ==> edits[|edits| - 1].end <= |lines|)
  }

  /** The edits are what the frozen applier makes of the hunks, and they go forward. */
  ghost predicate Follows(pieces: seq<string>, lines: seq<string>, hunks: seq<seq<string>>, edits: seq<Edit>) {
    && lines <= pieces && Forward(lines, hunks, edits)
    && forall i :: 0 <= i < |hunks| ==> L.Parses(hunks[i]) && Ok(edits[i]) == L.EditOf(pieces, hunks[i])
  }

  /** Each edit lies inside the lines, and replaces the hunk's old side by its new one. */
  lemma EditsReplace(pieces: seq<string>, lines: seq<string>, hunks: seq<seq<string>>, edits: seq<Edit>, k: nat)
    requires k < |hunks| && Follows(pieces, lines, hunks, edits)
    ensures edits[k].start < edits[k].end <= |lines|
    ensures lines[edits[k].start..edits[k].end] == U.Side(hunks[k], '-') && edits[k].after == U.Side(hunks[k], '+')
  {
    hide L.EditOf, U.OnlyFit, L.Parses, U.Side;
    forall i | 0 <= i < |edits| ensures edits[i].start <= edits[i].end {
      assert Ok(edits[i]) == L.EditOf(pieces, hunks[i]);
    }
    if k < |edits| - 1 {
      L.NeighboursSuffice(edits, k, |edits| - 1);
    }
    UniqueIsOnlyFit(pieces, lines, hunks[k], 0, false);
  }

  lemma FollowsAt(pieces: seq<string>, lines: seq<string>, hunks: seq<seq<string>>, edits: seq<Edit>, k: nat)
    requires k < |hunks| && Follows(pieces, lines, hunks, edits)
    ensures lines <= pieces && |edits| == |hunks| && L.Parses(hunks[k]) && U.Side(hunks[k], '-') != []
    ensures Ok(edits[k]) == L.EditOf(pieces, hunks[k])
    ensures U.END_OF_FILE in hunks[k] ==> edits[k].end == |lines|
    ensures k > 0 ==> edits[k - 1].end <= edits[k].start
  {
    hide L.EditOf, L.Parses, U.Side;
    assert Ok(edits[k]) == L.EditOf(pieces, hunks[k]);
    if k > 0 {
      assert edits[k - 1].end <= edits[k - 1 + 1].start;
    }
  }

  lemma PlaceFollows(pieces: seq<string>, lines: seq<string>, raw: seq<string>, cursor: nat)
    requires lines <= pieces && cursor <= |lines|
    requires L.Parses(raw) && U.Side(raw, '-') != []
    requires L.EditOf(pieces, raw).Ok?
    requires cursor <= L.EditOf(pieces, raw).value.start && L.EditOf(pieces, raw).value.end <= |lines|
    requires U.END_OF_FILE in raw ==> L.EditOf(pieces, raw).value.end == |lines|
    ensures var e := L.EditOf(pieces, raw).value;
            U.PlaceHunk(lines, U.HunkOf(raw), cursor) == Ok(U.Step(e.end, e, 0))
  {
    hide L.EditOf, L.Parses, U.OnlyFit;
    HunksAgree(raw);
    UniqueIsOnlyFit(pieces, lines, raw, cursor, U.END_OF_FILE in raw);
    U.LocatedIffUnique(lines, U.HunkOf(raw), cursor, L.EditOf(pieces, raw).value.start, 0);
  }

  lemma PlanFollowsStep(pieces: seq<string>, lines: seq<string>, size: nat, hunks: seq<seq<string>>,
                        edits: seq<Edit>, k: nat, st: U.State)
    requires k < |hunks| == |edits| && Follows(pieces, lines, hunks, edits)
    requires U.Plan(lines, size, hunks, k) == Ok(st)
    requires st.cursor == if k == 0 then 0 else edits[k - 1].end
    requires U.Plan(lines, size, hunks, k + 1) != Err(U.PatchLimit)
    ensures var next := U.Plan(lines, size, hunks, k + 1);
            next.Ok? && next.value.edits == st.edits + [edits[k]] && next.value.cursor == edits[k].end
  {
    hide U.Estimate, L.EditOf, L.Parses, U.Parses, U.HunkOf, U.PlaceHunk, U.Plan, U.Side, Follows, Ordered;
    EditsReplace(pieces, lines, hunks, edits, k);
    FollowsAt(pieces, lines, hunks, edits, k);
    U.PlanStep(lines, size, hunks, k, st);
    PlaceFollows(pieces, lines, hunks[k], st.cursor);
    HunksAgree(hunks[k]);
  }

  lemma {:induction false} PlanFollows(pieces: seq<string>, lines: seq<string>, size: nat, hunks: seq<seq<string>>,
                                       edits: seq<Edit>, k: nat)
    requires k <= |hunks| == |edits| && Follows(pieces, lines, hunks, edits)
    requires U.Plan(lines, size, hunks, k) != Err(U.PatchLimit)
    ensures U.Plan(lines, size, hunks, k).Ok?
    ensures var st := U.Plan(lines, size, hunks, k).value;
            st.edits == edits[..k] && st.cursor == if k == 0 then 0 else edits[k - 1].end
  {
    hide U.Plan, Follows, Ordered;
    U.PlanStart(lines, size, hunks);
    if k > 0 {
      if U.Plan(lines, size, hunks, k - 1).Err? {
        U.FailureSticks(lines, size, hunks, k - 1, k);
      }
      PlanFollows(pieces, lines, size, hunks, edits, k - 1);
      PlanFollowsStep(pieces, lines, size, hunks, edits, k - 1, U.Plan(lines, size, hunks, k - 1).value);
      assert edits[..k] == edits[..k - 1] + [edits[k - 1]];
    }
  }

  /** Edits inside a prefix leave what comes after it alone. */
  lemma {:induction false} WrittenOfPrefix(lines: seq<string>, pieces: seq<string>, edits: seq<Edit>, upto: nat)
    requires lines <= pieces && upto <= |lines| && Ordered(edits, upto)
    ensures Written(pieces, edits, upto) == Written(lines, edits, upto)
  {
    if edits != [] {
      WrittenOfPrefix(lines, pieces, edits[..|edits| - 1], edits[|edits| - 1].start);
    }
  }

  lemma {:induction false} NothingChangesWritten(lines: seq<string>, edits: seq<Edit>, upto: nat)
    requires upto <= |lines| && Ordered(edits, upto) && U.NothingChanges(lines, edits)
    ensures Written(lines, edits, upto) == lines[..upto]
  {
    if edits != [] {
      var front, last := edits[..|edits| - 1], edits[|edits| - 1];
      assert front + [last] == edits;
      assert forall i :: 0 <= i < |front| ==> front[i] == edits[i];
      NothingChangesWritten(lines, front, last.start);
      assert NoChange(lines, last);
      assert lines[..last.start] + lines[last.start..last.end] + lines[last.end..upto] == lines[..upto];
    }
  }

  /** Places that go forward are already sorted. */
  lemma ForwardIsSorted(edits: seq<Edit>)
    requires L.AdjacentDisjoint(edits) && forall k :: 0 <= k < |edits| ==> edits[k].start < edits[k].end
    ensures L.Sort(edits) == edits
  {
    forall i, j | 0 <= i < j < |edits| ensures L.EditLeq(edits[i], edits[j]) {
      L.NeighboursSuffice(edits, i, j);
    }
    L.SortSorts(edits);
    L.SortedIsUnique(L.Sort(edits), edits);
  }

  /** The lines of a text, and the pieces that the frozen applier works on: the same,
      and an empty piece behind a last newline. */
  lemma LinesAndPieces(s: string)
    ensures Split(s) == if s == [] || EndsWithNewline(s) then Lines(s) + [[]] else Lines(s)
  {
    hide Split;
    var pieces := Split(s);
    if s == [] {
      EmptySplit();
    } else if EndsWithNewline(s) {
      SplitLast(s);
    } else if pieces[|pieces| - 1] == [] {
      LastPieceEmpty(s);
    }
  }

  /** Written lines make the same text for both appliers. */
  lemma SameText(content: string, edits: seq<Edit>)
    requires content != [] && Ordered(edits, |Lines(Normalize(content))|)
    ensures var lines, pieces := Lines(Normalize(content)), Split(Normalize(content));
            && Ordered(edits, |pieces|)
            && U.Rebuild(content, Written(lines, edits, |lines|)) == L.Assemble(content, Written(pieces, edits, |pieces|))
  {
    hide Written, Ordered, WithCrlf, HasCrlf, Lines, Split, Join;
    var s := Normalize(content);
    var lines, pieces := Lines(s), Split(s);
    assert s != [];
    LinesAndPieces(s);
    WrittenExtends(pieces, edits, |lines|, |pieces|);
    WrittenOfPrefix(lines, pieces, edits, |lines|);
    var written := Written(lines, edits, |lines|);
    if EndsWithNewline(s) {
      assert Written(pieces, edits, |pieces|) == written + [[]] by {
        assert pieces[|lines|..] == [[]];
      }
      if written != [] {
        JoinEmptyLast(written);
      } else {
        EmptySplit();
        OneLine([]);
        assert written + [[]] == [[]];
      }
    } else {
      assert Written(pieces, edits, |pieces|) == written;
    }
  }

  lemma OneLine(line: string)
    ensures Join([line]) == line
  {
  }

  /** No hunk asks for a change. */
  predicate Unchanging(hunks: seq<seq<string>>) {
    forall i :: 0 <= i < |hunks| ==> U.Side(hunks[i], '-') == U.Side(hunks[i], '+')
  }

  lemma UnchangingIsNoChange(pieces: seq<string>, lines: seq<string>, hunks: seq<seq<string>>, edits: seq<Edit>)
    requires Follows(pieces, lines, hunks, edits)
    ensures U.NothingChanges(lines, edits) <==> Unchanging(hunks)
  {
    hide L.EditOf, L.Parses, U.Side;
    forall k | 0 <= k < |hunks|
      ensures NoChange(lines, edits[k]) <==> U.Side(hunks[k], '-') == U.Side(hunks[k], '+')
    {
      EditsReplace(pieces, lines, hunks, edits, k);
    }
  }

  /** What both appliers make of edits that go forward. */
  lemma SameAnswer(content: string, hunks: seq<seq<string>>, edits: seq<Edit>)
    requires hunks != [] && Follows(Split(Normalize(content)), Lines(Normalize(content)), hunks, edits)
    ensures var lines, pieces := Lines(Normalize(content)), Split(Normalize(content));
            && Ordered(edits, |lines|) && Ordered(edits, |pieces|) && L.Sort(edits) == edits
            && (U.Edited(content, edits) == L.Assemble(content, Written(pieces, edits, |pieces|))
                <==> !Unchanging(hunks) || Uniform(content))
  {
    hide Written, Ordered, Lines, Split, L.EditOf, L.Parses, U.Side, U.NothingChanges, Uniform, U.Rebuild, L.Assemble, L.Sort;
    hide Normalize, Unchanging;
    var s := Normalize(content);
    var lines, pieces := Lines(s), Split(s);
    forall k | 0 <= k < |edits| ensures edits[k].start < edits[k].end <= |lines| {
      EditsReplace(pieces, lines, hunks, edits, k);
    }
    assert edits[0].end <= |lines|;
    if content == [] {
      EmptyText();
    }
    L.AdjacentIsOrdered(edits, |lines|);
    ForwardIsSorted(edits);
    SameText(content, edits);
    UnchangingIsNoChange(pieces, lines, hunks, edits);
    RebuildKeepsUniformEndings(content);
    if U.NothingChanges(lines, edits) {
      NothingChangesWritten(lines, edits, |lines|);
      assert lines[..|lines|] == lines;
    }
  }

  lemma EmptyText()
    ensures Lines(Normalize([])) == []
  {
  }

  /** For hunks that the frozen applier accepts, at places that go forward through the
      text, the current applier accepts them too unless it hits a limit. Both then give
      the same text if and only if some hunk asks for a change or the line endings of
      the text are uniform: the frozen applier rewrites mixed endings even when nothing
      changes, and the current one then leaves the text as it is. */
  lemma CurrentRefinesFrozen(content: string, hunks: seq<seq<string>>)
    requires L.Legacy(content, hunks).Ok?
    requires hunks != [] ==>
               var r := L.EditsTo(Split(Normalize(content)), hunks, |hunks|);
               Forward(Lines(Normalize(content)), hunks, r.value)
    requires U.Planned(content, hunks) != Err(U.PatchLimit)
    ensures U.Planned(content, hunks).Ok?
    ensures U.Edited(content, U.Planned(content, hunks).value.edits) == L.Legacy(content, hunks).value
            <==> hunks == [] || !Unchanging(hunks) || Uniform(content)
  {
    hide U.Plan, Written, L.EditOf, U.Edited, Split, Lines, Normalize, L.Parses, U.NothingChanges, Uniform, Unchanging;
    var s := Normalize(content);
    var lines, pieces := Lines(s), Split(s);
    if hunks == [] {
      U.PlanStart(lines, Size(content), hunks);
      NothingEdited(content);
    } else {
      var edits := L.EditsTo(pieces, hunks, |hunks|).value;
      LinesAndPieces(s);
      assert Follows(pieces, lines, hunks, edits);
      PlanFollows(pieces, lines, Size(content), hunks, edits, |hunks|);
      assert edits[..|hunks|] == edits;
      SameAnswer(content, hunks, edits);
    }
  }

  const MIXED := "a\r\nb\n"

  lemma MixedPieces()
    ensures Normalize(MIXED) == "a\nb\n" && Split("a\nb\n") == ["a", "b", ""] && Lines("a\nb\n") == ["a", "b"]
  {
    assert MIXED[1..] == "\r\nb\n" && MIXED[1..][1..] == "\nb\n" && "\r\nb\n"[2..] == "b\n";
    assert "a\nb\n"[1..] == "\nb\n" && "\nb\n"[1..] == "b\n" && "b\n"[1..] == "\n" && "\n"[1..] == "";
    assert Normalize("\n") == "\n" && Normalize("b\n") == "b\n" && Normalize("\r\nb\n") == "\nb\n";
    assert ['a'] + "" == "a" && ['b'] + "" == "b";
    assert Split("\n") == ["", ""];
    assert Split("b\n") == [['b'] + ""] + [""];
    assert Split("\nb\n") == [""] + ["b", ""];
    assert Split("a\nb\n") == [['a'] + ""] + ["b", ""];
  }

  lemma MixedEndings()
    ensures HasCrlf(MIXED) && WithCrlf("a\nb\n") == "a\r\nb\r\n" != MIXED && Size(MIXED) == 5
  {
    assert MIXED[1] == '\r' && MIXED[2] == '\n' && MIXED[4] == '\n';
    assert "a\nb\n"[1..] == "\nb\n" && "\nb\n"[1..] == "b\n" && "b\n"[1..] == "\n" && "\n"[1..] == "";
    assert WithCrlf("\n") == "\r\n" && WithCrlf("b\n") == "b\r\n" && WithCrlf("\nb\n") == "\r\nb\r\n";
    assert MIXED[1..] == "\r\nb\n" && "\r\nb\n"[1..] == "\nb\n";
    assert Size("\n") == 1 && Size("b\n") == 2 && Size("\nb\n") == 3 && Size("\r\nb\n") == 4;
  }

  lemma MixedHunk()
    ensures U.HunkOf([" a"]) == U.Hunk(None, ["a"], ["a"], true, false) && U.END_OF_FILE !in [" a"]
    ensures U.Side([" a"], '-') == ["a"] && U.Side([" a"], '+') == ["a"] && L.Parses([" a"])
    ensures U.Estimate(5, 2, U.HunkOf([" a"])) <= U.BUDGET
  {
    MixedSides();
    OneLetter();
  }

  lemma OneLetter()
    ensures U.Estimate(5, 2, U.Hunk(None, ["a"], ["a"], true, false)) <= U.BUDGET
  {
    assert TotalSize(["a"]) == 1 by { assert "a"[1..] == "" && ["a"][1..] == []; }
  }

  lemma MixedSides()
    ensures U.HunkOf([" a"]) == U.Hunk(None, ["a"], ["a"], true, false) && U.END_OF_FILE !in [" a"]
    ensures U.Side([" a"], '-') == ["a"] && U.Side([" a"], '+') == ["a"] && L.Parses([" a"])
  {
    hide U.Side, Trim;
    U.HunkStep([], " a");
    assert [] + [" a"] == [" a"] && |U.END_OF_FILE| == 15 && " a"[..2][0] == ' ';
    assert U.HunkOf([]) == U.Hunk(None, [], [], false, false) by { EmptySides(); }
    assert [] + ["a"] == ["a"] && " a"[1..] == "a";
  }

  lemma EmptySides()
    ensures U.Side([], '-') == [] && U.Side([], '+') == []
  {
  }

  lemma MixedEdits()
    ensures L.EditOf(["a", "b", ""], [" a"]) == Ok(Edit(0, 1, ["a"]))
    ensures Follows(["a", "b", ""], ["a", "b"], [[" a"]], [Edit(0, 1, ["a"])])
  {
    hide L.Parses, U.HunkOf, U.Side, U.Estimate;
    var pieces, needle := ["a", "b", ""], ["a"];
    MixedHunk();
    L.FindAllIsAll(pieces, needle, 0);
    var found := L.FindAll(pieces, needle, 0);
    assert L.OccursAt(pieces, needle, 0) && 0 in found;
    assert |found| > 1 ==> found[0] < found[1];
    forall k | 0 <= k < |found| ensures found[k] == 0 {
      assert found[k] in found && L.OccursAt(pieces, needle, found[k]);
      assert pieces[found[k]] == pieces[found[k]..found[k] + 1][0];
    }
    assert found == [0];
  }

  lemma MixedFrozen()
    ensures L.Legacy(MIXED, [[" a"]]) == Ok("a\r\nb\r\n")
  {
    hide Split, Normalize, WithCrlf, HasCrlf, L.EditOf, U.Side, MIXED, L.Parses;
    MixedEndings();
    var hunks, edits, pieces := [[" a"]], [Edit(0, 1, ["a"])], ["a", "b", ""];
    MixedPieces();
    MixedHunk();
    MixedEdits();
    assert [] + [edits[0]] == edits;
    assert L.EditsTo(pieces, hunks, 1) == Ok([] + [edits[0]]);
    ForwardIsSorted(edits);
    assert Written(pieces, edits, 3) == pieces by { OneEdit(pieces, edits[0]); }
    JoinSplit("a\nb\n");
  }

  lemma OneEdit(lines: seq<string>, e: Edit)
    requires NoChange(lines, e)
    ensures Ordered([e], |lines|) && Written(lines, [e], |lines|) == lines && U.NothingChanges(lines, [e])
  {
    WrittenNoChange(lines, [], e, |lines|);
    assert [] + [e] == [e] && lines[..|lines|] == lines;
  }

  lemma MixedPlan()
    ensures var r := U.Plan(["a", "b"], 5, [[" a"]], 1);
            r.Ok? && r.value.edits == [Edit(0, 1, ["a"])]
  {
    hide L.EditOf, U.HunkOf, U.Estimate, U.Side, U.Plan, L.Parses, U.PlaceHunk, Ordered, Follows;
    var lines, pieces, raw, e := ["a", "b"], ["a", "b", ""], [" a"], Edit(0, 1, ["a"]);
    MixedHunk();
    MixedEdits();
    HunksAgree(raw);
    U.PlanStart(lines, 5, [raw]);
    PlaceFollows(pieces, lines, raw, 0);
    U.PlanStep(lines, 5, [raw], 0, U.State(0, U.BUDGET, [], 0));
    assert [] + [e] == [e];
  }

  lemma MixedPlanned()
    ensures U.Planned(MIXED, [[" a"]]).Ok? && U.Planned(MIXED, [[" a"]]).value.edits == [Edit(0, 1, ["a"])]
  {
    hide Split, Lines, Normalize, Size, MIXED, U.Plan, Ordered;
    MixedEndings();
    MixedPieces();
    MixedPlan();
  }

  /** A text with mixed endings and a hunk that only names a line of it: the frozen
      applier rewrites the other ending, the current one leaves the text alone. */
  lemma MixedEndingsDiffer()
    ensures L.Legacy(MIXED, [[" a"]]) == Ok("a\r\nb\r\n")
    ensures U.Planned(MIXED, [[" a"]]).Ok?
    ensures U.Edited(MIXED, U.Planned(MIXED, [[" a"]]).value.edits) == MIXED != "a\r\nb\r\n"
  {
    hide Split, Lines, Normalize, U.Planned, U.NothingChanges, Ordered, MIXED, L.Legacy, U.Rebuild;
    MixedFrozen();
    MixedPlanned();
    MixedPieces();
    MixedEndings();
    OneEdit(["a", "b"], Edit(0, 1, ["a"]));
  }

  lemma NothingEdited(content: string)
    ensures U.Edited(content, []) == content
  {
    assert U.NothingChanges(Lines(Normalize(content)), []);
  }
}
