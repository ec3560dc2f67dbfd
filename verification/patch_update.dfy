/** The current patch applier: forward placement with a moving cursor, three
    grades of matching, and a budget on the bytes it may compare. */
module PatchUpdate {
  import opened Wrappers
  import opened PatchText

  const MAX_CONTENT := 64 * 1024 * 1024
  const MAX_HUNKS := 200
  const BUDGET := 512 * 1024 * 1024
  const MAX_CANDIDATES := 9
  const U64_MAX := 0xFFFF_FFFF_FFFF_FFFF

  datatype Failure = PatchLimit | PatchFailed | ContextNotFound | ContextAmbiguous

  datatype Hunk = Hunk(
    anchor: Option<string>,
    before: seq<string>,
    after: seq<string>,
    context: bool,
    eof: bool)

  // ----- parsing one hunk -----

  predicate IsHeader(line: string) {
    |line| >= 2 && line[..2] == "@@"
  }

  const END_OF_FILE := "*** End of File"

  predicate IsBody(line: string) {
    !IsHeader(line) && line != END_OF_FILE
  }

  predicate WellMarked(line: string) {
    IsBody(line) && line != [] ==> line[0] in {' ', '-', '+'}
  }

  /** The lines of one side, in order: those marked as context, those with the
      side's own mark, and an empty line for each empty one. */
  function Side(raw: seq<string>, mark: char): seq<string> {
    if raw == [] then []
    else
      var line := raw[|raw| - 1];
      var front := Side(raw[..|raw| - 1], mark);
      if !IsBody(line) then front
      else if line == [] then front + [[]]
      else if line[0] in {' ', mark} then front + [line[1..]]
      else front
  }

  function Anchor(raw: seq<string>): Option<string> {
    if raw == [] then None
    else
      var line := raw[|raw| - 1];
      if !IsHeader(line) then Anchor(raw[..|raw| - 1])
      else if Trim(line[2..]) == [] then None
      else Some(Trim(line[2..]))
  }

  predicate HasContext(raw: seq<string>) {
    raw != [] &&
    var line := raw[|raw| - 1];
    (IsBody(line) && (line == [] || line[0] == ' ')) || HasContext(raw[..|raw| - 1])
  }

  function HunkOf(raw: seq<string>): Hunk {
    Hunk(Anchor(raw), Side(raw, '-'), Side(raw, '+'), HasContext(raw), END_OF_FILE in raw)
  }

  predicate Parses(raw: seq<string>) {
    forall i :: 0 <= i < |raw| ==> WellMarked(raw[i])
  }

  lemma HunkStep(front: seq<string>, line: string)
    ensures var h, g := HunkOf(front), HunkOf(front + [line]);
            && (IsHeader(line) ==> g == h.(anchor := if Trim(line[2..]) == [] then None else Some(Trim(line[2..]))))
            && (line == END_OF_FILE ==> g == h.(eof := true))
            && (IsBody(line) ==> g.anchor == h.anchor && g.eof == h.eof)
            && (line == [] ==> g.before == h.before + [[]] && g.after == h.after + [[]] && g.context)
            && (IsBody(line) && line != [] ==>
                  && g.before == (if line[0] in {' ', '-'} then h.before + [line[1..]] else h.before)
                  && g.after == (if line[0] in {' ', '+'} then h.after + [line[1..]] else h.after)
                  && g.context == (h.context || line[0] == ' '))
    ensures Parses(front + [line]) <==> Parses(front) && WellMarked(line)
  {
    var raw := front + [line];
    assert raw[..|front|] == front;
    assert END_OF_FILE in raw <==> END_OF_FILE in front || line == END_OF_FILE;
    assert |END_OF_FILE| == 15 && END_OF_FILE[0] == '*';
    if Parses(raw) {
      assert forall i :: 0 <= i < |front| ==> raw[i] == front[i];
      assert raw[|front|] == line;
    }
  }

  method ParseHunk(raw: seq<string>) returns (parsed: Option<Hunk>)
    ensures parsed == if Parses(raw) then Some(HunkOf(raw)) else None
  {
    var h := Hunk(None, [], [], false, false);
    for i := 0 to |raw|
      invariant Parses(raw[..i]) && h == HunkOf(raw[..i])
    {
      var line := raw[i];
      HunkStep(raw[..i], line);
      assert raw[..i + 1] == raw[..i] + [line];
      if IsHeader(line) {
        var anchor := Trim(line[2..]);
        h := h.(anchor := if anchor == [] then None else Some(anchor));
      } else if line == END_OF_FILE {
        h := h.(eof := true);
      } else if line == [] {
        h := h.(before := h.before + [[]], after := h.after + [[]], context := true);
      } else if line[0] == ' ' {
        h := h.(before := h.before + [line[1..]], after := h.after + [line[1..]], context := true);
      } else if line[0] == '-' {
        h := h.(before := h.before + [line[1..]]);
      } else if line[0] == '+' {
        h := h.(after := h.after + [line[1..]]);
      } else {
        assert !WellMarked(raw[i]);
        return None;
      }
    }
    assert raw[..|raw|] == raw;
    return Some(h);
  }

  /** This line of the hunk belongs to the side: a body line that is empty or is
      marked as context or as this side. */
  predicate Belongs(raw: seq<string>, mark: char, i: nat) {
    i < |raw| && IsBody(raw[i]) && (raw[i] == [] || raw[i][0] in {' ', mark})
  }

  function Content(line: string): string {
    if line == [] then [] else line[1..]
  }

  /** A side of a hunk has the lines that belong to it, in order, without their marks. */
  lemma {:induction false} SideIsPicked(raw: seq<string>, mark: char) returns (at: seq<nat>)
    ensures forall k, l :: 0 <= k < l < |at| ==> at[k] < at[l]
    ensures forall i: nat :: i in at <==> Belongs(raw, mark, i)
    ensures |Side(raw, mark)| == |at|
    ensures forall k :: 0 <= k < |at| ==> at[k] < |raw| && Side(raw, mark)[k] == Content(raw[at[k]])
  {
    hide Belongs, Content;
    at := [];
    NothingBelongs(mark);
    if raw != [] {
      var n := |raw| - 1;
      var front := SideIsPicked(raw[..n], mark);
      assert raw[..n] + [raw[n]] == raw;
      SideStep(raw[..n], raw[n], mark);
      at := if Belongs(raw, mark, n) then front + [n] else front;
      forall i: nat ensures i in at <==> Belongs(raw, mark, i) {
        assert i in front <==> Belongs(raw[..n], mark, i);
      }
    }
  }

  lemma NothingBelongs(mark: char)
    ensures forall i: nat :: !Belongs([], mark, i)
  {
  }

  lemma SideStep(front: seq<string>, line: string, mark: char)
    ensures var raw := front + [line];
            && Side(raw, mark) == (if Belongs(raw, mark, |front|) then Side(front, mark) + [Content(line)] else Side(front, mark))
            && forall i: nat :: i != |front| ==> (Belongs(raw, mark, i) <==> Belongs(front, mark, i))
  {
    assert (front + [line])[..|front|] == front;
  }

  predicate ContextLine(line: string) {
    IsBody(line) && (line == [] || line[0] == ' ')
  }

  /** There is context when a body line is empty or marked so. */
  lemma {:induction false} ContextMeans(raw: seq<string>)
    ensures HunkOf(raw).context <==> exists i :: 0 <= i < |raw| && ContextLine(raw[i])
  {
    hide IsBody;
    if raw != [] {
      var n := |raw| - 1;
      ContextMeans(raw[..n]);
      if i :| 0 <= i < n && ContextLine(raw[..n][i]) {
        assert ContextLine(raw[i]);
      }
      if i :| 0 <= i < |raw| && ContextLine(raw[i]) {
        assert i == n || ContextLine(raw[..n][i]);
      }
    }
  }

  function Named(header: string): Option<string>
    requires |header| >= 2
  {
    if Trim(header[2..]) == [] then None else Some(Trim(header[2..]))
  }

  /** The anchor is what the last header line names, if there is one. */
  lemma {:induction false} AnchorMeans(raw: seq<string>)
    ensures (forall i :: 0 <= i < |raw| ==> !("@@" <= raw[i])) ==> HunkOf(raw).anchor.None?
    ensures forall i :: 0 <= i < |raw| && "@@" <= raw[i] && (forall j :: i < j < |raw| ==> !("@@" <= raw[j])) ==>
              HunkOf(raw).anchor == Named(raw[i])
  {
    hide Trim;
    if raw != [] {
      var n := |raw| - 1;
      AnchorMeans(raw[..n]);
      assert IsHeader(raw[n]) <==> "@@" <= raw[n];
      forall i | 0 <= i < |raw| && "@@" <= raw[i] && (forall j :: i < j < |raw| ==> !("@@" <= raw[j]))
        ensures HunkOf(raw).anchor == Named(raw[i])
      {
        if i < n {
          assert raw[..n][i] == raw[i];
          assert !("@@" <= raw[n]);
          assert forall j :: i < j < n ==> raw[..n][j] == raw[j];
        }
      }
    }
  }

  // ----- matching -----

  predicate Equal(a: string, b: string, grade: nat) {
    if grade == 0 then a == b
    else if grade == 1 then TrimEnd(a) == TrimEnd(b)
    else Trim(a) == Trim(b)
  }

  /** The needle matches the lines from `i` on, and, for the end of the file, up to it. */
  predicate Fits(lines: seq<string>, needle: seq<string>, i: nat, eof: bool, grade: nat) {
    && i + |needle| <= |lines|
    && (eof ==> i + |needle| == |lines|)
    && forall k :: 0 <= k < |needle| ==> Equal(lines[i + k], needle[k], grade)
  }

  function Scan(lines: seq<string>, needle: seq<string>, i: nat, eof: bool, grade: nat, room: nat): seq<nat>
    decreases |lines| - i
  {
    if room == 0 || i + |needle| > |lines| || i == |lines| then []
    else if Fits(lines, needle, i, eof, grade) then [i] + Scan(lines, needle, i + 1, eof, grade, room - 1)
    else Scan(lines, needle, i + 1, eof, grade, room)
  }

  function Positions(lines: seq<string>, needle: seq<string>, cursor: nat, eof: bool, grade: nat): seq<nat> {
    if needle == [] then [] else Scan(lines, needle, cursor, eof, grade, MAX_CANDIDATES)
  }

  /** The first grade below `limit` with a usable list of positions: any position,
      or exactly one where `single` is asked for. */
  function FindGrade(lines: seq<string>, needle: seq<string>, cursor: nat, eof: bool, grade: nat, limit: nat, single: bool)
    : (r: Option<(seq<nat>, nat)>)
    ensures r.Some? ==>
              && grade <= r.value.1 < limit
              && r.value.0 == Positions(lines, needle, cursor, eof, r.value.1)
              && r.value.0 != [] && (single ==> |r.value.0| == 1)
    decreases limit - grade
  {
    if grade >= limit then None
    else
      var found := Positions(lines, needle, cursor, eof, grade);
      if (if single then |found| == 1 else found != []) then Some((found, grade))
      else FindGrade(lines, needle, cursor, eof, grade + 1, limit, single)
  }

  function FindLine(lines: seq<string>, anchor: string, i: nat, grade: nat): (r: Option<nat>)
    ensures r.Some? ==> i <= r.value < |lines|
    decreases |lines| - i
  {
    if i >= |lines| then None
    else if Equal(lines[i], anchor, grade) then Some(i)
    else FindLine(lines, anchor, i + 1, grade)
  }

  function FindAnchor(lines: seq<string>, anchor: string, cursor: nat, grade: nat): (r: Option<(nat, nat)>)
    ensures r.Some? ==> cursor <= r.value.0 < |lines| && r.value.1 < 3
    decreases 3 - grade
  {
    if grade >= 3 then None
    else
      var line := FindLine(lines, anchor, cursor, grade);
      if line.Some? then Some((line.value, grade)) else FindAnchor(lines, anchor, cursor, grade + 1)
  }

  // ----- placing one hunk -----

  /** Where a hunk goes: the lines it replaces, and where the next may start. A
      hunk that is already applied replaces nothing. */
  datatype Step = Step(cursor: nat, edit: Edit, grade: nat)

  function Max(a: nat, b: nat): nat {
    if a < b then b else a
  }

  predicate Nonblank(lines: seq<string>) {
    exists i :: 0 <= i < |lines| && Trim(lines[i]) != []
  }

  function PlaceBody(lines: seq<string>, h: Hunk, cursor: nat, grade: nat): (r: Result<Step, Failure>)
    requires cursor <= |lines|
    ensures r.Ok? ==> cursor <= r.value.edit.start <= r.value.edit.end <= r.value.cursor <= |lines|
  {
    if h.before == [] then
      var repeat := if |h.after| >= 2 && Nonblank(h.after)
                    then FindGrade(lines, h.after, cursor, true, 0, 2, true) else None;
      match repeat
      case Some((_, g)) => Ok(Step(|lines|, Edit(|lines|, |lines|, []), Max(grade, g)))
      case None => Ok(Step(|lines|, Edit(|lines|, |lines|, h.after), grade))
    else
      match FindGrade(lines, h.before, cursor, h.eof, 0, 3, false)
      case Some((found, g)) =>
        if |found| != 1 then Err(ContextAmbiguous)
        else
          ScanSound(lines, h.before, cursor, h.eof, g, MAX_CANDIDATES);
          var start := found[0];
          var end := start + |h.before|;
          Ok(Step(end, Edit(start, end, h.after), Max(grade, g)))
      case None =>
        if (h.context || |h.after| >= 2) && Nonblank(h.after) then
          match FindGrade(lines, h.after, cursor, h.eof, 0, 2, true)
          case Some((found, g)) =>
            ScanSound(lines, h.after, cursor, h.eof, g, MAX_CANDIDATES);
            var next := found[0] + |h.after|;
            Ok(Step(next, Edit(next, next, []), Max(grade, g)))
          case None => Err(ContextNotFound)
        else Err(ContextNotFound)
  }

  function PlaceHunk(lines: seq<string>, h: Hunk, cursor: nat): (r: Result<Step, Failure>)
    requires cursor <= |lines|
    ensures r.Ok? ==> cursor <= r.value.edit.start <= r.value.edit.end <= r.value.cursor <= |lines|
  {
    if h.anchor.None? then PlaceBody(lines, h, cursor, 0)
    else
      match FindAnchor(lines, h.anchor.value, cursor, 0)
      case None => Err(ContextNotFound)
      case Some((line, grade)) => PlaceBody(lines, h, line + 1, grade)
  }

  // ----- the comparison budget -----

  function SaturatingAdd(a: nat, b: nat): nat {
    if a + b > U64_MAX then U64_MAX else a + b
  }

  function SaturatingMul(a: nat, b: nat): nat {
    if a * b > U64_MAX then U64_MAX else a * b
  }

  function Span(h: Hunk): nat {
    Max(Max(|h.before|, |h.after|), 1)
  }

  function Estimate(size: nat, count: nat, h: Hunk): nat {
    var needles := TotalSize(h.before) + TotalSize(h.after);
    var searches := SaturatingMul(SaturatingAdd(SaturatingMul(size, Span(h)), SaturatingMul(needles, count)), 5);
    var anchors := if h.anchor.None? then 0
                   else SaturatingMul(SaturatingAdd(size, SaturatingMul(Size(h.anchor.value), count)), 3);
    SaturatingAdd(searches, anchors)
  }

  // ----- all hunks -----

  datatype State = State(cursor: nat, work: nat, edits: seq<Edit>, grade: nat)

  function Advance(lines: seq<string>, size: nat, raw: seq<string>, st: State): (r: Result<State, Failure>)
    requires st.cursor <= |lines| && Ordered(st.edits, st.cursor)
    ensures r.Ok? ==> r.value.cursor <= |lines| && Ordered(r.value.edits, r.value.cursor)
  {
    if !Parses(raw) then Err(PatchFailed)
    else
      var h := HunkOf(raw);
      if Estimate(size, |lines|, h) > st.work then Err(PatchLimit)
      else
        match PlaceHunk(lines, h, st.cursor)
        case Err(e) => Err(e)
        case Ok(step) =>
          OrderedAppend(lines, st.edits, st.cursor, step.edit, step.cursor);
          Ok(State(step.cursor, st.work - Estimate(size, |lines|, h), st.edits + [step.edit], Max(st.grade, step.grade)))
  }

  /** The state after the first `k` hunks, or the first failure among them. */
  function Plan(lines: seq<string>, size: nat, hunks: seq<seq<string>>, k: nat): (r: Result<State, Failure>)
    requires k <= |hunks|
    ensures r.Ok? ==> r.value.cursor <= |lines| && Ordered(r.value.edits, r.value.cursor)
  {
    if k == 0 then Ok(State(0, BUDGET, [], 0))
    else
      match Plan(lines, size, hunks, k - 1)
      case Err(e) => Err(e)
      case Ok(st) => Advance(lines, size, hunks[k - 1], st)
  }

  lemma {:induction false} OrderedAppend(lines: seq<string>, edits: seq<Edit>, mid: nat, e: Edit, upto: nat)
    requires Ordered(edits, mid) && mid <= e.start <= e.end <= upto <= |lines|
    ensures Ordered(edits + [e], upto)
  {
    assert (edits + [e])[..|edits|] == edits;
    if edits != [] {
      assert Ordered(edits, e.start);
    }
  }

  /** One more hunk: the state it leads to, or its failure. */
  lemma PlanStep(lines: seq<string>, size: nat, hunks: seq<seq<string>>, k: nat, st: State)
    requires k < |hunks| && Plan(lines, size, hunks, k) == Ok(st)
    ensures st.cursor <= |lines| && Ordered(st.edits, st.cursor)
    ensures !Parses(hunks[k]) ==> Plan(lines, size, hunks, k + 1) == Err(PatchFailed)
    ensures Parses(hunks[k]) ==>
              var h := HunkOf(hunks[k]);
              var estimate := Estimate(size, |lines|, h);
              if estimate > st.work then Plan(lines, size, hunks, k + 1) == Err(PatchLimit)
              else
                match PlaceHunk(lines, h, st.cursor)
                case Err(e) => Plan(lines, size, hunks, k + 1) == Err(e)
                case Ok(step) =>
                  Plan(lines, size, hunks, k + 1)
                  == Ok(State(step.cursor, st.work - estimate, st.edits + [step.edit], Max(st.grade, step.grade)))
  {
    hide Estimate, PlaceHunk, Parses, HunkOf;
  }

  lemma {:induction false} FailureSticks(lines: seq<string>, size: nat, hunks: seq<seq<string>>, k: nat, n: nat)
    requires k <= n <= |hunks| && Plan(lines, size, hunks, k).Err?
    ensures Plan(lines, size, hunks, n) == Plan(lines, size, hunks, k)
    decreases n - k
  {
    hide Advance;
    if k < n {
      FailureSticks(lines, size, hunks, k + 1, n);
    }
  }

  /** The grade at which hunk `i` was placed. */
  function GradeAt(lines: seq<string>, size: nat, hunks: seq<seq<string>>, i: nat): nat
    requires i < |hunks|
  {
    match Plan(lines, size, hunks, i)
    case Err(_) => 0
    case Ok(st) =>
      match PlaceHunk(lines, HunkOf(hunks[i]), st.cursor)
      case Err(_) => 0
      case Ok(step) => step.grade
  }

  lemma GradeStep(lines: seq<string>, size: nat, hunks: seq<seq<string>>, k: nat)
    requires k < |hunks| && Plan(lines, size, hunks, k + 1).Ok?
    ensures Plan(lines, size, hunks, k).Ok?
    ensures Plan(lines, size, hunks, k + 1).value.grade
            == Max(Plan(lines, size, hunks, k).value.grade, GradeAt(lines, size, hunks, k))
  {
    hide PlaceHunk, Estimate, Parses, HunkOf;
  }

  /** The grade reported is the loosest one at which a hunk was placed. */
  lemma {:induction false} GradeIsLoosest(lines: seq<string>, size: nat, hunks: seq<seq<string>>, k: nat)
    requires k <= |hunks| && Plan(lines, size, hunks, k).Ok?
    ensures var grade := Plan(lines, size, hunks, k).value.grade;
            && (forall i :: 0 <= i < k ==> GradeAt(lines, size, hunks, i) <= grade)
            && (grade == 0 || exists i :: 0 <= i < k && GradeAt(lines, size, hunks, i) == grade)
  {
    hide Advance, GradeAt;
    if k > 0 {
      GradeStep(lines, size, hunks, k - 1);
      GradeIsLoosest(lines, size, hunks, k - 1);
      assert GradeAt(lines, size, hunks, k - 1) <= Plan(lines, size, hunks, k).value.grade;
    }
  }

  // ----- lemmas about matching -----

  lemma {:induction false} ScanSound(lines: seq<string>, needle: seq<string>, i: nat, eof: bool, grade: nat, room: nat)
    ensures var found := Scan(lines, needle, i, eof, grade, room);
            && |found| <= room
            && (forall k :: 0 <= k < |found| ==> i <= found[k] && Fits(lines, needle, found[k], eof, grade))
            && (forall k, l :: 0 <= k < l < |found| ==> found[k] < found[l])
    decreases |lines| - i
  {
    if room == 0 || i + |needle| > |lines| || i == |lines| {
    } else if Fits(lines, needle, i, eof, grade) {
      ScanSound(lines, needle, i + 1, eof, grade, room - 1);
    } else {
      ScanSound(lines, needle, i + 1, eof, grade, room);
    }
  }

  lemma {:induction false} ScanComplete(lines: seq<string>, needle: seq<string>, i: nat, eof: bool, grade: nat, room: nat, p: nat)
    requires needle != [] && i <= p && Fits(lines, needle, p, eof, grade)
    ensures |Scan(lines, needle, i, eof, grade, room)| < room ==> p in Scan(lines, needle, i, eof, grade, room)
    decreases |lines| - i
  {
    if room > 0 {
      if Fits(lines, needle, i, eof, grade) {
        if i < p {
          ScanComplete(lines, needle, i + 1, eof, grade, room - 1, p);
        }
      } else {
        ScanComplete(lines, needle, i + 1, eof, grade, room, p);
      }
    }
  }

  /** `p` is the only match at or after the cursor. */
  predicate OnlyFit(lines: seq<string>, needle: seq<string>, cursor: nat, eof: bool, grade: nat, p: nat) {
    && cursor <= p && Fits(lines, needle, p, eof, grade)
    && forall q :: cursor <= q <= |lines| && q != p ==> !Fits(lines, needle, q, eof, grade)
  }

  predicate NoFit(lines: seq<string>, needle: seq<string>, cursor: nat, eof: bool, grade: nat) {
    forall q :: cursor <= q <= |lines| ==> !Fits(lines, needle, q, eof, grade)
  }

  /** Stopping at nine candidates hides neither an absence nor an ambiguity. */
  lemma PositionsDecide(lines: seq<string>, needle: seq<string>, cursor: nat, eof: bool, grade: nat)
    requires needle != []
    ensures Positions(lines, needle, cursor, eof, grade) == [] <==> NoFit(lines, needle, cursor, eof, grade)
    ensures forall p: nat :: Positions(lines, needle, cursor, eof, grade) == [p] <==>
                               OnlyFit(lines, needle, cursor, eof, grade, p)
  {
    var found := Positions(lines, needle, cursor, eof, grade);
    ScanSound(lines, needle, cursor, eof, grade, MAX_CANDIDATES);
    forall q: nat | cursor <= q && Fits(lines, needle, q, eof, grade)
      ensures |found| < MAX_CANDIDATES ==> q in found
    {
      ScanComplete(lines, needle, cursor, eof, grade, MAX_CANDIDATES, q);
    }
    if found != [] {
      assert cursor <= found[0] <= |lines| && Fits(lines, needle, found[0], eof, grade);
      if |found| > 1 {
        assert Fits(lines, needle, found[1], eof, grade) && found[0] < found[1] <= |lines|;
      }
    }
    forall p: nat
      ensures found == [p] <==> OnlyFit(lines, needle, cursor, eof, grade, p)
    {
      if OnlyFit(lines, needle, cursor, eof, grade, p) {
        assert |found| < MAX_CANDIDATES ==> p in found;
        assert forall k :: 0 <= k < |found| ==> found[k] == p;
      }
    }
  }

  /** The grades: the same text, the same up to white space at the end, and the same
      up to white space at both ends. */
  lemma EqualMeans(a: string, b: string)
    ensures Equal(a, b, 0) <==> a == b
    ensures Equal(a, b, 1) <==> exists core, s, t :: AllSpace(s) && AllSpace(t) && a == core + s && b == core + t
    ensures Equal(a, b, 2) <==>
              exists core, s, t, x, y ::
                AllSpace(s) && AllSpace(t) && AllSpace(x) && AllSpace(y) && a == s + core + t && b == x + core + y
  {
    var s := TrimEndParts(a);
    var t := TrimEndParts(b);
    if Equal(a, b, 1) {
      assert a == TrimEnd(a) + s && b == TrimEnd(a) + t;
    }
    forall core, s, t | AllSpace(s) && AllSpace(t) && a == core + s && b == core + t ensures Equal(a, b, 1) {
      TrimEndIgnores(core, s);
      TrimEndIgnores(core, t);
    }
    var x := TrimStartParts(TrimEnd(a));
    var y := TrimStartParts(TrimEnd(b));
    if Equal(a, b, 2) {
      assert a == x + Trim(a) + s && b == y + Trim(a) + t;
    }
    forall core, s, t, x, y |
      AllSpace(s) && AllSpace(t) && AllSpace(x) && AllSpace(y) && a == s + core + t && b == x + core + y
      ensures Equal(a, b, 2)
    {
      TrimBoth(s, core, t);
      TrimBoth(x, core, y);
    }
  }

  /** What matches at one grade matches at every looser one. */
  lemma GradesAreNested(lines: seq<string>, needle: seq<string>, i: nat, eof: bool, tight: nat, loose: nat)
    requires tight <= loose && Fits(lines, needle, i, eof, tight)
    ensures Fits(lines, needle, i, eof, loose)
  {
    forall k | 0 <= k < |needle| ensures Equal(lines[i + k], needle[k], loose) {
      assert Equal(lines[i + k], needle[k], tight);
    }
  }

  /** A hunk with an old side is placed at `p` with grade `g` exactly when `p` is
      the only match at or after the cursor at that grade and no tighter grade has
      any match. */
  lemma LocatedIffUnique(lines: seq<string>, h: Hunk, cursor: nat, p: nat, g: nat)
    requires h.before != [] && g < 3
    ensures FindGrade(lines, h.before, cursor, h.eof, 0, 3, false) == Some(([p], g)) <==>
              && OnlyFit(lines, h.before, cursor, h.eof, g, p)
              && forall t: nat :: t < g ==> NoFit(lines, h.before, cursor, h.eof, t)
  {
    PositionsDecide(lines, h.before, cursor, h.eof, 0);
    PositionsDecide(lines, h.before, cursor, h.eof, 1);
    PositionsDecide(lines, h.before, cursor, h.eof, 2);
    assert FindGrade(lines, h.before, cursor, h.eof, 3, 3, false).None?;
    if g > 0 {
      assert NoFit(lines, h.before, cursor, h.eof, 0) <==> Positions(lines, h.before, cursor, h.eof, 0) == [];
    }
  }

  /** A search accepts the places it finds at this grade. */
  ghost predicate Usable(lines: seq<string>, needle: seq<string>, cursor: nat, eof: bool, grade: nat, single: bool) {
    if single then exists p: nat :: OnlyFit(lines, needle, cursor, eof, grade, p)
    else !NoFit(lines, needle, cursor, eof, grade)
  }

  ghost predicate Tightest(lines: seq<string>, needle: seq<string>, cursor: nat, eof: bool, grade: nat, single: bool) {
    && Usable(lines, needle, cursor, eof, grade, single)
    && forall t: nat :: t < grade ==> !Usable(lines, needle, cursor, eof, t, single)
  }

  lemma UsableIsFound(lines: seq<string>, needle: seq<string>, cursor: nat, eof: bool, grade: nat)
    requires needle != []
    ensures Usable(lines, needle, cursor, eof, grade, true) <==> |Positions(lines, needle, cursor, eof, grade)| == 1
    ensures Usable(lines, needle, cursor, eof, grade, false) <==> Positions(lines, needle, cursor, eof, grade) != []
  {
    hide OnlyFit, NoFit, Positions;
    PositionsDecide(lines, needle, cursor, eof, grade);
    var found := Positions(lines, needle, cursor, eof, grade);
    assert |found| == 1 ==> found == [found[0]];
  }

  lemma {:induction false} FindGradeFrom(lines: seq<string>, needle: seq<string>, cursor: nat, eof: bool,
                                         grade: nat, limit: nat, single: bool)
    requires needle != [] && grade <= limit
    ensures var r := FindGrade(lines, needle, cursor, eof, grade, limit, single);
            && (r.None? <==> forall g: nat :: grade <= g < limit ==> !Usable(lines, needle, cursor, eof, g, single))
            && (r.Some? ==>
                  && Usable(lines, needle, cursor, eof, r.value.1, single)
                  && forall t: nat :: grade <= t < r.value.1 ==> !Usable(lines, needle, cursor, eof, t, single))
    decreases limit - grade
  {
    hide Usable, Positions;
    if grade < limit {
      UsableIsFound(lines, needle, cursor, eof, grade);
      FindGradeFrom(lines, needle, cursor, eof, grade + 1, limit, single);
    }
  }

  /** A search takes the tightest grade it accepts. */
  lemma FindGradeIsTightest(lines: seq<string>, needle: seq<string>, cursor: nat, eof: bool, limit: nat, single: bool)
    requires needle != []
    ensures var r := FindGrade(lines, needle, cursor, eof, 0, limit, single);
            && (r.None? <==> forall g: nat :: g < limit ==> !Tightest(lines, needle, cursor, eof, g, single))
            && forall g: nat :: g < limit && Tightest(lines, needle, cursor, eof, g, single) ==>
                 r == Some((Positions(lines, needle, cursor, eof, g), g))
  {
    hide Usable, FindGrade, Positions;
    FindGradeFrom(lines, needle, cursor, eof, 0, limit, single);
    var r := FindGrade(lines, needle, cursor, eof, 0, limit, single);
    if r.Some? {
      assert Tightest(lines, needle, cursor, eof, r.value.1, single);
    }
  }

  /** The old side of a hunk counts at the tightest grade at which it matches at all:
      matching once there, it is replaced; matching more often, the hunk is ambiguous. */
  lemma ReplacementPlaced(lines: seq<string>, h: Hunk, cursor: nat, grade: nat, g: nat)
    requires h.before != [] && cursor <= |lines|
    requires g < 3 && Tightest(lines, h.before, cursor, h.eof, g, false)
    ensures var r := PlaceBody(lines, h, cursor, grade);
            && (forall p: nat :: OnlyFit(lines, h.before, cursor, h.eof, g, p) ==>
                  r == Ok(Step(p + |h.before|, Edit(p, p + |h.before|, h.after), Max(grade, g))))
            && ((forall p: nat :: !OnlyFit(lines, h.before, cursor, h.eof, g, p)) <==> r == Err(ContextAmbiguous))
  {
    hide FindGrade, Positions, OnlyFit, NoFit, Tightest, Nonblank;
    FindGradeIsTightest(lines, h.before, cursor, h.eof, 3, false);
    UsableIsFound(lines, h.before, cursor, h.eof, g);
    PositionsDecide(lines, h.before, cursor, h.eof, g);
  }

  /** When the old side matches at no grade, the hunk counts as applied if its new side
      is telling and is there exactly once, and is not found otherwise. */
  lemma RepeatPlaced(lines: seq<string>, h: Hunk, cursor: nat, grade: nat)
    requires h.before != [] && cursor <= |lines|
    requires forall g: nat :: g < 3 ==> NoFit(lines, h.before, cursor, h.eof, g)
    ensures var r := PlaceBody(lines, h, cursor, grade);
            if (h.context || |h.after| >= 2) && Nonblank(h.after)
               && exists g: nat :: g < 2 && Tightest(lines, h.after, cursor, h.eof, g, true)
            then
              forall g: nat, p: nat ::
                g < 2 && Tightest(lines, h.after, cursor, h.eof, g, true) && OnlyFit(lines, h.after, cursor, h.eof, g, p) ==>
                  r == Ok(Step(p + |h.after|, Edit(p + |h.after|, p + |h.after|, []), Max(grade, g)))
            else r == Err(ContextNotFound)
  {
    hide FindGrade, Positions, OnlyFit, NoFit, Nonblank;
    NonblankHasLines(h.after);
    FindGradeFrom(lines, h.before, cursor, h.eof, 0, 3, false);
    if h.after != [] {
      hide Tightest;
      FindGradeIsTightest(lines, h.after, cursor, h.eof, 2, true);
      forall g: nat, p: nat | OnlyFit(lines, h.after, cursor, h.eof, g, p)
        ensures Positions(lines, h.after, cursor, h.eof, g) == [p]
      {
        PositionsDecide(lines, h.after, cursor, h.eof, g);
      }
    }
  }

  lemma NonblankHasLines(lines: seq<string>)
    ensures Nonblank(lines) ==> lines != []
  {
  }

  /** A hunk without an old side is appended, unless the text already ends with it. */
  lemma AppendPlaced(lines: seq<string>, h: Hunk, cursor: nat, grade: nat)
    requires h.before == [] && cursor <= |lines|
    ensures var r := PlaceBody(lines, h, cursor, grade);
            var n := |lines|;
            var there := |h.after| >= 2 && Nonblank(h.after);
            && (there ==> forall g: nat :: g < 2 && Tightest(lines, h.after, cursor, true, g, true) ==>
                  r == Ok(Step(n, Edit(n, n, []), Max(grade, g))))
            && ((there ==> forall g: nat :: g < 2 ==> !Tightest(lines, h.after, cursor, true, g, true)) ==>
                  r == Ok(Step(n, Edit(n, n, h.after), grade)))
  {
    hide FindGrade, Tightest, Nonblank;
    if h.after != [] {
      FindGradeIsTightest(lines, h.after, cursor, true, 2, true);
    }
  }

  /** The first line equal to the anchor at grade `g`, where no line is at a tighter one. */
  predicate FirstAnchor(lines: seq<string>, anchor: string, cursor: nat, p: nat, g: nat) {
    && cursor <= p < |lines| && Equal(lines[p], anchor, g)
    && (forall q :: cursor <= q < p ==> !Equal(lines[q], anchor, g))
    && forall t: nat, q: nat :: t < g && cursor <= q < |lines| ==> !Equal(lines[q], anchor, t)
  }

  lemma {:induction false} FindLineIsFirst(lines: seq<string>, anchor: string, i: nat, grade: nat)
    ensures var r := FindLine(lines, anchor, i, grade);
            if r.Some? then
              Equal(lines[r.value], anchor, grade) && forall q :: i <= q < r.value ==> !Equal(lines[q], anchor, grade)
            else forall q :: i <= q < |lines| ==> !Equal(lines[q], anchor, grade)
    decreases |lines| - i
  {
    if i < |lines| {
      FindLineIsFirst(lines, anchor, i + 1, grade);
    }
  }

  /** Where a hunk is searched from: behind its anchor, or not at all without one. */
  lemma AnchorPlaced(lines: seq<string>, h: Hunk, cursor: nat)
    requires cursor <= |lines|
    ensures h.anchor.None? ==> PlaceHunk(lines, h, cursor) == PlaceBody(lines, h, cursor, 0)
    ensures h.anchor.Some? ==>
              var r := PlaceHunk(lines, h, cursor);
              && (forall p: nat, g: nat :: g < 3 && FirstAnchor(lines, h.anchor.value, cursor, p, g) ==>
                    r == PlaceBody(lines, h, p + 1, g))
              && ((forall p: nat, g: nat :: g < 3 ==> !FirstAnchor(lines, h.anchor.value, cursor, p, g)) ==>
                    r == Err(ContextNotFound))
  {
    hide PlaceBody, Equal;
    if h.anchor.Some? {
      var a := h.anchor.value;
      FindLineIsFirst(lines, a, cursor, 0);
      FindLineIsFirst(lines, a, cursor, 1);
      FindLineIsFirst(lines, a, cursor, 2);
      assert FindAnchor(lines, a, cursor, 3).None?;
      var r := FindAnchor(lines, a, cursor, 0);
      if r.Some? {
        assert FirstAnchor(lines, a, cursor, r.value.0, r.value.1);
      }
    }
  }

  // ----- what the searches really compare -----

  function CompareCost(lines: seq<string>, needle: seq<string>, i: nat, k: nat, grade: nat): nat
    requires i + |needle| <= |lines| && k <= |needle|
    decreases |needle| - k
  {
    if k == |needle| then 0
    else Size(lines[i + k]) + Size(needle[k])
         + (if Equal(lines[i + k], needle[k], grade) then CompareCost(lines, needle, i, k + 1, grade) else 0)
  }

  /** The bytes that `Scan` compares: every window up to its first difference. */
  function ScanCost(lines: seq<string>, needle: seq<string>, i: nat, eof: bool, grade: nat, room: nat): nat
    decreases |lines| - i
  {
    if room == 0 || i + |needle| > |lines| || i == |lines| then 0
    else
      (if eof && i + |needle| != |lines| then 0 else CompareCost(lines, needle, i, 0, grade))
      + ScanCost(lines, needle, i + 1, eof, grade, if Fits(lines, needle, i, eof, grade) then room - 1 else room)
  }

  function FindGradeCost(lines: seq<string>, needle: seq<string>, cursor: nat, eof: bool, grade: nat, limit: nat, single: bool): nat
    decreases limit - grade
  {
    if grade >= limit || needle == [] then 0
    else
      var found := Positions(lines, needle, cursor, eof, grade);
      ScanCost(lines, needle, cursor, eof, grade, MAX_CANDIDATES)
      + (if (if single then |found| == 1 else found != []) then 0
         else FindGradeCost(lines, needle, cursor, eof, grade + 1, limit, single))
  }

  function FindLineCost(lines: seq<string>, anchor: string, i: nat, grade: nat): nat
    decreases |lines| - i
  {
    if i >= |lines| then 0
    else Size(lines[i]) + Size(anchor)
         + (if Equal(lines[i], anchor, grade) then 0 else FindLineCost(lines, anchor, i + 1, grade))
  }

  function FindAnchorCost(lines: seq<string>, anchor: string, cursor: nat, grade: nat): nat
    decreases 3 - grade
  {
    if grade >= 3 then 0
    else FindLineCost(lines, anchor, cursor, grade)
         + (if FindLine(lines, anchor, cursor, grade).Some? then 0 else FindAnchorCost(lines, anchor, cursor, grade + 1))
  }

  /** How many lines two lists have in common at their start. */
  function Common(a: seq<string>, b: seq<string>): (n: nat)
    ensures n <= |a| && n <= |b|
  {
    if a == [] || b == [] || a[0] != b[0] then 0 else 1 + Common(a[1..], b[1..])
  }

  /** The bytes compared from the start of two lists up to their first difference. */
  function PrefixCost(a: seq<string>, b: seq<string>): nat {
    if a == [] || b == [] then 0
    else Size(a[0]) + Size(b[0]) + (if a[0] == b[0] then PrefixCost(a[1..], b[1..]) else 0)
  }

  /** The bytes compared from the end of two lists down to their last difference. */
  function SuffixCost(a: seq<string>, b: seq<string>): nat {
    if a == [] || b == [] then 0
    else
      var x, y := a[|a| - 1], b[|b| - 1];
      Size(x) + Size(y) + (if x == y then SuffixCost(a[..|a| - 1], b[..|b| - 1]) else 0)
  }

  /** The bytes compared to drop what stays the same at both ends. */
  function TrimCost(before: seq<string>, after: seq<string>): nat {
    var n := Common(before, after);
    PrefixCost(before, after) + SuffixCost(before[n..], after[n..])
  }

  /** The trimming of a hunk that was located. */
  function LocatedTrimCost(lines: seq<string>, h: Hunk, cursor: nat): nat {
    match FindGrade(lines, h.before, cursor, h.eof, 0, 3, false)
    case None => 0
    case Some((found, _)) =>
      if |found| == 1 && found[0] + |h.before| <= |lines|
      then TrimCost(lines[found[0]..found[0] + |h.before|], h.after) else 0
  }

  function BodyCost(lines: seq<string>, h: Hunk, cursor: nat): nat {
    if h.before == [] then
      if |h.after| >= 2 && Nonblank(h.after) then FindGradeCost(lines, h.after, cursor, true, 0, 2, true) else 0
    else
      FindGradeCost(lines, h.before, cursor, h.eof, 0, 3, false)
      + LocatedTrimCost(lines, h, cursor)
      + (if FindGrade(lines, h.before, cursor, h.eof, 0, 3, false).None?
            && (h.context || |h.after| >= 2) && Nonblank(h.after)
         then FindGradeCost(lines, h.after, cursor, h.eof, 0, 2, true) else 0)
  }

  function HunkCost(lines: seq<string>, h: Hunk, cursor: nat): nat
    requires cursor <= |lines|
  {
    if h.anchor.None? then BodyCost(lines, h, cursor)
    else
      FindAnchorCost(lines, h.anchor.value, cursor, 0)
      + match FindAnchor(lines, h.anchor.value, cursor, 0)
        case None => 0
        case Some((line, _)) => BodyCost(lines, h, line + 1)
  }

  // ----- lemmas about the budget -----

  lemma {:induction false} TotalSizeStep(lines: seq<string>, lo: nat, hi: nat)
    requires lo < hi <= |lines|
    ensures TotalSize(lines[lo..hi]) == Size(lines[lo]) + TotalSize(lines[lo + 1..hi])
  {
    assert lines[lo..hi][1..] == lines[lo + 1..hi];
  }

  lemma TotalSizeSlice(lines: seq<string>, lo: nat, hi: nat)
    requires lo <= hi <= |lines|
    ensures TotalSize(lines[lo..hi]) <= TotalSize(lines)
  {
    hide TotalSize;
    var a, b, c := lines[..lo], lines[lo..hi], lines[hi..];
    TotalSizeConcat(a, b + c);
    TotalSizeConcat(b, c);
    assert lines == a + (b + c);
  }

  lemma {:induction false} CompareCostBound(lines: seq<string>, needle: seq<string>, i: nat, k: nat, grade: nat)
    requires i + |needle| <= |lines| && k <= |needle|
    ensures CompareCost(lines, needle, i, k, grade)
            <= TotalSize(lines[i + k..i + |needle|]) + TotalSize(needle[k..])
    decreases |needle| - k
  {
    if k < |needle| {
      TotalSizeStep(lines, i + k, i + |needle|);
      TotalSizeStep(needle, k, |needle|);
      assert needle[k..] == needle[k..|needle|] && needle[k + 1..] == needle[k + 1..|needle|];
      CompareCostBound(lines, needle, i, k + 1, grade);
    }
  }

  /** What the windows from `i` on read of the lines, column by column. */
  function Columns(lines: seq<string>, width: nat, i: nat, k: nat): nat
    requires i + width <= |lines| + 1 && k <= width
    decreases width - k
  {
    if k == width then 0
    else TotalSize(lines[i + k..|lines| - width + k + 1]) + Columns(lines, width, i, k + 1)
  }

  lemma {:induction false} ColumnsStep(lines: seq<string>, width: nat, i: nat, k: nat)
    requires i + width <= |lines| && k <= width
    ensures Columns(lines, width, i, k) == TotalSize(lines[i + k..i + width]) + Columns(lines, width, i + 1, k)
    decreases width - k
  {
    if k < width {
      TotalSizeStep(lines, i + k, |lines| - width + k + 1);
      TotalSizeStep(lines, i + k, i + width);
      ColumnsStep(lines, width, i, k + 1);
    }
  }

  lemma {:induction false} ColumnsBound(lines: seq<string>, width: nat, i: nat, k: nat)
    requires i + width <= |lines| + 1 && k <= width
    ensures Columns(lines, width, i, k) <= (width - k) * TotalSize(lines)
    decreases width - k
  {
    if k < width {
      TotalSizeSlice(lines, i + k, |lines| - width + k + 1);
      ColumnsBound(lines, width, i, k + 1);
      assert (width - k) * TotalSize(lines) == TotalSize(lines) + (width - k - 1) * TotalSize(lines);
    }
  }

  lemma {:induction false} ScanCostBound(lines: seq<string>, needle: seq<string>, i: nat, eof: bool, grade: nat, room: nat)
    requires needle != [] && i + |needle| <= |lines| + 1
    ensures ScanCost(lines, needle, i, eof, grade, room)
            <= Columns(lines, |needle|, i, 0) + (|lines| + 1 - |needle| - i) * TotalSize(needle)
    decreases |lines| - i
  {
    hide CompareCost, Columns, TotalSize, Fits;
    if room != 0 && i + |needle| <= |lines| {
      CompareCostBound(lines, needle, i, 0, grade);
      assert needle[0..] == needle;
      ColumnsStep(lines, |needle|, i, 0);
      MulStep(|lines| - |needle| - i, TotalSize(needle));
      ScanCostBound(lines, needle, i + 1, eof, grade, if Fits(lines, needle, i, eof, grade) then room - 1 else room);
    } else {
      MulMono(0, |lines| + 1 - |needle| - i, 0, TotalSize(needle));
    }
  }

  lemma MulStep(n: nat, x: nat)
    ensures (n + 1) * x == n * x + x
  {
  }

  lemma MulMono(a: nat, b: nat, c: nat, d: nat)
    requires a <= b && c <= d
    ensures a * c <= b * d
  {
    assert a * c <= b * c <= b * d;
  }

  /** One search costs at most a window's width times the text, plus the needle
      times the number of lines. */
  lemma SearchBound(lines: seq<string>, needle: seq<string>, cursor: nat, eof: bool, grade: nat, width: nat)
    requires needle != [] && |needle| <= width
    ensures ScanCost(lines, needle, cursor, eof, grade, MAX_CANDIDATES)
            <= width * TotalSize(lines) + TotalSize(needle) * |lines|
  {
    if cursor + |needle| <= |lines| {
      ScanCostBound(lines, needle, cursor, eof, grade, MAX_CANDIDATES);
      ColumnsBound(lines, |needle|, cursor, 0);
      MulMono(|needle|, width, TotalSize(lines), TotalSize(lines));
      MulMono(|lines| + 1 - |needle| - cursor, |lines|, TotalSize(needle), TotalSize(needle));
    } else {
      MulMono(0, width, 0, TotalSize(lines));
      MulMono(0, TotalSize(needle), 0, |lines|);
    }
  }

  lemma {:induction false} FindGradeBound(lines: seq<string>, needle: seq<string>, cursor: nat, eof: bool,
                                         grade: nat, limit: nat, single: bool, width: nat, cost: nat)
    requires |needle| <= width && grade <= limit
    requires cost == width * TotalSize(lines) + TotalSize(needle) * |lines|
    ensures FindGradeCost(lines, needle, cursor, eof, grade, limit, single) <= (limit - grade) * cost
    decreases limit - grade
  {
    if grade < limit {
      FindGradeBound(lines, needle, cursor, eof, grade + 1, limit, single, width, cost);
      assert (limit - grade) * cost == cost + (limit - grade - 1) * cost;
      if needle != [] {
        SearchBound(lines, needle, cursor, eof, grade, width);
      } else {
        MulMono(0, limit - grade, 0, cost);
      }
    }
  }

  lemma {:induction false} FindLineBound(lines: seq<string>, anchor: string, i: nat, grade: nat)
    requires i <= |lines|
    ensures FindLineCost(lines, anchor, i, grade) <= TotalSize(lines[i..]) + Size(anchor) * (|lines| - i)
    decreases |lines| - i
  {
    if i < |lines| {
      TotalSizeStep(lines, i, |lines|);
      assert lines[i..] == lines[i..|lines|] && lines[i + 1..] == lines[i + 1..|lines|];
      FindLineBound(lines, anchor, i + 1, grade);
      assert Size(anchor) * (|lines| - i) == Size(anchor) + Size(anchor) * (|lines| - i - 1);
      MulMono(0, Size(anchor), 0, |lines| - i - 1);
    }
  }

  lemma {:induction false} FindAnchorBound(lines: seq<string>, anchor: string, cursor: nat, grade: nat, cost: nat)
    requires cursor <= |lines| && grade <= 3
    requires cost == TotalSize(lines) + Size(anchor) * |lines|
    ensures FindAnchorCost(lines, anchor, cursor, grade) <= (3 - grade) * cost
    decreases 3 - grade
  {
    if grade < 3 {
      FindLineBound(lines, anchor, cursor, grade);
      TotalSizeSlice(lines, cursor, |lines|);
      assert lines[cursor..] == lines[cursor..|lines|];
      MulMono(Size(anchor), Size(anchor), |lines| - cursor, |lines|);
      FindAnchorBound(lines, anchor, cursor, grade + 1, cost);
      assert (3 - grade) * cost == cost + (2 - grade) * cost;
    }
  }

  lemma Distribute(a: nat, b: nat, c: nat)
    ensures (a + b) * c == a * c + b * c && a * c >= 0 && b * c >= 0
  {
  }

  lemma {:induction false} PrefixCostBound(a: seq<string>, b: seq<string>)
    ensures PrefixCost(a, b) <= TotalSize(a) + TotalSize(b)
  {
    if a != [] && b != [] {
      PrefixCostBound(a[1..], b[1..]);
    }
  }

  lemma {:induction false} SuffixCostBound(a: seq<string>, b: seq<string>)
    ensures SuffixCost(a, b) <= TotalSize(a) + TotalSize(b)
  {
    if a != [] && b != [] {
      SuffixCostBound(a[..|a| - 1], b[..|b| - 1]);
      TotalSizeLast(a);
      TotalSizeLast(b);
    }
  }

  lemma TotalSizeLast(lines: seq<string>)
    requires lines != []
    ensures TotalSize(lines) == TotalSize(lines[..|lines| - 1]) + Size(lines[|lines| - 1])
  {
    var front, last := lines[..|lines| - 1], [lines[|lines| - 1]];
    TotalSizeConcat(front, last);
    assert lines == front + last && last[1..] == [];
  }

  /** Trimming reads the old and the new lines at most twice. */
  lemma TrimCostBound(before: seq<string>, after: seq<string>)
    ensures TrimCost(before, after) <= 2 * (TotalSize(before) + TotalSize(after))
  {
    hide TotalSize, PrefixCost, SuffixCost, Common;
    var n := Common(before, after);
    PrefixCostBound(before, after);
    SuffixCostBound(before[n..], after[n..]);
    assert before[n..] == before[n..|before|] && after[n..] == after[n..|after|];
    TotalSizeSlice(before, n, |before|);
    TotalSizeSlice(after, n, |after|);
  }

  /** A hunk that was located leaves room for two searches of its new side, and
      trimming takes no more than these would. */
  lemma LocatedTrimBound(lines: seq<string>, h: Hunk, cursor: nat, cost: nat)
    requires h.before != [] && cost == Span(h) * TotalSize(lines) + TotalSize(h.after) * |lines|
    ensures LocatedTrimCost(lines, h, cursor) <= 2 * cost
    ensures FindGrade(lines, h.before, cursor, h.eof, 0, 3, false).None? ==> LocatedTrimCost(lines, h, cursor) == 0
  {
    hide FindGrade, TotalSize, TrimCost;
    var r := FindGrade(lines, h.before, cursor, h.eof, 0, 3, false);
    MulMono(1, Span(h), TotalSize(lines), TotalSize(lines));
    if r.Some? && |r.value.0| == 1 && r.value.0[0] + |h.before| <= |lines| {
      var start := r.value.0[0];
      TrimCostBound(lines[start..start + |h.before|], h.after);
      TotalSizeSlice(lines, start, start + |h.before|);
      MulMono(TotalSize(h.after), TotalSize(h.after), 1, |lines|);
    } else {
      MulMono(0, TotalSize(h.after), 0, |lines|);
    }
  }

  /** Three searches for the old side, and then two for the new one or the trimming
      of a located hunk, are five of a size that the estimate allows for. */
  lemma BodyBound(lines: seq<string>, h: Hunk, cursor: nat, text: nat, needles: nat)
    requires text == Span(h) * TotalSize(lines)
    requires needles == (TotalSize(h.before) + TotalSize(h.after)) * |lines|
    ensures BodyCost(lines, h, cursor) <= 5 * (text + needles)
  {
    hide FindGradeCost, FindGrade, TotalSize, Nonblank, LocatedTrimCost, Span;
    Distribute(TotalSize(h.before), TotalSize(h.after), |lines|);
    var b := text + TotalSize(h.before) * |lines|;
    var a := text + TotalSize(h.after) * |lines|;
    SpanCovers(h);
    FindGradeBound(lines, h.before, cursor, h.eof, 0, 3, false, Span(h), b);
    if h.before == [] {
      FindGradeBound(lines, h.after, cursor, true, 0, 2, true, Span(h), a);
    } else {
      FindGradeBound(lines, h.after, cursor, h.eof, 0, 2, true, Span(h), a);
      LocatedTrimBound(lines, h, cursor, a);
    }
  }

  lemma SpanCovers(h: Hunk)
    ensures |h.before| <= Span(h) && |h.after| <= Span(h) && 1 <= Span(h)
  {
  }

  function AnchorEstimate(size: nat, count: nat, h: Hunk): nat {
    if h.anchor.None? then 0 else 3 * (size + Size(h.anchor.value) * count)
  }

  /** A saturating estimate that fits the budget has not saturated. */
  lemma EstimateUnsaturated(size: nat, count: nat, h: Hunk, text: nat, needles: nat)
    requires Estimate(size, count, h) <= BUDGET
    requires text == size * Span(h) && needles == (TotalSize(h.before) + TotalSize(h.after)) * count
    ensures Estimate(size, count, h) == 5 * (text + needles) + AnchorEstimate(size, count, h)
  {
    hide TotalSize, Size, Span;
    if h.anchor.Some? {
      MulMono(0, Size(h.anchor.value), 0, count);
    }
  }

  lemma AnchoredBound(lines: seq<string>, h: Hunk, cursor: nat, size: nat, body: nat)
    requires cursor <= |lines| && TotalSize(lines) <= size
    requires forall c: nat :: BodyCost(lines, h, c) <= body
    ensures HunkCost(lines, h, cursor) <= body + AnchorEstimate(size, |lines|, h)
  {
    hide BodyCost, FindAnchorCost, FindAnchor, TotalSize, Size;
    if h.anchor.Some? {
      FindAnchorBound(lines, h.anchor.value, cursor, 0, TotalSize(lines) + Size(h.anchor.value) * |lines|);
    }
  }

  lemma HunkBound(lines: seq<string>, size: nat, h: Hunk, cursor: nat)
    requires cursor <= |lines| && TotalSize(lines) <= size
    requires Estimate(size, |lines|, h) <= BUDGET
    ensures HunkCost(lines, h, cursor) <= Estimate(size, |lines|, h)
  {
    hide Estimate, HunkCost, BodyCost, Span, TotalSize, Size, AnchorEstimate;
    var needles := (TotalSize(h.before) + TotalSize(h.after)) * |lines|;
    var text, whole := Span(h) * TotalSize(lines), size * Span(h);
    MulSwap(TotalSize(lines), size, Span(h));
    EstimateUnsaturated(size, |lines|, h, whole, needles);
    forall c: nat ensures BodyCost(lines, h, c) <= 5 * (whole + needles) {
      BodyBound(lines, h, c, text, needles);
    }
    AnchoredBound(lines, h, cursor, size, 5 * (whole + needles));
  }

  lemma MulSwap(a: nat, b: nat, c: nat)
    requires a <= b
    ensures c * a <= b * c
  {
    MulMono(a, b, c, c);
  }

  /** The bytes compared to place one more hunk. A hunk that does not parse or is
      over budget is refused before anything is compared. */
  function AdvanceCost(lines: seq<string>, size: nat, raw: seq<string>, st: State): nat
    requires st.cursor <= |lines|
  {
    if !Parses(raw) || Estimate(size, |lines|, HunkOf(raw)) > st.work then 0 else HunkCost(lines, HunkOf(raw), st.cursor)
  }

  function PlanCost(lines: seq<string>, size: nat, hunks: seq<seq<string>>, k: nat): nat
    requires k <= |hunks|
  {
    if k == 0 then 0
    else
      PlanCost(lines, size, hunks, k - 1)
      + match Plan(lines, size, hunks, k - 1)
        case Err(_) => 0
        case Ok(st) => AdvanceCost(lines, size, hunks[k - 1], st)
  }

  lemma AdvanceBound(lines: seq<string>, size: nat, raw: seq<string>, st: State)
    requires st.cursor <= |lines| && Ordered(st.edits, st.cursor) && TotalSize(lines) <= size && st.work <= BUDGET
    ensures AdvanceCost(lines, size, raw, st) <= st.work
    ensures var r := Advance(lines, size, raw, st);
            r.Ok? ==> r.value.work <= st.work && AdvanceCost(lines, size, raw, st) <= st.work - r.value.work
  {
    hide Estimate, HunkCost, PlaceHunk, Parses, HunkOf;
    if Parses(raw) && Estimate(size, |lines|, HunkOf(raw)) <= st.work {
      HunkBound(lines, size, HunkOf(raw), st.cursor);
    }
  }

  /** For any lines: all anchor searches, all graded window searches and all trimming
      over all hunks together never compare more than the budget. */
  lemma {:induction false} ComparisonsAreBounded(lines: seq<string>, size: nat, hunks: seq<seq<string>>, k: nat)
    requires k <= |hunks| && TotalSize(lines) <= size
    ensures PlanCost(lines, size, hunks, k) <= BUDGET
    ensures var r := Plan(lines, size, hunks, k);
            r.Ok? ==> r.value.work <= BUDGET && PlanCost(lines, size, hunks, k) <= BUDGET - r.value.work
  {
    hide AdvanceCost, Advance;
    if k > 0 {
      ComparisonsAreBounded(lines, size, hunks, k - 1);
      var r := Plan(lines, size, hunks, k - 1);
      if r.Ok? {
        AdvanceBound(lines, size, hunks[k - 1], r.value);
      }
    }
  }

  /** Whatever the patch and the text, applying it never compares more than the budget. */
  lemma ApplyingIsBounded(content: string, hunks: seq<seq<string>>)
    ensures PlanCost(Lines(Normalize(content)), Size(content), hunks, |hunks|) <= BUDGET
  {
    LinesShrink(content);
    ComparisonsAreBounded(Lines(Normalize(content)), Size(content), hunks, |hunks|);
  }

  // ----- applying a patch -----

  /** `endLine` is `startLine - 1` for a pure removal. */
  datatype ChangedRange = ChangedRange(startLine: nat, endLine: nat, added: nat, removed: nat)

  datatype Update = Update(
    content: string,
    ranges: seq<ChangedRange>,
    grade: nat,
    alreadyApplied: bool,
    additions: nat,
    removals: nat)

  predicate NothingChanges(lines: seq<string>, edits: seq<Edit>) {
    forall i :: 0 <= i < |edits| ==> NoChange(lines, edits[i])
  }

  function Rebuild(content: string, lines: seq<string>): string {
    var joined := Join(lines);
    var text := if lines != [] && (EndsWithNewline(Normalize(content)) || content == []) then joined + ['\n'] else joined;
    if HasCrlf(content) then WithCrlf(text) else text
  }

  /** The content after all edits, each replacing its whole matched range, from
      left to right; the very same bytes when no edit changes anything. */
  function Edited(content: string, edits: seq<Edit>): string
    requires Ordered(edits, |Lines(Normalize(content))|)
  {
    var lines := Lines(Normalize(content));
    if NothingChanges(lines, edits) then content else Rebuild(content, Written(lines, edits, |lines|))
  }

  /** What placing every hunk comes to: the edits to make, or the first failure. */
  function Planned(content: string, hunks: seq<seq<string>>): (r: Result<State, Failure>)
    ensures r.Ok? ==> Ordered(r.value.edits, |Lines(Normalize(content))|)
  {
    if Size(content) > MAX_CONTENT || |hunks| > MAX_HUNKS then Err(PatchLimit)
    else
      var lines := Lines(Normalize(content));
      var r := Plan(lines, Size(content), hunks, |hunks|);
      if r.Ok? then OrderedWiden(r.value.edits, r.value.cursor, |lines|); r else r
  }

  /** How many lines of an edit stay the same at its start. */
  method CommonPrefix(lines: seq<string>, e: Edit) returns (prefix: nat)
    requires e.start <= e.end <= |lines|
    ensures prefix <= e.end - e.start && prefix <= |e.after|
    ensures lines[e.start..e.start + prefix] == e.after[..prefix]
    ensures prefix < e.end - e.start && prefix < |e.after| ==> lines[e.start + prefix] != e.after[prefix]
    ensures NoChange(lines, e) ==> prefix == |e.after| == e.end - e.start
    ensures prefix == Common(lines[e.start..e.end], e.after)
  {
    hide Common;
    prefix := 0;
    while prefix < e.end - e.start && prefix < |e.after| && lines[e.start + prefix] == e.after[prefix]
      invariant prefix <= e.end - e.start && prefix <= |e.after|
      invariant lines[e.start..e.start + prefix] == e.after[..prefix]
    {
      assert lines[e.start..e.start + prefix + 1] == lines[e.start..e.start + prefix] + [lines[e.start + prefix]];
      assert e.after[..prefix + 1] == e.after[..prefix] + [e.after[prefix]];
      prefix := prefix + 1;
    }
    assert NoChange(lines, e) ==> forall k :: 0 <= k < |e.after| ==> lines[e.start + k] == e.after[k];
    var before := lines[e.start..e.end];
    assert before[..prefix] == lines[e.start..e.start + prefix];
    CommonIs(before, e.after, prefix);
  }

  lemma {:induction false} CommonIs(a: seq<string>, b: seq<string>, n: nat)
    requires n <= |a| && n <= |b| && a[..n] == b[..n]
    requires n < |a| && n < |b| ==> a[n] != b[n]
    ensures Common(a, b) == n
  {
    if n > 0 {
      assert a[0] == a[..n][0] == b[..n][0] == b[0];
      assert a[1..][..n - 1] == a[..n][1..] == b[..n][1..] == b[1..][..n - 1];
      CommonIs(a[1..], b[1..], n - 1);
    }
  }

  /** `small` is what is left of `large` without the longest stretch of lines that
      stay the same at its start, and then the longest such stretch at its end. */
  predicate TightTrim(lines: seq<string>, small: Edit, large: Edit) {
    && TrimOf(lines, small, large)
    && (small.start < large.end && small.start - large.start < |large.after| ==>
          lines[small.start] != large.after[small.start - large.start])
    && (small.start < small.end && small.after != [] ==>
          lines[small.end - 1] != small.after[|small.after| - 1])
  }

  /** The edit changes something, and has no line that stays the same at either end. */
  predicate Tight(lines: seq<string>, e: Edit) {
    && e.start <= e.end <= |lines|
    && (e.start < e.end || e.after != [])
    && (e.start < e.end && e.after != [] ==>
          lines[e.start] != e.after[0] && lines[e.end - 1] != e.after[|e.after| - 1])
  }

  /** The placements are the trims of those edits that change something, in order. */
  ghost predicate TrimsOf(lines: seq<string>, placements: seq<Edit>, edits: seq<Edit>)
    decreases |edits|
  {
    if edits == [] then placements == []
    else
      var front, last := edits[..|edits| - 1], edits[|edits| - 1];
      if NoChange(lines, last) then TrimsOf(lines, placements, front)
      else
        && placements != []
        && TightTrim(lines, placements[|placements| - 1], last)
        && TrimsOf(lines, placements[..|placements| - 1], front)
  }

  lemma TrimsPush(lines: seq<string>, placements: seq<Edit>, edits: seq<Edit>, small: Edit, e: Edit)
    requires TrimsOf(lines, placements, edits) && TightTrim(lines, small, e)
    ensures NoChange(lines, e) ==> TrimsOf(lines, placements, edits + [e])
    ensures !NoChange(lines, e) ==> TrimsOf(lines, placements + [small], edits + [e])
  {
    hide TightTrim, NoChange;
    assert (edits + [e])[..|edits|] == edits && (placements + [small])[..|placements|] == placements;
  }

  lemma {:induction false} TrimsAreTight(lines: seq<string>, placements: seq<Edit>, edits: seq<Edit>)
    requires TrimsOf(lines, placements, edits)
    ensures forall k :: 0 <= k < |placements| ==> Tight(lines, placements[k])
    decreases |edits|
  {
    if edits != [] {
      var front, last := edits[..|edits| - 1], edits[|edits| - 1];
      if NoChange(lines, last) {
        TrimsAreTight(lines, placements, front);
      } else {
        var t := placements[|placements| - 1];
        TrimsAreTight(lines, placements[..|placements| - 1], front);
        var n := t.start - last.start;
        if t.after != [] {
          assert last.after[n] == t.after[0];
        }
      }
    }
  }

  /** Where the lines that stay the same at the end of an edit begin, behind its first
      `prefix` lines: the place in the text, and how many of the edit's lines remain. */
  method CommonSuffix(lines: seq<string>, e: Edit, prefix: nat) returns (end: nat, kept: nat)
    requires e.start <= e.end <= |lines| && e.start + prefix <= e.end && prefix <= |e.after|
    ensures e.start + prefix <= end <= e.end && prefix <= kept <= |e.after| && e.end - end == |e.after| - kept
    ensures e.after[kept..] == lines[end..e.end]
    ensures e.start + prefix < end && prefix < kept ==> lines[end - 1] != e.after[kept - 1]
  {
    end, kept := e.end, |e.after|;
    while e.start + prefix < end && prefix < kept && lines[end - 1] == e.after[kept - 1]
      invariant e.start + prefix <= end <= e.end && prefix <= kept <= |e.after| && e.end - end == |e.after| - kept
      invariant e.after[kept..] == lines[end..e.end]
      decreases end
    {
      assert lines[end - 1..e.end] == [lines[end - 1]] + lines[end..e.end];
      assert e.after[kept - 1..] == [e.after[kept - 1]] + e.after[kept..];
      end, kept := end - 1, kept - 1;
    }
  }

  /** Drop the lines that stay the same at either end of an edit. */
  method TrimEdit(lines: seq<string>, e: Edit) returns (small: Edit)
    requires e.start <= e.end <= |lines|
    ensures TightTrim(lines, small, e)
    ensures small.start == small.end && small.after == [] <==> NoChange(lines, e)
  {
    hide TrimOf, NoChange, TightTrim, Common;
    var prefix := CommonPrefix(lines, e);
    var end, kept := CommonSuffix(lines, e, prefix);
    small := Edit(e.start + prefix, end, e.after[prefix..kept]);
    TrimIs(lines, e, small, prefix, kept);
  }

  lemma TrimIs(lines: seq<string>, e: Edit, small: Edit, prefix: nat, kept: nat)
    requires e.start <= e.end <= |lines| && prefix <= kept <= |e.after|
    requires small.start == e.start + prefix && small.start <= small.end && small.after == e.after[prefix..kept]
    requires e.end - small.end == |e.after| - kept
    requires lines[e.start..small.start] == e.after[..prefix] && lines[small.end..e.end] == e.after[kept..]
    requires prefix < e.end - e.start && prefix < |e.after| ==> lines[small.start] != e.after[prefix]
    requires small.start < small.end && prefix < kept ==> lines[small.end - 1] != e.after[kept - 1]
    requires NoChange(lines, e) ==> prefix == |e.after| == e.end - e.start
    ensures TightTrim(lines, small, e)
    ensures small.start == small.end && small.after == [] <==> NoChange(lines, e)
  {
    hide TrimOf, NoChange, TightTrim;
    assert small == Edit(e.start + prefix, e.end - (|e.after| - kept), e.after[prefix..kept]);
    TrimmedOf(lines, e, prefix, kept);
    TrimmedTight(lines, e, small, prefix, kept);
  }

  lemma TrimmedTight(lines: seq<string>, e: Edit, small: Edit, prefix: nat, kept: nat)
    requires TrimOf(lines, small, e) && small.start == e.start + prefix && prefix <= kept <= |e.after|
    requires small.after == e.after[prefix..kept]
    requires prefix < e.end - e.start && prefix < |e.after| ==> lines[e.start + prefix] != e.after[prefix]
    requires small.start < small.end && prefix < kept ==> lines[small.end - 1] != e.after[kept - 1]
    ensures TightTrim(lines, small, e)
  {
  }

  lemma TrimmedOf(lines: seq<string>, e: Edit, prefix: nat, kept: nat)
    requires e.start <= e.end <= |lines| && prefix <= kept <= |e.after|
    requires e.start + prefix <= e.end - (|e.after| - kept)
    requires lines[e.start..e.start + prefix] == e.after[..prefix]
    requires lines[e.end - (|e.after| - kept)..e.end] == e.after[kept..]
    ensures TrimOf(lines, Edit(e.start + prefix, e.end - (|e.after| - kept), e.after[prefix..kept]), e)
    ensures e.start + prefix == e.end - (|e.after| - kept) && prefix == kept ==> NoChange(lines, e)
  {
    var start, end := e.start + prefix, e.end - (|e.after| - kept);
    assert e.after == e.after[..prefix] + e.after[prefix..kept] + e.after[kept..];
    if start == end && prefix == kept {
      assert lines[e.start..e.end] == lines[e.start..start] + lines[end..e.end];
    }
  }

  lemma PlacementStep(lines: seq<string>, small: seq<Edit>, large: seq<Edit>, mid: nat, t: Edit, e: Edit, upto: nat)
    requires Ordered(small, mid) && Ordered(large, mid) && mid <= e.start <= e.end <= upto <= |lines|
    requires Written(lines, small, mid) == Written(lines, large, mid)
    requires TrimOf(lines, t, e)
    ensures Ordered(large + [e], upto) && Ordered(small, upto) && Ordered(small + [t], upto)
    ensures Written(lines, small + [t], upto) == Written(lines, large + [e], upto)
    ensures NoChange(lines, e) ==> Written(lines, small, upto) == Written(lines, large + [e], upto)
  {
    hide Written, Ordered;
    WrittenExtends(lines, small, mid, e.start);
    WrittenExtends(lines, large, mid, e.start);
    WrittenPush(lines, small, e, upto);
    WrittenPush(lines, large, e, upto);
    WrittenTrim(lines, small, t, e, upto);
    if NoChange(lines, e) {
      WrittenNoChange(lines, small, e, upto);
    }
    OrderedWiden(small, mid, upto);
  }

  lemma PlanStart(lines: seq<string>, size: nat, hunks: seq<seq<string>>)
    ensures Plan(lines, size, hunks, 0) == Ok(State(0, BUDGET, [], 0))
    ensures NothingChanges(lines, []) && TrimsOf(lines, [], [])
  {
  }

  lemma NothingChangesPush(lines: seq<string>, edits: seq<Edit>, e: Edit)
    ensures NothingChanges(lines, edits + [e]) <==> NothingChanges(lines, edits) && NoChange(lines, e)
  {
    assert forall k :: 0 <= k < |edits| ==> (edits + [e])[k] == edits[k];
    assert (edits + [e])[|edits|] == e;
  }

  /** The loop over the hunks: the trimmed edits to make, or the first failure. */
  method PlaceAll(lines: seq<string>, size: nat, hunks: seq<seq<string>>)
    returns (placed: Result<(seq<Edit>, nat), Failure>)
    ensures placed.Err? <==> Plan(lines, size, hunks, |hunks|).Err?
    ensures placed.Err? ==> Plan(lines, size, hunks, |hunks|) == Err(placed.error)
    ensures placed.Ok? ==>
              var st := Plan(lines, size, hunks, |hunks|).value;
              && placed.value.1 == st.grade
              && Ordered(placed.value.0, st.cursor)
              && Written(lines, placed.value.0, st.cursor) == Written(lines, st.edits, st.cursor)
              && (placed.value.0 == [] <==> NothingChanges(lines, st.edits))
              && TrimsOf(lines, placed.value.0, st.edits)
  {
    hide Estimate, PlaceHunk, Parses, HunkOf, Written, NothingChanges, Plan, TrimOf, TrimsOf;
    PlanStart(lines, size, hunks);
    var cursor, work, placements, grade := 0, BUDGET, [], 0;
    ghost var edits: seq<Edit> := [];
    for i := 0 to |hunks|
      invariant 0 <= cursor <= |lines| && 0 <= work
      invariant Plan(lines, size, hunks, i) == Ok(State(cursor, work, edits, grade))
      invariant Ordered(placements, cursor)
      invariant Written(lines, placements, cursor) == Written(lines, edits, cursor)
      invariant placements == [] <==> NothingChanges(lines, edits)
      invariant TrimsOf(lines, placements, edits)
    {
      PlanStep(lines, size, hunks, i, State(cursor, work, edits, grade));
      if Plan(lines, size, hunks, i + 1).Err? {
        FailureSticks(lines, size, hunks, i + 1, |hunks|);
      }
      var parsed := ParseHunk(hunks[i]);
      if parsed.None? {
        return Err(PatchFailed);
      }
      var h := parsed.value;
      var estimate := Estimate(size, |lines|, h);
      if estimate > work {
        return Err(PatchLimit);
      }
      var located := PlaceHunk(lines, h, cursor);
      if located.Err? {
        return Err(located.error);
      }
      var step := located.value;
      var small := TrimEdit(lines, step.edit);
      PlacementStep(lines, placements, edits, cursor, small, step.edit, step.cursor);
      TrimsPush(lines, placements, edits, small, step.edit);
      if small.start != small.end || small.after != [] {
        placements := placements + [small];
      }
      NothingChangesPush(lines, edits, step.edit);
      cursor, work, edits, grade := step.cursor, work - estimate, edits + [step.edit], Max(grade, step.grade);
    }
    return Ok((placements, grade));
  }

  // ----- ranges and splicing -----

  function Added(edits: seq<Edit>): nat {
    if edits == [] then 0 else Added(edits[..|edits| - 1]) + |edits[|edits| - 1].after|
  }

  function Removed(edits: seq<Edit>): int {
    if edits == [] then 0
    else Removed(edits[..|edits| - 1]) + edits[|edits| - 1].end - edits[|edits| - 1].start
  }

  lemma {:induction false} WrittenLength(lines: seq<string>, edits: seq<Edit>, upto: nat)
    requires upto <= |lines| && Ordered(edits, upto)
    ensures |Written(lines, edits, upto)| == upto + Added(edits) - Removed(edits)
    ensures 0 <= Removed(edits) <= upto
  {
    if edits != [] {
      WrittenLength(lines, edits[..|edits| - 1], edits[|edits| - 1].start);
    }
  }

  /** What is written up to an edit, and the edit's own lines, come first in all
      that is written. */
  lemma {:induction false} WrittenPrefix(lines: seq<string>, edits: seq<Edit>, upto: nat, k: nat)
    requires upto <= |lines| && Ordered(edits, upto) && k < |edits|
    ensures edits[k].start <= edits[k].end <= upto && Ordered(edits[..k], edits[k].start)
    ensures Written(lines, edits[..k], edits[k].start) + edits[k].after <= Written(lines, edits, upto)
  {
    var last := edits[|edits| - 1];
    var front := edits[..|edits| - 1];
    if k == |edits| - 1 {
      assert edits[..k] == front;
    } else {
      assert front[..k] == edits[..k] && front[k] == edits[k];
      WrittenPrefix(lines, front, last.start, k);
    }
  }

  /** The range names the lines of the updated file that hold the edit's new text. */
  predicate Names(updated: seq<string>, r: ChangedRange, e: Edit) {
    && 1 <= r.startLine && r.endLine + 1 == r.startLine + |e.after|
    && r.endLine <= |updated|
    && updated[r.startLine - 1..r.endLine] == e.after
    && r.added == |e.after| && e.start <= e.end && r.removed == e.end - e.start
  }

  /** The range computed from what was added and removed before an edit. */
  lemma RangeNames(lines: seq<string>, edits: seq<Edit>, k: nat)
    requires Ordered(edits, |lines|) && k < |edits|
    ensures var e := edits[k];
            var first := e.start + Added(edits[..k]) + 1 - Removed(edits[..k]);
            && first >= 1 && e.start <= e.end
            && Names(Written(lines, edits, |lines|), ChangedRange(first, first + |e.after| - 1, |e.after|, e.end - e.start), e)
  {
    hide Written, Ordered, Added, Removed;
    var e, updated := edits[k], Written(lines, edits, |lines|);
    WrittenPrefix(lines, edits, |lines|, k);
    var earlier := Written(lines, edits[..k], e.start);
    WrittenLength(lines, edits[..k], e.start);
    assert earlier + e.after == updated[..|earlier| + |e.after|];
    assert (earlier + e.after)[|earlier|..] == e.after;
    assert updated[|earlier|..|earlier| + |e.after|] == updated[..|earlier| + |e.after|][|earlier|..];
  }

  function TotalAdded(ranges: seq<ChangedRange>): nat {
    if ranges == [] then 0 else TotalAdded(ranges[..|ranges| - 1]) + ranges[|ranges| - 1].added
  }

  function TotalRemoved(ranges: seq<ChangedRange>): nat {
    if ranges == [] then 0 else TotalRemoved(ranges[..|ranges| - 1]) + ranges[|ranges| - 1].removed
  }

  method Ranges(lines: seq<string>, placements: seq<Edit>)
    returns (ranges: seq<ChangedRange>, added: nat, removed: nat)
    requires Ordered(placements, |lines|)
    ensures |ranges| == |placements|
    ensures forall k :: 0 <= k < |ranges| ==> Names(Written(lines, placements, |lines|), ranges[k], placements[k])
    ensures added == TotalAdded(ranges) && removed == TotalRemoved(ranges)
    ensures |Written(lines, placements, |lines|)| == |lines| + added - removed
  {
    hide Written, Ordered, Names;
    ranges, added, removed := [], 0, 0;
    ghost var updated := Written(lines, placements, |lines|);
    for i := 0 to |placements|
      invariant |ranges| == i
      invariant added == Added(placements[..i]) && removed == Removed(placements[..i])
      invariant added == TotalAdded(ranges) && removed == TotalRemoved(ranges)
      invariant forall k :: 0 <= k < i ==> Names(updated, ranges[k], placements[k])
    {
      var e := placements[i];
      RangeNames(lines, placements, i);
      var first: nat := e.start + added + 1 - removed;
      var last: nat := first + |e.after| - 1;
      ghost var earlier := ranges;
      ranges := ranges + [ChangedRange(first, last, |e.after|, e.end - e.start)];
      assert ranges[..i] == earlier;
      added, removed := added + |e.after|, removed + (e.end - e.start);
      assert placements[..i + 1][..i] == placements[..i];
    }
    assert placements[..|placements|] == placements;
    WrittenLength(lines, placements, |lines|);
  }

  /** Either the first failure among the hunks in order, or the text with every
      hunk's matched lines replaced by its new side. */
  method ApplyUpdateHunksDetailed(content: string, hunks: seq<seq<string>>)
    returns (r: Result<Update, Failure>, ghost placements: seq<Edit>)
    ensures r.Err? ==> Planned(content, hunks) == Err(r.error)
    ensures r.Ok? ==>
              && Planned(content, hunks).Ok?
              && var st := Planned(content, hunks).value;
                 && r.value.content == Edited(content, st.edits)
                 && r.value.grade == st.grade
                 && (r.value.alreadyApplied <==> NothingChanges(Lines(Normalize(content)), st.edits))
    ensures r.Ok? ==>
              var lines, edits := Lines(Normalize(content)), Planned(content, hunks).value.edits;
              var updated := Written(lines, edits, |lines|);
              && |r.value.ranges| == |placements|
              && (forall k :: 0 <= k < |placements| ==> Names(updated, r.value.ranges[k], placements[k]))
              && Ordered(placements, |lines|) && Written(lines, placements, |lines|) == updated
              && |updated| == |lines| + r.value.additions - r.value.removals
              && TrimsOf(lines, placements, edits)
              && (forall k :: 0 <= k < |placements| ==> Tight(lines, placements[k]))
              && r.value.additions == TotalAdded(r.value.ranges) && r.value.removals == TotalRemoved(r.value.ranges)
    ensures Size(content) > 64 * 1024 * 1024 || |hunks| > 200 ==> r == Err(PatchLimit)
  {
    hide Plan, Written, Join, WithCrlf, HasCrlf, Size, Lines, Normalize, Ordered, Names, NothingChanges, TrimsOf, Tight;
    placements := [];
    if Size(content) > MAX_CONTENT || |hunks| > MAX_HUNKS {
      return Err(PatchLimit), [];
    }
    var crlf := HasCrlf(content);
    var normalized := Normalize(content);
    var trailing := EndsWithNewline(normalized);
    var lines := Lines(normalized);
    var placed := PlaceAll(lines, Size(content), hunks);
    if placed.Err? {
      return Err(placed.error), [];
    }
    ghost var st := Plan(lines, Size(content), hunks, |hunks|).value;
    var (trimmed, grade) := placed.value;
    placements := trimmed;
    OrderedWiden(trimmed, st.cursor, |lines|);
    OrderedWiden(st.edits, st.cursor, |lines|);
    WrittenExtends(lines, trimmed, st.cursor, |lines|);
    WrittenExtends(lines, st.edits, st.cursor, |lines|);
    TrimsAreTight(lines, trimmed, st.edits);
    var ranges, added, removed := Ranges(lines, trimmed);
    var updated := SpliceBack(lines, trimmed);
    var text := Join(updated);
    if updated != [] && (trailing || content == []) {
      text := text + ['\n'];
    }
    if crlf {
      text := WithCrlf(text);
    }
    if trimmed == [] {
      text := content;
    }
    return Ok(Update(text, ranges, grade, trimmed == [], added, removed)), placements;
  }
}
