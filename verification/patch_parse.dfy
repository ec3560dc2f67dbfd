/** The patch envelope. Two parsers read it, a frozen one and the current one; they
    differ in two places only, which `Flavour` selects. */
module PatchParse {
  import opened Wrappers
  import opened PatchText
  import opened PatchUpdate

  datatype Flavour = Frozen | Current

  datatype Operation =
    | AddFile(path: string, content: string)
    | DeleteFile(path: string)
    | UpdateFile(path: string, hunks: seq<seq<string>>, moveTo: Option<string>)

  datatype Malformed = Malformed

  type Parsed = Result<seq<Operation>, Malformed>

  const BEGIN := "*** Begin Patch"
  const END := "*** End Patch"
  const STARS := "*** "
  const ADD := "*** Add File: "
  const DELETE := "*** Delete File: "
  const UPDATE := "*** Update File: "
  const MOVE := "*** Move to: "

  // ----- pieces of a patch -----

  function DropEmptyEnd(lines: seq<string>): seq<string> {
    if lines != [] && lines[|lines| - 1] == [] then DropEmptyEnd(lines[..|lines| - 1]) else lines
  }

  /** Does a line belong to the section of the operation above it? */
  predicate Continues(line: string, eofToo: bool) {
    !(STARS <= line) || (eofToo && line == END_OF_FILE)
  }

  /** How many lines belong to the section that starts the body. */
  function Run(body: seq<string>, eofToo: bool): (n: nat)
    ensures n <= |body|
    ensures forall k :: 0 <= k < n ==> Continues(body[k], eofToo)
    ensures n < |body| ==> !Continues(body[n], eofToo)
  {
    if body == [] || !Continues(body[0], eofToo) then 0 else 1 + Run(body[1..], eofToo)
  }

  predicate AllAdded(section: seq<string>) {
    forall k :: 0 <= k < |section| ==> section[k] != [] && section[k][0] == '+'
  }

  function Tails(section: seq<string>): seq<string>
    requires forall k :: 0 <= k < |section| ==> section[k] != []
  {
    seq(|section|, k requires 0 <= k < |section| => section[k][1..])
  }

  /** The hunks closed so far, and the one still open. */
  function Group(section: seq<string>, flavour: Flavour): (seq<seq<string>>, seq<string>) {
    if section == [] then ([], [])
    else
      var (hunks, open) := Group(section[..|section| - 1], flavour);
      var line := section[|section| - 1];
      if IsHeader(line)
      then (Close(hunks, open), if flavour.Current? then [line] else [])
      else (hunks, open + [line])
  }

  function Close(hunks: seq<seq<string>>, open: seq<string>): seq<seq<string>> {
    if open == [] then hunks else hunks + [open]
  }

  function Hunks(section: seq<string>, flavour: Flavour): seq<seq<string>> {
    Close(Group(section, flavour).0, Group(section, flavour).1)
  }

  function Prepend(operations: seq<Operation>, r: Parsed): Parsed {
    match r
    case Ok(rest) => Ok(operations + rest)
    case Err(e) => Err(e)
  }

  // ----- the operations between the envelope lines -----

  /** What the line that starts the body begins, and how many lines that takes: an
      operation, or nothing for an empty line. */
  function Next(body: seq<string>, flavour: Flavour): (r: Option<(seq<Operation>, nat)>)
    requires body != []
    ensures r.Some? ==> 1 <= r.value.1 <= |body|
  {
    if body[0] == [] then Some(([], 1))
    else if ADD <= body[0] then
      var n := Run(body[1..], false);
      if !AllAdded(body[1..][..n]) then None
      else Some(([AddFile(Trim(body[0][|ADD|..]), Join(Tails(body[1..][..n])) + ['\n'])], 1 + n))
    else if DELETE <= body[0] then Some(([DeleteFile(Trim(body[0][|DELETE|..]))], 1))
    else if UPDATE <= body[0] then
      var moved := 1 < |body| && MOVE <= body[1];
      var start := if moved then 2 else 1;
      var n := Run(body[start..], flavour.Current?);
      var target := if moved then Some(Trim(body[1][|MOVE|..])) else None;
      Some(([UpdateFile(Trim(body[0][|UPDATE|..]), Hunks(body[start..][..n], flavour), target)], start + n))
    else None
  }

  function ParseBody(body: seq<string>, flavour: Flavour): Parsed
    decreases |body|
  {
    if body == [] then Ok([])
    else
      match Next(body, flavour)
      case None => Err(Malformed)
      case Some((operations, n)) => Prepend(operations, ParseBody(body[n..], flavour))
  }

  predicate Enveloped(lines: seq<string>) {
    |lines| >= 2 && Trim(lines[0]) == BEGIN && Trim(lines[|lines| - 1]) == END
  }

  function Parse(patch: string, flavour: Flavour): Parsed {
    var lines := DropEmptyEnd(Split(Normalize(patch)));
    if !Enveloped(lines) then Err(Malformed) else ParseBody(lines[1..|lines| - 1], flavour)
  }

  // ----- the parsers, as they run -----

  method ReadAdded(body: seq<string>, start: nat) returns (content: Option<seq<string>>, index: nat)
    requires start <= |body|
    ensures var n := Run(body[start..], false);
            if AllAdded(body[start..][..n])
            then content == Some(Tails(body[start..][..n])) && index == start + n
            else content.None?
  {
    var lines: seq<string> := [];
    ghost var n := Run(body[start..], false);
    ghost var section := body[start..][..n];
    index := start;
    while index < |body| && !(STARS <= body[index])
      invariant start <= index <= start + n
      invariant AllAdded(section[..index - start]) && lines == Tails(section[..index - start])
    {
      assert body[start..][index - start] == body[index];
      assert index - start < n;
      assert section[..index - start + 1][..index - start] == section[..index - start];
      if body[index] == [] || body[index][0] != '+' {
        assert section[index - start] == body[index];
        return None, index;
      }
      lines := lines + [body[index][1..]];
      index := index + 1;
    }
    assert section[..n] == section;
    return Some(lines), index;
  }

  method ReadHunks(body: seq<string>, start: nat, flavour: Flavour) returns (hunks: seq<seq<string>>, index: nat)
    requires start <= |body|
    ensures index == start + Run(body[start..], flavour.Current?)
    ensures hunks == Hunks(body[start..][..Run(body[start..], flavour.Current?)], flavour)
  {
    ghost var n := Run(body[start..], flavour.Current?);
    ghost var section := body[start..][..n];
    hunks, index := [], start;
    var current: seq<string> := [];
    while index < |body| && Continues(body[index], flavour.Current?)
      invariant start <= index <= start + n
      invariant (hunks, current) == Group(section[..index - start], flavour)
    {
      assert body[start..][index - start] == body[index];
      assert section[..index - start + 1][..index - start] == section[..index - start];
      if IsHeader(body[index]) {
        if current != [] {
          hunks := hunks + [current];
        }
        current := if flavour.Current? then [body[index]] else [];
      } else {
        current := current + [body[index]];
      }
      index := index + 1;
    }
    assert section[..n] == section;
    if current != [] {
      hunks := hunks + [current];
    }
  }

  /** One turn of the loop over the body. */
  method ReadNext(body: seq<string>, index: nat, flavour: Flavour) returns (r: Option<(seq<Operation>, nat)>)
    requires index < |body|
    ensures r.Some? <==> Next(body[index..], flavour).Some?
    ensures r.Some? ==> Next(body[index..], flavour) == Some((r.value.0, r.value.1 - index))
  {
    hide Trim, Join, Run, Hunks, Tails, AllAdded;
    var line := body[index];
    ghost var rest := body[index..];
    assert rest[1..] == body[index + 1..];
    if line == [] {
      return Some(([], index + 1));
    }
    if ADD <= line {
      var content, next := ReadAdded(body, index + 1);
      if content.None? {
        return None;
      }
      return Some(([AddFile(Trim(line[|ADD|..]), Join(content.value) + ['\n'])], next));
    }
    if DELETE <= line {
      return Some(([DeleteFile(Trim(line[|DELETE|..]))], index + 1));
    }
    if UPDATE <= line {
      var next := index + 1;
      var moveTo := None;
      if next < |body| && MOVE <= body[next] {
        moveTo := Some(Trim(body[next][|MOVE|..]));
        next := next + 1;
        assert rest[2..] == body[index + 2..];
      }
      var hunks, end := ReadHunks(body, next, flavour);
      return Some(([UpdateFile(Trim(line[|UPDATE|..]), hunks, moveTo)], end));
    }
    return None;
  }

  method ParsePatch(patch: string, flavour: Flavour) returns (r: Parsed)
    ensures r == Parse(patch, flavour)
  {
    hide Trim, Next, Split, Normalize, BEGIN, END;
    var lines := Split(Normalize(patch));
    ghost var all := lines;
    while lines != [] && lines[|lines| - 1] == []
      invariant DropEmptyEnd(lines) == DropEmptyEnd(all)
    {
      lines := lines[..|lines| - 1];
    }
    if |lines| < 2 || Trim(lines[0]) != BEGIN || Trim(lines[|lines| - 1]) != END {
      return Err(Malformed);
    }
    var body := lines[1..|lines| - 1];
    var operations: seq<Operation> := [];
    var index := 0;
    ghost var whole := ParseBody(body, flavour);
    assert body[0..] == body && (whole.Ok? ==> operations + whole.value == whole.value);
    while index < |body|
      invariant 0 <= index <= |body|
      invariant whole == Prepend(operations, ParseBody(body[index..], flavour))
    {
      var step := ReadNext(body, index, flavour);
      if step.None? {
        return Err(Malformed);
      }
      var (more, next) := step.value;
      assert body[index..][next - index..] == body[next..];
      ghost var rest := ParseBody(body[next..], flavour);
      assert rest.Ok? ==> operations + (more + rest.value) == (operations + more) + rest.value;
      operations := operations + more;
      index := next;
    }
    assert operations + [] == operations;
    return Ok(operations);
  }

  // ----- how the two parsers agree -----

  function WithoutHeaders(hunk: seq<string>): seq<string> {
    if hunk == [] then []
    else
      var front := WithoutHeaders(hunk[..|hunk| - 1]);
      if IsHeader(hunk[|hunk| - 1]) then front else front + [hunk[|hunk| - 1]]
  }

  /** Header lines go, and hunks that then are empty go. */
  function FrozenHunks(hunks: seq<seq<string>>): seq<seq<string>> {
    if hunks == [] then []
    else Close(FrozenHunks(hunks[..|hunks| - 1]), WithoutHeaders(hunks[|hunks| - 1]))
  }

  function FrozenOperation(operation: Operation): Operation {
    if operation.UpdateFile? then operation.(hunks := FrozenHunks(operation.hunks)) else operation
  }

  function FrozenOperations(operations: seq<Operation>): seq<Operation> {
    seq(|operations|, k requires 0 <= k < |operations| => FrozenOperation(operations[k]))
  }

  lemma {:induction false} GroupAgrees(section: seq<string>)
    ensures Group(section, Frozen).0 == FrozenHunks(Group(section, Current).0)
    ensures Group(section, Frozen).1 == WithoutHeaders(Group(section, Current).1)
  {
    if section != [] {
      var front := section[..|section| - 1];
      GroupAgrees(front);
      var line := section[|section| - 1];
      var (hunks, open) := Group(front, Current);
      if IsHeader(line) {
        CloseAgrees(hunks, open);
        assert [line][..0] == [];
      } else {
        assert (open + [line])[..|open|] == open;
      }
    }
  }

  lemma CloseAgrees(hunks: seq<seq<string>>, open: seq<string>)
    ensures FrozenHunks(Close(hunks, open)) == Close(FrozenHunks(hunks), WithoutHeaders(open))
  {
    if open != [] {
      assert (hunks + [open])[..|hunks|] == hunks;
    }
  }

  lemma HunksAgree(section: seq<string>)
    ensures Hunks(section, Frozen) == FrozenHunks(Hunks(section, Current))
  {
    GroupAgrees(section);
    CloseAgrees(Group(section, Current).0, Group(section, Current).1);
  }

  lemma {:induction false} RunAgrees(body: seq<string>)
    requires END_OF_FILE !in body
    ensures Run(body, true) == Run(body, false)
  {
    if body != [] {
      assert body[0] in body;
      RunAgrees(body[1..]);
    }
  }

  lemma NextAgrees(body: seq<string>)
    requires body != [] && END_OF_FILE !in body
    ensures Next(body, Frozen).Some? <==> Next(body, Current).Some?
    ensures Next(body, Frozen).Some? ==>
              && Next(body, Frozen).value.1 == Next(body, Current).value.1
              && Next(body, Frozen).value.0 == FrozenOperations(Next(body, Current).value.0)
  {
    hide Trim, Join, Hunks;
    var start := if 1 < |body| && MOVE <= body[1] then 2 else 1;
    RunAgrees(body[start..]);
    HunksAgree(body[start..][..Run(body[start..], true)]);
  }

  lemma {:induction false} BodiesAgree(body: seq<string>)
    requires END_OF_FILE !in body
    ensures ParseBody(body, Frozen).Ok? <==> ParseBody(body, Current).Ok?
    ensures ParseBody(body, Current).Ok? ==>
              ParseBody(body, Frozen).value == FrozenOperations(ParseBody(body, Current).value)
    decreases |body|
  {
    hide Next;
    if body != [] {
      NextAgrees(body);
      if Next(body, Current).Some? {
        BodiesAgree(body[Next(body, Current).value.1..]);
      }
    }
  }

  lemma NextHasNoEndOfFile(body: seq<string>)
    requires body != [] && Next(body, Frozen).Some?
    ensures END_OF_FILE !in body[..Next(body, Frozen).value.1]
  {
    hide Trim, Join, Hunks;
    var n := Next(body, Frozen).value.1;
    assert END_OF_FILE[4] != ADD[4] && END_OF_FILE[4] != UPDATE[4] && END_OF_FILE[4] != MOVE[4] && END_OF_FILE[4] != DELETE[4];
    var start := if body[0] != [] && !(ADD <= body[0]) && !(DELETE <= body[0]) && 1 < |body| && MOVE <= body[1] then 2 else 1;
    forall k | start <= k < n ensures body[k] != END_OF_FILE {
      assert body[k] == body[start..][k - start];
      assert Continues(body[start..][k - start], false);
    }
  }

  /** The frozen parser accepts no End-of-File line anywhere. */
  lemma {:induction false} FrozenHasNoEndOfFile(body: seq<string>)
    requires ParseBody(body, Frozen).Ok?
    ensures END_OF_FILE !in body
    decreases |body|
  {
    hide Next;
    if body != [] {
      NextHasNoEndOfFile(body);
      var n := Next(body, Frozen).value.1;
      FrozenHasNoEndOfFile(body[n..]);
      assert body == body[..n] + body[n..];
    }
  }

  /** The frozen parser accepts exactly what the current one accepts without an
      End-of-File line, and then reads the same operations with header lines
      removed and empty hunks dropped. */
  lemma FrozenIsCurrentWithoutEndOfFile(patch: string)
    ensures var lines := DropEmptyEnd(Split(Normalize(patch)));
            Parse(patch, Frozen).Ok? <==>
              Parse(patch, Current).Ok? && Enveloped(lines) && END_OF_FILE !in lines[1..|lines| - 1]
    ensures Parse(patch, Frozen).Ok? ==>
              Parse(patch, Frozen).value == FrozenOperations(Parse(patch, Current).value)
  {
    hide ParseBody, Normalize, Split, Trim, DropEmptyEnd, FrozenOperations;
    var lines := DropEmptyEnd(Split(Normalize(patch)));
    if Enveloped(lines) {
      var body := lines[1..|lines| - 1];
      if ParseBody(body, Frozen).Ok? {
        FrozenHasNoEndOfFile(body);
      }
      if END_OF_FILE !in body {
        BodiesAgree(body);
      }
    }
  }

  // ----- printing and reading back -----

  function Marked(lines: seq<string>): (marked: seq<string>)
    ensures |marked| == |lines| && AllAdded(marked)
  {
    seq(|lines|, k requires 0 <= k < |lines| => ['+'] + lines[k])
  }

  function Flatten(hunks: seq<seq<string>>): seq<string> {
    if hunks == [] then [] else Flatten(hunks[..|hunks| - 1]) + hunks[|hunks| - 1]
  }

  function PrintLines(operation: Operation): seq<string> {
    match operation
    case AddFile(path, content) =>
      [ADD + path] + (if content == [] then [] else Marked(Split(content[..|content| - 1])))
    case DeleteFile(path) => [DELETE + path]
    case UpdateFile(path, hunks, moveTo) =>
      [UPDATE + path] + (if moveTo.Some? then [MOVE + moveTo.value] else []) + Flatten(hunks)
  }

  function PrintBody(operations: seq<Operation>): seq<string> {
    if operations == [] then [] else PrintLines(operations[0]) + PrintBody(operations[1..])
  }

  function Print(operations: seq<Operation>): string {
    Join([BEGIN] + PrintBody(operations) + [END]) + ['\n']
  }

  predicate OneLine(line: string) {
    '\n' !in line && '\r' !in line
  }

  predicate CleanPath(path: string) {
    Trim(path) == path && OneLine(path)
  }

  /** Hunks are not empty, only their first line may be a header, and every hunk
      but the first has one. No line looks like the start of an operation. */
  predicate CleanHunks(hunks: seq<seq<string>>) {
    forall i :: 0 <= i < |hunks| ==>
      && hunks[i] != []
      && (i > 0 ==> IsHeader(hunks[i][0]))
      && (forall k :: 0 < k < |hunks[i]| ==> !IsHeader(hunks[i][k]))
      && (forall k :: 0 <= k < |hunks[i]| ==> OneLine(hunks[i][k]) && Continues(hunks[i][k], true))
  }

  predicate Canonical(operation: Operation) {
    match operation
    case AddFile(path, content) => CleanPath(path) && EndsWithNewline(content) && '\r' !in content
    case DeleteFile(path) => CleanPath(path)
    case UpdateFile(path, hunks, moveTo) =>
      CleanPath(path) && CleanHunks(hunks) && (moveTo.Some? ==> CleanPath(moveTo.value))
  }

  lemma {:induction false} RunOfSection(section: seq<string>, rest: seq<string>, eofToo: bool)
    requires forall k :: 0 <= k < |section| ==> Continues(section[k], eofToo)
    requires rest != [] ==> !Continues(rest[0], eofToo)
    ensures Run(section + rest, eofToo) == |section|
  {
    if section != [] {
      assert (section + rest)[1..] == section[1..] + rest;
      RunOfSection(section[1..], rest, eofToo);
    } else {
      assert section + rest == rest;
    }
  }

  lemma {:induction false} GroupExtends(section: seq<string>, more: seq<string>)
    requires forall k :: 0 <= k < |more| ==> !IsHeader(more[k])
    ensures Group(section + more, Current) == (Group(section, Current).0, Group(section, Current).1 + more)
  {
    if more == [] {
      assert section + more == section && Group(section, Current).1 + more == Group(section, Current).1;
    } else {
      var front := more[..|more| - 1];
      assert (section + more)[..|section + more| - 1] == section + front;
      GroupExtends(section, front);
      assert front + [more[|more| - 1]] == more;
      assert Group(section, Current).1 + front + [more[|more| - 1]] == Group(section, Current).1 + more;
    }
  }

  lemma {:induction false} GroupOfFlatten(hunks: seq<seq<string>>)
    requires CleanHunks(hunks) && hunks != []
    ensures Group(Flatten(hunks), Current) == (hunks[..|hunks| - 1], hunks[|hunks| - 1])
  {
    hide IsHeader, Continues, OneLine;
    var front, last := hunks[..|hunks| - 1], hunks[|hunks| - 1];
    var section := Flatten(front);
    assert CleanHunks(front) by {
      assert forall i :: 0 <= i < |front| ==> front[i] == hunks[i];
    }
    if front != [] {
      GroupOfFlatten(front);
      assert front[..|front| - 1] + [front[|front| - 1]] == front;
    }
    assert (section + [last[0]])[..|section|] == section;
    assert Group(section + [last[0]], Current) == (front, [last[0]]);
    GroupExtends(section + [last[0]], last[1..]);
    assert section + [last[0]] + last[1..] == section + last;
    assert [last[0]] + last[1..] == last;
  }

  lemma HunksOfFlatten(hunks: seq<seq<string>>)
    requires CleanHunks(hunks)
    ensures Hunks(Flatten(hunks), Current) == hunks
  {
    if hunks != [] {
      GroupOfFlatten(hunks);
    }
  }

  lemma {:induction false} FlattenLines(hunks: seq<seq<string>>)
    requires CleanHunks(hunks)
    ensures forall k :: 0 <= k < |Flatten(hunks)| ==> OneLine(Flatten(hunks)[k]) && Continues(Flatten(hunks)[k], true)
  {
    if hunks != [] {
      var front := hunks[..|hunks| - 1];
      assert CleanHunks(front) by {
        assert forall i :: 0 <= i < |front| ==> front[i] == hunks[i];
      }
      FlattenLines(front);
    }
  }

  /** The first line of a printed operation continues no section and moves nothing. */
  predicate Opens(body: seq<string>) {
    body != [] ==> OpensBody(body[0])
  }

  predicate OpensBody(line: string) {
    line != [] && !Continues(line, true) && !Continues(line, false) && !(MOVE <= line)
  }

  /** A line that starts like an operation, and goes on unlike a move or an end. */
  lemma OpensWith(line: string)
    requires |line| > 4 && line[..4] == STARS && line[4] in {'A', 'D', 'U'}
    ensures !Continues(line, true) && !Continues(line, false) && !(MOVE <= line)
  {
    assert STARS <= line && END_OF_FILE[4] == 'E' && MOVE[4] == 'M';
  }

  lemma PrintOpens(operations: seq<Operation>)
    ensures Opens(PrintBody(operations))
  {
    hide ADD, DELETE, UPDATE, OpensBody, Flatten, Split, Marked;
    if operations != [] {
      OperationOpens(operations[0].path);
      assert PrintBody(operations)[0] == PrintLines(operations[0])[0];
    }
  }

  /** An operation line continues no section and moves nothing. */
  lemma OperationOpens(path: string)
    ensures OpensBody(ADD + path) && OpensBody(DELETE + path) && OpensBody(UPDATE + path)
  {
    assert (ADD + path)[..4] == STARS && (ADD + path)[4] == 'A';
    assert (DELETE + path)[..4] == STARS && (DELETE + path)[4] == 'D';
    assert (UPDATE + path)[..4] == STARS && (UPDATE + path)[4] == 'U';
    OpensWith(ADD + path);
    OpensWith(DELETE + path);
    OpensWith(UPDATE + path);
  }

  lemma NextOfAdd(path: string, content: string, rest: seq<string>)
    requires Canonical(AddFile(path, content)) && Opens(rest)
    ensures Next(PrintLines(AddFile(path, content)) + rest, Current)
            == Some(([AddFile(path, content)], |PrintLines(AddFile(path, content))|))
  {
    hide Trim, Split;
    var lines := Split(content[..|content| - 1]);
    var section := Marked(lines);
    var body := PrintLines(AddFile(path, content)) + rest;
    assert body[0] == ADD + path && body[1..] == section + rest;
    assert (ADD + path)[|ADD|..] == path;
    forall k | 0 <= k < |section| ensures Continues(section[k], false) {
      assert STARS[0] == '*' && section[k][0] == '+';
    }
    RunOfSection(section, rest, false);
    assert (section + rest)[..|section|] == section;
    assert Tails(section) == lines;
    JoinSplit(content[..|content| - 1]);
    assert content == content[..|content| - 1] + ['\n'];
  }

  lemma NextOfDelete(path: string, rest: seq<string>)
    requires Canonical(DeleteFile(path))
    ensures Next(PrintLines(DeleteFile(path)) + rest, Current) == Some(([DeleteFile(path)], 1))
  {
    hide Trim;
    var body := [DELETE + path] + rest;
    assert (DELETE + path)[|DELETE|..] == path;
    assert body[0][4] == 'D' && ADD[4] == 'A';
  }

  lemma ContinuesMovesNothing(line: string)
    requires Continues(line, true)
    ensures !(MOVE <= line)
  {
    assert MOVE[..4] == STARS && MOVE[4] == 'M' && END_OF_FILE[4] == 'E';
    if STARS <= line {
      assert line[4] == 'E';
    } else if |line| >= 4 {
      assert line[..4] != MOVE[..4];
    }
  }

  lemma UpdateIsNoOther(path: string)
    ensures var line := UPDATE + path;
            line != [] && !(ADD <= line) && !(DELETE <= line) && UPDATE <= line && line[|UPDATE|..] == path
  {
    assert (UPDATE + path)[4] == 'U' && ADD[4] == 'A' && DELETE[4] == 'D';
  }

  /** The section of a printed update, with what follows it. */
  lemma SectionOfUpdate(hunks: seq<seq<string>>, rest: seq<string>)
    requires CleanHunks(hunks) && Opens(rest)
    ensures var tail := Flatten(hunks) + rest;
            && Run(tail, true) == |Flatten(hunks)|
            && Hunks(tail[..Run(tail, true)], Current) == hunks
            && (tail != [] ==> !(MOVE <= tail[0]))
  {
    hide Hunks, CleanHunks, Continues, Run, Flatten;
    var section := Flatten(hunks);
    FlattenLines(hunks);
    RunOfSection(section, rest, true);
    assert (section + rest)[..|section|] == section;
    HunksOfFlatten(hunks);
    if section != [] {
      assert (section + rest)[0] == section[0];
      ContinuesMovesNothing(section[0]);
    }
  }

  lemma NextOfUpdate(path: string, hunks: seq<seq<string>>, moveTo: Option<string>, rest: seq<string>)
    requires Canonical(UpdateFile(path, hunks, moveTo)) && Opens(rest)
    ensures Next(PrintLines(UpdateFile(path, hunks, moveTo)) + rest, Current)
            == Some(([UpdateFile(path, hunks, moveTo)], |PrintLines(UpdateFile(path, hunks, moveTo))|))
  {
    hide Trim, CleanHunks, Flatten, Opens, Next, Hunks, Run, Continues;
    var tail := Flatten(hunks) + rest;
    SectionOfUpdate(hunks, rest);
    if moveTo.Some? {
      NextOfMove(path, moveTo.value, tail);
      assert PrintLines(UpdateFile(path, hunks, moveTo)) + rest == [UPDATE + path, MOVE + moveTo.value] + tail;
    } else {
      NextOfStay(path, tail);
      assert PrintLines(UpdateFile(path, hunks, moveTo)) + rest == [UPDATE + path] + tail;
    }
  }

  lemma NextOfMove(path: string, target: string, tail: seq<string>)
    ensures var n := Run(tail, true);
            Next([UPDATE + path, MOVE + target] + tail, Current)
            == Some(([UpdateFile(Trim(path), Hunks(tail[..n], Current), Some(Trim(target)))], 2 + n))
  {
    hide Trim, Hunks, Run;
    UpdateIsNoOther(path);
    var body := [UPDATE + path, MOVE + target] + tail;
    assert (MOVE + target)[|MOVE|..] == target;
    assert body[2..] == tail;
  }

  lemma NextOfStay(path: string, tail: seq<string>)
    requires tail != [] ==> !(MOVE <= tail[0])
    ensures var n := Run(tail, true);
            Next([UPDATE + path] + tail, Current) == Some(([UpdateFile(Trim(path), Hunks(tail[..n], Current), None)], 1 + n))
  {
    hide Trim, Hunks, Run, Join, Tails, AllAdded, UPDATE, ADD, DELETE, MOVE;
    UpdateIsNoOther(path);
    var body := [UPDATE + path] + tail;
    assert body[0] == UPDATE + path;
    if tail != [] {
      assert body[1] == tail[0];
    }
    assert body[1..] == tail;
  }

  /** Reading undoes printing, between the envelope lines. */
  lemma {:induction false} BodyRoundTrip(operations: seq<Operation>)
    requires forall i :: 0 <= i < |operations| ==> Canonical(operations[i])
    ensures ParseBody(PrintBody(operations), Current) == Ok(operations)
  {
    hide Next, Canonical;
    if operations != [] {
      var first, rest := operations[0], PrintBody(operations[1..]);
      BodyRoundTrip(operations[1..]);
      PrintOpens(operations[1..]);
      assert Canonical(first);
      match first {
        case AddFile(path, content) => NextOfAdd(path, content, rest);
        case DeleteFile(path) => NextOfDelete(path, rest);
        case UpdateFile(path, hunks, moveTo) => NextOfUpdate(path, hunks, moveTo, rest);
      }
      var n := |PrintLines(first)|;
      assert (PrintLines(first) + rest)[n..] == rest;
      assert operations == [first] + operations[1..];
    }
  }

  // ----- the same, for the text of a patch -----

  lemma {:induction false} SplitLine(line: string, rest: string)
    requires '\n' !in line
    ensures Split(line + ['\n'] + rest) == [line] + Split(rest)
  {
    if line == [] {
      assert (line + ['\n'] + rest)[1..] == rest;
    } else {
      assert (line + ['\n'] + rest)[1..] == line[1..] + ['\n'] + rest;
      SplitLine(line[1..], rest);
      assert [line[0]] + line[1..] == line;
    }
  }

  lemma {:induction false} SplitJoinedLines(lines: seq<string>)
    requires lines != [] && forall k :: 0 <= k < |lines| ==> '\n' !in lines[k]
    ensures Split(Join(lines) + ['\n']) == lines + [[]]
  {
    if |lines| == 1 {
      SplitLine(lines[0], []);
      assert lines[0] + ['\n'] + [] == Join(lines) + ['\n'];
      assert lines == [lines[0]];
    } else {
      SplitJoinedLines(lines[1..]);
      SplitLine(lines[0], Join(lines[1..]) + ['\n']);
      assert lines[0] + ['\n'] + (Join(lines[1..]) + ['\n']) == Join(lines) + ['\n'];
      assert lines == [lines[0]] + lines[1..];
    }
  }

  lemma {:induction false} JoinHasNoCr(lines: seq<string>)
    requires forall k :: 0 <= k < |lines| ==> '\r' !in lines[k]
    ensures '\r' !in Join(lines)
  {
    if |lines| > 1 {
      JoinHasNoCr(lines[1..]);
    }
  }

  lemma {:induction false} SplitIsClean(s: string)
    requires '\r' !in s
    ensures forall k :: 0 <= k < |Split(s)| ==> OneLine(Split(s)[k])
  {
    if s != [] {
      SplitIsClean(s[1..]);
      var rest := Split(s[1..]);
      assert OneLine(rest[0]);
    }
  }

  predicate AllOneLine(lines: seq<string>) {
    forall k :: 0 <= k < |lines| ==> OneLine(lines[k])
  }

  lemma PathLineIsClean(path: string)
    requires OneLine(path)
    ensures OneLine(ADD + path) && OneLine(DELETE + path) && OneLine(UPDATE + path) && OneLine(MOVE + path)
  {
    assert OneLine(ADD) && OneLine(DELETE) && OneLine(UPDATE) && OneLine(MOVE);
  }

  lemma OperationIsClean(operation: Operation)
    requires Canonical(operation)
    ensures AllOneLine(PrintLines(operation))
  {
    hide Trim, Split, Flatten, CleanHunks, OneLine;
    PathLineIsClean(operation.path);
    match operation {
      case AddFile(_, content) =>
        MarkedIsClean(content);
      case DeleteFile(_) =>
      case UpdateFile(_, hunks, moveTo) =>
        FlattenLines(hunks);
        if moveTo.Some? {
          PathLineIsClean(moveTo.value);
        }
    }
  }

  lemma MarkedIsClean(content: string)
    requires content != [] && '\r' !in content
    ensures AllOneLine(Marked(Split(content[..|content| - 1])))
  {
    hide Split;
    SplitIsClean(content[..|content| - 1]);
  }

  lemma {:induction false} PrintIsClean(operations: seq<Operation>)
    requires forall i :: 0 <= i < |operations| ==> Canonical(operations[i])
    ensures AllOneLine(PrintBody(operations))
  {
    hide Canonical, OneLine, PrintLines;
    if operations != [] {
      PrintIsClean(operations[1..]);
      OperationIsClean(operations[0]);
    }
  }

  /** Reading a printed patch gives the operations that were printed. */
  lemma ParseUndoesPrint(operations: seq<Operation>)
    requires forall i :: 0 <= i < |operations| ==> Canonical(operations[i])
    ensures Parse(Print(operations), Current) == Ok(operations)
  {
    hide ParseBody, PrintBody, Join, Canonical, Trim, Split, Normalize;
    var body := PrintBody(operations);
    PrintIsClean(operations);
    LinesOfPrint(body);
    EnvelopeIsTrimmed();
    var lines := [BEGIN] + body + [END];
    assert lines[1..|lines| - 1] == body;
    BodyRoundTrip(operations);
  }

  lemma EnvelopeIsTrimmed()
    ensures Trim(BEGIN) == BEGIN && Trim(END) == END
  {
  }

  /** The lines of a printed patch are the lines it was printed from. */
  lemma LinesOfPrint(body: seq<string>)
    requires AllOneLine(body)
    ensures var lines := [BEGIN] + body + [END];
            DropEmptyEnd(Split(Normalize(Join(lines) + ['\n']))) == lines
  {
    hide Join, Split, Normalize;
    var lines := [BEGIN] + body + [END];
    assert OneLine(BEGIN) && OneLine(END);
    assert forall k :: 0 <= k < |lines| ==> OneLine(lines[k]);
    SplitJoinedLines(lines);
    JoinHasNoCr(lines);
    NormalizeLf(Join(lines) + ['\n']);
    assert (lines + [[]])[..|lines|] == lines;
    assert lines[|lines| - 1] == END;
    assert DropEmptyEnd(lines + [[]]) == DropEmptyEnd(lines) == lines;
  }

  // ----- spacing does not matter where it may stand -----

  /** Blank lines in front of an operation, and white space around its paths. */
  datatype Spacing = Spacing(blanks: nat, left: string, right: string)

  function Blanks(n: nat): seq<string> {
    if n == 0 then [] else [[]] + Blanks(n - 1)
  }

  function Padded(path: string, spacing: Spacing): string {
    spacing.left + path + spacing.right
  }

  function LooseLines(operation: Operation, spacing: Spacing): seq<string> {
    match operation
    case AddFile(path, content) =>
      [ADD + Padded(path, spacing)] + (if content == [] then [] else Marked(Split(content[..|content| - 1])))
    case DeleteFile(path) => [DELETE + Padded(path, spacing)]
    case UpdateFile(path, hunks, moveTo) =>
      [UPDATE + Padded(path, spacing)]
      + (if moveTo.Some? then [MOVE + Padded(moveTo.value, spacing)] else [])
      + Flatten(hunks)
  }

  function LooseBody(operations: seq<Operation>, spacings: seq<Spacing>): seq<string>
    requires |operations| == |spacings|
  {
    if operations == [] then []
    else Blanks(spacings[0].blanks) + (LooseLines(operations[0], spacings[0]) + LooseBody(operations[1..], spacings[1..]))
  }

  function LoosePrint(operations: seq<Operation>, spacings: seq<Spacing>): string
    requires |operations| == |spacings|
  {
    Join([BEGIN] + LooseBody(operations, spacings) + [END]) + ['\n']
  }

  /** White space around paths, and blank lines where no section of added or changed
      lines is open: at the start and behind a deletion. */
  predicate Fitting(operations: seq<Operation>, spacings: seq<Spacing>) {
    && |operations| == |spacings|
    && (forall i :: 0 <= i < |spacings| ==>
          && AllSpace(spacings[i].left) && AllSpace(spacings[i].right)
          && OneLine(spacings[i].left) && OneLine(spacings[i].right))
    && (forall i :: 0 < i < |spacings| && !operations[i - 1].DeleteFile? ==> spacings[i].blanks == 0)
  }

  lemma PaddedIsTrimmed(path: string, spacing: Spacing)
    requires Trim(path) == path && AllSpace(spacing.left) && AllSpace(spacing.right)
    ensures Trim(Padded(path, spacing)) == path
  {
    TrimBoth(spacing.left, path, spacing.right);
  }

  lemma AfterPrefix(path: string)
    ensures ADD <= ADD + path && (ADD + path)[|ADD|..] == path
    ensures DELETE <= DELETE + path && (DELETE + path)[|DELETE|..] == path && !(ADD <= DELETE + path)
    ensures UPDATE <= UPDATE + path && (UPDATE + path)[|UPDATE|..] == path
    ensures !(ADD <= UPDATE + path) && !(DELETE <= UPDATE + path)
    ensures MOVE <= MOVE + path && (MOVE + path)[|MOVE|..] == path
  {
    assert ADD[4] == 'A' && (DELETE + path)[4] == 'D' == DELETE[4] && (UPDATE + path)[4] == 'U';
  }

  lemma AddAlike(x: string, y: string, tail: seq<string>)
    requires Trim(x) == Trim(y)
    ensures Next([ADD + x] + tail, Current) == Next([ADD + y] + tail, Current)
  {
    hide Trim, Join, Run, Tails, AllAdded, ADD, DELETE, UPDATE, MOVE;
    PrefixHasLength();
    AfterPrefix(x);
    AfterPrefix(y);
    assert ([ADD + x] + tail)[1..] == tail == ([ADD + y] + tail)[1..];
  }

  lemma DeleteAlike(x: string, y: string, tail: seq<string>)
    requires Trim(x) == Trim(y)
    ensures Next([DELETE + x] + tail, Current) == Next([DELETE + y] + tail, Current)
  {
    hide Trim, Run, Join, Tails, AllAdded, Hunks, ADD, DELETE, UPDATE, MOVE;
    PrefixHasLength();
    AfterPrefix(x);
    AfterPrefix(y);
  }

  lemma UpdateAlike(x: string, y: string, tail: seq<string>)
    requires Trim(x) == Trim(y)
    ensures Next([UPDATE + x] + tail, Current) == Next([UPDATE + y] + tail, Current)
  {
    hide Trim, Run, Join, Tails, AllAdded, Hunks, ADD, DELETE, UPDATE, MOVE;
    PrefixHasLength();
    AfterPrefix(x);
    AfterPrefix(y);
    var a, b := [UPDATE + x] + tail, [UPDATE + y] + tail;
    assert a[1..] == tail == b[1..];
    if tail != [] {
      assert a[1] == tail[0] == b[1] && a[2..] == tail[1..] == b[2..];
    }
  }

  lemma MoveAlike(line: string, x: string, y: string, tail: seq<string>)
    requires Trim(x) == Trim(y)
    ensures Next([UPDATE + line, MOVE + x] + tail, Current) == Next([UPDATE + line, MOVE + y] + tail, Current)
  {
    hide Trim, Run, Join, Tails, AllAdded, Hunks, ADD, DELETE, UPDATE, MOVE;
    PrefixHasLength();
    AfterPrefix(line);
    AfterPrefix(x);
    AfterPrefix(y);
    var a, b := [UPDATE + line, MOVE + x] + tail, [UPDATE + line, MOVE + y] + tail;
    assert a[2..] == tail == b[2..];
  }

  lemma UpdateForgives(x: string, y: string, to: Option<string>, from: Option<string>, hunks: seq<seq<string>>, rest: seq<string>)
    requires Trim(x) == Trim(y) && (to.Some? <==> from.Some?) && (to.Some? ==> Trim(to.value) == Trim(from.value))
    ensures var a := [UPDATE + x] + (if to.Some? then [MOVE + to.value] else []) + Flatten(hunks) + rest;
            var b := [UPDATE + y] + (if from.Some? then [MOVE + from.value] else []) + Flatten(hunks) + rest;
            Next(a, Current) == Next(b, Current)
  {
    hide Next, Trim, Flatten, UPDATE, MOVE;
    var tail := Flatten(hunks) + rest;
    if to.Some? {
      UpdateAlike(x, y, [MOVE + to.value] + tail);
      MoveAlike(y, to.value, from.value, tail);
      assert [UPDATE + x] + [MOVE + to.value] + Flatten(hunks) + rest == [UPDATE + x] + ([MOVE + to.value] + tail);
      assert [UPDATE + y] + ([MOVE + to.value] + tail) == [UPDATE + y, MOVE + to.value] + tail;
      assert [UPDATE + y] + [MOVE + from.value] + Flatten(hunks) + rest == [UPDATE + y, MOVE + from.value] + tail;
    } else {
      UpdateAlike(x, y, tail);
      assert [UPDATE + x] + [] + Flatten(hunks) + rest == [UPDATE + x] + tail;
      assert [UPDATE + y] + [] + Flatten(hunks) + rest == [UPDATE + y] + tail;
    }
  }

  /** Only the trimmed path of an operation line counts. */
  lemma NextForgivesPadding(operation: Operation, spacing: Spacing, rest: seq<string>)
    requires Canonical(operation) && AllSpace(spacing.left) && AllSpace(spacing.right)
    ensures Next(LooseLines(operation, spacing) + rest, Current) == Next(PrintLines(operation) + rest, Current)
    ensures |LooseLines(operation, spacing)| == |PrintLines(operation)|
  {
    hide Next, Trim, Split, CleanHunks, AllSpace, Flatten, Padded, ADD, DELETE, UPDATE, MOVE;
    PaddedIsTrimmed(operation.path, spacing);
    var x, y := Padded(operation.path, spacing), operation.path;
    match operation {
      case AddFile(path, content) =>
        var section := if content == [] then [] else Marked(Split(content[..|content| - 1]));
        assert [ADD + x] + section + rest == [ADD + x] + (section + rest);
        assert [ADD + y] + section + rest == [ADD + y] + (section + rest);
        AddAlike(x, y, section + rest);
      case DeleteFile(path) =>
        DeleteAlike(x, y, rest);
      case UpdateFile(path, hunks, moveTo) =>
        if moveTo.Some? {
          PaddedIsTrimmed(moveTo.value, spacing);
        }
        UpdateForgives(x, y, if moveTo.Some? then Some(Padded(moveTo.value, spacing)) else None, moveTo, hunks, rest);
    }
  }

  lemma PrefixHasLength()
    ensures ADD != [] && DELETE != [] && UPDATE != []
  {
  }

  lemma {:induction false} BlanksAreSkipped(n: nat, body: seq<string>, flavour: Flavour)
    ensures ParseBody(Blanks(n) + body, flavour) == ParseBody(body, flavour)
  {
    if n == 0 {
      assert Blanks(0) + body == body;
    } else {
      var all := Blanks(n) + body;
      assert all[1..] == Blanks(n - 1) + body;
      BlanksAreSkipped(n - 1, body, flavour);
      var r := ParseBody(all[1..], flavour);
      assert r.Ok? ==> [] + r.value == r.value;
    }
  }

  lemma NextOfPrint(operation: Operation, rest: seq<string>)
    requires Canonical(operation) && (operation.DeleteFile? || Opens(rest))
    ensures Next(PrintLines(operation) + rest, Current) == Some(([operation], |PrintLines(operation)|))
  {
    hide Next, Canonical, Opens;
    match operation {
      case AddFile(path, content) => NextOfAdd(path, content, rest);
      case DeleteFile(path) => NextOfDelete(path, rest);
      case UpdateFile(path, hunks, moveTo) => NextOfUpdate(path, hunks, moveTo, rest);
    }
  }

  lemma LooseOpens(operations: seq<Operation>, spacings: seq<Spacing>)
    requires |operations| == |spacings| && (operations != [] ==> spacings[0].blanks == 0)
    ensures Opens(LooseBody(operations, spacings))
  {
    hide ADD, DELETE, UPDATE, OpensBody, Flatten, Split, Marked, Padded;
    if operations != [] {
      OperationOpens(Padded(operations[0].path, spacings[0]));
      assert Blanks(0) == [];
      assert LooseBody(operations, spacings)[0] == LooseLines(operations[0], spacings[0])[0];
    }
  }

  lemma FittingRest(operations: seq<Operation>, spacings: seq<Spacing>)
    requires Fitting(operations, spacings) && operations != []
    ensures Fitting(operations[1..], spacings[1..])
    ensures !operations[0].DeleteFile? && |operations| > 1 ==> spacings[1..][0].blanks == 0
  {
  }

  lemma {:induction false} LooseRoundTrip(operations: seq<Operation>, spacings: seq<Spacing>)
    requires Fitting(operations, spacings) && forall i :: 0 <= i < |operations| ==> Canonical(operations[i])
    ensures ParseBody(LooseBody(operations, spacings), Current) == Ok(operations)
  {
    hide Next, Canonical, Fitting, LooseLines, PrintLines, AllSpace, Opens, OneLine;
    if operations != [] {
      FittingRest(operations, spacings);
      SpacingIsSpace(operations, spacings);
      var first, rest := operations[0], LooseBody(operations[1..], spacings[1..]);
      var lines := LooseLines(first, spacings[0]);
      LooseRoundTrip(operations[1..], spacings[1..]);
      BlanksAreSkipped(spacings[0].blanks, lines + rest, Current);
      assert Canonical(first);
      if !first.DeleteFile? {
        LooseOpens(operations[1..], spacings[1..]);
      }
      NextForgivesPadding(first, spacings[0], rest);
      NextOfPrint(first, rest);
      assert (lines + rest)[|lines|..] == rest;
      assert operations == [first] + operations[1..];
    }
  }

  lemma SpacingIsSpace(operations: seq<Operation>, spacings: seq<Spacing>)
    requires Fitting(operations, spacings) && operations != []
    ensures |operations| == |spacings|
    ensures AllSpace(spacings[0].left) && AllSpace(spacings[0].right)
    ensures OneLine(spacings[0].left) && OneLine(spacings[0].right)
  {
  }

  lemma {:induction false} BlanksAreClean(n: nat)
    ensures AllOneLine(Blanks(n))
  {
    if n > 0 {
      BlanksAreClean(n - 1);
    }
  }

  lemma LooseLinesAreClean(operation: Operation, spacing: Spacing)
    requires Canonical(operation) && OneLine(spacing.left) && OneLine(spacing.right)
    ensures AllOneLine(LooseLines(operation, spacing))
  {
    hide Trim, Split, Flatten, CleanHunks;
    OperationIsClean(operation);
    var loose, tight := LooseLines(operation, spacing), PrintLines(operation);
    forall k | 0 <= k < |loose| ensures OneLine(loose[k]) {
      PathLineIsClean(Padded(operation.path, spacing));
      if operation.UpdateFile? && operation.moveTo.Some? {
        PathLineIsClean(Padded(operation.moveTo.value, spacing));
        assert k >= 2 ==> loose[k] == tight[k];
      } else {
        assert k >= 1 ==> loose[k] == tight[k];
      }
    }
  }

  lemma {:induction false} LooseIsClean(operations: seq<Operation>, spacings: seq<Spacing>)
    requires Fitting(operations, spacings) && forall i :: 0 <= i < |operations| ==> Canonical(operations[i])
    ensures AllOneLine(LooseBody(operations, spacings))
  {
    hide Canonical, OneLine, LooseLines, Fitting, AllSpace;
    if operations != [] {
      FittingRest(operations, spacings);
      SpacingIsSpace(operations, spacings);
      LooseIsClean(operations[1..], spacings[1..]);
      LooseLinesAreClean(operations[0], spacings[0]);
      BlanksAreClean(spacings[0].blanks);
    }
  }

  /** Blank lines between operations and white space around paths do not change what
      is read: with any fitting spacing, the operations are those that were printed. */
  lemma ParseForgivesSpacing(operations: seq<Operation>, spacings: seq<Spacing>)
    requires Fitting(operations, spacings) && forall i :: 0 <= i < |operations| ==> Canonical(operations[i])
    ensures Parse(LoosePrint(operations, spacings), Current) == Ok(operations)
  {
    hide ParseBody, LooseBody, Join, Canonical, Trim, Split, Normalize, Fitting;
    FittingCounts(operations, spacings);
    var body := LooseBody(operations, spacings);
    LooseIsClean(operations, spacings);
    LinesOfPrint(body);
    EnvelopeIsTrimmed();
    var lines := [BEGIN] + body + [END];
    assert lines[1..|lines| - 1] == body;
    LooseRoundTrip(operations, spacings);
  }

  lemma FittingCounts(operations: seq<Operation>, spacings: seq<Spacing>)
    requires Fitting(operations, spacings)
    ensures |operations| == |spacings|
  {
  }

  /** Among added lines a blank line is refused: it has no mark. */
  lemma AddRefusesBlank(path: string, section: seq<string>, rest: seq<string>, flavour: Flavour)
    requires AllAdded(section)
    ensures ParseBody([ADD + path] + (section + ([[]] + rest)), flavour).Err?
  {
    hide Trim, Join, Tails;
    var tail := section + ([[]] + rest);
    var body := [ADD + path] + tail;
    assert body[1..] == tail && body[0] == ADD + path;
    forall k | 0 <= k <= |section| ensures Continues(tail[k], false) {
      assert STARS[0] == '*' && (k < |section| ==> tail[k] == section[k]);
    }
    RunReaches(tail, |section| + 1);
    assert tail[..Run(tail, false)][|section|] == [];
  }

  lemma {:induction false} RunReaches(body: seq<string>, n: nat)
    requires n <= |body| && forall k :: 0 <= k < n ==> Continues(body[k], false)
    ensures Run(body, false) >= n
  {
    if n > 0 {
      RunReaches(body[1..], n - 1);
    }
  }

  /** A blank line behind the hunks of an update becomes their last line. */
  function WithBlank(hunks: seq<seq<string>>): seq<seq<string>> {
    if hunks == [] then [[[]]]
    else hunks[..|hunks| - 1] + [hunks[|hunks| - 1] + [[]]]
  }

  lemma BlankIsClean(hunks: seq<seq<string>>)
    requires CleanHunks(hunks)
    ensures CleanHunks(WithBlank(hunks)) && Flatten(WithBlank(hunks)) == Flatten(hunks) + [[]]
  {
    var more := WithBlank(hunks);
    if hunks == [] {
      assert more[..0] == [];
    } else {
      var front, last := hunks[..|hunks| - 1], hunks[|hunks| - 1];
      assert more[..|more| - 1] == front;
      assert forall i :: 0 <= i < |front| ==> more[i] == hunks[i];
      assert Flatten(front) + (last + [[]]) == Flatten(front) + last + [[]];
    }
  }

  /** Behind an update a blank line is not skipped: it is one more line of its last hunk. */
  lemma BlankExtendsHunk(path: string, hunks: seq<seq<string>>, moveTo: Option<string>, rest: seq<string>)
    requires Canonical(UpdateFile(path, hunks, moveTo)) && Opens(rest)
    ensures ParseBody(PrintLines(UpdateFile(path, hunks, moveTo)) + ([[]] + rest), Current)
            == Prepend([UpdateFile(path, WithBlank(hunks), moveTo)], ParseBody(rest, Current))
  {
    hide Next, Trim, CleanHunks, Flatten, WithBlank, Opens;
    BlankIsClean(hunks);
    var op := UpdateFile(path, WithBlank(hunks), moveTo);
    var lines := PrintLines(UpdateFile(path, hunks, moveTo));
    assert PrintLines(op) == lines + [[]];
    NextOfUpdate(path, WithBlank(hunks), moveTo, rest);
    assert lines + ([[]] + rest) == PrintLines(op) + rest;
    assert (PrintLines(op) + rest)[|PrintLines(op)|..] == rest;
  }
}
