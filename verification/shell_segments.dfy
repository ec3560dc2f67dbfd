/** Cutting a shell command list at its operators, with quotes and escapes
    respected, and refusing whatever would need a real shell grammar. */
module ShellSegments {
  import opened PatchText

  const MAX_SEGMENTS := 1024
  const MAX_SOURCE_BYTES := 1_048_576

  datatype Quote = Unquoted | Quoted(delimiter: char)

  datatype State = State(quote: Quote, escaped: bool)

  const NEUTRAL := State(Unquoted, false)

  // ----- one character -----

  predicate IsScalarName(c: char) {
    || 'a' <= c <= 'z' || 'A' <= c <= 'Z' || '0' <= c <= '9'
    || c in {'_', '@', '*', '#', '?', '-', '$', '!'}
  }

  predicate ScalarAfter(command: string, index: nat) {
    index + 1 < |command| && IsScalarName(command[index + 1])
  }

  datatype Turn = Go(next: State) | Cut | Refuse

  /** What the character at `i` does in state `st`. */
  function TurnAt(command: string, parameters: bool, i: nat, st: State): Turn
    requires i < |command|
  {
    var c := command[i];
    if st.quote == Quoted('\'') then Go(if c == '\'' then st.(quote := Unquoted) else st)
    else if st.escaped then (if c == '\n' then Refuse else Go(st.(escaped := false)))
    else if c == '\\' then Go(st.(escaped := true))
    else if c == '`' || (c == '$' && (!parameters || !ScalarAfter(command, i))) then Refuse
    else if st.quote.Quoted? then Go(if c == st.quote.delimiter then st.(quote := Unquoted) else st)
    else if c == '\'' || c == '"' then Go(st.(quote := Quoted(c)))
    else if c == '\n' || c == '\r' then (if parameters then Cut else Refuse)
    else if c in {'<', '>', '(', ')', '{', '}', '#'} then Refuse
    else if c in {';', '|', '&'} then Cut
    else Go(st)
  }

  // ----- a whole command -----

  /** How a scan ends: at something refused, inside a quote or an escape, or with
      the piece after the last operator. */
  datatype End = Refused | Unfinished | Last(piece: string)

  /** The pieces that an operator ended, and the end. */
  datatype Scanned = Scanned(pieces: seq<string>, end: End)

  function Scan(command: string, parameters: bool, i: nat, start: nat, st: State): Scanned
    requires start <= i <= |command|
    decreases |command| - i
  {
    if i == |command| then
      Scanned([], if st == NEUTRAL then Last(command[start..]) else Unfinished)
    else
      match TurnAt(command, parameters, i, st)
      case Go(next) => Scan(command, parameters, i + 1, start, next)
      case Refuse => Scanned([], Refused)
      case Cut =>
        var rest := Scan(command, parameters, i + 1, i + 1, NEUTRAL);
        rest.(pieces := [command[start..i]] + rest.pieces)
  }

  predicate Blank(piece: string) {
    Trim(piece) == []
  }

  function Nonblank(pieces: seq<string>): seq<string> {
    if pieces == [] then []
    else
      var front := Nonblank(pieces[..|pieces| - 1]);
      if Blank(pieces[|pieces| - 1]) then front else front + [pieces[|pieces| - 1]]
  }

  datatype Outcome = Segments(segments: seq<string>) | NotLiteral | ParseFailed | ParseLimit

  function Outcomes(command: string, parameters: bool): Outcome {
    var scanned := Scan(command, parameters, 0, 0, NEUTRAL);
    var closed := Nonblank(scanned.pieces);
    if Size(command) > MAX_SOURCE_BYTES || |closed| > MAX_SEGMENTS then ParseLimit
    else
      match scanned.end
      case Refused => NotLiteral
      case Unfinished => ParseFailed
      case Last(piece) =>
        var all := Nonblank(scanned.pieces + [piece]);
        if |all| > MAX_SEGMENTS then ParseLimit else Segments(all)
  }

  lemma {:induction false} NonblankConcat(a: seq<string>, b: seq<string>)
    ensures Nonblank(a + b) == Nonblank(a) + Nonblank(b)
  {
    if b == [] {
      assert a + b == a && Nonblank(a) + [] == Nonblank(a);
    } else {
      var front := b[..|b| - 1];
      assert (a + b)[..|a + b| - 1] == a + front;
      NonblankConcat(a, front);
      assert Nonblank(a) + (Nonblank(front) + [b[|b| - 1]]) == Nonblank(a) + Nonblank(front) + [b[|b| - 1]];
    }
  }

  lemma NonblankPush(pieces: seq<string>, piece: string)
    ensures Nonblank([]) == []
    ensures Nonblank(pieces + [piece]) == if Blank(piece) then Nonblank(pieces) else Nonblank(pieces) + [piece]
  {
    assert (pieces + [piece])[..|pieces|] == pieces;
  }

  method CommandSegments(command: string, parameters: bool) returns (r: Outcome)
    ensures r == Outcomes(command, parameters)
    ensures forall n: nat, cuts: seq<nat> ::
              StopsAt(command, parameters, n) && CutsTo(command, parameters, n, cuts) ==> r == Verdict(command, n, cuts)
  {
    r := SegmentAll(command, parameters);
    forall n: nat, cuts: seq<nat> | StopsAt(command, parameters, n) && CutsTo(command, parameters, n, cuts)
      ensures r == Verdict(command, n, cuts)
    {
      OutcomeIsVerdict(command, parameters, n, cuts);
    }
  }

  /** The scan itself. */
  method SegmentAll(command: string, parameters: bool) returns (r: Outcome)
    ensures r == Outcomes(command, parameters)
  {
    hide Blank, Size, TurnAt, Nonblank, Scan;
    if Size(command) > MAX_SOURCE_BYTES {
      return ParseLimit;
    }
    NonblankPush([], []);
    var st, start, segments := NEUTRAL, 0, [];
    ghost var pieces: seq<string> := [];
    ghost var whole := Scan(command, parameters, 0, 0, NEUTRAL);
    assert whole == After([], whole);
    for i := 0 to |command|
      invariant 0 <= start <= i && segments == Nonblank(pieces) && |segments| <= MAX_SEGMENTS
      invariant whole == After(pieces, Scan(command, parameters, i, start, st))
    {
      ScanTurn(command, parameters, i, start, st);
      match TurnAt(command, parameters, i, st) {
        case Go(next) => st := next;
        case Refuse =>
          assert pieces + [] == pieces;
          return NotLiteral;
        case Cut =>
          var segment := command[start..i];
          NonblankPush(pieces, segment);
          AfterPush(pieces, segment, Scan(command, parameters, i + 1, i + 1, NEUTRAL));
          pieces := pieces + [segment];
          st, start := NEUTRAL, i + 1;
          if !Blank(segment) {
            segments := segments + [segment];
            if |segments| > MAX_SEGMENTS {
              NonblankConcat(pieces, Scan(command, parameters, i + 1, i + 1, NEUTRAL).pieces);
              return ParseLimit;
            }
          }
      }
    }
    ScanEnds(command, parameters, start, st);
    assert pieces + [] == pieces;
    if st != NEUTRAL {
      return ParseFailed;
    }
    NonblankPush(pieces, command[start..]);
    if !Blank(command[start..]) {
      if |segments| == MAX_SEGMENTS {
        return ParseLimit;
      }
      segments := segments + [command[start..]];
    }
    return Segments(segments);
  }

  /** A scan that first met these pieces. */
  function After(pieces: seq<string>, rest: Scanned): Scanned {
    Scanned(pieces + rest.pieces, rest.end)
  }

  lemma AfterPush(pieces: seq<string>, piece: string, rest: Scanned)
    ensures After(pieces, After([piece], rest)) == After(pieces + [piece], rest)
  {
    assert pieces + ([piece] + rest.pieces) == pieces + [piece] + rest.pieces;
  }

  lemma ScanTurn(command: string, parameters: bool, i: nat, start: nat, st: State)
    requires start <= i < |command|
    ensures Scan(command, parameters, i, start, st)
            == match TurnAt(command, parameters, i, st)
               case Go(next) => Scan(command, parameters, i + 1, start, next)
               case Refuse => Scanned([], Refused)
               case Cut => After([command[start..i]], Scan(command, parameters, i + 1, i + 1, NEUTRAL))
  {
    hide TurnAt;
  }

  lemma ScanEnds(command: string, parameters: bool, start: nat, st: State)
    requires start <= |command|
    ensures Scan(command, parameters, |command|, start, st)
            == Scanned([], if st == NEUTRAL then Last(command[start..]) else Unfinished)
  {
  }

  // ----- walking without an operator -----

  /** The state after `n` characters from `i`, if none of them cuts or refuses. */
  datatype Walked = Stopped | At(state: State)

  function Walk(command: string, parameters: bool, i: nat, n: nat, st: State): Walked
    requires i + n <= |command|
    decreases n
  {
    if n == 0 then At(st)
    else
      match TurnAt(command, parameters, i, st)
      case Go(next) => Walk(command, parameters, i + 1, n - 1, next)
      case _ => Stopped
  }

  /** A piece that, scanned alone, is one whole segment. */
  predicate Closed(piece: string, parameters: bool) {
    Walk(piece, parameters, 0, |piece|, NEUTRAL) == At(NEUTRAL)
  }

  /** No parameter name can start at `i`. */
  predicate Bounds(command: string, i: nat) {
    i < |command| ==> !IsScalarName(command[i])
  }

  /** A walk depends only on the characters walked, and on what follows them not
      being a parameter name. */
  lemma {:induction false} WalkIsLocal(a: string, b: string, parameters: bool, i: nat, j: nat, n: nat, st: State)
    requires i + n <= |a| && j + n <= |b| && a[i..i + n] == b[j..j + n]
    requires Bounds(a, i + n) && Bounds(b, j + n)
    ensures Walk(a, parameters, i, n, st) == Walk(b, parameters, j, n, st)
    decreases n
  {
    if n > 0 {
      assert a[i] == a[i..i + n][0] == b[j..j + n][0] == b[j];
      if n > 1 {
        assert a[i + 1] == a[i..i + n][1] == b[j..j + n][1] == b[j + 1];
      }
      assert ScalarAfter(a, i) == ScalarAfter(b, j);
      assert a[i + 1..i + n] == a[i..i + n][1..] == b[j..j + n][1..] == b[j + 1..j + n];
      if TurnAt(a, parameters, i, st).Go? {
        WalkIsLocal(a, b, parameters, i + 1, j + 1, n - 1, TurnAt(a, parameters, i, st).next);
      }
    }
  }

  lemma {:induction false} ScanWalks(command: string, parameters: bool, i: nat, n: nat, start: nat, st: State)
    requires start <= i && i + n <= |command| && Walk(command, parameters, i, n, st).At?
    ensures Scan(command, parameters, i, start, st)
            == Scan(command, parameters, i + n, start, Walk(command, parameters, i, n, st).state)
    decreases n
  {
    if n > 0 {
      ScanWalks(command, parameters, i + 1, n - 1, start, TurnAt(command, parameters, i, st).next);
    }
  }

  // ----- what quotes and escapes cover -----

  /** The quote that is open before position `i`. */
  function OpenQuote(command: string, i: nat): Quote
    requires i <= |command|
    decreases i
  {
    if i == 0 then Unquoted
    else
      var q, c := OpenQuote(command, i - 1), command[i - 1];
      if Escaped(command, i - 1) then q
      else if q.Unquoted? then (if c in {'\'', '\"'} then Quoted(c) else Unquoted)
      else if c == q.delimiter then Unquoted
      else q
  }

  /** A backslash stands before `i`, outside single quotes and not escaped itself. */
  predicate Escaped(command: string, i: nat)
    requires i <= |command|
    decreases i
  {
    && i > 0 && command[i - 1] == '\\'
    && OpenQuote(command, i - 1) != Quoted('\'')
    && !Escaped(command, i - 1)
  }

  /** No quote and no escape covers position `i`. */
  predicate Uncovered(command: string, i: nat)
    requires i <= |command|
  {
    OpenQuote(command, i).Unquoted? && !Escaped(command, i)
  }

  /** An uncovered `;`, `|` or `&`, and an uncovered line end where one is an operator. */
  predicate Operator(command: string, parameters: bool, i: nat) {
    && i < |command| && Uncovered(command, i)
    && (command[i] in {';', '|', '&'} || (parameters && command[i] in {'\n', '\r'}))
  }

  /** A digit, a letter, or one of `! # $ * - ? @ _`, by its code. */
  predicate NamesParameter(code: int) {
    || 48 <= code <= 57 || 65 <= code <= 90 || 97 <= code <= 122
    || code in {33, 35, 36, 42, 45, 63, 64, 95}
  }

  /** What no literal list may hold: an escaped newline; outside single quotes a
      backquote, or a dollar that is not a scalar parameter in a mode that has them; and
      uncovered redirections, groups and comments, and line ends that are no operators. */
  predicate Refusal(command: string, parameters: bool, i: nat) {
    && i < |command|
    && var c := command[i];
       if Escaped(command, i) then c == '\n'
       else if c == '`' then OpenQuote(command, i) != Quoted('\'')
       else if c == '$' then
         && OpenQuote(command, i) != Quoted('\'')
         && !(parameters && i + 1 < |command| && NamesParameter(command[i + 1] as int))
       else
         && Uncovered(command, i)
         && (c in {'<', '>', '(', ')', '{', '}', '#'} || (!parameters && c in {'\n', '\r'}))
  }

  function StateAt(command: string, i: nat): State
    requires i <= |command|
  {
    State(OpenQuote(command, i), Escaped(command, i))
  }

  lemma StateStarts(command: string)
    ensures StateAt(command, 0) == NEUTRAL
  {
  }

  /** A turn of the scan refuses at what is refused, cuts at operators, and otherwise
      keeps track of quotes and escapes. */
  lemma TurnIsCovered(command: string, parameters: bool, i: nat)
    requires i < |command|
    ensures TurnAt(command, parameters, i, StateAt(command, i))
            == if Refusal(command, parameters, i) then Refuse
               else if Operator(command, parameters, i) then Cut
               else Go(StateAt(command, i + 1))
    ensures !Refusal(command, parameters, i) && Operator(command, parameters, i) ==> StateAt(command, i + 1) == NEUTRAL
  {
    assert ScalarAfter(command, i) <==> i + 1 < |command| && NamesParameter(command[i + 1] as int);
    DelimiterIsQuote(command, i);
  }

  lemma {:induction false} DelimiterIsQuote(command: string, i: nat)
    requires i <= |command|
    ensures OpenQuote(command, i).Quoted? ==> OpenQuote(command, i).delimiter in {'\'', '\"'}
  {
    if i > 0 {
      DelimiterIsQuote(command, i - 1);
    }
  }

  // ----- the command, cut at its operators -----

  /** The scan of the command goes up to `n`: to its end, or to the first thing refused. */
  ghost predicate StopsAt(command: string, parameters: bool, n: nat) {
    && n <= |command|
    && (forall i: nat :: i < n ==> !Refusal(command, parameters, i))
    && (n < |command| ==> Refusal(command, parameters, n))
  }

  predicate Increasing(cuts: seq<nat>, upto: nat) {
    && (forall k, l :: 0 <= k < l < |cuts| ==> cuts[k] < cuts[l])
    && (forall k :: 0 <= k < |cuts| ==> cuts[k] < upto)
  }

  /** The operators before `n`, in order. */
  ghost predicate CutsTo(command: string, parameters: bool, n: nat, cuts: seq<nat>) {
    && Increasing(cuts, n)
    && (forall i: nat :: i in cuts <==> i < n && Operator(command, parameters, i))
  }

  function Start(cuts: seq<nat>, k: nat): nat
    requires k <= |cuts|
  {
    if k == 0 then 0 else cuts[k - 1] + 1
  }

  /** What lies between one operator and the next, or the end. */
  function Piece(command: string, cuts: seq<nat>, k: nat): string
    requires Increasing(cuts, |command|) && k <= |cuts|
  {
    command[Start(cuts, k)..if k < |cuts| then cuts[k] else |command|]
  }

  /** The pieces that an operator ends, from piece `j` on. */
  function Ended(command: string, cuts: seq<nat>, j: nat): seq<string>
    requires Increasing(cuts, |command|) && j <= |cuts|
  {
    seq(|cuts| - j, k requires 0 <= k < |cuts| - j => Piece(command, cuts, j + k))
  }

  /** All pieces, the one after the last operator included. */
  function AllPieces(command: string, cuts: seq<nat>): seq<string>
    requires Increasing(cuts, |command|)
  {
    Ended(command, cuts, 0) + [Piece(command, cuts, |cuts|)]
  }

  /** What a scan up to `n` with these operators comes to. */
  function Verdict(command: string, n: nat, cuts: seq<nat>): Outcome
    requires n <= |command| && Increasing(cuts, n)
  {
    if Size(command) > 1048576 || |Nonblank(Ended(command, cuts, 0))| > 1024 then ParseLimit
    else if n < |command| then NotLiteral
    else if !Uncovered(command, n) then ParseFailed
    else if |Nonblank(AllPieces(command, cuts))| > 1024 then ParseLimit
    else Segments(Nonblank(AllPieces(command, cuts)))
  }

  lemma {:induction false} ScanIsCut(command: string, parameters: bool, n: nat, cuts: seq<nat>, i: nat, j: nat)
    requires StopsAt(command, parameters, n) && CutsTo(command, parameters, n, cuts)
    requires i <= n && j <= |cuts| && Start(cuts, j) <= i
    requires forall k :: j <= k < |cuts| ==> i <= cuts[k]
    requires forall k: nat :: k < i && Operator(command, parameters, k) ==> k < Start(cuts, j)
    ensures Scan(command, parameters, i, Start(cuts, j), StateAt(command, i))
            == Scanned(Ended(command, cuts, j),
                       if n < |command| then Refused
                       else if Uncovered(command, n) then Last(Piece(command, cuts, |cuts|))
                       else Unfinished)
    decreases n - i
  {
    hide TurnAt, Operator, Refusal, StateAt;
    if i < |command| {
      TurnIsCovered(command, parameters, i);
      ScanTurn(command, parameters, i, Start(cuts, j), StateAt(command, i));
      if i == n {
        NoCutsLeft(command, parameters, n, cuts, i, j);
      } else if Operator(command, parameters, i) {
        assert i in cuts;
        CutIsNext(cuts, i, j);
        ScanIsCut(command, parameters, n, cuts, i + 1, j + 1);
        assert Ended(command, cuts, j) == [Piece(command, cuts, j)] + Ended(command, cuts, j + 1);
      } else {
        assert i !in cuts;
        ScanIsCut(command, parameters, n, cuts, i + 1, j);
      }
    } else {
      NoCutsLeft(command, parameters, n, cuts, i, j);
      ScanEnds(command, parameters, Start(cuts, j), StateAt(command, i));
      NeutralIsUncovered(command, i);
      assert command[Start(cuts, j)..] == Piece(command, cuts, |cuts|);
    }
  }

  lemma NeutralIsUncovered(command: string, i: nat)
    requires i <= |command|
    ensures StateAt(command, i) == NEUTRAL <==> Uncovered(command, i)
  {
  }

  lemma NoCutsLeft(command: string, parameters: bool, n: nat, cuts: seq<nat>, i: nat, j: nat)
    requires CutsTo(command, parameters, n, cuts) && i == n <= |command| && j <= |cuts|
    requires j < |cuts| ==> i <= cuts[j]
    ensures j == |cuts| && Ended(command, cuts, j) == []
  {
  }

  lemma CutIsNext(cuts: seq<nat>, i: nat, j: nat)
    requires i in cuts && j <= |cuts| && Start(cuts, j) <= i
    requires forall k, l :: 0 <= k < l < |cuts| ==> cuts[k] < cuts[l]
    requires forall k :: j <= k < |cuts| ==> i <= cuts[k]
    ensures j < |cuts| && cuts[j] == i
  {
    var k :| 0 <= k < |cuts| && cuts[k] == i;
  }

  /** The outcome of segmenting any command, said by its quotes, escapes and operators
      alone: the command is cut exactly at its operators, a refusal is answered when
      something refused is met, and an error when a quote or an escape is still open. */
  lemma OutcomeIsVerdict(command: string, parameters: bool, n: nat, cuts: seq<nat>)
    requires StopsAt(command, parameters, n) && CutsTo(command, parameters, n, cuts)
    ensures Outcomes(command, parameters) == Verdict(command, n, cuts)
  {
    hide Size, Nonblank, Scan, StateAt, Uncovered, Operator, Refusal;
    StateStarts(command);
    ScanIsCut(command, parameters, n, cuts, 0, 0);
  }

  /** Every command has its stop and its operators. */
  lemma {:induction false} CutsExist(command: string, parameters: bool, i: nat) returns (n: nat, cuts: seq<nat>)
    requires i <= |command|
    ensures n <= i && (forall k: nat :: k < n ==> !Refusal(command, parameters, k))
    ensures n < i ==> Refusal(command, parameters, n)
    ensures CutsTo(command, parameters, n, cuts)
  {
    hide Refusal, Operator;
    if i == 0 {
      n, cuts := 0, [];
    } else {
      n, cuts := CutsExist(command, parameters, i - 1);
      if n == i - 1 && !Refusal(command, parameters, n) {
        var earlier := cuts;
        n := i;
        if Operator(command, parameters, i - 1) {
          cuts := earlier + [i - 1];
        }
        assert forall k: nat :: k in cuts <==> k in earlier || (k == i - 1 && Operator(command, parameters, k));
      }
    }
  }

  // ----- what the pieces are -----

  /** `i` ends a piece: it is the end of the command or an operator there. */
  predicate Boundary(command: string, parameters: bool, i: nat) {
    i == |command| || (i < |command| && TurnAt(command, parameters, i, NEUTRAL).Cut?)
  }

  /** The pieces are what lies between operators that no quote or escape covers. */
  ghost predicate Between(command: string, parameters: bool, start: nat, pieces: seq<string>)
    decreases |pieces|
  {
    && pieces != []
    && start + |pieces[0]| <= |command|
    && pieces[0] == command[start..start + |pieces[0]|]
    && Walk(command, parameters, start, |pieces[0]|, NEUTRAL) == At(NEUTRAL)
    && Boundary(command, parameters, start + |pieces[0]|)
    && (if start + |pieces[0]| == |command| then |pieces| == 1
        else Between(command, parameters, start + |pieces[0]| + 1, pieces[1..]))
  }

  lemma {:induction false} WalkExtends(command: string, parameters: bool, i: nat, n: nat, st: State)
    requires i + n < |command| && Walk(command, parameters, i, n, st).At?
    requires TurnAt(command, parameters, i + n, Walk(command, parameters, i, n, st).state).Go?
    ensures Walk(command, parameters, i, n + 1, st)
            == At(TurnAt(command, parameters, i + n, Walk(command, parameters, i, n, st).state).next)
    decreases n
  {
    if n > 0 {
      WalkExtends(command, parameters, i + 1, n - 1, TurnAt(command, parameters, i, st).next);
    }
  }

  lemma TurnCutsNeutral(command: string, parameters: bool, i: nat, st: State)
    requires i < |command| && TurnAt(command, parameters, i, st).Cut?
    ensures st == NEUTRAL && !IsScalarName(command[i])
  {
  }

  lemma {:induction false} ScanIsBetween(command: string, parameters: bool, i: nat, start: nat, st: State)
    requires start <= i <= |command| && Walk(command, parameters, start, i - start, NEUTRAL) == At(st)
    requires Scan(command, parameters, i, start, st).end.Last?
    ensures var s := Scan(command, parameters, i, start, st);
            Between(command, parameters, start, s.pieces + [s.end.piece])
    decreases |command| - i
  {
    hide TurnAt;
    var s := Scan(command, parameters, i, start, st);
    if i == |command| {
      assert command[start..] == command[start..start + |command[start..]|];
    } else {
      match TurnAt(command, parameters, i, st)
      case Go(next) =>
        WalkExtends(command, parameters, start, i - start, NEUTRAL);
        ScanIsBetween(command, parameters, i + 1, start, next);
      case Cut =>
        TurnCutsNeutral(command, parameters, i, st);
        ScanIsBetween(command, parameters, i + 1, i + 1, NEUTRAL);
        var rest := Scan(command, parameters, i + 1, i + 1, NEUTRAL);
        assert (s.pieces + [s.end.piece])[1..] == rest.pieces + [rest.end.piece];
      case Refuse =>
    }
  }

  lemma {:induction false} BetweenIsClosed(command: string, parameters: bool, start: nat, pieces: seq<string>)
    requires Between(command, parameters, start, pieces)
    ensures forall k :: 0 <= k < |pieces| ==> Closed(pieces[k], parameters)
    ensures TotalSize(pieces) + (|pieces| - 1) <= Size(command[start..])
    decreases |pieces|
  {
    var n := |pieces[0]|;
    assert pieces[0] == pieces[0][0..n] && command[start..start + n] == pieces[0];
    if start + n < |command| {
      TurnCutsNeutral(command, parameters, start + n, NEUTRAL);
    }
    WalkIsLocal(command, pieces[0], parameters, start, 0, n, NEUTRAL);
    if start + n == |command| {
      assert command[start..] == pieces[0] && TotalSize(pieces[1..]) == 0;
    } else {
      BetweenIsClosed(command, parameters, start + n + 1, pieces[1..]);
      assert command[start..] == pieces[0] + ([command[start + n]] + command[start + n + 1..]);
      SizeConcat(pieces[0], [command[start + n]] + command[start + n + 1..]);
      assert ([command[start + n]] + command[start + n + 1..])[1..] == command[start + n + 1..];
    }
  }

  // ----- scanning again -----

  function JoinList(pieces: seq<string>): string {
    if pieces == [] then []
    else if |pieces| == 1 then pieces[0]
    else pieces[0] + [';'] + JoinList(pieces[1..])
  }

  /** Scanning a suffix of a text is scanning that suffix. */
  lemma {:induction false} ScanShifts(head: string, tail: string, parameters: bool, i: nat, start: nat, st: State)
    requires start <= i <= |tail|
    ensures Scan(head + tail, parameters, |head| + i, |head| + start, st) == Scan(tail, parameters, i, start, st)
    decreases |tail| - i
  {
    var all := head + tail;
    if i == |tail| {
      assert all[|head| + start..] == tail[start..];
    } else {
      assert all[|head| + i] == tail[i] && ScalarAfter(all, |head| + i) == ScalarAfter(tail, i);
      assert TurnAt(all, parameters, |head| + i, st) == TurnAt(tail, parameters, i, st);
      match TurnAt(tail, parameters, i, st)
      case Go(next) => ScanShifts(head, tail, parameters, i + 1, start, next);
      case Cut =>
        assert all[|head| + start..|head| + i] == tail[start..i];
        ScanShifts(head, tail, parameters, i + 1, i + 1, NEUTRAL);
      case Refuse =>
    }
  }

  lemma SemicolonCuts(command: string, parameters: bool, i: nat)
    requires i < |command| && command[i] == ';'
    ensures TurnAt(command, parameters, i, NEUTRAL).Cut? && Bounds(command, i)
  {
  }

  /** Closed pieces joined with `;` scan back to themselves. */
  lemma {:induction false} ScanOfJoin(pieces: seq<string>, parameters: bool)
    requires pieces != [] && forall k :: 0 <= k < |pieces| ==> Closed(pieces[k], parameters)
    ensures Scan(JoinList(pieces), parameters, 0, 0, NEUTRAL)
            == Scanned(pieces[..|pieces| - 1], Last(pieces[|pieces| - 1]))
  {
    hide TurnAt, Walk, ScalarAfter, IsScalarName;
    var first := pieces[0];
    if |pieces| == 1 {
      ScanWalks(first, parameters, 0, |first|, 0, NEUTRAL);
      assert first[0..] == first;
    } else {
      var tail := JoinList(pieces[1..]);
      var head := first + [';'];
      var all := head + tail;
      assert JoinList(pieces) == all;
      assert all[0..0 + |first|] == first == first[0..0 + |first|];
      SemicolonCuts(all, parameters, |first|);
      WalkIsLocal(all, first, parameters, 0, 0, |first|, NEUTRAL);
      ScanWalks(all, parameters, 0, |first|, 0, NEUTRAL);
      ScanOfJoin(pieces[1..], parameters);
      ScanShifts(head, tail, parameters, 0, 0, NEUTRAL);
      assert pieces[..|pieces| - 1] == [first] + pieces[1..][..|pieces| - 2];
    }
  }

  lemma {:induction false} SizeOfJoin(pieces: seq<string>)
    requires pieces != []
    ensures Size(JoinList(pieces)) == TotalSize(pieces) + (|pieces| - 1)
  {
    if |pieces| > 1 {
      SizeOfJoin(pieces[1..]);
      SizeConcat(pieces[0] + [';'], JoinList(pieces[1..]));
      SizeConcat(pieces[0], [';']);
    }
  }

  lemma {:induction false} NonblankKeeps(pieces: seq<string>, parameters: bool)
    requires forall k :: 0 <= k < |pieces| ==> Closed(pieces[k], parameters)
    ensures forall k :: 0 <= k < |Nonblank(pieces)| ==> Closed(Nonblank(pieces)[k], parameters) && !Blank(Nonblank(pieces)[k])
    ensures Nonblank(Nonblank(pieces)) == Nonblank(pieces)
    ensures TotalSize(Nonblank(pieces)) + |Nonblank(pieces)| <= TotalSize(pieces) + |pieces|
  {
    hide Closed, Blank;
    if pieces != [] {
      var front, last := pieces[..|pieces| - 1], pieces[|pieces| - 1];
      NonblankKeeps(front, parameters);
      assert front + [last] == pieces;
      TotalSizeConcat(front, [last]);
      if !Blank(last) {
        TotalSizeConcat(Nonblank(front), [last]);
        assert (Nonblank(front) + [last])[..|Nonblank(front)|] == Nonblank(front);
      }
    }
  }

  lemma SegmentsAreClosed(command: string, parameters: bool) returns (pieces: seq<string>)
    requires Outcomes(command, parameters).Segments?
    ensures Between(command, parameters, 0, pieces)
    ensures Outcomes(command, parameters).segments == Nonblank(pieces)
    ensures Size(command) <= MAX_SOURCE_BYTES && |Nonblank(pieces)| <= MAX_SEGMENTS
  {
    hide TurnAt, Blank;
    ScanIsBetween(command, parameters, 0, 0, NEUTRAL);
    var s := Scan(command, parameters, 0, 0, NEUTRAL);
    pieces := s.pieces + [s.end.piece];
  }

  /** A command is segmented exactly when it is not too large, holds nothing refused,
      leaves no quote or escape open, and has no more than 1024 segments. They are then
      the non-blank pieces between operators outside quotes and escapes. */
  lemma SegmentsAreBetweenOperators(command: string, parameters: bool) returns (cuts: seq<nat>)
    ensures Increasing(cuts, |command|)
    ensures Outcomes(command, parameters).Segments? <==>
              && Size(command) <= 1048576
              && (forall i: nat :: !Refusal(command, parameters, i))
              && Uncovered(command, |command|)
              && |Nonblank(AllPieces(command, cuts))| <= 1024
    ensures Outcomes(command, parameters).Segments? ==>
              && (forall i: nat :: i in cuts <==> Operator(command, parameters, i))
              && Outcomes(command, parameters).segments == Nonblank(AllPieces(command, cuts))
  {
    hide Size, Nonblank, Outcomes, Uncovered, Refusal, Operator;
    var n;
    n, cuts := CutsExist(command, parameters, |command|);
    OutcomeIsVerdict(command, parameters, n, cuts);
    NonblankPush(Ended(command, cuts, 0), Piece(command, cuts, |cuts|));
    if n == |command| {
      BeyondTheEnd(command, parameters);
    }
  }

  lemma BeyondTheEnd(command: string, parameters: bool)
    ensures forall i: nat :: i >= |command| ==> !Refusal(command, parameters, i) && !Operator(command, parameters, i)
  {
  }

  /** A piece is blank exactly when it is white space only. */
  lemma BlankMeans(piece: string)
    ensures Blank(piece) <==> AllSpace(piece)
  {
    TrimsToNothing(piece);
  }

  /** Each segment alone is its own and only segment, and all of them joined with
      `;` are segmented the same way again. */
  lemma SegmentingAgain(command: string, parameters: bool)
    requires Outcomes(command, parameters).Segments?
    ensures var segments := Outcomes(command, parameters).segments;
            && Outcomes(JoinList(segments), parameters) == Segments(segments)
            && forall k :: 0 <= k < |segments| ==> Outcomes(segments[k], parameters) == Segments([segments[k]])
  {
    hide Outcomes, Closed, Blank, Size, Scan, Between, JoinList;
    var pieces := SegmentsAreClosed(command, parameters);
    BetweenIsClosed(command, parameters, 0, pieces);
    assert command[0..] == command;
    NonblankKeeps(pieces, parameters);
    var segments := Nonblank(pieces);
    JoinedOutcome(segments, parameters, Size(command));
    forall k | 0 <= k < |segments| ensures Outcomes(segments[k], parameters) == Segments([segments[k]]) {
      OneOutcome(segments, k, parameters, Size(command));
    }
  }

  lemma OneOutcome(segments: seq<string>, k: nat, parameters: bool, bound: nat)
    requires k < |segments| && Closed(segments[k], parameters) && !Blank(segments[k])
    requires TotalSize(segments) + |segments| <= bound + 1 && bound <= MAX_SOURCE_BYTES
    ensures Outcomes(segments[k], parameters) == Segments([segments[k]])
  {
    hide Outcomes, Closed, Blank, Size;
    var one := [segments[k]];
    assert segments == segments[..k] + (one + segments[k + 1..]);
    TotalSizeConcat(segments[..k], one + segments[k + 1..]);
    TotalSizeConcat(one, segments[k + 1..]);
    NonblankPush([], segments[k]);
    assert [] + one == one;
    JoinedOutcome(one, parameters, bound);
  }

  lemma OutcomeOfPieces(command: string, parameters: bool, pieces: seq<string>, last: string)
    requires Scan(command, parameters, 0, 0, NEUTRAL) == Scanned(pieces, Last(last))
    requires Size(command) <= MAX_SOURCE_BYTES && |Nonblank(pieces + [last])| <= MAX_SEGMENTS
    ensures Outcomes(command, parameters) == Segments(Nonblank(pieces + [last]))
  {
    hide Scan, Nonblank, Size;
    NonblankPush(pieces, last);
  }

  lemma EmptyIsBlank()
    ensures Blank([]) && Size([]) == 0
  {
  }

  lemma EmptyOutcome(parameters: bool)
    ensures Outcomes([], parameters) == Segments([])
  {
    hide TurnAt, Blank;
    EmptyIsBlank();
    NonblankPush([], []);
    OutcomeOfPieces([], parameters, [], []);
  }

  lemma JoinedOutcome(segments: seq<string>, parameters: bool, bound: nat)
    requires forall k :: 0 <= k < |segments| ==> Closed(segments[k], parameters)
    requires Nonblank(segments) == segments && |segments| <= MAX_SEGMENTS
    requires TotalSize(segments) + |segments| <= bound + 1 && bound <= MAX_SOURCE_BYTES
    ensures Outcomes(JoinList(segments), parameters) == Segments(segments)
  {
    hide Closed, Size, Outcomes, Scan, Nonblank;
    if segments == [] {
      EmptyOutcome(parameters);
    } else {
      ScanOfJoin(segments, parameters);
      SizeOfJoin(segments);
      var front, last := segments[..|segments| - 1], segments[|segments| - 1];
      assert front + [last] == segments;
      OutcomeOfPieces(JoinList(segments), parameters, front, last);
    }
  }

  // ----- the two modes -----

  lemma {:induction false} ScanModesAgree(command: string, i: nat, start: nat, st: State)
    requires start <= i <= |command| && !Scan(command, false, i, start, st).end.Refused?
    ensures Scan(command, true, i, start, st) == Scan(command, false, i, start, st)
    decreases |command| - i
  {
    if i < |command| {
      match TurnAt(command, false, i, st)
      case Go(next) => ScanModesAgree(command, i + 1, start, next);
      case Cut => ScanModesAgree(command, i + 1, i + 1, NEUTRAL);
      case Refuse =>
    }
  }

  /** What the literal mode segments, the executable mode segments alike. */
  lemma LiteralImpliesExecutable(command: string)
    requires Outcomes(command, false).Segments?
    ensures Outcomes(command, true) == Outcomes(command, false)
  {
    ScanModesAgree(command, 0, 0, NEUTRAL);
  }
}
