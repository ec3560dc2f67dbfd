/** Collecting the executables a shell command would run: lists and for-loops, the
    `command` wrapper, and scripts nested in `sh -c`. The word splitter is a
    parameter: `split(text)` is the words of the text, or nothing if it is malformed. */
module ShellCandidates {
  import opened Wrappers
  import opened PatchText
  import Seg = ShellSegments
  import G = ShellGrammar

  const MAX_DEPTH := 4

  type Splitter = string -> Option<seq<string>>

  datatype Error = ParseFailed | ParseLimit

  /** The executables found, or that the simple path does not apply, or an error. */
  datatype Collected = Found(names: seq<string>) | NotSimple | Fails(error: Error)

  // ----- words -----

  function KeywordRest(segment: string, keyword: string): Option<string> {
    if keyword <= segment && (|keyword| == |segment| || IsSpace(segment[|keyword|]))
    then Some(segment[|keyword|..]) else None
  }

  predicate Opens(segment: string, keywords: seq<string>) {
    exists i :: 0 <= i < |keywords| && KeywordRest(segment, keywords[i]).Some?
  }

  const COMPOUND: seq<string> :=
    ["if", "then", "elif", "else", "fi", "while", "until", "case", "esac", "select", "function"]

  const COMPOUND_BODY: seq<string> := ["if", "while", "until", "case", "select", "function"]

  predicate IsLetter(c: char) {
    'a' <= c <= 'z' || 'A' <= c <= 'Z'
  }

  predicate VariableName(name: string) {
    && name != []
    && forall i :: 0 <= i < |name| ==>
         name[i] == '_' || IsLetter(name[i]) || (i > 0 && '0' <= name[i] <= '9')
  }

  /** The position of the first `c`, or the length. */
  function IndexOf(s: string, c: char): (i: nat)
    ensures i <= |s|
  {
    if s == [] || s[0] == c then 0 else 1 + IndexOf(s[1..], c)
  }

  predicate IsAssignment(word: string) {
    IndexOf(word, '=') < |word| && VariableName(word[..IndexOf(word, '=')])
  }

  function Basename(path: string): string {
    if path == [] then []
    else
      var last := path[|path| - 1];
      if last == '/' || last == '\\' then []
      else Basename(path[..|path| - 1]) + [if 'A' <= last <= 'Z' then (last as int + 32) as char else last]
  }

  predicate IsShell(word: string) {
    Basename(word) in {"sh", "bash", "zsh", "dash", "ksh"}
  }

  predicate IsWrapper(name: string) {
    name in {"env", "command", "exec", "nohup", "setsid", "time"}
  }

  predicate IsKeyword(name: string) {
    name in {"if", "then", "else", "elif", "fi", "for", "while", "until", "do", "done", "case", "esac", "in",
             "function", "{", "}", "(", ")"}
  }

  predicate IsControl(word: string) {
    word in {"|", "||", "&", "&&", ";"}
  }

  /** The word after the first script flag that has one. */
  function ScriptArgument(words: seq<string>): Option<string> {
    if words == [] then None
    else if words[0] in {"-c", "-ec", "-ce", "--command"} && |words| > 1 then Some(words[1])
    else ScriptArgument(words[1..])
  }

  // ----- where the executable of a segment is -----

  function SkipAssignments(words: seq<string>, i: nat): (j: nat)
    requires i <= |words|
    ensures i <= j <= |words|
    decreases |words| - i
  {
    if i < |words| && IsAssignment(words[i]) then SkipAssignments(words, i + 1) else i
  }

  function SkipEnv(words: seq<string>, i: nat): (j: nat)
    requires i <= |words|
    ensures i <= j <= |words|
    decreases |words| - i
  {
    if i < |words| && ((words[i] != [] && words[i][0] == '-') || IsAssignment(words[i])) then
      if words[i] in {"-u", "--unset"}
      then (if i + 2 <= |words| then SkipEnv(words, i + 2) else |words|)
      else SkipEnv(words, i + 1)
    else i
  }

  function FindExecutable(words: seq<string>, i: nat): (j: nat)
    requires i <= |words|
    ensures i <= j <= |words|
    decreases |words| - i
  {
    if i == |words| then i
    else
      var name := Basename(words[i]);
      if IsWrapper(name) && name == "env" then FindExecutable(words, SkipEnv(words, i + 1))
      else if IsWrapper(name) || IsKeyword(name) then FindExecutable(words, i + 1)
      else i
  }

  // ----- the options of `command` -----

  datatype Options = Options(cursor: nat, query: bool, defaultPath: bool)

  predicate IsFlags(flags: string) {
    flags != [] && forall i :: 0 <= i < |flags| ==> flags[i] in {'p', 'v', 'V'}
  }

  function ReadOptions(words: seq<string>, o: Options): (r: Option<Options>)
    requires o.cursor <= |words|
    ensures r.Some? ==> o.cursor <= r.value.cursor <= |words|
    decreases |words| - o.cursor
  {
    if o.cursor == |words| then Some(o)
    else
      var option := words[o.cursor];
      if option == "--" then Some(o.(cursor := o.cursor + 1))
      else if option == [] || option[0] != '-' then Some(o)
      else if !IsFlags(option[1..]) then None
      else
        ReadOptions(words, Options(o.cursor + 1, o.query || 'v' in option[1..] || 'V' in option[1..],
                                   o.defaultPath || 'p' in option[1..]))
  }

  // ----- collecting -----

  function Then(names: seq<string>, rest: Collected): Collected {
    if rest.Found? then Found(names + rest.names) else rest
  }

  function Both(first: Collected, rest: Collected): Collected {
    if first.Found? then Then(first.names, rest) else first
  }

  function Left(depth: nat): nat {
    if depth > MAX_DEPTH then 0 else MAX_DEPTH + 1 - depth
  }

  /** One nested script, one level deeper. */
  function Script(words: seq<string>, depth: nat, split: Splitter): Collected
    requires depth <= MAX_DEPTH
    decreases Left(depth), 0
  {
    if words != [] && IsShell(words[0]) && ScriptArgument(words).Some?
    then Executables(ScriptArgument(words).value, depth + 1, split)
    else Found([])
  }

  function AppendSegment(words: seq<string>, depth: nat, split: Splitter): Collected
    requires depth <= MAX_DEPTH
    decreases Left(depth), 1
  {
    var i := FindExecutable(words, SkipAssignments(words, 0));
    if i == |words| then Found([]) else Both(Found([words[i]]), Script(words[i..], depth, split))
  }

  function AppendSimple(words: seq<string>, depth: nat, split: Splitter): Collected
    requires depth <= MAX_DEPTH
    decreases Left(depth), 2
  {
    if words == [] then Found([])
    else if words[0] == "command" then
      match ReadOptions(words, Options(1, false, false))
      case None => Fails(ParseFailed)
      case Some(o) =>
        if o.query then Found([])
        else if o.defaultPath then Fails(ParseFailed)
        else if o.cursor == |words| then Found([])
        else if depth >= MAX_DEPTH then Fails(ParseFailed)
        else AppendSimple(words[o.cursor..], depth + 1, split)
    else if '/' in words[0] && Basename(words[0]) !in {"env", "exec", "nohup", "setsid", "time"}
    then Both(Found([words[0]]), Script(words, depth, split))
    else AppendSegment(words, depth, split)
  }

  /** What one list segment is: a leading `do`, and then a body. */
  datatype Part = Part(opensBody: bool, body: string)

  function PartOf(segment: string): Part {
    var trimmed := Trim(segment);
    var rest := KeywordRest(trimmed, "do");
    if rest.Some? then Part(true, TrimStart(rest.value)) else Part(false, trimmed)
  }

  datatype Kind = Compound | Header | Footer | Command | Empty

  function KindOf(body: string): Kind {
    if Opens(body, COMPOUND_BODY) then Compound
    else if KeywordRest(body, "for").Some? then Header
    else if KeywordRest(body, "done").Some? then Footer
    else if body != [] then Command
    else Empty
  }

  predicate GoodHeader(words: seq<string>) {
    |words| >= 2 && VariableName(words[1]) && (|words| > 2 ==> words[2] == "in")
  }

  function KindTokens(kind: Kind): seq<G.Token> {
    match kind
    case Header => [G.For]
    case Footer => [G.Done]
    case Command => [G.Plain]
    case _ => []
  }

  function TokensOf(segment: string): seq<G.Token> {
    var part := PartOf(segment);
    if part.opensBody then [G.Do] + KindTokens(KindOf(part.body)) else KindTokens(KindOf(part.body))
  }

  /** What a segment contributes by itself, whatever the loops around it. */
  function Own(segment: string, depth: nat, split: Splitter): Collected
    requires depth <= MAX_DEPTH
    decreases Left(depth), 3
  {
    var body := PartOf(segment).body;
    match KindOf(body)
    case Compound => NotSimple
    case Header => (match split(body) case Some(words) => (if GoodHeader(words) then Found([]) else Fails(ParseFailed))
                                      case None => Fails(ParseFailed))
    case Footer => if Trim(KeywordRest(body, "done").value) == [] then Found([]) else Fails(ParseFailed)
    case Command => (match split(body) case Some(words) => AppendSimple(words, depth, split)
                                       case None => Fails(ParseFailed))
    case Empty => Found([])
  }

  /** The loop over the segments: the stack first takes `do`, then the segment's own
      checks are made, then the stack takes the rest. */
  function RunLoops(segments: seq<string>, loops: G.Loops, depth: nat, split: Splitter): Collected
    requires depth <= MAX_DEPTH
    decreases Left(depth), 4, |segments|
  {
    if segments == [] then (if loops == [] then Found([]) else Fails(ParseFailed))
    else
      var part := PartOf(segments[0]);
      if part.opensBody != G.Awaiting(loops) then Fails(ParseFailed)
      else
        var inside := if part.opensBody then G.Pop(loops) + [false] else loops;
        var own := Own(segments[0], depth, split);
        if !own.Found? then own
        else
          match KindOf(part.body)
          case Header =>
            if |inside| >= G.MAX_LOOPS then Fails(ParseFailed) else RunLoops(segments[1..], inside + [true], depth, split)
          case Footer =>
            if inside == [] then Fails(ParseFailed) else RunLoops(segments[1..], G.Pop(inside), depth, split)
          case _ => Both(own, RunLoops(segments[1..], inside, depth, split))
  }

  predicate AnyCompound(segments: seq<string>) {
    exists i :: 0 <= i < |segments| && Opens(Trim(segments[i]), COMPOUND)
  }

  function SimpleCandidates(command: string, depth: nat, split: Splitter): Collected
    requires depth <= MAX_DEPTH
    decreases Left(depth), 5
  {
    match Seg.Outcomes(command, true)
    case ParseFailed => Fails(ParseFailed)
    case ParseLimit => Fails(ParseLimit)
    case NotLiteral => NotSimple
    case Segments(segments) => if AnyCompound(segments) then NotSimple else RunLoops(segments, [], depth, split)
  }

  function AppendAll(groups: seq<seq<string>>, depth: nat, split: Splitter): Collected
    requires depth <= MAX_DEPTH
    decreases Left(depth), 5, |groups|
  {
    if groups == [] then Found([])
    else Both(AppendSegment(groups[0], depth, split), AppendAll(groups[1..], depth, split))
  }

  function AppendLiterals(segments: seq<string>, depth: nat, split: Splitter): Collected
    requires depth <= MAX_DEPTH
    decreases Left(depth), 5, |segments|
  {
    if segments == [] then Found([])
    else
      match split(segments[0])
      case None => Fails(ParseFailed)
      case Some(words) => Both(AppendSegment(words, depth, split), AppendLiterals(segments[1..], depth, split))
  }

  /** Words between control operators, for what is not a literal list. */
  function Groups(words: seq<string>): (groups: seq<seq<string>>)
    ensures groups != []
  {
    if words == [] then [[]]
    else
      var rest := Groups(words[1..]);
      if IsControl(words[0]) then [[]] + rest else [[words[0]] + rest[0]] + rest[1..]
  }

  function Executables(command: string, depth: nat, split: Splitter): Collected
    decreases Left(depth), 6
  {
    if depth > MAX_DEPTH then Fails(ParseLimit)
    else
      var simple := SimpleCandidates(command, depth, split);
      if !simple.NotSimple? then simple
      else
        match Seg.Outcomes(command, false)
        case ParseFailed => Fails(ParseFailed)
        case ParseLimit => Fails(ParseLimit)
        case Segments(segments) => AppendLiterals(segments, depth, split)
        case NotLiteral =>
          match split(command)
          case None => Fails(ParseFailed)
          case Some(words) => AppendAll(Groups(words), depth, split)
  }

  /** The executables of an argument vector: its own, and those of a script it runs. */
  function ArgvExecutables(argv: seq<string>, split: Splitter): Option<Collected> {
    if argv == [] || argv[0] == [] then None else Some(Both(Found([argv[0]]), Script(argv, 0, split)))
  }

  // ----- the collectors, as they run -----

  /** Skip the options and assignments that follow `env`. */
  method SkipEnvWords(segment: seq<string>, start: nat) returns (index: nat)
    requires start <= |segment|
    ensures index == SkipEnv(segment, start)
  {
    hide IsAssignment;
    index := start;
    while index < |segment| && ((segment[index] != [] && segment[index][0] == '-') || IsAssignment(segment[index]))
      invariant start <= index <= |segment|
      invariant SkipEnv(segment, index) == SkipEnv(segment, start)
    {
      if segment[index] in {"-u", "--unset"} {
        index := if index + 2 <= |segment| then index + 2 else |segment|;
      } else {
        index := index + 1;
      }
    }
  }

  method CollectScript(words: seq<string>, depth: nat, split: Splitter) returns (r: Collected)
    requires depth <= MAX_DEPTH
    ensures r == Script(words, depth, split)
    decreases Left(depth), 0
  {
    hide Executables, ScriptArgument, IsShell;
    if words == [] || !IsShell(words[0]) || ScriptArgument(words).None? {
      return Found([]);
    }
    r := CollectExecutables(ScriptArgument(words).value, depth + 1, split);
  }

  method AppendSegmentCandidates(segment: seq<string>, depth: nat, output: seq<string>, split: Splitter)
    returns (r: Collected)
    requires depth <= MAX_DEPTH
    ensures r == Then(output, AppendSegment(segment, depth, split))
    ensures r == Then(output, Answer(RunLaunches(LaunchIn(segment, depth), split)))
    decreases Left(depth), 1
  {
    hide IsAssignment, Basename, Script, IsWrapper, IsKeyword, SkipEnv, RunLaunches, LaunchIn;
    SegmentRuns(segment, depth, split);
    var index := 0;
    while index < |segment| && IsAssignment(segment[index])
      invariant 0 <= index <= |segment|
      invariant SkipAssignments(segment, index) == SkipAssignments(segment, 0)
    {
      index := index + 1;
    }
    ghost var start := index;
    while index < |segment|
      invariant 0 <= index <= |segment|
      invariant FindExecutable(segment, index) == FindExecutable(segment, start)
    {
      var name := Basename(segment[index]);
      if IsWrapper(name) {
        index := index + 1;
        if name == "env" {
          index := SkipEnvWords(segment, index);
        }
        continue;
      }
      if IsKeyword(name) {
        index := index + 1;
        continue;
      }
      var script := CollectScript(segment[index..], depth, split);
      ThenThen(output, Found([segment[index]]), script);
      return Then(output + [segment[index]], script);
    }
    assert output + [] == output;
    return Found(output);
  }

  lemma SimpleUnfold(words: seq<string>, depth: nat, split: Splitter)
    requires depth <= MAX_DEPTH
    ensures AppendSimple(words, depth, split)
            == if words == [] then Found([])
               else if words[0] == "command" then
                 match ReadOptions(words, Options(1, false, false))
                 case None => Fails(ParseFailed)
                 case Some(o) =>
                   if o.query then Found([])
                   else if o.defaultPath then Fails(ParseFailed)
                   else if o.cursor == |words| then Found([])
                   else if depth >= MAX_DEPTH then Fails(ParseFailed)
                   else AppendSimple(words[o.cursor..], depth + 1, split)
               else if '/' in words[0] && Basename(words[0]) !in {"env", "exec", "nohup", "setsid", "time"}
               then Both(Found([words[0]]), Script(words, depth, split))
               else AppendSegment(words, depth, split)
  {
    hide ReadOptions, Basename, Script, AppendSegment;
  }

  /** The options behind `command`, up to the first word that is none. */
  method ReadCommandOptions(words: seq<string>) returns (options: Option<Options>)
    requires words != []
    ensures options == ReadOptions(words, Options(1, false, false))
  {
    hide IsFlags;
    var cursor, query, defaultPath := 1, false, false;
    ghost var whole := ReadOptions(words, Options(1, false, false));
    while cursor < |words|
      invariant 1 <= cursor <= |words|
      invariant whole == ReadOptions(words, Options(cursor, query, defaultPath))
    {
      var option := words[cursor];
      if option == "--" {
        cursor := cursor + 1;
        break;
      }
      if option == [] || option[0] != '-' {
        break;
      }
      if !IsFlags(option[1..]) {
        return None;
      }
      query := query || 'v' in option[1..] || 'V' in option[1..];
      defaultPath := defaultPath || 'p' in option[1..];
      cursor := cursor + 1;
    }
    return Some(Options(cursor, query, defaultPath));
  }

  method AppendSimpleCandidates(words: seq<string>, depth: nat, output: seq<string>, split: Splitter)
    returns (r: Collected)
    requires depth <= MAX_DEPTH
    ensures r == Then(output, AppendSimple(words, depth, split))
    ensures r == Then(output, Answered(StartedBy(words, depth), split))
    decreases Left(depth), 2
  {
    hide AppendSimple, ReadOptions, Basename, Script, AppendSegment, Answered, StartedBy;
    SimpleRuns(words, depth, split);
    SimpleUnfold(words, depth, split);
    assert output + [] == output;
    if words == [] {
      return Found(output);
    }
    if words[0] == "command" {
      var options := ReadCommandOptions(words);
      if options.None? {
        return Fails(ParseFailed);
      }
      var Options(cursor, query, defaultPath) := options.value;
      if query {
        return Found(output);
      }
      if defaultPath {
        return Fails(ParseFailed);
      }
      if cursor < |words| {
        if depth >= MAX_DEPTH {
          return Fails(ParseFailed);
        }
        r := AppendSimpleCandidates(words[cursor..], depth + 1, output, split);
        return;
      }
      return Found(output);
    }
    if '/' in words[0] && Basename(words[0]) !in {"env", "exec", "nohup", "setsid", "time"} {
      var script := CollectScript(words, depth, split);
      assert script.Found? ==> output + ([words[0]] + script.names) == (output + [words[0]]) + script.names;
      return Then(output + [words[0]], script);
    }
    r := AppendSegmentCandidates(words, depth, output, split);
  }

  /** One turn of the loop over the segments: stop with a result, or go on. */
  method RunSegment(segments: seq<string>, loops: G.Loops, depth: nat, candidates: seq<string>, split: Splitter)
    returns (stop: Option<Collected>, next: G.Loops, more: seq<string>)
    requires depth <= MAX_DEPTH && segments != []
    ensures Then(candidates, RunLoops(segments, loops, depth, split))
            == if stop.Some? then stop.value else Then(more, RunLoops(segments[1..], next, depth, split))
    decreases Left(depth), 3
  {
    hide AppendSimple, KindOf, PartOf, Trim, KeywordRest, GoodHeader;
    var part := PartOf(segments[0]);
    next, more := loops, candidates;
    if part.opensBody {
      if !G.Awaiting(loops) {
        return Some(Fails(ParseFailed)), next, more;
      }
      next := G.Pop(loops) + [false];
    } else if G.Awaiting(loops) {
      return Some(Fails(ParseFailed)), next, more;
    }
    ghost var own := Own(segments[0], depth, split);
    match KindOf(part.body) {
      case Compound => return Some(NotSimple), next, more;
      case Header =>
        var words := split(part.body);
        if words.None? || !GoodHeader(words.value) || |next| >= G.MAX_LOOPS {
          return Some(Fails(ParseFailed)), next, more;
        }
        next := next + [true];
      case Footer =>
        HeaderOrFooter(part.body);
        if Trim(KeywordRest(part.body, "done").value) != [] || next == [] {
          return Some(Fails(ParseFailed)), next, more;
        }
        next := G.Pop(next);
      case Command =>
        var words := split(part.body);
        if words.None? {
          return Some(Fails(ParseFailed)), next, more;
        }
        var r := AppendSimpleCandidates(words.value, depth, candidates, split);
        if !r.Found? {
          return Some(r), next, more;
        }
        more := r.names;
        ThenThen(candidates, own, RunLoops(segments[1..], next, depth, split));
      case Empty =>
        ThenThen(candidates, own, RunLoops(segments[1..], next, depth, split));
        assert candidates + [] == candidates;
    }
    return None, next, more;
  }

  lemma ThenThen(names: seq<string>, own: Collected, rest: Collected)
    requires own.Found?
    ensures Then(names, Both(own, rest)) == Then(names + own.names, rest)
  {
    if rest.Found? {
      assert names + (own.names + rest.names) == names + own.names + rest.names;
    }
  }

  method CollectSimple(command: string, depth: nat, split: Splitter) returns (r: Collected)
    requires depth <= MAX_DEPTH
    ensures r == SimpleCandidates(command, depth, split)
    decreases Left(depth), 4
  {
    hide Seg.Outcomes, Opens;
    var outcome := Seg.CommandSegments(command, true);
    match outcome {
      case ParseFailed => return Fails(ParseFailed);
      case ParseLimit => return Fails(ParseLimit);
      case NotLiteral => return NotSimple;
      case Segments(_) =>
    }
    var segments := outcome.segments;
    if AnyCompound(segments) {
      return NotSimple;
    }
    var candidates, loops := [], [];
    ghost var whole := RunLoops(segments, [], depth, split);
    assert segments[0..] == segments;
    assert whole.Found? ==> candidates + whole.names == whole.names;
    for i := 0 to |segments|
      invariant whole == Then(candidates, RunLoops(segments[i..], loops, depth, split))
    {
      assert segments[i..][1..] == segments[i + 1..];
      var stop;
      stop, loops, candidates := RunSegment(segments[i..], loops, depth, candidates, split);
      if stop.Some? {
        return stop.value;
      }
    }
    if loops != [] {
      return Fails(ParseFailed);
    }
    assert candidates + [] == candidates;
    return Found(candidates);
  }

  /** The segments of a literal list, in order. */
  method AppendLiteralSegments(segments: seq<string>, depth: nat, split: Splitter) returns (r: Collected)
    requires depth <= MAX_DEPTH
    ensures r == AppendLiterals(segments, depth, split)
    decreases Left(depth), 4
  {
    hide AppendSegment;
    var candidates := [];
    ghost var whole := AppendLiterals(segments, depth, split);
    assert segments[0..] == segments;
    assert whole.Found? ==> candidates + whole.names == whole.names;
    for i := 0 to |segments|
      invariant whole == Then(candidates, AppendLiterals(segments[i..], depth, split))
    {
      assert segments[i..][1..] == segments[i + 1..];
      var words := split(segments[i]);
      if words.None? {
        return Fails(ParseFailed);
      }
      var own := AppendSegmentCandidates(words.value, depth, candidates, split);
      if !own.Found? {
        return own;
      }
      ThenThen(candidates, AppendSegment(words.value, depth, split), AppendLiterals(segments[i + 1..], depth, split));
      candidates := own.names;
    }
    assert candidates + [] == candidates;
    return Found(candidates);
  }

  /** The words between control operators, one segment at a time. */
  method AppendTokenGroups(tokens: seq<string>, depth: nat, split: Splitter) returns (r: Collected)
    requires depth <= MAX_DEPTH
    ensures r == AppendAll(Groups(tokens), depth, split)
    decreases Left(depth), 4
  {
    hide AppendSegment;
    var candidates, segment := [], [];
    ghost var whole := AppendAll(Groups(tokens), depth, split);
    assert tokens[0..] == tokens;
    assert [] + Groups(tokens)[0] == Groups(tokens)[0];
    assert whole.Found? ==> candidates + whole.names == whole.names;
    for i := 0 to |tokens|
      invariant whole == Then(candidates, AppendAll(GroupsAfter(segment, tokens[i..]), depth, split))
    {
      GroupsAfterStep(segment, tokens[i..]);
      assert tokens[i..][1..] == tokens[i + 1..];
      if IsControl(tokens[i]) {
        var own := AppendSegmentCandidates(segment, depth, candidates, split);
        if !own.Found? {
          return own;
        }
        ThenThen(candidates, AppendSegment(segment, depth, split),
                 AppendAll(GroupsAfter([], tokens[i + 1..]), depth, split));
        candidates, segment := own.names, [];
      } else {
        segment := segment + [tokens[i]];
      }
    }
    LastGroup(segment, depth, split);
    r := AppendSegmentCandidates(segment, depth, candidates, split);
  }

  /** The groups of what is still to be read, the first one begun already. */
  function GroupsAfter(segment: seq<string>, tokens: seq<string>): seq<seq<string>> {
    [segment + Groups(tokens)[0]] + Groups(tokens)[1..]
  }

  lemma GroupsAfterStep(segment: seq<string>, tokens: seq<string>)
    requires tokens != []
    ensures IsControl(tokens[0]) ==>
              && GroupsAfter(segment, tokens) != []
              && GroupsAfter(segment, tokens)[0] == segment
              && GroupsAfter(segment, tokens)[1..] == GroupsAfter([], tokens[1..])
    ensures !IsControl(tokens[0]) ==> GroupsAfter(segment, tokens) == GroupsAfter(segment + [tokens[0]], tokens[1..])
  {
    var rest := Groups(tokens[1..]);
    if IsControl(tokens[0]) {
      assert segment + [] == segment && [] + rest[0] == rest[0];
    } else {
      assert segment + ([tokens[0]] + rest[0]) == segment + [tokens[0]] + rest[0];
    }
  }

  lemma LastGroup(segment: seq<string>, depth: nat, split: Splitter)
    requires depth <= MAX_DEPTH
    ensures AppendAll(GroupsAfter(segment, []), depth, split) == AppendSegment(segment, depth, split)
  {
    hide AppendSegment;
    assert segment + [] == segment;
    var own := AppendSegment(segment, depth, split);
    assert own.Found? ==> own.names + [] == own.names;
  }

  method CollectExecutables(command: string, depth: nat, split: Splitter) returns (r: Collected)
    ensures r == Executables(command, depth, split)
    ensures r == Answer(RunCommand(command, depth, split))
    decreases Left(depth), 5
  {
    hide SimpleCandidates, Seg.Outcomes, AppendLiterals, AppendAll, Groups, RunCommand;
    ExecutablesRun(command, depth, split);
    if depth > MAX_DEPTH {
      return Fails(ParseLimit);
    }
    r := CollectSimple(command, depth, split);
    if !r.NotSimple? {
      return;
    }
    var outcome := Seg.CommandSegments(command, false);
    match outcome {
      case ParseFailed => return Fails(ParseFailed);
      case ParseLimit => return Fails(ParseLimit);
      case Segments(segments) =>
        r := AppendLiteralSegments(segments, depth, split);
      case NotLiteral =>
        var words := split(command);
        if words.None? {
          return Fails(ParseFailed);
        }
        r := AppendTokenGroups(words.value, depth, split);
    }
  }

  /** The executables of an argument vector, or nothing if it names none. */
  method CollectArgv(argv: seq<string>, split: Splitter) returns (r: Option<Collected>)
    ensures r == ArgvExecutables(argv, split)
    ensures r.None? <==> argv == [] || argv[0] == []
    ensures r.Some? ==> r == Some(Answer(RunLaunch(Launch(argv, 0), split)))
    ensures r.Some? && IsShell(argv[0]) ==>
              forall script :: GivesScript(argv, script) ==> r == Some(Both(Found([argv[0]]), Executables(script, 1, split)))
  {
    hide Script, RunLaunch, GivesScript, IsShell;
    if argv == [] || argv[0] == [] {
      return None;
    }
    var script := CollectScript(argv, 0, split);
    r := Some(Then([argv[0]], script));
    ScriptRuns(argv, 0, split);
    if IsShell(argv[0]) {
      ScriptIsFollowed(argv, split);
    }
  }

  lemma ScriptIsFollowed(argv: seq<string>, split: Splitter)
    requires argv != [] && IsShell(argv[0])
    ensures forall script :: GivesScript(argv, script) ==> Script(argv, 0, split) == Executables(script, 1, split)
  {
    hide Executables, IsShell, ScriptArgument, GivesScript;
    forall script | GivesScript(argv, script) ensures Script(argv, 0, split) == Executables(script, 1, split) {
      ScriptArgumentMeans(argv, script);
    }
  }

  lemma HeaderOrFooter(body: string)
    requires KindOf(body).Footer?
    ensures KeywordRest(body, "done").Some?
  {
  }

  // ----- which word of a segment is the executable -----

  lemma {:induction false} SkipAssignmentsShift(word: string, words: seq<string>, i: nat)
    requires i <= |words|
    ensures SkipAssignments([word] + words, i + 1) == SkipAssignments(words, i) + 1
    decreases |words| - i
  {
    hide IsAssignment;
    if i < |words| {
      SkipAssignmentsShift(word, words, i + 1);
    }
  }

  lemma {:induction false} SkipEnvShift(word: string, words: seq<string>, i: nat)
    requires i <= |words|
    ensures SkipEnv([word] + words, i + 1) == SkipEnv(words, i) + 1
    decreases |words| - i
  {
    hide IsAssignment;
    if i < |words| {
      SkipEnvShift(word, words, i + 1);
      if i + 2 <= |words| {
        SkipEnvShift(word, words, i + 2);
      }
    }
  }

  lemma {:induction false} FindExecutableShift(word: string, words: seq<string>, i: nat)
    requires i <= |words|
    ensures FindExecutable([word] + words, i + 1) == FindExecutable(words, i) + 1
    decreases |words| - i
  {
    hide Basename, IsWrapper, IsKeyword, SkipEnv;
    if i < |words| {
      SkipEnvShift(word, words, i + 1);
      FindExecutableShift(word, words, SkipEnv(words, i + 1));
      FindExecutableShift(word, words, i + 1);
    }
  }

  /** A word in front that is skipped: an assignment anywhere at the start, or a
      wrapper other than `env`, or a keyword. */
  predicate Transparent(word: string, words: seq<string>) {
    if IsAssignment(word) then true
    else
      && Basename(word) != "env"
      && (IsWrapper(Basename(word)) || IsKeyword(Basename(word)))
      && (words != [] ==> !IsAssignment(words[0]))
  }

  /** Assignments, wrappers and keywords in front of a command do not change what it runs. */
  lemma PrefixesAreTransparent(word: string, words: seq<string>, depth: nat, split: Splitter)
    requires depth <= MAX_DEPTH && Transparent(word, words)
    ensures AppendSegment([word] + words, depth, split) == AppendSegment(words, depth, split)
  {
    hide IsAssignment, Basename, IsWrapper, IsKeyword, Script, FindExecutable;
    var longer := [word] + words;
    SkipAssignmentsShift(word, words, 0);
    FindExecutableShift(word, words, SkipAssignments(words, 0));
    FindExecutableUnfold(longer, 0);
    var i := FindExecutable(words, SkipAssignments(words, 0));
    assert longer[i + 1..] == words[i..];
  }

  lemma FindExecutableUnfold(words: seq<string>, i: nat)
    requires i < |words|
    ensures var name := Basename(words[i]);
            FindExecutable(words, i)
            == if !IsWrapper(name) && !IsKeyword(name) then i
               else if name == "env" then FindExecutable(words, SkipEnv(words, i + 1))
               else FindExecutable(words, i + 1)
  {
    hide SkipEnv;
  }

  /** `env` in front runs what follows its options and assignments. */
  lemma EnvIsTransparent(word: string, words: seq<string>, depth: nat, split: Splitter)
    requires depth <= MAX_DEPTH && Basename(word) == "env" && !IsAssignment(word)
    ensures AppendSegment([word] + words, depth, split)
            == AppendSegment(words[SkipEnv(words, 0)..], depth, split)
  {
    hide IsAssignment, Basename, IsKeyword, Script, FindExecutable, SkipEnv;
    var longer, k := [word] + words, SkipEnv(words, 0);
    SkipEnvShift(word, words, 0);
    FindExecutableUnfold(longer, 0);
    FindExecutableShift(word, words, k);
    FindExecutableDrop(words, k);
    SkipEnvStops(words, 0);
    var i := FindExecutable(words, k);
    assert longer[i + 1..] == words[i..] == words[k..][i - k..];
  }

  lemma {:induction false} SkipEnvStops(words: seq<string>, i: nat)
    requires i <= |words|
    ensures SkipEnv(words, i) < |words| ==> !IsAssignment(words[SkipEnv(words, i)])
    decreases |words| - i
  {
    hide IsAssignment;
    if i < |words| {
      SkipEnvStops(words, i + 1);
      if i + 2 <= |words| {
        SkipEnvStops(words, i + 2);
      }
    }
  }

  lemma {:induction false} FindExecutableDrop(words: seq<string>, k: nat)
    requires k <= |words|
    ensures FindExecutable(words, k) == FindExecutable(words[k..], 0) + k
    decreases k
  {
    hide FindExecutable;
    if k == 0 {
      assert words[0..] == words;
    } else {
      FindExecutableDrop(words[1..], k - 1);
      assert [words[0]] + words[1..] == words && words[1..][k - 1..] == words[k..];
      FindExecutableShift(words[0], words[1..], k - 1);
    }
  }

  lemma {:induction false} FindExecutableStops(words: seq<string>, i: nat)
    requires i <= |words|
    ensures var j := FindExecutable(words, i);
            j < |words| ==> !IsWrapper(Basename(words[j])) && !IsKeyword(Basename(words[j]))
    decreases |words| - i
  {
    hide Basename, IsWrapper, IsKeyword, SkipEnv;
    if i < |words| {
      FindExecutableStops(words, SkipEnv(words, i + 1));
      FindExecutableStops(words, i + 1);
    }
  }

  /** The first name a segment contributes is one of its words, and neither a wrapper
      nor a keyword; whatever else it contributes comes from a script that a shell runs. */
  lemma SegmentRunsACommand(words: seq<string>, depth: nat, split: Splitter)
    requires depth <= MAX_DEPTH
    requires AppendSegment(words, depth, split).Found? && AppendSegment(words, depth, split).names != []
    ensures var names := AppendSegment(words, depth, split).names;
            && names[0] in words
            && !IsWrapper(Basename(names[0]))
            && !IsKeyword(Basename(names[0]))
            && (|names| > 1 ==> IsShell(names[0]))
  {
    hide Basename, IsWrapper, IsKeyword, FindExecutable, SkipAssignments, Executables, ScriptArgument;
    FindExecutableStops(words, SkipAssignments(words, 0));
  }

  /** An argument vector that does not begin with an assignment is collected as the same
      words are in a shell segment exactly when its first word is no wrapper or keyword. */
  lemma ArgvIsItsSegment(argv: seq<string>, split: Splitter)
    requires argv != [] && argv[0] != [] && !IsAssignment(argv[0])
    ensures ArgvExecutables(argv, split) == Some(AppendSegment(argv, 0, split))
            <==> !IsWrapper(Basename(argv[0])) && !IsKeyword(Basename(argv[0]))
  {
    hide IsAssignment, Basename, Executables, ScriptArgument, FindExecutable;
    var name, found := Basename(argv[0]), AppendSegment(argv, 0, split);
    FindExecutableUnfold(argv, 0);
    if IsWrapper(name) || IsKeyword(name) {
      assert !IsShell(argv[0]) && [argv[0]] + [] == [argv[0]];
      if found.Found? && found.names != [] {
        SegmentRunsACommand(argv, 0, split);
      }
    } else {
      assert argv[0..] == argv;
    }
  }

  // ----- the loops accept the grammar -----

  function AllTokens(segments: seq<string>): seq<G.Token> {
    if segments == [] then [] else TokensOf(segments[0]) + AllTokens(segments[1..])
  }

  function OwnNames(segments: seq<string>, depth: nat, split: Splitter): seq<string>
    requires depth <= MAX_DEPTH
    requires forall i :: 0 <= i < |segments| ==> Own(segments[i], depth, split).Found?
  {
    if segments == [] then [] else Own(segments[0], depth, split).names + OwnNames(segments[1..], depth, split)
  }

  lemma AcceptsToken(t: G.Token, rest: seq<G.Token>, loops: G.Loops)
    ensures G.Accepts([t] + rest, loops) <==> G.Push(loops, t).0 && G.Accepts(rest, G.Push(loops, t).1)
  {
    assert ([t] + rest)[1..] == rest;
  }

  /** A non-blank segment without `do` has a body. */
  lemma NonblankHasBody(segment: string)
    requires !Seg.Blank(segment)
    ensures PartOf(segment).opensBody || KindOf(PartOf(segment).body) != Empty
  {
  }

  lemma {:induction false} LoopsAreTheStack(segments: seq<string>, loops: G.Loops, depth: nat, split: Splitter)
    requires depth <= MAX_DEPTH
    requires forall i :: 0 <= i < |segments| ==> !Seg.Blank(segments[i]) && Own(segments[i], depth, split).Found?
    ensures RunLoops(segments, loops, depth, split).Found? <==> G.Accepts(AllTokens(segments), loops)
    ensures RunLoops(segments, loops, depth, split).Found? ==>
              RunLoops(segments, loops, depth, split).names == OwnNames(segments, depth, split)
    decreases |segments|
  {
    hide Own, KindOf, PartOf, Seg.Blank, G.Accepts, AllTokens, OwnNames;
    NamesUnfold(segments, depth, split);
    if segments == [] {
      EmptyAccepted(loops);
    } else {
      var segment, rest := segments[0], segments[1..];
      var part := PartOf(segment);
      NonblankHasBody(segment);
      OwnOfLoopWords(segment, depth, split);
      var inside := if part.opensBody && G.Awaiting(loops) then G.Pop(loops) + [false] else loops;
      var body := KindTokens(KindOf(part.body)) + AllTokens(rest);
      if part.opensBody {
        assert [G.Do] + KindTokens(KindOf(part.body)) + AllTokens(rest) == [G.Do] + body;
        AcceptsToken(G.Do, body, loops);
      }
      match KindOf(part.body)
      case Header =>
        AcceptsToken(G.For, AllTokens(rest), inside);
        LoopsAreTheStack(rest, inside + [true], depth, split);
      case Footer =>
        AcceptsToken(G.Done, AllTokens(rest), inside);
        if inside != [] {
          LoopsAreTheStack(rest, G.Pop(inside), depth, split);
        }
      case Command =>
        AcceptsToken(G.Plain, AllTokens(rest), inside);
        LoopsAreTheStack(rest, inside, depth, split);
      case Empty =>
        assert body == AllTokens(rest);
        LoopsAreTheStack(rest, inside, depth, split);
      case Compound =>
    }
  }

  lemma NamesUnfold(segments: seq<string>, depth: nat, split: Splitter)
    requires depth <= MAX_DEPTH
    requires forall i :: 0 <= i < |segments| ==> Own(segments[i], depth, split).Found?
    ensures segments == [] ==> AllTokens(segments) == [] && OwnNames(segments, depth, split) == []
    ensures segments != [] ==>
              && AllTokens(segments) == TokensOf(segments[0]) + AllTokens(segments[1..])
              && OwnNames(segments, depth, split)
                 == Own(segments[0], depth, split).names + OwnNames(segments[1..], depth, split)
  {
    hide Own, TokensOf;
  }

  lemma EmptyAccepted(loops: G.Loops)
    ensures G.Accepts([], loops) <==> loops == []
  {
  }

  lemma OwnOfLoopWords(segment: string, depth: nat, split: Splitter)
    requires depth <= MAX_DEPTH && Own(segment, depth, split).Found?
    ensures !KindOf(PartOf(segment).body).Compound?
    ensures !KindOf(PartOf(segment).body).Command? ==> Own(segment, depth, split).names == []
  {
    hide KindOf, PartOf;
  }

  /** Given that each segment's own checks pass, a command list is collected exactly
      when its words form lists of commands and for-loops nested at most 32 deep, and
      then the result is every segment's own executables, in order. */
  lemma ListsAreCollectedExactly(segments: seq<string>, depth: nat, split: Splitter)
    requires depth <= MAX_DEPTH
    requires forall i :: 0 <= i < |segments| ==> !Seg.Blank(segments[i]) && Own(segments[i], depth, split).Found?
    ensures RunLoops(segments, [], depth, split).Found? <==>
              exists items :: G.Yield(items) == AllTokens(segments) && G.Nesting(items) <= G.MAX_LOOPS
    ensures RunLoops(segments, [], depth, split).Found? ==>
              RunLoops(segments, [], depth, split).names == OwnNames(segments, depth, split)
  {
    LoopsAreTheStack(segments, [], depth, split);
    G.AcceptsExactlyTheGrammar(AllTokens(segments));
  }

  // ----- the depth bound only refuses -----

  predicate Agrees(deep: Collected, shallow: Collected) {
    deep.Fails? || deep == shallow
  }

  lemma {:induction false} ScriptAgrees(words: seq<string>, deep: nat, shallow: nat, split: Splitter)
    requires shallow <= deep <= MAX_DEPTH
    ensures Agrees(Script(words, deep, split), Script(words, shallow, split))
    decreases Left(deep), 0
  {
    hide Executables, ScriptArgument, IsShell;
    if ScriptArgument(words).Some? {
      ExecutablesAgree(ScriptArgument(words).value, deep + 1, shallow + 1, split);
    }
  }

  lemma {:induction false} SegmentAgrees(words: seq<string>, deep: nat, shallow: nat, split: Splitter)
    requires shallow <= deep <= MAX_DEPTH
    ensures Agrees(AppendSegment(words, deep, split), AppendSegment(words, shallow, split))
    decreases Left(deep), 1
  {
    hide Script;
    var i := FindExecutable(words, SkipAssignments(words, 0));
    ScriptAgrees(words[i..], deep, shallow, split);
  }

  lemma {:induction false} SimpleAgrees(words: seq<string>, deep: nat, shallow: nat, split: Splitter)
    requires shallow <= deep <= MAX_DEPTH
    ensures Agrees(AppendSimple(words, deep, split), AppendSimple(words, shallow, split))
    decreases Left(deep), 2
  {
    hide Script, AppendSegment, ReadOptions, Basename;
    ScriptAgrees(words, deep, shallow, split);
    SegmentAgrees(words, deep, shallow, split);
    if words != [] && deep < MAX_DEPTH {
      var o := ReadOptions(words, Options(1, false, false));
      if o.Some? {
        SimpleAgrees(words[o.value.cursor..], deep + 1, shallow + 1, split);
      }
    }
  }

  lemma OwnAgrees(segment: string, deep: nat, shallow: nat, split: Splitter)
    requires shallow <= deep <= MAX_DEPTH
    ensures Agrees(Own(segment, deep, split), Own(segment, shallow, split))
    decreases Left(deep), 3
  {
    hide AppendSimple, KindOf, PartOf;
    var words := split(PartOf(segment).body);
    if words.Some? {
      SimpleAgrees(words.value, deep, shallow, split);
    }
  }

  lemma {:induction false} LoopsAgree(segments: seq<string>, loops: G.Loops, deep: nat, shallow: nat, split: Splitter)
    requires shallow <= deep <= MAX_DEPTH
    ensures Agrees(RunLoops(segments, loops, deep, split), RunLoops(segments, loops, shallow, split))
    decreases Left(deep), 4, |segments|
  {
    hide Own, KindOf, PartOf;
    if segments != [] {
      var part := PartOf(segments[0]);
      OwnAgrees(segments[0], deep, shallow, split);
      if part.opensBody == G.Awaiting(loops) {
        var inside := if part.opensBody then G.Pop(loops) + [false] else loops;
        LoopsAgree(segments[1..], inside + [true], deep, shallow, split);
        if inside != [] {
          LoopsAgree(segments[1..], G.Pop(inside), deep, shallow, split);
        }
        LoopsAgree(segments[1..], inside, deep, shallow, split);
      }
    }
  }

  lemma {:induction false} GroupsAgree(groups: seq<seq<string>>, deep: nat, shallow: nat, split: Splitter)
    requires shallow <= deep <= MAX_DEPTH
    ensures Agrees(AppendAll(groups, deep, split), AppendAll(groups, shallow, split))
    decreases Left(deep), 5, |groups|
  {
    hide AppendSegment;
    if groups != [] {
      SegmentAgrees(groups[0], deep, shallow, split);
      GroupsAgree(groups[1..], deep, shallow, split);
    }
  }

  lemma {:induction false} LiteralsAgree(segments: seq<string>, deep: nat, shallow: nat, split: Splitter)
    requires shallow <= deep <= MAX_DEPTH
    ensures Agrees(AppendLiterals(segments, deep, split), AppendLiterals(segments, shallow, split))
    decreases Left(deep), 5, |segments|
  {
    hide AppendSegment;
    if segments != [] && split(segments[0]).Some? {
      SegmentAgrees(split(segments[0]).value, deep, shallow, split);
      LiteralsAgree(segments[1..], deep, shallow, split);
    }
  }

  /** Nesting depth never changes what is found, it can only refuse: a command that
      is collected at some depth is collected alike at every lesser depth. */
  lemma {:induction false} ExecutablesAgree(command: string, deep: nat, shallow: nat, split: Splitter)
    requires shallow <= deep
    ensures Agrees(Executables(command, deep, split), Executables(command, shallow, split))
    decreases Left(deep), 6
  {
    hide RunLoops, AppendAll, AppendLiterals, Seg.Outcomes, AnyCompound, Groups;
    if deep <= MAX_DEPTH {
      match Seg.Outcomes(command, true) {
        case Segments(segments) => LoopsAgree(segments, [], deep, shallow, split);
        case _ =>
      }
      match Seg.Outcomes(command, false) {
        case Segments(segments) => LiteralsAgree(segments, deep, shallow, split);
        case _ =>
      }
      if split(command).Some? {
        GroupsAgree(Groups(split(command).value), deep, shallow, split);
      }
    }
  }

  // ----- what words mean -----

  predicate IsScriptFlag(word: string) {
    word == "-c" || word == "-ec" || word == "-ce" || word == "--command"
  }

  /** The first script flag is the word at `i`, and another word follows. */
  predicate FlagAt(argv: seq<string>, i: nat) {
    && i + 1 < |argv| && IsScriptFlag(argv[i])
    && forall j :: 0 <= j < i ==> !IsScriptFlag(argv[j])
  }

  /** The script is the word behind the first script flag. */
  ghost predicate GivesScript(argv: seq<string>, script: string) {
    exists i: nat :: FlagAt(argv, i) && argv[i + 1] == script
  }

  lemma {:induction false} ScriptArgumentMeans(argv: seq<string>, script: string)
    ensures ScriptArgument(argv) == Some(script) <==> GivesScript(argv, script)
  {
    if argv != [] {
      var rest := argv[1..];
      ScriptArgumentMeans(rest, script);
      assert FlagAt(argv, 0) <==> |argv| > 1 && IsScriptFlag(argv[0]);
      forall i: nat ensures FlagAt(argv, i + 1) <==> !IsScriptFlag(argv[0]) && FlagAt(rest, i) {
        assert forall j :: 0 <= j < i && j < |rest| ==> argv[j + 1] == rest[j];
        assert (forall j :: 0 <= j < i + 1 && j < |argv| ==> !IsScriptFlag(argv[j]))
               <==> !IsScriptFlag(argv[0]) && forall j :: 0 <= j < i && j < |rest| ==> !IsScriptFlag(rest[j]);
      }
      if GivesScript(rest, script) && !IsScriptFlag(argv[0]) {
        var i: nat :| FlagAt(rest, i) && rest[i + 1] == script;
        assert FlagAt(argv, i + 1) && argv[(i + 1) + 1] == script;
      }
      if GivesScript(argv, script) {
        var i: nat :| FlagAt(argv, i) && argv[i + 1] == script;
        if i > 0 {
          assert FlagAt(argv, (i - 1) + 1);
          assert FlagAt(rest, i - 1) && rest[(i - 1) + 1] == script;
        }
      }
    }
  }

  /** A word of the letters `p`, `v` and `V` behind a dash. */
  predicate OptionWord(word: string) {
    |word| > 1 && word[0] == '-' && forall i :: 1 <= i < |word| ==> word[i] == 'p' || word[i] == 'v' || word[i] == 'V'
  }

  predicate AnyHas(words: seq<string>, c: char) {
    exists i :: 0 <= i < |words| && c in words[i]
  }

  /** The options end at the first word that is none: behind `--`, at a word without a
      dash, or at the end; any other word with a dash is an error. What they ask for is
      what any of them asks for. */
  lemma {:induction false} OptionsMean(words: seq<string>, o: Options) returns (k: nat)
    requires o.cursor <= |words|
    ensures o.cursor <= k <= |words|
    ensures forall i :: o.cursor <= i < k ==> OptionWord(words[i])
    ensures k < |words| ==> !OptionWord(words[k])
    ensures var r, read := ReadOptions(words, o), words[o.cursor..k];
            if k < |words| && words[k] != "--" && words[k] != [] && words[k][0] == '-' then r.None?
            else
              && r.Some?
              && r.value.cursor == (if k < |words| && words[k] == "--" then k + 1 else k)
              && (r.value.query <==> o.query || AnyHas(read, 'v') || AnyHas(read, 'V'))
              && (r.value.defaultPath <==> o.defaultPath || AnyHas(read, 'p'))
    decreases |words| - o.cursor
  {
    k := o.cursor;
    if o.cursor < |words| {
      var option := words[o.cursor];
      FlagsAreOptions(option);
      if OptionWord(option) {
        var next := Options(o.cursor + 1, o.query || 'v' in option[1..] || 'V' in option[1..],
                            o.defaultPath || 'p' in option[1..]);
        k := OptionsMean(words, next);
        AnyHasFirst(words, o.cursor, k, 'v');
        AnyHasFirst(words, o.cursor, k, 'V');
        AnyHasFirst(words, o.cursor, k, 'p');
      }
    }
  }

  lemma FlagsAreOptions(word: string)
    ensures OptionWord(word) <==> word != [] && word[0] == '-' && IsFlags(word[1..])
    ensures OptionWord(word) ==> word != "--"
    ensures word != [] && word[0] == '-' ==> forall c :: c != '-' ==> (c in word <==> c in word[1..])
  {
    if word != [] && word[0] == '-' {
      assert word == [word[0]] + word[1..];
      assert forall i :: 1 <= i < |word| ==> word[i] == word[1..][i - 1];
      assert forall i :: 0 <= i < |word[1..]| ==> word[1..][i] == word[i + 1];
    }
  }

  lemma AnyHasFirst(words: seq<string>, i: nat, k: nat, c: char)
    requires i < k <= |words|
    ensures AnyHas(words[i..k], c) <==> c in words[i] || AnyHas(words[i + 1..k], c)
  {
    var read, rest := words[i..k], words[i + 1..k];
    assert read == [words[i]] + rest;
    if j :| 0 <= j < |rest| && c in rest[j] {
      assert read[j + 1] == rest[j];
    }
    if j :| 0 <= j < |read| && c in read[j] {
      assert j == 0 || rest[j - 1] == read[j];
    }
  }

  predicate IsSeparator(c: char) {
    c == '/' || c == '\\'
  }

  function Lower(s: string): string {
    seq(|s|, i requires 0 <= i < |s| => if 'A' <= s[i] <= 'Z' then (s[i] as int + 32) as char else s[i])
  }

  /** The base name is what follows the last separator, in lower case. */
  lemma {:induction false} BasenameMeans(path: string) returns (k: nat)
    ensures k <= |path| && (k > 0 ==> IsSeparator(path[k - 1]))
    ensures forall i :: k <= i < |path| ==> !IsSeparator(path[i])
    ensures Basename(path) == Lower(path[k..])
  {
    k := 0;
    if path != [] {
      var n := |path| - 1;
      if IsSeparator(path[n]) {
        k := |path|;
      } else {
        k := BasenameMeans(path[..n]);
        assert path[k..] == path[..n][k..] + [path[n]];
      }
    }
  }

  lemma {:induction false} IndexOfIsFirst(s: string, c: char)
    ensures forall i :: 0 <= i < IndexOf(s, c) ==> s[i] != c
    ensures IndexOf(s, c) < |s| ==> s[IndexOf(s, c)] == c
  {
    if s != [] && s[0] != c {
      IndexOfIsFirst(s[1..], c);
      assert forall i :: 0 < i < |s| ==> s[i] == s[1..][i - 1];
    }
  }

  /** A letter or `_`, and then letters, digits and `_`, in front of the first `=`. */
  predicate NamedBefore(word: string, k: nat) {
    && 0 < k < |word| && word[k] == '='
    && !('0' <= word[0] <= '9')
    && forall i :: 0 <= i < k ==>
         word[i] == '_' || 'a' <= word[i] <= 'z' || 'A' <= word[i] <= 'Z' || '0' <= word[i] <= '9'
  }

  lemma AssignmentMeans(word: string)
    ensures IsAssignment(word) <==> exists k: nat :: NamedBefore(word, k)
  {
    var n := IndexOf(word, '=');
    IndexOfIsFirst(word, '=');
    if IsAssignment(word) {
      assert forall i :: 0 <= i < n ==> word[..n][i] == word[i];
      assert NamedBefore(word, n);
    }
    if k: nat :| NamedBefore(word, k) {
      assert n == k;
      assert forall i :: 0 <= i < n ==> word[..n][i] == word[i];
    }
  }

  lemma GroupsCons(word: string, words: seq<string>)
    ensures Groups([word] + words)
            == if IsControl(word) then [[]] + Groups(words)
               else [[word] + Groups(words)[0]] + Groups(words)[1..]
  {
    hide IsControl;
    assert ([word] + words)[1..] == words;
  }

  /** Words without a control operator are one group. */
  lemma {:induction false} OneGroup(words: seq<string>)
    requires forall i :: 0 <= i < |words| ==> !IsControl(words[i])
    ensures Groups(words) == [words]
  {
    hide IsControl, Groups;
    if words == [] {
      NoGroups();
    } else {
      OneGroup(words[1..]);
      GroupsCons(words[0], words[1..]);
      assert [words[0]] + words[1..] == words;
    }
  }

  lemma NoGroups()
    ensures Groups([]) == [[]]
  {
  }

  /** A control operator separates the groups on its two sides. */
  lemma {:induction false} GroupsSplit(a: seq<string>, operator: string, b: seq<string>)
    requires IsControl(operator)
    ensures Groups(a + ([operator] + b)) == Groups(a) + Groups(b)
  {
    hide IsControl, Groups;
    if a == [] {
      assert a + ([operator] + b) == [operator] + b;
      GroupsCons(operator, b);
      NoGroups();
    } else {
      var tail := a[1..] + ([operator] + b);
      GroupsSplit(a[1..], operator, b);
      assert a + ([operator] + b) == [a[0]] + tail && a == [a[0]] + a[1..];
      GroupsCons(a[0], tail);
      GroupsCons(a[0], a[1..]);
      Reheaded(Groups(a[1..]), [[]], [a[0]] + Groups(a[1..])[0], Groups(b));
    }
  }

  lemma Reheaded<T>(x: seq<T>, front: seq<T>, head: T, y: seq<T>)
    requires x != []
    ensures (x + y)[0] == x[0]
    ensures [head] + (x + y)[1..] == [head] + x[1..] + y && front + (x + y) == front + x + y
  {
    assert (x + y)[1..] == x[1..] + y;
  }

  /** One argument of `env` in front of the command: `-u` or `--unset` with a name,
      another option, or an assignment. */
  predicate EnvItem(item: seq<string>) {
    if |item| == 2 then item[0] in {"-u", "--unset"}
    else |item| == 1 && item[0] !in {"-u", "--unset"} && ((item[0] != [] && item[0][0] == '-') || IsAssignment(item[0]))
  }

  function Flat(items: seq<seq<string>>): seq<string> {
    if items == [] then [] else items[0] + Flat(items[1..])
  }

  predicate NoEnvItem(rest: seq<string>) {
    rest != [] ==> !(rest[0] != [] && rest[0][0] == '-') && !IsAssignment(rest[0])
  }

  lemma SkipEnvCons(word: string, words: seq<string>)
    ensures SkipEnv([word] + words, 0)
            == if !((word != [] && word[0] == '-') || IsAssignment(word)) then 0
               else if word !in {"-u", "--unset"} then 1 + SkipEnv(words, 0)
               else if words == [] then 1
               else 2 + SkipEnv(words[1..], 0)
  {
    hide IsAssignment;
    SkipEnvShift(word, words, 0);
    if words != [] {
      SkipEnvShift(words[0], words[1..], 0);
      assert [words[0]] + words[1..] == words;
      SkipEnvShift(word, words, 1);
    }
  }

  lemma {:induction false} EnvItemsAreSkipped(items: seq<seq<string>>, rest: seq<string>)
    requires (forall i :: 0 <= i < |items| ==> EnvItem(items[i])) && NoEnvItem(rest)
    ensures SkipEnv(Flat(items) + rest, 0) == |Flat(items)|
  {
    hide IsAssignment, SkipEnv;
    if items == [] {
      assert Flat(items) + rest == rest;
      if rest == [] {
        NothingSkipped();
      } else {
        SkipEnvCons(rest[0], rest[1..]);
        assert [rest[0]] + rest[1..] == rest;
      }
    } else {
      var item, tail := items[0], Flat(items[1..]) + rest;
      EnvItemsAreSkipped(items[1..], rest);
      assert EnvItem(item);
      if |item| == 2 {
        assert Flat(items) + rest == [item[0]] + ([item[1]] + tail);
        assert ([item[1]] + tail)[1..] == tail;
        UnsetIsOption(item[0]);
        SkipEnvCons(item[0], [item[1]] + tail);
      } else {
        assert Flat(items) + rest == [item[0]] + tail;
        SkipEnvCons(item[0], tail);
      }
    }
  }

  lemma NothingSkipped()
    ensures SkipEnv([], 0) == 0
  {
  }

  lemma UnsetIsOption(word: string)
    ensures word in {"-u", "--unset"} ==> word != [] && word[0] == '-'
  {
  }

  /** `env`, any options and assignments, and a command: the command is what runs. */
  lemma EnvRunsTheRest(word: string, items: seq<seq<string>>, rest: seq<string>, depth: nat, split: Splitter)
    requires depth <= MAX_DEPTH && Basename(word) == "env" && !IsAssignment(word)
    requires (forall i :: 0 <= i < |items| ==> EnvItem(items[i])) && NoEnvItem(rest)
    ensures AppendSegment([word] + (Flat(items) + rest), depth, split) == AppendSegment(rest, depth, split)
  {
    hide AppendSegment, SkipEnv, IsAssignment, Basename;
    EnvItemsAreSkipped(items, rest);
    EnvIsTransparent(word, Flat(items) + rest, depth, split);
    assert (Flat(items) + rest)[|Flat(items)|..] == rest;
  }

  /** What stands in front of the first white space. */
  function FirstWord(s: string): string {
    if s == [] || IsSpace(s[0]) then [] else [s[0]] + FirstWord(s[1..])
  }

  lemma {:induction false} KeywordIsFirstWord(s: string, keyword: string)
    requires forall i :: 0 <= i < |keyword| ==> !IsSpace(keyword[i])
    ensures KeywordRest(s, keyword).Some? <==> FirstWord(s) == keyword
  {
    hide IsSpace;
    if keyword != [] && s != [] {
      KeywordIsFirstWord(s[1..], keyword[1..]);
      assert keyword == [keyword[0]] + keyword[1..] && s == [s[0]] + s[1..];
      assert keyword <= s <==> keyword[0] == s[0] && keyword[1..] <= s[1..];
    }
  }

  /** The first word of a body says what it is: something that makes it no simple list,
      a loop header, a loop end, or a command. */
  lemma KindIsFirstWord(body: string)
    ensures var word := FirstWord(body);
            && (KindOf(body).Compound? <==> word in {"if", "while", "until", "case", "select", "function"})
            && (KindOf(body).Header? <==> word == "for")
            && (KindOf(body).Footer? <==> word == "done")
            && (KindOf(body).Empty? <==> body == [])
  {
    hide KeywordRest, FirstWord;
    NoSpaces();
    forall keyword | keyword in {"if", "while", "until", "case", "select", "function", "for", "done"}
      ensures KeywordRest(body, keyword).Some? <==> FirstWord(body) == keyword
    {
      KeywordIsFirstWord(body, keyword);
    }
    assert |COMPOUND_BODY| == 6;
    assert Opens(body, COMPOUND_BODY) <==>
             || KeywordRest(body, COMPOUND_BODY[0]).Some? || KeywordRest(body, COMPOUND_BODY[1]).Some?
             || KeywordRest(body, COMPOUND_BODY[2]).Some? || KeywordRest(body, COMPOUND_BODY[3]).Some?
             || KeywordRest(body, COMPOUND_BODY[4]).Some? || KeywordRest(body, COMPOUND_BODY[5]).Some?;
    EmptyHasNoWord();
  }

  lemma EmptyHasNoWord()
    ensures FirstWord([]) == []
  {
  }

  lemma NoSpaces()
    ensures forall keyword :: keyword in {"if", "while", "until", "case", "select", "function", "for", "done"} ==>
              keyword != [] && forall i :: 0 <= i < |keyword| ==> !IsSpace(keyword[i])
  {
  }

  /** A segment is white space, an optional `do`, more white space, its body, and white
      space; the body has none at either end. */
  lemma PartMeans(segment: string) returns (x: string, w: string, y: string)
    ensures AllSpace(x) && AllSpace(w) && AllSpace(y)
    ensures var part := PartOf(segment);
            && segment == x + (if part.opensBody then "do" else []) + w + part.body + y
            && (part.opensBody ==> w != [] || part.body == [])
            && (!part.opensBody ==> w == [] && FirstWord(part.body) != "do")
            && (part.body != [] ==> !IsSpace(part.body[0]) && !IsSpace(part.body[|part.body| - 1]))
  {
    hide IsSpace, Trim, TrimStart, KeywordRest;
    var trimmed := Trim(segment);
    TrimIsInside(segment);
    y := TrimEndParts(segment);
    x := TrimStartParts(TrimEnd(segment));
    assert segment == x + trimmed + y;
    EndsAreNoSpace(segment);
    assert !IsSpace('d') && !IsSpace('o') by { LettersAreNoSpace(); }
    KeywordIsFirstWord(trimmed, "do");
    var rest := KeywordRest(trimmed, "do");
    w := [];
    if rest.Some? {
      w := SpaceAfter(trimmed);
    }
  }

  /** White space, or nothing at all, follows a leading `do`. */
  lemma SpaceAfter(trimmed: string) returns (w: string)
    requires KeywordRest(trimmed, "do").Some?
    ensures var rest := KeywordRest(trimmed, "do").value;
            && trimmed == "do" + w + TrimStart(rest) && AllSpace(w)
            && (w != [] || TrimStart(rest) == [])
            && (TrimStart(rest) != [] ==> !IsSpace(TrimStart(rest)[0]))
            && (TrimStart(rest) != [] ==> TrimStart(rest)[|TrimStart(rest)| - 1] == trimmed[|trimmed| - 1])
  {
    hide IsSpace;
    var rest := KeywordRest(trimmed, "do").value;
    w := TrimStartParts(rest);
    assert trimmed == "do" + rest;
    StartIsNoSpace(rest);
    if w == [] {
      assert rest == TrimStart(rest);
    }
  }

  lemma TrimIsInside(segment: string)
    ensures Trim(segment) == TrimStart(TrimEnd(segment))
  {
  }

  lemma LettersAreNoSpace()
    ensures !IsSpace('d') && !IsSpace('o')
  {
  }

  lemma {:induction false} StartIsNoSpace(s: string)
    ensures TrimStart(s) != [] ==> !IsSpace(TrimStart(s)[0])
  {
    if s != [] && IsSpace(s[0]) {
      StartIsNoSpace(s[1..]);
    }
  }

  lemma EndsAreNoSpace(s: string)
    ensures Trim(s) != [] ==> !IsSpace(Trim(s)[0]) && !IsSpace(Trim(s)[|Trim(s)| - 1])
  {
    StartIsNoSpace(TrimEnd(s));
    LastIsNoSpace(s);
    var x := TrimStartParts(TrimEnd(s));
    assert TrimEnd(s) == x + Trim(s);
  }

  // ----- what a command runs -----

  /** A program that is started, with its words, and the depth it is started at. */
  datatype Launch = Launch(argv: seq<string>, depth: nat)

  /** How far a command could be read: to its end, to something that makes it no simple
      list, or to an error. */
  datatype End = Complete | Declined | Broken(error: Error)

  /** The programs a command starts itself, in order, and how the reading ended. */
  datatype Reading = Reading(launches: seq<Launch>, end: End)

  predicate Fit(launches: seq<Launch>, depth: nat) {
    forall i :: 0 <= i < |launches| ==> launches[i].argv != [] && depth <= launches[i].depth <= MAX_DEPTH
  }

  function Before(launches: seq<Launch>, r: Reading): Reading {
    r.(launches := launches + r.launches)
  }

  /** The program that a segment starts: its first word that is no assignment in front,
      no wrapper and no keyword. */
  function LaunchIn(words: seq<string>, depth: nat): (launches: seq<Launch>)
    requires depth <= MAX_DEPTH
    ensures Fit(launches, depth)
  {
    var i := FindExecutable(words, SkipAssignments(words, 0));
    if i == |words| then [] else [Launch(words[i..], depth)]
  }

  /** The program that a simple command starts. The `command` builtin starts what
      follows its options, one level deeper, or only asks about it. */
  function StartedBy(words: seq<string>, depth: nat): (r: Reading)
    requires depth <= MAX_DEPTH
    ensures Fit(r.launches, depth)
    decreases |words|
  {
    if words == [] then Reading([], Complete)
    else if words[0] == "command" then
      match ReadOptions(words, Options(1, false, false))
      case None => Reading([], Broken(ParseFailed))
      case Some(o) =>
        if o.query then Reading([], Complete)
        else if o.defaultPath then Reading([], Broken(ParseFailed))
        else if o.cursor == |words| then Reading([], Complete)
        else if depth == MAX_DEPTH then Reading([], Broken(ParseFailed))
        else StartedBy(words[o.cursor..], depth + 1)
    else if '/' in words[0] && Basename(words[0]) !in {"env", "exec", "nohup", "setsid", "time"}
    then Reading([Launch(words, depth)], Complete)
    else Reading(LaunchIn(words, depth), Complete)
  }

  /** What the body of a segment starts by itself. */
  function BodyStarts(body: string, depth: nat, split: Splitter): (r: Reading)
    requires depth <= MAX_DEPTH
    ensures Fit(r.launches, depth)
  {
    match KindOf(body)
    case Compound => Reading([], Declined)
    case Header =>
      Reading([], if split(body).Some? && GoodHeader(split(body).value) then Complete else Broken(ParseFailed))
    case Footer =>
      HeaderOrFooter(body);
      Reading([], if Trim(KeywordRest(body, "done").value) == [] then Complete else Broken(ParseFailed))
    case Command => if split(body).Some? then StartedBy(split(body).value, depth) else Reading([], Broken(ParseFailed))
    case Empty => Reading([], Complete)
  }

  function PushKind(loops: G.Loops, kind: Kind): (bool, G.Loops) {
    match kind
    case Header => G.Push(loops, G.For)
    case Footer => G.Push(loops, G.Done)
    case _ => (true, loops)
  }

  /** The segments of a list, as long as the loop stack accepts their words. */
  function ReadSegments(segments: seq<string>, loops: G.Loops, depth: nat, split: Splitter): (r: Reading)
    requires depth <= MAX_DEPTH
    ensures Fit(r.launches, depth)
    decreases |segments|
  {
    if segments == [] then Reading([], if loops == [] then Complete else Broken(ParseFailed))
    else
      var part := PartOf(segments[0]);
      var inside := if part.opensBody then G.Push(loops, G.Do) else (!G.Awaiting(loops), loops);
      if !inside.0 then Reading([], Broken(ParseFailed))
      else
        var own := BodyStarts(part.body, depth, split);
        if !own.end.Complete? then own
        else
          var next := PushKind(inside.1, KindOf(part.body));
          if !next.0 then Reading(own.launches, Broken(ParseFailed))
          else Before(own.launches, ReadSegments(segments[1..], next.1, depth, split))
  }

  function ReadList(command: string, depth: nat, split: Splitter): (r: Reading)
    requires depth <= MAX_DEPTH
    ensures Fit(r.launches, depth)
  {
    match Seg.Outcomes(command, true)
    case ParseFailed => Reading([], Broken(ParseFailed))
    case ParseLimit => Reading([], Broken(ParseLimit))
    case NotLiteral => Reading([], Declined)
    case Segments(segments) =>
      if AnyCompound(segments) then Reading([], Declined) else ReadSegments(segments, [], depth, split)
  }

  function ReadLiterals(segments: seq<string>, depth: nat, split: Splitter): (r: Reading)
    requires depth <= MAX_DEPTH
    ensures Fit(r.launches, depth) && !r.end.Declined?
  {
    if segments == [] then Reading([], Complete)
    else if split(segments[0]).None? then Reading([], Broken(ParseFailed))
    else Before(LaunchIn(split(segments[0]).value, depth), ReadLiterals(segments[1..], depth, split))
  }

  function ReadGroups(groups: seq<seq<string>>, depth: nat): (launches: seq<Launch>)
    requires depth <= MAX_DEPTH
    ensures Fit(launches, depth)
  {
    if groups == [] then [] else LaunchIn(groups[0], depth) + ReadGroups(groups[1..], depth)
  }

  /** What is no simple list: its literal segments, or the words between operators. */
  function ReadPlainly(command: string, depth: nat, split: Splitter): (r: Reading)
    requires depth <= MAX_DEPTH
    ensures Fit(r.launches, depth) && !r.end.Declined?
  {
    match Seg.Outcomes(command, false)
    case ParseFailed => Reading([], Broken(ParseFailed))
    case ParseLimit => Reading([], Broken(ParseLimit))
    case Segments(segments) => ReadLiterals(segments, depth, split)
    case NotLiteral =>
      if split(command).None? then Reading([], Broken(ParseFailed))
      else Reading(ReadGroups(Groups(split(command).value), depth), Complete)
  }

  function Deepest(launches: seq<Launch>): nat {
    if launches == [] then 0 else G.Max(Left(launches[0].depth), Deepest(launches[1..]))
  }

  lemma {:induction false} DeepestBound(launches: seq<Launch>, depth: nat)
    requires Fit(launches, depth)
    ensures Deepest(launches) <= Left(depth)
  {
    if launches != [] {
      DeepestBound(launches[1..], depth);
    }
  }

  type Ran = Result<seq<string>, Error>

  /** Every program that runs when this one is started: itself and, when it is a shell
      that is given a script, what the script runs, one level deeper. */
  ghost function RunLaunch(l: Launch, split: Splitter): Ran
    requires l.argv != [] && l.depth <= MAX_DEPTH
    decreases Left(l.depth), 0
  {
    if IsShell(l.argv[0]) && exists script :: GivesScript(l.argv, script) then
      var script :| GivesScript(l.argv, script);
      match RunCommand(script, l.depth + 1, split)
      case Err(e) => Err(e)
      case Ok(names) => Ok([l.argv[0]] + names)
    else Ok([l.argv[0]])
  }

  ghost function RunLaunches(launches: seq<Launch>, split: Splitter): Ran
    requires Fit(launches, 0)
    decreases Deepest(launches), 1, |launches|
  {
    if launches == [] then Ok([])
    else InOrder(RunLaunch(launches[0], split), RunLaunches(launches[1..], split))
  }

  function InOrder(a: Ran, b: Ran): Ran {
    match a
    case Err(e) => Err(e)
    case Ok(names) => (match b case Err(e) => Err(e) case Ok(more) => Ok(names + more))
  }

  /** Every program that runs when a command is given to a shell, in order, or the first
      error. */
  ghost function RunCommand(command: string, depth: nat, split: Splitter): Ran
    decreases Left(depth), 2
  {
    if depth > MAX_DEPTH then Err(ParseLimit)
    else
      var list := ReadList(command, depth, split);
      DeepestBound(list.launches, depth);
      match RunLaunches(list.launches, split)
      case Err(e) => Err(e)
      case Ok(names) =>
        match list.end
        case Complete => Ok(names)
        case Broken(e) => Err(e)
        case Declined =>
          var plain := ReadPlainly(command, depth, split);
          DeepestBound(plain.launches, depth);
          match RunLaunches(plain.launches, split)
          case Err(e) => Err(e)
          case Ok(others) => if plain.end.Broken? then Err(plain.end.error) else Ok(others)
  }

  // ----- what is collected is what runs -----

  function Answer(r: Ran): Collected {
    match r
    case Ok(names) => Found(names)
    case Err(e) => Fails(e)
  }

  ghost function Answered(r: Reading, split: Splitter): Collected
    requires Fit(r.launches, 0)
  {
    match RunLaunches(r.launches, split)
    case Err(e) => Fails(e)
    case Ok(names) =>
      match r.end
      case Complete => Found(names)
      case Declined => NotSimple
      case Broken(e) => Fails(e)
  }

  lemma OneLaunch(l: Launch, split: Splitter)
    requires l.argv != [] && l.depth <= MAX_DEPTH
    ensures RunLaunches([l], split) == RunLaunch(l, split)
  {
    hide RunLaunch;
    assert [l][1..] == [] && RunLaunches([l][1..], split) == Ok([]);
    var r := RunLaunch(l, split);
    assert r.Ok? ==> r.value + [] == r.value;
  }

  lemma {:induction false} RunConcat(a: seq<Launch>, b: seq<Launch>, split: Splitter)
    requires Fit(a, 0) && Fit(b, 0)
    ensures Fit(a + b, 0) && RunLaunches(a + b, split) == InOrder(RunLaunches(a, split), RunLaunches(b, split))
  {
    hide RunLaunch;
    if a == [] {
      assert a + b == b;
      var r := RunLaunches(b, split);
      assert r.Ok? ==> [] + r.value == r.value;
    } else {
      assert (a + b)[1..] == a[1..] + b;
      RunConcat(a[1..], b, split);
      var x, y, z := RunLaunch(a[0], split), RunLaunches(a[1..], split), RunLaunches(b, split);
      assert x.Ok? && y.Ok? && z.Ok? ==> x.value + (y.value + z.value) == (x.value + y.value) + z.value;
    }
  }

  lemma BeforeAnswered(own: Reading, rest: Reading, split: Splitter)
    requires Fit(own.launches, 0) && Fit(rest.launches, 0) && own.end.Complete?
    ensures Fit(Before(own.launches, rest).launches, 0)
    ensures Answered(Before(own.launches, rest), split) == Both(Answered(own, split), Answered(rest, split))
  {
    hide RunLaunches;
    RunConcat(own.launches, rest.launches, split);
  }

  lemma {:induction false} ScriptRuns(words: seq<string>, depth: nat, split: Splitter)
    requires words != [] && depth <= MAX_DEPTH
    ensures Both(Found([words[0]]), Script(words, depth, split)) == Answer(RunLaunch(Launch(words, depth), split))
    decreases Left(depth), 0
  {
    hide Executables, RunCommand, IsShell, ScriptArgument, GivesScript;
    forall script ensures ScriptArgument(words) == Some(script) <==> GivesScript(words, script) {
      ScriptArgumentMeans(words, script);
    }
    if ScriptArgument(words).Some? {
      var script := ScriptArgument(words).value;
      assert GivesScript(words, script);
      ExecutablesRun(script, depth + 1, split);
    }
    assert [words[0]] + [] == [words[0]];
  }

  lemma {:induction false} SegmentRuns(words: seq<string>, depth: nat, split: Splitter)
    requires depth <= MAX_DEPTH
    ensures AppendSegment(words, depth, split) == Answer(RunLaunches(LaunchIn(words, depth), split))
    decreases Left(depth), 1
  {
    hide Script, RunLaunch, FindExecutable, SkipAssignments;
    var i := FindExecutable(words, SkipAssignments(words, 0));
    if i < |words| {
      ScriptRuns(words[i..], depth, split);
      OneLaunch(Launch(words[i..], depth), split);
    }
  }

  lemma {:induction false} SimpleRuns(words: seq<string>, depth: nat, split: Splitter)
    requires depth <= MAX_DEPTH
    ensures AppendSimple(words, depth, split) == Answered(StartedBy(words, depth), split)
    decreases Left(depth), 2, |words|
  {
    hide Script, AppendSegment, ReadOptions, Basename, RunLaunch, LaunchIn;
    if words != [] {
      if words[0] == "command" {
        var o := ReadOptions(words, Options(1, false, false));
        if o.Some? && o.value.cursor < |words| && depth < MAX_DEPTH {
          SimpleRuns(words[o.value.cursor..], depth + 1, split);
        }
      } else {
        ScriptRuns(words, depth, split);
        OneLaunch(Launch(words, depth), split);
        SegmentRuns(words, depth, split);
      }
    }
  }

  lemma OwnRuns(segment: string, depth: nat, split: Splitter)
    requires depth <= MAX_DEPTH
    ensures Own(segment, depth, split) == Answered(BodyStarts(PartOf(segment).body, depth, split), split)
    decreases Left(depth), 3
  {
    hide AppendSimple, KindOf, PartOf, StartedBy, RunLaunch, Trim, KeywordRest, GoodHeader;
    var body := PartOf(segment).body;
    if split(body).Some? {
      SimpleRuns(split(body).value, depth, split);
    }
  }

  lemma BodyCompletes(body: string, depth: nat, split: Splitter)
    requires depth <= MAX_DEPTH && !BodyStarts(body, depth, split).end.Complete?
    ensures KindOf(body).Command? || BodyStarts(body, depth, split).launches == []
  {
    hide KindOf, StartedBy, KeywordRest;
  }

  lemma {:induction false} LoopsRun(segments: seq<string>, loops: G.Loops, depth: nat, split: Splitter)
    requires depth <= MAX_DEPTH
    ensures RunLoops(segments, loops, depth, split) == Answered(ReadSegments(segments, loops, depth, split), split)
    decreases Left(depth), 4, |segments|
  {
    hide Own, KindOf, PartOf, BodyStarts, RunLaunch, RunLaunches;
    NothingRuns(split);
    if segments != [] {
      var part := PartOf(segments[0]);
      var own := BodyStarts(part.body, depth, split);
      OwnRuns(segments[0], depth, split);
      OwnNamesOf(segments[0], depth, split);
      if part.opensBody == G.Awaiting(loops) {
        var inside := if part.opensBody then G.Pop(loops) + [false] else loops;
        if own.end.Complete? {
          var next := match KindOf(part.body)
                      case Header => inside + [true]
                      case Footer => if inside == [] then [] else G.Pop(inside)
                      case _ => inside;
          LoopsRun(segments[1..], next, depth, split);
          BeforeAnswered(own, ReadSegments(segments[1..], next, depth, split), split);
        }
      }
    }
  }

  lemma NothingRuns(split: Splitter)
    ensures RunLaunches([], split) == Ok([])
  {
  }

  /** Headers and footers start nothing. */
  lemma OwnNamesOf(segment: string, depth: nat, split: Splitter)
    requires depth <= MAX_DEPTH
    ensures var body := PartOf(segment).body;
            KindOf(body).Header? || KindOf(body).Footer? ==> BodyStarts(body, depth, split).launches == []
  {
    hide KindOf, PartOf, StartedBy, Trim, KeywordRest, GoodHeader;
  }

  lemma {:induction false} LiteralsRun(segments: seq<string>, depth: nat, split: Splitter)
    requires depth <= MAX_DEPTH
    ensures AppendLiterals(segments, depth, split) == Answered(ReadLiterals(segments, depth, split), split)
    decreases Left(depth), 5, |segments|
  {
    hide AppendSegment, LaunchIn, RunLaunch, RunLaunches;
    NothingRuns(split);
    if segments != [] && split(segments[0]).Some? {
      var words := split(segments[0]).value;
      SegmentRuns(words, depth, split);
      LiteralsRun(segments[1..], depth, split);
      BeforeAnswered(Reading(LaunchIn(words, depth), Complete), ReadLiterals(segments[1..], depth, split), split);
    }
  }

  lemma {:induction false} GroupsRun(groups: seq<seq<string>>, depth: nat, split: Splitter)
    requires depth <= MAX_DEPTH
    ensures AppendAll(groups, depth, split) == Answer(RunLaunches(ReadGroups(groups, depth), split))
    decreases Left(depth), 5, |groups|
  {
    hide AppendSegment, LaunchIn, RunLaunch, RunLaunches;
    NothingRuns(split);
    if groups != [] {
      SegmentRuns(groups[0], depth, split);
      GroupsRun(groups[1..], depth, split);
      RunConcat(LaunchIn(groups[0], depth), ReadGroups(groups[1..], depth), split);
    }
  }

  /** What is collected for a command is what it runs: the program of every segment, in
      order, each shell followed by what its script runs one level deeper, or the first
      error. */
  lemma {:induction false} ExecutablesRun(command: string, depth: nat, split: Splitter)
    ensures Executables(command, depth, split) == Answer(RunCommand(command, depth, split))
    decreases Left(depth), 6
  {
    hide RunLoops, AppendAll, AppendLiterals, Seg.Outcomes, AnyCompound, Groups, ReadSegments, ReadLiterals, ReadGroups,
         RunLaunch, RunLaunches;
    NothingRuns(split);
    if depth <= MAX_DEPTH {
      match Seg.Outcomes(command, true) {
        case Segments(segments) => LoopsRun(segments, [], depth, split);
        case _ =>
      }
      match Seg.Outcomes(command, false) {
        case Segments(segments) => LiteralsRun(segments, depth, split);
        case _ =>
      }
      if split(command).Some? {
        GroupsRun(Groups(split(command).value), depth, split);
      }
    }
  }
}
