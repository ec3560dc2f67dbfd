/** The frozen patch applier: every hunk must match exactly one place of the whole
    text, the places are sorted, and must not overlap. */
module PatchLegacy {
  import opened Wrappers
  import opened PatchText
  import PatchUpdate

  datatype Failure = PatchFailed | ContextNotFound | ContextAmbiguous | HunksOverlap

  // ----- one hunk -----

  predicate Parses(raw: seq<string>) {
    forall i :: 0 <= i < |raw| ==>
      raw[i] == PatchUpdate.END_OF_FILE || raw[i] == [] || raw[i][0] in {' ', '-', '+'}
  }

  method ParseHunk(raw: seq<string>) returns (parsed: Option<(seq<string>, seq<string>)>)
    ensures parsed == if Parses(raw) then Some((PatchUpdate.Side(raw, '-'), PatchUpdate.Side(raw, '+'))) else None
  {
    var before, after := [], [];
    for i := 0 to |raw|
      invariant Parses(raw[..i])
      invariant before == PatchUpdate.Side(raw[..i], '-') && after == PatchUpdate.Side(raw[..i], '+')
    {
      var line := raw[i];
      assert raw[..i + 1][..i] == raw[..i] && raw[..i + 1][i] == line;
      if line == PatchUpdate.END_OF_FILE {
        continue;
      }
      if line == [] {
        before, after := before + [[]], after + [[]];
        continue;
      }
      match line[0] {
        case ' ' => before, after := before + [line[1..]], after + [line[1..]];
        case '-' => before := before + [line[1..]];
        case '+' => after := after + [line[1..]];
        case _ => return None;
      }
    }
    assert raw[..|raw|] == raw;
    return Some((before, after));
  }

  function FindAll(lines: seq<string>, needle: seq<string>, i: nat): seq<nat>
    decreases |lines| - i
  {
    if i + |needle| > |lines| || i == |lines| then []
    else if lines[i..i + |needle|] == needle then [i] + FindAll(lines, needle, i + 1)
    else FindAll(lines, needle, i + 1)
  }

  predicate OccursAt(lines: seq<string>, needle: seq<string>, i: nat) {
    i + |needle| <= |lines| && lines[i..i + |needle|] == needle
  }

  predicate Increasing(s: seq<nat>) {
    forall k, l :: 0 <= k < l < |s| ==> s[k] < s[l]
  }

  lemma {:induction false} FindAllIsAll(lines: seq<string>, needle: seq<string>, i: nat)
    requires needle != []
    ensures forall p: nat :: p in FindAll(lines, needle, i) <==> i <= p && OccursAt(lines, needle, p)
    ensures Increasing(FindAll(lines, needle, i))
    decreases |lines| - i
  {
    if i + |needle| <= |lines| {
      FindAllIsAll(lines, needle, i + 1);
      var rest := FindAll(lines, needle, i + 1);
      forall k | 0 <= k < |rest| ensures i + 1 <= rest[k] {
        assert rest[k] in rest;
      }
      forall p: nat | i <= p && OccursAt(lines, needle, p) ensures p in FindAll(lines, needle, i) {
        assert p == i || i + 1 <= p;
      }
      assert Increasing([i] + rest);
    }
  }

  /** The one edit a parsed hunk asks for. */
  function EditOf(lines: seq<string>, raw: seq<string>): (r: Result<Edit, Failure>)
    ensures r.Ok? ==> r.value.start <= r.value.end <= |lines|
  {
    var before, after := PatchUpdate.Side(raw, '-'), PatchUpdate.Side(raw, '+');
    if before == [] then Ok(Edit(0, 0, after))
    else
      var found := FindAll(lines, before, 0);
      if found == [] then Err(ContextNotFound)
      else if |found| > 1 then Err(ContextAmbiguous)
      else
        FindAllIsAll(lines, before, 0);
        assert found[0] in found;
        Ok(Edit(found[0], found[0] + |before|, after))
  }

  // ----- the order of replacements -----

  predicate StringLeq(a: string, b: string) {
    a == [] || (b != [] && (a[0] < b[0] || (a[0] == b[0] && StringLeq(a[1..], b[1..]))))
  }

  predicate LinesLeq(a: seq<string>, b: seq<string>) {
    a == [] || (b != [] && (if a[0] == b[0] then LinesLeq(a[1..], b[1..]) else StringLeq(a[0], b[0])))
  }

  predicate EditLeq(a: Edit, b: Edit) {
    a.start < b.start ||
    (a.start == b.start && (a.end < b.end || (a.end == b.end && LinesLeq(a.after, b.after))))
  }

  lemma {:induction false} StringOrder(a: string, b: string, c: string)
    ensures StringLeq(a, b) || StringLeq(b, a)
    ensures StringLeq(a, b) && StringLeq(b, a) ==> a == b
    ensures StringLeq(a, b) && StringLeq(b, c) ==> StringLeq(a, c)
  {
    if a != [] && b != [] {
      if c != [] {
        StringOrder(a[1..], b[1..], c[1..]);
      } else {
        StringOrder(a[1..], b[1..], c);
      }
      assert a == [a[0]] + a[1..] && b == [b[0]] + b[1..];
    }
  }

  lemma {:induction false} LinesOrder(a: seq<string>, b: seq<string>, c: seq<string>)
    ensures LinesLeq(a, b) || LinesLeq(b, a)
    ensures LinesLeq(a, b) && LinesLeq(b, a) ==> a == b
    ensures LinesLeq(a, b) && LinesLeq(b, c) ==> LinesLeq(a, c)
  {
    if a != [] && b != [] {
      assert a == [a[0]] + a[1..] && b == [b[0]] + b[1..];
      if c != [] {
        LinesOrder(a[1..], b[1..], c[1..]);
        StringOrder(a[0], b[0], c[0]);
        StringOrder(b[0], c[0], a[0]);
      } else {
        LinesOrder(a[1..], b[1..], c);
        StringOrder(a[0], b[0], []);
      }
    }
  }

  lemma EditOrder(a: Edit, b: Edit, c: Edit)
    ensures EditLeq(a, b) || EditLeq(b, a)
    ensures EditLeq(a, b) && EditLeq(b, a) ==> a == b
    ensures EditLeq(a, b) && EditLeq(b, c) ==> EditLeq(a, c)
  {
    LinesOrder(a.after, b.after, c.after);
  }

  predicate Sorted(edits: seq<Edit>) {
    forall i, j :: 0 <= i < j < |edits| ==> EditLeq(edits[i], edits[j])
  }

  function Insert(e: Edit, edits: seq<Edit>): seq<Edit> {
    if edits == [] || EditLeq(e, edits[0]) then [e] + edits else [edits[0]] + Insert(e, edits[1..])
  }

  function Sort(edits: seq<Edit>): seq<Edit> {
    if edits == [] then [] else Insert(edits[0], Sort(edits[1..]))
  }

  lemma {:induction false} InsertSorts(e: Edit, edits: seq<Edit>)
    requires Sorted(edits)
    ensures Sorted(Insert(e, edits)) && multiset(Insert(e, edits)) == multiset(edits) + multiset{e}
  {
    hide EditLeq;
    if edits == [] || EditLeq(e, edits[0]) {
      forall i | 0 <= i < |edits| ensures EditLeq(e, edits[i]) {
        EditOrder(e, edits[0], edits[i]);
      }
    } else {
      var rest := Insert(e, edits[1..]);
      InsertSorts(e, edits[1..]);
      assert edits == [edits[0]] + edits[1..];
      EditOrder(e, edits[0], e);
      forall i | 0 <= i < |rest| ensures EditLeq(edits[0], rest[i]) {
        assert rest[i] in multiset(rest);
        assert rest[i] == e || rest[i] in edits[1..];
      }
    }
  }

  lemma {:induction false} SortSorts(edits: seq<Edit>)
    ensures Sorted(Sort(edits)) && multiset(Sort(edits)) == multiset(edits)
  {
    if edits != [] {
      SortSorts(edits[1..]);
      InsertSorts(edits[0], Sort(edits[1..]));
      assert edits == [edits[0]] + edits[1..];
    }
  }

  lemma SortedHeads(a: seq<Edit>, b: seq<Edit>)
    requires Sorted(a) && Sorted(b) && multiset(a) == multiset(b) && a != [] && b != []
    ensures a[0] == b[0]
  {
    hide EditLeq;
    assert a[0] in multiset(a) && b[0] in multiset(b);
    var i :| 0 <= i < |b| && b[i] == a[0];
    var k :| 0 <= k < |a| && a[k] == b[0];
    EditOrder(a[0], b[0], a[0]);
  }

  lemma {:induction false} SortedIsUnique(a: seq<Edit>, b: seq<Edit>)
    requires Sorted(a) && Sorted(b) && multiset(a) == multiset(b)
    ensures a == b
  {
    hide EditLeq;
    assert |a| == |multiset(a)| == |multiset(b)| == |b|;
    if a != [] {
      SortedHeads(a, b);
      WithoutEqual(a, b, 0, 0);
      assert Without(a, 0) == a[1..] && Without(b, 0) == b[1..];
      SortedIsUnique(a[1..], b[1..]);
    }
  }

  function Without<T>(s: seq<T>, k: nat): (r: seq<T>)
    requires k < |s|
    ensures |r| == |s| - 1
  {
    s[..k] + s[k + 1..]
  }

  lemma WithoutMultiset<T>(s: seq<T>, k: nat)
    requires k < |s|
    ensures multiset(s) == multiset(Without(s, k)) + multiset{s[k]}
  {
    assert s == s[..k] + [s[k]] + s[k + 1..];
  }

  lemma WithoutEqual<T>(a: seq<T>, b: seq<T>, n: nat, k: nat)
    requires n < |a| && k < |b| && a[n] == b[k]
    ensures multiset(a) == multiset(b) <==> multiset(Without(a, n)) == multiset(Without(b, k))
  {
    WithoutMultiset(a, n);
    WithoutMultiset(b, k);
    assert multiset(Without(a, n)) == multiset(a) - multiset{a[n]};
    assert multiset(Without(b, k)) == multiset(b) - multiset{b[k]};
  }

  predicate AdjacentDisjoint(edits: seq<Edit>) {
    forall i :: 0 <= i < |edits| - 1 ==> edits[i].end <= edits[i + 1].start
  }

  /** Looking only at neighbours is enough: no two ranges overlap. */
  lemma {:induction false} NeighboursSuffice(edits: seq<Edit>, i: nat, j: nat)
    requires AdjacentDisjoint(edits) && forall k :: 0 <= k < |edits| ==> edits[k].start <= edits[k].end
    requires i < j < |edits|
    ensures edits[i].end <= edits[j].start
    decreases j - i
  {
    if i + 1 < j {
      NeighboursSuffice(edits, i, j - 1);
    }
  }

  lemma {:induction false} AdjacentIsOrdered(edits: seq<Edit>, upto: nat)
    requires AdjacentDisjoint(edits) && forall k :: 0 <= k < |edits| ==> edits[k].start <= edits[k].end <= upto
    ensures Ordered(edits, upto)
  {
    if edits != [] {
      var front := edits[..|edits| - 1];
      forall k | 0 <= k < |front| ensures front[k].end <= edits[|edits| - 1].start {
        NeighboursSuffice(edits, k, |edits| - 1);
      }
      AdjacentIsOrdered(front, edits[|edits| - 1].start);
    }
  }

  // ----- the applier -----

  predicate AllParse(hunks: seq<seq<string>>) {
    forall i :: 0 <= i < |hunks| ==> Parses(hunks[i])
  }

  /** The edits of the first `k` hunks, or the first failure among them. */
  function EditsTo(lines: seq<string>, hunks: seq<seq<string>>, k: nat): (r: Result<seq<Edit>, Failure>)
    requires k <= |hunks|
    ensures r.Ok? ==> |r.value| == k && forall i :: 0 <= i < k ==> Ok(r.value[i]) == EditOf(lines, hunks[i])
  {
    if k == 0 then Ok([])
    else
      match EditsTo(lines, hunks, k - 1)
      case Err(e) => Err(e)
      case Ok(edits) =>
        match EditOf(lines, hunks[k - 1])
        case Err(e) => Err(e)
        case Ok(edit) => Ok(edits + [edit])
  }

  lemma {:induction false} FailureSticks(lines: seq<string>, hunks: seq<seq<string>>, k: nat, n: nat)
    requires k <= n <= |hunks| && EditsTo(lines, hunks, k).Err?
    ensures EditsTo(lines, hunks, n) == EditsTo(lines, hunks, k)
    decreases n - k
  {
    if k < n {
      FailureSticks(lines, hunks, k + 1, n);
    }
  }

  function Assemble(content: string, updated: seq<string>): string {
    if HasCrlf(content) then WithCrlf(Join(updated)) else Join(updated)
  }

  lemma SortKeeps(edits: seq<Edit>)
    ensures forall k :: 0 <= k < |Sort(edits)| ==> Sort(edits)[k] in edits
  {
    hide Sort, Sorted;
    SortSorts(edits);
    forall k | 0 <= k < |Sort(edits)| ensures Sort(edits)[k] in edits {
      assert Sort(edits)[k] in multiset(Sort(edits));
    }
  }

  lemma SortedEditsOrdered(lines: seq<string>, hunks: seq<seq<string>>)
    requires EditsTo(lines, hunks, |hunks|).Ok?
    requires AdjacentDisjoint(Sort(EditsTo(lines, hunks, |hunks|).value))
    ensures Ordered(Sort(EditsTo(lines, hunks, |hunks|).value), |lines|)
  {
    hide EditOf, Sort, EditLeq, Sorted, Ordered, EditsTo, AdjacentDisjoint;
    var edits := EditsTo(lines, hunks, |hunks|).value;
    SortKeeps(edits);
    forall k | 0 <= k < |Sort(edits)| ensures Sort(edits)[k].start <= Sort(edits)[k].end <= |lines| {
      var i :| 0 <= i < |edits| && edits[i] == Sort(edits)[k];
      assert Ok(edits[i]) == EditOf(lines, hunks[i]);
    }
    AdjacentIsOrdered(Sort(edits), |lines|);
  }

  /** What the frozen applier answers. */
  function Legacy(content: string, hunks: seq<seq<string>>): Result<string, Failure> {
    if hunks == [] then Ok(content)
    else if !AllParse(hunks) then Err(PatchFailed)
    else
      var lines := Split(Normalize(content));
      match EditsTo(lines, hunks, |hunks|)
      case Err(e) => Err(e)
      case Ok(edits) =>
        if !AdjacentDisjoint(Sort(edits)) then Err(HunksOverlap)
        else
          SortedEditsOrdered(lines, hunks);
          Ok(Assemble(content, Written(lines, Sort(edits), |lines|)))
  }

  method CheckOverlap(edits: seq<Edit>) returns (disjoint: bool)
    ensures disjoint <==> AdjacentDisjoint(edits)
  {
    var i := 0;
    while i + 1 < |edits|
      invariant 0 <= i <= |edits|
      invariant forall k :: 0 <= k < i && k < |edits| - 1 ==> edits[k].end <= edits[k + 1].start
    {
      if edits[i].end > edits[i + 1].start {
        return false;
      }
      i := i + 1;
    }
    return true;
  }

  method ApplyUpdateHunks(content: string, hunks: seq<seq<string>>) returns (r: Result<string, Failure>)
    ensures r == Legacy(content, hunks)
  {
    hide EditOf, Join, WithCrlf, HasCrlf, Normalize, Split, Written, Sort;
    if hunks == [] {
      return Ok(content);
    }
    var lines := Split(Normalize(content));
    for i := 0 to |hunks|
      invariant forall k :: 0 <= k < i ==> Parses(hunks[k])
    {
      var parsed := ParseHunk(hunks[i]);
      if parsed.None? {
        return Err(PatchFailed);
      }
    }
    var replacements := [];
    for i := 0 to |hunks|
      invariant EditsTo(lines, hunks, i) == Ok(replacements)
    {
      var edit := EditOf(lines, hunks[i]);
      if edit.Err? {
        FailureSticks(lines, hunks, i + 1, |hunks|);
        return Err(edit.error);
      }
      replacements := replacements + [edit.value];
    }
    replacements := Sort(replacements);
    var disjoint := CheckOverlap(replacements);
    if !disjoint {
      return Err(HunksOverlap);
    }
    SortedEditsOrdered(lines, hunks);
    var updated := SpliceBack(lines, replacements);
    return Ok(Assemble(content, updated));
  }

  // ----- where hunks go -----

  predicate Occurs(lines: seq<string>, needle: seq<string>) {
    exists p: nat :: p <= |lines| && OccursAt(lines, needle, p)
  }

  predicate OccursTwice(lines: seq<string>, needle: seq<string>) {
    exists p: nat, q: nat :: p < q <= |lines| && OccursAt(lines, needle, p) && OccursAt(lines, needle, q)
  }

  /** The edit puts the hunk's new side in the one place where its old side is. A hunk
      without an old side goes in front of the first line. */
  predicate Locates(lines: seq<string>, raw: seq<string>, e: Edit) {
    var before, after := PatchUpdate.Side(raw, '-'), PatchUpdate.Side(raw, '+');
    && e.after == after
    && e.end == e.start + |before|
    && if before == [] then e.start == 0 else OccursAt(lines, before, e.start) && !OccursTwice(lines, before)
  }

  lemma FewFound(lines: seq<string>, needle: seq<string>)
    requires needle != []
    ensures FindAll(lines, needle, 0) == [] <==> !Occurs(lines, needle)
    ensures |FindAll(lines, needle, 0)| > 1 <==> OccursTwice(lines, needle)
    ensures forall p: nat :: FindAll(lines, needle, 0) == [p] <==> OccursAt(lines, needle, p) && !OccursTwice(lines, needle)
  {
    hide OccursAt;
    FindAllIsAll(lines, needle, 0);
    var found := FindAll(lines, needle, 0);
    forall p: nat | OccursAt(lines, needle, p) ensures p <= |lines| && p in found {
      OccursInside(lines, needle, p);
    }
    if found != [] {
      assert found[0] in found;
      if |found| > 1 {
        assert found[1] in found && found[0] < found[1];
      }
    }
    if p: nat, q: nat :| p < q <= |lines| && OccursAt(lines, needle, p) && OccursAt(lines, needle, q) {
      assert p in found && q in found;
    }
  }

  lemma OccursInside(lines: seq<string>, needle: seq<string>, p: nat)
    requires OccursAt(lines, needle, p)
    ensures p + |needle| <= |lines|
  {
  }

  /** The edit of a hunk, or which of the two failures it is. */
  lemma EditOfMeans(lines: seq<string>, raw: seq<string>)
    ensures forall e: Edit :: EditOf(lines, raw) == Ok(e) <==> Locates(lines, raw, e)
    ensures var before := PatchUpdate.Side(raw, '-');
            && (EditOf(lines, raw) == Err(ContextNotFound) <==> before != [] && !Occurs(lines, before))
            && (EditOf(lines, raw) == Err(ContextAmbiguous) <==> before != [] && OccursTwice(lines, before))
  {
    hide OccursAt, Occurs, OccursTwice;
    var before := PatchUpdate.Side(raw, '-');
    if before != [] {
      FewFound(lines, before);
      var found := FindAll(lines, before, 0);
      if |found| == 1 {
        assert found == [found[0]];
      }
      forall e: Edit ensures EditOf(lines, raw) == Ok(e) <==> Locates(lines, raw, e) {
        assert found == [e.start] <==> OccursAt(lines, before, e.start) && !OccursTwice(lines, before);
      }
    }
  }

  ghost predicate HasPlace(lines: seq<string>, raw: seq<string>) {
    exists e :: Locates(lines, raw, e)
  }

  /** Every hunk before `k` has its one place. */
  ghost predicate LocatedTo(lines: seq<string>, hunks: seq<seq<string>>, k: nat)
    requires k <= |hunks|
  {
    forall i :: 0 <= i < k ==> HasPlace(lines, hunks[i])
  }

  lemma PlacedMeans(lines: seq<string>, raw: seq<string>)
    ensures HasPlace(lines, raw) <==> EditOf(lines, raw).Ok?
    ensures EditOf(lines, raw).Ok? ==> Locates(lines, raw, EditOf(lines, raw).value)
    ensures EditOf(lines, raw).Err? ==> EditOf(lines, raw).error in {ContextNotFound, ContextAmbiguous}
  {
    hide Locates;
    EditOfMeans(lines, raw);
    OnlyTwoFailures(lines, raw);
    if e :| Locates(lines, raw, e) {
      assert EditOf(lines, raw) == Ok(e);
    }
    if EditOf(lines, raw).Ok? {
      assert EditOf(lines, raw) == Ok(EditOf(lines, raw).value);
    }
  }

  lemma {:induction false} EditsToMeans(lines: seq<string>, hunks: seq<seq<string>>, k: nat)
    requires k <= |hunks|
    ensures EditsTo(lines, hunks, k).Ok? ==> forall i :: 0 <= i < k ==> Locates(lines, hunks[i], EditsTo(lines, hunks, k).value[i])
    ensures EditsTo(lines, hunks, k).Err? <==> !LocatedTo(lines, hunks, k)
    ensures EditsTo(lines, hunks, k).Err? ==>
              exists i :: 0 <= i < k && LocatedTo(lines, hunks, i) && EditOf(lines, hunks[i]) == Err(EditsTo(lines, hunks, k).error)
  {
    hide EditOf, Locates, HasPlace, LocatedTo;
    if k > 0 {
      EditsToMeans(lines, hunks, k - 1);
      PlacedMeans(lines, hunks[k - 1]);
      LocatedStep(lines, hunks, k - 1);
    } else {
      LocatedNone(lines, hunks);
    }
  }

  lemma LocatedNone(lines: seq<string>, hunks: seq<seq<string>>)
    ensures LocatedTo(lines, hunks, 0)
  {
  }

  lemma LocatedStep(lines: seq<string>, hunks: seq<seq<string>>, k: nat)
    requires k < |hunks|
    ensures LocatedTo(lines, hunks, k + 1) <==> LocatedTo(lines, hunks, k) && HasPlace(lines, hunks[k])
  {
    hide HasPlace;
  }

  /** The old side of the first hunk that is not located. */
  ghost predicate FailsAt(lines: seq<string>, hunks: seq<seq<string>>, k: nat, failure: Failure)
    requires k < |hunks|
  {
    var before := PatchUpdate.Side(hunks[k], '-');
    && LocatedTo(lines, hunks, k) && before != []
    && if failure.ContextNotFound? then !Occurs(lines, before) else failure.ContextAmbiguous? && OccursTwice(lines, before)
  }

  lemma FirstFailure(lines: seq<string>, hunks: seq<seq<string>>, k: nat, failure: Failure)
    requires k < |hunks|
    ensures FailsAt(lines, hunks, k, failure) <==> LocatedTo(lines, hunks, k) && EditOf(lines, hunks[k]) == Err(failure)
    ensures FailsAt(lines, hunks, k, failure) ==> EditsTo(lines, hunks, |hunks|) == Err(failure)
  {
    hide EditOf, Locates, Occurs, OccursTwice, LocatedTo;
    EditOfMeans(lines, hunks[k]);
    PlacedMeans(lines, hunks[k]);
    if FailsAt(lines, hunks, k, failure) {
      EditsToMeans(lines, hunks, k);
      FailureSticks(lines, hunks, k + 1, |hunks|);
    }
  }

  /** The first hunk without its one place has this failure. */
  ghost predicate FailsWith(lines: seq<string>, hunks: seq<seq<string>>, failure: Failure) {
    exists k :: 0 <= k < |hunks| && FailsAt(lines, hunks, k, failure)
  }

  lemma FailureIsFirst(lines: seq<string>, hunks: seq<seq<string>>, failure: Failure)
    ensures EditsTo(lines, hunks, |hunks|) == Err(failure) <==> FailsWith(lines, hunks, failure)
  {
    hide EditOf, Locates, FailsAt, LocatedTo, HasPlace, EditsTo;
    EditsToMeans(lines, hunks, |hunks|);
    var all := EditsTo(lines, hunks, |hunks|);
    if k :| 0 <= k < |hunks| && FailsAt(lines, hunks, k, failure) {
      FirstFailure(lines, hunks, k, failure);
    }
    if all == Err(failure) {
      var k :| 0 <= k < |hunks| && LocatedTo(lines, hunks, k) && EditOf(lines, hunks[k]) == Err(failure);
      FirstFailure(lines, hunks, k, failure);
    }
  }

  /** The frozen applier's answer: a failure to parse before all else, then the failure
      of the first hunk that is nowhere or in several places, or every hunk in its one
      place and no two of them overlapping. */
  lemma LegacyMeans(content: string, hunks: seq<seq<string>>)
    requires hunks != []
    ensures Legacy(content, hunks) == Err(PatchFailed) <==> !AllParse(hunks)
    ensures var lines, r := Split(Normalize(content)), Legacy(content, hunks);
            AllParse(hunks) ==>
            && (r == Err(ContextNotFound) <==> FailsWith(lines, hunks, ContextNotFound))
            && (r == Err(ContextAmbiguous) <==> FailsWith(lines, hunks, ContextAmbiguous))
            && (r.Ok? || r == Err(HunksOverlap) <==> LocatedTo(lines, hunks, |hunks|))
            && (LocatedTo(lines, hunks, |hunks|) ==>
                  exists edits :: |edits| == |hunks|
                                  && (forall i :: 0 <= i < |hunks| ==> Locates(lines, hunks[i], edits[i]))
                                  && (r.Ok? <==> AdjacentDisjoint(Sort(edits)))
                                  && (AdjacentDisjoint(Sort(edits)) && Ordered(Sort(edits), |lines|) ==>
                                        r == Ok(Assemble(content, Written(lines, Sort(edits), |lines|)))))
  {
    hide EditOf, Locates, Occurs, OccursTwice, FailsAt, FailsWith, Sort, Assemble, AdjacentDisjoint, LocatedTo, HasPlace, Split, Normalize, EditsTo;
    var lines := Split(Normalize(content));
    EditsToMeans(lines, hunks, |hunks|);
    FailureIsFirst(lines, hunks, ContextNotFound);
    FailureIsFirst(lines, hunks, ContextAmbiguous);
    var all := EditsTo(lines, hunks, |hunks|);
    if all.Err? {
      var k :| 0 <= k < |hunks| && LocatedTo(lines, hunks, k) && EditOf(lines, hunks[k]) == Err(all.error);
      PlacedMeans(lines, hunks[k]);
    }
  }

  lemma OnlyTwoFailures(lines: seq<string>, raw: seq<string>)
    ensures EditOf(lines, raw).Err? ==> EditOf(lines, raw).error in {ContextNotFound, ContextAmbiguous}
  {
  }

  // ----- the order of hunks does not matter -----

  /** Success and result by set and multiset of hunks, without their order. */
  lemma {:induction false} EditsToAll(lines: seq<string>, hunks: seq<seq<string>>, k: nat)
    requires k <= |hunks|
    ensures EditsTo(lines, hunks, k).Ok? <==> forall i :: 0 <= i < k ==> EditOf(lines, hunks[i]).Ok?
  {
    if k > 0 {
      EditsToAll(lines, hunks, k - 1);
    }
  }

  ghost predicate EditsOf(lines: seq<string>, hunks: seq<seq<string>>, edits: seq<Edit>) {
    |hunks| == |edits| && forall i :: 0 <= i < |hunks| ==> Ok(edits[i]) == EditOf(lines, hunks[i])
  }

  lemma EditsWithout(lines: seq<string>, hunks: seq<seq<string>>, edits: seq<Edit>, n: nat)
    requires EditsOf(lines, hunks, edits) && n < |hunks|
    ensures EditsOf(lines, Without(hunks, n), Without(edits, n))
  {
    hide EditOf;
    forall i | 0 <= i < |hunks| - 1 ensures Ok(Without(edits, n)[i]) == EditOf(lines, Without(hunks, n)[i]) {
      var j := if i < n then i else i + 1;
      assert Without(edits, n)[i] == edits[j] && Without(hunks, n)[i] == hunks[j];
    }
  }

  /** Hunks that are a permutation of each other ask for edits that are one too. */
  lemma {:induction false} EditsPermute(lines: seq<string>, a: seq<seq<string>>, b: seq<seq<string>>, x: seq<Edit>, y: seq<Edit>)
    requires multiset(a) == multiset(b) && EditsOf(lines, a, x) && EditsOf(lines, b, y)
    ensures multiset(x) == multiset(y)
    decreases |a|
  {
    hide EditOf, EditsOf, Without;
    assert |x| == |a| && |y| == |b| by { SameCount(lines, a, x); SameCount(lines, b, y); }
    if a == [] {
      assert |multiset(b)| == 0;
    } else {
      var n := |a| - 1;
      assert a[n] in multiset(a);
      var k :| 0 <= k < |b| && b[k] == a[n];
      WithoutEqual(a, b, n, k);
      assert x[n] == y[k] by { SameEdit(lines, a, b, x, y, n, k); }
      WithoutEqual(x, y, n, k);
      EditsWithout(lines, a, x, n);
      EditsWithout(lines, b, y, k);
      EditsPermute(lines, Without(a, n), Without(b, k), Without(x, n), Without(y, k));
    }
  }

  lemma SameCount(lines: seq<string>, hunks: seq<seq<string>>, edits: seq<Edit>)
    requires EditsOf(lines, hunks, edits)
    ensures |edits| == |hunks|
  {
  }

  lemma SameEdit(lines: seq<string>, a: seq<seq<string>>, b: seq<seq<string>>, x: seq<Edit>, y: seq<Edit>, n: nat, k: nat)
    requires EditsOf(lines, a, x) && EditsOf(lines, b, y) && n < |a| && k < |b| && a[n] == b[k]
    ensures n < |x| && k < |y| && x[n] == y[k]
  {
    hide EditOf;
    assert Ok(x[n]) == EditOf(lines, a[n]) && Ok(y[k]) == EditOf(lines, b[k]);
  }

  /** Any permutation of the hunks succeeds or fails alike, with the same text. */
  lemma HunkOrderIsIrrelevant(content: string, a: seq<seq<string>>, b: seq<seq<string>>)
    requires multiset(a) == multiset(b)
    ensures Legacy(content, a).Ok? <==> Legacy(content, b).Ok?
    ensures Legacy(content, a).Ok? ==> Legacy(content, a) == Legacy(content, b)
  {
    hide EditOf, Parses, Sort, Assemble;
    var lines := Split(Normalize(content));
    assert |a| == |multiset(a)| == |multiset(b)| == |b|;
    forall h ensures h in a <==> h in b {
      assert h in a <==> h in multiset(a);
      assert h in b <==> h in multiset(b);
    }
    forall i | 0 <= i < |a| ensures a[i] in b {}
    forall i | 0 <= i < |b| ensures b[i] in a {}
    EditsToAll(lines, a, |a|);
    EditsToAll(lines, b, |b|);
    if EditsTo(lines, a, |a|).Ok? && EditsTo(lines, b, |b|).Ok? {
      var x, y := EditsTo(lines, a, |a|).value, EditsTo(lines, b, |b|).value;
      EditsPermute(lines, a, b, x, y);
      SortSorts(x);
      SortSorts(y);
      SortedIsUnique(Sort(x), Sort(y));
    }
  }
}
