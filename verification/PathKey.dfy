/** The cache key of a workspace: the lexically normalized form of an absolute (Unix) path. */
module PathKey {
  import opened Wire

  // ---------------------------------------------------------------- components

  /** What a path iterator yields after the root of an absolute path. */
  datatype Component = CurDir | ParentDir | Normal(name: string)

  /** The names left on the stack after walking the components from the root; the root has no parent to pop. */
  function Reduce(cs: seq<Component>): seq<string> {
    if cs == [] then []
    else
      var stack := Reduce(cs[..|cs| - 1]);
      match cs[|cs| - 1]
      case CurDir => stack
      case ParentDir => if stack == [] then [] else stack[..|stack| - 1]
      case Normal(name) => stack + [name]
  }

  /** The loop that pushes and pops a path buffer holding the root. */
  method NormalizeLexical(components: seq<Component>) returns (normalized: seq<string>)
    ensures normalized == Reduce(components)
  {
    normalized := [];
    for k := 0 to |components|
      invariant normalized == Reduce(components[..k])
    {
      assert components[..k + 1][..k] == components[..k];
      match components[k] {
        case CurDir =>
        case ParentDir => if normalized != [] { normalized := normalized[..|normalized| - 1]; }
        case Normal(name) => normalized := normalized + [name];
      }
    }
    assert components[..|components|] == components;
  }

  lemma ReduceAppend(cs: seq<Component>, c: Component)
    ensures Reduce(cs + [c]) == match c
                                case CurDir => Reduce(cs)
                                case ParentDir => if Reduce(cs) == [] then [] else Reduce(cs)[..|Reduce(cs)| - 1]
                                case Normal(name) => Reduce(cs) + [name]
  {
  }

  lemma {:induction false} ReduceCongruence(a: seq<Component>, b: seq<Component>, rest: seq<Component>)
    requires Reduce(a) == Reduce(b)
    ensures Reduce(a + rest) == Reduce(b + rest)
  {
    if rest == [] {
      assert a + rest == a && b + rest == b;
    } else {
      var front, c := rest[..|rest| - 1], rest[|rest| - 1];
      ReduceCongruence(a, b, front);
      assert a + rest == a + front + [c] && b + rest == b + front + [c];
      ReduceAppend(a + front, c);
      ReduceAppend(b + front, c);
    }
  }

  // ---------------------------------------------------------------- equivalent spellings

  /** What may be dropped behind `front`, whatever follows: a `.`, a name with the `..` after it, a `..` at the root. */
  predicate Droppable(front: seq<Component>, dropped: seq<Component>) {
    || dropped == [CurDir]
    || (|dropped| == 2 && dropped[0].Normal? && dropped[1] == ParentDir)
    || (front == [] && dropped == [ParentDir])
  }

  /** A sequence of simplifications, each given by what stands before, at and behind the dropped part. */
  datatype Steps =
    | Done
    | Drop(front: seq<Component>, dropped: seq<Component>, back: seq<Component>, rest: Steps)

  ghost predicate Derives(p: seq<Component>, steps: Steps, q: seq<Component>)
    decreases steps
  {
    match steps
    case Done => p == q
    case Drop(front, dropped, back, rest) =>
      p == front + dropped + back && Droppable(front, dropped) && Derives(front + back, rest, q)
  }

  ghost predicate SimplifiesTo(p: seq<Component>, q: seq<Component>) {
    exists steps :: Derives(p, steps, q)
  }

  /** Two spellings of one location: they simplify to the same components. */
  ghost predicate Equivalent(p: seq<Component>, q: seq<Component>) {
    exists r :: SimplifiesTo(p, r) && SimplifiesTo(q, r)
  }

  lemma DropKeeps(front: seq<Component>, dropped: seq<Component>, back: seq<Component>)
    requires Droppable(front, dropped)
    ensures Reduce(front + dropped + back) == Reduce(front + back)
  {
    hide Reduce;
    ReduceAppend(front, dropped[0]);
    if |dropped| == 2 {
      ReduceAppend(front + [dropped[0]], dropped[1]);
      assert front + dropped == front + [dropped[0]] + [dropped[1]];
    } else {
      assert dropped == [dropped[0]];
      ReduceNothing();
    }
    ReduceCongruence(front + dropped, front, back);
  }

  lemma ReduceNothing()
    ensures Reduce([]) == []
  {
  }

  lemma {:induction false} DerivationKeeps(p: seq<Component>, steps: Steps, q: seq<Component>)
    requires Derives(p, steps, q)
    ensures Reduce(p) == Reduce(q)
    decreases steps
  {
    if steps.Drop? {
      DropKeeps(steps.front, steps.dropped, steps.back);
      DerivationKeeps(steps.front + steps.back, steps.rest, q);
    }
  }

  function Names(stack: seq<string>): (r: seq<Component>)
    ensures |r| == |stack| && forall i :: 0 <= i < |r| ==> r[i] == Normal(stack[i])
  {
    seq(|stack|, i requires 0 <= i < |stack| => Normal(stack[i]))
  }

  lemma {:induction false} ReduceNames(stack: seq<string>)
    ensures Reduce(Names(stack)) == stack
  {
    if stack != [] {
      var front := stack[..|stack| - 1];
      ReduceNames(front);
      assert Names(stack)[..|stack| - 1] == Names(front);
      assert stack == front + [stack[|stack| - 1]];
    }
  }

  /** A derivation, with more components behind it, followed by one more step. */
  function Extend(steps: Steps, behind: seq<Component>, last: Steps): Steps {
    match steps
    case Done => last
    case Drop(front, dropped, back, rest) => Drop(front, dropped, back + behind, Extend(rest, behind, last))
  }

  lemma {:induction false} ExtendDerives(p: seq<Component>, steps: Steps, q: seq<Component>, behind: seq<Component>,
                                         last: Steps, r: seq<Component>)
    requires Derives(p, steps, q) && Derives(q + behind, last, r)
    ensures Derives(p + behind, Extend(steps, behind, last), r)
    decreases steps
  {
    if steps.Drop? {
      var Drop(front, dropped, back, rest) := steps;
      ExtendDerives(front + back, rest, q, behind, last, r);
      assert front + dropped + back + behind == front + dropped + (back + behind);
      assert front + back + behind == front + (back + behind);
    }
  }

  /** The step that settles a component pushed behind a stack of names, if one is needed. */
  function Settle(stack: seq<string>, c: Component): Steps {
    match c
    case CurDir => Drop(Names(stack), [c], [], Done)
    case ParentDir =>
      if stack == [] then Drop([], [c], [], Done)
      else Drop(Names(stack[..|stack| - 1]), [Normal(stack[|stack| - 1]), c], [], Done)
    case Normal(_) => Done
  }

  lemma SettleDerives(stack: seq<string>, c: Component)
    ensures Derives(Names(stack) + [c], Settle(stack, c), match c
                                                          case CurDir => Names(stack)
                                                          case ParentDir => if stack == [] then [] else Names(stack[..|stack| - 1])
                                                          case Normal(name) => Names(stack + [name]))
  {
  }

  /** Every spelling simplifies to its reduced stack of names. */
  lemma {:induction false} ReachesNormalForm(p: seq<Component>) returns (steps: Steps)
    ensures Derives(p, steps, Names(Reduce(p)))
  {
    if p == [] {
      steps := Done;
      assert Names([]) == [];
    } else {
      hide Derives;
      var front, c := p[..|p| - 1], p[|p| - 1];
      var stack := Reduce(front);
      var before := ReachesNormalForm(front);
      assert p == front + [c];
      SettleDerives(stack, c);
      assert Names([]) == [];
      steps := Extend(before, [c], Settle(stack, c));
      ExtendDerives(front, before, Names(stack), [c], Settle(stack, c), Names(Reduce(p)));
    }
  }

  /** Two component lists reduce to the same stack exactly when they are spellings of one location. */
  lemma SameStackIffEquivalent(p: seq<Component>, q: seq<Component>)
    ensures Reduce(p) == Reduce(q) <==> Equivalent(p, q)
  {
    if Reduce(p) == Reduce(q) {
      var a := ReachesNormalForm(p);
      var b := ReachesNormalForm(q);
      assert SimplifiesTo(p, Names(Reduce(p))) && SimplifiesTo(q, Names(Reduce(p)));
    }
    if Equivalent(p, q) {
      var r :| SimplifiesTo(p, r) && SimplifiesTo(q, r);
      var a :| Derives(p, a, r);
      var b :| Derives(q, b, r);
      DerivationKeeps(p, a, r);
      DerivationKeeps(q, b, r);
    }
  }

  // ---------------------------------------------------------------- strings

  function SegmentLength(raw: string): (n: nat)
    ensures n <= |raw|
    ensures forall i :: 0 <= i < n ==> raw[i] != '/'
    ensures n < |raw| ==> raw[n] == '/'
  {
    if raw == "" || raw[0] == '/' then 0
    else
      var n := SegmentLength(raw[1..]);
      assert forall i :: 0 < i <= n ==> raw[i] == raw[1..][i - 1];
      n + 1
  }

  /** The non-empty segments between slashes. */
  function Segments(raw: string): seq<string>
    decreases |raw|
  {
    if raw == "" then []
    else if raw[0] == '/' then Segments(raw[1..])
    else
      var n := SegmentLength(raw);
      [raw[..n]] + Segments(raw[n..])
  }

  function Classify(segments: seq<string>): seq<Component> {
    if segments == [] then []
    else
      var rest := Classify(segments[1..]);
      if segments[0] == "." then rest
      else [if segments[0] == ".." then ParentDir else Normal(segments[0])] + rest
  }

  /** Components of an absolute path after the root. */
  function Components(raw: string): seq<Component> { Classify(Segments(raw)) }

  function Join(stack: seq<string>): string {
    if stack == [] then "" else "/" + stack[0] + Join(stack[1..])
  }

  /** The path buffer as a string: the root alone, or every name behind a slash. */
  function Render(stack: seq<string>): string { if stack == [] then "/" else Join(stack) }

  predicate IsName(s: string) { s != "" && s != "." && s != ".." && forall i :: 0 <= i < |s| ==> s[i] != '/' }

  predicate AllNames(stack: seq<string>) { forall i :: 0 <= i < |stack| ==> IsName(stack[i]) }

  /** The workspace an event names: its path or else the first of its paths, if that is absolute. */
  function SelectWorkspace(path: Option<string>, paths: Option<seq<string>>): (key: Option<string>)
    ensures key.Some? ==> key.value != "" && key.value[0] == '/'
  {
    var raw := if path.Some? then path
               else if paths.Some? && paths.value != [] then Some(paths.value[0]) else None;
    if raw.None? || raw.value == "" || raw.value[0] != '/' then None else Some(Normalize(raw.value))
  }

  function Normalize(raw: string): (r: string)
    ensures r != "" && r[0] == '/'
  {
    var stack := Reduce(Components(raw));
    if stack != [] then assert Join(stack)[0] == '/'; Render(stack) else Render(stack)
  }

  lemma {:induction false} SegmentsAreSlashFree(raw: string)
    ensures forall i :: 0 <= i < |Segments(raw)| ==> Segments(raw)[i] != "" && '/' !in Segments(raw)[i]
    decreases |raw|
  {
    if raw != "" {
      if raw[0] == '/' {
        SegmentsAreSlashFree(raw[1..]);
      } else {
        SegmentsAreSlashFree(raw[SegmentLength(raw)..]);
      }
    }
  }

  lemma {:induction false} ClassifyNames(segments: seq<string>)
    requires forall i :: 0 <= i < |segments| ==> segments[i] != "" && '/' !in segments[i]
    ensures forall i :: 0 <= i < |Classify(segments)| && Classify(segments)[i].Normal? ==> IsName(Classify(segments)[i].name)
  {
    if segments != [] { ClassifyNames(segments[1..]); }
  }

  lemma {:induction false} ReduceKeepsNames(cs: seq<Component>)
    requires forall i :: 0 <= i < |cs| && cs[i].Normal? ==> IsName(cs[i].name)
    ensures AllNames(Reduce(cs))
  {
    if cs != [] { ReduceKeepsNames(cs[..|cs| - 1]); }
  }

  /** Nothing but names is left: no `.`, no `..`, no empty name, no slash inside a name. */
  lemma NormalizedAreNames(raw: string)
    ensures AllNames(Reduce(Components(raw)))
  {
    SegmentsAreSlashFree(raw);
    ClassifyNames(Segments(raw));
    ReduceKeepsNames(Components(raw));
  }

  lemma FirstSegment(name: string, rest: string)
    requires IsName(name) && (rest != "" ==> rest[0] == '/')
    ensures Segments(name + rest) == [name] + Segments(rest)
  {
    var tail := name + rest;
    assert tail[0] == name[0];
    assert forall i :: 0 <= i < |name| ==> tail[i] == name[i];
    assert SegmentLength(tail) == |name| by {
      hide Segments;
      if rest != "" { assert tail[|name|] == rest[0]; }
    }
    assert tail[..|name|] == name && tail[|name|..] == rest;
  }

  lemma {:induction false} SegmentsOfJoin(stack: seq<string>)
    requires AllNames(stack)
    ensures Segments(Join(stack)) == stack
  {
    if stack != [] {
      var name, rest := stack[0], Join(stack[1..]);
      assert IsName(name);
      assert Join(stack)[1..] == name + rest;
      FirstSegment(name, rest);
      SegmentsOfJoin(stack[1..]);
      assert stack == [name] + stack[1..];
    }
  }

  lemma {:induction false} ClassifyOfNames(stack: seq<string>)
    requires AllNames(stack)
    ensures Classify(stack) == Names(stack)
  {
    if stack != [] {
      assert IsName(stack[0]);
      ClassifyOfNames(stack[1..]);
      assert Names(stack) == [Normal(stack[0])] + Names(stack[1..]);
    }
  }

  /** A rendered stack reads back as itself. */
  lemma RenderReadsBack(stack: seq<string>)
    requires AllNames(stack)
    ensures Components(Render(stack)) == Names(stack)
  {
    if stack == [] {
      assert "/"[1..] == "";
      assert Segments("/") == Segments("");
      assert Names([]) == [];
    } else {
      SegmentsOfJoin(stack);
      ClassifyOfNames(stack);
    }
  }

  /** Normalizing twice is normalizing once. */
  lemma NormalizeIdempotent(raw: string)
    ensures Normalize(Normalize(raw)) == Normalize(raw)
  {
    var stack := Reduce(Components(raw));
    NormalizedAreNames(raw);
    RenderReadsBack(stack);
    ReduceNames(stack);
  }

  /** Two absolute paths share a cache key exactly when they are spellings of one location: never across
      locations, always within one. */
  lemma SameKeyIffEquivalent(a: string, b: string)
    ensures Normalize(a) == Normalize(b) <==> Equivalent(Components(a), Components(b))
  {
    var s, t := Reduce(Components(a)), Reduce(Components(b));
    SameStackIffEquivalent(Components(a), Components(b));
    if Normalize(a) == Normalize(b) {
      NormalizedAreNames(a);
      NormalizedAreNames(b);
      RenderReadsBack(s);
      RenderReadsBack(t);
      ReduceNames(s);
      ReduceNames(t);
    }
  }

  // ---------------------------------------------------------------- laws on path strings

  lemma {:induction false} SegmentLengthConcat(p: string, q: string)
    requires q != "" ==> q[0] == '/'
    ensures SegmentLength(p + q) == SegmentLength(p)
  {
    var a, b := SegmentLength(p + q), SegmentLength(p);
    assert forall i :: 0 <= i < |p| ==> (p + q)[i] == p[i];
    if b == |p| && q != "" { assert (p + q)[|p|] == '/'; }
  }

  lemma {:induction false} SegmentsConcat(p: string, q: string)
    requires q != "" ==> q[0] == '/'
    ensures Segments(p + q) == Segments(p) + Segments(q)
    decreases |p|
  {
    if p == "" {
      assert p + q == q;
    } else if p[0] == '/' {
      assert (p + q)[1..] == p[1..] + q;
      SegmentsConcat(p[1..], q);
    } else {
      var n := SegmentLength(p);
      SegmentLengthConcat(p, q);
      assert n > 0 && (p + q)[..n] == p[..n] && (p + q)[n..] == p[n..] + q;
      SegmentsConcat(p[n..], q);
    }
  }

  lemma {:induction false} ClassifyConcat(a: seq<string>, b: seq<string>)
    ensures Classify(a + b) == Classify(a) + Classify(b)
  {
    if a == [] {
      assert a + b == b;
    } else {
      assert (a + b)[1..] == a[1..] + b;
      ClassifyConcat(a[1..], b);
    }
  }

  lemma ComponentsConcat(p: string, q: string)
    requires q != "" ==> q[0] == '/'
    ensures Components(p + q) == Components(p) + Components(q)
  {
    SegmentsConcat(p, q);
    ClassifyConcat(Segments(p), Segments(q));
  }

  // One segment behind a slash.
  lemma ComponentsOfSegment(segment: string)
    requires segment != "" && forall i :: 0 <= i < |segment| ==> segment[i] != '/'
    ensures Components("/" + segment)
         == if segment == "." then [] else if segment == ".." then [ParentDir] else [Normal(segment)]
  {
    assert ("/" + segment)[1..] == segment;
    assert SegmentLength(segment) == |segment|;
    assert segment[..|segment|] == segment && segment[|segment|..] == "";
    assert Segments("/" + segment) == Segments(segment) == [segment];
    var rest: seq<string> := [segment][1..];
    assert rest == [] && Classify(rest) == [];
  }

  // Text behind a path that stands for components to be dropped there does not change the key.
  lemma DropText(p: string, text: string, q: string)
    requires text != "" && text[0] == '/' && (q != "" ==> q[0] == '/')
    requires Components(text) == [] || Droppable(Components(p), Components(text))
    ensures Normalize(p + text + q) == Normalize(p + q)
  {
    hide Droppable, Reduce, Components;
    ComponentsConcat(p + text, q);
    ComponentsConcat(p, text);
    ComponentsConcat(p, q);
    if Components(text) == [] {
      assert Components(p) + [] == Components(p);
    } else {
      DropKeeps(Components(p), Components(text), Components(q));
    }
  }

  /** A name followed by `..` cancels, anywhere in a path. */
  lemma NameThenParent(p: string, name: string, q: string)
    requires IsName(name) && (q != "" ==> q[0] == '/')
    ensures Normalize(p + ("/" + name + "/..") + q) == Normalize(p + q)
  {
    ComponentsOfSegment(name);
    ComponentsOfSegment("..");
    ComponentsConcat("/" + name, "/..");
    DropText(p, "/" + name + "/..", q);
  }

  /** A `..` at the root is ignored, a `.` anywhere, and so is an empty segment. */
  lemma RootParentDotSlash(p: string, q: string)
    requires q != "" ==> q[0] == '/'
    ensures Normalize("/.." + q) == Normalize(q)
    ensures Normalize(p + "/." + q) == Normalize(p + q)
    ensures Normalize(p + "/" + q) == Normalize(p + q)
  {
    ComponentsOfSegment("..");
    ComponentsOfSegment(".");
    assert "/"[1..] == "" && Components("/") == [];
    assert Components("") == [];
    DropText("", "/..", q);
    assert "" + "/.." + q == "/.." + q && "" + q == q;
    DropText(p, "/.", q);
    DropText(p, "/", q);
  }

  /** Names alone stay: the key of a rendered stack of names is its own text. */
  lemma NamesStay(stack: seq<string>)
    requires AllNames(stack)
    ensures Normalize(Render(stack)) == Render(stack)
  {
    RenderReadsBack(stack);
    ReduceNames(stack);
  }

  /** The first path counts: the workspace path if there is one, else the first of the paths; it is a workspace exactly
      when it is absolute. */
  lemma SelectsFirst(path: string, others: seq<string>, paths: Option<seq<string>>)
    ensures SelectWorkspace(Some(path), paths) == if path != "" && path[0] == '/' then Some(Normalize(path)) else None
    ensures SelectWorkspace(None, Some([path] + others)) == SelectWorkspace(Some(path), None)
    ensures SelectWorkspace(None, Some([])) == None && SelectWorkspace(None, None) == None
  {
  }

  /** A key names the workspace it was made for: selected again as a path, alone or before other paths, it is kept. */
  lemma KeySelectsItself(path: Option<string>, paths: Option<seq<string>>, others: Option<seq<string>>)
    ensures var key := SelectWorkspace(path, paths);
            key.Some? ==> SelectWorkspace(key, others) == key && SelectWorkspace(None, Some([key.value])) == key
  {
    hide Normalize;
    var raw := if path.Some? then path
               else if paths.Some? && paths.value != [] then Some(paths.value[0]) else None;
    if raw.Some? {
      NormalizeIdempotent(raw.value);
    }
  }
}
