/** The laws of path resolution: canonical results, idempotence, and resolving in two steps or in one. */
module PathLaws {
  import opened Words
  import opened Texts
  import opened PathStacks

  // ----- canonical results -----

  lemma {:induction false} SplitSlashed(stack: seq<string>)
    requires LiteralStack(stack)
    ensures Split(Slashed(stack), '/') == [""] + stack
  {
    if stack == [] {
      SplitWhole("", '/');
    } else {
      hide Split;
      var n := |stack| - 1;
      SplitSlashed(stack[..n]);
      SplitConcat(Slashed(stack[..n]), '/', stack[n]);
      SplitWhole(stack[n], '/');
      assert [""] + stack[..n] + [stack[n]] == [""] + stack;
    }
  }

  lemma SplitRooted(p: string)
    requires p != "" && p[0] == '/'
    ensures Split(p, '/') == [""] + Split(p[1..], '/')
  {
  }

  lemma {:induction false} SlashedRooted(stack: seq<string>)
    requires stack != []
    ensures Slashed(stack) != "" && Slashed(stack)[0] == '/' && |Slashed(stack)| >= 1 + |stack[|stack| - 1]|
  {
    if |stack| > 1 { SlashedRooted(stack[..|stack| - 1]); }
  }

  lemma RenderCanonical(stack: seq<string>)
    requires CanonicalStack(stack)
    ensures CanonicalPath(Render(stack))
  {
    if stack != [] {
      SlashedRooted(stack);
      SplitSlashed(stack);
      var p := Slashed(stack);
      SplitRooted(p);
      hide Split;
      assert stack == ([""] + stack)[1..] == Split(p[1..], '/');
    }
  }

  lemma {:induction false} NonEmptyAll(parts: seq<string>)
    requires forall i :: 0 <= i < |parts| ==> parts[i] != ""
    ensures NonEmpty(parts) == parts
  {
    if parts != [] {
      NonEmptyAll(parts[..|parts| - 1]);
      assert parts == parts[..|parts| - 1] + [parts[|parts| - 1]];
    }
  }

  /** The components of a canonical path are canonical names, and the path is what they render to. */
  lemma CanonicalParts(p: string)
    requires CanonicalPath(p)
    ensures forall i :: 0 <= i < |Parts(p)| ==> CanonicalName(Parts(p)[i])
  {
    if p == "/" {
      PartsConcat("", "");
      PartsOfName("");
      assert "" + "/" + "" == "/";
    } else {
      var rest := Split(p[1..], '/');
      SplitRooted(p);
      hide Split;
      NonEmptyConcat([""], rest);
      NonEmptyOne("");
      assert forall i :: 0 <= i < |rest| ==> rest[i] in rest;
      NonEmptyAll(rest);
      assert Parts(p) == rest;
    }
  }

  /** Resolving leads to a stack of literal names; from a canonical start, to a canonical one. */
  lemma ResolveLiteral(base: string, input: string)
    requires Resolve(base, input).Some?
    ensures LiteralStack(Resolve(base, input).value)
    ensures Absolute(input) || CanonicalPath(base) ==> CanonicalStack(Resolve(base, input).value)
  {
    PartsClean(base);
    PartsClean(input);
    LoadLiteral(Parts(base));
    var start := if Absolute(input) then [] else Parts(base);
    if !Absolute(input) && CanonicalPath(base) { CanonicalParts(base); }
    hide Parts, CanonicalPath;
    WalkLiteral(start, Parts(input));
  }

  /** From a canonical base, or for an absolute input, every result is canonical: rooted, and without empty, "." or ".."
      component, so it never leaves the root. */
  lemma ResultCanonical(base: string, input: string, cap: nat)
    requires Absolute(input) || CanonicalPath(base)
    requires Normalized(base, input, cap).Some?
    ensures CanonicalPath(Normalized(base, input, cap).value)
  {
    ResolveLiteral(base, input);
    RenderCanonical(Resolve(base, input).value);
  }

  /** Resolving a result again, from anywhere, changes nothing. */
  lemma Idempotent(base: string, input: string, elsewhere: string, cap: nat)
    requires Absolute(input) || CanonicalPath(base)
    requires Normalized(base, input, cap).Some?
    ensures Normalized(elsewhere, Normalized(base, input, cap).value, cap) == Normalized(base, input, cap)
  {
    ResolveLiteral(base, input);
    var stack := Resolve(base, input).value;
    PartsOfRender(stack);
    if stack != [] { SlashedRooted(stack); }
    hide Parts;
    assert [] + stack == stack;
    WalkCanonical([], stack);
  }

  // ----- two steps or one -----

  /** How deep a walk ends above the highest point it climbs to. */
  function Level(parts: seq<string>): nat {
    if parts == [] then 0
    else
      var before, c := Level(parts[..|parts| - 1]), parts[|parts| - 1];
      if c == "." then before else if c == ".." then (if before == 0 then 0 else before - 1) else before + 1
  }

  /** How far above its start a walk climbs. */
  function Climb(parts: seq<string>): nat {
    if parts == [] then 0
    else
      var n := |parts| - 1;
      Climb(parts[..n]) + if parts[n] == ".." && Level(parts[..n]) == 0 then 1 else 0
  }

  function Min(a: nat, b: nat): nat { if a < b then a else b }

  /** What a walk from a stack leaves of it, and what it adds. */
  lemma {:induction false} WalkFromRoot(stack: seq<string>, parts: seq<string>)
    requires Walk(stack, parts).Some?
    ensures Walk([], parts).Some? && |Walk([], parts).value| == Level(parts)
    ensures Walk(stack, parts).value == stack[..|stack| - Min(|stack|, Climb(parts))] + Walk([], parts).value
  {
    if parts == [] {
      assert stack[..|stack|] + [] == stack;
    } else {
      var n := |parts| - 1;
      var before, c := parts[..n], parts[n];
      WalkFromRoot(stack, before);
      WalkStep(stack[..|stack| - Min(|stack|, Climb(before))], Walk([], before).value, c);
      if c == ".." && Level(before) == 0 {
        assert Walk([], before).value == [];
      }
    }
  }

  /** One component after a kept part and an added part. */
  lemma WalkStep(kept: seq<string>, added: seq<string>, c: string)
    requires Apply(kept + added, c).Some?
    ensures Apply(added, c).Some?
    ensures
      if c == ".." && added == [] then Apply(kept + added, c).value == if kept == [] then [] else kept[..|kept| - 1]
      else Apply(kept + added, c).value == kept + Apply(added, c).value
  {
  }

  lemma RenderInjective(a: seq<string>, b: seq<string>)
    requires LiteralStack(a) && LiteralStack(b) && Render(a) == Render(b)
    ensures a == b
  {
    PartsOfRender(a);
    PartsOfRender(b);
  }

  /** The stack of a result is what its own path loads as. */
  lemma ResultLoads(base: string, input: string, cap: nat)
    requires Normalized(base, input, cap).Some?
    ensures Load(Parts(Normalized(base, input, cap).value)) == Resolve(base, input)
  {
    ResolveLiteral(base, input);
    var stack := Resolve(base, input).value;
    PartsOfRender(stack);
    LoadWhole(stack);
  }

  /** Resolving `a`, then a relative `b` from there, is resolving a/b in one step, for every a but the empty one. */
  lemma TwoStepsAreOne(base: string, a: string, b: string, cap: nat)
    requires a != "" && !Absolute(b) && Normalized(base, a, cap).Some?
    requires Normalized(Normalized(base, a, cap).value, b, cap).Some?
    ensures Normalized(base, a + "/" + b, cap) == Normalized(Normalized(base, a, cap).value, b, cap)
  {
    var start := if Absolute(a) then [] else Load(Parts(base)).value;
    ResultLoads(base, a, cap);
    PartsConcat(a, b);
    hide Parts;
    WalkConcat(start, Parts(a), Parts(b));
    assert Absolute(a + "/" + b) == Absolute(a);
  }

  lemma JoinedEmpty(base: string, b: string)
    ensures Resolve(base, "/" + b) == Walk([], Parts(b))
  {
    PartsConcat("", b);
    hide Parts, Walk;
    assert "" + "/" + b == "/" + b;
    assert [] + Parts(b) == Parts(b);
    PartsOfName("");
  }

  lemma SteppedEmpty(base: string, b: string, cap: nat)
    requires !Absolute(b) && Normalized(base, "", cap).Some?
    ensures LiteralStack(Parts(base)) && Resolve(Normalized(base, "", cap).value, b) == Walk(Parts(base), Parts(b))
  {
    ResultLoads(base, "", cap);
    PartsOfName("");
    PartsClean(base);
    LoadLiteral(Parts(base));
    hide Parts;
    assert Walk(Parts(base), []) == Some(Parts(base));
  }

  /** For an empty `a` the joined text is absolute, and the two agree exactly when `b` climbs all the way out of the
      base. */
  lemma EmptyStepExactly(base: string, b: string, cap: nat)
    requires !Absolute(b) && Normalized(base, "", cap).Some?
    requires Normalized(Normalized(base, "", cap).value, b, cap).Some?
    ensures Normalized(base, "" + "/" + b, cap) == Normalized(Normalized(base, "", cap).value, b, cap)
            <==> |Parts(base)| <= Climb(Parts(b))
  {
    var r, stack := Normalized(base, "", cap).value, Parts(base);
    JoinedEmpty(base, b);
    SteppedEmpty(base, b, cap);
    ResolveLiteral(r, b);
    assert "" + "/" + b == "/" + b;
    WalkFromRoot(stack, Parts(b));
    ResolveLiteral(base, "/" + b);
    hide Parts, Resolve, Walk, Climb;
    var one, two := Walk([], Parts(b)).value, Walk(stack, Parts(b)).value;
    if |stack| <= Climb(Parts(b)) {
      assert stack[..0] + one == one;
    } else if Render(one) == Render(two) {
      RenderInjective(two, one);
    }
  }

  lemma RenderOne(c: string)
    ensures Slashed([c]) == "/" + c && Render([c]) == "/" + c
  {
    assert [c][..0] == [];
  }

  lemma RenderTwo(x: string, y: string)
    ensures Render([x, y]) == "/" + x + "/" + y
  {
    RenderOne(x);
    assert [x, y][..1] == [x];
  }

  lemma PartsOfRooted(c: string)
    requires Literal(c)
    ensures Parts("/" + c) == [c]
  {
    RenderOne(c);
    PartsOfRender([c]);
  }

  /** A name, or nothing, from a directory of one component. */
  lemma FromRooted(x: string, input: string, stack: seq<string>, text: string, cap: nat)
    requires Literal(x) && !Absolute(input) && Walk([x], Parts(input)) == Some(stack)
    requires stack != [] && Render(stack) == text && |text| + 1 < cap
    ensures Normalized("/" + x, input, cap) == Some(text)
  {
    PartsOfRooted(x);
    LoadWhole([x]);
    hide Parts, Walk, Render, Load;
  }

  /** From /x, the empty path then y leads to /x/y, while their joined text leads to /y. */
  lemma EmptyStepDiffers(x: string, y: string, cap: nat)
    requires CanonicalName(x) && CanonicalName(y) && |x| + |y| + 4 <= cap
    ensures Normalized("/" + x, "", cap) == Some("/" + x)
    ensures Normalized("/" + x, y, cap) == Some("/" + x + "/" + y)
    ensures Normalized("/" + x, "/" + y, cap) == Some("/" + y)
  {
    hide Parts, Load, Walk, Slashed, Render;
    PartsOfName("");
    PartsOfName(y);
    assert [] + [y] == [y] && [x] + [y] == [x, y] && [x] + [] == [x];
    WalkCanonical([], [y]);
    WalkCanonical([x], [y]);
    WalkCanonical([x], []);
    RenderOne(x);
    RenderOne(y);
    RenderTwo(x, y);
    FromRooted(x, "", [x], "/" + x, cap);
    FromRooted(x, y, [x, y], "/" + x + "/" + y, cap);
    JoinedEmpty("/" + x, y);
  }

  // ----- exactly which paths are refused -----

  /** The depth a walk reaches from depth `n`. */
  function Depth(n: nat, parts: seq<string>): nat {
    if parts == [] then n
    else
      var before, c := Depth(n, parts[..|parts| - 1]), parts[|parts| - 1];
      if c == "." then before else if c == ".." then (if before == 0 then 0 else before - 1) else before + 1
  }

  /** Every component that is a name has at most 31 characters and is met at a depth of at most 31. */
  predicate Within(n: nat, parts: seq<string>) {
    forall k :: 0 <= k < |parts| && parts[k] != "." && parts[k] != ".." ==>
                  |parts[k]| <= 31 && Depth(n, parts[..k]) <= 31
  }

  lemma WithinLast(n: nat, parts: seq<string>)
    requires parts != []
    ensures
      var m := |parts| - 1;
      var c := parts[m];
      Within(n, parts) <==>
      Within(n, parts[..m]) && (c == "." || c == ".." || (|c| <= 31 && Depth(n, parts[..m]) <= 31))
  {
    var m := |parts| - 1;
    hide Depth;
    assert forall k :: 0 <= k < m ==> parts[..m][k] == parts[k] && parts[..m][..k] == parts[..k];
    if Within(n, parts[..m]) {
      forall k | 0 <= k < m && parts[k] != "." && parts[k] != ".."
        ensures |parts[k]| <= 31 && Depth(n, parts[..k]) <= 31
      {
        assert parts[..m][k] == parts[k];
      }
    }
    if Within(n, parts) {
      forall k | 0 <= k < m && parts[..m][k] != "." && parts[..m][k] != ".."
        ensures |parts[..m][k]| <= 31 && Depth(n, parts[..m][..k]) <= 31
      {
        assert parts[..m][k] == parts[k];
      }
    }
  }

  lemma {:induction false} WalkExactly(stack: seq<string>, parts: seq<string>)
    ensures Walk(stack, parts).Some? <==> Within(|stack|, parts)
    ensures Walk(stack, parts).Some? ==> |Walk(stack, parts).value| == Depth(|stack|, parts)
  {
    if parts != [] {
      var m := |parts| - 1;
      WalkExactly(stack, parts[..m]);
      WithinLast(|stack|, parts);
      hide Within;
    }
  }

  /** At most 32 components of at most 31 characters. */
  predicate Loadable(parts: seq<string>) { |parts| <= 32 && forall k :: 0 <= k < |parts| ==> |parts[k]| <= 31 }

  lemma {:induction false} LoadExactly(parts: seq<string>)
    ensures Load(parts) == if Loadable(parts) then Some(parts) else None
  {
    if parts != [] {
      var m := |parts| - 1;
      LoadExactly(parts[..m]);
      assert parts == parts[..m] + [parts[m]];
      assert forall k :: 0 <= k < m ==> parts[..m][k] == parts[k];
      if |parts| <= 32 && (forall k :: 0 <= k < m ==> |parts[..m][k]| <= 31) && |parts[m]| <= 31 {
        forall k | 0 <= k < |parts| ensures |parts[k]| <= 31 {
          if k < m { assert parts[..m][k] == parts[k]; }
        }
      }
    }
  }

  lemma ResolveExactly(base: string, input: string)
    ensures
      var start := if input != "" && input[0] == '/' then [] else Parts(base);
      Resolve(base, input).Some? <==> Loadable(start) && Within(|start|, Parts(input))
  {
    var start := if input != "" && input[0] == '/' then [] else Parts(base);
    LoadExactly(start);
    hide Parts, Walk, Load, Within, Loadable;
    WalkExactly(start, Parts(input));
    assert Absolute(input) ==> Load(start) == Some([]) by { LoadNothing(); }
  }

  lemma LoadNothing()
    ensures Load([]) == Some([])
  {
  }

  /** A path is accepted exactly if the directory it starts from has at most 32 components of at most 31 characters,
      none of its own names is longer or goes deeper, and the text leaves the room the writer asks for. */
  lemma AcceptedExactly(base: string, input: string, cap: nat)
    ensures
      var start := if input != "" && input[0] == '/' then [] else Parts(base);
      Normalized(base, input, cap).Some? <==>
      && Loadable(start) && Within(|start|, Parts(input))
      && var stack := Resolve(base, input);
         stack.Some? && if stack.value == [] then cap >= 2 else |Render(stack.value)| + 2 <= cap
  {
    ResolveExactly(base, input);
    hide Parts, Within, Loadable, Resolve, Slashed;
  }
}
