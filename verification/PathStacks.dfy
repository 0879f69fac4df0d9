/** Paths as stacks of components: what resolving an input against a base directory means (src/auth/session.c). */
module PathStacks {
  import opened Words
  import opened Texts

  const NAME_MAX := 32
  const DEPTH_MAX := 32

  function NonEmpty(parts: seq<string>): seq<string> {
    if parts == [] then []
    else NonEmpty(parts[..|parts| - 1]) + if parts[|parts| - 1] == "" then [] else [parts[|parts| - 1]]
  }

  /** The components of a path: what lies between slashes, empty stretches ignored. */
  function Parts(path: string): seq<string> { NonEmpty(Split(path, '/')) }

  // ----- the stack -----

  function Push(stack: seq<string>, c: string): Option<seq<string>> {
    if |c| >= NAME_MAX || |stack| >= DEPTH_MAX then None else Some(stack + [c])
  }

  function Apply(stack: seq<string>, c: string): Option<seq<string>> {
    if c == "." then Some(stack)
    else if c == ".." then Some(if stack == [] then [] else stack[..|stack| - 1])
    else Push(stack, c)
  }

  /** The base directory is taken as it is: its components are pushed literally. */
  function Load(parts: seq<string>): Option<seq<string>> {
    if parts == [] then Some([])
    else
      var n := |parts| - 1;
      match Load(parts[..n]) case None => None case Some(s) => Push(s, parts[n])
  }

  /** The input's components applied one after the other. */
  function Walk(stack: seq<string>, parts: seq<string>): Option<seq<string>> {
    if parts == [] then Some(stack)
    else
      var n := |parts| - 1;
      match Walk(stack, parts[..n]) case None => None case Some(s) => Apply(s, parts[n])
  }

  predicate Absolute(input: string) { input != "" && input[0] == '/' }

  /** The stack an input resolves to from a base. */
  function Resolve(base: string, input: string): Option<seq<string>> {
    var start := if Absolute(input) then Some([]) else Load(Parts(base));
    if start.None? then None else Walk(start.value, Parts(input))
  }

  // ----- its text -----

  function Slashed(stack: seq<string>): string {
    if stack == [] then "" else Slashed(stack[..|stack| - 1]) + "/" + stack[|stack| - 1]
  }

  function Render(stack: seq<string>): string { if stack == [] then "/" else Slashed(stack) }

  /** The room the writer asks for: one byte more than path and terminator, except for the root. */
  predicate Fits(stack: seq<string>, cap: nat) { |Render(stack)| + (if stack == [] then 0 else 1) < cap }

  /** normalize_path: the resolved path, or a refusal. */
  function Normalized(base: string, input: string, cap: nat): Option<string> {
    var s := Resolve(base, input);
    if s.None? || !Fits(s.value, cap) then None else Some(Render(s.value))
  }

  // ----- what the stacks hold -----

  /** A name that can stand between two slashes. */
  predicate Literal(c: string) { 0 < |c| < NAME_MAX && '/' !in c }

  predicate CanonicalName(c: string) { Literal(c) && c != "." && c != ".." }

  predicate LiteralStack(s: seq<string>) { |s| <= DEPTH_MAX && forall i :: 0 <= i < |s| ==> Literal(s[i]) }

  predicate CanonicalStack(s: seq<string>) { |s| <= DEPTH_MAX && forall i :: 0 <= i < |s| ==> CanonicalName(s[i]) }

  /** A rooted path without empty, "." or ".." component. */
  predicate CanonicalPath(p: string) {
    p != "" && p[0] == '/' && (p == "/" || forall c :: c in Split(p[1..], '/') ==> CanonicalName(c))
  }

  /** What lies between slashes. */
  predicate AllNames(parts: seq<string>) { forall i :: 0 <= i < |parts| ==> parts[i] != "" && '/' !in parts[i] }

  // ----- components -----

  lemma {:induction false} NonEmptyConcat(a: seq<string>, b: seq<string>)
    ensures NonEmpty(a + b) == NonEmpty(a) + NonEmpty(b)
  {
    if b == [] {
      assert a + b == a;
    } else {
      var n := |b| - 1;
      NonEmptyConcat(a, b[..n]);
      assert (a + b)[..|a| + n] == a + b[..n] && (a + b)[|a| + n] == b[n];
    }
  }

  lemma NonEmptyOne(c: string)
    ensures NonEmpty([c]) == if c == "" then [] else [c]
  {
    assert [c][..0] == [];
  }

  lemma PartsConcat(a: string, b: string)
    ensures Parts(a + "/" + b) == Parts(a) + Parts(b)
  {
    hide Split, NonEmpty;
    SplitConcat(a, '/', b);
    NonEmptyConcat(Split(a, '/'), Split(b, '/'));
  }

  lemma PartsOfName(c: string)
    requires '/' !in c
    ensures Parts(c) == if c == "" then [] else [c]
  {
    SplitWhole(c, '/');
    NonEmptyOne(c);
  }

  lemma {:induction false} NonEmptyHas(parts: seq<string>)
    ensures forall c :: c in NonEmpty(parts) ==> c in parts && c != ""
  {
    if parts != [] { NonEmptyHas(parts[..|parts| - 1]); }
  }

  lemma PartsClean(path: string)
    ensures AllNames(Parts(path))
  {
    SplitChars(path, '/');
    NonEmptyHas(Split(path, '/'));
    hide Split, NonEmpty;
    forall i | 0 <= i < |Parts(path)| ensures Parts(path)[i] != "" && '/' !in Parts(path)[i] {
      assert Parts(path)[i] in NonEmpty(Split(path, '/'));
    }
  }

  // ----- canonical stacks stay canonical -----

  lemma {:induction false} LoadLiteral(parts: seq<string>)
    requires AllNames(parts)
    ensures Load(parts).Some? ==> Load(parts).value == parts && LiteralStack(parts)
  {
    if parts != [] {
      var n := |parts| - 1;
      assert parts[..n] + [parts[n]] == parts;
      LoadLiteral(parts[..n]);
    }
  }

  lemma {:induction false} LoadWhole(parts: seq<string>)
    requires LiteralStack(parts)
    ensures Load(parts) == Some(parts)
  {
    if parts != [] {
      var n := |parts| - 1;
      LoadWhole(parts[..n]);
      assert parts[..n] + [parts[n]] == parts;
    }
  }

  lemma {:induction false} WalkLiteral(stack: seq<string>, parts: seq<string>)
    requires LiteralStack(stack) && AllNames(parts)
    ensures Walk(stack, parts).Some? ==> LiteralStack(Walk(stack, parts).value)
    ensures Walk(stack, parts).Some? && CanonicalStack(stack) ==> CanonicalStack(Walk(stack, parts).value)
  {
    if parts != [] {
      WalkLiteral(stack, parts[..|parts| - 1]);
    }
  }

  lemma {:induction false} WalkCanonical(stack: seq<string>, parts: seq<string>)
    requires CanonicalStack(stack + parts)
    ensures Walk(stack, parts) == Some(stack + parts)
  {
    if parts != [] {
      var n := |parts| - 1;
      var all := stack + parts;
      assert all[|all| - 1] == parts[n];
      assert stack + parts[..n] == all[..|all| - 1];
      WalkCanonical(stack, parts[..n]);
      assert stack + parts[..n] + [parts[n]] == all;
    } else {
      assert stack + parts == stack;
    }
  }

  lemma {:induction false} WalkConcat(stack: seq<string>, a: seq<string>, b: seq<string>)
    requires Walk(stack, a).Some?
    ensures Walk(stack, a + b) == Walk(Walk(stack, a).value, b)
  {
    if b == [] {
      assert a + b == a;
    } else {
      var n := |b| - 1;
      WalkConcat(stack, a, b[..n]);
      assert (a + b)[..|a| + n] == a + b[..n] && (a + b)[|a| + n] == b[n];
    }
  }

  /** The components of a rendered stack are the stack. */
  lemma {:induction false} PartsOfSlashed(stack: seq<string>)
    requires LiteralStack(stack)
    ensures Parts(Slashed(stack)) == stack
  {
    hide Parts;
    if stack == [] {
      PartsOfName("");
    } else {
      var n := |stack| - 1;
      PartsOfSlashed(stack[..n]);
      PartsConcat(Slashed(stack[..n]), stack[n]);
      PartsOfName(stack[n]);
      assert stack[..n] + [stack[n]] == stack;
    }
  }

  lemma PartsOfRender(stack: seq<string>)
    requires LiteralStack(stack)
    ensures Parts(Render(stack)) == stack
  {
    hide Parts;
    PartsOfSlashed(stack);
    if stack == [] {
      PartsOfName("");
      PartsConcat("", "");
      assert "" + "/" + "" == "/";
    }
  }
}
