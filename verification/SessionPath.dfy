/** Path normalisation as the session does it (src/auth/session.c): scanning by index, a segment array with a count, and
    a bounded output buffer. */
module SessionPath {
  import opened Words
  import opened Texts
  import opened PathStacks
  import opened PathLaws

  const PATH_MAX := 128

  // ----- scanning -----

  lemma PartsOfSlash(s: string, p: nat)
    requires p < |s| && s[p] == '/'
    ensures Parts(s[p..]) == Parts(s[p + 1..])
  {
    hide Parts;
    assert s[p..] == "" + "/" + s[p + 1..];
    PartsConcat("", s[p + 1..]);
    PartsOfName("");
  }

  /** A component ends at the next slash, or with the text. */
  lemma PartsOfComponent(s: string, p: nat, len: nat)
    requires 0 < len && p + len <= |s| && '/' !in s[p..p + len] && (p + len == |s| || s[p + len] == '/')
    ensures Parts(s[p..]) == [s[p..p + len]] + Parts(s[p + len..])
  {
    hide Parts;
    var c := s[p..p + len];
    PartsOfName(c);
    if p + len == |s| {
      assert s[p..] == c && s[p + len..] == "";
      PartsOfName("");
    } else {
      assert s[p..] == c + "/" + s[p + len + 1..];
      PartsConcat(c, s[p + len + 1..]);
      PartsOfSlash(s, p + len);
    }
  }

  method SkipSlashes(s: string, from: nat) returns (p: nat)
    requires from <= |s|
    ensures from <= p <= |s| && Parts(s[p..]) == Parts(s[from..]) && (p < |s| ==> s[p] != '/')
  {
    p := from;
    while p < |s| && s[p] == '/'
      invariant from <= p <= |s| && Parts(s[p..]) == Parts(s[from..])
    {
      PartsOfSlash(s, p);
      p := p + 1;
    }
  }

  method ComponentLength(s: string, p: nat) returns (len: nat)
    requires p < |s| && s[p] != '/'
    ensures 0 < len && p + len <= |s| && '/' !in s[p..p + len] && (p + len == |s| || s[p + len] == '/')
  {
    len := 0;
    while p + len < |s| && s[p + len] != '/'
      invariant p + len <= |s| && '/' !in s[p..p + len] && (len == 0 ==> s[p + len] != '/')
    {
      assert s[p..p + len + 1] == s[p..p + len] + [s[p + len]];
      len := len + 1;
    }
  }

  /** Every component before position `p` is in `done`. */
  ghost predicate AtPart(s: string, p: nat, done: seq<string>) {
    p <= |s| && Parts(s) == done + Parts(s[p..])
  }

  lemma AtFirstPart(s: string, p: nat)
    requires p <= |s| && Parts(s[p..]) == Parts(s[0..])
    ensures AtPart(s, p, [])
  {
    assert s[0..] == s && [] + Parts(s) == Parts(s);
  }

  /** Past a component and the slashes after it. */
  lemma NextPart(s: string, p: nat, len: nat, q: nat, done: seq<string>)
    requires AtPart(s, p, done) && 0 < len && p + len <= q <= |s| && '/' !in s[p..p + len]
    requires (p + len == |s| || s[p + len] == '/') && Parts(s[q..]) == Parts(s[p + len..])
    ensures AtPart(s, q, done + [s[p..p + len]]) && done + [s[p..p + len]] <= Parts(s)
  {
    PartsOfComponent(s, p, len);
    hide Parts;
    assert done + ([s[p..p + len]] + Parts(s[q..])) == done + [s[p..p + len]] + Parts(s[q..]);
  }

  lemma AtLastPart(s: string, done: seq<string>)
    requires AtPart(s, |s|, done)
    ensures done == Parts(s)
  {
  }

  // ----- the segment array -----

  /** push_component: an empty component is accepted and ignored. */
  method PushComponent(segments: array<string>, count: nat, c: string) returns (rc: int, next: nat)
    requires segments.Length == DEPTH_MAX && count <= DEPTH_MAX
    modifies segments
    ensures rc == (if c == "" || Push(old(segments[..count]), c).Some? then 0 else -1)
    ensures c == "" ==> next == count && segments[..] == old(segments[..])
    ensures c != "" && rc == 0 ==> next <= DEPTH_MAX && Some(segments[..next]) == Push(old(segments[..count]), c)
  {
    if c == "" { return 0, count; }
    if |c| >= NAME_MAX || count >= DEPTH_MAX { return -1, count; }
    segments[count] := c;
    assert segments[..count + 1] == old(segments[..count]) + [c];
    return 0, count + 1;
  }

  lemma LoadAppend(done: seq<string>, c: string)
    ensures Load(done + [c]) == match Load(done) case None => None case Some(s) => Push(s, c)
  {
    assert (done + [c])[..|done|] == done;
  }

  lemma WalkAppend(stack: seq<string>, done: seq<string>, c: string)
    ensures Walk(stack, done + [c]) == match Walk(stack, done) case None => None case Some(s) => Apply(s, c)
  {
    assert (done + [c])[..|done|] == done;
  }

  lemma {:induction false} LoadFails(done: seq<string>, parts: seq<string>)
    requires done <= parts && Load(done).None?
    ensures Load(parts).None?
  {
    if |done| < |parts| {
      LoadFails(done, parts[..|parts| - 1]);
    } else {
      assert done == parts;
    }
  }

  lemma {:induction false} WalkFails(stack: seq<string>, done: seq<string>, parts: seq<string>)
    requires done <= parts && Walk(stack, done).None?
    ensures Walk(stack, parts).None?
  {
    if |done| < |parts| {
      WalkFails(stack, done, parts[..|parts| - 1]);
    } else {
      assert done == parts;
    }
  }

  /** The first loop: the base directory, component by component. */
  method LoadBase(base: string, segments: array<string>) returns (rc: int, count: nat)
    requires segments.Length == DEPTH_MAX
    modifies segments
    ensures rc == (if Load(Parts(base)).Some? then 0 else -1)
    ensures rc == 0 ==> count <= DEPTH_MAX && Load(Parts(base)) == Some(segments[..count])
  {
    count := 0;
    var p := SkipSlashes(base, 0);
    ghost var done: seq<string> := [];
    AtFirstPart(base, p);
    assert Load(done) == Some([]) && segments[..0] == [];
    hide Parts, Load, Push, AtPart;
    while p < |base|
      invariant p <= |base| && count <= DEPTH_MAX && (p < |base| ==> base[p] != '/')
      invariant AtPart(base, p, done) && Load(done) == Some(segments[..count])
    {
      var len := ComponentLength(base, p);
      var c := base[p..p + len];
      var q := SkipSlashes(base, p + len);
      NextPart(base, p, len, q, done);
      LoadAppend(done, c);
      rc, count := PushComponent(segments, count, c);
      done := done + [c];
      if rc != 0 {
        LoadFails(done, Parts(base));
        return -1, 0;
      }
      p := q;
    }
    AtLastPart(base, done);
    return 0, count;
  }

  /** One component of the input. */
  method ApplyComponent(segments: array<string>, count: nat, c: string) returns (rc: int, next: nat)
    requires segments.Length == DEPTH_MAX && count <= DEPTH_MAX && c != ""
    modifies segments
    ensures rc == (if Apply(old(segments[..count]), c).Some? then 0 else -1)
    ensures rc == 0 ==> next <= DEPTH_MAX && Apply(old(segments[..count]), c) == Some(segments[..next])
  {
    rc, next := 0, count;
    if |c| == 1 && c[0] == '.' {
      assert c == ".";
    } else if |c| == 2 && c[0] == '.' && c[1] == '.' {
      assert c == "..";
      if count > 0 { next := count - 1; }
      assert segments[..next] == if count == 0 then [] else segments[..count][..count - 1];
    } else {
      rc, next := PushComponent(segments, count, c);
    }
  }

  /** The second loop: the input's components applied to the segments. */
  method WalkInput(input: string, segments: array<string>, from: nat) returns (rc: int, count: nat)
    requires segments.Length == DEPTH_MAX && from <= DEPTH_MAX
    modifies segments
    ensures rc == (if Walk(old(segments[..from]), Parts(input)).Some? then 0 else -1)
    ensures rc == 0 ==> count <= DEPTH_MAX && Walk(old(segments[..from]), Parts(input)) == Some(segments[..count])
  {
    count := from;
    ghost var stack := segments[..from];
    var p := SkipSlashes(input, 0);
    ghost var done: seq<string> := [];
    AtFirstPart(input, p);
    assert Walk(stack, done) == Some(stack);
    hide Parts, Walk, Apply, AtPart;
    while p < |input|
      invariant p <= |input| && count <= DEPTH_MAX && (p < |input| ==> input[p] != '/')
      invariant AtPart(input, p, done) && Walk(stack, done) == Some(segments[..count])
    {
      var len := ComponentLength(input, p);
      var c := input[p..p + len];
      var q := SkipSlashes(input, p + len);
      NextPart(input, p, len, q, done);
      WalkAppend(stack, done, c);
      rc, count := ApplyComponent(segments, count, c);
      done := done + [c];
      if rc != 0 {
        WalkFails(stack, done, Parts(input));
        return -1, 0;
      }
      p := q;
    }
    AtLastPart(input, done);
    return 0, count;
  }

  // ----- writing the result -----

  /** What is in the buffer before segment `i` is written. */
  function Written(stack: seq<string>, i: nat): string
    requires i <= |stack|
  {
    if i == |stack| && i > 0 then Slashed(stack) else Slashed(stack[..i]) + "/"
  }

  lemma {:induction false} SlashedPrefix(stack: seq<string>, i: nat)
    requires i <= |stack|
    ensures |Slashed(stack[..i])| <= |Slashed(stack)|
  {
    if i < |stack| {
      SlashedPrefix(stack[..|stack| - 1], i);
      assert stack[..|stack| - 1][..i] == stack[..i];
    } else {
      assert stack[..i] == stack;
    }
  }

  lemma WrittenStep(stack: seq<string>, i: nat)
    requires i < |stack|
    ensures Written(stack, i + 1) == Written(stack, i) + stack[i] + if i != |stack| - 1 then "/" else ""
    ensures |Written(stack, i) + stack[i]| <= |Render(stack)|
  {
    assert stack[..i + 1][..i] == stack[..i];
    SlashedPrefix(stack, i + 1);
    if i + 1 == |stack| { assert stack[..i + 1] == stack; }
  }

  method CopyText(out: array<char>, pos: nat, text: string)
    requires pos + |text| <= out.Length
    modifies out
    ensures out[..pos + |text|] == old(out[..pos]) + text
  {
    for j := 0 to |text|
      invariant out[..pos + j] == old(out[..pos]) + text[..j]
    {
      out[pos + j] := text[j];
      assert out[..pos + j + 1] == out[..pos + j] + [text[j]];
    }
    assert text[..|text|] == text;
  }

  lemma WrittenEnds(stack: seq<string>)
    ensures Written(stack, 0) == "/" && Written(stack, |stack|) == Render(stack)
  {
    assert stack[..0] == [];
  }

  /** One segment, and the slash before the next. */
  method WriteSegment(out: array<char>, pos: nat, text: string, last: bool) returns (next: nat)
    requires pos + |text| + 1 < out.Length
    modifies out
    ensures next < out.Length && out[..next] == old(out[..pos]) + text + if last then "" else "/"
    ensures last ==> next == pos + |text|
  {
    CopyText(out, pos, text);
    next := pos + |text|;
    if !last {
      out[next] := '/';
      next := next + 1;
      assert out[..next] == out[..next - 1] + "/";
    }
  }

  method WriteStack(stack: seq<string>, out: array<char>) returns (rc: int, len: nat)
    modifies out
    ensures rc == (if Fits(stack, out.Length) then 0 else -1)
    ensures rc == 0 ==> len == |Render(stack)| < out.Length && out[..len] == Render(stack) && out[len] == '\0'
  {
    var pos: nat := 0;
    WrittenEnds(stack);
    if pos < out.Length {
      out[pos] := '/';
      pos := pos + 1;
      assert out[..1] == "/";
    }
    if pos == 0 { return -1, 0; }
    hide Written, Slashed, Render;
    for i := 0 to |stack|
      invariant pos <= out.Length && out[..pos] == Written(stack, i)
      invariant i == |stack| > 0 ==> pos + 1 < out.Length
    {
      WrittenStep(stack, i);
      if pos + |stack[i]| + 1 >= out.Length { return -1, 0; }
      pos := WriteSegment(out, pos, stack[i], i == |stack| - 1);
    }
    if pos >= out.Length { return -1, 0; }
    out[pos] := '\0';
    return 0, pos;
  }

  /** normalize_path: the buffer holds the resolved path exactly when the specification gives one. */
  method NormalizePath(base: string, input: string, out: array<char>) returns (rc: int, len: nat)
    modifies out
    ensures rc == (if Normalized(base, input, out.Length).Some? then 0 else -1)
    ensures rc == 0 ==>
              len < out.Length && out[len] == '\0' && Normalized(base, input, out.Length) == Some(out[..len])
  {
    var segments := new string[DEPTH_MAX](_ => "");
    var count: nat := 0;
    hide Parts, Load, Walk;
    if !(input != "" && input[0] == '/') {
      rc, count := LoadBase(base, segments);
      if rc != 0 { return -1, 0; }
    } else {
      assert segments[..0] == [];
    }
    rc, count := WalkInput(input, segments, count);
    if rc != 0 { return -1, 0; }
    rc, len := WriteStack(segments[..count], out);
  }

  // ----- the session -----

  class Session {
    var cwd: string

    constructor ()
      ensures cwd == ""
    {
      cwd := "";
    }

    /** The working directory is unset or canonical. */
    ghost predicate Valid()
      reads this
    {
      cwd == "" || CanonicalPath(cwd)
    }

    /** session_set_cwd: moves only to directories, and only to canonical paths. `isDir` stands for the file system. */
    method SetCwd(path: string, isDir: string -> bool) returns (rc: int)
      requires Valid()
      modifies this
      ensures Valid()
      ensures
        var p := Normalized(old(cwd), path, PATH_MAX);
        if p.Some? && isDir(p.value) then rc == 0 && cwd == p.value && CanonicalPath(cwd)
        else rc == -1 && cwd == old(cwd)
    {
      var normalized := new char[PATH_MAX];
      var len;
      rc, len := NormalizePath(cwd, path, normalized);
      if rc != 0 { return -1; }
      UnsetIsRoot(cwd, path, PATH_MAX);
      hide Normalized, CanonicalPath;
      ResultCanonical(if cwd == "" then "/" else cwd, path, PATH_MAX) by { RootCanonical(); }
      var text := normalized[..len];
      if !isDir(text) { return -1; }
      cwd := text;
      return 0;
    }

    /** session_resolve_path. */
    method ResolvePath(input: string, out: array<char>) returns (rc: int, len: nat)
      requires Valid()
      modifies out
      ensures rc == (if Normalized(cwd, input, out.Length).Some? then 0 else -1)
      ensures rc == 0 ==>
                && len < out.Length && out[len] == '\0' && Normalized(cwd, input, out.Length) == Some(out[..len])
                && CanonicalPath(out[..len])
    {
      if out.Length == 0 { return -1, 0; }
      var base := if cwd == "" then "/" else cwd;
      UnsetIsRoot(cwd, input, out.Length);
      RootCanonical();
      hide Normalized, CanonicalPath;
      rc, len := NormalizePath(base, input, out);
      if rc == 0 { ResultCanonical(base, input, out.Length); }
    }
  }

  lemma RootCanonical()
    ensures CanonicalPath("/")
  {
  }

  /** An unset directory resolves like the root. */
  lemma UnsetIsRoot(cwd: string, input: string, cap: nat)
    ensures Normalized(cwd, input, cap) == Normalized(if cwd == "" then "/" else cwd, input, cap)
  {
    PartsConcat("", "");
    PartsOfName("");
    hide Parts;
    assert "" + "/" + "" == "/" && Parts("/") == Parts("");
  }
}
