/** Resolution of a user-typed remote path against the shell's current remote
    directory. A resolved path is `""` for the root, otherwise `/` followed by
    its segments joined with `/`. The routine works on a stack of segments:
    start from the current directory's segments (or from none when the typed
    path is absolute), then for each typed segment pop on `..`, skip `.` and
    empty segments, push anything else. */
module PathResolver {
  import opened Strings

  /** The separator of remote paths. */
  const Sep: char := '/'
  /** The Windows-style separator a user may type; it is read as `Sep`. */
  const BackSep: char := '\\'

  /** A segment that can stay in a resolved path. */
  predicate IsSegment(s: string)
  {
    s != "" && s != "." && s != ".." && Sep !in s
  }

  predicate AllSegments(st: seq<string>)
  {
    forall i :: 0 <= i < |st| ==> IsSegment(st[i])
  }

  /** Segments no one of which holds the separator. */
  predicate SepFree(st: seq<string>)
  {
    forall i :: 0 <= i < |st| ==> Sep !in st[i]
  }

  /** The segment stack a path stands for: everything after its first `/`-separated part.
      A path without `/` has none, so its text is dropped. */
  function Segments(p: string): (st: seq<string>)
    ensures SepFree(st)
    ensures st == [] <==> Sep !in p
  {
    SplitSingle(p, Sep);
    Split(p, Sep)[1..]
  }

  /** Normal form of a current directory: the root `""`, or a leading `/` with
      no empty, `.` or `..` segments (hence no `//` and no trailing `/`). */
  predicate IsNormal(p: string)
  {
    p == "" || (p[0] == Sep && AllSegments(Segments(p)))
  }

  /** One typed segment applied to the stack. `..` at the root is absorbed. */
  function Step(st: seq<string>, s: string): (r: seq<string>)
    ensures s == ".." ==> r <= st && |r| == (if st == [] then 0 else |st| - 1)
    ensures s != ".." ==> st <= r && |r| <= |st| + 1
    ensures |r| > |st| <==> s != "" && s != "." && s != ".."
    ensures |r| > |st| ==> r[|st|] == s
  {
    if s == ".." then (if st != [] then st[..|st| - 1] else st)
    else if s != "" && s != "." then st + [s]
    else st
  }

  /** The typed segments applied left to right. */
  function Walk(st: seq<string>, segs: seq<string>): (r: seq<string>)
    ensures |st| - |segs| <= |r| <= |st| + |segs|
    decreases |segs|
  {
    if segs == [] then st
    else
      Step(Walk(st, segs[..|segs| - 1]), segs[|segs| - 1])
  }

  /** The path a stack stands for. */
  function Render(st: seq<string>): (p: string)
    ensures p == "" <==> st == []
    ensures p != "" ==> p[0] == Sep
  {
    if st == [] then "" else [Sep] + Join(st, Sep)
  }

  predicate IsAbsolute(t: string)
  {
    t != "" && t[0] == Sep
  }

  /** The stack resolution starts from: empty for an absolute path, else the current directory's. */
  function Start(fromPath: string, t: string): (st: seq<string>)
    ensures SepFree(st)
    ensures IsAbsolute(t) || Sep !in fromPath ==> st == []
    ensures IsNormal(fromPath) ==> AllSegments(st)
  {
    if IsAbsolute(t) then [] else Segments(fromPath)
  }

  /** The resolved path of `toPath` typed in directory `fromPath`. Every input has one,
      and it is either the root or begins with `/`. */
  function Resolve(fromPath: string, toPath: string): (r: string)
    ensures r == "" || r[0] == Sep
  {
    var t := Replace(toPath, BackSep, Sep);
    Render(Walk(Start(fromPath, t), Split(t, Sep)))
  }

  /** The resolver as the shell runs it: a loop that pops and pushes on a list of segments. */
  method ChangePath(fromPath: string, toPath: string) returns (r: string)
    ensures r == Resolve(fromPath, toPath)
  {
    var t := Replace(toPath, BackSep, Sep);
    var splitPath: seq<string>;
    if |t| > 0 && t[0] == Sep {
      splitPath := [];
    } else {
      splitPath := Split(fromPath, Sep)[1..];
    }
    var segs := Split(t, Sep);
    ghost var start := splitPath;
    for i := 0 to |segs|
      invariant splitPath == Walk(start, segs[..i])
    {
      var s := segs[i];
      assert segs[..i + 1][..i] == segs[..i];
      if s == ".." {
        if |splitPath| > 0 {
          splitPath := splitPath[..|splitPath| - 1];
        }
      } else if s != "" && s != "." {
        splitPath := splitPath + [s];
      }
    }
    assert segs[..|segs|] == segs;
    if |splitPath| > 0 {
      JoinLeadingEmpty(splitPath, Sep);
      splitPath := [""] + splitPath;
    }
    r := Join(splitPath, Sep);
  }

  // ---------------------------------------------------------------------------
  // The stack walk

  /** Walking two runs of segments is walking the first, then the second. */
  lemma {:induction false} WalkAppend(st: seq<string>, a: seq<string>, b: seq<string>)
    ensures Walk(st, a + b) == Walk(Walk(st, a), b)
    decreases |b|
  {
    if b == [] {
      assert a + b == a;
    } else {
      WalkAppend(st, a, b[..|b| - 1]);
      assert (a + b)[..|a + b| - 1] == a + b[..|b| - 1];
    }
  }

  /** One separator-free typed segment never leaves an empty, `.` or `..` segment on a proper stack. */
  lemma StepKeepsSegments(st: seq<string>, s: string)
    requires AllSegments(st) && Sep !in s
    ensures AllSegments(Step(st, s))
  {
    var st' := Step(st, s);
    if s == ".." && st != [] {
      assert forall i :: 0 <= i < |st'| ==> st'[i] == st[i];
    }
  }

  /** Separator-free typed segments never leave an empty, `.` or `..` segment on a proper stack. */
  lemma {:induction false} WalkKeepsSegments(st: seq<string>, segs: seq<string>)
    requires AllSegments(st)
    requires forall i :: 0 <= i < |segs| ==> Sep !in segs[i]
    ensures AllSegments(Walk(st, segs))
    decreases |segs|
  {
    if segs != [] {
      WalkKeepsSegments(st, segs[..|segs| - 1]);
      StepKeepsSegments(Walk(st, segs[..|segs| - 1]), segs[|segs| - 1]);
    }
  }

  /** Every segment left on the stack was on it at the start or was typed. */
  lemma {:induction false} WalkDrawsFromInputs(st: seq<string>, segs: seq<string>)
    ensures forall i :: 0 <= i < |Walk(st, segs)| ==> Walk(st, segs)[i] in st || Walk(st, segs)[i] in segs
    decreases |segs|
  {
    if segs != [] {
      var prefix, s := segs[..|segs| - 1], segs[|segs| - 1];
      WalkDrawsFromInputs(st, prefix);
      var before := Walk(st, prefix);
      var r := Step(before, s);
      forall i | 0 <= i < |r| ensures r[i] in st || r[i] in segs {
        if i < |before| {
          assert r[i] == before[i];
          assert before[i] in prefix ==> before[i] in segs;
        } else {
          assert r[i] == s;
        }
      }
    }
  }

  /** Proper segments are all pushed, in order. */
  lemma {:induction false} WalkPushes(st: seq<string>, xs: seq<string>)
    requires AllSegments(xs)
    ensures Walk(st, xs) == st + xs
    decreases |xs|
  {
    if xs != [] {
      WalkPushes(st, xs[..|xs| - 1]);
      assert st + xs[..|xs| - 1] + [xs[|xs| - 1]] == st + xs;
    }
  }

  // ---------------------------------------------------------------------------
  // Paths and stacks

  /** A proper stack is read back from the path it renders to. */
  lemma SegmentsOfRender(st: seq<string>)
    requires SepFree(st)
    ensures Segments(Render(st)) == st
  {
    if st != [] {
      var p := Render(st);
      assert p[1..] == Join(st, Sep);
      SplitJoin(st, Sep);
    }
  }

  /** The root and every `/`-led path render back from their own segments. */
  lemma RenderOfSegments(p: string)
    requires p == "" || p[0] == Sep
    ensures Render(Segments(p)) == p
    ensures Segments(p) == [] <==> p == ""
  {
    if p != "" {
      assert Segments(p) == Split(p[1..], Sep);
      JoinSplit(p[1..], Sep);
      assert [p[0]] + p[1..] == p;
    }
  }

  /** Every proper stack renders to a path in normal form. */
  lemma RenderIsNormal(st: seq<string>)
    requires AllSegments(st)
    ensures IsNormal(Render(st))
  {
    SegmentsOfRender(st);
  }

  /** A normal path ends in a segment, never in `/`. */
  lemma NormalNoTrailingSep(p: string)
    requires IsNormal(p) && p != ""
    ensures p[|p| - 1] != Sep
  {
    RenderOfSegments(p);
    var st := Segments(p);
    JoinLast(st, Sep);
    assert p[|p| - 1] == Join(st, Sep)[|Join(st, Sep)| - 1];
  }

  /** A path built from proper segments does not begin with `/`. */
  lemma JoinStartsWithSegment(xs: seq<string>)
    requires |xs| >= 1 && AllSegments(xs)
    ensures !IsAbsolute(Join(xs, Sep))
  {
    assert xs[0] != "" && Sep !in xs[0];
    JoinHead(xs, Sep);
    assert xs[0][0] in xs[0];
  }

  /** Pushing segments onto a stack appends them, `/`-joined, to its path. */
  lemma RenderAppend(st: seq<string>, xs: seq<string>)
    requires |xs| >= 1
    ensures Render(st + xs) == Render(st) + [Sep] + Join(xs, Sep)
  {
    if st == [] {
      assert st + xs == xs;
    } else {
      JoinConcatLed(st, xs, Sep);
    }
  }

  /** A typed path with no separator of either kind is one segment, applied to the current stack. */
  lemma ResolveOneSegment(p: string, s: string)
    requires Sep !in s && BackSep !in s
    ensures Resolve(p, s) == Render(Step(Segments(p), s))
  {
    ReplaceAbsent(s, BackSep, Sep);
    SplitNoSep(s, Sep);
    assert Walk(Segments(p), [s]) == Step(Walk(Segments(p), []), s);
  }

  // ---------------------------------------------------------------------------
  // Properties of resolution

  /** A backslash typed by the user acts exactly like `/`. */
  lemma ResolveBackslash(p: string, r: string)
    ensures Resolve(p, r) == Resolve(p, Replace(r, BackSep, Sep))
  {
    ReplaceAbsent(Replace(r, BackSep, Sep), BackSep, Sep);
  }

  /** An absolute typed path does not depend on the current directory. */
  lemma ResolveAbsolute(p1: string, p2: string, r: string)
    requires IsAbsolute(Replace(r, BackSep, Sep))
    ensures Resolve(p1, r) == Resolve(p2, r)
  {
  }

  /** `/` resolves to the root from anywhere. */
  lemma ResolveRoot(p: string)
    ensures Resolve(p, "/") == ""
  {
    assert Replace("/", BackSep, Sep) == "/";
    assert Split("/", Sep) == ["", ""];
    assert Walk([], ["", ""]) == Step(Walk([], [""]), "");
  }

  /** `.` and the empty path leave any `/`-led path, and the root, as they are. */
  lemma ResolveDot(p: string)
    requires p == "" || p[0] == Sep
    ensures Resolve(p, ".") == p
    ensures Resolve(p, "") == p
  {
    ResolveOneSegment(p, ".");
    ResolveOneSegment(p, "");
    RenderOfSegments(p);
  }

  /** Resolving a result again with `.` changes nothing. */
  lemma ResolveIdempotent(p: string, r: string)
    ensures Resolve(Resolve(p, r), ".") == Resolve(p, r)
  {
    ResolveDot(Resolve(p, r));
  }

  /** A typed `../` prefix splits off as one `..` segment. */
  lemma ParentPrefixSplits(r: string)
    ensures Replace("../" + r, BackSep, Sep) == "../" + Replace(r, BackSep, Sep)
    ensures Split(Replace("../" + r, BackSep, Sep), Sep) == [".."] + Split(Replace(r, BackSep, Sep), Sep)
  {
    var t := Replace(r, BackSep, Sep);
    ReplaceConcat("../", r, BackSep, Sep);
    assert Replace("../", BackSep, Sep) == "../";
    assert "../" + t == ".." + [Sep] + t;
    SplitAfterPart("..", t, Sep);
  }

  /** A leading `..` is one step, and the walk continues from there. */
  lemma WalkParentFirst(st: seq<string>, segs: seq<string>)
    ensures Walk(st, [".."] + segs) == Walk(Step(st, ".."), segs)
  {
    WalkAppend(st, [".."], segs);
    assert Walk(st, [".."]) == Step(Walk(st, []), "..");
  }

  /** `..` at the root stays at the root. */
  lemma ResolveParentOfRoot()
    ensures Resolve("", "..") == ""
  {
    ResolveOneSegment("", "..");
    assert Segments("") == [];
  }

  /** Leading `..` at the root is absorbed: what follows resolves as if it were typed alone. */
  lemma ResolveParentAtRootAbsorbed(r: string)
    ensures Resolve("", "../" + r) == Resolve("", r)
  {
    ParentPrefixSplits(r);
    assert Segments("") == [];
    WalkParentFirst([], Split(Replace(r, BackSep, Sep), Sep));
  }

  /** A typed `../` prefix never makes a path absolute. */
  lemma ParentPrefixNotAbsolute(r: string)
    ensures !IsAbsolute(Replace("../" + r, BackSep, Sep))
  {
    ParentPrefixSplits(r);
  }

  /** A typed path led by `/` is the rest of it resolved from the root. */
  lemma ResolveLeadingSep(p: string, r: string)
    ensures Resolve(p, "/" + r) == Resolve("", r)
  {
    var t := Replace(r, BackSep, Sep);
    ReplaceConcat("/", r, BackSep, Sep);
    assert Replace("/", BackSep, Sep) == "/";
    assert Split("/" + t, Sep) == [""] + Split(t, Sep) by {
      assert ("/" + t)[1..] == t;
    }
    assert Segments("") == [];
    WalkAppend([], [""], Split(t, Sep));
    assert Walk([], [""]) == Step(Walk([], []), "");
  }

  /** A relative typed path resolved in the path of a separator-free stack walks from that stack. */
  lemma ResolveFromRendered(up: seq<string>, r: string)
    requires SepFree(up)
    requires !IsAbsolute(Replace(r, BackSep, Sep))
    ensures Resolve(Render(up), r) == Render(Walk(up, Split(Replace(r, BackSep, Sep), Sep)))
  {
    SegmentsOfRender(up);
  }

  /** A typed `../r` walks the rest of the path from the parent's stack. */
  lemma ResolveParentPrefix(p: string, r: string)
    ensures Resolve(p, "../" + r) == Render(Walk(Step(Segments(p), ".."), Split(Replace(r, BackSep, Sep), Sep)))
  {
    ParentPrefixSplits(r);
    WalkParentFirst(Segments(p), Split(Replace(r, BackSep, Sep), Sep));
  }

  /** A leading `..` in a relative path moves to the parent, and the rest is resolved from there. */
  lemma ResolveParentThen(p: string, r: string)
    requires !IsAbsolute(Replace(r, BackSep, Sep))
    ensures Resolve(p, "../" + r) == Resolve(Resolve(p, ".."), r)
  {
    var st := Segments(p);
    var up := Step(st, "..");
    assert SepFree(up) by {
      assert forall i :: 0 <= i < |up| ==> up[i] == st[i];
    }
    ResolveParentPrefix(p, r);
    ResolveFromRendered(up, r);
    ResolveOneSegment(p, "..");
  }

  /** The result of resolving against a normal directory is normal. */
  lemma ResolveNormal(p: string, r: string)
    requires IsNormal(p)
    ensures IsNormal(Resolve(p, r))
  {
    var t := Replace(r, BackSep, Sep);
    assert p == "" ==> Segments(p) == [];
    WalkKeepsSegments(Start(p, t), Split(t, Sep));
    RenderIsNormal(Walk(Start(p, t), Split(t, Sep)));
  }

  /** A relative path of proper segments is appended to a normal directory. */
  lemma ResolveAppendPath(p: string, xs: seq<string>)
    requires IsNormal(p)
    requires |xs| >= 1 && AllSegments(xs)
    requires BackSep !in Join(xs, Sep)
    ensures Resolve(p, Join(xs, Sep)) == p + [Sep] + Join(xs, Sep)
  {
    var rel := Join(xs, Sep);
    var st := Segments(p);
    ReplaceAbsent(rel, BackSep, Sep);
    JoinStartsWithSegment(xs);
    assert Resolve(p, rel) == Render(Walk(st, Split(rel, Sep)));
    SplitJoin(xs, Sep);
    WalkPushes(st, xs);
    RenderOfSegments(p);
    RenderAppend(st, xs);
  }

  /** A single proper segment is appended to a normal directory. */
  lemma ResolveAppend(p: string, x: string)
    requires IsNormal(p) && IsSegment(x) && BackSep !in x
    ensures Resolve(p, x) == p + [Sep] + x
  {
    ResolveAppendPath(p, [x]);
  }

  /** Going into a segment and back up with `..` returns to the directory. */
  lemma ResolveAppendThenParent(p: string, x: string)
    requires IsNormal(p) && IsSegment(x) && BackSep !in x
    ensures Resolve(Resolve(p, x), "..") == p
  {
    var st := Segments(p);
    assert AllSegments(st) by {
      assert p == "" ==> st == [];
    }
    StepKeepsSegments(st, x);
    assert Step(st, x) == st + [x];
    calc {
      Resolve(Resolve(p, x), "..");
    == { ResolveOneSegment(p, x); }
      Resolve(Render(st + [x]), "..");
    == { ResolveOneSegment(Render(st + [x]), ".."); }
      Render(Step(Segments(Render(st + [x])), ".."));
    == { SegmentsOfRender(st + [x]); }
      Render(Step(st + [x], ".."));
    == { assert (st + [x])[..|st|] == st; }
      Render(st);
    == { RenderOfSegments(p); }
      p;
    }
  }

  // ---------------------------------------------------------------------------
  // Worked examples

  /** `x` typed at the root enters `/x`. */
  lemma ExampleEnterFromRoot()
    ensures Resolve("", "x") == "/x"
  {
    ResolveAppend("", "x");
  }

  /** `/a` is in normal form. */
  lemma ExampleNormal()
    ensures IsNormal("/a")
  {
    RenderIsNormal(["a"]);
    assert Render(["a"]) == "/a";
  }

  /** `..` in `/a/b` goes to `/a`. */
  lemma ExampleParent()
    ensures Resolve("/a/b", "..") == "/a"
  {
    ExampleNormal();
    ResolveAppend("/a", "b");
    assert "/a" + [Sep] + "b" == "/a/b";
    ResolveAppendThenParent("/a", "b");
  }

  /** `../../x` in `/a` goes to `/x`: the second `..` is absorbed at the root. */
  lemma ExampleParentPastRoot()
    ensures Resolve("/a", "../../x") == "/x"
  {
    assert "../" + "../x" == "../../x";
    assert "../" + "x" == "../x";
    calc {
      Resolve("/a", "../../x");
    == { ExampleNormal(); ParentPrefixNotAbsolute("x"); ResolveParentThen("/a", "../x"); }
      Resolve(Resolve("/a", ".."), "../x");
    == { ExampleUpToRoot(); }
      Resolve("", "../x");
    == { ResolveParentAtRootAbsorbed("x"); }
      Resolve("", "x");
    == { ExampleEnterFromRoot(); }
      "/x";
    }
  }

  /** `..` in `/a` goes to the root. */
  lemma ExampleUpToRoot()
    ensures Resolve("/a", "..") == ""
  {
    ResolveAppend("", "a");
    assert "" + [Sep] + "a" == "/a";
    ResolveAppendThenParent("", "a");
  }

  /** `/c` in `/a/b` goes to `/c`. */
  lemma ExampleAbsolute()
    ensures Resolve("/a/b", "/c") == "/c"
  {
    ResolveLeadingSep("/a/b", "c");
    ResolveAppend("", "c");
  }

  /** `.` in `/a` stays in `/a`. */
  lemma ExampleDot()
    ensures Resolve("/a", ".") == "/a"
  {
    ResolveDot("/a");
  }

  /** The shell's current directory after `cd` to each of `paths` in turn, from the root. */
  function AfterCds(paths: seq<string>): (p: string)
    ensures paths == [] ==> p == ""
    ensures p == "" || p[0] == Sep
    ensures paths != [] && IsAbsolute(Replace(paths[|paths| - 1], BackSep, Sep)) ==>
              p == Resolve("", paths[|paths| - 1])
    decreases |paths|
  {
    if paths == [] then ""
    else
      var last := paths[|paths| - 1];
      Resolve(AfterCds(paths[..|paths| - 1]), last)
  }

  /** However many `cd`s run, the current directory stays normal. */
  lemma {:induction false} AfterCdsIsNormal(paths: seq<string>)
    ensures IsNormal(AfterCds(paths))
    decreases |paths|
  {
    if paths != [] {
      AfterCdsIsNormal(paths[..|paths| - 1]);
      ResolveNormal(AfterCds(paths[..|paths| - 1]), paths[|paths| - 1]);
    }
  }
}
