/**
 * The path helpers the upload controller relies on, with Unix semantics:
 * the only directory separator is '/', a path is rooted when it starts with
 * '/', and canonicalisation is purely lexical (symbolic links are not
 * followed, the file system is not consulted).
 *
 *   FileName          -- Path.GetFileName: the last segment of a path
 *   Combine           -- Path.Combine: join two paths, a rooted second one wins
 *   Canonical         -- Path.GetFullPath: make absolute, drop "", "." and
 *                        resolve ".." segments, keep a trailing separator
 *   StartsWithIgnoreCase -- string.StartsWith(_, StringComparison.OrdinalIgnoreCase)
 */
module UnixPath {
  import opened Wrappers

  predicate IsRooted(p: string) {
    |p| > 0 && p[0] == '/'
  }

  /** An absolute path, such as the process's current directory. */
  type AbsPath = p: string | IsRooted(p) witness "/"

  // ---------------------------------------------------------------------------
  // Path.GetFileName
  // ---------------------------------------------------------------------------

  /** The characters after the last '/' of `p` (all of `p` when it has none). */
  function FileName(p: string): (r: string)
    ensures '/' !in r
    decreases |p|
  {
    if p == [] then []
    else if p[|p| - 1] == '/' then []
    else FileName(p[..|p| - 1]) + [p[|p| - 1]]
  }

  /**
   * FileName is the longest separator-free suffix: it ends `p`, and the
   * character before it, if any, is a separator.
   */
  lemma {:induction false} FileNameIsLastSegment(p: string)
    ensures var r := FileName(p);
            |r| <= |p| && p[|p| - |r|..] == r && (|r| < |p| ==> p[|p| - |r| - 1] == '/')
    decreases |p|
  {
    if p != [] && p[|p| - 1] != '/' {
      var init := p[..|p| - 1];
      FileNameIsLastSegment(init);
      var r' := FileName(init);
      assert p[|p| - |r'| - 1..] == init[|init| - |r'|..] + [p[|p| - 1]];
    }
  }

  /** A name without a separator is its own last segment. */
  lemma FileNameOfPlainName(p: string)
    requires '/' !in p
    ensures FileName(p) == p
  {
    FileNameIsLastSegment(p);
    assert forall i :: 0 <= i < |p| ==> p[i] != '/';
  }

  /** Whatever directories precede the last separator never reach the result. */
  lemma {:induction false} FileNameDropsDirectories(dir: string, name: string)
    ensures FileName(dir + "/" + name) == FileName(name)
    decreases |name|
  {
    var p := dir + "/" + name;
    if name == [] {
      assert p[|p| - 1] == '/';
    } else {
      assert p[..|p| - 1] == dir + "/" + name[..|name| - 1];
      assert p[|p| - 1] == name[|name| - 1];
      FileNameDropsDirectories(dir, name[..|name| - 1]);
    }
  }

  // ---------------------------------------------------------------------------
  // Path.Combine
  // ---------------------------------------------------------------------------

  /**
   * Joins `a` and `b` with one separator. An empty side yields the other side,
   * and a rooted `b` replaces `a` altogether.
   */
  function Combine(a: string, b: string): (r: string)
    ensures b == [] ==> r == a
    ensures IsRooted(b) || a == [] ==> r == b
    ensures IsRooted(r) <==> IsRooted(a) || IsRooted(b)
  {
    if a == [] then b
    else if b == [] then a
    else if IsRooted(b) then b
    else if a[|a| - 1] == '/' then a + b
    else a + "/" + b
  }

  /** A relative `b` is appended to `a`: the result starts with `a` and ends with `b`. */
  lemma CombineExtends(a: string, b: string)
    ensures var r := Combine(a, b);
            && (!IsRooted(b) ==> |a| <= |r| && r[..|a|] == a)
            && |b| <= |r| && r[|r| - |b|..] == b
  {
  }

  // ---------------------------------------------------------------------------
  // Segments
  // ---------------------------------------------------------------------------

  /** Splits `p` at every '/'; "/a//b/" gives ["", "a", "", "b", ""]. */
  function Split(p: string): (r: seq<string>)
    ensures |r| >= 1
    decreases |p|
  {
    if p == [] then [[]]
    else
      var rest := Split(p[1..]);
      if p[0] == '/' then [[]] + rest
      else [[p[0]] + rest[0]] + rest[1..]
  }

  /** Inverse of Split on a non-empty list of segments. */
  function Join(segs: seq<string>): (p: string)
    requires |segs| >= 1
  {
    if |segs| == 1 then segs[0] else segs[0] + "/" + Join(segs[1..])
  }

  /** A segment that names an entry: not empty, not "." and not "..". */
  predicate IsName(s: string) {
    s != [] && s != "." && s != ".."
  }

  /** One step of lexical resolution over a stack of resolved names. */
  function Step(stack: seq<string>, seg: string): (next: seq<string>) {
    if seg == [] || seg == "." then stack
    else if seg == ".." then (if stack == [] then [] else stack[..|stack| - 1])
    else stack + [seg]
  }

  /**
   * Resolves `segs` on top of `stack`, left to right: empty and "." segments
   * vanish, ".." drops the last name (and stays at the root when there is none).
   */
  function ResolveFrom(stack: seq<string>, segs: seq<string>): (r: seq<string>)
    decreases |segs|
  {
    if segs == [] then stack else ResolveFrom(Step(stack, segs[0]), segs[1..])
  }

  /** The canonical spelling of a resolved stack; `trailing` keeps a final '/'. */
  function Render(stack: seq<string>, trailing: bool): (r: string)
    ensures IsRooted(r)
  {
    if stack == [] then "/" else "/" + Join(stack) + (if trailing then "/" else "")
  }

  // ---------------------------------------------------------------------------
  // Path.GetFullPath
  // ---------------------------------------------------------------------------

  /** A relative path is taken relative to the process's current directory. */
  function Absolute(p: string, cwd: AbsPath): (r: string)
    requires p != []
    ensures IsRooted(r)
    ensures IsRooted(p) ==> r == p
  {
    if IsRooted(p) then p else Combine(cwd, p)
  }

  function Segments(p: string): (segs: seq<string>) {
    ResolveFrom([], Split(p))
  }

  /**
   * The lexical full path of a non-empty `p` (the runtime throws on an empty
   * one; the controller never passes one).
   */
  function Canonical(p: string, cwd: AbsPath): (r: string)
    requires p != []
    ensures IsRooted(r)
  {
    var a := Absolute(p, cwd);
    Render(Segments(a), a[|a| - 1] == '/')
  }

  /** GetFullPath raises an ArgumentException (here None) on a NUL character. */
  function FullPath(p: string, cwd: AbsPath): (full: Option<string>)
    requires p != []
  {
    if '\0' in p then None else Some(Canonical(p, cwd))
  }

  // ---------------------------------------------------------------------------
  // string.StartsWith(_, StringComparison.OrdinalIgnoreCase)
  // ---------------------------------------------------------------------------

  /** Ordinal upper-casing, restricted to ASCII letters. */
  function ToUpperAscii(c: char): (u: char) {
    if 'a' <= c <= 'z' then (c as int - 32) as char else c
  }

  /** `s` begins with `prefix`, character by character, ignoring ASCII case. */
  predicate StartsWithIgnoreCase(s: string, prefix: string) {
    |prefix| <= |s| &&
    forall i :: 0 <= i < |prefix| ==> ToUpperAscii(s[i]) == ToUpperAscii(prefix[i])
  }

  // ---------------------------------------------------------------------------
  // Lemmas about splitting, joining and resolving
  // ---------------------------------------------------------------------------

  lemma {:induction false} SplitNoSlash(p: string)
    requires '/' !in p
    ensures Split(p) == [p]
    decreases |p|
  {
    if p != [] {
      SplitNoSlash(p[1..]);
      assert [p[0]] + p[1..] == p;
    }
  }

  /** A separator splits the segment list in two. */
  lemma {:induction false} SplitConcat(x: string, y: string)
    ensures Split(x + "/" + y) == Split(x) + Split(y)
    decreases |x|
  {
    var p := x + "/" + y;
    if x == [] {
      assert p[1..] == y;
    } else {
      assert p[0] == x[0];
      assert p[1..] == x[1..] + "/" + y;
      SplitConcat(x[1..], y);
    }
  }

  lemma {:induction false} SplitJoin(segs: seq<string>)
    requires |segs| >= 1
    requires forall x :: x in segs ==> '/' !in x
    ensures Split(Join(segs)) == segs
    decreases |segs|
  {
    SplitNoSlash(segs[0]);
    if |segs| > 1 {
      SplitConcat(segs[0], Join(segs[1..]));
      SplitJoin(segs[1..]);
      assert [segs[0]] + segs[1..] == segs;
    }
  }

  lemma {:induction false} JoinAppend(segs: seq<string>, s: string)
    requires |segs| >= 1
    ensures Join(segs + [s]) == Join(segs) + "/" + s
    decreases |segs|
  {
    if |segs| > 1 {
      assert (segs + [s])[1..] == segs[1..] + [s];
      JoinAppend(segs[1..], s);
    }
  }

  /** The last character of a join of names is the last name's last character. */
  lemma {:induction false} JoinLast(segs: seq<string>)
    requires |segs| >= 1 && segs[|segs| - 1] != []
    ensures |Join(segs)| >= 1
    ensures Join(segs)[|Join(segs)| - 1] == segs[|segs| - 1][|segs[|segs| - 1]| - 1]
    decreases |segs|
  {
    if |segs| > 1 {
      JoinLast(segs[1..]);
    }
  }

  lemma {:induction false} ResolveFromAppend(stack: seq<string>, xs: seq<string>, ys: seq<string>)
    ensures ResolveFrom(stack, xs + ys) == ResolveFrom(ResolveFrom(stack, xs), ys)
    decreases |xs|
  {
    if xs != [] {
      assert (xs + ys)[0] == xs[0];
      assert (xs + ys)[1..] == xs[1..] + ys;
      ResolveFromAppend(Step(stack, xs[0]), xs[1..], ys);
    } else {
      assert xs + ys == ys;
    }
  }

  /** Names are pushed unchanged: resolving names only appends them. */
  lemma {:induction false} ResolveNames(stack: seq<string>, names: seq<string>)
    requires forall x :: x in names ==> IsName(x)
    ensures ResolveFrom(stack, names) == stack + names
    decreases |names|
  {
    if names != [] {
      assert names[0] in names;
      ResolveNames(stack + [names[0]], names[1..]);
      assert stack + [names[0]] + names[1..] == stack + names;
    }
  }

  /** "/" followed by the joined names splits back into "" and those names. */
  lemma SplitRooted(stack: seq<string>)
    requires stack != []
    requires forall x :: x in stack ==> '/' !in x
    ensures Split("/" + Join(stack)) == [[]] + stack
  {
    SplitJoin(stack);
    assert "/" + Join(stack) == [] + "/" + Join(stack);
    SplitConcat([], Join(stack));
  }

  /** The segments of a canonical path are exactly the stack it renders. */
  lemma SegmentsOfRender(stack: seq<string>, trailing: bool)
    requires forall x :: x in stack ==> IsName(x) && '/' !in x
    ensures Segments(Render(stack, trailing)) == stack
  {
    if stack == [] {
      assert Render(stack, trailing) == [] + "/" + [];
      SplitConcat([], []);
      SplitNoSlash([]);
      assert Split(Render(stack, trailing)) == [[], []];
      assert ResolveFrom([], [[], []]) == ResolveFrom([], [[]]);
    } else {
      SplitRooted(stack);
      ResolveNames([], stack);
      ResolveFromAppend([], [[]], stack);
      var body := "/" + Join(stack);
      if trailing {
        assert Render(stack, trailing) == body + "/" + [];
        SplitConcat(body, []);
        ResolveFromAppend([], [[]] + stack, [[]]);
      } else {
        assert Render(stack, trailing) == body;
      }
    }
  }

  /** No segment contains the separator. */
  lemma {:induction false} SplitSlashFree(p: string)
    ensures forall x :: x in Split(p) ==> '/' !in x
    decreases |p|
  {
    if p != [] {
      SplitSlashFree(p[1..]);
    }
  }

  /** Resolution keeps what was on the stack and pushes only names. */
  lemma {:induction false} ResolveFromKeeps(stack: seq<string>, segs: seq<string>)
    ensures forall x :: x in ResolveFrom(stack, segs) ==> x in stack || (x in segs && IsName(x))
    decreases |segs|
  {
    if segs != [] {
      ResolveFromKeeps(Step(stack, segs[0]), segs[1..]);
      forall x | x in Step(stack, segs[0])
        ensures x in stack || (x in segs && IsName(x))
      {
        if segs[0] == ".." && stack != [] {
          assert x in stack[..|stack| - 1];
        }
      }
    }
  }

  /** Every segment of a resolved path is a name without a separator. */
  lemma SegmentsAreNames(p: string)
    ensures forall x :: x in Segments(p) ==> IsName(x) && '/' !in x
  {
    SplitSlashFree(p);
    ResolveFromKeeps([], Split(p));
  }

  /** Combining NUL-free paths yields a NUL-free path. */
  lemma CombineNulFree(a: string, b: string)
    requires '\0' !in a && '\0' !in b
    ensures '\0' !in Combine(a, b)
  {
  }

  /** GetFullPath is idempotent: a canonical path is its own canonical form. */
  lemma CanonicalIdempotent(p: string, cwd: AbsPath)
    requires p != []
    ensures Canonical(Canonical(p, cwd), cwd) == Canonical(p, cwd)
  {
    var a := Absolute(p, cwd);
    var stack := Segments(a);
    var t := a[|a| - 1] == '/';
    var c := Canonical(p, cwd);
    SegmentsAreNames(a);
    SegmentsOfRender(stack, t);
    assert Absolute(c, cwd) == c;
    if stack != [] && !t {
      assert stack[|stack| - 1] in stack;
      JoinLast(stack);
      assert c == "/" + Join(stack);
    }
  }

  /** A rendered stack of names, with or without a trailing '/', is its own full path. */
  lemma CanonicalOfRender(stack: seq<string>, trailing: bool, cwd: AbsPath)
    requires forall x :: x in stack ==> IsName(x) && '/' !in x
    ensures Canonical(Render(stack, trailing), cwd) == Render(stack, trailing)
  {
    var r := Render(stack, trailing);
    SegmentsOfRender(stack, trailing);
    assert Absolute(r, cwd) == r;
    if stack == [] {
      assert r == "/";
    } else if !trailing {
      assert stack[|stack| - 1] in stack;
      JoinLast(stack);
      assert r == "/" + Join(stack);
      assert r[|r| - 1] != '/';
    } else {
      assert r[|r| - 1] == '/';
    }
  }

  // ---------------------------------------------------------------------------
  // Appending one slash-free segment
  // ---------------------------------------------------------------------------

  /**
   * A relative path is resolved below the current directory: the absolute
   * form starts with the directory and ends with the path.
   */
  lemma AbsoluteRelative(p: string, cwd: AbsPath)
    requires p != [] && !IsRooted(p)
    ensures var r := Absolute(p, cwd);
            |cwd| < |r| && r[..|cwd|] == cwd && r[|r| - |p|..] == p
  {
    CombineExtends(cwd, p);
  }

  /** Combining then making absolute equals making absolute then combining. */
  lemma AbsoluteCombine(root: string, s: string, cwd: AbsPath)
    requires root != [] && s != [] && !IsRooted(s)
    ensures Absolute(Combine(root, s), cwd) == Combine(Absolute(root, cwd), s)
  {
    if !IsRooted(root) {
      var c := Combine(cwd, root);
      assert c[|c| - 1] == root[|root| - 1];
      if root[|root| - 1] == '/' {
        if cwd[|cwd| - 1] == '/' {
          assert cwd + (root + s) == (cwd + root) + s;
        } else {
          assert cwd + "/" + (root + s) == (cwd + "/" + root) + s;
        }
      } else {
        if cwd[|cwd| - 1] == '/' {
          assert cwd + (root + "/" + s) == (cwd + root) + "/" + s;
        } else {
          assert cwd + "/" + (root + "/" + s) == (cwd + "/" + root) + "/" + s;
        }
      }
    }
  }

  /** Combining a rooted path with a relative one resolves the latter's segments on top. */
  lemma SegmentsCombine(a: string, s: string)
    requires IsRooted(a) && s != [] && !IsRooted(s)
    ensures Segments(Combine(a, s)) == ResolveFrom(Segments(a), Split(s))
  {
    if a[|a| - 1] == '/' {
      var a' := a[..|a| - 1];
      assert a == a' + "/" + [];
      assert Combine(a, s) == a' + "/" + s;
      SplitConcat(a', []);
      SplitConcat(a', s);
      SplitNoSlash([]);
      ResolveFromAppend([], Split(a'), [[]]);
      ResolveFromAppend([], Split(a'), Split(s));
    } else {
      SplitConcat(a, s);
      ResolveFromAppend([], Split(a), Split(s));
    }
  }

  /** The same for one slash-free segment: it resolves as a single Step. */
  lemma SegmentsCombineOne(a: string, s: string)
    requires IsRooted(a) && s != [] && '/' !in s
    ensures Segments(Combine(a, s)) == Step(Segments(a), s)
  {
    SegmentsCombine(a, s);
    SplitNoSlash(s);
  }

  /** Rendering a stack with one more name appends that name to the rendering. */
  lemma RenderAppendName(stack: seq<string>, trailing: bool, s: string)
    requires forall x :: x in stack ==> IsName(x) && '/' !in x
    requires IsName(s) && '/' !in s
    ensures Render(stack + [s], false) == Combine(Render(stack, trailing), s)
  {
    assert s[0] in s;
    if stack == [] {
      assert [] + [s] == [s];
    } else if trailing {
      RenderAppendAfterSlash(stack, s);
    } else {
      var last := stack[|stack| - 1];
      assert last in stack;
      assert last[|last| - 1] in last;
      RenderAppendAfterName(stack, s);
    }
  }

  lemma RenderAppendAfterSlash(stack: seq<string>, s: string)
    requires |stack| >= 1 && s != [] && s[0] != '/'
    ensures Render(stack + [s], false) == Combine(Render(stack, true), s)
  {
    JoinAppend(stack, s);
    var d := "/" + Join(stack) + "/";
    assert Render(stack, true) == d;
    assert d[|d| - 1] == '/';
    assert Combine(d, s) == d + s;
    assert "/" + (Join(stack) + "/" + s) == d + s;
  }

  lemma RenderAppendAfterName(stack: seq<string>, s: string)
    requires |stack| >= 1 && s != [] && s[0] != '/'
    requires stack[|stack| - 1] != [] && stack[|stack| - 1][|stack[|stack| - 1]| - 1] != '/'
    ensures Render(stack + [s], false) == Combine(Render(stack, false), s)
  {
    JoinAppend(stack, s);
    JoinLast(stack);
    var body := "/" + Join(stack);
    assert Render(stack, false) == body;
    assert body[|body| - 1] != '/';
    assert Combine(body, s) == body + "/" + s;
    assert "/" + (Join(stack) + "/" + s) == body + "/" + s;
  }

  /**
   * Canonicalisation commutes with appending one name: the full path of
   * root + "/" + name is the full path of root with that name appended.
   */
  lemma CanonicalAppendName(root: string, s: string, cwd: AbsPath)
    requires root != [] && IsName(s) && '/' !in s
    ensures Canonical(Combine(root, s), cwd) == Combine(Canonical(root, cwd), s)
  {
    var a := Absolute(root, cwd);
    var stack := Segments(a);
    var c := Combine(a, s);
    AbsoluteCombine(root, s, cwd);
    assert Absolute(Combine(root, s), cwd) == c;
    SegmentsCombineOne(a, s);
    assert Segments(c) == stack + [s];
    assert c[|c| - 1] == s[|s| - 1];
    assert Canonical(Combine(root, s), cwd) == Render(stack + [s], false);
    SegmentsAreNames(a);
    RenderAppendName(stack, a[|a| - 1] == '/', s);
  }

  lemma {:induction false} RenderDropLastShorter(stack: seq<string>)
    requires stack != []
    requires forall x :: x in stack ==> IsName(x)
    ensures |Render(stack[..|stack| - 1], false)| < |Render(stack, false)|
  {
    var init := stack[..|stack| - 1];
    assert stack[|stack| - 1] in stack;
    if init != [] {
      assert init + [stack[|stack| - 1]] == stack;
      JoinAppend(init, stack[|stack| - 1]);
    }
  }

  /**
   * Appending "." or ".." never yields a path that still has the canonical
   * root as a prefix, except when it yields the canonical root itself.
   */
  lemma CanonicalAppendDots(root: string, s: string, cwd: AbsPath)
    requires root != [] && (s == "." || s == "..")
    ensures var t := Canonical(Combine(root, s), cwd);
            var dir := Canonical(root, cwd);
            StartsWithIgnoreCase(t, dir) ==> t == dir
  {
    var a := Absolute(root, cwd);
    var stack := Segments(a);
    AbsoluteCombine(root, s, cwd);
    SegmentsCombineOne(a, s);
    SegmentsAreNames(a);
    var c := Combine(a, s);
    assert c[|c| - 1] == '.';
    if s == ".." && stack != [] {
      RenderDropLastShorter(stack);
    }
  }

  /** "../" + name splits into ".." and the name. */
  lemma SplitParentThen(name: string)
    requires '/' !in name
    ensures Split("../" + name) == ["..", name]
  {
    assert "../" + name == ".." + "/" + name;
    SplitConcat("..", name);
    SplitNoSlash("..");
    SplitNoSlash(name);
  }

  /**
   * Appending "../" + name resolves to a sibling of the root: the root's
   * last segment is dropped and the name appended in its place.
   */
  lemma CanonicalParentThenName(root: string, name: string, cwd: AbsPath)
    requires root != [] && IsName(name) && '/' !in name
    ensures Canonical(Combine(root, "../" + name), cwd)
            == Render(Step(Segments(Absolute(root, cwd)), "..") + [name], false)
  {
    var a := Absolute(root, cwd);
    var s := "../" + name;
    SplitParentThen(name);
    AbsoluteCombine(root, s, cwd);
    SegmentsCombine(a, s);
    var parent := Step(Segments(a), "..");
    assert ResolveFrom(Segments(a), ["..", name]) == ResolveFrom(parent, [name]);
    assert ResolveFrom(parent, [name]) == ResolveFrom(parent + [name], []);
    var c := Combine(a, s);
    CombineExtends(a, s);
    assert c[|c| - 1] == name[|name| - 1];
  }

  /** Every string starts with itself. */
  lemma StartsWithSelf(s: string)
    ensures StartsWithIgnoreCase(s, s)
  {
  }

  /** A string passes the check against any of its exact prefixes. */
  lemma StartsWithExactPrefix(s: string, prefix: string)
    requires |prefix| <= |s| && s[..|prefix|] == prefix
    ensures StartsWithIgnoreCase(s, prefix)
  {
    forall i | 0 <= i < |prefix|
      ensures ToUpperAscii(s[i]) == ToUpperAscii(prefix[i])
    {
      assert s[i] == s[..|prefix|][i];
    }
  }
}
