/**
 * The POSIX flavour of Node's `path.join`, `path.normalize` and
 * `path.basename`, written over the sequence of names between `/`
 * separators. `Split` and `JoinSegs` convert between a path string and that
 * sequence; `Collapse` is the stack walk that removes empty and `.` names
 * and lets `..` cancel the name before it.
 */
module PosixPath {

  // ---------------------------------------------------------------------
  // Names between separators
  // ---------------------------------------------------------------------

  /** `s.split('/')`: the pieces between separators, at least one. */
  function Split(s: string): (parts: seq<string>)
    ensures |parts| >= 1
    ensures forall k :: 0 <= k < |parts| ==> '/' !in parts[k]
    decreases |s|
  {
    if s == [] then [""]
    else if s[0] == '/' then [""] + Split(s[1..])
    else
      var t := Split(s[1..]);
      [[s[0]] + t[0]] + t[1..]
  }

  /** `parts.join('/')`. */
  function JoinSegs(parts: seq<string>): string
    decreases |parts|
  {
    if parts == [] then ""
    else if |parts| == 1 then parts[0]
    else parts[0] + "/" + JoinSegs(parts[1..])
  }

  /** Joining the pieces of a split gives the string back. */
  lemma {:induction false} JoinSplit(s: string)
    ensures JoinSegs(Split(s)) == s
    decreases |s|
  {
    if s == [] {
    } else if s[0] == '/' {
      JoinSplit(s[1..]);
      var t := Split(s[1..]);
      assert ([""] + t)[1..] == t;
      assert JoinSegs([""] + t) == "" + "/" + JoinSegs(t);
      assert s == [s[0]] + s[1..];
    } else {
      JoinSplit(s[1..]);
      var t := Split(s[1..]);
      var parts := [[s[0]] + t[0]] + t[1..];
      if |t| == 1 {
        assert parts == [[s[0]] + t[0]];
      } else {
        assert parts[1..] == t[1..];
        assert JoinSegs(parts) == [s[0]] + (t[0] + "/" + JoinSegs(t[1..]));
      }
      assert s == [s[0]] + s[1..];
    }
  }

  lemma {:induction false} SplitNoSep(w: string)
    requires '/' !in w
    ensures Split(w) == [w]
    decreases |w|
  {
    if w != [] {
      SplitNoSep(w[1..]);
      assert [w[0]] + w[1..] == w;
    }
  }

  /** A separator between two strings splits exactly there. */
  lemma {:induction false} SplitAppend(a: string, b: string)
    ensures Split(a + "/" + b) == Split(a) + Split(b)
    decreases |a|
  {
    var c := a + "/" + b;
    if a == [] {
      assert c == "/" + b;
      assert c[1..] == b;
    } else {
      SplitAppend(a[1..], b);
      assert c[1..] == a[1..] + "/" + b;
      SplitCons(c, a, Split(b));
    }
  }

  /** How one more leading character extends a split, in terms of the split of the rest. */
  lemma SplitCons(c: string, a: string, tail: seq<string>)
    requires a != [] && |c| > 0 && c[0] == a[0]
    requires Split(c[1..]) == Split(a[1..]) + tail
    ensures Split(c) == Split(a) + tail
  {
    var tc := Split(c[1..]);
    var ta := Split(a[1..]);
    if a[0] != '/' {
      assert tc[0] == ta[0];
      assert tc[1..] == ta[1..] + tail;
    }
  }

  /** Splitting joined names gives the names back when none holds a separator. */
  lemma {:induction false} SplitJoin(parts: seq<string>)
    requires |parts| >= 1
    requires forall k :: 0 <= k < |parts| ==> '/' !in parts[k]
    ensures Split(JoinSegs(parts)) == parts
    decreases |parts|
  {
    SplitNoSep(parts[0]);
    if |parts| > 1 {
      SplitJoin(parts[1..]);
      SplitAppend(parts[0], JoinSegs(parts[1..]));
      assert [parts[0]] + parts[1..] == parts;
    }
  }

  lemma {:induction false} JoinSegsSnoc(parts: seq<string>)
    requires |parts| >= 2
    ensures JoinSegs(parts) == JoinSegs(parts[..|parts| - 1]) + "/" + parts[|parts| - 1]
    decreases |parts|
  {
    if |parts| > 2 {
      JoinSegsSnoc(parts[1..]);
      assert parts[1..][..|parts| - 2] == parts[..|parts| - 1][1..];
    }
  }

  lemma {:induction false} JoinSegsAppend(xs: seq<string>, ys: seq<string>)
    requires xs != [] && ys != []
    ensures JoinSegs(xs + ys) == JoinSegs(xs) + "/" + JoinSegs(ys)
    decreases |xs|
  {
    if |xs| == 1 {
      assert (xs + ys)[1..] == ys;
    } else {
      JoinSegsAppend(xs[1..], ys);
      assert (xs + ys)[1..] == xs[1..] + ys;
    }
  }

  // ---------------------------------------------------------------------
  // The normalising stack walk
  // ---------------------------------------------------------------------

  /** A name that survives normalisation unchanged. */
  predicate IsClean(seg: string)
  {
    seg != "" && seg != "." && seg != ".." && '/' !in seg
  }

  /** One name of the walk: skip empty and `.`, let `..` cancel, push the rest. */
  function Step(stack: seq<string>, seg: string, abs: bool): (r: seq<string>)
    ensures |stack| - 1 <= |r| <= |stack| + 1
    ensures seg != ".." ==> stack <= r
    ensures abs && seg == ".." ==> r <= stack
  {
    if seg == "" || seg == "." then stack
    else if seg == ".." then
      if |stack| > 0 && stack[|stack| - 1] != ".." then stack[..|stack| - 1]
      else if abs then stack
      else stack + [".."]
    else stack + [seg]
  }

  /** The walk over a run of names: it adds at most one name per name read. */
  function Collapse(stack: seq<string>, segs: seq<string>, abs: bool): (r: seq<string>)
    ensures |r| <= |stack| + |segs|
    decreases |segs|
  {
    if segs == [] then stack else Collapse(Step(stack, segs[0], abs), segs[1..], abs)
  }

  /**
   * What the walk leaves behind: clean names, `..` only in front of all of
   * them, and no `..` at all in an absolute path (the root has no parent).
   */
  predicate Reduced(stack: seq<string>, abs: bool)
  {
    (forall k :: 0 <= k < |stack| ==> IsClean(stack[k]) || (!abs && stack[k] == "..")) &&
    (forall i, j :: 0 <= i < j < |stack| && stack[j] == ".." ==> stack[i] == "..")
  }

  lemma StepReduced(stack: seq<string>, seg: string, abs: bool)
    requires Reduced(stack, abs) && '/' !in seg
    ensures Reduced(Step(stack, seg, abs), abs)
  {
    if seg == ".." && !(|stack| > 0 && stack[|stack| - 1] != "..") && !abs {
      var s := stack + [".."];
      forall i, j | 0 <= i < j < |s| && s[j] == ".." ensures s[i] == ".." {
        if j < |stack| {
        } else if |stack| > 0 {
          assert stack[|stack| - 1] == "..";
        }
      }
    }
  }

  lemma {:induction false} CollapseReduced(stack: seq<string>, segs: seq<string>, abs: bool)
    requires Reduced(stack, abs)
    requires forall k :: 0 <= k < |segs| ==> '/' !in segs[k]
    ensures Reduced(Collapse(stack, segs, abs), abs)
    decreases |segs|
  {
    if segs != [] {
      StepReduced(stack, segs[0], abs);
      CollapseReduced(Step(stack, segs[0], abs), segs[1..], abs);
    }
  }

  lemma {:induction false} CollapseAppend(stack: seq<string>, xs: seq<string>, ys: seq<string>, abs: bool)
    ensures Collapse(stack, xs + ys, abs) == Collapse(Collapse(stack, xs, abs), ys, abs)
    decreases |xs|
  {
    if xs == [] {
      assert xs + ys == ys;
    } else {
      assert (xs + ys)[0] == xs[0];
      assert (xs + ys)[1..] == xs[1..] + ys;
      CollapseAppend(Step(stack, xs[0], abs), xs[1..], ys, abs);
    }
  }

  /** The walk leaves a reduced sequence of names as it is. */
  lemma {:induction false} CollapseFixed(segs: seq<string>, abs: bool)
    requires Reduced(segs, abs)
    ensures Collapse([], segs, abs) == segs
    decreases |segs|
  {
    if segs != [] {
      var init := segs[..|segs| - 1];
      var last := segs[|segs| - 1];
      assert Reduced(init, abs);
      CollapseFixed(init, abs);
      assert init + [last] == segs;
      CollapseAppend([], init, [last], abs);
      assert Collapse(init, [last], abs) == Step(init, last, abs);
      if last == ".." && |init| > 0 {
        assert init[|init| - 1] == "..";
      }
    }
  }

  /** Without `..` the walk only ever adds names to what it starts from. */
  lemma {:induction false} CollapseKeepsBase(stack: seq<string>, segs: seq<string>, abs: bool)
    requires forall k :: 0 <= k < |segs| ==> segs[k] != ".."
    ensures stack <= Collapse(stack, segs, abs)
    decreases |segs|
  {
    if segs != [] {
      CollapseKeepsBase(Step(stack, segs[0], abs), segs[1..], abs);
    }
  }

  // ---------------------------------------------------------------------
  // normalize, join, basename
  // ---------------------------------------------------------------------

  /** Writes the names back out, with the leading and trailing separator kept. */
  function Render(segs: seq<string>, abs: bool, trailing: bool): string
  {
    if segs == [] then (if abs then "/" else if trailing then "./" else ".")
    else (if abs then "/" else "") + JoinSegs(segs) + (if trailing then "/" else "")
  }

  /** `path.posix.normalize(p)`: a leading `/` survives. */
  function Normalize(p: string): (r: string)
    ensures p != [] && p[0] == '/' ==> r != [] && r[0] == '/'
  {
    if p == [] then "."
    else
      var abs := p[0] == '/';
      Render(Collapse([], Split(p), abs), abs, p[|p| - 1] == '/')
  }

  /** `path.posix.join(a, b)`: empty arguments are skipped, the rest joined by `/` and normalised. */
  function Join(a: string, b: string): (r: string)
    ensures (a != [] && a[0] == '/') || (a == [] && b != [] && b[0] == '/') ==> r != [] && r[0] == '/'
  {
    if a == [] && b == [] then "."
    else Normalize(if a == [] then b else if b == [] then a else a + "/" + b)
  }

  /** The trailing name of `p`: everything after its last separator. */
  function LastName(p: string): (w: string)
    ensures |w| <= |p| && w == p[|p| - |w|..]
    ensures '/' !in w
    ensures |w| == |p| || p[|p| - |w| - 1] == '/'
    decreases |p|
  {
    if p == [] || p[|p| - 1] == '/' then [] else LastName(p[..|p| - 1]) + [p[|p| - 1]]
  }

  /** `path.posix.basename(p)`: the last name, ignoring trailing separators. */
  function Basename(p: string): (b: string)
    ensures '/' !in b
    decreases |p|
  {
    if p == [] then []
    else if p[|p| - 1] == '/' then Basename(p[..|p| - 1])
    else LastName(p)
  }

  /** An absolute path in normal form: clean names between single separators, at most one trailing `/`. */
  predicate IsCanonicalAbsolute(r: string)
  {
    var parts := Split(r);
    |r| > 0 && r[0] == '/' && |parts| >= 2 &&
    (forall k :: 1 <= k < |parts| - 1 ==> IsClean(parts[k])) &&
    (parts[|parts| - 1] == "" || IsClean(parts[|parts| - 1]))
  }

  /** The names of an absolute path, as normalisation sees them. */
  function AbsSegments(p: string): seq<string>
  {
    Collapse([], Split(p), true)
  }

  // ---------------------------------------------------------------------
  // Properties
  // ---------------------------------------------------------------------

  lemma {:induction false} JoinSegsEnds(segs: seq<string>)
    requires segs != [] && forall k :: 0 <= k < |segs| ==> segs[k] != []
    ensures |JoinSegs(segs)| > 0
    ensures JoinSegs(segs)[0] == segs[0][0]
    ensures JoinSegs(segs)[|JoinSegs(segs)| - 1] == segs[|segs| - 1][|segs[|segs| - 1]| - 1]
    decreases |segs|
  {
    if |segs| > 1 {
      JoinSegsEnds(segs[1..]);
    }
  }

  /** How a rendered path splits: an empty piece for each outer separator, then the names. */
  lemma RenderSplit(segs: seq<string>, abs: bool, trailing: bool)
    requires Reduced(segs, abs) && segs != []
    ensures Split(Render(segs, abs, trailing))
         == (if abs then [""] else []) + segs + (if trailing then [""] else [])
  {
    var j := JoinSegs(segs);
    SplitJoin(segs);
    var x := j + (if trailing then "/" else "");
    if trailing {
      SplitAppend(j, "");
      assert j + "/" + "" == x;
    } else {
      assert x == j;
    }
    assert Split(x) == segs + (if trailing then [""] else []);
    if abs {
      assert Render(segs, abs, trailing) == "/" + x;
      assert ("/" + x)[1..] == x;
    } else {
      assert Render(segs, abs, trailing) == x;
    }
  }

  /** Normalising a rendered path recovers exactly the names it was rendered from. */
  lemma CollapseRender(segs: seq<string>, abs: bool, trailing: bool)
    requires Reduced(segs, abs)
    ensures Collapse([], Split(Render(segs, abs, trailing)), abs) == segs
  {
    if segs == [] {
      CollapseRenderEmpty(abs, trailing);
    } else {
      CollapseRenderNames(segs, abs, trailing);
    }
  }

  /** `/`, `./` and `.` hold no names. */
  lemma CollapseRenderEmpty(abs: bool, trailing: bool)
    ensures Collapse([], Split(Render([], abs, trailing)), abs) == []
  {
    if abs {
      SplitAppend("", "");
      SplitNoSep("");
      assert "" + "/" + "" == "/";
      assert Split("/") == ["", ""];
      assert Collapse([], [""], abs) == [];
    } else if trailing {
      SplitAppend(".", "");
      SplitNoSep(".");
      SplitNoSep("");
      assert "." + "/" + "" == "./";
      assert Split("./") == [".", ""];
      assert Collapse([], [""], abs) == [];
    } else {
      SplitNoSep(".");
    }
  }

  lemma CollapseRenderNames(segs: seq<string>, abs: bool, trailing: bool)
    requires Reduced(segs, abs) && segs != []
    ensures Collapse([], Split(Render(segs, abs, trailing)), abs) == segs
  {
    RenderSplit(segs, abs, trailing);
    var pre: seq<string> := if abs then [""] else [];
    var post: seq<string> := if trailing then [""] else [];
    CollapseAppend([], pre, segs + post, abs);
    assert pre + (segs + post) == pre + segs + post;
    assert Collapse([], pre, abs) == [];
    CollapseAppend([], segs, post, abs);
    CollapseFixed(segs, abs);
    assert Collapse(segs, post, abs) == segs;
  }

  /** The first and last characters of a rendered path say whether it was absolute and had a trailing separator. */
  lemma RenderEnds(segs: seq<string>, abs: bool, trailing: bool)
    requires Reduced(segs, abs)
    ensures var r := Render(segs, abs, trailing);
      |r| > 0 && (r[0] == '/' <==> abs) && (r[|r| - 1] == '/' <==> (trailing || (abs && segs == [])))
  {
    if segs != [] {
      JoinSegsEnds(segs);
      assert '/' !in segs[0] && '/' !in segs[|segs| - 1];
    }
  }

  /** Normalising twice is normalising once. */
  lemma NormalizeIdempotent(p: string)
    ensures Normalize(Normalize(p)) == Normalize(p)
  {
    if p == [] {
      SplitNoSep(".");
    } else {
      var abs := p[0] == '/';
      var trailing := p[|p| - 1] == '/';
      var segs := Collapse([], Split(p), abs);
      CollapseReduced([], Split(p), abs);
      var r := Render(segs, abs, trailing);
      RenderEnds(segs, abs, trailing);
      CollapseRender(segs, abs, trailing);
      if abs && segs == [] {
        assert r == "/";
        assert Normalize(r) == Render([], true, true);
      } else {
        assert Normalize(r) == Render(segs, abs, trailing);
      }
    }
  }

  /** An absolute path normalises to canonical form: no `.`, `..` or empty names. */
  lemma NormalizeCanonical(p: string)
    requires p != [] && p[0] == '/'
    ensures IsCanonicalAbsolute(Normalize(p))
  {
    var segs := Collapse([], Split(p), true);
    CollapseReduced([], Split(p), true);
    var trailing := p[|p| - 1] == '/';
    var r := Normalize(p);
    if segs == [] {
      assert r == "/";
      assert Split("/") == ["", ""];
    } else {
      RenderSplit(segs, true, trailing);
      RenderEnds(segs, true, trailing);
    }
  }

  /** The names of a normalised absolute path are those its normalisation kept. */
  lemma AbsSegmentsOfNormalize(p: string)
    requires p != [] && p[0] == '/'
    ensures AbsSegments(Normalize(p)) == AbsSegments(p)
    ensures Reduced(AbsSegments(p), true)
  {
    CollapseReduced([], Split(p), true);
    CollapseRender(AbsSegments(p), true, p[|p| - 1] == '/');
  }

  /**
   * Joining a path onto a normalised absolute directory walks the path's names
   * starting from the directory's names, and keeps the path's trailing separator.
   */
  lemma JoinOntoDirectory(dir: seq<string>, p: string)
    requires Reduced(dir, true) && p != []
    ensures Join(Render(dir, true, false), p) == Render(Collapse(dir, Split(p), true), true, p[|p| - 1] == '/')
    ensures AbsSegments(Join(Render(dir, true, false), p)) == Collapse(dir, Split(p), true)
    ensures Reduced(Collapse(dir, Split(p), true), true)
  {
    var d := Render(dir, true, false);
    RenderEnds(dir, true, false);
    var q := d + "/" + p;
    assert q[0] == '/' && q[|q| - 1] == p[|p| - 1];
    SplitAppend(d, p);
    CollapseAppend([], Split(d), Split(p), true);
    CollapseRender(dir, true, false);
    CollapseReduced(dir, Split(p), true);
    CollapseRender(Collapse(dir, Split(p), true), true, p[|p| - 1] == '/');
  }

  /**
   * Normalising a join that starts from an absolute path changes nothing
   * more, and leaves a canonical absolute path.
   */
  lemma JoinAbsolute(a: string, b: string)
    requires (a != [] && a[0] == '/') || (a == [] && b != [] && b[0] == '/')
    ensures Normalize(Join(a, b)) == Join(a, b)
    ensures IsCanonicalAbsolute(Join(a, b))
  {
    var x := if a == [] then b else if b == [] then a else a + "/" + b;
    assert x != [] && x[0] == '/';
    NormalizeIdempotent(x);
    NormalizeCanonical(x);
  }

  /**
   * A path whose names extend a directory's names has the directory's
   * rendering as a string prefix: the string test accepts every contained path.
   */
  lemma ContainedHasPrefix(dir: seq<string>, segs: seq<string>, trailing: bool)
    requires Reduced(dir, true) && Reduced(segs, true) && dir <= segs
    ensures var d := Render(dir, true, false); var r := Render(segs, true, trailing);
      |d| <= |r| && r[..|d|] == d
  {
    RenderEnds(segs, true, trailing);
    if dir != [] && dir != segs {
      var rest := segs[|dir|..];
      assert dir + rest == segs;
      JoinSegsAppend(dir, rest);
    }
  }

  /** A path without `..` names stays beneath the directory it is joined onto. */
  lemma JoinWithoutDotDotStaysInside(dir: seq<string>, p: string)
    requires Reduced(dir, true) && p != []
    requires ".." !in Split(p)
    ensures dir <= AbsSegments(Join(Render(dir, true, false), p))
  {
    JoinOntoDirectory(dir, p);
    CollapseKeepsBase(dir, Split(p), true);
  }

  /**
   * At most one suffix of `y + w` is free of separators and either the whole
   * path or preceded by one: when `y` ends in a separator, that suffix is `w`.
   */
  lemma {:induction false} OnlyNameAfterSeparator(y: string, w: string, r: string)
    requires '/' !in w
    requires y == [] || y[|y| - 1] == '/'
    requires |r| <= |y + w| && r == (y + w)[|y + w| - |r|..] && '/' !in r
    requires |r| == |y + w| || (y + w)[|y + w| - |r| - 1] == '/'
    ensures r == w
  {
    var p := y + w;
    var n := |p| - |r|;
    assert forall k :: 0 <= k < |r| ==> p[n + k] == r[k] != '/';
    assert forall k :: |y| <= k < |p| ==> p[k] == w[k - |y|] != '/';
    // a separator ends `y`, and `r` holds none, so `r` starts after `y`;
    // the separator in front of `r` is not inside `w`, so `r` starts no later
    assert y != [] ==> p[|y| - 1] == '/';
    assert n == |y|;
    assert p[|y|..] == w;
  }

  /** The name after a path's last separator is the one `LastName` finds. */
  lemma {:induction false} LastNameAfterSeparator(y: string, w: string)
    requires '/' !in w
    requires y == [] || y[|y| - 1] == '/'
    ensures LastName(y + w) == w
  {
    OnlyNameAfterSeparator(y, w, LastName(y + w));
  }

  lemma BasenameStripsSeparator(x: string)
    requires x != [] && x[|x| - 1] != '/'
    ensures Basename(x + "/") == LastName(x)
  {
    assert (x + "/")[..|x|] == x;
  }

  /** The basename of a rendered path is its last name. */
  lemma BasenameRender(segs: seq<string>, abs: bool, trailing: bool)
    requires Reduced(segs, abs) && segs != []
    ensures Basename(Render(segs, abs, trailing)) == segs[|segs| - 1]
  {
    var last := segs[|segs| - 1];
    var pre: string := if abs then "/" else "";
    var x := pre + JoinSegs(segs);
    RenderEnds(segs, abs, false);
    assert Render(segs, abs, false) == x;
    assert Basename(x) == LastName(x);
    if trailing {
      assert Render(segs, abs, true) == x + "/";
      BasenameStripsSeparator(x);
    }
    BasenameLastName(segs, pre);
  }

  /** The basename of a rendered absolute path is its last name, or empty for the root itself. */
  lemma BasenameOfAbsolute(segs: seq<string>, trailing: bool)
    requires Reduced(segs, true)
    ensures Basename(Render(segs, true, trailing)) == if segs == [] then [] else segs[|segs| - 1]
  {
    if segs == [] {
      assert Render(segs, true, trailing) == "/";
      assert "/"[..0] == [];
    } else {
      BasenameRender(segs, true, trailing);
    }
  }

  lemma {:induction false} BasenameLastName(segs: seq<string>, pre: string)
    requires segs != [] && '/' !in segs[|segs| - 1] && (pre == "" || pre == "/")
    ensures LastName(pre + JoinSegs(segs)) == segs[|segs| - 1]
  {
    var last := segs[|segs| - 1];
    var y := FolderPart(segs, pre);
    LastNameAfterSeparator(y, last);
  }

  /** What comes before the last name of joined names: nothing, `/`, or the folder names and a separator. */
  lemma FolderPart(segs: seq<string>, pre: string) returns (y: string)
    requires segs != [] && (pre == "" || pre == "/")
    ensures pre + JoinSegs(segs) == y + segs[|segs| - 1]
    ensures y == [] || y[|y| - 1] == '/'
  {
    if |segs| == 1 {
      y := pre;
      assert JoinSegs(segs) == segs[0];
    } else {
      JoinSegsSnoc(segs);
      y := pre + JoinSegs(segs[..|segs| - 1]) + "/";
    }
  }
}
