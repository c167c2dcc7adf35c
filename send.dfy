/**
 * The request-path pipeline of koa-send's `send(ctx, path, opts)`: decode
 * the request path, refuse undecodable paths and NUL characters, append the
 * index file, refuse relative or `..`-bearing paths when there is no root,
 * join onto the root and normalise, refuse results that do not begin with
 * the root string, skip hidden files, and finally stat and serve the file.
 */
module KoaSend {
  import opened JsString
  import UriCodec
  import opened PosixPath

  /** The names of `resolve(opts.root)`: a normalised absolute directory. */
  type Directory = d: seq<string> | Reduced(d, true) witness []

  /**
   * The options `send` reads. `root` is None when `opts.root` is absent or
   * empty; an `index` of "" stands for an unset (falsy) option.
   */
  datatype Options = Options(root: Option<Directory>, index: string, hidden: bool)

  /** The `root` string of line 40: the resolved directory, or '' without the option. */
  function RootString(o: Options): (r: string)
    ensures r == "" <==> o.root.None?
    ensures o.root.Some? ==> r[0] == '/' && AbsSegments(r) == o.root.value
  {
    match o.root
    case None => ""
    case Some(dir) =>
      RenderEnds(dir, true, false);
      CollapseRender(dir, true, false);
      Render(dir, true, false)
  }

  const DecodeFailed: string := "failed to decode"
  const NullBytes: string := "null bytes"
  const RootRequired: string := "relative paths require the .root option"
  const Malicious: string := "malicious path"

  /**
   * Where the path checks end: `ctx.error(message, status)`, a bare return
   * that leaves the response alone, or the path to stat and serve.
   */
  datatype Outcome = Error(message: string, status: nat) | Ignored | Resolved(path: string)

  // ---------------------------------------------------------------------
  // The helpers
  // ---------------------------------------------------------------------

  /** What `decode` returns: the decoded string, or the Number -1. */
  datatype Decoded = Text(s: string) | MinusOne

  /** `decode(path)`: decodeURIComponent with its URIError turned into -1. */
  function DecodePath(path: string): (r: Decoded)
    ensures r == MinusOne <==> UriCodec.Decode(path).None?
    ensures r.Text? ==> UriCodec.Decode(path) == Some(r.s) && |r.s| <= |path|
  {
    match UriCodec.Decode(path)
    case None => MinusOne
    case Some(d) => Text(d)
  }

  /** The loose comparison `-1 == v`: true for -1 itself and for every string whose Number value is -1. */
  predicate LooselyMinusOne(v: Decoded)
    ensures v == MinusOne ==> LooselyMinusOne(v)
    ensures v.Text? && LooselyMinusOne(v) ==> |v.s| >= 2 && '-' in v.s
  {
    match v
    case MinusOne => true
    case Text(s) => NumberIsMinusOne(s)
  }

  /**
   * `isAbsolute(path)`: a leading `/`, a drive letter form `x:\`, or a
   * leading `\\`. An index past the end reads `undefined` and compares unequal.
   */
  predicate IsAbsolute(p: string)
    ensures IsAbsolute(p) <==>
      (|p| >= 1 && p[0] == '/') ||
      (|p| >= 3 && p[1] == ':' && p[2] == '\\') ||
      (|p| >= 2 && p[0] == '\\' && p[1] == '\\')
  {
    if CharAt(p, 0) == Some('/') then true
    else if CharAt(p, 1) == Some(':') && CharAt(p, 2) == Some('\\') then true
    else Substring(p, 0, 2) == "\\\\"
  }

  /** `leadingDot(path)`: the basename starts with `.`. */
  predicate LeadingDot(p: string)
    ensures LeadingDot(p) <==> Basename(p) != [] && Basename(p)[0] == '.'
  {
    CharAt(Basename(p), 0) == Some('.')
  }

  /** Line 46: the raw request path ends in `/`. */
  predicate TrailingSlash(raw: string)
    ensures TrailingSlash(raw) <==> raw != [] && raw[|raw| - 1] == '/'
  {
    CharAt(raw, |raw| - 1) == Some('/')
  }

  /** Line 57: the decoded path, with the index file appended when the raw request ended in `/`. */
  function Candidate(d: string, raw: string, o: Options): (r: string)
    ensures StartsWith(r, d)
    ensures r == d <==> o.index == "" || !TrailingSlash(raw)
  {
    if o.index != "" && TrailingSlash(raw) then d + o.index else d
  }

  /** Lines 51 and 54 let the request through: it decodes, is not loosely -1 and holds no NUL. */
  predicate Screened(raw: string)
  {
    var v := DecodePath(raw);
    !LooselyMinusOne(v) && !Includes(v.s, "\0")
  }

  /** The path lines 60-61 examine for a request that got through the screens. */
  function Requested(raw: string, o: Options): string
  {
    Candidate(if DecodePath(raw).Text? then DecodePath(raw).s else "", raw, o)
  }

  /** Line 64: the path joined onto the root and normalised. */
  function Target(raw: string, o: Options): string
  {
    Normalize(Join(RootString(o), Requested(raw, o)))
  }

  // ---------------------------------------------------------------------
  // The checks of lines 46-70
  // ---------------------------------------------------------------------

  /** Where lines 46-70 take a request path. */
  function Validate(raw: string, o: Options): (r: Outcome)
    // line 51: decoding failed, or the decoded text is loosely equal to -1
    ensures r == Error(DecodeFailed, 400) <==> LooselyMinusOne(DecodePath(raw))
    // line 54: a NUL in the decoded text is refused
    ensures r == Error(NullBytes, 400) ==> DecodePath(raw).Text? && '\0' in DecodePath(raw).s
    ensures !LooselyMinusOne(DecodePath(raw)) && '\0' in DecodePath(raw).s && |raw| < TwoTo32 - 1
      ==> r == Error(NullBytes, 400)
    // what gets through is the normalised join, not hidden, and under the root string
    ensures r.Resolved? ==> Screened(raw) && r.path == Target(raw, o) && (o.hidden || !LeadingDot(r.path))
    // line 70: only a hidden target is skipped
    ensures r == Ignored ==> Screened(raw) && !o.hidden && LeadingDot(Target(raw, o))
    ensures r.Resolved? && o.root.Some? ==> StartsWith(r.path, RootString(o))
    ensures r.Resolved? && (o.root.Some? || StartsWith(Requested(raw, o), "/"))
      ==> IsCanonicalAbsolute(r.path) && r.path == Join(RootString(o), Requested(raw, o))
    ensures r.Error? ==> r.status == 400 || r.status == 500
  {
    var v := DecodePath(raw);
    if LooselyMinusOne(v) then Error(DecodeFailed, 400)
    else
      OccursChar(v.s, '\0');
      if Includes(v.s, "\0") then Error(NullBytes, 400)
      else
        var p := Candidate(v.s, raw, o);
        var root := RootString(o);
        if root == "" && !IsAbsolute(p) then Error(RootRequired, 500)
        else if root == "" && Includes(p, "..") then Error(Malicious, 400)
        else
          var path := Normalize(Join(root, p));
          if root != "" && IndexOf(path, root) != 0 then Error(Malicious, 400)
          else
            IndexOfZeroIsPrefix(path, root);
            if !o.hidden && LeadingDot(path) then Ignored
            else if root != "" then
              assert root[0] == '/';
              JoinAbsolute(root, p);
              Resolved(path)
            else if p[0] == '/' then
              JoinAbsolute(root, p);
              Resolved(path)
            else
              assert p[..1][0] == p[0];
              Resolved(path)
  }

  /** Without a root, a path that got through the screens is refused unless it looks absolute and holds no `..`. */
  lemma {:induction false} WithoutRoot(raw: string, o: Options)
    requires o.root.None? && Screened(raw) && |Requested(raw, o)| < TwoTo32 - 1
    ensures var p := Requested(raw, o);
      && (Validate(raw, o) == Error(RootRequired, 500) <==> !IsAbsolute(p))
      && (Validate(raw, o) == Error(Malicious, 400) <==> IsAbsolute(p) && Occurs(p, ".."))
      && (IsAbsolute(p) && !Occurs(p, "..") ==>
            Validate(raw, o) == if !o.hidden && LeadingDot(Normalize(p)) then Ignored else Resolved(Normalize(p)))
  {
    var v := DecodePath(raw);
    var p := Requested(raw, o);
    assert p == Candidate(v.s, raw, o);
    assert RootString(o) == "";
    if !IsAbsolute(p) {
      assert Validate(raw, o) == Error(RootRequired, 500);
    } else if Occurs(p, "..") {
      assert Includes(p, "..");
      assert Validate(raw, o) == Error(Malicious, 400);
    } else {
      assert !Includes(p, "..");
      assert Join("", p) == Normalize(p);
      NormalizeIdempotent(p);
      assert Validate(raw, o) != Error(Malicious, 400);
    }
  }

  /** `relative/path` gets through the screens and stays as it is. */
  lemma RelativeScreened(o: Options)
    ensures Screened("relative/path") && Requested("relative/path", o) == "relative/path"
    ensures !IsAbsolute("relative/path")
  {
    var raw := "relative/path";
    assert '%' !in raw && '\0' !in raw;
    NotMinusOneByFirstChar(raw);
    OccursChar(raw, '\0');
    assert !TrailingSlash(raw);
  }

  /** Without a root, the request `relative/path` is refused with status 500. */
  lemma RelativeRequest(o: Options)
    requires o.root.None?
    ensures Validate("relative/path", o) == Error(RootRequired, 500)
  {
    RelativeScreened(o);
    WithoutRoot("relative/path", o);
  }

  /**
   * With a root, a screened request is refused as malicious exactly when its
   * target does not begin with the root string, skipped when the target is
   * hidden, and resolved to the target otherwise.
   */
  lemma {:induction false} WithRoot(raw: string, o: Options)
    requires o.root.Some? && Screened(raw)
    ensures Validate(raw, o) ==
      if !StartsWith(Target(raw, o), RootString(o)) then Error(Malicious, 400)
      else if !o.hidden && LeadingDot(Target(raw, o)) then Ignored
      else Resolved(Target(raw, o))
  {
    IndexOfZeroIsPrefix(Target(raw, o), RootString(o));
  }

  // ---------------------------------------------------------------------
  // Decoding and the screens of lines 51 and 54
  // ---------------------------------------------------------------------

  /** `decode` undoes encodeURIComponent. */
  lemma DecodePathEncoded(s: string)
    ensures DecodePath(UriCodec.Encode(s)) == Text(s)
  {
    UriCodec.DecodeEncode(s);
  }

  /**
   * A request holding a NUL, literally or as `%00`, is refused with
   * "null bytes" whenever it decodes: decoded text holding a NUL is never
   * loosely -1.
   */
  lemma {:induction false} NulRefused(raw: string, o: Options)
    requires UriCodec.Decode(raw).Some? && |raw| < TwoTo32 - 1
    requires '\0' in raw || Occurs(raw, "%00")
    ensures Validate(raw, o) == Error(NullBytes, 400)
  {
    var d := UriCodec.Decode(raw).value;
    if '\0' in raw {
      var i :| 0 <= i < |raw| && raw[i] == '\0';
      UriCodec.DecodeKeepsChar(raw, i);
    } else {
      var i :| 0 <= i <= |raw| && OccursAt(raw, "%00", i);
      UriCodec.DecodeKeepsEncodedNul(raw, i);
    }
    NotMinusOneByChar(d, '\0');
  }

  /** `/%00x` decodes to `/`, NUL, `x`. */
  lemma EncodedNulDecodes()
    ensures UriCodec.Decode("/%00x") == Some("/\0x")
  {
    var s := "%00x";
    assert UriCodec.HexValue('0') == Some(0);
    assert UriCodec.EscapeAt(s, 0) == Some(0);
    assert UriCodec.EscapedBytes(s[3..], 0) == Some([]);
    var bs := UriCodec.EscapedBytes(s, 1);
    assert bs.Some? && bs.value == [0];
    assert UriCodec.CodePoint([0]) == Some(0);
    assert UriCodec.DecodeEscape(s) == Some(('\0', 3));
    assert s[3..] == "x" && '%' !in "x";
    assert UriCodec.Decode(s[3..]) == Some("x");
    assert ['\0'] + "x" == "\0x";
    assert UriCodec.Decode(s) == Some("\0x");
    assert "/%00x"[1..] == s && "/%00x"[0] == '/';
    assert ['/'] + "\0x" == "/\0x";
  }

  /** Under any options, the request `/%00x` is refused with "null bytes". */
  lemma EncodedNulRequest(o: Options)
    ensures Validate("/%00x", o) == Error(NullBytes, 400)
  {
    EncodedNulDecodes();
    assert OccursAt("/%00x", "%00", 1);
    NulRefused("/%00x", o);
  }

  /**
   * For a request path that starts with `/`, "failed to decode" means exactly
   * that decodeURIComponent threw: decoded text holding `/` is never loosely -1.
   */
  lemma {:induction false} SlashPathDecodeFailure(raw: string, o: Options)
    requires raw != [] && raw[0] == '/'
    ensures Validate(raw, o) == Error(DecodeFailed, 400) <==> UriCodec.Decode(raw).None?
  {
    if UriCodec.Decode(raw).Some? {
      var d := UriCodec.Decode(raw).value;
      UriCodec.DecodeKeepsChar(raw, 0);
      NotMinusOneByChar(d, '/');
    }
  }

  /** A request that decodes to the text "-1" is refused as undecodable, like one whose decoding fails. */
  lemma MinusOneRequest(o: Options)
    ensures Validate("-1", o) == Error(DecodeFailed, 400)
  {
    assert '%' !in "-1";
    assert DecodePath("-1") == Text("-1");
    MinusOneLiteral();
  }

  // ---------------------------------------------------------------------
  // The index file of lines 46 and 57
  // ---------------------------------------------------------------------

  /**
   * The index is appended to the decoded text exactly when it is set and the
   * raw request, before decoding, ends in `/`; nothing else is changed.
   */
  lemma IndexAppended(raw: string, o: Options)
    requires DecodePath(raw).Text?
    ensures var d := DecodePath(raw).s;
      && (Requested(raw, o) == d + o.index || Requested(raw, o) == d)
      && (Requested(raw, o) != d <==> o.index != "" && raw != [] && raw[|raw| - 1] == '/')
  {
    var d := DecodePath(raw).s;
    if o.index != "" {
      assert |d + o.index| > |d|;
    }
  }

  /**
   * A request written by encodeURIComponent never gets the index: its
   * separators, a final one included, arrive as `%2F`, so the raw path does
   * not end in `/` even when the decoded text does.
   */
  lemma EncodedRequestTakenAsIs(s: string, o: Options)
    ensures Requested(UriCodec.Encode(s), o) == s
  {
    var raw := UriCodec.Encode(s);
    UriCodec.DecodeEncode(s);
    UriCodec.EncodeHasNoSlash(s);
    assert !TrailingSlash(raw);
  }

  // ---------------------------------------------------------------------
  // The `..` screen of line 61
  // ---------------------------------------------------------------------

  /** Every name of a joined path occurs in it as text. */
  lemma {:induction false} NameOccurs(parts: seq<string>, k: nat)
    requires k < |parts|
    ensures Occurs(JoinSegs(parts), parts[k])
    decreases |parts|
  {
    var whole := JoinSegs(parts);
    if k == 0 {
      assert whole[..|parts[0]|] == parts[0];
      assert OccursAt(whole, parts[0], 0);
    } else {
      var rest := JoinSegs(parts[1..]);
      NameOccurs(parts[1..], k - 1);
      var i :| 0 <= i <= |rest| && OccursAt(rest, parts[k], i);
      var off := |parts[0]| + 1;
      assert whole == parts[0] + "/" + rest;
      assert whole[off + i..off + i + |parts[k]|] == rest[i..i + |parts[k]|];
      assert OccursAt(whole, parts[k], off + i);
    }
  }

  /**
   * The textual screen catches every `..` name, and more: a path with a `..`
   * name holds `..` as text, while `/a..b` holds it as text with no `..` name.
   */
  lemma DotDotScreen(p: string)
    ensures ".." in Split(p) ==> Occurs(p, "..")
    ensures Occurs("/a..b", "..") && ".." !in Split("/a..b")
  {
    if ".." in Split(p) {
      var k :| 0 <= k < |Split(p)| && Split(p)[k] == "..";
      JoinSplit(p);
      NameOccurs(Split(p), k);
    }
    assert OccursAt("/a..b", "..", 2);
    assert JoinSegs(["", "a..b"]) == "/a..b";
    SplitJoin(["", "a..b"]);
  }

  // ---------------------------------------------------------------------
  // The hidden-file check of line 70
  // ---------------------------------------------------------------------

  /** With a root, only the last name of the walked path decides whether the target is hidden. */
  lemma {:induction false} HiddenByLastName(raw: string, o: Options)
    requires o.root.Some? && Requested(raw, o) != []
    ensures var segs := Collapse(o.root.value, Split(Requested(raw, o)), true);
      LeadingDot(Target(raw, o)) <==> segs != [] && segs[|segs| - 1] != [] && segs[|segs| - 1][0] == '.'
  {
    var p := Requested(raw, o);
    var segs := Collapse(o.root.value, Split(p), true);
    TargetUnderRoot(raw, o, p);
    LeadingDotOfRender(Target(raw, o), segs, p[|p| - 1] == '/');
  }

  /** An absolute path rendered from reduced names is hidden exactly when its last name starts with a dot. */
  lemma LeadingDotOfRender(t: string, segs: seq<string>, trailing: bool)
    requires Reduced(segs, true) && t == Render(segs, true, trailing)
    ensures LeadingDot(t) <==> segs != [] && segs[|segs| - 1] != [] && segs[|segs| - 1][0] == '.'
  {
    BasenameOfAbsolute(segs, trailing);
  }

  // ---------------------------------------------------------------------
  // The root bound of line 67
  // ---------------------------------------------------------------------

  /** With a root, the target is the walk of the requested path's names from the root's names. */
  lemma {:induction false} TargetUnderRoot(raw: string, o: Options, p: string)
    requires o.root.Some? && Requested(raw, o) == p && p != []
    ensures Target(raw, o) == Render(Collapse(o.root.value, Split(p), true), true, p[|p| - 1] == '/')
    ensures AbsSegments(Target(raw, o)) == Collapse(o.root.value, Split(p), true)
    ensures Reduced(Collapse(o.root.value, Split(p), true), true)
  {
    JoinOntoDirectory(o.root.value, p);
    JoinAbsolute(RootString(o), p);
  }

  /**
   * A request whose path has no `..` name and gets through resolves to a path
   * whose names begin with the root's names.
   */
  lemma {:induction false} DotDotFreeStaysInRoot(raw: string, o: Options)
    requires o.root.Some? && Validate(raw, o).Resolved?
    requires ".." !in Split(Requested(raw, o))
    ensures o.root.value <= AbsSegments(Validate(raw, o).path)
  {
    var p := Requested(raw, o);
    var root := RootString(o);
    JoinAbsolute(root, p);
    if p == [] {
      assert Join(root, p) == Normalize(root);
      AbsSegmentsOfNormalize(root);
    } else {
      JoinWithoutDotDotStaysInside(o.root.value, p);
    }
  }

  /**
   * The string test of line 67 never refuses a screened request whose target
   * lies, name by name, beneath the root.
   */
  lemma {:induction false} ContainedNeverMalicious(raw: string, o: Options)
    requires o.root.Some? && Screened(raw)
    requires o.root.value <= AbsSegments(Target(raw, o))
    ensures Validate(raw, o) != Error(Malicious, 400)
  {
    var root := RootString(o);
    var j := Join(root, Requested(raw, o));
    JoinAbsolute(root, Requested(raw, o));
    AbsSegmentsOfNormalize(j);
    ContainedHasPrefix(o.root.value, AbsSegments(j), j[|j| - 1] == '/');
    WithRoot(raw, o);
  }

  /** A request path that starts with `/` and holds neither `%` nor NUL gets through the screens as it is. */
  lemma {:induction false} PlainRequest(raw: string)
    requires raw != [] && raw[0] == '/' && '%' !in raw && '\0' !in raw
    ensures Screened(raw) && DecodePath(raw) == Text(raw)
  {
    NotMinusOneByFirstChar(raw);
    OccursChar(raw, '\0');
  }

  /**
   * A request that decodes to a `/` path without NUL: against a root, its
   * outcome follows from the walk of its names, index file included.
   */
  lemma {:induction false} RootedOutcome(raw: string, o: Options, d: string, segs: seq<string>)
    requires o.root.Some?
    requires UriCodec.Decode(raw) == Some(d) && d != [] && d[0] == '/' && '\0' !in d
    requires Collapse(o.root.value, Split(Candidate(d, raw, o)), true) == segs
    ensures var p := Candidate(d, raw, o);
      var q := Render(segs, true, p[|p| - 1] == '/');
      Validate(raw, o) ==
        if !StartsWith(q, RootString(o)) then Error(Malicious, 400)
        else if !o.hidden && LeadingDot(q) then Ignored
        else Resolved(q)
  {
    DecodedScreened(raw, d, o);
    TargetUnderRoot(raw, o, Candidate(d, raw, o));
    WithRoot(raw, o);
  }

  /** `/../name` walks from a directory to its parent and then into `name`. */
  lemma {:induction false} ClimbWalk(dir: Directory, name: string)
    requires dir != [] && IsClean(name)
    ensures Split("/../" + name) == ["", "..", name]
    ensures Collapse(dir, ["", "..", name], true) == dir[..|dir| - 1] + [name]
  {
    var parts := ["", "..", name];
    assert JoinSegs(["..", name]) == ".." + "/" + name;
    assert JoinSegs(parts) == "/../" + name;
    SplitJoin(parts);
    assert Collapse(dir, parts, true) == Collapse(dir[..|dir| - 1], [name], true);
  }

  /**
   * Replacing a directory's last name by another name leaves a path outside
   * the directory, yet the directory's string stays a prefix exactly when the
   * new name extends the old one.
   */
  lemma {:induction false} ReplaceLastPrefix(dir: Directory, name: string)
    requires dir != [] && IsClean(name)
    ensures var target := dir[..|dir| - 1] + [name];
      StartsWith(Render(target, true, false), Render(dir, true, false)) <==> StartsWith(name, dir[|dir| - 1])
    ensures name != dir[|dir| - 1] ==> !(dir <= dir[..|dir| - 1] + [name])
  {
    var init := dir[..|dir| - 1];
    var w := dir[|dir| - 1];
    assert dir == init + [w];
    var x := RenderedFolder(init, name);
    var y := RenderedFolder(init, w);
    StartsWithAfter(x, name, w);
  }

  /** An absolute path's rendering is the rendering of its folder names followed by its last name. */
  lemma RenderedFolder(init: seq<string>, w: string) returns (x: string)
    ensures x == if init == [] then "/" else "/" + JoinSegs(init) + "/"
    ensures Render(init + [w], true, false) == x + w
  {
    x := if init == [] then "/" else "/" + JoinSegs(init) + "/";
    var segs := init + [w];
    assert segs != [] && JoinSegs([w]) == w;
    assert Render(segs, true, false) == "/" + JoinSegs(segs) + "";
    if init == [] {
      assert segs == [w];
    } else {
      JoinSegsAppend(init, [w]);
      assert "/" + (JoinSegs(init) + "/" + w) == x + w;
    }
  }

  /** `/../name` is a plain request: it decodes to itself, and no index file is appended. */
  lemma {:induction false} ClimbRequest(o: Options, name: string)
    requires o.root.Some? && o.root.value != []
    requires IsClean(name) && '%' !in name && '\0' !in name
    ensures var raw := "/../" + name;
      && UriCodec.Decode(raw) == Some(raw) && raw[0] == '/' && '\0' !in raw
      && Candidate(raw, raw, o) == raw && raw[|raw| - 1] != '/'
      && Collapse(o.root.value, Split(Candidate(raw, raw, o)), true) == o.root.value[..|o.root.value| - 1] + [name]
  {
    var raw := "/../" + name;
    ClimbWalk(o.root.value, name);
    assert '%' !in raw && '\0' !in raw;
    assert raw[|raw| - 1] == name[|name| - 1];
    assert Candidate(raw, raw, o) == raw;
  }

  /**
   * The bound of line 67 compares strings, not names. A request `/../name`
   * climbs from the root into its parent: it is refused unless `name` begins
   * with the root's last name, and when it does (a sibling such as
   * `www-secret` next to the root `/srv/www`) it is served although its names
   * no longer start with the root's.
   */
  lemma {:induction false} ClimbOneLevel(o: Options, name: string)
    requires o.root.Some? && o.root.value != []
    requires IsClean(name) && name[0] != '.' && '%' !in name && '\0' !in name
    ensures var dir := o.root.value;
      var target := dir[..|dir| - 1] + [name];
      Validate("/../" + name, o) ==
        if StartsWith(name, dir[|dir| - 1]) then Resolved(Render(target, true, false))
        else Error(Malicious, 400)
  {
    var dir := o.root.value;
    var target := dir[..|dir| - 1] + [name];
    ClimbRequest(o, name);
    assert Reduced(target, true) && target[|target| - 1] == name;
    PlainTarget("/../" + name, o, target);
    PlainOutcome("/../" + name, o, Render(target, true, false));
    ReplaceLastPrefix(dir, name);
  }

  /** With a root, a screened request whose target is not hidden is served exactly when the target passes the root bound. */
  lemma PlainOutcome(raw: string, o: Options, q: string)
    requires o.root.Some? && Screened(raw) && Target(raw, o) == q && !LeadingDot(q)
    ensures Validate(raw, o) == if StartsWith(q, RootString(o)) then Resolved(q) else Error(Malicious, 400)
  {
    WithRoot(raw, o);
  }

  /**
   * A request that decodes to itself and has no trailing separator passes the
   * screens, and its target is the rendering of its walk; when the walk ends
   * in a name without a leading dot, the target is not hidden.
   */
  lemma PlainTarget(raw: string, o: Options, target: seq<string>)
    requires o.root.Some? && UriCodec.Decode(raw) == Some(raw) && raw != [] && raw[0] == '/' && '\0' !in raw
    requires Candidate(raw, raw, o) == raw && raw[|raw| - 1] != '/'
    requires Collapse(o.root.value, Split(raw), true) == target
    requires Reduced(target, true) && target != [] && target[|target| - 1] != [] && target[|target| - 1][0] != '.'
    ensures Screened(raw) && Target(raw, o) == Render(target, true, false)
    ensures !LeadingDot(Render(target, true, false))
  {
    DecodedScreened(raw, raw, o);
    TargetOfRequest(raw, o, raw, target);
    BasenameRender(target, true, false);
  }

  /** A request that decodes to a path starting with `/` and holding no NUL passes the screens. */
  lemma DecodedScreened(raw: string, d: string, o: Options)
    requires UriCodec.Decode(raw) == Some(d) && d != [] && d[0] == '/' && '\0' !in d
    ensures Screened(raw) && Requested(raw, o) == Candidate(d, raw, o)
  {
    assert DecodePath(raw) == Text(d);
    NotMinusOneByFirstChar(d);
    OccursChar(d, '\0');
  }

  /** The target of a request without a trailing separator, given the walk of its path from the root. */
  lemma TargetOfRequest(raw: string, o: Options, p: string, segs: seq<string>)
    requires o.root.Some? && Requested(raw, o) == p && p != [] && p[|p| - 1] != '/'
    requires Collapse(o.root.value, Split(p), true) == segs
    ensures Target(raw, o) == Render(segs, true, false)
  {
    TargetUnderRoot(raw, o, p);
  }

  // ---------------------------------------------------------------------
  // stat and serve, lines 72-92
  // ---------------------------------------------------------------------

  /** What `fs.stat` reports: the file's modification time, or an error with its `code`, which may be missing. */
  datatype StatResult = Stats(mtime: int) | StatFailed(code: Option<string>)

  /**
   * How a request ends: `ctx.error(message, status)`, a bare return that sends
   * nothing, the stat error rethrown with status 500, or the file streamed
   * with its modification time as Last-Modified and its path returned.
   */
  datatype SendResult =
    | Failed(message: string, status: nat)
    | Skipped
    | Thrown(code: Option<string>, status: nat)
    | Served(path: string, lastModified: int)

  /** The codes of line 76. */
  const NotFoundCodes: seq<string> := ["ENOENT", "ENAMETOOLONG", "ENOTDIR"]

  /** `codes.indexOf(code)`: the first position holding the code, or -1; a missing code is never found. */
  function CodeIndex(codes: seq<string>, code: Option<string>): (r: int)
    ensures -1 <= r < |codes|
    ensures r == -1 <==> code.None? || code.value !in codes
    ensures r >= 0 ==> code.Some? && codes[r] == code.value && code.value !in codes[..r]
  {
    if code.None? || codes == [] then -1
    else if codes[0] == code.value then 0
    else
      var k := CodeIndex(codes[1..], code);
      assert k >= 0 ==> codes[..k + 1] == [codes[0]] + codes[1..][..k];
      if k == -1 then -1 else k + 1
  }

  /** Line 77: the stat failures that mean the file is not there. */
  predicate IsNotFound(code: Option<string>)
    ensures IsNotFound(code) <==> code == Some("ENOENT") || code == Some("ENAMETOOLONG") || code == Some("ENOTDIR")
  {
    BitNot(CodeIndex(NotFoundCodes, code)) != 0
  }

  /**
   * The generator of lines 45-92, with `fs.stat` as a parameter. It ends
   * where `Validate` says before any file is probed; a resolved path is
   * probed once, and the stat result decides between serving, skipping a
   * missing file and rethrowing any other failure with status 500.
   */
  method Send(raw: string, o: Options, stat: string -> StatResult) returns (res: SendResult, probed: seq<string>)
    ensures match Validate(raw, o)
      case Error(m, st) => res == Failed(m, st) && probed == []
      case Ignored => res == Skipped && probed == []
      case Resolved(p) =>
        probed == [p] &&
        res == (match stat(p)
                case Stats(t) => Served(p, t)
                case StatFailed(c) => if IsNotFound(c) then Skipped else Thrown(c, 500))
  {
    var trailingSlash := TrailingSlash(raw);
    var decoded := DecodePath(raw);
    if LooselyMinusOne(decoded) {
      return Failed(DecodeFailed, 400), [];
    }
    var path := decoded.s;
    if Includes(path, "\0") {
      return Failed(NullBytes, 400), [];
    }
    if o.index != "" && trailingSlash {
      path := path + o.index;
    }
    var root := RootString(o);
    if root == "" && !IsAbsolute(path) {
      return Failed(RootRequired, 500), [];
    }
    if root == "" && Includes(path, "..") {
      return Failed(Malicious, 400), [];
    }
    path := Normalize(Join(root, path));
    if root != "" && IndexOf(path, root) != 0 {
      return Failed(Malicious, 400), [];
    }
    if !o.hidden && LeadingDot(path) {
      return Skipped, [];
    }
    probed := [path];
    match stat(path) {
      case Stats(mtime) =>
        res := Served(path, mtime);
      case StatFailed(code) =>
        if IsNotFound(code) {
          res := Skipped;
        } else {
          res := Thrown(code, 500);
        }
    }
  }
}
