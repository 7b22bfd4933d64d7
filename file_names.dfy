/** File names in main.c: the extension test that picks the loader (`getFileExt`) and the
    name of the output file, the base name of the input with `.vmd` in place of its
    extension. */
module FileNames {
  import opened VmdData

  /** `strrchr(s, c)`: the position of the last `c` in `s`. */
  function LastIndex(s: string, c: char): (r: Option<nat>)
    ensures r.Some? ==> r.value < |s| && s[r.value] == c
    ensures r.Some? ==> forall q :: r.value < q < |s| ==> s[q] != c
    ensures r.None? ==> forall q :: 0 <= q < |s| ==> s[q] != c
    decreases |s|
  {
    if s == [] then None
    else if s[|s| - 1] == c then Some(|s| - 1)
    else LastIndex(s[..|s| - 1], c)
  }

  /** Where `getFileExt` points: just after the last dot, or nowhere when `s` has no dot
      or its last dot is its first character (the function then returns the literal `""`,
      which is not part of `s`). */
  function ExtStart(s: string): (r: Option<nat>)
    ensures r.Some? ==> 2 <= r.value <= |s| && s[r.value - 1] == '.'
  {
    match LastIndex(s, '.')
    case None => None
    case Some(dot) => if dot == 0 then None else Some(dot + 1)
  }

  /** The text `getFileExt` returns. */
  function FileExt(s: string): (ext: string)
    ensures |ext| <= |s| && ext == s[|s| - |ext|..]
    ensures forall q :: 0 <= q < |ext| ==> ext[q] != '.'
  {
    match ExtStart(s)
    case None => ""
    case Some(k) => s[k..]
  }

  /** The extension is empty when there is no dot or the only dot leads the name;
      otherwise the name is a non-empty stem, a dot and the extension, which holds no
      dot. */
  lemma FileExtSpec(s: string)
    ensures (forall q :: 1 <= q < |s| ==> s[q] != '.') ==> FileExt(s) == ""
    ensures ExtStart(s).Some? ==>
      var stem := s[..ExtStart(s).value - 1];
      && s == stem + "." + FileExt(s) && stem != "" && '.' !in FileExt(s)
  {
    match ExtStart(s)
    case None =>
    case Some(k) =>
      assert s == s[..k - 1] + "." + s[k..];
      assert forall q :: 0 <= q < |s[k..]| ==> s[k..][q] == s[k + q];
  }

  /** `basename` of libgen.h: the last component of `path` after removing trailing
      slashes; `.` for the empty path and `/` for a path of slashes only. */
  function Basename(path: string): (b: string)
    ensures b != []
    ensures path == [] ==> b == "."
    ensures path != [] && TrimSlashes(path) == [] ==> b == "/"
    ensures TrimSlashes(path) != [] ==>
      var t := TrimSlashes(path);
      && |b| <= |t| && b == t[|t| - |b|..]
      && (forall q :: 0 <= q < |b| ==> b[q] != '/')
      && (|b| < |t| ==> t[|t| - |b| - 1] == '/')
  {
    if path == [] then "."
    else
      var trimmed := TrimSlashes(path);
      if trimmed == [] then "/"
      else
        match LastIndex(trimmed, '/')
        case None => trimmed
        case Some(slash) => trimmed[slash + 1..]
  }

  /** `path` without its trailing slashes. */
  function TrimSlashes(path: string): (t: string)
    ensures t <= path && (t == [] || t[|t| - 1] != '/')
    ensures forall q :: |t| <= q < |path| ==> path[q] == '/'
    decreases |path|
  {
    if path != [] && path[|path| - 1] == '/' then TrimSlashes(path[..|path| - 1]) else path
  }

  /** The output name as `main` derives it: `nameLen` is the distance from the base name to
      the extension, the first `nameLen - 1` characters (the stem) are copied and `.vmd`
      is appended. When `getFileExt` returns its literal `""` the distance is taken between
      two unrelated objects, which is undefined; the result is then `None`. */
  function OutputName(name: string): (r: Option<string>)
    ensures r.Some? ==>
      var n := |r.value| - 4;
      && 0 < n < |name| && name[n] == '.'
      && r.value[..n] == name[..n] && r.value[n..] == ".vmd"
  {
    match ExtStart(name)
    case None => None
    case Some(nameLen) => Some(name[..nameLen - 1] + ".vmd")
  }

  /** Where it is defined, the output name is the stem of the base name before its last
      dot, followed by `.vmd`. */
  lemma OutputNameSpec(name: string)
    ensures OutputName(name).Some? <==> ExtStart(name).Some?
    ensures OutputName(name).Some? ==>
      && name == name[..ExtStart(name).value - 1] + "." + FileExt(name)
      && OutputName(name).value == name[..ExtStart(name).value - 1] + ".vmd"
  {
    FileExtSpec(name);
  }

  /** The output name with the evident intent of the source: the text before the last dot
      of the base name followed by `.vmd`, also when that dot is the first character. */
  function VmdName(name: string): (r: Option<string>)
    ensures r.Some? <==> exists q :: 0 <= q < |name| && name[q] == '.'
    ensures r.Some? ==>
      var n := |r.value| - 4;
      && 0 <= n < |name| && name[n] == '.' && (forall q :: n < q < |name| ==> name[q] != '.')
      && r.value[..n] == name[..n] && r.value[n..] == ".vmd"
  {
    match LastIndex(name, '.')
    case None => None
    case Some(dot) => Some(name[..dot] + ".vmd")
  }

  /** The name `main` gives the output for the input path `path`: none when the extension
      of the path is not `obj` (the program stops with "Unsupported model format"). */
  function ConvertedName(path: string): (r: Option<string>)
    ensures FileExt(path) != "obj" ==> r.None?
    ensures r.Some? ==> |r.value| >= 4 && r.value[|r.value| - 4..] == ".vmd"
  {
    if FileExt(path) != "obj" then None else VmdName(Basename(path))
  }

  /** Every path the program accepts gets an output name: the base name of the path is a
      stem followed by `.obj`, and the output name is that stem followed by `.vmd`. */
  lemma ConvertedNameSpec(path: string)
    requires FileExt(path) == "obj"
    ensures var b := Basename(path);
      && |b| >= 4 && b[|b| - 4..] == ".obj"
      && ConvertedName(path) == Some(b[..|b| - 4] + ".vmd")
  {
    var b := Basename(path);
    BasenameOfObj(path);
    LastIndexIs(b, '.', |b| - 4);
  }

  /** The base name of a path with extension `obj` ends with `.obj`. */
  lemma BasenameOfObj(path: string)
    requires FileExt(path) == "obj"
    ensures var b := Basename(path);
      |b| >= 4 && b[|b| - 4..] == ".obj"
  {
    ObjPath(path);
    BasenameKeepsSuffix(path, ".obj");
  }

  /** A path with extension `obj` ends with `.obj`. */
  lemma ObjPath(path: string)
    requires FileExt(path) == "obj"
    ensures |path| >= 4 && path[|path| - 4..] == ".obj"
  {
    FileExtSpec(path);
    var k := ExtStart(path).value;
    assert path == path[..k - 1] + "." + "obj";
  }

  /** A path that ends with a non-empty text free of slashes keeps that ending in its base
      name. */
  lemma BasenameKeepsSuffix(path: string, suffix: string)
    requires 0 < |suffix| <= |path| && path[|path| - |suffix|..] == suffix
    requires forall q :: 0 <= q < |suffix| ==> suffix[q] != '/'
    ensures |Basename(path)| >= |suffix| && Basename(path)[|Basename(path)| - |suffix|..] == suffix
  {
    assert path[|path| - 1] == suffix[|suffix| - 1];
    assert TrimSlashes(path) == path;
    SlashFreeTail(path, Basename(path), suffix);
  }

  /** A tail `b` of `t` that is preceded by a slash unless it is all of `t` covers every
      slash-free ending of `t`. */
  lemma SlashFreeTail(t: string, b: string, suffix: string)
    requires 0 < |suffix| <= |t| && t[|t| - |suffix|..] == suffix
    requires forall q :: 0 <= q < |suffix| ==> suffix[q] != '/'
    requires |b| <= |t| && b == t[|t| - |b|..]
    requires |b| < |t| ==> t[|t| - |b| - 1] == '/'
    ensures |b| >= |suffix| && b[|b| - |suffix|..] == suffix
  {
  }

  /** The last `c` of `s` is the one at `i` when no `c` follows it. */
  lemma {:induction false} LastIndexIs(s: string, c: char, i: nat)
    requires i < |s| && s[i] == c
    requires forall q :: i < q < |s| ==> s[q] != c
    ensures LastIndex(s, c) == Some(i)
    decreases |s|
  {
    if i < |s| - 1 {
      LastIndexIs(s[..|s| - 1], c, i);
    }
  }

  /** The source's derivation and the intended one agree wherever the source is defined. */
  lemma OutputNameAgrees(name: string)
    requires OutputName(name).Some?
    ensures VmdName(name) == OutputName(name)
  {
  }

  /** `models/.obj` is accepted as an OBJ file, but its base name `.obj` has its only dot
      first, so `getFileExt` returns its literal `""` and the output name is undefined. */
  lemma LeadingDotBasename()
    ensures FileExt("models/.obj") == "obj"
    ensures Basename("models/.obj") == ".obj"
    ensures OutputName(Basename("models/.obj")).None?
    ensures ConvertedName("models/.obj") == Some(".vmd")
  {
    LastIndexIs("models/.obj", '.', 7);
    LastIndexIs("models/.obj", '/', 6);
    LastIndexIs(".obj", '.', 0);
    assert TrimSlashes("models/.obj") == "models/.obj";
    assert "models/.obj"[7..] == ".obj";
    assert ".obj"[..0] + ".vmd" == ".vmd";
  }
}
