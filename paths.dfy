/** The `pathlib` operations the bot applies to downloaded files (`name`,
    `suffix`, `stem`, `with_suffix` and `/`), and `normalize_download_path`.
    A path is its text; the file system is a map from the paths that exist to
    their sizes in bytes. */
module Paths {
  import opened Wrappers
  import opened Text

  /** The paths that exist, each with its `stat().st_size`. */
  type Files = map<string, nat>

  /** `with_suffix` raises `ValueError` on a path whose name is empty. */
  datatype PathError = EmptyName

  /** `s.rfind(c)`: the last index holding `c`, or -1. */
  function LastIndex(s: string, c: char): (r: int)
    ensures -1 <= r < |s|
    ensures r >= 0 ==> s[r] == c
    ensures forall j :: r < j < |s| ==> s[j] != c
    decreases |s|
  {
    if s == [] then -1 else if s[|s| - 1] == c then |s| - 1 else LastIndex(s[..|s| - 1], c)
  }

  /** The last component of a path; `Path(".")` has the empty name. */
  function Name(p: string): (n: string)
    ensures '/' !in n
  {
    var raw := p[LastIndex(p, '/') + 1..];
    if raw == "." then "" else raw
  }

  /** Everything before the name: the parent directory with its trailing `/`,
      or nothing for a relative one-component path. */
  function DirOf(p: string): (d: string)
    ensures d == [] || d[|d| - 1] == '/'
  {
    p[..LastIndex(p, '/') + 1]
  }

  /** Whether a name has a suffix: a last dot that is neither its first nor its
      last character. */
  predicate HasSuffix(name: string) {
    0 < LastIndex(name, '.') < |name| - 1
  }

  /** `PurePath.suffix` of a path whose name is `name`. */
  function Suffix(name: string): (s: string)
    ensures s == [] || (|s| >= 2 && s[0] == '.' && '.' !in s[1..])
  {
    if HasSuffix(name) then
      name[LastIndex(name, '.')..]
    else []
  }

  /** `PurePath.stem` of a path whose name is `name`. */
  function Stem(name: string): string {
    if HasSuffix(name) then name[..LastIndex(name, '.')] else name
  }

  /** A name is its stem followed by its suffix; a non-empty name has a
      non-empty stem. */
  lemma StemThenSuffix(name: string)
    ensures Stem(name) + Suffix(name) == name
    ensures name != [] ==> Stem(name) != []
    ensures '/' !in name ==> '/' !in Stem(name)
  {
  }

  /** `path.with_suffix(".mp4")`: the same directory, the stem, then `.mp4`. */
  function Mp4Sibling(p: string): (r: Result<string, PathError>)
    ensures r.Err? <==> Name(p) == []
  {
    if Name(p) == [] then Err(EmptyName) else Ok(DirOf(p) + Stem(Name(p)) + ".mp4")
  }

  /** `normalize_download_path(filename)`: when the declared file exists and
      its suffix is not `.mp4` in any case, and its `.mp4` sibling exists, the
      sibling; otherwise the declared path. */
  function NormalizeDownloadPath(p: string, files: Files): Result<string, PathError> {
    if Lower(Suffix(Name(p))) != ".mp4" && p in files then
      match Mp4Sibling(p)
      case Err(e) => Err(e)
      case Ok(sibling) => if sibling in files then Ok(sibling) else Ok(p)
    else Ok(p)
  }

  /** Appending text free of `c` leaves the last `c` where it was. */
  lemma {:induction false} LastIndexAppend(a: string, b: string, c: char)
    requires c !in b
    ensures LastIndex(a + b, c) == LastIndex(a, c)
    decreases |b|
  {
    if b != [] {
      var ab := a + b;
      assert ab[..|ab| - 1] == a + b[..|b| - 1];
      assert c !in b[..|b| - 1];
      LastIndexAppend(a, b[..|b| - 1], c);
    } else {
      assert a + b == a;
    }
  }

  /** The path `dir + name`, for a directory part as `DirOf` gives it and a
      name without `/`, splits back into the two. */
  lemma SplitPath(dir: string, name: string)
    requires dir == [] || dir[|dir| - 1] == '/'
    requires '/' !in name && name != "."
    ensures DirOf(dir + name) == dir && Name(dir + name) == name
  {
    LastIndexAppend(dir, name, '/');
    var p := dir + name;
    assert LastIndex(p, '/') + 1 == |dir|;
    assert p[..|dir|] == dir && p[|dir|..] == name;
  }

  /** The suffix and stem of `stem + ".mp4"`, for a non-empty stem. */
  lemma Mp4Name(stem: string)
    requires stem != []
    ensures Suffix(stem + ".mp4") == ".mp4" && Stem(stem + ".mp4") == stem
  {
    var n := stem + ".mp4";
    assert n[|stem|] == '.';
    LastIndexAppend(stem + ".", "mp4", '.');
    assert n == (stem + ".") + "mp4";
    assert LastIndex(n, '.') == |stem|;
    assert n[|stem|..] == ".mp4" && n[..|stem|] == stem;
  }

  /** A directory part, a stem and `.mp4` make a path with that directory,
      that stem and the suffix `.mp4`. */
  lemma Mp4PathParts(dir: string, stem: string)
    requires dir == [] || dir[|dir| - 1] == '/'
    requires '/' !in stem && stem != []
    ensures var s := dir + stem + ".mp4";
      DirOf(s) == dir && Stem(Name(s)) == stem && Suffix(Name(s)) == ".mp4"
  {
    var n := stem + ".mp4";
    assert '/' !in n;
    SplitPath(dir, n);
    assert dir + stem + ".mp4" == dir + n;
    Mp4Name(stem);
  }

  /** The `.mp4` sibling lives in the same directory, keeps the stem, and its
      suffix is `.mp4`. */
  lemma SiblingShape(p: string)
    requires Name(p) != []
    ensures var s := Mp4Sibling(p).value;
      DirOf(s) == DirOf(p) && Stem(Name(s)) == Stem(Name(p)) && Suffix(Name(s)) == ".mp4"
  {
    StemThenSuffix(Name(p));
    Mp4PathParts(DirOf(p), Stem(Name(p)));
  }

  /** The path changes exactly when the declared file exists, its suffix is not
      `.mp4`, and the `.mp4` sibling exists; `with_suffix` raises exactly when
      the path exists, has no `.mp4` suffix and its name is empty; a result is
      always the declared path or an existing file. */
  lemma NormalizeCases(p: string, files: Files)
    ensures var r := NormalizeDownloadPath(p, files);
      && (r.Ok? && r.value != p <==>
            Lower(Suffix(Name(p))) != ".mp4" && p in files && Name(p) != []
            && Mp4Sibling(p).value in files && Mp4Sibling(p).value != p)
      && (r.Ok? && r.value != p ==> r.value == Mp4Sibling(p).value)
      && (r.Err? <==> p in files && Name(p) == [])
      && (r.Ok? ==> r.value == p || r.value in files)
  {
  }

  /** A declared file that does not exist is returned as it is, even when its
      `.mp4` sibling exists. */
  lemma MissingDeclaredFileKept(p: string, files: Files)
    requires p !in files
    ensures NormalizeDownloadPath(p, files) == Ok(p)
  {
  }

  /** A file already named `.mp4` (in any letter case) is never replaced. */
  lemma Mp4Kept(p: string, files: Files)
    requires Lower(Suffix(Name(p))) == ".mp4"
    ensures NormalizeDownloadPath(p, files) == Ok(p)
  {
  }

  /** A substituted path is the sibling: same directory and stem, suffix `.mp4`. */
  lemma NormalizedSibling(p: string, files: Files)
    requires NormalizeDownloadPath(p, files).Ok? && NormalizeDownloadPath(p, files).value != p
    ensures var q := NormalizeDownloadPath(p, files).value;
      q in files && DirOf(q) == DirOf(p) && Stem(Name(q)) == Stem(Name(p)) && Suffix(Name(q)) == ".mp4"
  {
    SiblingShape(p);
  }

  /** Normalizing twice is normalizing once. */
  lemma NormalizeIdempotent(p: string, files: Files)
    requires NormalizeDownloadPath(p, files).Ok?
    ensures NormalizeDownloadPath(NormalizeDownloadPath(p, files).value, files) == NormalizeDownloadPath(p, files)
  {
    var q := NormalizeDownloadPath(p, files).value;
    if q != p {
      NormalizedSibling(p, files);
      assert Lower(".mp4") == ".mp4";
      Mp4Kept(q, files);
    }
  }

  /** `a / b` for a relative name `b` without `/`: `Path("")` and `Path(".")`
      contribute nothing, and a separator is added unless one is already there. */
  function JoinPath(dir: string, name: string): (p: string)
    requires '/' !in name
    ensures p == dir + name || p == dir + "/" + name || p == name
  {
    if dir == "" || dir == "." then name
    else if dir[|dir| - 1] == '/' then dir + name
    else dir + "/" + name
  }

  /** The joined name is the last component of the result, under the joined
      directory. */
  lemma JoinPathName(dir: string, name: string)
    requires '/' !in name && name != "" && name != "."
    ensures Name(JoinPath(dir, name)) == name
  {
    if dir == "" || dir == "." {
      SplitPath("", name);
      assert "" + name == name;
    } else if dir[|dir| - 1] == '/' {
      SplitPath(dir, name);
    } else {
      SplitPath(dir + "/", name);
    }
  }
}
