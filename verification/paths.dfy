/** The parts of Rust's `Path` the tooling uses: the file name, its extension
    and stem, and the directory prefix `set_file_name` keeps. Paths are
    '/'-separated strings. */
module Paths {
  import opened Wrappers
  import opened Text

  /** Everything up to and including the last '/', or "" when there is none. */
  function DirPrefix(path: string): (d: string)
    ensures StartsWith(path, d)
    ensures d == [] || d[|d| - 1] == '/'
  {
    match LastIndexOf(path, '/')
    case None => []
    case Some(i) => path[..i + 1]
  }

  /** The last component: what follows the last '/', unless that is empty or `..`. */
  function FileName(path: string): (r: Option<string>)
    ensures r.Some? ==> r.value != [] && '/' !in r.value && path == DirPrefix(path) + r.value
  {
    var name := path[|DirPrefix(path)|..];
    assert path == DirPrefix(path) + name;
    if name == [] || name == ".." then None else Some(name)
  }

  /** Rust's split of a file name at its last '.': (stem part, extension part).
      A name whose only '.' is its first character has no extension. */
  function SplitAtDot(name: string): (Option<string>, Option<string>) {
    if name == ".." then (Some(name), None)
    else
      match LastIndexOf(name, '.')
      case None => (None, Some(name))
      case Some(i) => if i == 0 then (Some(name), None) else (Some(name[..i]), Some(name[i + 1..]))
  }

  /** A '.' somewhere after the first character of `name`. */
  predicate HasInnerDot(name: string) {
    exists i :: 0 < i < |name| && name[i] == '.'
  }

  /** Rust's `Path::extension`: what follows the last '.' of the file name,
      when that '.' is not the name's first character. */
  function Extension(path: string): (r: Option<string>)
    ensures r.Some? ==> '.' !in r.value && '/' !in r.value
    ensures r.Some? ==> exists stem :: stem != [] && FileName(path) == Some(stem + "." + r.value)
    ensures r.None? <==> FileName(path).None? || !HasInnerDot(FileName(path).value)
  {
    match FileName(path)
    case None => None
    case Some(name) =>
      var (before, after) := SplitAtDot(name);
      SplitAtDotShape(name);
      if before.Some? && after.Some? then after else None
  }

  /** What `SplitAtDot` gives for a file name other than `..`. */
  lemma SplitAtDotShape(name: string)
    requires name != ".."
    ensures var (before, after) := SplitAtDot(name);
      && (before.Some? && after.Some? <==> HasInnerDot(name))
      && (before.Some? && after.Some? ==>
            && before.value != [] && '.' !in after.value
            && name == before.value + "." + after.value)
      && (!HasInnerDot(name) ==> before.OrElse(after) == Some(name))
  {
    match LastIndexOf(name, '.')
    case None =>
    case Some(i) =>
      if i == 0 {
        assert !HasInnerDot(name);
      } else {
        assert name == name[..i] + "." + name[i + 1..];
        var ext := name[i + 1..];
        assert '.' !in ext by {
          forall k | 0 <= k < |ext| ensures ext[k] != '.' {
            assert ext[k] == name[i + 1 + k];
          }
        }
      }
  }

  /** Rust's `Path::file_stem`: the file name before its last '.', or the
      whole name when it has no extension. */
  function FileStem(path: string): (r: Option<string>)
    ensures r.Some? ==> r.value != [] && '/' !in r.value
    ensures r.None? <==> FileName(path).None?
    ensures Extension(path).Some? ==> r.Some? && FileName(path) == Some(r.value + "." + Extension(path).value)
    ensures Extension(path).None? ==> r == FileName(path)
  {
    match FileName(path)
    case None => None
    case Some(name) =>
      var (before, after) := SplitAtDot(name);
      SplitAtDotShape(name);
      assert before.Some? ==> before.value != [] && '/' !in before.value by {
        if before.Some? && name != ".." {
          var i := LastIndexOf(name, '.').value;
          if i > 0 {
            assert forall k :: 0 <= k < i ==> name[..i][k] == name[k];
          }
        }
      }
      before.OrElse(after)
  }

  /** The extension read in reverse: a path whose file name is a non-empty
      stem, a '.' and a text without '.' has that text as its extension. */
  lemma ExtensionOfFileName(path: string, stem: string, ext: string)
    requires stem != [] && '.' !in ext
    requires FileName(path) == Some(stem + "." + ext)
    ensures Extension(path) == Some(ext)
    ensures FileStem(path) == Some(stem)
  {
    SplitOfName(stem, ext);
  }

  /** A file name with a non-empty stem splits into that stem and its extension. */
  lemma ExtensionOfName(dir: string, stem: string, ext: string)
    requires dir == [] || dir[|dir| - 1] == '/'
    requires stem != [] && stem != "." && '/' !in stem
    requires '.' !in ext && '/' !in ext
    ensures Extension(dir + stem + "." + ext) == Some(ext)
    ensures FileStem(dir + stem + "." + ext) == Some(stem)
  {
    FileNameOfJoin(dir, stem, ext);
    ExtensionOfFileName(dir + stem + "." + ext, stem, ext);
  }

  lemma FileNameOfJoin(dir: string, stem: string, ext: string)
    requires dir == [] || dir[|dir| - 1] == '/'
    requires stem != [] && stem != "." && '/' !in stem
    requires '/' !in ext
    ensures FileName(dir + stem + "." + ext) == Some(stem + "." + ext)
  {
    var name := stem + "." + ext;
    var path := dir + name;
    assert path == dir + stem + "." + ext;
    assert '/' !in name by {
      forall i | 0 <= i < |name| ensures name[i] != '/' {
        if i < |stem| { assert name[i] == stem[i]; }
        else if i > |stem| { assert name[i] == ext[i - |stem| - 1]; }
      }
    }
    LastSlashOfJoin(dir, name);
    assert DirPrefix(path) == dir;
    assert path[|dir|..] == name;
    assert name != ".." by {
      if |name| == 2 { assert stem == [name[0]]; }
    }
  }

  lemma SplitOfName(stem: string, ext: string)
    requires stem != [] && stem + "." + ext != ".."
    requires '.' !in ext
    ensures SplitAtDot(stem + "." + ext) == (Some(stem), Some(ext))
  {
    var name := stem + "." + ext;
    assert name == stem + ['.'] + ext;
    LastIndexOfJoin(stem, '.', ext);
    assert name[..|stem|] == stem;
    assert name[|stem| + 1..] == ext;
  }

  lemma LastSlashOfJoin(dir: string, name: string)
    requires dir == [] || dir[|dir| - 1] == '/'
    requires '/' !in name
    ensures LastIndexOf(dir + name, '/') == (if dir == [] then None else Some(|dir| - 1))
  {
    var s := dir + name;
    assert forall k :: |dir| <= k < |s| ==> s[k] == name[k - |dir|];
    if dir == [] {
      assert s == name;
    } else {
      assert s[|dir| - 1] == '/';
      var i := LastIndexOf(s, '/').value;
      assert i >= |dir| - 1;
      assert i <= |dir| - 1;
    }
  }
}
