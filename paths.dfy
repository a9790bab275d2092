/**
 * Node's `path.join` of a directory and a name. The three-segment call
 * `join(a, b, c)` of the download handler is written `Join(Join(a, b), c)`,
 * which is the same under this model. The model is plain concatenation with
 * a `/` separator; a zero-length directory is skipped, as `path.join` skips
 * zero-length segments. A zero-length name is not skipped (for a non-empty
 * directory `path.join` gives the directory alone, the model the directory
 * and a trailing `/`; `path.join('', '')` is `.`, the model's join the empty
 * string), and no other normalisation (`.`, `..`, doubled or trailing separators, the
 * Windows `\` separator) is modelled.
 */
module Paths {

  const Separator: char := '/'

  function Join(dir: string, name: string): (p: string)
  {
    if dir == "" then name else dir + [Separator] + name
  }

  /**
   * The joined path ends with the name; for a non-empty directory it starts
   * with the directory and one separator, and an empty directory is skipped.
   */
  lemma JoinShape(dir: string, name: string)
    ensures var p := Join(dir, name);
      && |p| >= |name| && p[|p| - |name|..] == name
      && (dir == "" ==> p == name)
      && (dir != "" ==> |p| == |dir| + 1 + |name| && p[..|dir| + 1] == dir + [Separator])
  {
  }

  /**
   * `p` names `name` inside `dir`: it ends with `name` and, unless `dir` is
   * empty, starts with `dir` and one separator.
   */
  ghost predicate UnderDir(p: string, dir: string, name: string) {
    && |p| >= |name| && p[|p| - |name|..] == name
    && (dir == "" ==> |p| == |name|)
    && (dir != "" ==> |p| == |dir| + 1 + |name| && p[..|dir| + 1] == dir + [Separator])
  }

  lemma JoinIsUnderDir(dir: string, name: string)
    ensures UnderDir(Join(dir, name), dir, name)
  {
    JoinShape(dir, name);
  }

  /** Distinct names joined to the same directory give distinct paths. */
  lemma JoinDistinct(dir: string, a: string, b: string)
    requires a != b
    ensures Join(dir, a) != Join(dir, b)
  {
    var pa, pb := Join(dir, a), Join(dir, b);
    JoinShape(dir, a);
    JoinShape(dir, b);
    if |a| == |b| {
      assert a == pa[|pa| - |a|..];
      assert b == pb[|pb| - |b|..];
    }
  }

  /** Appending an extension to the name appends it to the joined path. */
  lemma JoinExtends(dir: string, name: string, ext: string)
    ensures Join(dir, name + ext) == Join(dir, name) + ext
  {
    if dir != "" {
      assert dir + [Separator] + (name + ext) == (dir + [Separator] + name) + ext;
    }
  }

  /** A joined path with a non-empty name is never the directory itself. */
  lemma JoinIsNotDir(dir: string, name: string)
    requires name != ""
    ensures Join(dir, name) != dir
  {
    JoinShape(dir, name);
  }
}
