/**
 * POSIX `pathlib` paths as the driver builds them: `Path(text)` and
 * `path.parents[0]`.
 */
module Paths {
  import opened Wrappers
  import opened Py

  /** A pure POSIX path: whether it starts at the root, and its components. */
  datatype Path = Path(absolute: bool, parts: seq<string>)

  /** What pathlib keeps as a component: non-empty, not ".", no slash. */
  predicate IsComponent(p: string) {
    p != [] && p != "." && '/' !in p
  }

  /** The pieces between slashes that pathlib keeps: empty pieces and "." are dropped. */
  function Components(pieces: seq<string>): (parts: seq<string>)
    ensures forall i :: 0 <= i < |parts| ==> parts[i] != [] && parts[i] != "." && parts[i] in pieces
  {
    if pieces == [] then []
    else
      var init := Components(pieces[..|pieces| - 1]);
      var last := pieces[|pieces| - 1];
      if last == [] || last == "." then init else init + [last]
  }

  /** `Path(s)`: rooted when `s` starts with a slash; every component is a proper component. */
  function PathOf(s: string): (p: Path)
    ensures forall i :: 0 <= i < |p.parts| ==> IsComponent(p.parts[i])
  {
    var pieces := Split(s, '/');
    var parts := Components(pieces);
    assert forall i :: 0 <= i < |parts| ==> '/' !in parts[i] by {
      forall i | 0 <= i < |parts| ensures '/' !in parts[i] {
        var j :| 0 <= j < |pieces| && pieces[j] == parts[i];
      }
    }
    Path(|s| > 0 && s[0] == '/', parts)
  }

  /** `p.parents[0]`; pathlib raises IndexError (None here) for a path without components. */
  function Parent(p: Path): Option<Path>
  {
    if p.parts == [] then None else Some(Path(p.absolute, p.parts[..|p.parts| - 1]))
  }

  /**
   * Joining a component to a non-empty prefix with a slash adds exactly that
   * component, and the parent of the result is the prefix's path.
   */
  lemma ChildPath(prefix: string, name: string)
    requires prefix != []
    requires IsComponent(name)
    ensures PathOf(prefix + "/" + name) == Path(PathOf(prefix).absolute, PathOf(prefix).parts + [name])
    ensures Parent(PathOf(prefix + "/" + name)) == Some(PathOf(prefix))
  {
    var s := prefix + "/" + name;
    assert s == prefix + ['/'] + name;
    SplitAppend(prefix, '/', name);
    SplitWithoutSeparator(name, '/');
    var pieces := Split(prefix, '/') + [name];
    assert pieces[..|pieces| - 1] == Split(prefix, '/');
    assert s[0] == prefix[0];
    var p := PathOf(s);
    assert p.parts == PathOf(prefix).parts + [name];
    assert p.parts[..|p.parts| - 1] == PathOf(prefix).parts;
  }
}
