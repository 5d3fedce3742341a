/** File-system paths as sequences of components, absolute from the root.
    Rendering joins the components with `/`. */
module Paths {
  import opened Wrappers

  type Path = seq<string>

  /** `path.join(name)`. */
  function Join(p: Path, name: string): (r: Path)
    ensures |r| == |p| + 1 && r[..|p|] == p && r[|p|] == name
  {
    p + [name]
  }

  /** `path.parent()`: `None` for the root. */
  function Parent(p: Path): (r: Option<Path>)
    ensures r.None? <==> p == []
    ensures r.Some? ==> Join(r.value, p[|p| - 1]) == p
  {
    if p == [] then None else Some(p[..|p| - 1])
  }

  /** `path.strip_prefix(base)`, component-wise. */
  function StripPrefix(p: Path, base: Path): (r: Option<Path>)
    ensures r.Some? <==> (|base| <= |p| && p[..|base|] == base)
    ensures r.Some? ==> base + r.value == p
  {
    if |base| <= |p| && p[..|base|] == base then Some(p[|base|..]) else None
  }

  /** Components joined with `/`, without a leading separator. */
  function JoinComponents(p: Path): string
  {
    if p == [] then "" else if |p| == 1 then p[0] else p[0] + "/" + JoinComponents(p[1..])
  }

  /** `path.to_str()` of an absolute path. */
  function Render(p: Path): string
  {
    "/" + JoinComponents(p)
  }

  lemma ParentOfJoin(p: Path, name: string)
    ensures Parent(Join(p, name)) == Some(p)
  {
    assert Join(p, name)[..|p|] == p;
  }

  lemma StripPrefixOfAppend(base: Path, rel: Path)
    ensures StripPrefix(base + rel, base) == Some(rel)
  {
    assert (base + rel)[..|base|] == base;
    assert (base + rel)[|base|..] == rel;
  }
}
