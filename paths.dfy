/**
 * The slash-separated path that the sprite walk threads through its
 * recursion. It names each dir and sprite in the diagnostic line, and
 * nothing that is returned depends on it.
 */
module Paths {

  /** The synthetic root path the walk starts from. */
  const Root: string := "/"

  /**
   * The path of the child `name` below `path`: parent path, "/", name; when
   * the parent is the synthetic root, the first character is dropped so the
   * result starts with a single slash.
   */
  function ChildPath(path: string, name: string): string
  {
    var full := path + "/" + name;
    if path == Root then full[1..] else full
  }

  /** Below the root the child path is "/" and the name; elsewhere, parent, "/" and name. */
  lemma ChildPathShape(path: string, name: string)
    ensures ChildPath(path, name) == if path == Root then "/" + name else path + "/" + name
  {
  }

  /** The path reached from `path` by descending through `names` in turn. */
  function DescendPath(path: string, names: seq<string>): string
    decreases names
  {
    if names == [] then path else DescendPath(ChildPath(path, names[0]), names[1..])
  }

  /** `names` joined with "/" between them. */
  function Join(names: seq<string>): string
  {
    if names == [] then ""
    else if |names| == 1 then names[0]
    else names[0] + "/" + Join(names[1..])
  }

  /** Below any path other than the root (and the empty path), each name adds "/" and itself. */
  lemma {:induction false} DescendBelow(path: string, names: seq<string>)
    requires path != Root && path != ""
    ensures DescendPath(path, names) == if names == [] then path else path + "/" + Join(names)
    decreases names
  {
    if names != [] {
      var next := ChildPath(path, names[0]);
      DescendBelow(next, names[1..]);
      if |names| > 1 {
        assert next + "/" + Join(names[1..]) == path + "/" + (names[0] + "/" + Join(names[1..]));
      }
    }
  }

  /**
   * From the root, the accumulated path is "/" followed by the names joined
   * with "/", provided the first name is not empty.
   */
  lemma RootPath(names: seq<string>)
    requires names == [] || names[0] != ""
    ensures DescendPath(Root, names) == "/" + Join(names)
  {
    if names != [] {
      var first := ChildPath(Root, names[0]);
      assert first != Root by {
        assert |first| >= 2;
      }
      assert DescendPath(Root, names) == DescendPath(first, names[1..]);
      DescendBelow(first, names[1..]);
      if |names| > 1 {
        assert first == "/" + names[0];
        assert first + "/" + Join(names[1..]) == "/" + (names[0] + "/" + Join(names[1..]));
      }
    }
  }

  /** A path that starts with one slash and not two. */
  predicate SingleLeadingSlash(path: string)
  {
    |path| >= 1 && path[0] == '/' && (|path| == 1 || path[1] != '/')
  }

  /** If no name starts with a slash, no accumulated path starts with "//". */
  lemma {:induction false} NoDoubleLeadingSlash(path: string, names: seq<string>)
    requires SingleLeadingSlash(path)
    requires forall i :: 0 <= i < |names| ==> names[i] == "" || names[i][0] != '/'
    ensures SingleLeadingSlash(DescendPath(path, names))
    decreases names
  {
    if names != [] {
      var next := ChildPath(path, names[0]);
      if path != Root {
        assert next[..2] == path[..2];
      }
      NoDoubleLeadingSlash(next, names[1..]);
    }
  }

  /**
   * An empty dir name directly below the root yields the root path again, so
   * the next name is not preceded by an empty segment: the joined form above
   * does not hold without its precondition.
   */
  lemma EmptyNameBelowRoot()
    ensures DescendPath(Root, ["", "b"]) == "/b"
    ensures "/" + Join(["", "b"]) == "//b"
  {
  }
}
