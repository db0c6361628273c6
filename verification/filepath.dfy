/**
 Go's `filepath.Base` on a Unix system (separator '/', no volume names), which
 gobble applies to the path of the target URL to name its output file.
 */
module FilePath {

  predicate AllSlashes(p: string)
  {
    forall i :: 0 <= i < |p| ==> p[i] == '/'
  }

  /** A single path element: non-empty and free of separators. */
  predicate IsElement(name: string)
  {
    name != [] && forall i :: 0 <= i < |name| ==> name[i] != '/'
  }

  /** `p` with its trailing separators removed. */
  function TrimTrailingSlashes(p: string): (r: string)
    ensures |r| <= |p| && r == p[..|r|]
    ensures r == [] || r[|r| - 1] != '/'
    ensures forall i :: |r| <= i < |p| ==> p[i] == '/'
  {
    if |p| > 0 && p[|p| - 1] == '/' then TrimTrailingSlashes(p[..|p| - 1]) else p
  }

  /** The part of `p` after its last separator (all of `p` when it has none). */
  function LastElement(p: string): (r: string)
    ensures |r| <= |p| && r == p[|p| - |r|..]
    ensures forall i :: 0 <= i < |r| ==> r[i] != '/'
    ensures |r| < |p| ==> p[|p| - |r| - 1] == '/'
  {
    if |p| > 0 && p[|p| - 1] != '/' then LastElement(p[..|p| - 1]) + [p[|p| - 1]] else []
  }

  /** `filepath.Base(path)`: the last element of `path` once trailing
      separators are dropped; "." for the empty path and "/" for a path made
      of separators only. */
  function Base(path: string): (r: string)
    // never empty
    ensures r != []
    ensures path == [] ==> r == "."
    // "/" exactly for a non-empty path of separators only
    ensures path != [] && AllSlashes(path) <==> r == "/"
    // otherwise a single element that ends `path`, up to trailing separators
    ensures r != "/" ==> IsElement(r)
    ensures path != [] && !AllSlashes(path) ==>
              exists k :: && |r| <= k <= |path| && path[k - |r|..k] == r && AllSlashes(path[k..])
                          && (k == |r| || path[k - |r| - 1] == '/')
  {
    if path == [] then "."
    else
      var trimmed := TrimTrailingSlashes(path);
      var last := LastElement(trimmed);
      if last == [] then
        assert trimmed == [];
        "/"
      else
        assert !AllSlashes(path) by {
          assert path[|trimmed| - 1] == last[|last| - 1];
        }
        assert AllSlashes(path[|trimmed|..]);
        last
  }

  /** A string with no separator is its own last element. */
  lemma {:induction false} LastElementOfElement(name: string)
    requires forall i :: 0 <= i < |name| ==> name[i] != '/'
    ensures LastElement(name) == name
  {
    if |name| > 0 {
      LastElementOfElement(name[..|name| - 1]);
    }
  }

  /** The last element of `prefix + "/" + name` is `name`. */
  lemma {:induction false} LastElementAfterSlash(prefix: string, name: string)
    requires forall i :: 0 <= i < |name| ==> name[i] != '/'
    ensures LastElement(prefix + "/" + name) == name
  {
    var p := prefix + "/" + name;
    if |name| == 0 {
      assert p[|p| - 1] == '/';
    } else {
      var shorter := name[..|name| - 1];
      assert p[..|p| - 1] == prefix + "/" + shorter;
      LastElementAfterSlash(prefix, shorter);
      assert shorter + [name[|name| - 1]] == name;
    }
  }

  /** Joining a directory and a file name, `Base` recovers the file name. */
  lemma BaseOfJoin(dir: string, name: string)
    requires IsElement(name)
    ensures Base(dir + "/" + name) == name
    ensures Base(dir + "/" + name + "/") == name
  {
    var p := dir + "/" + name;
    assert TrimTrailingSlashes(p) == p;
    assert (p + "/")[..|p|] == p;
    assert TrimTrailingSlashes(p + "/") == p;
    LastElementAfterSlash(dir, name);
  }

  /** Trailing separators do not change the base of a non-empty path. */
  lemma BaseIgnoresTrailingSlash(path: string)
    requires path != []
    ensures Base(path + "/") == Base(path)
  {
    var p := path + "/";
    assert p[..|p| - 1] == path;
    assert TrimTrailingSlashes(p) == TrimTrailingSlashes(path);
  }

  /** `Base` is idempotent. */
  lemma BaseIdempotent(path: string)
    ensures Base(Base(path)) == Base(path)
  {
    var b := Base(path);
    if b != "/" {
      assert TrimTrailingSlashes(b) == b;
      LastElementOfElement(b);
    }
  }
}
