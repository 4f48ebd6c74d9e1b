/** The `path/filepath` helpers the packer uses, for slash-separated paths.
    The packer hands them absolute, already-clean paths (no `.`, `..` or
    doubled separators), and on those paths `Clean` changes nothing; that is
    the case written out here. */
module Paths {
  import opened Common

  /** The path with every trailing '/' removed. */
  function StripTrailingSlashes(p: string): (r: string)
    ensures HasPrefix(p, r)
    ensures r == [] || r[|r| - 1] != '/'
    decreases |p|
  {
    if p != [] && p[|p| - 1] == '/' then StripTrailingSlashes(p[..|p| - 1]) else p
  }

  /** The characters after the last '/' (all of `p` when it has none). */
  function LastElement(p: string): (r: string)
    ensures HasSuffix(p, r)
    ensures '/' !in r
    ensures r != p ==> |r| < |p| && p[|p| - |r| - 1] == '/'
    decreases |p|
  {
    if p == [] then []
    else if p[|p| - 1] == '/' then []
    else
      var r := LastElement(p[..|p| - 1]) + [p[|p| - 1]];
      assert p == p[..|p| - 1] + [p[|p| - 1]];
      r
  }

  /** `filepath.Base`: the last element, trailing slashes ignored; "." for
      the empty path and "/" for a path made of slashes only. */
  function Base(p: string): (r: string)
    ensures r != []
    ensures r == "/" || '/' !in r
  {
    if p == [] then "."
    else
      var q := StripTrailingSlashes(p);
      if q == [] then "/"
      else
        var e := LastElement(q);
        if e == [] then "/" else e
  }

  /** Everything up to and including the last '/'. */
  function UpToLastSlash(p: string): (r: string)
    ensures HasPrefix(p, r)
    ensures r == [] || r[|r| - 1] == '/'
    decreases |p|
  {
    if p == [] then []
    else if p[|p| - 1] == '/' then p
    else UpToLastSlash(p[..|p| - 1])
  }

  /** `filepath.Dir` on a clean path: all but the last element, without the
      separator that ends it; "/" for a child of the root, "." for a bare name. */
  function Dir(p: string): (r: string)
    ensures r != []
  {
    var pre := UpToLastSlash(p);
    if pre == [] then "."
    else
      var d := StripTrailingSlashes(pre);
      if d == [] then "/" else d
  }

  /** `filepath.Ext`: the suffix from the last '.' of the last element, or
      "" when that element has no '.'. */
  function Ext(p: string): (r: string)
    ensures HasSuffix(p, r)
    ensures r == [] || r[0] == '.'
    ensures '/' !in r
    decreases |p|
  {
    if p == [] || p[|p| - 1] == '/' then []
    else if p[|p| - 1] == '.' then "."
    else
      var e := Ext(p[..|p| - 1]);
      if e == [] then [] else e + [p[|p| - 1]]
  }

  /** `filepath.Join(dir, name)` for a clean directory and one element. */
  function Join(dir: string, name: string): string {
    if dir == "/" then "/" + name else dir + "/" + name
  }

  /** `target` lies strictly inside the directory `base`. */
  predicate Under(target: string, base: string) {
    if base == "/" then |target| > 1 && target[0] == '/' && target[1] != '/'
    else HasPrefix(target, base + "/") && |target| > |base| + 1 && target[|base| + 1] != '/'
  }

  /** `filepath.Rel(base, target)` for a target strictly inside `base`: the
      part of `target` after `base` and its separator. Rel is only asked
      about such targets here; for any other it returns `target` unchanged. */
  function Rel(base: string, target: string): (r: string)
    ensures Under(target, base) ==> r != [] && r[0] != '/' && Join(base, r) == target
  {
    if Under(target, base) then
      if base == "/" then target[1..] else target[|base| + 1..]
    else target
  }

  lemma RelOfJoin(base: string, name: string)
    requires name != [] && name[0] != '/'
    ensures Under(Join(base, name), base)
    ensures Rel(base, Join(base, name)) == name
  {
    if base != "/" {
      assert Join(base, name)[..|base + "/"|] == base + "/";
    }
  }

  /** Go's `filepath.Join` cleans, so it never leaves a trailing '/'. */
  lemma BaseOfJoin(dir: string, name: string)
    requires name != [] && '/' !in name
    ensures Base(Join(dir, name)) == name
  {
    var p := Join(dir, name);
    assert p[|p| - 1] == name[|name| - 1];
    assert p == (if dir == "/" then "/" else dir + "/") + name;
    LastOfAppend((if dir == "/" then "/" else dir + "/"), name);
  }

  lemma {:induction false} LastOfAppend(pre: string, name: string)
    requires pre != [] && pre[|pre| - 1] == '/'
    requires '/' !in name
    ensures LastElement(pre + name) == name
    decreases |name|
  {
    if name == [] {
      assert pre + name == pre;
    } else {
      var n' := name[..|name| - 1];
      assert (pre + name)[..|pre + name| - 1] == pre + n';
      LastOfAppend(pre, n');
      assert name == n' + [name[|name| - 1]];
    }
  }
}
