/**
 Paths as the components that `std::path::Path` splits them into on Unix.
 */
module Paths {
  import opened Bytes

  const DOT_NAME: Bytes := [DOT]
  const DOTDOT_NAME: Bytes := [DOT, DOT]

  datatype Component = RootDir | CurDir | ParentDir | Normal(name: Bytes)

  function Segments(raw: Bytes): (r: seq<Bytes>)
    ensures r != []
    ensures forall i :: 0 <= i < |r| ==> SLASH !in r[i]
  {
    if raw == [] then [[]]
    else
      var rest := Segments(raw[1..]);
      if raw[0] == SLASH then [[]] + rest
      else [[raw[0]] + rest[0]] + rest[1..]
  }

  function SegmentComponents(segs: seq<Bytes>): (r: seq<Component>)
    requires forall i :: 0 <= i < |segs| ==> SLASH !in segs[i]
    ensures forall i :: 0 <= i < |r| ==> r[i].ParentDir? || (r[i].Normal? && PlainName(r[i].name))
  {
    if segs == [] then []
    else
      var rest := SegmentComponents(segs[1..]);
      if segs[0] == [] || segs[0] == DOT_NAME then rest
      else if segs[0] == DOTDOT_NAME then [ParentDir] + rest
      else [Normal(segs[0])] + rest
  }

  predicate PlainName(name: Bytes) {
    name != [] && SLASH !in name && name != DOT_NAME && name != DOTDOT_NAME
  }

  function Components(raw: Bytes): seq<Component> {
    var segs := Segments(raw);
    (if raw != [] && raw[0] == SLASH then [RootDir]
     else if segs[0] == DOT_NAME then [CurDir]
     else [])
    + SegmentComponents(segs)
  }

  /** The names a path selects below the root. */
  function PathNames(comps: seq<Component>): seq<Bytes> {
    if comps == [] then []
    else if comps[0].Normal? then [comps[0].name] + PathNames(comps[1..])
    else PathNames(comps[1..])
  }

  // ---------- PathBuf ----------

  /** `PathBuf::push`: an absolute name replaces the path. */
  function PathPush(path: seq<Component>, name: Bytes): seq<Component> {
    if path == [] || (name != [] && name[0] == SLASH) then Components(name)
    else path + SegmentComponents(Segments(name))
  }

  /** `PathBuf::pop`: the last component goes, but never the root. */
  function PathPop(path: seq<Component>): (r: seq<Component>)
    ensures r <= path && |r| + 1 >= |path|
    ensures path != [] && path[0].RootDir? ==> r != []
  {
    if path == [] || path[|path| - 1].RootDir? then path else path[..|path| - 1]
  }

  lemma {:induction false} OneSegment(name: Bytes)
    requires SLASH !in name
    ensures Segments(name) == [name]
  {
    if name != [] {
      OneSegment(name[1..]);
      assert name == [name[0]] + name[1..];
    }
  }

  /** A plain name is one component, and popping it is undoing the push. */
  lemma PushPlain(path: seq<Component>, name: Bytes)
    requires PlainName(name)
    ensures PathPush(path, name) == path + [Normal(name)] && PathPop(PathPush(path, name)) == path
  {
    OneSegment(name);
    assert SegmentComponents([name][1..]) == [];
    assert SegmentComponents([name]) == [Normal(name)];
    assert path == [] ==> path + [Normal(name)] == [Normal(name)];
  }
}
