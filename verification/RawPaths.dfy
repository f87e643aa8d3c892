/**
 Paths as raw bytes: what `Path::file_name`, `Path::parent` and `Path::with_file_name` cut out of them on
 Unix, and the place a path names whatever its slashes and "." components.
 */
module RawPaths {
  import opened Bytes
  import opened Paths

  /** A place: the components of a path without the root and ".". */
  type Place = seq<Component>

  function PlaceOf(raw: Bytes): Place {
    SegmentComponents(Segments(raw))
  }

  // ---------- places of joined paths ----------

  lemma {:induction false} SegmentsJoin(a: Bytes, b: Bytes)
    ensures Segments(a + [SLASH] + b) == Segments(a) + Segments(b)
  {
    var all := a + [SLASH] + b;
    if a == [] {
      assert all[1..] == b;
    } else {
      assert all[1..] == a[1..] + [SLASH] + b;
      SegmentsJoin(a[1..], b);
    }
  }

  lemma {:induction false} ComponentsJoin(a: seq<Bytes>, b: seq<Bytes>)
    requires forall i :: 0 <= i < |a| ==> SLASH !in a[i]
    requires forall i :: 0 <= i < |b| ==> SLASH !in b[i]
    ensures SegmentComponents(a + b) == SegmentComponents(a) + SegmentComponents(b)
  {
    hide SegmentComponents;
    if a == [] {
      assert a + b == b;
      NoSegments();
    } else {
      ComponentsJoin(a[1..], b);
      FirstSegment(a);
      FirstSegment(a + b);
      assert (a + b)[0] == a[0] && (a + b)[1..] == a[1..] + b;
    }
  }

  lemma NoSegments()
    ensures SegmentComponents([]) == []
  {
  }

  lemma FirstSegment(segs: seq<Bytes>)
    requires segs != [] && forall i :: 0 <= i < |segs| ==> SLASH !in segs[i]
    ensures SegmentComponents(segs) == NamePlace(segs[0]) + SegmentComponents(segs[1..])
  {
  }

  /** A path below another one names a place below it. */
  lemma PlaceJoin(a: Bytes, b: Bytes)
    ensures PlaceOf(a + [SLASH] + b) == PlaceOf(a) + PlaceOf(b)
  {
    SegmentsJoin(a, b);
    ComponentsJoin(Segments(a), Segments(b));
  }

  /** One component as it stands. */
  function NamePlace(name: Bytes): Place {
    if name == [] || name == DOT_NAME then []
    else if name == DOTDOT_NAME then [ParentDir]
    else [Normal(name)]
  }

  lemma PlaceOfName(name: Bytes)
    requires SLASH !in name
    ensures PlaceOf(name) == NamePlace(name)
  {
    OneSegment(name);
    assert SegmentComponents([name][1..]) == [];
  }

  // ---------- cutting from the back ----------

  /** Where the last component starts. */
  function NameStart(p: Bytes): (n: nat)
    ensures n <= |p| && SLASH !in p[n..] && (n > 0 ==> p[n - 1] == SLASH)
  {
    if p == [] then 0
    else if p[|p| - 1] == SLASH then |p|
    else
      var n := NameStart(p[..|p| - 1]);
      assert p[n..] == p[..|p| - 1][n..] + [p[|p| - 1]];
      n
  }

  /** The root slash or a leading ".", which are components of their own. */
  function LeadLen(p: Bytes): (n: nat)
    ensures n <= 1 && n <= |p|
  {
    if p != [] && (p[0] == SLASH || (p[0] == DOT && (|p| == 1 || p[1] == SLASH))) then 1 else 0
  }

  /** `Components::next_back`: the rest of the path, and the last component after the lead. */
  function CutBack(p: Bytes): (r: (Bytes, Bytes))
    requires |p| > LeadLen(p)
    ensures |r.0| < |p| && SLASH !in r.1
  {
    var n, lead := NameStart(p), LeadLen(p);
    if n > lead then (p[..n - 1], p[n..])
    else
      NoSlashFrom(p, n, lead);
      (p[..lead], p[lead..])
  }

  lemma NoSlashFrom(p: Bytes, n: nat, m: nat)
    requires n <= m <= |p| && SLASH !in p[n..]
    ensures SLASH !in p[m..]
  {
    assert p[m..] == p[n..][m - n..];
  }

  /** `Components::as_path` seen from the back: without trailing slashes and "." components. */
  function Stripped(p: Bytes): (r: Bytes)
    ensures |r| > LeadLen(r) ==> CutBack(r).1 != [] && CutBack(r).1 != DOT_NAME
    decreases |p|
  {
    if |p| <= LeadLen(p) then p
    else
      var (rest, name) := CutBack(p);
      if name == [] || name == DOT_NAME then Stripped(rest) else p
  }

  function FileName(path: Bytes): Option<Bytes> {
    var p := Stripped(path);
    if |p| <= LeadLen(p) || CutBack(p).1 == DOTDOT_NAME then None else Some(CutBack(p).1)
  }

  function Parent(path: Bytes): Bytes {
    var p := Stripped(path);
    if |p| <= LeadLen(p) then p else Stripped(CutBack(p).0)
  }

  /** `PathBuf::push` of a name without a slash. */
  function Pushed(dir: Bytes, name: Bytes): Bytes {
    if dir == [] || dir[|dir| - 1] == SLASH then dir + name else dir + [SLASH] + name
  }

  function WithFileName(path: Bytes, name: Bytes): Bytes {
    Pushed(Parent(path), name)
  }

  // ---------- their places ----------

  lemma PlaceOfLead(p: Bytes)
    requires |p| == LeadLen(p)
    ensures PlaceOf(p) == []
  {
    if p == [SLASH] {
      PlaceJoin([], []);
      PlaceOfName([]);
      assert [] + [SLASH] + [] == p;
    } else {
      PlaceOfName(p);
    }
  }

  lemma PlaceOfCut(p: Bytes)
    requires |p| > LeadLen(p)
    ensures PlaceOf(p) == PlaceOf(CutBack(p).0) + NamePlace(CutBack(p).1)
  {
    var n, lead := NameStart(p), LeadLen(p);
    var (rest, name) := CutBack(p);
    PlaceOfName(name);
    if n > lead {
      assert p == rest + [SLASH] + name;
      PlaceJoin(rest, name);
    } else if lead == 1 {
      LeadIsRoot(p);
      assert rest == [SLASH] && p == [] + [SLASH] + name;
      PlaceJoin([], name);
      PlaceOfName([]);
      PlaceOfLead(rest);
    } else {
      assert p == name && rest == [];
      PlaceOfName([]);
    }
  }

  lemma LeadIsRoot(p: Bytes)
    requires |p| > LeadLen(p) == 1 >= NameStart(p)
    ensures p[0] == SLASH
  {
    NoSlashFrom(p, NameStart(p), 1);
    assert p[1..][0] == p[1];
  }

  lemma {:induction false} PlaceOfStripped(p: Bytes)
    ensures PlaceOf(Stripped(p)) == PlaceOf(p)
    decreases |p|
  {
    if |p| > LeadLen(p) {
      PlaceOfCut(p);
      var (rest, name) := CutBack(p);
      if name == [] || name == DOT_NAME {
        PlaceOfStripped(rest);
      }
    }
  }

  /** A path with a file name is its parent with that name, and one without names the root or ends in "..". */
  lemma FileNamePlace(path: Bytes)
    ensures var w := PlaceOf(path);
      if FileName(path).Some?
      then w == PlaceOf(Parent(path)) + [Normal(FileName(path).value)] && PlainName(FileName(path).value)
      else w == [] || w[|w| - 1] == ParentDir
  {
    hide Segments, SegmentComponents, PlaceOf;
    var p := Stripped(path);
    PlaceOfStripped(path);
    if |p| > LeadLen(p) {
      PlaceOfCut(p);
      PlaceOfStripped(CutBack(p).0);
    } else {
      PlaceOfLead(p);
    }
  }

  lemma PushedPlace(dir: Bytes, name: Bytes)
    requires SLASH !in name
    ensures PlaceOf(Pushed(dir, name)) == PlaceOf(dir) + NamePlace(name)
  {
    hide Segments, SegmentComponents, PlaceOf;
    PlaceOfName(name);
    PlaceOfName([]);
    if dir == [] {
      assert dir + name == name;
    } else if dir[|dir| - 1] == SLASH {
      var front := dir[..|dir| - 1];
      assert dir == front + [SLASH] + [];
      assert dir + name == front + [SLASH] + name;
      PlaceJoin(front, []);
      PlaceJoin(front, name);
    } else {
      PlaceJoin(dir, name);
    }
  }

  /** The file name and the parent of a name in a directory. */
  lemma NameInDir(dir: Bytes, name: Bytes)
    requires PlainName(name) && dir != [] && dir != [SLASH] && Stripped(dir) == dir
    ensures FileName(dir + [SLASH] + name) == Some(name) && Parent(dir + [SLASH] + name) == dir
  {
    hide NameStart;
    var p := dir + [SLASH] + name;
    StartAfterSlash(dir + [SLASH], name);
    assert p[|dir| + 1..] == name && p[..|dir|] == dir;
  }

  lemma NameAtTop(name: Bytes)
    requires PlainName(name)
    ensures FileName(name) == Some(name) && Parent(name) == []
  {
    hide NameStart;
    StartAfterSlash([], name);
    assert [] + name == name;
    assert LeadLen(name) == 0;
    assert CutBack(name) == ([], name);
    assert Stripped([]) == [];
  }

  lemma {:induction false} StartAfterSlash(dir: Bytes, name: Bytes)
    requires SLASH !in name && (dir == [] || dir[|dir| - 1] == SLASH)
    ensures NameStart(dir + name) == |dir|
    decreases |name|
  {
    if name == [] {
      assert dir + name == dir;
    } else {
      var p := dir + name;
      assert p[..|p| - 1] == dir + name[..|name| - 1];
      StartAfterSlash(dir, name[..|name| - 1]);
    }
  }

  // ---------- paths in normal form ----------

  /** A directory as `Path::parent` gives it. */
  predicate Folder(dir: Bytes) {
    dir != [] && dir[|dir| - 1] != SLASH && Stripped(dir) == dir
  }

  lemma TopIsFolder(name: Bytes)
    requires PlainName(name)
    ensures Folder(name)
  {
    hide NameStart;
    StartAfterSlash([], name);
    assert [] + name == name;
  }

  lemma FolderInFolder(dir: Bytes, name: Bytes)
    requires Folder(dir) && PlainName(name)
    ensures Folder(dir + [SLASH] + name)
  {
    hide NameStart;
    var p := dir + [SLASH] + name;
    StartAfterSlash(dir + [SLASH], name);
    assert p[|dir| + 1..] == name && p[..|dir|] == dir && p[|p| - 1] == name[|name| - 1];
    assert CutBack(p) == (dir, name);
  }

  /** Another file name in place of the last one, byte for byte. */
  lemma WithNameInDir(dir: Bytes, x: Bytes, name: Bytes)
    requires Folder(dir) && PlainName(x)
    ensures WithFileName(dir + [SLASH] + x, name) == dir + [SLASH] + name
    ensures WithFileName(x, name) == name
  {
    hide Stripped, Parent;
    NameInDir(dir, x);
    NameAtTop(x);
    assert [] + name == name;
  }

  predicate PlainNames(names: seq<Bytes>) {
    forall i :: 0 <= i < |names| ==> PlainName(names[i])
  }

  /** The names with one slash between each two. */
  function Joined(names: seq<Bytes>): Bytes {
    if names == [] then []
    else if |names| == 1 then names[0]
    else Joined(names[..|names| - 1]) + [SLASH] + names[|names| - 1]
  }

  function Normals(names: seq<Bytes>): (r: Place)
    ensures |r| == |names| && forall i :: 0 <= i < |names| ==> r[i] == Normal(names[i])
  {
    seq(|names|, i requires 0 <= i < |names| => Normal(names[i]))
  }

  lemma JoinedSnoc(dir: seq<Bytes>, name: Bytes)
    ensures Joined(dir + [name]) == if dir == [] then name else Joined(dir) + [SLASH] + name
  {
    assert (dir + [name])[..|dir|] == dir;
  }

  lemma {:induction false} JoinedFolder(names: seq<Bytes>)
    requires names != [] && PlainNames(names)
    ensures Folder(Joined(names)) && PlaceOf(Joined(names)) == Normals(names)
  {
    hide PlaceOf, Folder;
    var n := |names| - 1;
    var dir, last := names[..n], names[n];
    assert names == dir + [last] && PlainName(last);
    PlaceOfName(last);
    JoinedSnoc(dir, last);
    if dir == [] {
      TopIsFolder(last);
      assert Normals(names) == [Normal(last)];
    } else {
      JoinedFolder(dir);
      FolderInFolder(Joined(dir), last);
      PlaceJoin(Joined(dir), last);
      assert Normals(names) == Normals(dir) + [Normal(last)];
    }
  }

  /** The place is told by the names, and a prefix of places is a prefix of names. */
  lemma PrefixOfNames(a: seq<Bytes>, b: seq<Bytes>)
    ensures Normals(a) <= Normals(b) <==> a <= b
  {
    if Normals(a) <= Normals(b) {
      forall i | 0 <= i < |a| ensures a[i] == b[i] { assert Normals(a)[i] == Normals(b)[i]; }
    }
  }

  // ---------- pushing onto the bytes and onto the components ----------

  /** `PathBuf::push` of any name: an absolute one replaces the path. */
  function RawPush(path: Bytes, name: Bytes): Bytes {
    if name != [] && name[0] == SLASH then name else Pushed(path, name)
  }

  /** The root or "." a path starts with. */
  function Lead(raw: Bytes): seq<Component> {
    if raw != [] && raw[0] == SLASH then [RootDir] else if Segments(raw)[0] == DOT_NAME then [CurDir] else []
  }

  lemma SegmentComponentsPush(path: Bytes, name: Bytes)
    requires path != []
    ensures PlaceOf(Pushed(path, name)) == PlaceOf(path) + PlaceOf(name)
    ensures Lead(Pushed(path, name)) == Lead(path)
  {
    hide SegmentComponents;
    var n := |path| - 1;
    if path[n] == SLASH {
      var dir := path[..n];
      assert path == dir + [SLASH] + [] && path + name == dir + [SLASH] + name;
      PlaceJoin(dir, name);
      PlaceJoin(dir, []);
      PlaceOfName([]);
      SegmentsJoin(dir, name);
      SegmentsJoin(dir, []);
    } else {
      PlaceJoin(path, name);
      SegmentsJoin(path, name);
    }
  }

  lemma SomeComponent(path: Bytes)
    ensures Components(path) == Lead(path) + PlaceOf(path)
    ensures path != [] ==> Components(path) != []
    ensures path == [] ==> Components(path) == []
  {
    var segs := Segments(path);
    if path == [] {
      assert segs == [[]] && segs[1..] == [];
    } else if path[0] != SLASH && segs[0] != DOT_NAME {
      assert segs[0] != [];
    }
  }

  /** Pushing a name onto a path's components is what pushing it onto the path's bytes gives. */
  lemma PushedComponents(path: Bytes, name: Bytes)
    ensures PathPush(Components(path), name) == Components(RawPush(path, name))
  {
    hide Components, Lead, Segments, SegmentComponents;
    SomeComponent(path);
    SomeComponent(RawPush(path, name));
    if path == [] {
      assert [] + name == name;
    } else if !(name != [] && name[0] == SLASH) {
      SegmentComponentsPush(path, name);
      assert Lead(path) + (PlaceOf(path) + PlaceOf(name)) == Lead(path) + PlaceOf(path) + PlaceOf(name);
    }
  }
}
