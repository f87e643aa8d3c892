/**
 Unpacking into a directory (pearchive/src/lib.rs, pearchive/src/open.rs), and its agreement with
 the visiting decoder.
 */
module UnpackDir {
  import opened Bytes
  import opened Paths
  import opened Archive
  import opened Unpack

  // ---------- the file system below the starting directory ----------

  datatype FsNode = IsDir | IsFile(data: Bytes)

  type Fs = map<seq<Bytes>, FsNode>

  /** What the kernel does with names that are not plain (empty, ".", "..", or with a slash). */
  datatype Os = Os(
    write: (Fs, seq<Bytes>, Bytes, Bytes) -> Result<Fs, ArchiveError>,
    mkdir: (Fs, seq<Bytes>, Bytes) -> Result<Fs, ArchiveError>,
    open: (Fs, seq<Bytes>, Bytes) -> Result<seq<Bytes>, ArchiveError>)

  /** A file opened for writing: an existing one is overwritten from its start but not truncated. */
  function Written(fs: Fs, p: seq<Bytes>, data: Bytes): Option<Fs> {
    if p !in fs then Some(fs[p := IsFile(data)])
    else if fs[p].IsDir? then None
    else Some(fs[p := IsFile(if |data| < |fs[p].data| then data + fs[p].data[|data|..] else data)])
  }

  /** `openat_w` and `write_all` */
  function WriteFile(os: Os, fs: Fs, dir: seq<Bytes>, name: Bytes, data: Bytes): Result<Fs, ArchiveError> {
    if !PlainFile(name) then os.write(fs, dir, name, data)
    else
      match Written(fs, dir + [name], data)
      case None => Err(OpenAt)
      case Some(fs') => Ok(fs')
  }

  /** `mkdirat` */
  function MakeDir(os: Os, fs: Fs, dir: seq<Bytes>, name: Bytes): Result<Fs, ArchiveError> {
    if !PlainFile(name) then os.mkdir(fs, dir, name)
    else if dir + [name] in fs then Err(MkdirAt)
    else Ok(fs[dir + [name] := IsDir])
  }

  /** `openpathat` */
  function OpenDir(os: Os, fs: Fs, dir: seq<Bytes>, name: Bytes): Result<seq<Bytes>, ArchiveError> {
    if !PlainFile(name) then os.open(fs, dir, name)
    else if dir + [name] in fs && fs[dir + [name]].IsDir? then Ok(dir + [name])
    else Err(OpenAt)
  }

  // ---------- the decoder ----------

  predicate TagIs(data: Bytes, tag: byte) {
    data != [] && data[0] == tag
  }

  function UnpackTo(os: Os, data: Bytes, fs: Fs, stack: seq<seq<Bytes>>): Result<Fs, ArchiveError>
    decreases |data|, 0
  {
    if data == [] then (if |stack| == 1 then Ok(fs) else Err(ArchiveTruncated))
    else if stack == [] && (TagIs(data, FILE_TAG) || TagIs(data, DIR_TAG)) then Err(StackEmpty)
    else
      match Next(data)
      case Err(e) => Err(e)
      case Ok(Some((Pop, rest))) =>
        if stack == [] then Err(EmptyStack) else UnpackTo(os, rest, fs, stack[..|stack| - 1])
      case Ok(Some((m, rest))) => UnpackOne(os, m, rest, fs, stack)
  }

  function UnpackOne(os: Os, m: Message, rest: Bytes, fs: Fs, stack: seq<seq<Bytes>>): Result<Fs, ArchiveError>
    requires !m.Pop?
    decreases |rest|, 1
  {
    if stack == [] then Err(StackEmpty) else
    var dir := stack[|stack| - 1];
    match m
    case FileOf(name, contents) =>
      (match WriteFile(os, fs, dir, name, contents)
       case Err(e) => Err(e)
       case Ok(fs') => UnpackTo(os, rest, fs', stack))
    case DirOf(name) =>
      match MakeDir(os, fs, dir, name)
      case Err(e) => Err(e)
      case Ok(fs') =>
        // the next tag decides whether the directory is opened at all
        if TagIs(rest, POP_TAG) then UnpackTo(os, rest[1..], fs', stack)
        else if TagIs(rest, FILE_TAG) || TagIs(rest, DIR_TAG) then
          match OpenDir(os, fs', dir, name)
          case Err(e) => Err(e)
          case Ok(sub) => UnpackTo(os, rest, fs', stack + [sub])
        else UnpackTo(os, rest, fs', stack)
  }

  class Unpacker {
    var fs: Fs
    const os: Os

    constructor (os: Os, fs: Fs)
      ensures this.os == os && this.fs == fs
    {
      this.os, this.fs := os, fs;
    }

    /** `unpack_to_dir` */
    method Run(data: Bytes) returns (r: Result<(), ArchiveError>)
      modifies this`fs
      ensures r.Ok? ==> UnpackTo(os, data, old(fs), [[]]) == Ok(fs)
      ensures r.Err? ==> UnpackTo(os, data, old(fs), [[]]) == Err(r.error)
    {
      hide Next, WriteFile, MakeDir, OpenDir;
      var stack, cur := [[]], data;
      while true
        invariant UnpackTo(os, data, old(fs), [[]]) == UnpackTo(os, cur, fs, stack)
        decreases |cur|
      {
        if cur == [] {
          if |stack| == 1 { return Ok(()); } else { return Err(ArchiveTruncated); }
        }
        if stack == [] && (TagIs(cur, FILE_TAG) || TagIs(cur, DIR_TAG)) { return Err(StackEmpty); }
        var next :- Next(cur);
        match next.value.0 {
          case FileOf(name, contents) =>
            if stack == [] { return Err(StackEmpty); }
            var fs' :- WriteFile(os, fs, stack[|stack| - 1], name, contents);
            fs, cur := fs', next.value.1;
          case DirOf(name) =>
            if stack == [] { return Err(StackEmpty); }
            var parent := stack[|stack| - 1];
            var fs' :- MakeDir(os, fs, parent, name);
            fs, cur := fs', next.value.1;
            if TagIs(cur, POP_TAG) {
              cur := cur[1..];
            } else if TagIs(cur, FILE_TAG) || TagIs(cur, DIR_TAG) {
              var sub :- OpenDir(os, fs, parent, name);
              stack := stack + [sub];
            }
          case Pop =>
            if stack == [] { return Err(EmptyStack); }
            stack, cur := stack[..|stack| - 1], next.value.1;
        }
      }
    }
  }

  // ---------- what the messages say ----------

  predicate PlainMessages(ms: seq<Message>) {
    forall i :: 0 <= i < |ms| && !ms[i].Pop? ==> PlainFile(ms[i].name)
  }

  function Leave(cur: seq<Bytes>): seq<Bytes> {
    if cur == [] then [] else cur[..|cur| - 1]
  }

  /** The paths the messages name, from directory `cur` on. */
  function Named(ms: seq<Message>, cur: seq<Bytes>): seq<seq<Bytes>> {
    if ms == [] then []
    else match ms[0]
      case FileOf(name, _) => [cur + [name]] + Named(ms[1..], cur)
      case DirOf(name) => [cur + [name]] + Named(ms[1..], cur + [name])
      case Pop => Named(ms[1..], Leave(cur))
  }

  /** What they make there. */
  function Made(ms: seq<Message>, cur: seq<Bytes>): Fs {
    if ms == [] then map[]
    else match ms[0]
      case FileOf(name, data) => map[cur + [name] := IsFile(data)] + Made(ms[1..], cur)
      case DirOf(name) => map[cur + [name] := IsDir] + Made(ms[1..], cur + [name])
      case Pop => Made(ms[1..], Leave(cur))
  }

  predicate NoRepeats(paths: seq<seq<Bytes>>) {
    forall i, j :: 0 <= i < j < |paths| ==> paths[i] != paths[j]
  }

  predicate NoneIn(paths: seq<seq<Bytes>>, fs: Fs) {
    forall i :: 0 <= i < |paths| ==> paths[i] !in fs
  }

  /** The messages stop right after entering a directory of the starting directory, all else being left. */
  predicate EndsInDir(ms: seq<Message>, depth: nat) {
    ms != [] &&
    match ms[0]
    case FileOf(_, _) => EndsInDir(ms[1..], depth)
    case DirOf(_) => if |ms| == 1 then depth == 0 else EndsInDir(ms[1..], depth + 1)
    case Pop => depth > 0 && EndsInDir(ms[1..], depth - 1)
  }

  /** The open directories on the way to `cur`. */
  function StackOf(cur: seq<Bytes>): (r: seq<seq<Bytes>>)
    ensures |r| == |cur| + 1 && r[|cur|] == cur
    ensures forall i :: 0 <= i <= |cur| ==> r[i] == cur[..i]
  {
    if cur == [] then [[]] else StackOf(cur[..|cur| - 1]) + [cur]
  }

  lemma {:induction false} NoStackFails(os: Os, data: Bytes, fs: Fs)
    ensures UnpackTo(os, data, fs, []).Err?
  {
    hide Next;
  }

  /** Reference: the messages carried out one by one, or None where a path is taken already. */
  function Replay(ms: seq<Message>, fs: Fs, cur: seq<Bytes>): Option<Fs> {
    if ms == [] then Some(fs)
    else match ms[0]
      case FileOf(name, data) =>
        (match Written(fs, cur + [name], data)
         case None => None
         case Some(fs') => Replay(ms[1..], fs', cur))
      case DirOf(name) =>
        if cur + [name] in fs then None else Replay(ms[1..], fs[cur + [name] := IsDir], cur + [name])
      case Pop => Replay(ms[1..], fs, Leave(cur))
  }

  /** The outcome of unpacking, told from the messages: accepted when balanced or stopped in a directory. */
  predicate Decided(r: Result<Fs, ArchiveError>, ms: seq<Message>, e: Option<ArchiveError>, fs: Fs, cur: seq<Bytes>) {
    && (r.Ok? <==> e.None? && Replay(ms, fs, cur).Some? && (Balanced(ms, |cur|) || EndsInDir(ms, |cur|)))
    && (r.Ok? ==> Some(r.value) == Replay(ms, fs, cur))
  }

  lemma PlainRest(m: Message, ms: seq<Message>)
    requires PlainMessages([m] + ms)
    ensures PlainMessages(ms) && (!m.Pop? ==> PlainFile(m.name))
  {
    hide PlainFile;
    var all := [m] + ms;
    assert all[0] == m;
    forall i | 0 <= i < |ms| && !ms[i].Pop? ensures PlainFile(ms[i].name) {
      assert all[i + 1] == ms[i];
    }
  }

  predicate Undisturbed(ms: seq<Message>, fs: Fs, cur: seq<Bytes>) {
    NoRepeats(Named(ms, cur)) && NoneIn(Named(ms, cur), fs)
  }

  /** After the first path is made, the rest is still undisturbed. */
  lemma UndisturbedRest(m: Message, ms: seq<Message>, fs: Fs, cur: seq<Bytes>, node: FsNode)
    requires !m.Pop? && Undisturbed([m] + ms, fs, cur)
    ensures var p := cur + [m.name]; p !in fs && Undisturbed(ms, fs[p := node], if m.DirOf? then p else cur)
  {
    var all, p, next := [m] + ms, cur + [m.name], if m.DirOf? then cur + [m.name] else cur;
    assert all[0] == m && all[1..] == ms;
    var names, rest := Named(all, cur), Named(ms, next);
    assert names == [p] + rest;
    assert names[0] == p;
    forall i | 0 <= i < |rest| ensures rest[i] !in fs[p := node] {
      assert rest[i] == names[i + 1];
    }
    forall i, j | 0 <= i < j < |rest| ensures rest[i] != rest[j] {
      assert rest[i] == names[i + 1] && rest[j] == names[j + 1];
    }
  }

  /** Paths that are new and named once are all made, and nothing else changes. */
  lemma {:induction false} ReplayMade(ms: seq<Message>, fs: Fs, cur: seq<Bytes>)
    requires Undisturbed(ms, fs, cur)
    ensures Replay(ms, fs, cur) == Some(fs + Made(ms, cur))
  {
    hide Undisturbed;
    if ms == [] {
      assert fs + Made(ms, cur) == fs;
    } else {
      var m, rest := ms[0], ms[1..];
      assert ms == [m] + rest;
      if m.Pop? {
        UndisturbedPop(ms, fs, cur);
        ReplayMade(rest, fs, Leave(cur));
      } else {
        var p, node := cur + [m.name], if m.DirOf? then IsDir else IsFile(m.data);
        var next := if m.DirOf? then p else cur;
        UndisturbedRest(m, rest, fs, cur, node);
        ReplayMade(rest, fs[p := node], next);
        MadeFirst(fs, p, node, Made(rest, next));
      }
    }
  }

  lemma UndisturbedPop(ms: seq<Message>, fs: Fs, cur: seq<Bytes>)
    requires ms != [] && ms[0].Pop? && Undisturbed(ms, fs, cur)
    ensures Undisturbed(ms[1..], fs, Leave(cur))
  {
  }

  lemma MadeFirst(fs: Fs, p: seq<Bytes>, node: FsNode, rest: Fs)
    ensures fs[p := node] + rest == fs + (map[p := node] + rest)
  {
  }

  lemma StackGrows(cur: seq<Bytes>, name: Bytes)
    ensures StackOf(cur) + [cur + [name]] == StackOf(cur + [name])
    ensures StackOf(cur + [name])[..|cur| + 1] == StackOf(cur)
  {
    assert (cur + [name])[..|cur|] == cur;
  }

  /** Told from the messages for every starting state: names need only be plain. */
  lemma {:induction false} UnpackDecides(os: Os, data: Bytes, fs: Fs, cur: seq<Bytes>)
    requires PlainMessages(Parse(data).0)
    ensures Decided(UnpackTo(os, data, fs, StackOf(cur)), Parse(data).0, Parse(data).1, fs, cur)
    decreases |data|, 1
  {
    hide Next, Replay, Balanced, EndsInDir, StackOf, UnpackOne, PlainMessages;
    match Next(data)
    case Err(e) =>
    case Ok(None) => DecidedAtEnd(fs, cur);
    case Ok(Some((m, rest))) =>
      var ms := Parse(rest).0;
      assert Parse(data).0 == [m] + ms;
      PlainRest(m, ms);
      if m.Pop? {
        PopDecides(os, rest, fs, cur);
      } else if m.FileOf? {
        FileDecides(os, m, rest, fs, cur);
      } else {
        DirDecides(os, m, rest, fs, cur);
      }
  }

  lemma DecidedAtEnd(fs: Fs, cur: seq<Bytes>)
    ensures Decided(if |StackOf(cur)| == 1 then Ok(fs) else Err(ArchiveTruncated), [], None, fs, cur)
  {
  }

  lemma {:induction false} PopDecides(os: Os, rest: Bytes, fs: Fs, cur: seq<Bytes>)
    requires PlainMessages(Parse(rest).0)
    ensures var (ms, e) := Parse(rest);
      Decided(UnpackTo(os, rest, fs, StackOf(cur)[..|cur|]), [Pop] + ms, e, fs, cur)
    decreases |rest|, 2
  {
    hide PlainMessages, UnpackTo, Parse, StackOf;
    var (ms, e) := Parse(rest);
    assert ([Pop] + ms)[1..] == ms;
    if cur == [] {
      NoStackFails(os, rest, fs);
      assert StackOf(cur)[..0] == [];
    } else {
      var n := |cur| - 1;
      assert cur == Leave(cur) + [cur[n]];
      StackGrows(Leave(cur), cur[n]);
      UnpackDecides(os, rest, fs, Leave(cur));
    }
  }

  lemma {:induction false} FileDecides(os: Os, m: Message, rest: Bytes, fs: Fs, cur: seq<Bytes>)
    requires m.FileOf? && PlainFile(m.name) && PlainMessages(Parse(rest).0)
    ensures var (ms, e) := Parse(rest);
      Decided(UnpackOne(os, m, rest, fs, StackOf(cur)), [m] + ms, e, fs, cur)
    decreases |rest|, 2
  {
    hide PlainMessages, UnpackTo, Parse, PlainFile, StackOf, Written;
    var ms := Parse(rest).0;
    assert ([m] + ms)[1..] == ms;
    var fs' := Written(fs, cur + [m.name], m.data);
    if fs'.Some? { UnpackDecides(os, rest, fs'.value, cur); }
  }

  /** What a directory message at the front means for the messages after it. */
  lemma DirFirst(m: Message, ms: seq<Message>, fs: Fs, cur: seq<Bytes>)
    requires m.DirOf?
    ensures var all, p := [m] + ms, cur + [m.name];
      && Replay(all, fs, cur) == (if p in fs then None else Replay(ms, fs[p := IsDir], p))
      && Balanced(all, |cur|) == Balanced(ms, |p|)
      && EndsInDir(all, |cur|) == if ms == [] then cur == [] else EndsInDir(ms, |p|)
  {
    var all := [m] + ms;
    assert all[0] == m && all[1..] == ms;
  }

  lemma {:induction false} DirDecides(os: Os, m: Message, rest: Bytes, fs: Fs, cur: seq<Bytes>)
    requires m.DirOf? && PlainFile(m.name) && PlainMessages(Parse(rest).0)
    ensures var (ms, e) := Parse(rest);
      Decided(UnpackOne(os, m, rest, fs, StackOf(cur)), [m] + ms, e, fs, cur)
    decreases |rest|, 2
  {
    hide PlainMessages, UnpackTo, PlainFile, StackOf, Parse, Next, Replay, Balanced, EndsInDir;
    var ms, p := Parse(rest).0, cur + [m.name];
    DirFirst(m, ms, fs, cur);
    if p !in fs {
      var fs' := fs[p := IsDir];
      if TagIs(rest, POP_TAG) {
        EmptyDirDecides(os, rest, fs', cur, m.name);
      } else if TagIs(rest, FILE_TAG) || TagIs(rest, DIR_TAG) {
        StackGrows(cur, m.name);
        UnpackDecides(os, rest, fs', p);
        NotLast(rest);
      } else {
        NothingMore(os, rest, fs', StackOf(cur));
        LastDir(m, fs, cur);
        assert [m] + ms == [m];
      }
    }
  }

  lemma LastDir(m: Message, fs: Fs, cur: seq<Bytes>)
    requires m.DirOf? && cur + [m.name] !in fs
    ensures !Balanced([m], |cur|) && (EndsInDir([m], |cur|) <==> cur == [])
    ensures Replay([m], fs, cur) == Some(fs[cur + [m.name] := IsDir])
  {
    assert [m][1..] == [];
  }

  /** The fast path: a directory left as soon as it was made. */
  lemma {:induction false} EmptyDirDecides(os: Os, rest: Bytes, fs: Fs, cur: seq<Bytes>, name: Bytes)
    requires TagIs(rest, POP_TAG) && PlainMessages(Parse(rest).0)
    ensures var (ms, e) := Parse(rest);
      && ms != [] && Decided(UnpackTo(os, rest[1..], fs, StackOf(cur)), ms, e, fs, cur + [name])
    decreases |rest|, 1
  {
    hide PlainMessages, UnpackTo, StackOf;
    var (ms, e) := Parse(rest[1..]);
    assert Next(rest) == Ok(Some((Pop, rest[1..])));
    assert Parse(rest) == ([Pop] + ms, e);
    assert ([Pop] + ms)[1..] == ms && Leave(cur + [name]) == cur;
    PlainRest(Pop, ms);
    UnpackDecides(os, rest[1..], fs, cur);
  }

  lemma NotLast(rest: Bytes)
    requires TagIs(rest, FILE_TAG) || TagIs(rest, DIR_TAG)
    ensures Parse(rest).0 != [] || Parse(rest).1.Some?
  {
  }

  /** At the end, or before a byte that is no tag. */
  lemma NothingMore(os: Os, rest: Bytes, fs: Fs, stack: seq<seq<Bytes>>)
    requires !TagIs(rest, POP_TAG) && !TagIs(rest, FILE_TAG) && !TagIs(rest, DIR_TAG) && stack != []
    ensures Parse(rest) == ([], if rest == [] then None else Some(BadTag))
    ensures UnpackTo(os, rest, fs, stack)
            == if rest != [] then Err(BadTag) else if |stack| == 1 then Ok(fs) else Err(ArchiveTruncated)
  {
  }

  // ---------- agreement ----------

  function Comps(p: seq<Bytes>): (r: seq<Component>)
    ensures |r| == |p| && forall i :: 0 <= i < |p| ==> r[i] == Normal(p[i])
  {
    seq(|p|, i requires 0 <= i < |p| => Normal(p[i]))
  }

  lemma CompsPush(cur: seq<Bytes>, name: Bytes)
    requires PlainFile(name)
    ensures PathPush(Comps(cur), name) == Comps(cur + [name]) && PathPop(Comps(cur + [name])) == Comps(cur)
    ensures PathPop(Comps(cur)) == Comps(Leave(cur))
  {
    PushPlain(Comps(cur), name);
    assert Comps(cur) + [Normal(name)] == Comps(cur + [name]);
  }

  lemma CompsPop(cur: seq<Bytes>)
    ensures PathPop(Comps(cur)) == Comps(Leave(cur))
  {
  }

  predicate HasFile(fs: Fs, p: seq<Bytes>, data: Bytes) {
    p in fs && fs[p] == IsFile(data)
  }

  lemma {:induction false} MadeIsNamed(ms: seq<Message>, cur: seq<Bytes>, p: seq<Bytes>)
    ensures p in Made(ms, cur) ==> p in Named(ms, cur)
  {
    if ms != [] {
      match ms[0]
      case FileOf(_, _) => MadeIsNamed(ms[1..], cur, p);
      case DirOf(name) => MadeIsNamed(ms[1..], cur + [name], p);
      case Pop => MadeIsNamed(ms[1..], Leave(cur), p);
    }
  }

  /** The files made are the files the visitor is shown. */
  lemma {:induction false} MadeFiles(ms: seq<Message>, cur: seq<Bytes>, p: seq<Bytes>, data: Bytes)
    requires PlainMessages(ms) && NoRepeats(Named(ms, cur))
    ensures HasFile(Made(ms, cur), p, data) <==> FileOut(Comps(p), data) in Files(ms, Comps(cur))
  {
    hide PlainFile, PathPush, PathPop, Comps;
    if ms != [] {
      var m, rest := ms[0], ms[1..];
      assert PlainMessages(rest);
      assert ms == [m] + rest;
      if m.Pop? {
        CompsPop(cur);
        MadeFiles(rest, Leave(cur), p, data);
      } else {
        assert PlainFile(m.name);
        CompsPush(cur, m.name);
        var here := cur + [m.name];
        var next := if m.DirOf? then here else cur;
        TailNoRepeats(here, Named(rest, next));
        MadeFiles(rest, next, p, data);
        MadeIsNamed(rest, next, here);
        assert here !in Made(rest, next);
        CompsDiffer(p, here);
      }
    }
  }

  lemma TailNoRepeats(p: seq<Bytes>, rest: seq<seq<Bytes>>)
    requires NoRepeats([p] + rest)
    ensures NoRepeats(rest) && p !in rest
  {
    var all := [p] + rest;
    forall i, j | 0 <= i < j < |rest| ensures rest[i] != rest[j] {
      assert all[i + 1] == rest[i] && all[j + 1] == rest[j];
    }
    forall i | 0 <= i < |rest| ensures rest[i] != p {
      assert all[0] == p && all[i + 1] == rest[i];
    }
  }

  lemma CompsDiffer(p: seq<Bytes>, q: seq<Bytes>)
    ensures Comps(p) == Comps(q) ==> p == q
  {
    assert |p| == |Comps(p)| && forall i :: 0 <= i < |p| ==> Comps(p)[i].name == p[i];
    assert |q| == |Comps(q)| && forall i :: 0 <= i < |q| ==> Comps(q)[i].name == q[i];
  }

  predicate FileAt(fs: Fs, p: seq<Bytes>) {
    p in fs && fs[p].IsFile?
  }

  predicate Shown(files: seq<FileOut>, p: seq<Bytes>) {
    exists i :: 0 <= i < |files| && files[i].path == Comps(p)
  }

  lemma ShownFirst(f: FileOut, files: seq<FileOut>, p: seq<Bytes>)
    ensures Shown([f] + files, p) <==> f.path == Comps(p) || Shown(files, p)
  {
    var all := [f] + files;
    if f.path == Comps(p) { assert all[0].path == Comps(p); }
    if Shown(files, p) {
      var i :| 0 <= i < |files| && files[i].path == Comps(p);
      assert all[i + 1].path == Comps(p);
    }
  }

  /** Files end up at exactly the paths the visitor is shown, repeated ones included. */
  lemma {:induction false} ReplayShown(ms: seq<Message>, fs: Fs, cur: seq<Bytes>, p: seq<Bytes>)
    requires PlainMessages(ms) && Replay(ms, fs, cur).Some?
    ensures FileAt(Replay(ms, fs, cur).value, p) <==> FileAt(fs, p) || Shown(Files(ms, Comps(cur)), p)
  {
    hide PlainFile, PathPush, PathPop, Comps, Shown;
    if ms == [] {
      NoneShown(p);
    } else {
      var m, rest := ms[0], ms[1..];
      assert ms == [m] + rest;
      PlainRest(m, rest);
      match m
      case Pop =>
        CompsPop(cur);
        ReplayShown(rest, fs, Leave(cur), p);
      case DirOf(name) =>
        CompsPush(cur, name);
        ReplayShown(rest, fs[cur + [name] := IsDir], cur + [name], p);
      case FileOf(name, data) =>
        CompsPush(cur, name);
        CompsDiffer(p, cur + [name]);
        ShownFirst(FileOut(Comps(cur + [name]), data), Files(rest, Comps(cur)), p);
        ReplayShown(rest, Written(fs, cur + [name], data).value, cur, p);
    }
  }

  lemma NoneShown(p: seq<Bytes>)
    ensures !Shown([], p)
  {
  }

  /**
   From an empty directory, on an archive with plain names: unpacking accepts what the visitor accepts,
   and beyond that exactly the archives that stop right after a directory of the starting directory, unless
   a path is taken already; both then see files at the same paths, and the same bytes if none is repeated.
   */
  lemma DecodersAgree(os: Os, data: Bytes)
    requires PlainMessages(Parse(data).0)
    ensures var unpacked, visited := UnpackTo(os, data, map[], [[]]), Visit(data, [], 0); var (ms, e) := Parse(data);
      && (unpacked.Ok? <==> Replay(ms, map[], []).Some? && (visited.Ok? || (e.None? && EndsInDir(ms, 0))))
      && (unpacked.Ok? && visited.Ok? ==> forall p :: FileAt(unpacked.value, p) <==> Shown(visited.value, p))
      && (NoRepeats(Named(ms, [])) ==> Replay(ms, map[], []).Some?)
      && (NoRepeats(Named(ms, [])) && unpacked.Ok? && visited.Ok? ==>
            forall p, d :: HasFile(unpacked.value, p, d) <==> FileOut(Comps(p), d) in visited.value)
  {
    hide UnpackTo, Visit, Parse, Named, PlainMessages, NoRepeats, Made, Files, Balanced, EndsInDir, HasFile, Replay,
      Shown;
    var ms := Parse(data).0;
    var none: Fs := map[];
    StackOfRoot();
    UnpackDecides(os, data, none, []);
    VisitIs(data, [], 0);
    assert Comps([]) == [];
    if Replay(ms, none, []).Some? {
      forall p ensures FileAt(Replay(ms, none, []).value, p) <==> Shown(Files(ms, []), p) {
        ReplayShown(ms, none, [], p);
      }
    }
    if NoRepeats(Named(ms, [])) {
      assert Undisturbed(ms, none, []);
      ReplayMade(ms, none, []);
      assert none + Made(ms, []) == Made(ms, []);
      forall p, d ensures HasFile(Made(ms, []), p, d) <==> FileOut(Comps(p), d) in Files(ms, []) {
        MadeFiles(ms, [], p, d);
      }
    }
  }

  lemma StackOfRoot()
    ensures StackOf([]) == [[]]
  {
  }

  /** The exception needs a directory message at the very end. */
  lemma {:induction false} EndsInDirLast(ms: seq<Message>, depth: nat)
    requires EndsInDir(ms, depth)
    ensures ms != [] && ms[|ms| - 1].DirOf? && !Balanced(ms, depth)
  {
    var rest := ms[1..];
    match ms[0]
    case FileOf(_, _) => EndsInDirLast(rest, depth);
    case DirOf(_) => if |ms| > 1 { EndsInDirLast(rest, depth + 1); }
    case Pop => EndsInDirLast(rest, depth - 1);
  }

  // ---------- contents after a repeated path ----------

  /** Byte `i` is that of part `k`, and every later part is too short to have one. */
  predicate SetLast(data: Bytes, parts: seq<Bytes>, i: nat, k: nat) {
    && i < |data| && k < |parts| && i < |parts[k]| && data[i] == parts[k][i]
    && forall l :: k < l < |parts| ==> |parts[l]| <= i
  }

  /** The parts laid over each other in order: as long as the longest, every byte from the last that has it. */
  ghost predicate Layered(data: Bytes, parts: seq<Bytes>) {
    && (forall k :: 0 <= k < |parts| ==> |parts[k]| <= |data|)
    && (forall i :: 0 <= i < |data| ==> SetByOne(data, parts, i))
  }

  ghost predicate SetByOne(data: Bytes, parts: seq<Bytes>, i: nat) {
    exists k :: SetLast(data, parts, i, k)
  }

  /** What the file at a path holds before anything is written. */
  function Held(fs: Fs, p: seq<Bytes>): seq<Bytes> {
    if p in fs && fs[p].IsFile? then [fs[p].data] else []
  }

  /** What the messages write at a path, in order. */
  function Writes(ms: seq<Message>, cur: seq<Bytes>, p: seq<Bytes>): seq<Bytes> {
    if ms == [] then []
    else match ms[0]
      case FileOf(name, data) => (if cur + [name] == p then [data] else []) + Writes(ms[1..], cur, p)
      case DirOf(name) => Writes(ms[1..], cur + [name], p)
      case Pop => Writes(ms[1..], Leave(cur), p)
  }

  /** The last part is there whole, then what was longer before. */
  lemma LastThenLonger(data: Bytes, parts: seq<Bytes>)
    requires parts != [] && Layered(data, parts)
    ensures var last := parts[|parts| - 1];
      && last <= data
      && (|parts| == 1 ==> data == last)
      && (|parts| == 2 ==> data == last + (if |last| < |parts[0]| then parts[0][|last|..] else []))
  {
    var last := parts[|parts| - 1];
    assert |last| <= |data|;
    forall i | 0 <= i < |data|
      ensures i < |last| ==> data[i] == last[i]
      ensures i >= |last| ==> |parts| > 1
      ensures |parts| == 2 && i >= |last| ==> i < |parts[0]| && data[i] == parts[0][i]
    {
      assert SetByOne(data, parts, i);
      var k: nat :| SetLast(data, parts, i, k);
    }
    if |data| > |last| {
      assert SetByOne(data, parts, |data| - 1);
      var k: nat :| SetLast(data, parts, |data| - 1, k);
      assert |parts| == 2 ==> k == 0;
    }
    assert data[..|last|] == last;
    if |parts| == 2 && |last| < |parts[0]| {
      assert |parts[0]| <= |data|;
      assert data[|last|..] == parts[0][|last|..];
      assert data == data[..|last|] + data[|last|..];
    }
  }

  /** One write laid over what was there. */
  lemma LayOver(a: Bytes, b: Bytes, data: Bytes, rest: seq<Bytes>)
    requires Layered(data, [if |b| < |a| then b + a[|b|..] else b] + rest)
    ensures Layered(data, [a, b] + rest)
  {
    var c := if |b| < |a| then b + a[|b|..] else b;
    var few, many := [c] + rest, [a, b] + rest;
    assert forall l :: 1 <= l < |few| ==> many[l + 1] == few[l];
    assert |few[0]| <= |data|;
    forall k | 0 <= k < |many| ensures |many[k]| <= |data| {
      if k >= 2 { assert many[k] == few[k - 1]; }
    }
    forall i | 0 <= i < |data| ensures SetByOne(data, many, i) {
      assert SetByOne(data, few, i);
      var k: nat :| SetLast(data, few, i, k);
      forall l | k + 1 < l < |many| ensures |many[l]| <= i { assert many[l] == few[l - 1]; }
      if k > 0 {
        assert SetLast(data, many, i, k + 1);
      } else if i < |b| {
        assert SetLast(data, many, i, 1);
      } else {
        assert SetLast(data, many, i, 0);
      }
    }
  }

  ghost predicate ContentsAre(fs: Fs, p: seq<Bytes>, parts: seq<Bytes>) {
    if parts == [] then p in fs ==> fs[p].IsDir?
    else p in fs && fs[p].IsFile? && Layered(fs[p].data, parts)
  }

  lemma HeldFirst(fs: Fs, p: seq<Bytes>)
    ensures ContentsAre(fs, p, Held(fs, p))
  {
    if Held(fs, p) != [] {
      var d := fs[p].data;
      forall i | 0 <= i < |d| ensures SetByOne(d, [d], i) { assert SetLast(d, [d], i, 0); }
    }
  }

  /** Contents after any messages: what was there, and everything written to the path, laid over in order. */
  lemma {:induction false} ReplayContents(ms: seq<Message>, fs: Fs, cur: seq<Bytes>, p: seq<Bytes>)
    requires Replay(ms, fs, cur).Some?
    ensures ContentsAre(Replay(ms, fs, cur).value, p, Held(fs, p) + Writes(ms, cur, p))
  {
    hide ContentsAre, Layered;
    if ms == [] {
      HeldFirst(fs, p);
      assert Held(fs, p) + Writes(ms, cur, p) == Held(fs, p);
    } else {
      var m, rest := ms[0], ms[1..];
      match m
      case FileOf(name, data) =>
        var q := cur + [name];
        var fs' := Written(fs, q, data).value;
        ReplayContents(rest, fs', cur, p);
        WrittenContents(fs, q, data, p, Replay(rest, fs', cur).value, Writes(rest, cur, p));
        assert Held(fs, p) + Writes(ms, cur, p) == Held(fs, p) + (if q == p then [data] else []) + Writes(rest, cur, p);
      case DirOf(name) =>
        ReplayContents(rest, fs[cur + [name] := IsDir], cur + [name], p);
      case Pop => ReplayContents(rest, fs, Leave(cur), p);
    }
  }

  lemma WrittenContents(fs: Fs, q: seq<Bytes>, data: Bytes, p: seq<Bytes>, end: Fs, rest: seq<Bytes>)
    requires Written(fs, q, data).Some? && ContentsAre(end, p, Held(Written(fs, q, data).value, p) + rest)
    ensures ContentsAre(end, p, Held(fs, p) + (if q == p then [data] else []) + rest)
  {
    hide Layered;
    var fs' := Written(fs, q, data).value;
    if q == p {
      if p in fs {
        LayOver(fs[p].data, data, end[p].data, rest);
        assert Held(fs, p) + [data] + rest == [fs[p].data, data] + rest;
      } else {
        assert Held(fs, p) + [data] + rest == Held(fs', p) + rest;
      }
    } else {
      assert Held(fs, p) + [] + rest == Held(fs', p) + rest;
    }
  }
}
