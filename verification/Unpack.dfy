/**
 The two decoders of the pearchive format (pearchive/src/lib.rs): one hands files to a visitor and
 counts its depth, one unpacks into a directory with a stack of open directories.
 */
module Unpack {
  import opened Bytes
  import opened Paths
  import opened Archive

  // ---------- all messages of an archive ----------

  /** The messages that can be read, and the error that stops the reading, if any. */
  function Parse(data: Bytes): (seq<Message>, Option<ArchiveError>)
    decreases |data|
  {
    match Next(data)
    case Err(e) => ([], Some(e))
    case Ok(None) => ([], None)
    case Ok(Some((m, rest))) => var (ms, e) := Parse(rest); ([m] + ms, e)
  }

  predicate AllReadable(ms: seq<Message>) {
    forall i :: 0 <= i < |ms| ==> Readable(ms[i])
  }

  lemma {:induction false} ParseEncoded(ms: seq<Message>)
    requires AllReadable(ms)
    ensures Parse(EncodeAll(ms)) == (ms, None)
  {
    hide Next, Encode, Readable;
    if ms != [] {
      ParseEncoded(ms[1..]);
      MessageRoundTrip(ms[0], EncodeAll(ms[1..]));
      assert ms == [ms[0]] + ms[1..];
    } else {
      assert Next([]) == Ok(None);
    }
  }

  lemma {:induction false} ParseMeansEncoded(data: Bytes)
    requires Parse(data).1.None?
    ensures AllReadable(Parse(data).0) && EncodeAll(Parse(data).0) == data
    decreases |data|
  {
    hide Next, Encode, Readable;
    if data != [] {
      ReadMeansEncoded(data);
      var (m, rest) := Next(data).value.value;
      ParseMeansEncoded(rest);
      var ms := Parse(data).0;
      assert ms[0] == m && ms[1..] == Parse(rest).0;
    }
  }

  /** Different lists of readable messages have different encodings. */
  lemma Unambiguous(a: seq<Message>, b: seq<Message>)
    requires AllReadable(a) && AllReadable(b) && EncodeAll(a) == EncodeAll(b)
    ensures a == b
  {
    ParseEncoded(a);
    ParseEncoded(b);
  }

  // ---------- the visiting decoder ----------

  datatype FileOut = FileOut(path: seq<Component>, data: Bytes)

  /** What a visitor that always goes on is shown. */
  function Visit(data: Bytes, path: seq<Component>, depth: nat): Result<seq<FileOut>, ArchiveError>
    decreases |data|
  {
    match Next(data)
    case Err(e) => Err(e)
    case Ok(None) => if depth == 0 then Ok([]) else Err(ArchiveTruncated)
    case Ok(Some((FileOf(name, contents), rest))) =>
      var here := PathPush(path, name);
      Before([FileOut(here, contents)], Visit(rest, PathPop(here), depth))
    case Ok(Some((DirOf(name), rest))) => Visit(rest, PathPush(path, name), depth + 1)
    case Ok(Some((Pop, rest))) => if depth == 0 then Err(EmptyStack) else Visit(rest, PathPop(path), depth - 1)
  }

  function Before(out: seq<FileOut>, r: Result<seq<FileOut>, ArchiveError>): Result<seq<FileOut>, ArchiveError> {
    if r.Ok? then Ok(out + r.value) else r
  }

  lemma BeforeJoins(a: seq<FileOut>, b: seq<FileOut>, r: Result<seq<FileOut>, ArchiveError>)
    ensures Before([], r) == r && Before(a, Before(b, r)) == Before(a + b, r)
  {
    if r.Ok? { assert [] + r.value == r.value && a + (b + r.value) == a + b + r.value; }
  }

  /** `unpack_visitor` with a visitor that keeps every file. */
  method UnpackVisitor(data: Bytes) returns (r: Result<seq<FileOut>, ArchiveError>)
    ensures r == Visit(data, [], 0)
  {
    hide Next, PathPush, PathPop;
    var path, depth, cur, out := [], 0, data, [];
    BeforeJoins([], [], Visit(data, [], 0));
    while true
      invariant Visit(data, [], 0) == Before(out, Visit(cur, path, depth))
      decreases |cur|
    {
      var next :- Next(cur);
      if next.None? {
        assert out + [] == out;
        if depth == 0 { return Ok(out); } else { return Err(ArchiveTruncated); }
      }
      match next.value.0 {
        case FileOf(name, contents) =>
          path := PathPush(path, name);
          BeforeJoins(out, [FileOut(path, contents)], Visit(next.value.1, PathPop(path), depth));
          out := out + [FileOut(path, contents)];
          path := PathPop(path);
        case DirOf(name) =>
          path := PathPush(path, name);
          depth := depth + 1;
        case Pop =>
          if depth == 0 { return Err(EmptyStack); }
          depth := depth - 1;
          path := PathPop(path);
      }
      cur := next.value.1;
    }
  }

  /** Every directory entered is left, and none is left that was not entered. */
  predicate Balanced(ms: seq<Message>, depth: nat) {
    if ms == [] then depth == 0
    else match ms[0]
      case FileOf(_, _) => Balanced(ms[1..], depth)
      case DirOf(_) => Balanced(ms[1..], depth + 1)
      case Pop => depth > 0 && Balanced(ms[1..], depth - 1)
  }

  /** The files of the messages in order, each under the names entered so far. */
  function Files(ms: seq<Message>, path: seq<Component>): seq<FileOut> {
    if ms == [] then []
    else match ms[0]
      case FileOf(name, data) =>
        [FileOut(PathPush(path, name), data)] + Files(ms[1..], PathPop(PathPush(path, name)))
      case DirOf(name) => Files(ms[1..], PathPush(path, name))
      case Pop => Files(ms[1..], PathPop(path))
  }

  lemma {:induction false} VisitIs(data: Bytes, path: seq<Component>, depth: nat)
    ensures var (ms, e) := Parse(data);
      Visit(data, path, depth).Ok? <==> e.None? && Balanced(ms, depth)
    ensures Visit(data, path, depth).Ok? ==> Visit(data, path, depth).value == Files(Parse(data).0, path)
    decreases |data|
  {
    hide Next, PathPush, PathPop;
    match Next(data)
    case Err(e) =>
    case Ok(None) =>
    case Ok(Some((m, rest))) =>
      var ms := Parse(data).0;
      assert ms[0] == m && ms[1..] == Parse(rest).0;
      match m
      case FileOf(name, _) => VisitIs(rest, PathPop(PathPush(path, name)), depth);
      case DirOf(name) => VisitIs(rest, PathPush(path, name), depth + 1);
      case Pop => if depth > 0 { VisitIs(rest, PathPop(path), depth - 1); }
  }

  /** The visitor accepts exactly the encodings of balanced lists of readable messages. */
  lemma AcceptsBalanced(data: Bytes)
    ensures Visit(data, [], 0).Ok? <==> exists ms :: AllReadable(ms) && Balanced(ms, 0) && EncodeAll(ms) == data
  {
    hide AllReadable, Balanced;
    VisitIs(data, [], 0);
    if Visit(data, [], 0).Ok? { ParseMeansEncoded(data); }
    if ms :| AllReadable(ms) && Balanced(ms, 0) && EncodeAll(ms) == data { ParseEncoded(ms); }
  }

  // ---------- packing and unpacking a forest ----------

  predicate PlainFile(name: Bytes) {
    PlainName(name) && 0 !in name && |name| <= MAX_NAME_LEN
  }

  predicate PlainTree(t: Tree) {
    PlainFile(t.name) && (t.Branch? ==> PlainForest(t.kids))
  }

  predicate PlainForest(forest: seq<Tree>) {
    forall i :: 0 <= i < |forest| ==> PlainTree(forest[i])
  }

  /** The files of a tree, in the order they are met. */
  function TreeFiles(t: Tree, path: seq<Component>): seq<FileOut> {
    match t
    case Leaf(name, data) => [FileOut(path + [Normal(name)], data)]
    case Branch(name, kids) => ForestFiles(kids, |kids|, path + [Normal(name)])
  }

  function ForestFiles(forest: seq<Tree>, n: nat, path: seq<Component>): seq<FileOut>
    requires n <= |forest|
    decreases forest, n
  {
    if n == 0 then [] else ForestFiles(forest, n - 1, path) + TreeFiles(forest[n - 1], path)
  }

  lemma {:induction false} TreeUnpacks(t: Tree, path: seq<Component>, depth: nat, more: seq<Message>)
    requires PlainTree(t)
    ensures Balanced(TreeMessages(t) + more, depth) <==> Balanced(more, depth)
    ensures Files(TreeMessages(t) + more, path) == TreeFiles(t, path) + Files(more, path)
    decreases t, 0
  {
    hide PathPush, PathPop, PlainFile;
    PlainFilePushes(t.name, path);
    var ms := TreeMessages(t) + more;
    match t
    case Leaf(name, data) =>
      assert ms[1..] == more;
    case Branch(name, kids) =>
      var inner, tail := Messages(kids, |kids|), [Pop] + more;
      assert ms == [DirOf(name)] + (inner + tail);
      assert ms[1..] == inner + tail && tail[1..] == more;
      ForestUnpacks(kids, |kids|, path + [Normal(name)], depth + 1, tail);
      assert Balanced(tail, depth + 1) <==> Balanced(more, depth);
  }

  lemma PlainFilePushes(name: Bytes, path: seq<Component>)
    requires PlainFile(name)
    ensures PathPush(path, name) == path + [Normal(name)] && PathPop(path + [Normal(name)]) == path
  {
    PushPlain(path, name);
  }

  lemma {:induction false} ForestUnpacks(forest: seq<Tree>, n: nat, path: seq<Component>, depth: nat,
                                         more: seq<Message>)
    requires PlainForest(forest) && n <= |forest|
    ensures Balanced(Messages(forest, n) + more, depth) <==> Balanced(more, depth)
    ensures Files(Messages(forest, n) + more, path) == ForestFiles(forest, n, path) + Files(more, path)
    decreases forest, n
  {
    hide PathPush, PathPop, Balanced, Files, TreeMessages, TreeFiles;
    if n == 0 {
      assert Messages(forest, n) + more == more;
    } else {
      var t := forest[n - 1];
      ForestUnpacks(forest, n - 1, path, depth, TreeMessages(t) + more);
      assert Messages(forest, n) + more == Messages(forest, n - 1) + (TreeMessages(t) + more);
      TreeUnpacks(t, path, depth, more);
    }
  }

  lemma {:induction false} ForestReadable(forest: seq<Tree>, n: nat, depth: nat)
    requires PlainForest(forest) && n <= |forest| && Packable(forest, n, depth)
    ensures AllReadable(Messages(forest, n))
    decreases forest, n
  {
    if n > 0 {
      ForestReadable(forest, n - 1, depth);
      var t := forest[n - 1];
      if t.Branch? { ForestReadable(t.kids, |t.kids|, depth + 1); }
    }
  }

  /** A packed forest unpacks to its files, in order. */
  lemma ForestRoundTrip(forest: seq<Tree>)
    requires PlainForest(forest) && Packable(forest, |forest|, 0)
    ensures Visit(EncodeAll(Messages(forest, |forest|)), [], 0) == Ok(ForestFiles(forest, |forest|, []))
  {
    hide Balanced, Files, Visit, Parse, EncodeAll, Messages, ForestFiles, AllReadable, PlainForest, Packable;
    var ms := Messages(forest, |forest|);
    ForestReadable(forest, |forest|, 0);
    ParseEncoded(ms);
    ForestUnpacks(forest, |forest|, [], 0, []);
    assert ms + [] == ms && ForestFiles(forest, |forest|, []) + [] == ForestFiles(forest, |forest|, []);
    NoMessages();
    VisitIs(EncodeAll(ms), [], 0);
  }

  lemma NoMessages()
    ensures Balanced([], 0) && Files([], []) == []
  {
  }
}
