/**
 * What each file-system operation of imapfs/fs.py does to the tree of
 * nodes, stated on the abstract tree alone: the answer it gives and the
 * tree it leaves. Module Fs proves the stateful operations against these.
 */
module FsSpec {
  import opened Wrappers
  import opened Text
  import opened Messages
  import opened FsTree

  // errno values (Linux); operations return them negated, as the FUSE binding expects
  const ENOENT: int := 2
  const EEXIST: int := 17
  const EISDIR: int := 21
  const ENOTEMPTY: int := 39

  // st_mode bits
  const S_IFDIR: int := 0x4000
  const S_IFREG: int := 0x8000
  /** S_IFDIR | 0777 */
  const DirMode: int := 0x41FF
  /** S_IFREG | 0666 */
  const FileMode: int := 0x81B6

  /** The attributes getattr fills in. */
  datatype Stat = Stat(mode: int, nlink: int, size: int)

  /** A result or a negated errno. */
  datatype Outcome<T> = Done(value: T) | Fail(errno: int)

  /**
   * `content[offset:offset + size]` in Python: at most `size` bytes from
   * `offset` on, none when `offset` is past the end.
   */
  function Slice(content: Bytes, offset: nat, size: nat): (r: Bytes)
    ensures |r| <= size
    ensures offset <= |content| ==> offset + |r| <= |content| && content[offset..offset + |r|] == r
    ensures |r| < size ==> offset + |r| >= |content|
    ensures offset >= |content| ==> r == []
  {
    if offset >= |content| then []
    else if offset + size <= |content| then content[offset..offset + size]
    else content[offset..]
  }

  /** getattr's fields: a directory is 0777 with two links and size 4096, a file 0666 with one link and its content's size. */
  function Attr(v: NodeView): (r: Stat)
    ensures v.DirView? ==> r == Stat(S_IFDIR + 0x1FF, 2, 4096)
    ensures v.FileView? ==> r == Stat(S_IFREG + 0x1B6, 1, |v.content|)
  {
    match v
    case DirView(_) => Stat(DirMode, 2, 4096)
    case FileView(content) => Stat(FileMode, 1, |content|)
  }

  /** The display names of a directory's children, in order. */
  function Displays(children: Children): (r: seq<string>)
    ensures |r| == |children|
    ensures forall k :: 0 <= k < |r| ==> r[k] == children[k].1
  {
    if children == [] then [] else Displays(children[..|children| - 1]) + [children[|children| - 1].1]
  }

  /** What getattr answers for `path`. */
  function AttrOf(tree: map<string, NodeView>, path: string): (r: Outcome<Stat>)
    ensures r.Fail? <==> Resolve(tree, path).None?
    ensures r.Fail? ==> r.errno == ENOENT
  {
    match Lookup(tree, path)
    case None => Fail(ENOENT)
    case Some(v) => Done(Attr(v))
  }

  lemma AttrOfResolved(tree: map<string, NodeView>, path: string)
    ensures Resolve(tree, path).None? ==> AttrOf(tree, path) == Fail(ENOENT)
    ensures Resolve(tree, path).Some? ==>
              Resolve(tree, path).value in tree && AttrOf(tree, path) == Done(Attr(tree[Resolve(tree, path).value]))
  {
    var v := Lookup(tree, path);
  }

  /** What readdir lists for `path`: nothing unless it leads to a directory. */
  function Listing(tree: map<string, NodeView>, path: string): (r: seq<string>)
    ensures Resolve(tree, path).None? ==> r == []
    ensures r != [] ==> |r| >= 2 && r[0] == "." && r[1] == ".."
  {
    match Lookup(tree, path)
    case Some(DirView(children)) => [".", ".."] + Displays(children)
    case _ => []
  }

  lemma ListingResolved(tree: map<string, NodeView>, path: string)
    ensures Resolve(tree, path).None? ==> Listing(tree, path) == []
    ensures Resolve(tree, path).Some? ==>
              Resolve(tree, path).value in tree &&
              Listing(tree, path) == match tree[Resolve(tree, path).value]
                                     case DirView(children) => [".", ".."] + Displays(children)
                                     case FileView(_) => []
  {
    var v := Lookup(tree, path);
  }

  /** What an operation answers (0 or a negated errno, or a count) and the tree it leaves. */
  datatype Change = Change(code: int, tree: map<string, NodeView>)

  /** A directory's children; none for a file. */
  function Kids(v: NodeView): Children
  {
    if v.DirView? then v.children else []
  }

  /** The children `name` shows in `tree`; none when it is absent or a file. */
  function KidsAt(tree: map<string, NodeView>, name: string): Children
  {
    if name in tree then Kids(tree[name]) else []
  }

  /** truncate: a file's content cut or padded to `size` bytes. */
  function Truncated(tree: map<string, NodeView>, path: string, size: nat): (r: Change)
    ensures r.code == 0 || r.code == -ENOENT || r.code == -EISDIR
    ensures r.code != 0 ==> r.tree == tree
    ensures r.tree.Keys == tree.Keys
  {
    match Lookup(tree, path)
    case None => Change(-ENOENT, tree)
    case Some(DirView(_)) => Change(-EISDIR, tree)
    case Some(FileView(content)) => Change(0, tree[Resolve(tree, path).value := FileView(Resized(content, size))])
  }

  lemma TruncatedCases(tree: map<string, NodeView>, path: string, size: nat)
    ensures Resolve(tree, path).None? ==> Truncated(tree, path, size) == Change(-ENOENT, tree)
    ensures Resolve(tree, path).Some? ==>
              var n := Resolve(tree, path).value;
              n in tree &&
              (tree[n].DirView? ==> Truncated(tree, path, size) == Change(-EISDIR, tree)) &&
              (tree[n].FileView? ==> Truncated(tree, path, size) == Change(0, tree[n := FileView(Resized(tree[n].content, size))]))
  {
    var v := Lookup(tree, path);
  }

  /** read: at most `size` bytes of a file's content from `offset` on. */
  function ReadOf(tree: map<string, NodeView>, path: string, size: nat, offset: nat): (r: Outcome<Bytes>)
    ensures r.Done? ==> |r.value| <= size
    ensures r.Fail? ==> r.errno == ENOENT || r.errno == EISDIR
    ensures r.Fail? <==> Lookup(tree, path).None? || Lookup(tree, path).value.DirView?
  {
    match Lookup(tree, path)
    case None => Fail(ENOENT)
    case Some(DirView(_)) => Fail(EISDIR)
    case Some(FileView(content)) => Done(Slice(content, offset, size))
  }

  lemma ReadOfCases(tree: map<string, NodeView>, path: string, size: nat, offset: nat)
    ensures Resolve(tree, path).None? ==> ReadOf(tree, path, size, offset) == Fail(ENOENT)
    ensures Resolve(tree, path).Some? ==>
              var n := Resolve(tree, path).value;
              n in tree &&
              (tree[n].DirView? ==> ReadOf(tree, path, size, offset) == Fail(EISDIR)) &&
              (tree[n].FileView? ==> ReadOf(tree, path, size, offset) == Done(Slice(tree[n].content, offset, size)))
  {
    var v := Lookup(tree, path);
  }

  /** write: `buf` written into a file's content at `offset`; the whole of it is reported accepted. */
  function Written(tree: map<string, NodeView>, path: string, buf: Bytes, offset: nat): (r: Change)
    ensures r.code == |buf| || r.code == -ENOENT || r.code == -EISDIR
    ensures r.code < 0 ==> r.tree == tree
    ensures r.tree.Keys == tree.Keys
  {
    match Lookup(tree, path)
    case None => Change(-ENOENT, tree)
    case Some(DirView(_)) => Change(-EISDIR, tree)
    case Some(FileView(content)) => Change(|buf|, tree[Resolve(tree, path).value := FileView(Overwritten(content, offset, buf))])
  }

  lemma WrittenCases(tree: map<string, NodeView>, path: string, buf: Bytes, offset: nat)
    ensures Resolve(tree, path).None? ==> Written(tree, path, buf, offset) == Change(-ENOENT, tree)
    ensures Resolve(tree, path).Some? ==>
              var n := Resolve(tree, path).value;
              n in tree &&
              (tree[n].DirView? ==> Written(tree, path, buf, offset) == Change(-EISDIR, tree)) &&
              (tree[n].FileView? ==>
                 Written(tree, path, buf, offset) == Change(|buf|, tree[n := FileView(Overwritten(tree[n].content, offset, buf))]))
  {
    var v := Lookup(tree, path);
  }

  /**
   * mkdir and mknod: when `path` leads nowhere but its parent does, the
   * node `name` shows as `node` and the parent lists it under the path's
   * file name. A path that resolves is EEXIST; a missing parent is
   * `missingParent` (mkdir answers EEXIST, mknod ENOENT).
   */
  function Made(tree: map<string, NodeView>, path: string, name: string, node: NodeView, missingParent: int): (r: Change)
    ensures r.code == 0 || r.code == -EEXIST || r.code == -missingParent
    ensures r.code == 0 || r.tree == tree
    ensures r.tree == tree || r.tree.Keys == tree.Keys + {name}
  {
    if Resolve(tree, path).Some? then Change(-EEXIST, tree)
    else match Lookup(tree, PathParent(path))
      case None => Change(-missingParent, tree)
      case Some(parent) =>
        Change(0, tree[name := node][Resolve(tree, PathParent(path)).value := DirView(Linked(Kids(parent), name, PathFilename(path)))])
  }

  /** When `path` leads nowhere but its parent does, the parent is a directory: a file would have ended the walk there. */
  lemma MissingUnderDirectory(tree: map<string, NodeView>, path: string)
    requires Resolve(tree, path).None? && Resolve(tree, PathParent(path)).Some?
    ensures Resolve(tree, PathParent(path)).value in tree && tree[Resolve(tree, PathParent(path)).value].DirView?
  {
    ResolveParent(tree, path);
    var v := Lookup(tree, PathParent(path));
    var p := Resolve(tree, PathParent(path)).value;
    if tree[p].FileView? {
      WalkStopsAtFile(tree, p, [PathFilename(path)]);
    }
  }

  lemma MadeCases(tree: map<string, NodeView>, path: string, name: string, node: NodeView, missingParent: int)
    ensures Resolve(tree, path).Some? ==> Made(tree, path, name, node, missingParent) == Change(-EEXIST, tree)
    ensures Resolve(tree, path).None? && Resolve(tree, PathParent(path)).None? ==>
              Made(tree, path, name, node, missingParent) == Change(-missingParent, tree)
    ensures Resolve(tree, path).None? && Resolve(tree, PathParent(path)).Some? ==>
              var p := Resolve(tree, PathParent(path)).value;
              p in tree && tree[p].DirView? &&
              Made(tree, path, name, node, missingParent) ==
                Change(0, tree[name := node][p := DirView(Linked(tree[p].children, name, PathFilename(path)))])
  {
    var v := Lookup(tree, PathParent(path));
    if Resolve(tree, path).None? && Resolve(tree, PathParent(path)).Some? {
      MissingUnderDirectory(tree, path);
    }
  }

  /**
   * rmdir: a missing path is ENOENT, a directory with children ENOTEMPTY;
   * otherwise the parent no longer lists it. The directory itself stays
   * in the tree: its stored versions are flagged deleted, not expunged.
   */
  function RemovedDir(tree: map<string, NodeView>, path: string): (r: Change)
    ensures r.code == 0 || r.code == -ENOENT || r.code == -ENOTEMPTY
    ensures r.code != 0 ==> r.tree == tree
    ensures r.tree.Keys == tree.Keys
  {
    match Lookup(tree, path)
    case None => Change(-ENOENT, tree)
    case Some(node) =>
      if Kids(node) != [] then Change(-ENOTEMPTY, tree)
      else match Lookup(tree, PathParent(path))
        case None => Change(-ENOENT, tree)
        case Some(parent) =>
          Change(0, tree[Resolve(tree, PathParent(path)).value := DirView(Unlinked(Kids(parent), Resolve(tree, path).value))])
  }

  /**
   * `tree` with `name` showing what the store alone shows for it, or
   * without `name` when nothing is stored under it.
   */
  function WithStored(tree: map<string, NodeView>, name: string, stored: map<string, NodeView>): (r: map<string, NodeView>)
    ensures name in r <==> name in stored
    ensures name in stored ==> r[name] == stored[name]
    ensures r - {name} == tree - {name}
  {
    if name in stored then tree[name := stored[name]] else tree - {name}
  }

  /** A tree that agrees with `tree` away from `name`, and with the store at `name`, is `WithStored`. */
  lemma WithStoredUnique(t: map<string, NodeView>, tree: map<string, NodeView>, name: string, stored: map<string, NodeView>)
    requires t - {name} == tree - {name}
    requires name in t <==> name in stored
    requires name in t ==> t[name] == stored[name]
    ensures t == WithStored(tree, name, stored)
  {
    var w := WithStored(tree, name, stored);
    forall n | n in t ensures n in w && t[n] == w[n] {
      if n != name {
        assert n in t - {name};
      }
    }
    forall n | n in w ensures n in t {
      if n != name {
        assert n in w - {name};
      }
    }
  }

  /** unlink's answer: ENOENT unless `path` leads to a file whose parent path also leads somewhere. */
  function FileRemovalCode(tree: map<string, NodeView>, path: string): (r: int)
    ensures r == 0 || r == -ENOENT
    ensures r == 0 <==> Resolve(tree, path).Some? && tree[Resolve(tree, path).value].FileView? && Resolve(tree, PathParent(path)).Some?
  {
    match Lookup(tree, path)
    case Some(FileView(_)) => if Lookup(tree, PathParent(path)).Some? then 0 else -ENOENT
    case _ => -ENOENT
  }

  /**
   * unlink: a path that is missing or is not a file is ENOENT; otherwise
   * the parent no longer lists the file. The file's message is only
   * flagged deleted, so its name goes on showing its newest stored version,
   * as `stored` (the view of the store alone) gives it; changes not yet
   * stored are dropped.
   */
  function RemovedFile(tree: map<string, NodeView>, path: string, stored: map<string, NodeView>): (r: Change)
    ensures r.code == FileRemovalCode(tree, path)
    ensures r.code != 0 ==> r.tree == tree
    ensures r.code == 0 ==> Resolve(tree, path).Some? &&
                            var file := Resolve(tree, path).value;
                            (file in r.tree <==> file in stored) && (file in stored ==> r.tree[file] == stored[file])
  {
    match Lookup(tree, path)
    case None => Change(-ENOENT, tree)
    case Some(DirView(_)) => Change(-ENOENT, tree)
    case Some(FileView(_)) =>
      match Lookup(tree, PathParent(path))
      case None => Change(-ENOENT, tree)
      case Some(parent) =>
        var file := Resolve(tree, path).value;
        Change(0, WithStored(tree[Resolve(tree, PathParent(path)).value := DirView(Unlinked(Kids(parent), file))], file, stored))
  }

  /** When `path` and its parent both resolve and the parent is a file, the walk stopped there: both name that file. */
  lemma ParentOfResolved(tree: map<string, NodeView>, path: string)
    requires Resolve(tree, path).Some? && Resolve(tree, PathParent(path)).Some?
    ensures Resolve(tree, PathParent(path)).value in tree
    ensures tree[Resolve(tree, PathParent(path)).value].FileView? ==> Resolve(tree, path) == Resolve(tree, PathParent(path))
  {
    ResolveParent(tree, path);
    var v := Lookup(tree, PathParent(path));
    var p := Resolve(tree, PathParent(path)).value;
    if tree[p].FileView? {
      WalkStopsAtFile(tree, p, [PathFilename(path)]);
    }
  }

  lemma RemovedDirCases(tree: map<string, NodeView>, path: string)
    ensures Resolve(tree, path).None? ==> RemovedDir(tree, path) == Change(-ENOENT, tree)
    ensures Resolve(tree, path).Some? ==>
              var c := Resolve(tree, path).value;
              c in tree &&
              (Kids(tree[c]) != [] ==> RemovedDir(tree, path) == Change(-ENOTEMPTY, tree)) &&
              (Kids(tree[c]) == [] && Resolve(tree, PathParent(path)).None? ==> RemovedDir(tree, path) == Change(-ENOENT, tree))
    ensures Resolve(tree, path).Some? && Resolve(tree, PathParent(path)).Some? ==>
              var c, p := Resolve(tree, path).value, Resolve(tree, PathParent(path)).value;
              c in tree && p in tree && (tree[c].DirView? ==> tree[p].DirView?) &&
              (Kids(tree[c]) == [] ==> RemovedDir(tree, path) == Change(0, tree[p := DirView(Unlinked(Kids(tree[p]), c))]))
  {
    var v := Lookup(tree, path);
    var u := Lookup(tree, PathParent(path));
    if Resolve(tree, path).Some? && Resolve(tree, PathParent(path)).Some? {
      ParentOfResolved(tree, path);
    }
  }

  /** unlink's answer: ENOENT for a missing path, a directory or a missing parent; 0 otherwise. */
  lemma RemovedFileCases(tree: map<string, NodeView>, path: string, stored: map<string, NodeView>)
    ensures Resolve(tree, path).None? ==> RemovedFile(tree, path, stored) == Change(-ENOENT, tree)
    ensures Resolve(tree, path).Some? ==>
              var f := Resolve(tree, path).value;
              f in tree &&
              (tree[f].DirView? ==> RemovedFile(tree, path, stored) == Change(-ENOENT, tree)) &&
              (tree[f].FileView? && Resolve(tree, PathParent(path)).None? ==> RemovedFile(tree, path, stored) == Change(-ENOENT, tree))
    ensures Resolve(tree, path).Some? && Resolve(tree, PathParent(path)).Some? ==>
              var f, p := Resolve(tree, path).value, Resolve(tree, PathParent(path)).value;
              f in tree && p in tree &&
              (tree[f].FileView? ==> RemovedFile(tree, path, stored) == Change(0, WithStored(tree[p := DirView(Unlinked(Kids(tree[p]), f))], f, stored)))
  {
    var v := Lookup(tree, path);
    var u := Lookup(tree, PathParent(path));
  }
}
