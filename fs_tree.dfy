/**
 * The file-system view of the store (imapfs/fs.py): nodes are files or
 * directories, each held in one message whose first byte is its type tag.
 * This module gives the abstract tree the dispatcher works on and the path
 * walk over it; module Fs holds the stateful node cache and operations.
 */
module FsTree {
  import opened Wrappers
  import opened Text
  import opened Imap
  import opened Messages

  /** The reserved name of the root directory: the all-zero UUID. */
  const Root: string := "00000000-0000-0000-0000-000000000000"

  const FileTag: Byte := 0x66  // 'f'
  const DirTag: Byte := 0x64   // 'd'

  /** What a directory's bytes start with: the tag 'd' and the marker CR LF. */
  const DirMagic: Bytes := [DirTag, 0x0D, 0x0A]

  /** The test check_filesystem applies to the root's bytes: the first three are DirMagic. */
  predicate HasMagic(data: Bytes)
  {
    |data| >= 3 && data[..3] == DirMagic
  }

  /** A directory's children: (child name, display name) pairs in insertion order. */
  type Children = seq<(string, string)>

  /**
   * The directory encoding (imapfs/directory.py is not part of this model):
   * a pair of functions that the file system is configured with.
   */
  datatype DirCodec = DirCodec(encode: Children -> Bytes, decode: Bytes -> Children)

  /** What the model needs of the directory encoding: decoding undoes encoding, and the bytes pass HasMagic (written out). */
  ghost predicate CodecOk(codec: DirCodec)
  {
    forall c :: codec.decode(codec.encode(c)) == c && |codec.encode(c)| >= 3 && codec.encode(c)[..3] == DirMagic
  }

  /** Every stored body carries a type tag. */
  ghost predicate WellTagged(mb: Mailbox)
  {
    forall i :: 0 <= i < |mb| ==> |mb[i].body| >= 1 && (mb[i].body[0] == FileTag || mb[i].body[0] == DirTag)
  }

  /** A node as the dispatcher sees it. */
  datatype NodeView = FileView(content: Bytes) | DirView(children: Children)

  /** The node that the bytes of a message describe. */
  function ViewOfBytes(data: Bytes, codec: DirCodec): (r: NodeView)
    ensures r.DirView? <==> |data| >= 1 && data[0] == DirTag
    ensures r.DirView? ==> r.children == codec.decode(data)
    ensures r.FileView? && |data| >= 1 ==> data == [data[0]] + r.content
    ensures r.FileView? && |data| == 0 ==> r.content == []
  {
    if |data| >= 1 && data[0] == DirTag then DirView(codec.decode(data))
    else FileView(if |data| >= 1 then data[1..] else [])
  }

  /** get_child_by_name: the name of the first child shown as `display`. */
  function ChildByName(children: Children, display: string): (r: Option<string>)
    ensures r.Some? <==> exists k :: 0 <= k < |children| && children[k].1 == display
    ensures r.Some? ==> exists k :: 0 <= k < |children| && children[k] == (r.value, display)
  {
    if children == [] then None
    else if children[0].1 == display then Some(children[0].0)
    else
      var r := ChildByName(children[1..], display);
      assert forall k :: 1 <= k < |children| ==> children[k] == children[1..][k - 1];
      r
  }

  /** add_child: a new entry at the end, or a new display name for an existing child. */
  function Linked(children: Children, name: string, display: string): (r: Children)
    ensures (name, display) in r
    ensures forall k :: 0 <= k < |children| && children[k].0 != name ==> children[k] in r
    ensures forall e :: e in r && e.0 != name ==> e in children
    ensures |r| == |children| + 1 ==> r == children + [(name, display)]
  {
    if children == [] then [(name, display)]
    else if children[0].0 == name then [(name, display)] + children[1..]
    else [children[0]] + Linked(children[1..], name, display)
  }

  /** remove_child: every entry for `name` dropped, the others kept in order. */
  function Unlinked(children: Children, name: string): (r: Children)
    ensures forall e :: e in r <==> e in children && e.0 != name
    ensures |r| <= |children|
  {
    if children == [] then []
    else if children[0].0 == name then Unlinked(children[1..], name)
    else [children[0]] + Unlinked(children[1..], name)
  }

  // ---------------------------------------------------------------------
  // The tree: open nodes' bytes take precedence over the store's newest version

  function Subjects(mb: Mailbox): set<string>
  {
    set i | 0 <= i < |mb| :: mb[i].subject
  }

  /** The body of the newest stored version of `name`. */
  function StoredBody(mb: Mailbox, name: string): Option<Bytes>
  {
    match NewestIndex(mb, name)
    case None => None
    case Some(i) => Some(mb[i].body)
  }

  function CurrentBytes(open: map<string, Bytes>, mb: Mailbox, name: string): Bytes
  {
    if name in open then open[name]
    else match StoredBody(mb, name)
      case None => []
      case Some(b) => b
  }

  /** Every node that can be opened, by name: the open ones and every subject in the store. */
  function TreeOf(open: map<string, Bytes>, mb: Mailbox, codec: DirCodec): map<string, NodeView>
  {
    map n | n in open.Keys + Subjects(mb) :: ViewOfBytes(CurrentBytes(open, mb, n), codec)
  }

  lemma SubjectsNewest(mb: Mailbox, name: string)
    ensures name in Subjects(mb) <==> NewestIndex(mb, name).Some?
  {
    if NewestIndex(mb, name).Some? {
      assert mb[NewestIndex(mb, name).value].subject == name;
    }
  }

  /** Two stores with the same subjects position by position have the same newest index for every subject. */
  lemma {:induction false} SameNewestIndex(mb1: Mailbox, mb2: Mailbox, name: string)
    requires |mb1| == |mb2|
    requires forall i :: 0 <= i < |mb1| ==> mb1[i].subject == mb2[i].subject
    ensures NewestIndex(mb1, name) == NewestIndex(mb2, name)
    decreases |mb1|
  {
    if mb1 != [] {
      SameNewestIndex(mb1[..|mb1| - 1], mb2[..|mb2| - 1], name);
    }
  }

  /** Two stores with the same subjects and bodies position by position hold the same tree. */
  lemma SameContents(mb1: Mailbox, mb2: Mailbox, name: string)
    requires |mb1| == |mb2|
    requires forall i :: 0 <= i < |mb1| ==> mb1[i].subject == mb2[i].subject && mb1[i].body == mb2[i].body
    ensures NewestIndex(mb1, name) == NewestIndex(mb2, name)
    ensures StoredBody(mb1, name) == StoredBody(mb2, name)
    ensures Subjects(mb1) == Subjects(mb2)
  {
    SameNewestIndex(mb1, mb2, name);
    forall s | s in Subjects(mb1) ensures s in Subjects(mb2) {
      var i :| 0 <= i < |mb1| && mb1[i].subject == s;
      assert mb2[i].subject == s;
    }
    forall s | s in Subjects(mb2) ensures s in Subjects(mb1) {
      var i :| 0 <= i < |mb2| && mb2[i].subject == s;
      assert mb1[i].subject == s;
    }
  }

  lemma StoreDeletedContents(mb: Mailbox, uid: string, name: string)
    ensures StoredBody(StoreDeleted(mb, uid), name) == StoredBody(mb, name)
    ensures Subjects(StoreDeleted(mb, uid)) == Subjects(mb)
  {
    SameContents(StoreDeleted(mb, uid), mb, name);
  }

  lemma RetiredContents(mb: Mailbox, prior: Option<string>, name: string)
    ensures StoredBody(Retired(mb, prior), name) == StoredBody(mb, name)
    ensures Subjects(Retired(mb, prior)) == Subjects(mb)
    ensures WellTagged(mb) ==> WellTagged(Retired(mb, prior))
  {
    if prior.Some? && prior.value != "" {
      StoreDeletedContents(mb, prior.value, name);
      SameContents(StoreDeleted(mb, prior.value), mb, name);
    }
  }

  /** A flush of `name` changes the stored body of no other name, and makes `name` a subject. */
  lemma AfterFlushContents(mb: Mailbox, name: string, data: Bytes, other: string)
    ensures other != name ==> StoredBody(AfterFlush(mb, name, data), other) == StoredBody(mb, other)
    ensures StoredBody(AfterFlush(mb, name, data), name) == Some(data)
    ensures Subjects(AfterFlush(mb, name, data)) == Subjects(mb) + {name}
    ensures WellTagged(mb) && |data| >= 1 && (data[0] == FileTag || data[0] == DirTag)
            ==> WellTagged(AfterFlush(mb, name, data))
  {
    var mb1 := mb + [Mail(name, data, false)];
    RetiredContents(mb1, Newest(mb, name), other);
    RetiredContents(mb1, Newest(mb, name), name);
    NewestAppend(mb, Mail(name, data, false), other);
    NewestAppend(mb, Mail(name, data, false), name);
    assert mb1[..|mb|] == mb;
    if other != name {
      match NewestIndex(mb, other)
      case None =>
      case Some(i) =>
        assert NewestIndex(mb1, other) == Some(i);
    }
    assert NewestIndex(mb1, name) == Some(|mb|);
    assert Subjects(mb1) == Subjects(mb) + {name} by {
      forall s | s in Subjects(mb1) ensures s in Subjects(mb) + {name} {
        var i :| 0 <= i < |mb1| && mb1[i].subject == s;
        if i < |mb| { assert mb[i].subject == s; }
      }
      assert mb1[|mb|].subject == name;
      forall s | s in Subjects(mb) ensures s in Subjects(mb1) {
        var i :| 0 <= i < |mb| && mb[i].subject == s;
        assert mb1[i].subject == s;
      }
    }
  }

  /** Changing one open node's bytes changes that node's view and nothing else. */
  lemma TreeUpdate(open: map<string, Bytes>, mb: Mailbox, codec: DirCodec, name: string, data: Bytes)
    ensures TreeOf(open[name := data], mb, codec) == TreeOf(open, mb, codec)[name := ViewOfBytes(data, codec)]
  {
  }

  /** Storing a name that is not open shows the stored bytes under it and changes no other view. */
  lemma TreeStore(open: map<string, Bytes>, mb: Mailbox, codec: DirCodec, name: string, data: Bytes)
    requires name !in open
    ensures TreeOf(open, AfterFlush(mb, name, data), codec) == TreeOf(open, mb, codec)[name := ViewOfBytes(data, codec)]
    ensures CurrentBytes(open, AfterFlush(mb, name, data), name) == data
  {
    var t1, t2 := TreeOf(open, AfterFlush(mb, name, data), codec), TreeOf(open, mb, codec)[name := ViewOfBytes(data, codec)];
    AfterFlushContents(mb, name, data, name);
    forall n | n in t1 ensures n in t2 && t1[n] == t2[n] {
      AfterFlushContents(mb, name, data, n);
    }
    forall n | n in t2 ensures n in t1 {
      AfterFlushContents(mb, name, data, n);
    }
  }

  /** Flushing an open node leaves the tree as it was: the open bytes already showed. */
  lemma TreeFlush(open: map<string, Bytes>, mb: Mailbox, codec: DirCodec, name: string, data: Bytes)
    requires name in open
    ensures TreeOf(open, AfterFlush(mb, name, data), codec) == TreeOf(open, mb, codec)
  {
    var t1, t2 := TreeOf(open, AfterFlush(mb, name, data), codec), TreeOf(open, mb, codec);
    AfterFlushContents(mb, name, data, name);
    forall n | n in t1 ensures n in t2 && t1[n] == t2[n] {
      AfterFlushContents(mb, name, data, n);
    }
    forall n | n in t2 ensures n in t1 {
      AfterFlushContents(mb, name, data, n);
    }
  }

  /** Flagging a version \Deleted leaves the tree as it was. */
  lemma TreeRetired(open: map<string, Bytes>, mb: Mailbox, codec: DirCodec, prior: Option<string>)
    ensures TreeOf(open, Retired(mb, prior), codec) == TreeOf(open, mb, codec)
  {
    var t1, t2 := TreeOf(open, Retired(mb, prior), codec), TreeOf(open, mb, codec);
    RetiredContents(mb, prior, Root);
    forall n | n in t1 ensures n in t2 && t1[n] == t2[n] {
      RetiredContents(mb, prior, n);
    }
  }

  /** Opening a stored node, with the bytes of its newest version, leaves the tree as it was. */
  lemma TreeOpen(open: map<string, Bytes>, mb: Mailbox, codec: DirCodec, name: string)
    requires name !in open && StoredBody(mb, name).Some?
    ensures TreeOf(open[name := StoredBody(mb, name).value], mb, codec) == TreeOf(open, mb, codec)
  {
    SubjectsNewest(mb, name);
    var t1 := TreeOf(open[name := StoredBody(mb, name).value], mb, codec);
    var t2 := TreeOf(open, mb, codec);
    forall n | n in t1 ensures n in t2 && t1[n] == t2[n] {
    }
  }

  /** Dropping an open node whose bytes are those of its newest stored version leaves the tree as it was. */
  lemma TreeClose(open: map<string, Bytes>, mb: Mailbox, codec: DirCodec, name: string)
    requires name in open && StoredBody(mb, name) == Some(open[name])
    ensures TreeOf(open - {name}, mb, codec) == TreeOf(open, mb, codec)
  {
    SubjectsNewest(mb, name);
    var t1 := TreeOf(open - {name}, mb, codec);
    var t2 := TreeOf(open, mb, codec);
    forall n | n in t2 ensures n in t1 && t1[n] == t2[n] {
    }
  }

  /** A name that is not open shows what the store alone shows for it, read from any store with the same newest body. */
  lemma ClosedShowsStored(open: map<string, Bytes>, mb: Mailbox, mb0: Mailbox, codec: DirCodec, name: string)
    requires name !in open
    requires StoredBody(mb, name) == StoredBody(mb0, name)
    ensures name in TreeOf(open, mb, codec) <==> name in TreeOf(map[], mb0, codec)
    ensures name in TreeOf(open, mb, codec) ==> TreeOf(open, mb, codec)[name] == TreeOf(map[], mb0, codec)[name]
  {
    SubjectsNewest(mb, name);
    SubjectsNewest(mb0, name);
  }

  /** Dropping an open node changes what the tree shows for no other name. */
  lemma TreeDrop(open: map<string, Bytes>, mb: Mailbox, codec: DirCodec, name: string)
    ensures TreeOf(open - {name}, mb, codec) - {name} == TreeOf(open, mb, codec) - {name}
  {
    var t1, t2 := TreeOf(open - {name}, mb, codec) - {name}, TreeOf(open, mb, codec) - {name};
    forall n | n in t2 ensures n in t1 && t1[n] == t2[n] {
      assert CurrentBytes(open - {name}, mb, n) == CurrentBytes(open, mb, n);
    }
  }

  // ---------------------------------------------------------------------
  // Path resolution

  /**
   * The walk of get_node_by_path from node `cur` along `parts`: empty parts
   * are skipped, a missing child or a child that cannot be opened fails, and
   * reaching a file ends the walk at that file.
   */
  function Walk(tree: map<string, NodeView>, cur: string, parts: seq<string>): (r: Option<string>)
    ensures r.Some? ==> r.value in tree
    decreases |parts|
  {
    if cur !in tree then None
    else if parts == [] then Some(cur)
    else if parts[0] == "" then Walk(tree, cur, parts[1..])
    else match tree[cur]
      case FileView(_) => Some(cur)
      case DirView(children) =>
        match ChildByName(children, parts[0])
        case None => None
        case Some(child) => if child == "" then None else Walk(tree, child, parts[1..])
  }

  /** get_node_by_path: the name of the node `path` leads to. */
  function Resolve(tree: map<string, NodeView>, path: string): (r: Option<string>)
    ensures r.Some? ==> r.value in tree
  {
    if path == "/" then (if Root in tree then Some(Root) else None)
    else Walk(tree, Root, Split(path, '/'))
  }

  /** The node `path` leads to, if any. */
  function Lookup(tree: map<string, NodeView>, path: string): (r: Option<NodeView>)
    ensures r.Some? <==> Resolve(tree, path).Some?
    ensures r.Some? ==> Resolve(tree, path).value in tree && r.value == tree[Resolve(tree, path).value]
  {
    match Resolve(tree, path)
    case None => None
    case Some(n) => Some(tree[n])
  }

  /** get_path_parent. */
  function PathParent(path: string): (r: string)
    ensures |r| <= |path| && r == path[..|r|]
    ensures '/' !in path ==> r == ""
  {
    RPartitionHead(path, '/')
  }

  /** get_path_filename. */
  function PathFilename(path: string): (r: string)
    ensures '/' !in r
    ensures '/' !in path ==> r == path
  {
    RPartitionTail(path, '/')
  }

  /** The parent and the file name put back together give the path; the file name holds no '/'. */
  lemma PathSplit(path: string)
    requires '/' in path
    ensures PathParent(path) + "/" + PathFilename(path) == path
    ensures '/' !in PathFilename(path)
  {
    RPartitionSpec(path, '/');
  }

  /** Empty segments, as from a doubled slash, do not change where a walk ends. */
  lemma {:induction false} WalkSkipsEmpty(tree: map<string, NodeView>, cur: string, p: seq<string>, q: seq<string>)
    ensures Walk(tree, cur, p + [""] + q) == Walk(tree, cur, p + q)
    decreases |p|
  {
    if cur in tree {
      if p == [] {
        assert (p + [""] + q)[1..] == q;
        assert p + q == q;
      } else {
        assert (p + [""] + q)[0] == p[0] && (p + q)[0] == p[0];
        assert (p + [""] + q)[1..] == p[1..] + [""] + q;
        assert (p + q)[1..] == p[1..] + q;
        if p[0] == "" {
          WalkSkipsEmpty(tree, cur, p[1..], q);
        } else if tree[cur].DirView? {
          var child := ChildByName(tree[cur].children, p[0]);
          if child.Some? && child.value != "" {
            WalkSkipsEmpty(tree, child.value, p[1..], q);
          }
        }
      }
    }
  }

  /** A walk that stands on a file stays there, whatever parts remain. */
  lemma {:induction false} WalkStopsAtFile(tree: map<string, NodeView>, cur: string, parts: seq<string>)
    requires cur in tree && tree[cur].FileView?
    ensures Walk(tree, cur, parts) == Some(cur)
    decreases |parts|
  {
    if parts != [] && parts[0] == "" {
      WalkStopsAtFile(tree, cur, parts[1..]);
    }
  }

  /** Walking `p + q` is walking `p`, then walking `q` from where `p` ended. */
  lemma {:induction false} WalkAppend(tree: map<string, NodeView>, cur: string, p: seq<string>, q: seq<string>)
    ensures Walk(tree, cur, p + q) == match Walk(tree, cur, p)
                                     case None => None
                                     case Some(d) => Walk(tree, d, q)
    decreases |p|
  {
    if cur in tree {
      if p == [] {
        assert p + q == q;
      } else {
        assert (p + q)[0] == p[0] && (p + q)[1..] == p[1..] + q;
        if p[0] == "" {
          WalkAppend(tree, cur, p[1..], q);
        } else if tree[cur].FileView? {
          WalkStopsAtFile(tree, cur, q);
        } else {
          var child := ChildByName(tree[cur].children, p[0]);
          if child.Some? && child.value != "" {
            WalkAppend(tree, child.value, p[1..], q);
          }
        }
      }
    }
  }

  /** The "/" shortcut of get_node_by_path agrees with the walk: every path resolves by walking its parts. */
  lemma ResolveIsWalk(tree: map<string, NodeView>, path: string)
    ensures Resolve(tree, path) == Walk(tree, Root, Split(path, '/'))
  {
    if path == "/" {
      assert path == [] + ['/'] + [];
      SplitAppend([], [], '/');
      var parts: seq<string> := ["", ""];
      assert Split(path, '/') == parts;
      assert parts[1..] == [""] && [""][1..] == [];
      if Root in tree {
        assert Walk(tree, Root, [""]) == Walk(tree, Root, []);
      }
    }
  }

  /**
   * A path resolves to what its last part names inside the node its parent
   * path resolves to.
   */
  lemma ResolveParent(tree: map<string, NodeView>, path: string)
    ensures Resolve(tree, path) == match Resolve(tree, PathParent(path))
                                   case None => None
                                   case Some(d) => Walk(tree, d, [PathFilename(path)])
  {
    var parent, name := PathParent(path), PathFilename(path);
    RPartitionSpec(path, '/');
    ResolveIsWalk(tree, path);
    ResolveIsWalk(tree, parent);
    SplitNone(name, '/');
    if '/' in path {
      PathSplit(path);
      SplitAppend(parent, name, '/');
      WalkAppend(tree, Root, Split(parent, '/'), [name]);
    } else {
      assert parent == "" && name == path;
      assert Split(parent, '/') == [""];
      WalkSkipsEmpty(tree, Root, [], [name]);
      assert [] + [""] + [name] == [""] + [name];
      WalkAppend(tree, Root, [""], [name]);
    }
  }

  // ---------------------------------------------------------------------
  // What survives a change to the tree

  /** `w` keeps what a walk sees of `v`: a file stays a file, a directory keeps its children as a prefix. */
  predicate Keeps(v: NodeView, w: NodeView)
  {
    match v
    case FileView(_) => w.FileView?
    case DirView(c) => w.DirView? && |c| <= |w.children| && w.children[..|c|] == c
  }

  /** Every node of `tree` is in `tree2`, kept. */
  ghost predicate Grows(tree: map<string, NodeView>, tree2: map<string, NodeView>)
  {
    forall n :: n in tree ==> n in tree2 && Keeps(tree[n], tree2[n])
  }

  /** Every child a directory lists is a node of the tree, under a non-empty name. */
  ghost predicate WellLinked(tree: map<string, NodeView>)
  {
    forall n, k :: n in tree && tree[n].DirView? && 0 <= k < |tree[n].children| ==>
      tree[n].children[k].0 != "" && tree[n].children[k].0 in tree
  }

  /** Children added after the existing ones do not change which child a display name finds. */
  lemma {:induction false} ChildByNamePrefix(c: Children, c2: Children, display: string)
    requires |c| <= |c2| && c2[..|c|] == c && ChildByName(c, display).Some?
    ensures ChildByName(c2, display) == ChildByName(c, display)
  {
    assert c2[0] == c[0];
    if c[0].1 != display {
      assert c2[1..][..|c| - 1] == c[1..];
      ChildByNamePrefix(c[1..], c2[1..], display);
    }
  }

  /** A walk that ends somewhere in `tree` ends at the same node in a tree that grows from it. */
  lemma {:induction false} WalkGrows(tree: map<string, NodeView>, tree2: map<string, NodeView>, cur: string, parts: seq<string>)
    requires Grows(tree, tree2)
    ensures Walk(tree, cur, parts).Some? ==> Walk(tree2, cur, parts) == Walk(tree, cur, parts)
    decreases |parts|
  {
    if cur in tree && parts != [] {
      assert Keeps(tree[cur], tree2[cur]);
      if parts[0] == "" {
        WalkGrows(tree, tree2, cur, parts[1..]);
      } else if tree[cur].DirView? {
        var child := ChildByName(tree[cur].children, parts[0]);
        if child.Some? {
          ChildByNamePrefix(tree[cur].children, tree2[cur].children, parts[0]);
          if child.value != "" {
            WalkGrows(tree, tree2, child.value, parts[1..]);
          }
        }
      }
    }
  }

  /** Every path that resolves in `tree` resolves to the same node in a tree that grows from it. */
  lemma ResolveGrows(tree: map<string, NodeView>, tree2: map<string, NodeView>, path: string)
    requires Grows(tree, tree2)
    ensures Resolve(tree, path).Some? ==> Resolve(tree2, path) == Resolve(tree, path)
  {
    ResolveIsWalk(tree, path);
    ResolveIsWalk(tree2, path);
    WalkGrows(tree, tree2, Root, Split(path, '/'));
  }
}
