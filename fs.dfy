/**
 * The node cache, the path resolver and the operation dispatcher of the
 * file system (imapfs/fs.py), over the File and Directory node interfaces.
 */
module Fs {
  import opened Wrappers
  import opened Text
  import opened Imap
  import opened Messages
  import opened FsTree
  import opened FsSpec

  datatype Kind = FileKind | DirKind

  /**
   * An open file or directory (imapfs/file.py and imapfs/directory.py are
   * not part of this model; this is the interface fs.py uses). A file's
   * content is its message's bytes after the tag; a directory keeps its
   * children decoded and re-encodes them into its message on every change.
   */
  class Node {
    const kind: Kind
    const msg: Message
    var children: Children

    constructor (kind: Kind, msg: Message, children: Children)
      ensures this.kind == kind && this.msg == msg && this.children == children
    {
      this.kind := kind;
      this.msg := msg;
      this.children := children;
    }

    ghost predicate Valid(codec: DirCodec)
      reads this, msg
    {
      |msg.data| >= 1 &&
      (kind == FileKind ==> msg.data[0] == FileTag && children == []) &&
      (kind == DirKind ==> msg.data[0] == DirTag && codec.decode(msg.data) == children)
    }

    /** File.from_message and Directory.from_message: the node a tagged message holds. */
    static method FromMessage(codec: DirCodec, m: Message) returns (r: Node)
      requires |m.data| >= 1 && (m.data[0] == FileTag || m.data[0] == DirTag)
      ensures fresh(r) && r.msg == m && r.Valid(codec)
      ensures r.kind == (if m.data[0] == FileTag then FileKind else DirKind)
    {
      if m.data[0] == FileTag {
        r := new Node(FileKind, m, []);
      } else {
        r := new Node(DirKind, m, codec.decode(m.data));
      }
    }

    /** File.size: the length of the content. */
    function Size(codec: DirCodec): (r: int)
      requires Valid(codec) && kind == FileKind
      reads this, msg
      ensures r == |ViewOfBytes(msg.data, codec).content|
    {
      |msg.data| - 1
    }

    /** Directory.create: a new empty directory under a fresh name, not yet stored. */
    static method CreateDirectory(conn: Connection, codec: DirCodec, name: string) returns (d: Node)
      requires CodecOk(codec)
      ensures fresh(d) && fresh(d.msg) && d.kind == DirKind && d.children == []
      ensures d.msg.conn == conn && d.msg.name == name && d.msg.data == codec.encode([])
      ensures d.msg.dirty && d.Valid(codec)
    {
      var m := Message.Create(conn, name);
      m.data := codec.encode([]);
      d := new Node(DirKind, m, []);
    }

    /** File.create: a new empty file under a fresh name, not yet stored. */
    static method CreateFile(conn: Connection, name: string) returns (f: Node)
      ensures fresh(f) && fresh(f.msg) && f.kind == FileKind && f.children == []
      ensures f.msg.conn == conn && f.msg.name == name && f.msg.data == [FileTag]
      ensures f.msg.dirty && f.msg.pos == 0
    {
      var m := Message.Create(conn, name);
      m.data := [FileTag];
      f := new Node(FileKind, m, []);
    }

    /** The attributes getattr reports for this node. */
    method Attributes(codec: DirCodec) returns (st: Stat)
      requires Valid(codec)
      ensures st == Attr(ViewOfBytes(msg.data, codec))
    {
      if kind == DirKind {
        st := Stat(DirMode, 2, 4096);
      } else {
        st := Stat(FileMode, 1, Size(codec));
      }
    }

    /** The entries readdir yields for a directory: ".", "..", then each child's display name. */
    method List() returns (r: seq<string>)
      ensures r == [".", ".."] + Displays(children)
    {
      r := [".", ".."];
      var i := 0;
      while i < |children|
        invariant 0 <= i <= |children|
        invariant r == [".", ".."] + Displays(children[..i])
      {
        assert children[..i + 1] == children[..i] + [children[i]];
        r := r + [children[i].1];
        i := i + 1;
      }
      assert children[..i] == children;
    }

    /** Directory.add_child. */
    method AddChild(codec: DirCodec, name: string, display: string)
      requires kind == DirKind && CodecOk(codec)
      modifies this`children, msg`data, msg`dirty
      ensures children == Linked(old(children), name, display)
      ensures msg.data == codec.encode(children) && msg.dirty && Valid(codec)
    {
      children := Linked(children, name, display);
      msg.data := codec.encode(children);
      msg.dirty := true;
    }

    /** Directory.remove_child. */
    method RemoveChild(codec: DirCodec, name: string)
      requires kind == DirKind && CodecOk(codec)
      modifies this`children, msg`data, msg`dirty
      ensures children == Unlinked(old(children), name)
      ensures msg.data == codec.encode(children) && msg.dirty && Valid(codec)
    {
      children := Unlinked(children, name);
      msg.data := codec.encode(children);
      msg.dirty := true;
    }
  }

  /**
   * `node` is filed under `name`, uses `conn` and is well formed for `codec`,
   * and holds `data`; when clean, `data` is also its newest stored version.
   */
  ghost predicate Filed(conn: Connection, codec: DirCodec, name: string, node: Node, data: Bytes, mb: Mailbox)
    reads node, node.msg
  {
    data == node.msg.data && node.msg.name == name && node.msg.conn == conn && node.Valid(codec) &&
    (!node.msg.dirty ==> StoredBody(mb, name) == Some(data))
  }

  /** The messages of a table of nodes. */
  ghost function MsgsOf(nodes: map<string, Node>): set<Message>
  {
    set n | n in nodes.Values :: n.msg
  }

  /** Every node of the table is filed under its key, with the bytes `datas` records for it. */
  ghost predicate Coherent(conn: Connection, codec: DirCodec, nodes: map<string, Node>, datas: map<string, Bytes>, mb: Mailbox)
    reads nodes.Values, MsgsOf(nodes)
  {
    (forall n :: n in datas <==> n in nodes) &&
    forall n :: n in nodes ==> Filed(conn, codec, n, nodes[n], datas[n], mb)
  }

  /** Every entry of `a` is in `b` unchanged. */
  ghost predicate Extends(a: map<string, Node>, b: map<string, Node>)
  {
    forall n :: n in a ==> n in b && b[n] == a[n]
  }

  /** Filing a name that was absent and removing it again gives back the table. */
  lemma FileThenRemove<V>(m: map<string, V>, k: string, v: V)
    requires k !in m
    ensures m[k := v] - {k} == m
  {
  }

  /** Filing one more node keeps a table coherent. */
  lemma CoherentInsert(conn: Connection, codec: DirCodec, nodes: map<string, Node>, datas: map<string, Bytes>,
                       mb: Mailbox, name: string, node: Node, data: Bytes)
    requires Coherent(conn, codec, nodes, datas, mb) && Filed(conn, codec, name, node, data, mb)
    ensures Coherent(conn, codec, nodes[name := node], datas[name := data], mb)
  {
  }

  /** Dropping a node keeps a table coherent. */
  lemma CoherentRemove(conn: Connection, codec: DirCodec, nodes: map<string, Node>, datas: map<string, Bytes>,
                       mb: Mailbox, name: string)
    requires Coherent(conn, codec, nodes, datas, mb)
    ensures Coherent(conn, codec, nodes - {name}, datas - {name}, mb)
  {
  }

  /**
   * The mailbox after rmdir or unlink: the parent's new listing is stored,
   * then the removed node's unstored bytes, if it is closed with any, and
   * finally the newest version under the node's name is flagged deleted.
   */
  ghost function AfterRemoval(mb: Mailbox, parent: string, listing: Bytes, name: string, unstored: Option<Bytes>): Mailbox
  {
    var stored := AfterFlush(mb, parent, listing);
    var closed := if unstored.Some? then AfterFlush(stored, name, unstored.value) else stored;
    Retired(closed, Newest(closed, name))
  }

  /** Once `name` is no longer open, it shows what the store alone shows for it. */
  lemma DropShowsStored(open: map<string, Bytes>, mb: Mailbox, codec: DirCodec, name: string)
    ensures TreeOf(open - {name}, mb, codec) == WithStored(TreeOf(open, mb, codec), name, TreeOf(map[], mb, codec))
  {
    TreeDrop(open, mb, codec, name);
    ClosedShowsStored(open - {name}, mb, mb, codec, name);
    WithStoredUnique(TreeOf(open - {name}, mb, codec), TreeOf(open, mb, codec), name, TreeOf(map[], mb, codec));
  }

  /** Two stores with the same newest body for `name` show `name` alike. */
  lemma SameStored(tree: map<string, NodeView>, name: string, mb: Mailbox, mb0: Mailbox, codec: DirCodec)
    requires StoredBody(mb, name) == StoredBody(mb0, name)
    ensures WithStored(tree, name, TreeOf(map[], mb, codec)) == WithStored(tree, name, TreeOf(map[], mb0, codec))
  {
    ClosedShowsStored(map[], mb, mb0, codec, name);
  }

  /**
   * The file system: a connection, the directory encoding, and the table
   * of open nodes by name. `Tree` is what the dispatcher sees: the open
   * nodes' bytes, and for every other name the newest stored version.
   */
  class FileSystem {
    const conn: Connection
    const codec: DirCodec
    var openNodes: map<string, Node>
    /** The bytes of every open node's message, by name. */
    ghost var openData: map<string, Bytes>

    ghost function Tree(): map<string, NodeView>
      reads this, conn
    {
      TreeOf(openData, conn.mailbox, codec)
    }

    /** The bytes behind what the tree shows for `name`. */
    ghost function BytesOf(name: string): Bytes
      reads this, conn
    {
      CurrentBytes(openData, conn.mailbox, name)
    }

    /** Every node opened since the earlier state is new, and so is its message. */
    twostate predicate Grown()
      reads this
    {
      forall n :: n in openNodes && n !in old(openNodes) ==> fresh(openNodes[n]) && fresh(openNodes[n].msg)
    }

    ghost predicate Valid()
      reads this, conn, openNodes.Values, MsgsOf(openNodes)
    {
      conn.Valid() && WellTagged(conn.mailbox) && CodecOk(codec) &&
      Coherent(conn, codec, openNodes, openData, conn.mailbox)
    }

    constructor (conn: Connection, codec: DirCodec)
      requires conn.Valid() && WellTagged(conn.mailbox) && CodecOk(codec)
      ensures Valid() && this.conn == conn && this.codec == codec && openNodes == map[]
    {
      this.conn := conn;
      this.codec := codec;
      openNodes := map[];
      openData := map[];
    }

    /**
     * open_node: the open node for `name`, or a newly opened one filed
     * under `name`, or null when the store has no version of it.
     */
    method OpenNode(name: string) returns (r: Node?)
      requires Valid()
      modifies this`openNodes, this`openData, conn`uidCache, conn`log
      ensures Valid() && Tree() == old(Tree())
      ensures r != null <==> name in old(Tree())
      ensures name in old(openNodes) ==> r == old(openNodes)[name] && openNodes == old(openNodes)
      ensures name in old(openNodes) ==> conn.uidCache == old(conn.uidCache) && conn.log == old(conn.log)
      ensures name !in old(openNodes) && r != null ==> fresh(r) && fresh(r.msg) && openNodes == old(openNodes)[name := r]
      ensures r == null ==> openNodes == old(openNodes)
      ensures r != null ==> r.msg.data == old(BytesOf(name))
      ensures Extends(old(openNodes), openNodes)
      ensures Grown()
    {
      if name in openNodes {
        assert Filed(conn, codec, name, openNodes[name], openData[name], conn.mailbox);
        return openNodes[name];
      }
      r := OpenStored(name);
    }

    /** open_node on a cache miss: read the newest stored version of `name` and file it under `name`. */
    method OpenStored(name: string) returns (r: Node?)
      requires Valid() && name !in openNodes
      modifies this`openNodes, this`openData, conn`uidCache, conn`log
      ensures Valid() && Tree() == old(Tree())
      ensures r != null <==> name in old(Tree())
      ensures r != null ==> fresh(r) && fresh(r.msg) && openNodes == old(openNodes)[name := r]
      ensures r == null ==> openNodes == old(openNodes)
      ensures r != null ==> r.msg.data == old(BytesOf(name))
      ensures Grown()
    {
      SubjectsNewest(conn.mailbox, name);
      var m := Message.Open(conn, name);
      if m == null {
        return null;
      }
      r := Node.FromMessage(codec, m);
      TreeOpen(openData, conn.mailbox, codec, name);
      TreeUpdate(openData, conn.mailbox, codec, name, m.data);
      Install(name, r);
    }

    /** `open_nodes[name] = node`: the node's bytes become what the tree shows for `name`. */
    method Install(name: string, r: Node)
      requires Valid() && name !in openNodes
      requires Filed(conn, codec, name, r, r.msg.data, conn.mailbox)
      modifies this`openNodes, this`openData
      ensures Valid() && Tree() == old(Tree())[name := ViewOfBytes(r.msg.data, codec)]
      ensures openNodes == old(openNodes)[name := r]
    {
      TreeUpdate(openData, conn.mailbox, codec, name, r.msg.data);
      CoherentInsert(conn, codec, openNodes, openData, conn.mailbox, name, r, r.msg.data);
      openNodes := openNodes[name := r];
      openData := openData[name := r.msg.data];
    }

    /** Node.flush on an open node: its bytes stored if dirty; the tree stays as it was. */
    method FlushOpen(node: Node)
      requires Valid() && node.msg.name in openNodes && openNodes[node.msg.name] == node
      modifies node.msg`dirty, conn`uidCache, conn`mailbox, conn`log
      ensures Valid() && Tree() == old(Tree())
      ensures !node.msg.dirty
      ensures old(node.msg.dirty) ==> conn.mailbox == AfterFlush(old(conn.mailbox), node.msg.name, node.msg.data)
      ensures old(node.msg.dirty) ==>
                conn.log == old(conn.log) + FlushCommands(node.msg.name in old(conn.uidCache), node.msg.name,
                                                          node.msg.data, Newest(old(conn.mailbox), node.msg.name))
      ensures !old(node.msg.dirty) ==> conn.mailbox == old(conn.mailbox) && conn.log == old(conn.log)
    {
      var name := node.msg.name;
      ghost var mb0 := conn.mailbox;
      ghost var wasDirty := node.msg.dirty;
      node.msg.Flush();
      if wasDirty {
        AfterFlushContents(mb0, name, node.msg.data, name);
        forall n | n in openNodes && n != name
          ensures StoredBody(conn.mailbox, n) == StoredBody(mb0, n)
        {
          AfterFlushContents(mb0, name, node.msg.data, n);
        }
        TreeFlush(openData, mb0, codec, name, node.msg.data);
      }
      forall n | n in openNodes
        ensures Filed(conn, codec, n, openNodes[n], openData[n], conn.mailbox)
      {
        if n != name {
          assert old(Filed(conn, codec, n, openNodes[n], openData[n], mb0));
        }
      }
    }

    /**
     * `open_nodes.pop(name)` for a clean node: the tree already showed its
     * newest stored version, and goes on showing it.
     */
    method Evict(name: string)
      requires Valid() && name in openNodes && !openNodes[name].msg.dirty
      modifies this`openNodes, this`openData
      ensures Valid() && Tree() == old(Tree()) && openNodes == old(openNodes) - {name}
    {
      TreeClose(openData, conn.mailbox, codec, name);
      CoherentRemove(conn, codec, openNodes, openData, conn.mailbox, name);
      openNodes := openNodes - {name};
      openData := openData - {name};
    }

    /**
     * `open_nodes.pop(name)` whatever the node's state: the name goes back
     * to showing what the store holds for it, and no other view changes.
     */
    method Drop(name: string)
      requires Valid() && name in openNodes
      modifies this`openNodes, this`openData
      ensures Valid() && openNodes == old(openNodes) - {name}
      ensures Tree() == WithStored(old(Tree()), name, TreeOf(map[], conn.mailbox, codec))
    {
      DropShowsStored(openData, conn.mailbox, codec, name);
      CoherentRemove(conn, codec, openNodes, openData, conn.mailbox, name);
      openNodes := openNodes - {name};
      openData := openData - {name};
    }

    /**
     * close_node: flush the node, then drop its name from the table. Every
     * node fs.py closes is the one open under its name.
     */
    method CloseNode(node: Node)
      requires Valid() && node.msg.name in openNodes && openNodes[node.msg.name] == node
      modifies this`openNodes, this`openData, node.msg`dirty, conn`uidCache, conn`mailbox, conn`log
      ensures Valid() && Tree() == old(Tree())
      ensures openNodes == old(openNodes) - {node.msg.name} && !node.msg.dirty
      ensures old(node.msg.dirty) ==> conn.mailbox == AfterFlush(old(conn.mailbox), node.msg.name, node.msg.data)
      ensures old(node.msg.dirty) ==>
                conn.log == old(conn.log) + FlushCommands(node.msg.name in old(conn.uidCache), node.msg.name,
                                                          node.msg.data, Newest(old(conn.mailbox), node.msg.name))
      ensures !old(node.msg.dirty) ==> conn.mailbox == old(conn.mailbox) && conn.log == old(conn.log)
    {
      FlushOpen(node);
      if node.msg.name in openNodes {
        Evict(node.msg.name);
      }
    }

    /** What the tree shows for an open node: its kind, and a directory's children. */
    lemma ViewOfOpen(name: string)
      requires Valid() && name in openNodes
      ensures name in Tree() && Tree()[name] == ViewOfBytes(openNodes[name].msg.data, codec)
      ensures Tree()[name].DirView? <==> openNodes[name].kind == DirKind
      ensures Tree()[name].DirView? ==> Tree()[name].children == openNodes[name].children
      ensures Tree()[name].FileView? ==> Tree()[name].content == openNodes[name].msg.data[1..]
    {
      assert Filed(conn, codec, name, openNodes[name], openData[name], conn.mailbox);
    }

    /** One step of get_node_by_path: open the child of `dir` shown as `parts[i]`. */
    method Descend(dir: Node, part: string, ghost tree: map<string, NodeView>, ghost parts: seq<string>, ghost i: nat)
      returns (child: Node?)
      requires Valid() && Tree() == tree
      requires dir.msg.name in openNodes && openNodes[dir.msg.name] == dir && dir.kind == DirKind
      requires i < |parts| && parts[i] == part && part != ""
      modifies this`openNodes, this`openData, conn`uidCache, conn`log
      ensures Valid() && Tree() == tree && Extends(old(openNodes), openNodes)
      ensures child == null ==> Walk(tree, dir.msg.name, parts[i..]) == None
      ensures child != null ==> child.msg.name in openNodes && openNodes[child.msg.name] == child
      ensures child != null ==> Walk(tree, dir.msg.name, parts[i..]) == Walk(tree, child.msg.name, parts[i + 1..])
      ensures Grown()
    {
      ViewOfOpen(dir.msg.name);
      assert parts[i..][1..] == parts[i + 1..];
      var key := ChildByName(dir.children, part);
      if key.None? || key.value == "" {
        return null;
      }
      child := OpenNode(key.value);
    }

    /**
     * get_node_by_path: walk from the root along the parts of `path`,
     * opening each node on the way; the node reached is the one `Resolve`
     * names, and it is left open.
     */
    method GetNodeByPath(path: string) returns (r: Node?)
      requires Valid()
      modifies this`openNodes, this`openData, conn`uidCache, conn`log
      ensures Valid() && Tree() == old(Tree()) && Extends(old(openNodes), openNodes)
      ensures Resolve(old(Tree()), path) == if r == null then None else Some(r.msg.name)
      ensures r != null ==> r.msg.name in openNodes && openNodes[r.msg.name] == r
      ensures Grown()
    {
      if path == "/" {
        r := OpenNode(Root);
      } else {
        r := WalkParts(Split(path, '/'));
      }
    }

    /** The loop of get_node_by_path: from the root, one part at a time, skipping empty parts. */
    method WalkParts(parts: seq<string>) returns (r: Node?)
      requires Valid()
      modifies this`openNodes, this`openData, conn`uidCache, conn`log
      ensures Valid() && Tree() == old(Tree()) && Extends(old(openNodes), openNodes)
      ensures Walk(old(Tree()), Root, parts) == if r == null then None else Some(r.msg.name)
      ensures r != null ==> r.msg.name in openNodes && openNodes[r.msg.name] == r
      ensures Grown()
    {
      ghost var tree := Tree();
      ghost var target := Walk(tree, Root, parts);
      var current := OpenNode(Root);
      var i := 0;
      while i < |parts|
        invariant 0 <= i <= |parts|
        invariant Valid() && Tree() == tree && Extends(old(openNodes), openNodes)
        invariant Grown()
        invariant current == null ==> target == None
        invariant current != null ==> current.msg.name in openNodes && openNodes[current.msg.name] == current
        invariant current != null ==> target == Walk(tree, current.msg.name, parts[i..])
      {
        if parts[i] == "" {
          if current != null {
            assert parts[i..][1..] == parts[i + 1..];
          }
          i := i + 1;
          continue;
        }
        if current == null || current.kind != DirKind {
          break;
        }
        ghost var before := openNodes;
        var child := Descend(current, parts[i], tree, parts, i);
        forall n | n in openNodes && n !in old(openNodes) ensures fresh(openNodes[n]) && fresh(openNodes[n].msg) {
          if n in before {
            assert openNodes[n] == before[n];
          }
        }
        if child == null {
          return null;
        }
        current := child;
        i := i + 1;
      }
      if current != null {
        ViewOfOpen(current.msg.name);
        if i < |parts| {
          WalkStopsAtFile(tree, current.msg.name, parts[i..]);
        } else {
          assert parts[i..] == [];
        }
        assert target == Some(current.msg.name);
      }
      r := current;
    }

    /** Directory.add_child on an open directory: the tree shows its new children. */
    method LinkChild(dir: Node, name: string, display: string)
      requires Valid() && dir.msg.name in openNodes && openNodes[dir.msg.name] == dir && dir.kind == DirKind
      modifies dir`children, dir.msg`data, dir.msg`dirty, this`openData
      ensures Valid() && openNodes == old(openNodes) && dir.msg.dirty
      ensures dir.children == Linked(old(dir.children), name, display) && dir.msg.data == codec.encode(dir.children)
      ensures Tree() == old(Tree())[dir.msg.name := DirView(dir.children)]
    {
      var key := dir.msg.name;
      ghost var prior := openData;
      dir.AddChild(codec, name, display);
      openData := openData[key := dir.msg.data];
      TreeUpdate(prior, conn.mailbox, codec, key, dir.msg.data);
      forall n | n in openNodes
        ensures Filed(conn, codec, n, openNodes[n], openData[n], conn.mailbox)
      {
        if n != key {
          assert old(Filed(conn, codec, n, openNodes[n], openData[n], conn.mailbox));
        }
      }
    }

    /** Directory.remove_child on an open directory: the tree shows its remaining children. */
    method UnlinkChild(dir: Node, name: string)
      requires Valid() && dir.msg.name in openNodes && openNodes[dir.msg.name] == dir && dir.kind == DirKind
      modifies dir`children, dir.msg`data, dir.msg`dirty, this`openData
      ensures Valid() && openNodes == old(openNodes) && dir.msg.dirty
      ensures dir.children == Unlinked(old(dir.children), name) && dir.msg.data == codec.encode(dir.children)
      ensures Tree() == old(Tree())[dir.msg.name := DirView(dir.children)]
    {
      var key := dir.msg.name;
      ghost var prior := openData;
      dir.RemoveChild(codec, name);
      openData := openData[key := dir.msg.data];
      TreeUpdate(prior, conn.mailbox, codec, key, dir.msg.data);
      forall n | n in openNodes
        ensures Filed(conn, codec, n, openNodes[n], openData[n], conn.mailbox)
      {
        if n != key {
          assert old(Filed(conn, codec, n, openNodes[n], openData[n], conn.mailbox));
        }
      }
    }

    /** File.seek then File.write: the content is overwritten at `offset`, grown with filler as needed. */
    method WriteAt(file: Node, offset: nat, buf: Bytes)
      requires Valid() && file.msg.name in openNodes && openNodes[file.msg.name] == file && file.kind == FileKind
      modifies file.msg`data, file.msg`pos, file.msg`dirty, this`openData
      ensures Valid() && openNodes == old(openNodes)
      ensures Tree() == old(Tree())[file.msg.name := FileView(Overwritten(old(file.msg.data[1..]), offset, buf))]
    {
      var key := file.msg.name;
      ghost var prior := openData;
      ghost var content := file.msg.data[1..];
      assert file.msg.data == [FileTag] + content;
      OverwrittenBehind(FileTag, content, offset, buf);
      file.msg.Seek(offset + 1, SeekSet);
      file.msg.Write(buf);
      openData := openData[key := file.msg.data];
      TreeUpdate(prior, conn.mailbox, codec, key, file.msg.data);
      assert file.msg.data[1..] == Overwritten(content, offset, buf);
      forall n | n in openNodes
        ensures Filed(conn, codec, n, openNodes[n], openData[n], conn.mailbox)
      {
        if n != key {
          assert old(Filed(conn, codec, n, openNodes[n], openData[n], conn.mailbox));
        }
      }
    }

    /** File.truncate: the content cut to `size` bytes or grown to it with filler. */
    method TruncateAt(file: Node, size: nat)
      requires Valid() && file.msg.name in openNodes && openNodes[file.msg.name] == file && file.kind == FileKind
      modifies file.msg`data, file.msg`pos, file.msg`dirty, this`openData
      ensures Valid() && openNodes == old(openNodes) && file.msg.dirty
      ensures file.msg.data == [FileTag] + Resized(old(file.msg.data[1..]), size)
      ensures Tree() == old(Tree())[file.msg.name := FileView(Resized(old(file.msg.data[1..]), size))]
    {
      var key := file.msg.name;
      ghost var prior := openData;
      ghost var content := file.msg.data[1..];
      assert file.msg.data == [FileTag] + content;
      ResizedBehind(FileTag, content, size);
      file.msg.Truncate(Some(size + 1));
      openData := openData[key := file.msg.data];
      TreeUpdate(prior, conn.mailbox, codec, key, file.msg.data);
      assert file.msg.data[1..] == Resized(content, size);
      forall n | n in openNodes
        ensures Filed(conn, codec, n, openNodes[n], openData[n], conn.mailbox)
      {
        if n != key {
          assert old(Filed(conn, codec, n, openNodes[n], openData[n], conn.mailbox));
        }
      }
    }

    /** File.truncate then File.flush: the resized content is stored. */
    method TruncateFile(file: Node, size: nat)
      requires Valid() && file.msg.name in openNodes && openNodes[file.msg.name] == file && file.kind == FileKind
      modifies file.msg`data, file.msg`pos, file.msg`dirty, this`openData, conn`uidCache, conn`mailbox, conn`log
      ensures Valid() && openNodes == old(openNodes)
      ensures Tree() == old(Tree())[file.msg.name := FileView(Resized(old(file.msg.data[1..]), size))]
      ensures conn.mailbox == AfterFlush(old(conn.mailbox), file.msg.name, [FileTag] + Resized(old(file.msg.data[1..]), size))
    {
      TruncateAt(file, size);
      FlushOpen(file);
    }

    /** File.seek then File.read: at most `size` bytes of the content from `offset` on. */
    method ReadAt(file: Node, offset: nat, size: nat) returns (buf: Bytes)
      requires Valid() && file.msg.name in openNodes && openNodes[file.msg.name] == file && file.kind == FileKind
      modifies file.msg`pos
      ensures Valid() && Tree() == old(Tree())
      ensures buf == Slice(file.msg.data[1..], offset, size)
    {
      ghost var content := file.msg.data[1..];
      file.msg.Seek(offset + 1, SeekSet);
      buf := file.msg.Read(Some(size));
      assert buf == Slice(content, offset, size);
      forall n | n in openNodes
        ensures Filed(conn, codec, n, openNodes[n], openData[n], conn.mailbox)
      {
        assert old(Filed(conn, codec, n, openNodes[n], openData[n], conn.mailbox));
      }
    }

    // -------------------------------------------------------------------
    // The operations. Each looks its path up first; what it then does is
    // stated against the tree as it was before the call.

    /** getattr: the attributes of the node `path` leads to. */
    method GetAttr(path: string) returns (r: Outcome<Stat>)
      requires Valid()
      modifies this`openNodes, this`openData, conn`uidCache, conn`log
      ensures Valid() && Tree() == old(Tree())
      ensures r == AttrOf(old(Tree()), path)
    {
      ghost var tree := Tree();
      AttrOfResolved(tree, path);
      var node := GetNodeByPath(path);
      if node == null {
        return Fail(ENOENT);
      }
      ViewOfOpen(node.msg.name);
      var st := node.Attributes(codec);
      r := Done(st);
    }

    /** readdir: "." and "..", then the display name of every child in order; nothing when `path` is not a directory. */
    method ReadDir(path: string) returns (r: seq<string>)
      requires Valid()
      modifies this`openNodes, this`openData, conn`uidCache, conn`log
      ensures Valid() && Tree() == old(Tree())
      ensures r == Listing(old(Tree()), path)
    {
      ghost var tree := Tree();
      ListingResolved(tree, path);
      var node := GetNodeByPath(path);
      if node == null {
        return [];
      }
      ViewOfOpen(node.msg.name);
      if node.kind != DirKind {
        return [];
      }
      r := node.List();
    }

    /** release: close the node `path` leads to, storing it if it was changed. */
    method Release(path: string) returns (r: int)
      requires Valid()
      modifies this`openNodes, this`openData, conn`uidCache, conn`mailbox, conn`log, MsgsOf(openNodes)
      ensures Valid() && Tree() == old(Tree())
      ensures Resolve(old(Tree()), path).None? ==> r == -ENOENT && conn.mailbox == old(conn.mailbox)
      ensures Resolve(old(Tree()), path).Some? ==> r == 0 && Resolve(old(Tree()), path).value !in openNodes
    {
      var node := GetNodeByPath(path);
      if node == null {
        return -ENOENT;
      }
      CloseNode(node);
      r := 0;
    }

    /** truncate: a file's content resized to `size` and stored at once. */
    method Truncate(path: string, size: nat) returns (r: int)
      requires Valid()
      modifies this`openNodes, this`openData, conn`uidCache, conn`mailbox, conn`log, MsgsOf(openNodes)
      ensures Valid() && Change(r, Tree()) == Truncated(old(Tree()), path, size)
      ensures r == 0 ==> var file := Resolve(old(Tree()), path).value;
                         conn.mailbox == AfterFlush(old(conn.mailbox), file, [FileTag] + Tree()[file].content)
      ensures r != 0 ==> conn.mailbox == old(conn.mailbox)
    {
      ghost var tree := Tree();
      TruncatedCases(tree, path, size);
      var node := GetNodeByPath(path);
      if node == null {
        return -ENOENT;
      }
      ViewOfOpen(node.msg.name);
      if node.kind != FileKind {
        return -EISDIR;
      }
      TruncateFile(node, size);
      r := 0;
    }

    /** read: at most `size` bytes of a file's content from `offset` on; nothing is stored. */
    method Read(path: string, size: nat, offset: nat) returns (r: Outcome<Bytes>)
      requires Valid()
      modifies this`openNodes, this`openData, conn`uidCache, conn`log, MsgsOf(openNodes)
      ensures Valid() && Tree() == old(Tree())
      ensures r == ReadOf(old(Tree()), path, size, offset)
    {
      ghost var tree := Tree();
      ReadOfCases(tree, path, size, offset);
      var node := GetNodeByPath(path);
      if node == null {
        return Fail(ENOENT);
      }
      ViewOfOpen(node.msg.name);
      if node.kind != FileKind {
        return Fail(EISDIR);
      }
      var data := ReadAt(node, offset, size);
      r := Done(data);
    }

    /** write: `buf` written into a file's content at `offset`, kept unstored until the file is flushed. */
    method Write(path: string, buf: Bytes, offset: nat) returns (r: int)
      requires Valid()
      modifies this`openNodes, this`openData, conn`uidCache, conn`log, MsgsOf(openNodes)
      ensures Valid() && Change(r, Tree()) == Written(old(Tree()), path, buf, offset)
    {
      ghost var tree := Tree();
      WrittenCases(tree, path, buf, offset);
      var node := GetNodeByPath(path);
      if node == null {
        return -ENOENT;
      }
      ViewOfOpen(node.msg.name);
      if node.kind != FileKind {
        return -EISDIR;
      }
      WriteAt(node, offset, buf);
      r := |buf|;
    }

    /** `open_nodes[name] = node` then `parent.add_child(name, display)` for a new node not yet stored. */
    method Adopt(parent: Node, node: Node, display: string)
      requires Valid() && parent.msg.name in openNodes && openNodes[parent.msg.name] == parent && parent.kind == DirKind
      requires node.msg.name !in openNodes && node.msg.conn == conn && node.Valid(codec) && node.msg.dirty
      requires node.msg != parent.msg
      modifies this`openNodes, this`openData, parent`children, parent.msg`data, parent.msg`dirty
      ensures Valid() && openNodes == old(openNodes)[node.msg.name := node]
      ensures parent.msg.dirty && node.msg.dirty && parent.msg.data == codec.encode(parent.children)
      ensures parent.children == Linked(old(parent.children), node.msg.name, display)
      ensures Tree() == old(Tree())[node.msg.name := ViewOfBytes(node.msg.data, codec)]
                                   [parent.msg.name := DirView(parent.children)]
    {
      Install(node.msg.name, node);
      LinkChild(parent, node.msg.name, display);
    }

    /** `first.flush()` then `second.flush()` on two changed open nodes: both stored, in that order. */
    method FlushBoth(first: Node, second: Node)
      requires Valid() && first.msg.name in openNodes && openNodes[first.msg.name] == first
      requires second.msg.name in openNodes && openNodes[second.msg.name] == second
      requires first.msg.dirty && second.msg.dirty && first.msg != second.msg
      modifies first.msg`dirty, second.msg`dirty, conn`uidCache, conn`mailbox, conn`log
      ensures Valid() && Tree() == old(Tree())
      ensures conn.mailbox == AfterFlush(AfterFlush(old(conn.mailbox), first.msg.name, first.msg.data),
                                         second.msg.name, second.msg.data)
    {
      FlushOpen(first);
      FlushOpen(second);
    }

    /** `Directory.create` under `name`, registered and linked into `parent` as `display`; nothing stored yet. */
    method NewDirectory(parent: Node, name: string, display: string) returns (child: Node)
      requires Valid() && parent.msg.name in openNodes && openNodes[parent.msg.name] == parent && parent.kind == DirKind
      requires name !in openNodes
      modifies this`openNodes, this`openData, parent`children, parent.msg`data, parent.msg`dirty
      ensures Valid() && openNodes == old(openNodes)[name := child] && fresh(child.msg)
      ensures child.msg.name == name && child.msg.dirty && child.msg.data == codec.encode([])
      ensures parent.msg.dirty && parent.msg.data == codec.encode(Linked(old(parent.children), name, display))
      ensures Tree() == old(Tree())[name := DirView([])][parent.msg.name := DirView(Linked(old(parent.children), name, display))]
    {
      child := Node.CreateDirectory(conn, codec, name);
      Adopt(parent, child, display);
    }

    /** `File.create` under `name`, registered and linked into `parent` as `display`; nothing stored yet. */
    method NewFile(parent: Node, name: string, display: string) returns (file: Node)
      requires Valid() && parent.msg.name in openNodes && openNodes[parent.msg.name] == parent && parent.kind == DirKind
      requires name !in openNodes
      modifies this`openNodes, this`openData, parent`children, parent.msg`data, parent.msg`dirty
      ensures Valid() && openNodes == old(openNodes)[name := file] && fresh(file.msg)
      ensures file.msg.name == name && file.msg.dirty && file.msg.data == [FileTag]
      ensures parent.msg.dirty && parent.msg.data == codec.encode(Linked(old(parent.children), name, display))
      ensures Tree() == old(Tree())[name := FileView([])][parent.msg.name := DirView(Linked(old(parent.children), name, display))]
    {
      file := Node.CreateFile(conn, name);
      Adopt(parent, file, display);
    }

    /**
     * The second half of mkdir: a new empty directory `name` is filed,
     * linked into `parent` as `display`, and stored before the parent is.
     */
    method MakeDirectoryIn(parent: Node, name: string, display: string)
      requires Valid() && parent.msg.name in openNodes && openNodes[parent.msg.name] == parent && parent.kind == DirKind
      requires name !in openNodes
      modifies this`openNodes, this`openData, parent`children, parent.msg`data, parent.msg`dirty
      modifies conn`uidCache, conn`mailbox, conn`log
      ensures Valid() && name in openNodes
      ensures Tree() == old(Tree())[name := DirView([])][parent.msg.name := DirView(Linked(old(parent.children), name, display))]
      ensures conn.mailbox == AfterFlush(AfterFlush(old(conn.mailbox), name, codec.encode([])),
                                         parent.msg.name, codec.encode(Linked(old(parent.children), name, display)))
    {
      var child := NewDirectory(parent, name, display);
      FlushBoth(child, parent);
    }

    /** `File.create` under `name`, linked into `parent` as `display`, then close_node: the file is stored and leaves the table. */
    method CreateAndClose(parent: Node, name: string, display: string)
      requires Valid() && parent.msg.name in openNodes && openNodes[parent.msg.name] == parent && parent.kind == DirKind
      requires name !in openNodes
      modifies this`openNodes, this`openData, parent`children, parent.msg`data, parent.msg`dirty
      modifies conn`uidCache, conn`mailbox, conn`log
      ensures Valid() && openNodes == old(openNodes) && parent.msg.dirty
      ensures parent.msg.data == codec.encode(Linked(old(parent.children), name, display))
      ensures Tree() == old(Tree())[name := FileView([])][parent.msg.name := DirView(Linked(old(parent.children), name, display))]
      ensures conn.mailbox == AfterFlush(old(conn.mailbox), name, [FileTag])
    {
      var file := NewFile(parent, name, display);
      CloseNode(file);
      FileThenRemove(old(openNodes), name, file);
    }

    /**
     * The second half of mknod: a new empty file `name` is filed, linked
     * into `parent` as `display`, closed (so stored), and then the parent
     * is stored.
     */
    method MakeFileIn(parent: Node, name: string, display: string)
      requires Valid() && parent.msg.name in openNodes && openNodes[parent.msg.name] == parent && parent.kind == DirKind
      requires name !in openNodes
      modifies this`openNodes, this`openData, parent`children, parent.msg`data, parent.msg`dirty
      modifies conn`uidCache, conn`mailbox, conn`log
      ensures Valid() && name !in openNodes
      ensures Tree() == old(Tree())[name := FileView([])][parent.msg.name := DirView(Linked(old(parent.children), name, display))]
      ensures conn.mailbox == AfterFlush(AfterFlush(old(conn.mailbox), name, [FileTag]),
                                         parent.msg.name, codec.encode(Linked(old(parent.children), name, display)))
    {
      CreateAndClose(parent, name, display);
      FlushOpen(parent);
    }

    /** A name no node is known under is not open either. */
    lemma AbsentNotOpen(name: string)
      requires Valid() && name !in Tree()
      ensures name !in openNodes
    {
      if name in openNodes {
        ViewOfOpen(name);
      }
    }

    /**
     * mkdir: EEXIST when `path` already resolves or its parent does not;
     * otherwise a new empty directory under the fresh name `name` is linked
     * into the parent, and stored before the parent is.
     */
    method Mkdir(path: string, name: string) returns (r: int)
      requires Valid() && name !in Tree()
      modifies this`openNodes, this`openData, conn`uidCache, conn`mailbox, conn`log, openNodes.Values, MsgsOf(openNodes)
      ensures Valid() && Change(r, Tree()) == Made(old(Tree()), path, name, DirView([]), EEXIST)
      ensures r == 0 ==> var parent := Resolve(old(Tree()), PathParent(path)).value;
                         conn.mailbox == AfterFlush(AfterFlush(old(conn.mailbox), name, codec.encode([])),
                                                    parent, codec.encode(Tree()[parent].children))
      ensures r != 0 ==> conn.mailbox == old(conn.mailbox)
      ensures r == 0 ==> name in openNodes
    {
      ghost var tree := Tree();
      MadeCases(tree, path, name, DirView([]), EEXIST);
      var node := GetNodeByPath(path);
      if node != null {
        return -EEXIST;
      }
      var parent := GetNodeByPath(PathParent(path));
      if parent == null {
        return -EEXIST;
      }
      ViewOfOpen(parent.msg.name);
      AbsentNotOpen(name);
      MakeDirectoryIn(parent, name, PathFilename(path));
      r := 0;
    }

    /**
     * mknod: EEXIST when `path` already resolves, ENOENT when its parent
     * does not; otherwise a new empty file under the fresh name `name` is
     * linked into the parent, closed (so stored) and then the parent stored.
     */
    method Mknod(path: string, name: string) returns (r: int)
      requires Valid() && name !in Tree()
      modifies this`openNodes, this`openData, conn`uidCache, conn`mailbox, conn`log, openNodes.Values, MsgsOf(openNodes)
      ensures Valid() && Change(r, Tree()) == Made(old(Tree()), path, name, FileView([]), ENOENT)
      ensures r == 0 ==> name !in openNodes
      ensures r == 0 ==> var parent := Resolve(old(Tree()), PathParent(path)).value;
                         conn.mailbox == AfterFlush(AfterFlush(old(conn.mailbox), name, [FileTag]),
                                                    parent, codec.encode(Tree()[parent].children))
      ensures r != 0 ==> conn.mailbox == old(conn.mailbox)
    {
      ghost var tree := Tree();
      MadeCases(tree, path, name, FileView([]), ENOENT);
      var node := GetNodeByPath(path);
      if node != null {
        return -EEXIST;
      }
      var parent := GetNodeByPath(PathParent(path));
      if parent == null {
        return -ENOENT;
      }
      ViewOfOpen(parent.msg.name);
      AbsentNotOpen(name);
      MakeFileIn(parent, name, PathFilename(path));
      r := 0;
    }

    /** `Message.unlink(imap, name)` on the file system's connection: no name's view changes. */
    method RetireStored(name: string)
      requires Valid()
      modifies conn`uidCache, conn`mailbox, conn`log
      ensures Valid() && Tree() == old(Tree())
      ensures conn.mailbox == Retired(old(conn.mailbox), Newest(old(conn.mailbox), name))
    {
      ghost var mb0 := conn.mailbox;
      ghost var prior := Newest(mb0, name);
      Message.Unlink(conn, name);
      TreeRetired(openData, mb0, codec, prior);
      RetiredContents(mb0, prior, name);
      forall n | n in openNodes
        ensures Filed(conn, codec, n, openNodes[n], openData[n], conn.mailbox)
      {
        RetiredContents(mb0, prior, n);
        assert old(Filed(conn, codec, n, openNodes[n], openData[n], mb0));
      }
    }

    /** `parent.remove_child(name)` then `parent.flush()`: the parent stops listing `name` and is stored. */
    method DetachAndStore(parent: Node, name: string)
      requires Valid() && parent.msg.name in openNodes && openNodes[parent.msg.name] == parent && parent.kind == DirKind
      modifies this`openData, parent`children, parent.msg`data, parent.msg`dirty, conn`uidCache, conn`mailbox, conn`log
      ensures Valid() && openNodes == old(openNodes) && !parent.msg.dirty
      ensures parent.children == Unlinked(old(parent.children), name)
      ensures Tree() == old(Tree())[parent.msg.name := DirView(parent.children)]
      ensures conn.mailbox == AfterFlush(old(conn.mailbox), parent.msg.name, codec.encode(parent.children))
    {
      UnlinkChild(parent, name);
      FlushOpen(parent);
    }

    /** `close_node(node)` then `Message.unlink(imap, name)`: the node is stored if changed, dropped, and its newest version flagged deleted. */
    method CloseAndRetire(node: Node)
      requires Valid() && node.msg.name in openNodes && openNodes[node.msg.name] == node
      modifies this`openNodes, this`openData, node.msg`dirty, conn`uidCache, conn`mailbox, conn`log
      ensures Valid() && Tree() == old(Tree()) && openNodes == old(openNodes) - {node.msg.name}
      ensures var closed := if old(node.msg.dirty) then AfterFlush(old(conn.mailbox), node.msg.name, node.msg.data)
                            else old(conn.mailbox);
              conn.mailbox == Retired(closed, Newest(closed, node.msg.name))
    {
      CloseNode(node);
      RetireStored(node.msg.name);
    }

    /**
     * The second half of rmdir: `parent` stops listing `child` and is
     * stored, then `child` is closed (stored first if changed) and its
     * newest version flagged deleted.
     */
    method RemoveDirectoryIn(parent: Node, child: Node) returns (ghost unstored: Option<Bytes>)
      requires Valid() && parent.msg.name in openNodes && openNodes[parent.msg.name] == parent && parent.kind == DirKind
      requires child.msg.name in openNodes && openNodes[child.msg.name] == child && child.kind == DirKind && child.children == []
      modifies this`openNodes, this`openData, parent`children, parent.msg`data, parent.msg`dirty, child.msg`dirty
      modifies conn`uidCache, conn`mailbox, conn`log
      ensures Valid() && openNodes == old(openNodes) - {child.msg.name}
      ensures Tree() == old(Tree())[parent.msg.name := DirView(Unlinked(old(parent.children), child.msg.name))]
      ensures conn.mailbox == AfterRemoval(old(conn.mailbox), parent.msg.name, codec.encode(Unlinked(old(parent.children), child.msg.name)),
                                           child.msg.name, unstored)
      ensures unstored.Some? ==> child.msg.name != parent.msg.name && codec.decode(unstored.value) == []
    {
      assert Filed(conn, codec, child.msg.name, child, openData[child.msg.name], conn.mailbox);
      DetachAndStore(parent, child.msg.name);
      CloseAndRetire(child);
      unstored := if child.msg != parent.msg && old(child.msg.dirty) then Some(child.msg.data) else None;
    }

    /**
     * rmdir: ENOENT when `path` leads nowhere, ENOTEMPTY when the directory
     * has children, ENOENT when the parent leads nowhere; otherwise the
     * parent stops listing it and is stored, then the directory is closed
     * (stored first if it had unstored bytes, `unstored`) and its newest
     * version flagged deleted. fs.py only removes directories.
     */
    method Rmdir(path: string) returns (r: int, ghost unstored: Option<Bytes>)
      requires Valid() && (Lookup(Tree(), path).Some? ==> Lookup(Tree(), path).value.DirView?)
      modifies this`openNodes, this`openData, conn`uidCache, conn`mailbox, conn`log, openNodes.Values, MsgsOf(openNodes)
      ensures Valid() && Change(r, Tree()) == RemovedDir(old(Tree()), path)
      ensures r != 0 ==> conn.mailbox == old(conn.mailbox)
      ensures r == 0 ==> var dir, parent := Resolve(old(Tree()), path).value, Resolve(old(Tree()), PathParent(path)).value;
                         dir !in openNodes &&
                         conn.mailbox == AfterRemoval(old(conn.mailbox), parent, codec.encode(Unlinked(KidsAt(old(Tree()), parent), dir)), dir, unstored) &&
                         (unstored.Some? ==> dir != parent && codec.decode(unstored.value) == [])
    {
      ghost var tree := Tree();
      RemovedDirCases(tree, path);
      unstored := None;
      var child := GetNodeByPath(path);
      if child == null {
        return -ENOENT, None;
      }
      ViewOfOpen(child.msg.name);
      if |child.children| > 0 {
        return -ENOTEMPTY, None;
      }
      var parent := GetNodeByPath(PathParent(path));
      if parent == null {
        return -ENOENT, None;
      }
      ViewOfOpen(parent.msg.name);
      unstored := RemoveDirectoryIn(parent, child);
      r := 0;
    }

    /** node.delete() then the pop from open_nodes: the newest version is flagged deleted and the node leaves the table unstored. */
    method RetireAndDrop(name: string)
      requires Valid() && name in openNodes
      modifies this`openNodes, this`openData, conn`uidCache, conn`mailbox, conn`log
      ensures Valid() && openNodes == old(openNodes) - {name}
      ensures Tree() == WithStored(old(Tree()), name, TreeOf(map[], old(conn.mailbox), codec))
      ensures conn.mailbox == Retired(old(conn.mailbox), Newest(old(conn.mailbox), name))
    {
      ghost var tree0, mb0 := Tree(), conn.mailbox;
      RetireStored(name);
      Drop(name);
      RetiredContents(mb0, Newest(mb0, name), name);
      SameStored(tree0, name, conn.mailbox, mb0, codec);
    }

    /**
     * The second half of unlink: `parent` stops listing `file` and is
     * stored, the file's newest version is flagged deleted, and the file
     * leaves the table without being stored.
     */
    method RemoveFileIn(parent: Node, file: Node)
      requires Valid() && parent.msg.name in openNodes && openNodes[parent.msg.name] == parent && parent.kind == DirKind
      requires file.msg.name in openNodes && openNodes[file.msg.name] == file && file.kind == FileKind
      modifies this`openNodes, this`openData, parent`children, parent.msg`data, parent.msg`dirty
      modifies conn`uidCache, conn`mailbox, conn`log
      ensures Valid() && openNodes == old(openNodes) - {file.msg.name}
      ensures Tree() == WithStored(old(Tree())[parent.msg.name := DirView(Unlinked(old(parent.children), file.msg.name))],
                                   file.msg.name, TreeOf(map[], old(conn.mailbox), codec))
      ensures conn.mailbox == AfterRemoval(old(conn.mailbox), parent.msg.name, codec.encode(Unlinked(old(parent.children), file.msg.name)),
                                           file.msg.name, None)
    {
      ghost var mb0 := conn.mailbox;
      var name := file.msg.name;
      DetachAndStore(parent, name);
      ghost var tree1, mb1 := Tree(), conn.mailbox;
      RetireAndDrop(name);
      AfterFlushContents(mb0, parent.msg.name, parent.msg.data, name);
      SameStored(tree1, name, mb1, mb0, codec);
    }

    /** unlink's two lookups: the file at `path` and its parent, both opened, or null when unlink answers ENOENT. */
    method FileAndParent(path: string) returns (file: Node?, parent: Node?)
      requires Valid()
      requires Lookup(Tree(), path).Some? && Lookup(Tree(), path).value.FileView? && Lookup(Tree(), PathParent(path)).Some? ==>
                 Lookup(Tree(), PathParent(path)).value.DirView?
      modifies this`openNodes, this`openData, conn`uidCache, conn`log
      ensures Valid() && Tree() == old(Tree())
      ensures parent != null ==> (parent in old(openNodes).Values || fresh(parent)) && (parent.msg in old(MsgsOf(openNodes)) || fresh(parent.msg))
      ensures file == null <==> FileRemovalCode(old(Tree()), path) != 0
      ensures file != null ==>
                parent != null &&
                file.msg.name in openNodes && openNodes[file.msg.name] == file && file.kind == FileKind &&
                parent.msg.name in openNodes && openNodes[parent.msg.name] == parent && parent.kind == DirKind &&
                Resolve(old(Tree()), path) == Some(file.msg.name) && Resolve(old(Tree()), PathParent(path)) == Some(parent.msg.name)
    {
      file, parent := null, null;
      ghost var nodes0 := openNodes;
      var node := GetNodeByPath(path);
      if node == null {
        return;
      }
      ViewOfOpen(node.msg.name);
      if node.kind != FileKind {
        return;
      }
      ghost var nodes1 := openNodes;
      var p := GetNodeByPath(PathParent(path));
      if p == null {
        return;
      }
      ViewOfOpen(p.msg.name);
      var key := p.msg.name;
      if key in nodes0 {
        assert nodes1[key] == p && nodes0[key] == p;
        assert p in nodes0.Values;
      } else if key in nodes1 {
        assert nodes1[key] == p;
      }
      file, parent := node, p;
    }

    /**
     * unlink: ENOENT when `path` leads nowhere or to a directory, or its
     * parent leads nowhere; otherwise the parent stops listing the file and
     * is stored, then the file's newest version is flagged deleted and the
     * file is dropped from the table, its unstored bytes discarded. fs.py
     * reaches a file's parent only through a directory.
     */
    method Unlink(path: string) returns (r: int)
      requires Valid()
      requires Lookup(Tree(), path).Some? && Lookup(Tree(), path).value.FileView? && Lookup(Tree(), PathParent(path)).Some? ==>
                 Lookup(Tree(), PathParent(path)).value.DirView?
      modifies this`openNodes, this`openData, conn`uidCache, conn`mailbox, conn`log, openNodes.Values, MsgsOf(openNodes)
      ensures Valid() && r == FileRemovalCode(old(Tree()), path)
      ensures r != 0 ==> Tree() == old(Tree()) && conn.mailbox == old(conn.mailbox)
      ensures r == 0 ==> var file, parent := Resolve(old(Tree()), path).value, Resolve(old(Tree()), PathParent(path)).value;
                         file !in openNodes && Tree() == RemovedFile(old(Tree()), path, TreeOf(map[], old(conn.mailbox), codec)).tree &&
                         conn.mailbox == AfterRemoval(old(conn.mailbox), parent, codec.encode(Unlinked(KidsAt(old(Tree()), parent), file)), file, None)
    {
      ghost var tree, stored := Tree(), TreeOf(map[], conn.mailbox, codec);
      var node, parent := FileAndParent(path);
      if node == null {
        return -ENOENT;
      }
      ViewOfOpen(parent.msg.name);
      RemovedFileCases(tree, path, stored);
      RemoveFileIn(parent, node);
      r := 0;
    }

    /**
     * check_filesystem: true exactly when ROOT opens, is a directory, and
     * its bytes begin with DirMagic.
     */
    method CheckFilesystem() returns (ok: bool)
      requires Valid()
      modifies this`openNodes, this`openData, conn`uidCache, conn`log
      ensures Valid() && Tree() == old(Tree())
      ensures ok <==> Root in old(Tree()) && old(Tree())[Root].DirView? && HasMagic(old(BytesOf(Root)))
    {
      var root := OpenNode(Root);
      if root == null {
        return false;
      }
      ViewOfOpen(Root);
      if root.kind != DirKind {
        return false;
      }
      ok := |root.msg.data| >= 3 && root.msg.data[..3] == DirMagic;
    }

    /**
     * init_filesystem: a new empty directory is stored under ROOT and
     * closed at once, never entering the table; check_filesystem then holds.
     */
    method InitFilesystem()
      requires Valid() && Root !in openNodes
      modifies conn`uidCache, conn`mailbox, conn`log
      ensures Valid() && Tree() == old(Tree())[Root := DirView([])]
      ensures conn.mailbox == AfterFlush(old(conn.mailbox), Root, codec.encode([]))
      ensures HasMagic(BytesOf(Root))
    {
      ghost var mb0 := conn.mailbox;
      var root := Node.CreateDirectory(conn, codec, Root);
      root.msg.Close();
      TreeStore(openData, mb0, codec, Root, codec.encode([]));
      AfterFlushContents(mb0, Root, codec.encode([]), Root);
      forall n | n in openNodes
        ensures Filed(conn, codec, n, openNodes[n], openData[n], conn.mailbox)
      {
        AfterFlushContents(mb0, Root, codec.encode([]), n);
        assert old(Filed(conn, codec, n, openNodes[n], openData[n], mb0));
      }
    }
  }
}
