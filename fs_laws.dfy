/**
 * What the operations of fs.py promise about each other, stated on the
 * specification functions the FileSystem methods are proved against:
 * a truncate shows in getattr, a write reads back, and mkdir/mknod make
 * the new path resolve while every old path keeps resolving.
 */
module FsLaws {
  import opened Wrappers
  import opened Text
  import opened Messages
  import opened FsTree
  import opened FsSpec

  /** A name no child carries is added at the end of a listing. */
  lemma {:induction false} LinkedAppends(children: Children, name: string, display: string)
    requires forall k :: 0 <= k < |children| ==> children[k].0 != name
    ensures Linked(children, name, display) == children + [(name, display)]
  {
    if children != [] {
      LinkedAppends(children[1..], name, display);
      assert [children[0]] + (children[1..] + [(name, display)]) == children + [(name, display)];
    }
  }

  /** A name some child already carries keeps its place: its first entry takes the new display name. */
  lemma {:induction false} LinkedReplaces(children: Children, name: string, display: string, k: nat)
    requires k < |children| && children[k].0 == name
    requires forall j :: 0 <= j < k ==> children[j].0 != name
    ensures Linked(children, name, display) == children[k := (name, display)]
  {
    if k > 0 {
      LinkedReplaces(children[1..], name, display, k - 1);
      assert [children[0]] + children[1..][k - 1 := (name, display)] == children[k := (name, display)];
    }
  }

  /** Removing a name no child carries leaves the children as they are. */
  lemma {:induction false} UnlinkedAbsent(children: Children, name: string)
    requires forall k :: 0 <= k < |children| ==> children[k].0 != name
    ensures Unlinked(children, name) == children
  {
    if children != [] {
      UnlinkedAbsent(children[1..], name);
      assert [children[0]] + children[1..] == children;
    }
  }

  /** Removal works entry by entry, so the children that stay keep their order. */
  lemma {:induction false} UnlinkedAppend(a: Children, b: Children, name: string)
    ensures Unlinked(a + b, name) == Unlinked(a, name) + Unlinked(b, name)
  {
    if a == [] {
      assert a + b == b;
    } else {
      assert (a + b)[0] == a[0] && (a + b)[1..] == a[1..] + b;
      UnlinkedAppend(a[1..], b, name);
    }
  }

  /** Changing one file's bytes keeps every node as a walk sees it. */
  lemma FileEditGrows(tree: map<string, NodeView>, file: string, content: Bytes)
    requires file in tree && tree[file].FileView?
    ensures Grows(tree, tree[file := FileView(content)])
  {
    var tree2 := tree[file := FileView(content)];
    forall n | n in tree ensures n in tree2 && Keeps(tree[n], tree2[n]) {
      if n != file && tree[n].DirView? {
        assert tree2[n].children[..|tree[n].children|] == tree[n].children;
      }
    }
  }

  /**
   * After a successful truncate(path, size), getattr on the same path
   * reports a file of exactly `size` bytes, and every path that resolved
   * before resolves to the same node.
   */
  lemma TruncateThenAttr(tree: map<string, NodeView>, path: string, size: nat, other: string)
    requires Truncated(tree, path, size).code == 0
    ensures AttrOf(Truncated(tree, path, size).tree, path) == Done(Stat(FileMode, 1, size))
    ensures Resolve(tree, other).Some? ==> Resolve(Truncated(tree, path, size).tree, other) == Resolve(tree, other)
  {
    TruncatedCases(tree, path, size);
    var n := Resolve(tree, path).value;
    var tree2 := tree[n := FileView(Resized(tree[n].content, size))];
    FileEditGrows(tree, n, Resized(tree[n].content, size));
    ResolveGrows(tree, tree2, path);
    ResolveGrows(tree, tree2, other);
    AttrOfResolved(tree2, path);
  }

  /**
   * write(path, buf, offset) on a file accepts all of `buf`, and reading
   * |buf| bytes at `offset` afterwards gives `buf` back; every path that
   * resolved before resolves to the same node.
   */
  lemma WriteThenRead(tree: map<string, NodeView>, path: string, buf: Bytes, offset: nat, other: string)
    requires Lookup(tree, path).Some? && Lookup(tree, path).value.FileView?
    ensures Written(tree, path, buf, offset).code == |buf|
    ensures ReadOf(Written(tree, path, buf, offset).tree, path, |buf|, offset) == Done(buf)
    ensures Resolve(tree, other).Some? ==> Resolve(Written(tree, path, buf, offset).tree, other) == Resolve(tree, other)
  {
    WrittenCases(tree, path, buf, offset);
    var n := Resolve(tree, path).value;
    var content := Overwritten(tree[n].content, offset, buf);
    var tree2 := tree[n := FileView(content)];
    FileEditGrows(tree, n, content);
    ResolveGrows(tree, tree2, path);
    ResolveGrows(tree, tree2, other);
    ReadOfCases(tree2, path, |buf|, offset);
    assert Slice(content, offset, |buf|) == content[offset..offset + |buf|];
  }

  /** A display name no child carries finds the entry added for it at the end. */
  lemma {:induction false} ChildByNameLast(children: Children, name: string, display: string)
    requires ChildByName(children, display).None?
    ensures ChildByName(children + [(name, display)], display) == Some(name)
  {
    if children != [] {
      ChildByNameLast(children[1..], name, display);
      assert (children + [(name, display)])[1..] == children[1..] + [(name, display)];
    }
  }

  /** In a well-linked tree, a directory reaches every child it lists under a non-empty display name. */
  lemma ListedChildReached(tree: map<string, NodeView>, dir: string, display: string)
    requires WellLinked(tree) && dir in tree && tree[dir].DirView? && display != ""
    requires ChildByName(tree[dir].children, display).Some?
    ensures Walk(tree, dir, [display]).Some?
  {
    var children := tree[dir].children;
    var k :| 0 <= k < |children| && children[k] == (ChildByName(children, display).value, display);
    assert children[k].0 in tree;
    assert [display][1..] == [];
  }

  /** A parent gaining a fresh child at the end, and the fresh node itself, keep the tree growing and well linked. */
  lemma LinkGrows(tree: map<string, NodeView>, p: string, name: string, display: string, node: NodeView)
    requires WellLinked(tree) && p in tree && tree[p].DirView? && name !in tree && name != "" && Kids(node) == []
    ensures var tree2 := tree[name := node][p := DirView(tree[p].children + [(name, display)])];
            Grows(tree, tree2) && WellLinked(tree2)
  {
    var children := tree[p].children;
    var tree2 := tree[name := node][p := DirView(children + [(name, display)])];
    forall n | n in tree ensures n in tree2 && Keeps(tree[n], tree2[n]) {
      if tree[n].DirView? {
        assert tree2[n].children[..|tree[n].children|] == tree[n].children;
      }
    }
    forall n, k | n in tree2 && tree2[n].DirView? && 0 <= k < |tree2[n].children|
      ensures tree2[n].children[k].0 != "" && tree2[n].children[k].0 in tree2
    {
      if n == p && k < |children| {
        assert tree2[n].children[k] == children[k];
      } else if n != p && n != name {
        assert tree2[n] == tree[n];
      }
    }
  }

  /**
   * The shape of a successful mkdir or mknod in a well-linked tree: the
   * parent p is a directory that lists nothing under the new, non-empty
   * display name, and the new entry is added after its children.
   */
  lemma MadeShape(tree: map<string, NodeView>, path: string, name: string, node: NodeView, missingParent: int)
    requires WellLinked(tree) && name !in tree
    requires missingParent != 0 && Made(tree, path, name, node, missingParent).code == 0
    ensures Resolve(tree, path).None? && Resolve(tree, PathParent(path)).Some?
    ensures var p, display := Resolve(tree, PathParent(path)).value, PathFilename(path);
            p in tree && tree[p].DirView? && display != "" && ChildByName(tree[p].children, display).None? &&
            Made(tree, path, name, node, missingParent).tree == tree[name := node][p := DirView(tree[p].children + [(name, display)])]
  {
    MadeCases(tree, path, name, node, missingParent);
    var p := Resolve(tree, PathParent(path)).value;
    var children, display := tree[p].children, PathFilename(path);
    forall k | 0 <= k < |children| ensures children[k].0 != name {
      assert children[k].0 in tree;
    }
    LinkedAppends(children, name, display);
    ResolveParent(tree, path);
    assert Walk(tree, p, [""]) == Some(p) by {
      assert [""][1..] == [];
    }
    if ChildByName(children, display).Some? && display != "" {
      ListedChildReached(tree, p, display);
    }
  }

  /** A path whose parent leads to p, where p now lists `name` under the path's last part, leads to `name`. */
  lemma NewChildResolves(tree2: map<string, NodeView>, path: string, p: string, name: string)
    requires Resolve(tree2, PathParent(path)) == Some(p) && p in tree2 && tree2[p].DirView? && name in tree2
    requires ChildByName(tree2[p].children, PathFilename(path)) == Some(name) && name != ""
    requires PathFilename(path) != ""
    ensures Resolve(tree2, path) == Some(name)
  {
    ResolveParent(tree2, path);
    assert [PathFilename(path)][1..] == [];
  }

  /** When a path leads to the same directory before and after it gains a last entry, readdir shows that entry's display name last. */
  lemma ListingGrows(tree: map<string, NodeView>, tree2: map<string, NodeView>, path: string, p: string, entry: (string, string))
    requires Resolve(tree, path) == Some(p) && Resolve(tree2, path) == Some(p)
    requires p in tree && tree[p].DirView? && p in tree2 && tree2[p] == DirView(tree[p].children + [entry])
    ensures Listing(tree2, path) == Listing(tree, path) + [entry.1]
  {
    var children := tree[p].children;
    ListingResolved(tree, path);
    ListingResolved(tree2, path);
    assert (children + [entry])[..|children|] == children;
    assert Displays(children + [entry]) == Displays(children) + [entry.1];
  }

  /**
   * A successful mkdir or mknod, in a tree where every listed child exists,
   * under a fresh non-empty name: the new path leads to the new node, which
   * shows as given; the parent lists the new display name last; every path
   * that resolved before resolves to the same node; and every listed child
   * still exists.
   */
  lemma MadeResolves(tree: map<string, NodeView>, path: string, name: string, node: NodeView, missingParent: int, other: string)
    requires WellLinked(tree) && name !in tree && name != "" && Kids(node) == []
    requires missingParent != 0 && Made(tree, path, name, node, missingParent).code == 0
    ensures var tree2 := Made(tree, path, name, node, missingParent).tree;
            Resolve(tree2, path) == Some(name) && name in tree2 && tree2[name] == node &&
            Listing(tree2, PathParent(path)) == Listing(tree, PathParent(path)) + [PathFilename(path)] &&
            WellLinked(tree2) &&
            (Resolve(tree, other).Some? ==> Resolve(tree2, other) == Resolve(tree, other))
  {
    MadeShape(tree, path, name, node, missingParent);
    var p, display := Resolve(tree, PathParent(path)).value, PathFilename(path);
    var children := tree[p].children;
    var tree2 := tree[name := node][p := DirView(children + [(name, display)])];
    LinkGrows(tree, p, name, display, node);
    ResolveGrows(tree, tree2, PathParent(path));
    ResolveGrows(tree, tree2, other);
    ChildByNameLast(children, name, display);
    NewChildResolves(tree2, path, p, name);
    ListingGrows(tree, tree2, PathParent(path), p, (name, display));
  }
}
