# imapfs core in Dafny

imapfs is a FUSE file system that keeps every file and directory in an
IMAP mailbox. Each node is one mail message. Its subject is the node's
name, a UUID, with the all-zero UUID reserved for the root directory. Its
body is the node's bytes, which start with a type tag: `f` for a file, or
`d` followed by CR LF and the encoded child table for a directory. A change
is stored by appending a new version of the message and then flagging the
old version `\Deleted`.

This project models three layers of that design and proves properties
about each:

- **The mail store and the client's UID cache** (`imap.dfy`,
  `imapfs/imapconnection.py`). The server is a sequence of messages in
  append order. The UID of the i-th message is the decimal rendering of
  i + 1. Nothing is expunged. UID SEARCH SUBJECT still matches deleted
  messages (section 6.4.4 of RFC 3501), and UID FETCH still returns them.
  SEARCH is modelled as an exact subject match with UIDs in ascending
  order (see "Left out").
  The connection is a class whose cache from subject to UID is a `map`
  field. Its invariant `Valid` says that every cached UID is the newest
  UID for its subject. Each method keeps that invariant, so
  `get_uid_by_subject` gives the same answer with or without the cache.
- **A message as a file-like buffer** (`message.dfy`,
  `imapfs/message.py`). A class holds the bytes, the cursor and the dirty
  flag. `truncate` and `write` are proved against the pure functions
  `Resized` and `Overwritten`; `seek` and `read` state their effect on the
  cursor and the bytes returned directly. `flush` is proved to leave
  the store as `AfterFlush`: the new version is appended, then the old
  newest version is flagged deleted. Lemmas show that afterwards the new
  version is the newest, is live and is what a fetch returns, and that
  at most one version of the name stays live.
- **The file system** (`fs_tree.dfy`, `fs_spec.dfy`, `fs_laws.dfy`,
  `fs.dfy`, `imapfs/fs.py`).
  - `FsTree` defines the abstract tree: a map from node name to a file's
    content or a directory's children. An open node shows its in-memory
    bytes. Any other name shows its newest stored version. `FsTree` also
    defines the path walk of `get_node_by_path`.
  - `FsSpec` states, as functions on that tree, what each FUSE operation
    answers and what tree it leaves.
  - `FsLaws` proves how the operations relate to one another.
  - `Fs` is the stateful part. It holds the table of open nodes
    (`open_nodes`), and its operations are methods on a `FileSystem`
    class. getattr, readdir, truncate, read, write, mkdir, mknod, rmdir
    and unlink are proved against the `FsSpec` function for their
    operation. mkdir, mknod and unlink state exactly what they append to
    or flag in the mailbox; rmdir states it up to the bytes of the
    directory if it was dirty when closed; release states only that the
    node is closed (see "Left out").

The directory encoding (`imapfs/directory.py`) and the file node
(`imapfs/file.py`) are not part of this model. The file system is given
the directory encoding as a pair of functions, and only two facts about
them are assumed (`CodecOk`): decoding undoes encoding, and an encoding
starts with `d` CR LF. A file's content is taken to be its message's
bytes after the tag: its size is one less than the message's length, and
its seek, truncate and write act one byte further on in the message.

Behaviour that follows from the store model and is stated in the
contracts:

- After `rmdir` or `unlink`, the parent no longer lists the node, but the
  node's name still shows its newest stored (now deleted) version, since
  SEARCH still finds it. `rmdir` closes the directory first, so that
  version is the directory as it was. `unlink` drops the file from the
  table without storing it, so the name shows the file's last stored
  version and changes never stored are lost: `RemovedFile` takes the view
  of the store alone as a parameter.
- `mkdir` answers EEXIST when the parent path is missing, where `mknod`
  answers ENOENT. Both are modelled as written: `Made` takes the
  missing-parent code as a parameter.
- Both names are stored (see `Mkdir`/`Mknod`). `mkdir` stores the new
  directory before the parent. `mknod` closes the new file, which stores
  it and drops it from the table, and then stores the parent.

## Model

| member | source | states |
|---|---|---|
| Text.Split | imapfs/fs.py:106 | `str.split` on one separator gives at least one piece, and no piece holds the separator |
| Text.SplitJoin | imapfs/imapconnection.py:111 | splitting a space-joined list of separator-free pieces gives the pieces back |
| Text.JoinSplit | imapfs/fs.py:106 | joining the pieces of a split gives the original string back |
| Text.SplitAppend | imapfs/fs.py:106 | splitting `a + sep + b` is splitting `a` followed by splitting `b` |
| Text.SplitPrefix | imapfs/fs.py:106 | a separator-free prefix extends the first piece of a split |
| Text.SplitNone | imapfs/fs.py:106 | a string without the separator splits into just itself |
| Text.Decimal | imapfs/imapconnection.py:111 | a UID's decimal rendering is non-empty and all digits |
| Text.DecimalInjective | imapfs/imapconnection.py:111 | different numbers have different decimal UIDs |
| Text.LastIndexOf | imapfs/fs.py:131 | the index of the last occurrence of a character, or -1; no later character matches |
| Text.RPartitionSpec | imapfs/fs.py:128-138 | head, separator and tail of `rpartition` rebuild the string; the tail has no separator; with no separator the head is "" and the tail is everything |
| Text.RPartitionHead | imapfs/fs.py:128-132 | `rpartition(sep)[0]` is a prefix of the string, and "" when the separator does not occur |
| Text.RPartitionTail | imapfs/fs.py:134-138 | `rpartition(sep)[2]` is a suffix of the string holding no separator, and the whole string when the separator does not occur |
| Imap.UidOf | imapfs/imapconnection.py:111 | a UID is non-empty and holds no space |
| Imap.Search | imapfs/imapconnection.py:108 | every UID a SEARCH returns is non-empty and space-free |
| Imap.NewestIndex | imapfs/imapconnection.py:128-130 | the position of the newest message with the subject carries that subject |
| Imap.NewestIndexSpec | imapfs/imapconnection.py:128-130 | no later message carries the subject; with None, no message does |
| Imap.Locate | imapfs/imapconnection.py:60 | a located position is in range and carries the asked UID |
| Imap.LocateUid | imapfs/imapconnection.py:60-69 | the UID of position i locates exactly position i |
| Imap.WithoutUid | imapfs/imapconnection.py:99-101 | exactly the entries whose UID differs are kept, with their values |
| Imap.ParseSearch | imapfs/imapconnection.py:109-115 | None exactly when there is no reply line or it is empty; otherwise at least one space-free UID, and the UIDs joined by spaces give the reply line back |
| Imap.ParseSearchReply | imapfs/imapconnection.py:105-115 | the client's parse of the SEARCH reply line is None for no match and otherwise exactly the matching UIDs |
| Imap.NewestIsLastSearched | imapfs/imapconnection.py:124-130 | the newest UID of a subject is the last one SEARCH returns, None when SEARCH returns none |
| Imap.NewestAppend | imapfs/imapconnection.py:83 | an appended message becomes the newest of its subject; other subjects keep their newest UID |
| Imap.NewestStoreDeleted | imapfs/imapconnection.py:96 | flagging a message \Deleted changes no subject's newest UID |
| Imap.FetchNewest | imapfs/message.py:126-132 | the newest UID of a subject can always be fetched, giving that message's body |
| Imap.CachedUidFetches | imapfs/imapconnection.py:60-65 | a UID a valid cache holds can always be fetched, so the purge after a failed FETCH never finds it |
| Imap.AppendKeepsCache | imapfs/imapconnection.py:76-91 | after dropping the appended subject from the cache, every remaining entry is still the newest UID |
| Imap.Connection.constructor | imapfs/imapconnection.py:28-33 | a new connection has an empty cache, which is valid |
| Imap.Connection.PurgeUid | imapfs/imapconnection.py:99-101 | the loop removes exactly the cache entries whose value is the UID |
| Imap.Connection.GetMessage | imapfs/imapconnection.py:53-69 | an empty UID gives None and sends nothing; otherwise one FETCH, whose answer is the body stored under the UID; on a miss every cache entry for that UID is dropped; the cache stays valid |
| Imap.Connection.PutMessage | imapfs/imapconnection.py:71-91 | the message is appended and one APPEND is sent; the subject's cache entry is dropped, then set to the new UID when the server reports APPENDUID; the cache stays valid |
| Imap.Connection.DeleteMessage | imapfs/imapconnection.py:93-103 | the UID's message is flagged \Deleted, one STORE is sent, and every cache entry for it is dropped; the cache stays valid |
| Imap.Connection.SearchBySubject | imapfs/imapconnection.py:105-115 | one SEARCH; None when no message has the subject, otherwise all matching UIDs in ascending order |
| Imap.Connection.GetUidBySubject | imapfs/imapconnection.py:117-130 | the newest UID of the subject, with or without a cache entry; a hit sends nothing, a miss sends one SEARCH and caches the answer |
| Messages.Padding | imapfs/message.py:73 | n copies of the filler byte `.` |
| Messages.Resized | imapfs/message.py:62-75 | exactly `size` bytes: the old bytes up to `size`, then filler |
| Messages.Overwritten | imapfs/message.py:77-86 | `buf` sits at `pos`; the bytes around it are kept; a gap past the old end is filler; the length is the larger of the old end and `pos + |buf|` |
| Messages.ResizedBehind | imapfs/fs.py:254 | resizing the message to n + 1 behind its tag byte resizes the file content to n |
| Messages.OverwrittenBehind | imapfs/fs.py:280-281 | writing at message offset `pos + 1` behind the tag byte writes the file content at `pos` |
| Messages.Retired | imapfs/message.py:103-105 | flagging the old UID keeps the number of messages |
| Messages.FlushCommands | imapfs/message.py:94-105 | a SEARCH comes first exactly when the UID is not cached, the APPEND of the bytes follows, and a STORE of the old UID comes last exactly when there is one |
| Messages.AfterFlush | imapfs/message.py:88-107 | the store gains exactly one message, last, holding the flushed bytes under the name and not deleted |
| Messages.FlushPublishes | imapfs/message.py:88-107 | after a flush the appended version is the newest of the name and is live, and fetching the name's newest UID gives the flushed bytes |
| Messages.FlushKeepsSingleLive | imapfs/message.py:103-105 | if at most the newest version of a name is live before a flush, the same holds after it |
| Messages.Message.constructor | imapfs/message.py:29-35 | a clean message at cursor 0 holding the given bytes |
| Messages.Message.Seek | imapfs/message.py:37-45 | the cursor is set to `off`, moved by `off`, or put `off` bytes before the end |
| Messages.Message.Read | imapfs/message.py:47-60 | with no size, the rest from the cursor; with a size, at most that many bytes from the cursor, and the cursor ends past them, at the end at most |
| Messages.Message.Truncate | imapfs/message.py:62-75 | no size: nothing changes; otherwise the bytes are `Resized`, marked dirty, and a cursor past a cut end moves to it |
| Messages.Message.Write | imapfs/message.py:77-86 | the bytes become `Overwritten(old, pos, buf)`, the cursor advances by `|buf|`, and the message is dirty |
| Messages.Message.Flush | imapfs/message.py:88-107 | clean: nothing is sent; dirty: the store becomes `AfterFlush` (append, then flag the old newest UID), the commands are a SEARCH unless cached, the APPEND and the STORE, and the message is clean |
| Messages.Message.Close | imapfs/message.py:109-112 | the same as Flush |
| Messages.Message.Create | imapfs/message.py:114-118 | a new empty dirty message under the given fresh name |
| Messages.Message.Open | imapfs/message.py:120-136 | null exactly when no version of the name is stored; otherwise a clean message holding the newest version's body |
| Messages.Message.Unlink | imapfs/message.py:138-147 | the name's newest version is flagged \Deleted; nothing changes when there is none |
| FsTree.ChildByName | imapfs/fs.py:117 | found exactly when some child shows that display name, and the result is such a child's name |
| FsTree.ViewOfBytes | imapfs/fs.py:51-59 | a directory exactly when the first byte is `d`, holding the decoded children; otherwise a file whose content is the bytes after the tag |
| FsTree.Linked | imapfs/fs.py:185 | the new entry is present, other children are kept, nothing else is added, and a list that grows gains the entry at its end |
| FsTree.Unlinked | imapfs/fs.py:202 | exactly the entries for other names are kept, and the list does not grow |
| FsTree.Walk | imapfs/fs.py:106-126 | a walk only ends at a node of the tree |
| FsTree.Resolve | imapfs/fs.py:97-126 | a path only resolves to a node of the tree |
| FsTree.PathParent | imapfs/fs.py:128-132 | the parent path is a prefix of the path, and "" when the path has no slash |
| FsTree.PathFilename | imapfs/fs.py:134-138 | the file name holds no slash, and is the whole path when the path has none |
| FsTree.Lookup | imapfs/fs.py:97-126 | a path finds a node exactly when it resolves, and the node is what the tree shows for the resolved name |
| FsTree.PathSplit | imapfs/fs.py:128-138 | parent + "/" + file name rebuilds a path that has a slash; the file name holds no slash |
| FsTree.WalkSkipsEmpty | imapfs/fs.py:109-110 | an empty segment, as from a doubled slash, does not change where a walk ends |
| FsTree.WalkStopsAtFile | imapfs/fs.py:112-114 | a walk standing on a file ends there, whatever parts remain |
| FsTree.WalkAppend | imapfs/fs.py:108-125 | walking `p + q` is walking `p`, then `q` from where `p` ended |
| FsTree.ResolveIsWalk | imapfs/fs.py:101-107 | the "/" shortcut agrees with walking the split parts from the root |
| FsTree.ResolveParent | imapfs/fs.py:97-138 | a path leads where its file name leads from the node its parent path leads to |
| FsTree.ChildByNamePrefix | imapfs/fs.py:117 | children appended after a match do not change which child a display name finds |
| FsTree.WalkGrows | imapfs/fs.py:97-126 | a walk that succeeds ends at the same node in any tree that keeps files and extends child lists |
| FsTree.ResolveGrows | imapfs/fs.py:97-126 | a path that resolves keeps resolving to the same node in any such tree |
| FsTree.SubjectsNewest | imapfs/fs.py:44-49 | a name is stored exactly when it has a newest version |
| FsTree.AfterFlushContents | imapfs/message.py:88-107 | a flush makes the name's newest body the flushed bytes, changes no other name's body, and keeps every body tagged |
| FsTree.RetiredContents | imapfs/message.py:104-105 | flagging a version deleted changes no name's newest body and no tag |
| FsTree.TreeUpdate | imapfs/fs.py:185 | changing an open node's bytes changes that name's view and no other |
| FsTree.TreeStore | imapfs/fs.py:95 | storing a name that is not open shows the stored bytes under it and changes no other view |
| FsTree.TreeFlush | imapfs/fs.py:187-188 | flushing an open node leaves every view as it was |
| FsTree.TreeRetired | imapfs/message.py:138-147 | flagging a version deleted leaves every view as it was |
| FsTree.TreeOpen | imapfs/fs.py:44-61 | opening a stored name with its newest body leaves every view as it was |
| FsTree.TreeClose | imapfs/fs.py:64-70 | dropping an open node whose bytes are stored leaves every view as it was |
| FsTree.TreeDrop | imapfs/fs.py:244 | dropping an open node changes no other name's view |
| FsTree.ClosedShowsStored | imapfs/fs.py:44-49 | a name that is not open shows what the store alone shows for it, in any store with the same newest body for it |
| FsSpec.Slice | imapfs/message.py:55-60 | at most `size` bytes, a run of the content from `offset`; short only at the end; empty past the end |
| FsSpec.Attr | imapfs/fs.py:150-159 | a directory is S_IFDIR 0777, 2 links, size 4096; a file is S_IFREG 0666, 1 link, its content's size |
| FsSpec.Displays | imapfs/fs.py:171-172 | the children's display names, one for each child, in order |
| FsSpec.AttrOf | imapfs/fs.py:144-161 | getattr fails exactly when the path does not resolve, and then with ENOENT |
| FsSpec.Listing | imapfs/fs.py:163-172 | a path that does not resolve lists nothing; a non-empty listing starts with "." and ".." |
| FsSpec.Truncated | imapfs/fs.py:246-255 | truncate answers 0, ENOENT or EISDIR; on an error the tree is unchanged; no name appears or disappears |
| FsSpec.ReadOf | imapfs/fs.py:257-269 | read gives at most `size` bytes; it fails, with ENOENT or EISDIR, exactly when the path leads nowhere or to a directory |
| FsSpec.Written | imapfs/fs.py:271-285 | write answers |buf|, ENOENT or EISDIR; on an error the tree is unchanged; no name appears or disappears |
| FsSpec.Made | imapfs/fs.py:174-188 | mkdir/mknod answers 0, EEXIST or the missing-parent code; unless it answers 0 the tree is unchanged; a changed tree gains exactly the new name |
| FsSpec.RemovedDir | imapfs/fs.py:190-205 | rmdir answers 0, ENOENT or ENOTEMPTY; on an error the tree is unchanged; no name appears or disappears |
| FsSpec.FileRemovalCode | imapfs/fs.py:233-239 | unlink answers 0 exactly when the path leads to a file and its parent path leads somewhere, and ENOENT otherwise |
| FsSpec.WithStored | imapfs/fs.py:243-244 | the name shows exactly what the store alone shows for it, and is absent when nothing is stored; no other name changes |
| FsSpec.WithStoredUnique | imapfs/fs.py:243-244 | a tree that agrees with another away from a name, and with the store at that name, is `WithStored` |
| FsSpec.RemovedFile | imapfs/fs.py:232-244 | unlink answers `FileRemovalCode`; on an error the tree is unchanged; on success the file's name shows exactly what the store alone shows for it |
| FsSpec.AttrOfResolved | imapfs/fs.py:144-161 | getattr is ENOENT exactly when the path does not resolve, otherwise the resolved node's attributes |
| FsSpec.ListingResolved | imapfs/fs.py:163-172 | readdir lists ".", ".." and the display names for a directory, and nothing for a file or a missing path |
| FsSpec.TruncatedCases | imapfs/fs.py:246-255 | truncate is ENOENT for a missing path and EISDIR for a directory; otherwise the file's content is resized |
| FsSpec.ReadOfCases | imapfs/fs.py:257-269 | read is ENOENT for a missing path and EISDIR for a directory; otherwise the slice of the file's content |
| FsSpec.WrittenCases | imapfs/fs.py:271-285 | write is ENOENT for a missing path and EISDIR for a directory; otherwise it answers |buf| and the content is overwritten |
| FsSpec.MissingUnderDirectory | imapfs/fs.py:112-114 | when a path leads nowhere but its parent does, the parent is a directory |
| FsSpec.MadeCases | imapfs/fs.py:174-188 | mkdir/mknod is EEXIST for an existing path and the missing-parent code for a missing parent; otherwise the new node appears and is linked into the parent |
| FsSpec.ParentOfResolved | imapfs/fs.py:112-114 | when a path and its parent both resolve and the parent is a file, both name that file |
| FsSpec.RemovedDirCases | imapfs/fs.py:190-205 | rmdir is ENOENT for a missing path or parent and ENOTEMPTY for a directory with children; otherwise the parent stops listing it |
| FsSpec.RemovedFileCases | imapfs/fs.py:232-244 | unlink is ENOENT for a missing path, a directory or a missing parent; otherwise the parent stops listing the file and the file's name shows its stored view |
| FsLaws.LinkedAppends | imapfs/fs.py:185 | a name no child carries is added at the end of the list |
| FsLaws.LinkedReplaces | imapfs/fs.py:185 | a name some child already carries keeps its place, and its first entry takes the new display name |
| FsLaws.UnlinkedAbsent | imapfs/fs.py:202 | removing a name no child carries changes nothing |
| FsLaws.UnlinkedAppend | imapfs/fs.py:202 | removal works entry by entry over a concatenation, so the children that stay keep their order |
| FsLaws.FileEditGrows | imapfs/fs.py:246-285 | changing one file's content keeps every node as a walk sees it |
| FsLaws.TruncateThenAttr | imapfs/fs.py:246-255 | after a successful truncate to `size`, getattr on the path reports a regular file of exactly `size` bytes, and every other path resolves as before |
| FsLaws.WriteThenRead | imapfs/fs.py:271-285 | write on a file accepts all of `buf`; reading |buf| bytes at the same offset afterwards gives `buf` back; every other path resolves as before |
| FsLaws.ChildByNameLast | imapfs/fs.py:185 | a display name no child shows finds the entry appended for it |
| FsLaws.ListedChildReached | imapfs/fs.py:116-125 | in a well-linked tree a directory's listed child is reached by walking its display name |
| FsLaws.LinkGrows | imapfs/fs.py:183-185 | adding a fresh child to a directory keeps the tree growing and well linked |
| FsLaws.MadeShape | imapfs/fs.py:174-188 | a successful mkdir/mknod had a missing path, a parent directory not listing the display name, and a non-empty display name; the child is appended |
| FsLaws.NewChildResolves | imapfs/fs.py:116-125 | a path whose parent leads to a directory listing the path's file name leads to that child |
| FsLaws.ListingGrows | imapfs/fs.py:163-172 | a directory that gains a last entry lists that entry's display name last |
| FsLaws.MadeResolves | imapfs/fs.py:174-188 | after a successful mkdir/mknod the path leads to the new node, readdir of the parent gains the new name last, every path that resolved still resolves the same, and the tree stays well linked |
| Fs.DropShowsStored | imapfs/fs.py:244 | taking a name out of the table makes it show what the store alone shows for it, and changes no other name |
| Fs.SameStored | imapfs/fs.py:243 | stores with the same newest body for a name show that name alike, so flagging a version deleted does not change it |
| Fs.Node.FromMessage | imapfs/fs.py:51-59 | the tag byte decides the node kind, and the node is well formed |
| Fs.Node.CreateDirectory | imapfs/fs.py:183 | a new dirty directory with no children whose bytes are the encoding of none |
| Fs.Node.CreateFile | imapfs/fs.py:216 | a new dirty empty file whose bytes are just the tag |
| Fs.Node.Size | imapfs/fs.py:159 | a file's size is the length of the content its bytes describe |
| Fs.Node.Attributes | imapfs/fs.py:150-159 | the attributes of what the node's bytes describe |
| Fs.Node.List | imapfs/fs.py:168-172 | the loop yields ".", ".." and every child's display name in order |
| Fs.Node.AddChild | imapfs/fs.py:185 | the children become `Linked`, re-encoded into the dirty message |
| Fs.Node.RemoveChild | imapfs/fs.py:202 | the children become `Unlinked`, re-encoded into the dirty message |
| Fs.FileSystem.constructor | imapfs/fs.py:31-34 | an empty node table over a valid connection |
| Fs.FileSystem.OpenNode | imapfs/fs.py:36-62 | a hit returns the open node and sends nothing; a miss opens the newest stored version; null exactly when the tree has no such name; the tree is unchanged |
| Fs.FileSystem.OpenStored | imapfs/fs.py:44-61 | the newest stored version, opened and entered in the table, or null when none is stored |
| Fs.FileSystem.Install | imapfs/fs.py:61 | entering a node in the table shows its bytes under its name |
| Fs.FileSystem.FlushOpen | imapfs/fs.py:255 | a dirty open node is stored by `AfterFlush`, a clean one sends nothing; the tree is unchanged |
| Fs.FileSystem.Evict | imapfs/fs.py:69-70 | dropping a clean node from the table leaves the tree unchanged |
| Fs.FileSystem.Drop | imapfs/fs.py:244 | dropping any node from the table makes its name show its newest stored version, or vanish when none is stored, and changes no other name's view |
| Fs.FileSystem.CloseNode | imapfs/fs.py:64-70 | the node is flushed and leaves the table; the tree is unchanged |
| Fs.FileSystem.ViewOfOpen | imapfs/fs.py:51-61 | an open node's view is a directory exactly when it is a directory node, with its children; a file's content is its bytes after the tag |
| Fs.FileSystem.Descend | imapfs/fs.py:116-125 | one step of the walk: a missing or unopenable child ends it, otherwise it continues from the child |
| Fs.FileSystem.GetNodeByPath | imapfs/fs.py:97-126 | the node reached is the one the path resolves to, and null when it resolves to none; it is left open |
| Fs.FileSystem.WalkParts | imapfs/fs.py:106-126 | the loop over the parts ends at the node the walk from the root names |
| Fs.FileSystem.LinkChild | imapfs/fs.py:185 | the open directory's view gains the child |
| Fs.FileSystem.UnlinkChild | imapfs/fs.py:202 | the open directory's view loses the child |
| Fs.FileSystem.WriteAt | imapfs/fs.py:280-281 | the file's view becomes its content overwritten at `offset` |
| Fs.FileSystem.TruncateAt | imapfs/fs.py:254 | the file's view becomes its content resized |
| Fs.FileSystem.TruncateFile | imapfs/fs.py:254-255 | the file is resized and stored |
| Fs.FileSystem.ReadAt | imapfs/fs.py:264-265 | the bytes read are the slice of the file's content |
| Fs.FileSystem.GetAttr | imapfs/fs.py:144-161 | the answer is `AttrOf` of the tree; the tree is unchanged |
| Fs.FileSystem.ReadDir | imapfs/fs.py:163-172 | the entries are `Listing` of the tree; the tree is unchanged |
| Fs.FileSystem.Release | imapfs/fs.py:287-292 | ENOENT for a missing path; otherwise 0 and the node is closed and out of the table; the tree is unchanged |
| Fs.FileSystem.Truncate | imapfs/fs.py:246-255 | answer and new tree are `Truncated`; on success the file's new bytes are stored at once |
| Fs.FileSystem.Read | imapfs/fs.py:257-269 | the answer is `ReadOf`; the tree is unchanged |
| Fs.FileSystem.Write | imapfs/fs.py:271-285 | answer and new tree are `Written`; nothing is stored |
| Fs.FileSystem.Adopt | imapfs/fs.py:184-185 | a new node enters the table and its parent lists it; the tree shows both |
| Fs.FileSystem.FlushBoth | imapfs/fs.py:187-188 | two dirty nodes are stored in order; the tree is unchanged |
| Fs.FileSystem.NewDirectory | imapfs/fs.py:183-185 | a new empty directory is entered and linked into the parent; nothing is stored |
| Fs.FileSystem.NewFile | imapfs/fs.py:216-218 | a new empty file is entered and linked into the parent; nothing is stored |
| Fs.FileSystem.MakeDirectoryIn | imapfs/fs.py:183-188 | the new directory is stored, then the parent |
| Fs.FileSystem.CreateAndClose | imapfs/fs.py:216-220 | a new empty file is entered, linked into the parent and closed, so stored once and out of the table; the parent is left dirty with its new listing |
| Fs.FileSystem.MakeFileIn | imapfs/fs.py:216-221 | the new file is stored and closed, then the parent is stored |
| Fs.FileSystem.AbsentNotOpen | imapfs/fs.py:41-42 | a name the tree does not show is not open |
| Fs.FileSystem.Mkdir | imapfs/fs.py:174-188 | answer and new tree are `Made` with EEXIST for a missing parent; on success the new directory is stored, then the parent with its new listing, and the new directory stays open; on failure nothing is stored |
| Fs.FileSystem.Mknod | imapfs/fs.py:207-221 | answer and new tree are `Made` with ENOENT for a missing parent; on success the new file is stored and closed, then the parent; on failure nothing is stored |
| Fs.FileSystem.RetireStored | imapfs/fs.py:205 | the name's newest version is flagged deleted; the tree is unchanged |
| Fs.FileSystem.DetachAndStore | imapfs/fs.py:202-203 | the parent stops listing the name and is stored |
| Fs.FileSystem.CloseAndRetire | imapfs/fs.py:204-205 | the node is closed (stored if dirty), then its newest version is flagged deleted |
| Fs.FileSystem.RemoveDirectoryIn | imapfs/fs.py:202-205 | the parent stops listing the directory and is stored; the directory is closed and its newest version flagged deleted |
| Fs.FileSystem.Rmdir | imapfs/fs.py:190-205 | answer and new tree are `RemovedDir`; on success the mailbox is `AfterRemoval` (new parent listing stored, directory closed, newest version flagged deleted); on failure nothing is stored |
| Fs.FileSystem.RetireAndDrop | imapfs/fs.py:243-244 | the name's newest version is flagged deleted and the node leaves the table unstored; the name then shows what the store showed for it before |
| Fs.FileSystem.RemoveFileIn | imapfs/fs.py:241-244 | the parent stops listing the file and is stored; the file's newest version is flagged deleted and the file leaves the table unstored, so its name shows its stored version |
| Fs.FileSystem.FileAndParent | imapfs/fs.py:233-239 | unlink's two lookups: null exactly when unlink answers ENOENT, otherwise the open file and parent directory that the path and its parent path resolve to; the tree is unchanged |
| Fs.FileSystem.Unlink | imapfs/fs.py:232-244 | the answer is `FileRemovalCode`; on success the new tree is `RemovedFile`'s (the parent stops listing the file, whose name shows its newest stored version) and the mailbox is `AfterRemoval` with nothing unstored; on failure nothing changes |
| Fs.FileSystem.CheckFilesystem | imapfs/fs.py:72-88 | true exactly when ROOT is a directory whose bytes begin with `d` CR LF; the tree is unchanged |
| Fs.FileSystem.InitFilesystem | imapfs/fs.py:90-95 | an empty directory is stored under ROOT; the tree shows it, and the root bytes pass the check_filesystem test |

## Left out

- FUSE plumbing, `fuse.Stat` and `fuse.Direntry` objects: answers are values (`Outcome`, a list of names, an int code with errno negated).
- Base64 and MIME encoding of bodies, message flags, the append date, logging and the `compress` attribute: the store holds bodies as bytes.
- The APPENDUID regular expression: whether the server reports the new UID is the connection's `uidplus` flag.
- `uuid.uuid4()` in `Message.create`: the fresh name is a parameter of `Mkdir`/`Mknod`, which require it to be a name the tree does not show.
- login, logout, select and expunge: no connection set-up is modelled; nothing is ever expunged.
- `utime` (`imapfs/fs.py:223-230`): it sets `mtime` on a node, a field of `imapfs/file.py`, which is not part of this model.
- `imapfs/file.py` and `imapfs/directory.py` are not part of this model: the directory encoding is abstract (`DirCodec`), and a file is its tag byte followed by its content; `node.delete()` in unlink is taken to be `Message.unlink` of the file's name.
- Messages with an empty body, or whose first byte is neither `f` nor `d`, make `open_node` fail with an exception; the model assumes the store holds only tagged bodies (`WellTagged`).
- `generator` behaviour of readdir: the full list is returned at once, and `offset` is ignored, as fs.py ignores it.
- Messages.Message.Read: requires a non-negative cursor; Python slicing from a negative cursor (reachable only through `seek` with SEEK_CUR or SEEK_END) counts from the end, which is not modelled.
- Messages.Message.Write: requires a non-negative cursor, for the same reason.
- Fs.FileSystem.Rmdir: requires the path, when it resolves, to be a directory (a file has no `children` to count); its mailbox is stated up to the ghost `unstored`, the bytes of the directory if it was dirty when closed.
- Fs.FileSystem.Unlink: requires a resolved file's parent path to lead to a directory (a file has no `remove_child`).
- Fs.FileSystem.InitFilesystem: requires ROOT not to be open, since init_filesystem stores a new root without updating the node table.
- Fs.FileSystem.Release: does not state what is stored, only that the node is closed; the store changes only by the flush of `Messages.Message.Close`.
- Fs.FileSystem.CloseNode: requires the node to be the one open under its name, which is how every caller in fs.py uses it.
- No lemma shows that a removed path stops resolving: that needs the directory graph to be acyclic with one parent per node, which nothing in fs.py maintains.
- Imap.Search: models UID SEARCH SUBJECT as an exact subject match with the UIDs in ascending order, where section 6.4.4 of RFC 3501 specifies a case-insensitive substring match and no order; fs.py only searches for names it made, lowercase UUIDs of one fixed length, and no such name is a substring of another, so the two agree on every name fs.py asks for, given a server that returns UIDs in ascending order.
- Fs.FileSystem.CheckFilesystem: compares the root's first three bytes with `d` CR LF, the evident intent of `str(root.message.data[0:3])` (`imapfs/fs.py:84`); under Python 3, which `imapfs/imapconnection.py` is written for, `str` of a bytearray is its repr, so the check as written is always false.
- Fs.FileSystem.Read: returns the bytes read; `imapfs/fs.py:265` passes them through `str(...)`, which under Python 3 gives the repr text `bytearray(b'...')` instead of the bytes.
- Imap.Connection.GetMessage: on a failed FETCH the model drops every cache entry for the UID by looping over a copy of the keys; `imapfs/imapconnection.py:63-65` pops from `uid_cache` while iterating over `uid_cache.items()`, which under Python 3 raises RuntimeError after the first pop (`delete_message` at line 99 iterates over a list copy). The two agree because under `Valid`, with nothing expunged, a FETCH of a cached UID never fails, so the loop never pops (`Imap.CachedUidFetches`).
- Concurrency: FUSE may call operations concurrently; the model runs them one at a time.
