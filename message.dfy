/**
 * A message held in memory as a file-like byte buffer (imapfs/message.py):
 * the bytes, a cursor and a dirty flag, written back to the store by
 * appending a new version and then flagging the previous one \Deleted.
 */
module Messages {
  import opened Wrappers
  import opened Text
  import opened Imap

  /** The filler byte that pads a buffer grown by truncate: '.' (0x2E). */
  const Filler: Byte := 0x2E

  /** The `whence` argument of seek: os.SEEK_SET, os.SEEK_CUR, os.SEEK_END. */
  datatype Whence = SeekSet | SeekCur | SeekEnd

  function Padding(n: nat): (r: Bytes)
    ensures |r| == n
    ensures forall i :: 0 <= i < n ==> r[i] == Filler
  {
    seq(n, _ => Filler)
  }

  /** The bytes after truncate(size): cut to `size`, or padded up to `size` with the filler. */
  function Resized(data: Bytes, size: nat): (r: Bytes)
    ensures |r| == size
    ensures forall i :: 0 <= i < size && i < |data| ==> r[i] == data[i]
    ensures forall i :: |data| <= i < size ==> r[i] == Filler
  {
    if |data| > size then data[..size] else data + Padding(size - |data|)
  }

  /** The bytes after write(buf) with the cursor at `pos`. */
  function Overwritten(data: Bytes, pos: nat, buf: Bytes): (r: Bytes)
    ensures |r| == if pos + |buf| > |data| then pos + |buf| else |data|
    ensures r[pos..pos + |buf|] == buf
    ensures forall i :: 0 <= i < pos && i < |data| ==> r[i] == data[i]
    ensures forall i :: pos + |buf| <= i < |data| ==> r[i] == data[i]
    ensures forall i :: |data| <= i < pos ==> r[i] == Filler
  {
    var grown := if pos + |buf| > |data| then Resized(data, pos + |buf|) else data;
    grown[..pos] + buf + grown[pos + |buf|..]
  }

  /** Resizing behind a fixed first byte resizes what follows it. */
  lemma ResizedBehind(t: Byte, data: Bytes, size: nat)
    ensures Resized([t] + data, size + 1) == [t] + Resized(data, size)
  {
    var a, b := Resized([t] + data, size + 1), [t] + Resized(data, size);
    assert |a| == |b|;
    forall i | 0 <= i < |a| ensures a[i] == b[i] {
      if i > 0 {
        assert b[i] == Resized(data, size)[i - 1];
      }
    }
  }

  /** Writing behind a fixed first byte writes into what follows it. */
  lemma OverwrittenBehind(t: Byte, data: Bytes, pos: nat, buf: Bytes)
    ensures Overwritten([t] + data, pos + 1, buf) == [t] + Overwritten(data, pos, buf)
  {
    var a, b := Overwritten([t] + data, pos + 1, buf), [t] + Overwritten(data, pos, buf);
    var w := Overwritten(data, pos, buf);
    assert |a| == |b|;
    forall i | 0 <= i < |a| ensures a[i] == b[i] {
      if i == 0 {
      } else if i < pos + 1 {
        assert b[i] == w[i - 1];
      } else if i < pos + 1 + |buf| {
        assert a[i] == a[pos + 1..pos + 1 + |buf|][i - pos - 1];
        assert w[i - 1] == w[pos..pos + |buf|][i - 1 - pos];
      } else {
        assert b[i] == w[i - 1];
      }
    }
  }

  /** The store after a flush of `name`: the new version appended, then the old UID (if any) flagged. */
  function Retired(mb: Mailbox, oldUid: Option<string>): (r: Mailbox)
    ensures |r| == |mb|
  {
    if oldUid.Some? && oldUid.value != "" then StoreDeleted(mb, oldUid.value) else mb
  }

  /** The commands a dirty flush sends: a search unless the UID was cached, the append, the delete. */
  function FlushCommands(cached: bool, name: string, data: Bytes, oldUid: Option<string>): (r: seq<Command>)
    ensures |r| == (if cached then 1 else 2) + (if oldUid.Some? && oldUid.value != "" then 1 else 0)
    ensures r[|r| - 1] == if oldUid.Some? && oldUid.value != "" then DeleteCmd(oldUid.value) else AppendCmd(name, data)
    ensures r[0] == if cached then AppendCmd(name, data) else SearchCmd(name)
    ensures r[|r| - 1].DeleteCmd? ==> r[|r| - 2] == AppendCmd(name, data)
  {
    (if cached then [] else [SearchCmd(name)])
    + [AppendCmd(name, data)]
    + (if oldUid.Some? && oldUid.value != "" then [DeleteCmd(oldUid.value)] else [])
  }

  /** At most one version of `name` is live, and then it is the newest one. */
  ghost predicate SingleLive(mb: Mailbox, name: string)
  {
    forall i :: 0 <= i < |mb| && mb[i].subject == name && !mb[i].deleted ==> NewestIndex(mb, name) == Some(i)
  }

  /** The store after flushing `data` under `name`. */
  function AfterFlush(mb: Mailbox, name: string, data: Bytes): (r: Mailbox)
    ensures |r| == |mb| + 1 && r[|mb|] == Mail(name, data, false)
  {
    var k := NewestIndex(mb, name);
    if k.Some? then
      LocateUid(|mb| + 1, k.value);
      Retired(mb + [Mail(name, data, false)], Newest(mb, name))
    else
      Retired(mb + [Mail(name, data, false)], Newest(mb, name))
  }

  /**
   * After a flush, the version just appended is the newest one for `name`,
   * it is live, it holds the flushed bytes, and fetching the name's newest
   * UID gives those bytes back.
   */
  lemma FlushPublishes(mb: Mailbox, name: string, data: Bytes)
    ensures NewestIndex(AfterFlush(mb, name, data), name) == Some(|mb|)
    ensures !AfterFlush(mb, name, data)[|mb|].deleted
    ensures Fetched(AfterFlush(mb, name, data), Newest(AfterFlush(mb, name, data), name).value) == Some(data)
  {
    var mb1 := mb + [Mail(name, data, false)];
    var after := AfterFlush(mb, name, data);
    var k := NewestIndex(mb, name);
    if k.Some? {
      LocateUid(|mb1|, k.value);
      assert after == mb1[k.value := mb1[k.value].(deleted := true)];
    }
    NewestStoreDeleted(mb1, UidOf(if k.Some? then k.value else 0), name);
    NewestAppend(mb, Mail(name, data, false), name);
    assert NewestIndex(after, name) == Some(|mb|);
    LocateUid(|after|, |mb|);
  }

  /** Flushing keeps a single live version per name: the old newest version is retired. */
  lemma FlushKeepsSingleLive(mb: Mailbox, name: string, data: Bytes)
    requires SingleLive(mb, name)
    ensures SingleLive(AfterFlush(mb, name, data), name)
  {
    var mb1 := mb + [Mail(name, data, false)];
    var after := AfterFlush(mb, name, data);
    var k := NewestIndex(mb, name);
    FlushPublishes(mb, name, data);
    if k.Some? {
      LocateUid(|mb1|, k.value);
      assert after == mb1[k.value := mb1[k.value].(deleted := true)];
    }
    forall i | 0 <= i < |after| && after[i].subject == name && !after[i].deleted
      ensures NewestIndex(after, name) == Some(i)
    {
      if i < |mb| {
        assert false;
      }
    }
  }

  class Message {
    const conn: Connection
    const name: string
    var data: Bytes
    /** The cursor; seek may move it below zero, read and write need it at least zero. */
    var pos: int
    var dirty: bool

    /** A clean message holding `data`, cursor at the start. */
    constructor (conn: Connection, name: string, data: Bytes)
      ensures this.conn == conn && this.name == name && this.data == data
      ensures pos == 0 && !dirty
    {
      this.conn := conn;
      this.name := name;
      this.data := data;
      dirty := false;
      pos := 0;
    }

    /** seek: absolute, relative to the cursor, or `off` bytes back from the end. */
    method Seek(off: int, whence: Whence)
      modifies this`pos
      ensures pos == match whence
                     case SeekSet => off
                     case SeekCur => old(pos) + off
                     case SeekEnd => |data| - off
    {
      match whence
      case SeekSet => pos := off;
      case SeekCur => pos := pos + off;
      case SeekEnd => pos := |data| - off;
    }

    /**
     * read: with no size, everything from the cursor on; with a size, at
     * most that many bytes. The cursor moves past what was read; a cursor
     * beyond the end is brought back to the end by a sized read.
     */
    method Read(size: Option<nat>) returns (buf: Bytes)
      requires pos >= 0
      modifies this`pos
      ensures size.None? ==> buf == (if old(pos) < |data| then data[old(pos)..] else [])
      ensures size.None? ==> pos == old(pos) + |buf|
      ensures size.Some? ==> pos == if old(pos) + size.value < |data| then old(pos) + size.value else |data|
      ensures size.Some? ==> buf == if old(pos) <= |data| then data[old(pos)..pos] else []
      ensures size.Some? ==> |buf| <= size.value
    {
      if size.None? {
        buf := if pos < |data| then data[pos..] else [];
        pos := pos + |buf|;
      } else {
        var n: int := size.value;
        if n + pos > |data| {
          n := |data| - pos;
        }
        buf := if n >= 0 then data[pos..pos + n] else [];
        pos := pos + n;
      }
    }

    /** truncate: no-op for None; otherwise resize to `size` and mark dirty, keeping the cursor within. */
    method Truncate(size: Option<nat>)
      modifies this`data, this`pos, this`dirty
      ensures size.None? ==> data == old(data) && pos == old(pos) && dirty == old(dirty)
      ensures size.Some? ==> data == Resized(old(data), size.value) && dirty
      ensures size.Some? && |old(data)| > size.value && old(pos) > size.value ==> pos == size.value
      ensures size.Some? && !(|old(data)| > size.value && old(pos) > size.value) ==> pos == old(pos)
    {
      if size.None? {
        return;
      }
      var n := size.value;
      if |data| > n {
        data := data[..n];
        if pos > n {
          pos := n;
        }
      } else {
        data := data + Padding(n - |data|);
      }
      dirty := true;
    }

    /** write: grow the buffer to fit if needed, overwrite at the cursor, advance it, mark dirty. */
    method Write(buf: Bytes)
      requires pos >= 0
      modifies this`data, this`pos, this`dirty
      ensures data == Overwritten(old(data), old(pos), buf)
      ensures pos == old(pos) + |buf|
      ensures dirty
    {
      if pos + |buf| > |data| {
        Truncate(Some(pos + |buf|));
      }
      data := data[..pos] + buf + data[pos + |buf|..];
      pos := pos + |buf|;
      dirty := true;
    }

    /**
     * flush: nothing when clean; otherwise look up the current UID, append
     * the whole buffer as a new version, then flag the old UID \Deleted.
     */
    method Flush()
      requires conn.Valid()
      modifies this`dirty, conn`uidCache, conn`mailbox, conn`log
      ensures conn.Valid() && !dirty
      ensures !old(dirty) ==> conn.mailbox == old(conn.mailbox) && conn.uidCache == old(conn.uidCache)
      ensures !old(dirty) ==> conn.log == old(conn.log)
      ensures old(dirty) ==> conn.mailbox == AfterFlush(old(conn.mailbox), name, data)
      ensures old(dirty) ==>
                conn.log == old(conn.log)
                            + FlushCommands(name in old(conn.uidCache), name, data, Newest(old(conn.mailbox), name))
    {
      if dirty {
        var oldUid := conn.GetUidBySubject(name);
        conn.PutMessage(name, data);
        if oldUid.Some? && oldUid.value != "" {
          conn.DeleteMessage(oldUid.value);
        }
        dirty := false;
      }
    }

    /** close: flush. */
    method Close()
      requires conn.Valid()
      modifies this`dirty, conn`uidCache, conn`mailbox, conn`log
      ensures conn.Valid() && !dirty
      ensures !old(dirty) ==> conn.mailbox == old(conn.mailbox) && conn.log == old(conn.log)
      ensures old(dirty) ==> conn.mailbox == AfterFlush(old(conn.mailbox), name, data)
      ensures old(dirty) ==>
                conn.log == old(conn.log)
                            + FlushCommands(name in old(conn.uidCache), name, data, Newest(old(conn.mailbox), name))
    {
      Flush();
    }

    /** create: a new empty message under a fresh name, dirty so that its first flush stores it. */
    static method Create(conn: Connection, name: string) returns (m: Message)
      ensures fresh(m)
      ensures m.conn == conn && m.name == name && m.data == [] && m.pos == 0 && m.dirty
    {
      m := new Message(conn, name, []);
      m.dirty := true;
    }

    /** open: the newest version stored under `name`, or null when there is none. */
    static method Open(conn: Connection, name: string) returns (m: Message?)
      requires conn.Valid()
      modifies conn`uidCache, conn`log
      ensures conn.Valid()
      ensures m == null <==> NewestIndex(conn.mailbox, name).None?
      ensures m != null ==> fresh(m) && m.conn == conn && m.name == name && m.pos == 0 && !m.dirty
      ensures m != null ==> m.data == conn.mailbox[NewestIndex(conn.mailbox, name).value].body
    {
      var uid := conn.GetUidBySubject(name);
      if uid.None? || uid.value == "" {
        return null;
      }
      FetchNewest(conn.mailbox, name);
      var body := conn.GetMessage(uid.value);
      if body.None? {
        return null;
      }
      m := new Message(conn, name, body.value);
    }

    /** unlink: flag the newest version of `name` \Deleted; nothing when there is none. */
    static method Unlink(conn: Connection, name: string)
      requires conn.Valid()
      modifies conn`uidCache, conn`mailbox, conn`log
      ensures conn.Valid()
      ensures conn.mailbox == Retired(old(conn.mailbox), Newest(old(conn.mailbox), name))
      ensures Newest(old(conn.mailbox), name).None? ==> conn.mailbox == old(conn.mailbox)
    {
      var uid := conn.GetUidBySubject(name);
      if uid.None? || uid.value == "" {
        return;
      }
      conn.DeleteMessage(uid.value);
    }
  }
}
