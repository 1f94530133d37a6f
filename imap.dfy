/**
 * The mail store and the client's UID cache (imapfs/imapconnection.py).
 *
 * The remote mailbox is modelled as a sequence of messages in the order
 * they were appended; the UID of the i-th message is the decimal rendering
 * of i + 1, so UIDs are non-zero and strictly ascending (section 2.3.1.1 of
 * RFC 3501). Nothing is ever expunged: marking a message \Deleted (section
 * 2.3.2 of RFC 3501) only sets its flag, and UID SEARCH SUBJECT without the
 * UNDELETED key (section 6.4.4) still matches it, as UID FETCH still returns
 * its body.
 */
module Imap {
  import opened Wrappers
  import opened Text

  datatype Mail = Mail(subject: string, body: Bytes, deleted: bool)

  type Mailbox = seq<Mail>

  /** The commands a connection sends to the server, recorded in order. */
  datatype Command =
    | SearchCmd(subject: string)
    | FetchCmd(uid: string)
    | AppendCmd(subject: string, body: Bytes)
    | DeleteCmd(uid: string)

  // ---------------------------------------------------------------------
  // The server

  /** The UID the server gave to the message at position `i`. */
  function UidOf(i: nat): (u: string)
    ensures u != "" && ' ' !in u
  {
    Decimal(i + 1)
  }

  /** UID SEARCH SUBJECT: the UIDs of every message with that subject, ascending. */
  function Search(mb: Mailbox, subject: string): (r: seq<string>)
    ensures forall k :: 0 <= k < |r| ==> r[k] != "" && ' ' !in r[k]
    decreases |mb|
  {
    if mb == [] then []
    else Search(mb[..|mb| - 1], subject) + (if mb[|mb| - 1].subject == subject then [UidOf(|mb| - 1)] else [])
  }

  /** Position of the most recently appended message with `subject`. */
  function NewestIndex(mb: Mailbox, subject: string): (r: Option<nat>)
    ensures r.Some? ==> r.value < |mb| && mb[r.value].subject == subject
    decreases |mb|
  {
    if mb == [] then None
    else if mb[|mb| - 1].subject == subject then Some(|mb| - 1)
    else NewestIndex(mb[..|mb| - 1], subject)
  }

  /** No later message carries the subject; with None, no message does. */
  lemma {:induction false} NewestIndexSpec(mb: Mailbox, subject: string)
    ensures NewestIndex(mb, subject).Some? ==>
              forall j :: NewestIndex(mb, subject).value < j < |mb| ==> mb[j].subject != subject
    ensures NewestIndex(mb, subject).None? ==> forall j :: 0 <= j < |mb| ==> mb[j].subject != subject
    decreases |mb|
  {
    if mb != [] && mb[|mb| - 1].subject != subject {
      NewestIndexSpec(mb[..|mb| - 1], subject);
    }
  }

  /** UID of the newest message with `subject`, deleted or not. */
  function Newest(mb: Mailbox, subject: string): Option<string>
  {
    match NewestIndex(mb, subject)
    case None => None
    case Some(i) => Some(UidOf(i))
  }

  /** Position of the message whose UID is `uid`, among the first `count`. */
  function Locate(count: nat, uid: string): (r: Option<nat>)
    ensures r.Some? ==> r.value < count && UidOf(r.value) == uid
    decreases count
  {
    if count == 0 then None
    else if UidOf(count - 1) == uid then Some(count - 1)
    else Locate(count - 1, uid)
  }

  /** The reply data of UID SEARCH: one line of space-separated UIDs. */
  function SearchReply(mb: Mailbox, subject: string): seq<string>
  {
    [Join(Search(mb, subject), ' ')]
  }

  /** The reply data of UID FETCH (BODY[1]): empty when no message has that UID. */
  function FetchReply(mb: Mailbox, uid: string): seq<Bytes>
  {
    match Locate(|mb|, uid)
    case None => []
    case Some(i) => [mb[i].body]
  }

  /** The body the server holds under `uid`, if any. */
  function Fetched(mb: Mailbox, uid: string): Option<Bytes>
  {
    match Locate(|mb|, uid)
    case None => None
    case Some(i) => Some(mb[i].body)
  }

  /** UID STORE +FLAGS \Deleted. */
  function StoreDeleted(mb: Mailbox, uid: string): Mailbox
  {
    match Locate(|mb|, uid)
    case None => mb
    case Some(i) => mb[i := mb[i].(deleted := true)]
  }

  /** The APPENDUID response code (section 3 of RFC 4315), when the server sends one. */
  function AppendReply(mb: Mailbox, uidplus: bool): Option<string>
  {
    if uidplus then Some(UidOf(|mb|)) else None
  }

  /** The client's parse of a SEARCH reply (imapconnection.py, search_by_subject). */
  function ParseSearch(reply: seq<string>): (r: Option<seq<string>>)
    ensures r.None? <==> reply == [] || reply[0] == ""
    ensures r.Some? ==> |r.value| >= 1 && Join(r.value, ' ') == reply[0]
    ensures r.Some? ==> forall k :: 0 <= k < |r.value| ==> ' ' !in r.value[k]
  {
    if reply == [] then None
    else
      var uids := Split(reply[0], ' ');
      JoinSplit(reply[0], ' ');
      if |uids| == 1 && uids[0] == "" then None else Some(uids)
  }

  /** Cache entries that do not map to `uid`. */
  function WithoutUid(cache: map<string, string>, uid: string): (r: map<string, string>)
    ensures forall s :: s in r <==> s in cache && cache[s] != uid
    ensures forall s :: s in r ==> r[s] == cache[s]
  {
    map s | s in cache && cache[s] != uid :: cache[s]
  }

  // ---------------------------------------------------------------------
  // Properties of the server model

  /** Different positions carry different UIDs, so a UID locates its own message. */
  lemma {:induction false} LocateUid(count: nat, i: nat)
    requires i < count
    ensures Locate(count, UidOf(i)) == Some(i)
    decreases count
  {
    if UidOf(count - 1) == UidOf(i) {
      DecimalInjective(count, i + 1);
    } else {
      LocateUid(count - 1, i);
    }
  }

  /** The client's parse of the server's SEARCH reply gives exactly the matching UIDs, or None. */
  lemma ParseSearchReply(mb: Mailbox, subject: string)
    ensures ParseSearch(SearchReply(mb, subject))
         == if Search(mb, subject) == [] then None else Some(Search(mb, subject))
  {
    var uids := Search(mb, subject);
    if uids != [] {
      SplitJoin(uids, ' ');
    }
  }

  /** The newest UID is the last one SEARCH returns. */
  lemma {:induction false} NewestIsLastSearched(mb: Mailbox, subject: string)
    ensures Newest(mb, subject)
         == if Search(mb, subject) == [] then None else Some(Search(mb, subject)[|Search(mb, subject)| - 1])
    decreases |mb|
  {
    if mb != [] {
      NewestIsLastSearched(mb[..|mb| - 1], subject);
    }
  }

  /** Appending a message makes it the newest of its subject and leaves other subjects alone. */
  lemma NewestAppend(mb: Mailbox, m: Mail, subject: string)
    ensures Newest(mb + [m], subject)
         == if m.subject == subject then Some(UidOf(|mb|)) else Newest(mb, subject)
  {
    assert (mb + [m])[..|mb|] == mb;
  }

  /** Setting a flag changes no subject, so it changes no search result. */
  lemma NewestStoreDeleted(mb: Mailbox, uid: string, subject: string)
    ensures Newest(StoreDeleted(mb, uid), subject) == Newest(mb, subject)
  {
    var mb' := StoreDeleted(mb, uid);
    assert |mb'| == |mb| && forall j :: 0 <= j < |mb| ==> mb'[j].subject == mb[j].subject;
    var a, b := NewestIndex(mb', subject), NewestIndex(mb, subject);
    NewestIndexSpec(mb', subject);
    NewestIndexSpec(mb, subject);
    if a.Some? && b.Some? {
      assert !(a.value < b.value) && !(b.value < a.value);
    }
  }

  /** The body of the newest message with a subject can always be fetched. */
  lemma FetchNewest(mb: Mailbox, subject: string)
    requires NewestIndex(mb, subject).Some?
    ensures Fetched(mb, Newest(mb, subject).value) == Some(mb[NewestIndex(mb, subject).value].body)
  {
    LocateUid(|mb|, NewestIndex(mb, subject).value);
  }

  /** A UID the cache holds for a subject can always be fetched, so a failed FETCH never finds it in a valid cache. */
  lemma CachedUidFetches(mb: Mailbox, cache: map<string, string>, s: string)
    requires forall t :: t in cache ==> Newest(mb, t) == Some(cache[t])
    requires s in cache
    ensures Fetched(mb, cache[s]).Some?
  {
    FetchNewest(mb, s);
  }

  /** Appending a message leaves every cache entry for another subject pointing at the newest UID. */
  lemma AppendKeepsCache(mb: Mailbox, cache: map<string, string>, m: Mail)
    requires forall s :: s in cache ==> Newest(mb, s) == Some(cache[s])
    requires m.subject !in cache
    ensures forall s :: s in cache ==> Newest(mb + [m], s) == Some(cache[s])
  {
    forall s | s in cache
      ensures Newest(mb + [m], s) == Some(cache[s])
    {
      NewestAppend(mb, m, s);
    }
  }

  // ---------------------------------------------------------------------
  // The connection

  /**
   * An open connection: the selected mailbox on the server and the client's
   * cache from subject to UID. The cache only saves searches: every entry
   * names the newest message with that subject (`Valid`).
   */
  class Connection {
    var mailbox: Mailbox
    var uidCache: map<string, string>
    /** Whether the server answers APPEND with an APPENDUID response code. */
    const uidplus: bool
    /** Every command sent so far, oldest first. */
    ghost var log: seq<Command>

    ghost predicate Valid()
      reads this
    {
      forall s :: s in uidCache ==> Newest(mailbox, s) == Some(uidCache[s])
    }

    constructor (mailbox: Mailbox, uidplus: bool)
      ensures Valid()
      ensures this.mailbox == mailbox && this.uidplus == uidplus
      ensures uidCache == map[] && log == []
    {
      this.mailbox := mailbox;
      this.uidplus := uidplus;
      uidCache := map[];
      log := [];
    }

    /** Drops every cache entry whose value is `uid`, leaving the others as they are. */
    method PurgeUid(uid: string)
      modifies this`uidCache
      ensures uidCache == WithoutUid(old(uidCache), uid)
    {
      var subjects := uidCache.Keys;
      while subjects != {}
        invariant subjects <= old(uidCache).Keys
        invariant uidCache
               == map s | s in old(uidCache) && (s in subjects || old(uidCache)[s] != uid) :: old(uidCache)[s]
        decreases subjects
      {
        var s :| s in subjects;
        if uidCache[s] == uid {
          uidCache := uidCache - {s};
        }
        subjects := subjects - {s};
      }
    }

    /** get_message: the body stored under `uid`, or None (and the UID forgotten). */
    method GetMessage(uid: string) returns (r: Option<Bytes>)
      requires Valid()
      modifies this`uidCache, this`log
      ensures Valid()
      ensures uid == "" ==> r == None && uidCache == old(uidCache) && log == old(log)
      ensures uid != "" ==> log == old(log) + [FetchCmd(uid)] && r == Fetched(mailbox, uid)
      ensures uid != "" && r == None ==> uidCache == WithoutUid(old(uidCache), uid)
      ensures r != None ==> uidCache == old(uidCache)
    {
      if uid == "" {
        return None;
      }
      var reply := FetchReply(mailbox, uid);
      log := log + [FetchCmd(uid)];
      if reply == [] {
        PurgeUid(uid);
        return None;
      }
      r := Some(reply[0]);
    }

    /** put_message: appends a new message, caching its UID when the server reports it. */
    method PutMessage(subject: string, data: Bytes)
      requires Valid()
      modifies this`uidCache, this`mailbox, this`log
      ensures Valid()
      ensures mailbox == old(mailbox) + [Mail(subject, data, false)]
      ensures log == old(log) + [AppendCmd(subject, data)]
      ensures uidCache == if uidplus then old(uidCache)[subject := UidOf(|old(mailbox)|)]
                          else old(uidCache) - {subject}
    {
      if subject in uidCache {
        uidCache := uidCache - {subject};
      }
      var reply := AppendReply(mailbox, uidplus);
      AppendKeepsCache(mailbox, uidCache, Mail(subject, data, false));
      mailbox := mailbox + [Mail(subject, data, false)];
      log := log + [AppendCmd(subject, data)];
      if reply.Some? {
        NewestAppend(old(mailbox), Mail(subject, data, false), subject);
        uidCache := uidCache[subject := reply.value];
      }
    }

    /** delete_message: flags `uid` \Deleted and forgets every subject cached as `uid`. */
    method DeleteMessage(uid: string)
      requires Valid()
      modifies this`uidCache, this`mailbox, this`log
      ensures Valid()
      ensures mailbox == StoreDeleted(old(mailbox), uid)
      ensures log == old(log) + [DeleteCmd(uid)]
      ensures uidCache == WithoutUid(old(uidCache), uid)
    {
      mailbox := StoreDeleted(mailbox, uid);
      log := log + [DeleteCmd(uid)];
      PurgeUid(uid);
      forall s | s in uidCache
        ensures Newest(mailbox, s) == Some(uidCache[s])
      {
        NewestStoreDeleted(old(mailbox), uid, s);
      }
    }

    /** search_by_subject: the UIDs with that subject in server order, or None when there are none. */
    method SearchBySubject(subject: string) returns (r: Option<seq<string>>)
      modifies this`log
      ensures log == old(log) + [SearchCmd(subject)]
      ensures r == if Search(mailbox, subject) == [] then None else Some(Search(mailbox, subject))
    {
      var reply := SearchReply(mailbox, subject);
      log := log + [SearchCmd(subject)];
      r := ParseSearch(reply);
      ParseSearchReply(mailbox, subject);
    }

    /**
     * get_uid_by_subject: the UID of the newest message with `subject`.
     * The answer is the same whether or not the cache holds the subject.
     */
    method GetUidBySubject(subject: string) returns (r: Option<string>)
      requires Valid()
      modifies this`uidCache, this`log
      ensures Valid()
      ensures r == Newest(mailbox, subject)
      ensures subject in old(uidCache) ==> uidCache == old(uidCache) && log == old(log)
      ensures subject !in old(uidCache) ==> log == old(log) + [SearchCmd(subject)]
      ensures subject !in old(uidCache) ==>
                uidCache == if r.Some? then old(uidCache)[subject := r.value] else old(uidCache)
    {
      if subject in uidCache {
        return Some(uidCache[subject]);
      }
      var results := SearchBySubject(subject);
      NewestIsLastSearched(mailbox, subject);
      if results.None? {
        return None;
      }
      var uids := results.value;
      uidCache := uidCache[subject := uids[|uids| - 1]];
      r := Some(uids[|uids| - 1]);
    }
  }
}
