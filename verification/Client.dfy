/**
The read-only authority client (vcs/readonlyfs/client.go): who owns which item
capability and which handle, after every outcome a call can have, and how a
directory is paged.
 */
module Client {
  import opened Basics
  import opened Authority

  datatype Attr = Attr(inode: u64, kind: Kind, size: u64)

  function AttrFrom(raw: Option<RawAttr>): Option<Attr> {
    if raw.None? || !WellFormedAttr(raw.value) then None
    else Some(Attr(raw.value.inode, raw.value.kind, raw.value.size))
  }

  /** Why an operation did not succeed; only Terminal ends the session. */
  datatype Failure = Canceled | Refused(errno: nat) | Malformed | WrongKind | Terminal

  const EBADF: nat := 9
  const EINVAL: nat := 22

  datatype Outcome<+T> = Done(value: T) | Failed(why: Failure)

  datatype Entry = Entry(attr: Attr, name: Bytes)

  /** A page of a directory; next is absent once the end was reported. */
  datatype Page = Page(directory: Attr, entries: seq<Entry>, next: Option<Cursor>)

  const MAX_LIST_ENTRIES: nat := 500
  const LIST_PAGE: nat := 256

  /** A resolved item: the root, or an owned capability. */
  datatype Resolved = Resolved(token: Option<Grant>, attr: RawAttr)
  {
    function Owned(): set<Grant> {
      if token.Some? then {token.value} else {}
    }
  }

  /** An open file or directory description handed to a caller. */
  class Description {
    const client: Client
    const handle: Grant
    var closed: bool

    constructor (c: Client, h: Grant)
      ensures client == c && handle == h && !closed
    {
      client, handle, closed := c, h, false;
    }
  }

  class File {
    const attr: Attr
    const description: Description

    constructor (a: Attr, d: Description)
      ensures attr == a && description == d
    {
      attr, description := a, d;
    }

    /** Closes the file once; a refused close may be tried again. */
    method Close() returns (ok: bool)
      requires description.client.Valid() && description in description.client.issued
      modifies description.client, description.client.rpc, description`closed
      ensures description.client.Valid() && (ok ==> description.closed)
      ensures description.client.issued == old(description.client.issued)
      ensures old(description.client.fatal) ==> description.client.fatal
    {
      ok := description.client.CloseDescription(description);
    }
  }

  class Cursor {
    const directory: Attr
    const description: Description
    var cookie: Option<nat>

    constructor (a: Attr, d: Description)
      ensures directory == a && description == d && cookie == None
    {
      directory, description, cookie := a, d, None;
    }

    method Close() returns (ok: bool)
      requires description.client.Valid() && description in description.client.issued
      modifies description.client, description.client.rpc, description`closed
      ensures description.client.Valid() && (ok ==> description.closed)
      ensures description.client.issued == old(description.client.issued)
      ensures old(description.client.fatal) ==> description.client.fatal
    {
      ok := description.client.CloseDescription(description);
    }
  }

  class Client {
    const rpc: Session
    var fatal: bool
    var closed: bool                          // Close has run
    ghost var issued: set<Description>        // every description ever handed out
    ghost var live: map<Grant, Description>   // the open ones, by handle

    /** The session's accounts balance while these item capabilities are in use:
        the open handles are exactly those of the descriptions not yet closed. */
    ghost predicate Balanced(items: set<Grant>)
      reads this, rpc, issued
    {
      && rpc.Numbered() && rpc.items == items
      && rpc.handles == live.Keys
      && (forall h :: h in live ==> live[h] in issued && live[h].handle == h && !live[h].closed)
      && (forall d :: d in issued && !d.closed ==> d.handle in live && live[d.handle] == d)
    }

    /** What holds at every moment, of a terminal session too: never more than two
        item capabilities out, a connection exactly while the session lives, and a
        detach only from Close. */
    ghost predicate Steady()
      reads `fatal, `closed, rpc`peak, rpc`connected, rpc`detaches
    {
      && rpc.peak <= 2 && rpc.connected == !fatal
      && rpc.Rooted()
      && (closed ==> fatal) && rpc.detaches <= if closed then 1 else 0
    }

    /** What holds between operations: the session is terminal, or no item
        capability is out and no handle is held by anything but an open description. */
    ghost predicate Valid()
      reads this, rpc, issued
    {
      Steady() && (fatal || Balanced({}))
    }

    constructor (session: Session)
      requires session.items == {} && session.handles == {} && session.peak == 0 && session.Numbered()
      requires session.connected && session.detaches == 0 && session.Rooted()
      ensures Valid() && rpc == session && issued == {} && !fatal && !closed
    {
      rpc, fatal, closed, issued, live := session, false, false, {}, map[];
    }

    /** Records the first terminal cause and drops the connection; the session
        never recovers. */
    method Fail()
      modifies `fatal, rpc`connected
      ensures fatal && (old(fatal) ==> rpc.connected == old(rpc.connected)) && (!old(fatal) ==> !rpc.connected)
    {
      if !fatal {
        fatal := true;
        var _ := rpc.Disconnect();
      }
    }

    /** The keepalive worker ends the session. */
    method Keepalive()
      requires Valid()
      modifies `fatal, rpc`connected
      ensures Valid() && fatal
    {
      Fail();
    }

    /** One mutation. While the session lives, the outcome is settled: either the
        authority did what was asked, or nothing changed. */
    method Mutate(request: Request) returns (r: Outcome<Body>)
      requires Steady() && (!fatal ==> rpc.Numbered())
      requires !fatal ==> rpc.Holds(request) && (request.Lookup? ==> |rpc.items| <= 1)
      requires !fatal && request.ReadDir? && rpc.serves ==>
                 0 < request.maxEntries && Position(request.cookie) <= |rpc.listings(request.directory.node)|
      modifies `fatal, rpc`items, rpc`handles, rpc`next, rpc`peak, rpc`connected
      ensures Steady() && (old(fatal) ==> fatal)
      ensures fatal ==> r.Failed?
      ensures r.Failed? ==> r.why.Canceled? || r.why.Refused? || r.why.Terminal?
      ensures r.Failed? && !fatal ==> !r.why.Terminal? && rpc.Numbered() && rpc.Untouched()
      ensures r == Failed(Refused(ENOENT)) && rpc.serves && request.Lookup? ==>
                rpc.child(rpc.Node(request.parent), request.name).None?
      ensures r.Done? ==> rpc.Numbered() && rpc.Effect(request, r.value)
    {
      var lost: bool := *;  // the keepalive worker may have ended the session
      if lost {
        Fail();
      }
      if fatal {
        return Failed(Terminal);
      }
      var reply := rpc.Call(request);
      if reply.NotSent? {
        return Failed(Canceled);
      }
      if !reply.Settled() {
        Fail();
        return Failed(Terminal);
      }
      if reply.errno != 0 {
        return Failed(Refused(reply.errno));
      }
      return Done(reply.body);
    }

    /** Returns one item capability; a session that cannot do so ends. */
    method Reclaim(token: Grant) returns (ok: bool)
      requires Steady() && (!fatal ==> rpc.Numbered() && token in rpc.items)
      modifies `fatal, rpc`items, rpc`handles, rpc`next, rpc`peak, rpc`connected
      ensures Steady() && (old(fatal) ==> fatal)
      ensures ok <==> !fatal
      ensures ok ==> rpc.Numbered() && rpc.Effect(Request.Reclaim(token), Nothing)
    {
      var r := Mutate(Request.Reclaim(token));
      if r.Failed? {
        Fail();
      }
      ok := r.Done?;
    }

    /** Returns the capability of a resolved item, if it has one. */
    method Release(item: Resolved) returns (ok: bool)
      requires Steady() && (!fatal ==> rpc.Numbered() && item.Owned() <= rpc.items)
      modifies `fatal, rpc`items, rpc`handles, rpc`next, rpc`peak, rpc`connected
      ensures Steady() && (old(fatal) ==> fatal)
      ensures ok ==> item.token.None? || !fatal
      ensures !ok ==> fatal
      ensures !fatal ==> rpc.Numbered() && rpc.items == old(rpc.items) - item.Owned() &&
                         rpc.handles == old(rpc.handles) && rpc.peak == old(rpc.peak)
    {
      ok := true;
      if item.token.Some? {
        ok := Reclaim(item.token.value);
      }
    }

    /** Walks a path one lookup at a time. Each capability is returned as soon as the
        next one is held, so at most two are ever out; on success only the result's
        own is. In a fixed tree that one names the node the path leads to, and a name
        is reported missing only when the path leads nowhere. */
    method Resolve(path: Option<seq<Bytes>>) returns (r: Outcome<Resolved>)
      requires Valid()
      modifies `fatal, rpc`items, rpc`handles, rpc`next, rpc`peak, rpc`connected
      ensures Steady() && (old(fatal) ==> fatal)
      ensures !fatal && r.Done? ==> Balanced(r.value.Owned())
      ensures !fatal && r.Failed? ==> Balanced({})
      ensures r.Done? ==> path.Some?
      ensures r.Done? && rpc.serves ==>
                rpc.Reach(path.value) == Some(rpc.Node(r.value.token)) && r.value.attr == rpc.attrs(rpc.Node(r.value.token))
      ensures r == Failed(Refused(ENOENT)) && rpc.serves ==> path.Some? && rpc.Reach(path.value).None?
    {
      if path.None? {
        return Failed(Refused(EINVAL));
      }
      if rpc.root.None? {
        return Failed(Malformed);
      }
      hide Session.Reach, Client.Balanced;
      var current := Resolved(None, rpc.root.value);
      rpc.ReachRoot();
      assert path.value[..0] == [];
      for i := 0 to |path.value|
        invariant Steady() && (old(fatal) ==> fatal)
        invariant !fatal ==> Balanced(current.Owned())
        invariant rpc.serves ==>
                    rpc.Reach(path.value[..i]) == Some(rpc.Node(current.token)) && current.attr == rpc.attrs(rpc.Node(current.token))
      {
        rpc.ReachStep(path.value, i);
        var found := Descend(current, path.value[i]);
        if found.Failed? {
          if found.why == Refused(ENOENT) && rpc.serves {
            rpc.DeadEnd(path.value, i + 1);
          }
          return Failed(found.why);
        }
        current := found.value;
      }
      assert path.value[..|path.value|] == path.value;
      return Done(current);
    }

    /** One step of a walk: trades an item's capability for its child's. */
    method Descend(current: Resolved, name: Bytes) returns (r: Outcome<Resolved>)
      requires Steady() && (!fatal ==> Balanced(current.Owned()))
      modifies `fatal, rpc`items, rpc`handles, rpc`next, rpc`peak, rpc`connected
      ensures Steady() && (old(fatal) ==> fatal)
      ensures !fatal && r.Done? ==> Balanced(r.value.Owned())
      ensures !fatal && r.Failed? ==> Balanced({})
      ensures r.Done? && rpc.serves ==>
                && r.value.token.Some? && rpc.child(rpc.Node(current.token), name) == Some(rpc.Node(r.value.token))
                && r.value.attr == rpc.attrs(rpc.Node(r.value.token))
      ensures r == Failed(Refused(ENOENT)) && rpc.serves ==> rpc.child(rpc.Node(current.token), name).None?
    {
      var reply := Mutate(Lookup(current.token, name));
      if reply.Failed? {
        var _ := Release(current);
        return Failed(reply.why);
      }
      if !reply.value.Item? || reply.value.attr.None? || reply.value.token.None? {
        var _ := Release(current);
        Fail();
        return Failed(Terminal);
      }
      var found := Resolved(reply.value.token, reply.value.attr.value);
      var kept := Release(current);
      if !kept {
        var _ := Release(found);
        return Failed(Terminal);
      }
      return Done(found);
    }

    /** In a fixed tree the handle is on the node the path leads to, and these are that
        node's attributes. */
    predicate Names(path: Option<seq<Bytes>>, handle: Grant, attr: Attr) {
      && path.Some? && rpc.Reach(path.value) == Some(handle.node)
      && attr.inode == rpc.attrs(handle.node).inode && attr.kind == rpc.attrs(handle.node).kind
      && attr.size == rpc.attrs(handle.node).size
    }

    /** Opens a resolved item of the wanted kind and returns its capability: what
        stays open is one handle, owned by a new description. */
    method OpenItem(path: Option<seq<Bytes>>, wanted: Kind) returns (r: Outcome<(Attr, Description)>)
      requires Valid()
      modifies this, rpc
      ensures Valid() && (old(fatal) ==> fatal) && old(issued) <= issued
      ensures r.Done? ==> fresh(r.value.1) && issued == old(issued) + {r.value.1}
      ensures r.Done? ==> r.value.1.client == this && !r.value.1.closed && r.value.0.kind == wanted
      ensures r.Done? && rpc.serves ==> Names(path, r.value.1.handle, r.value.0)
    {
      var item := Resolve(path);
      if item.Failed? {
        return Failed(item.why);
      }
      var attr := AttrFrom(Some(item.value.attr));
      if attr.None? || attr.value.kind != wanted {
        var _ := Release(item.value);
        return Failed(if attr.None? then Malformed else WrongKind);
      }
      var opening := OpenResolved(item.value);
      if opening.Failed? {
        return Failed(opening.why);
      }
      return Done((attr.value, opening.value));
    }

    /** Trades a resolved item's capability for a handle and its description. */
    method OpenResolved(item: Resolved) returns (r: Outcome<Description>)
      requires Steady() && (!fatal ==> Balanced(item.Owned()))
      modifies this, rpc
      ensures Valid() && (old(fatal) ==> fatal) && old(issued) <= issued
      ensures r.Done? ==> fresh(r.value) && issued == old(issued) + {r.value}
      ensures r.Done? ==> r.value.client == this && !r.value.closed
      ensures r.Done? && rpc.serves ==> r.value.handle.node == rpc.Node(item.token)
    {
      var handle := OpenHandle(item);
      if handle.Failed? {
        return Failed(handle.why);
      }
      var description := new Description(this, handle.value);
      issued, live := issued + {description}, live[description.handle := description];
      return Done(description);
    }

    method OpenHandle(item: Resolved) returns (r: Outcome<Grant>)
      requires Steady() && (!fatal ==> rpc.Numbered() && rpc.items == item.Owned())
      modifies `fatal, rpc`items, rpc`handles, rpc`next, rpc`peak, rpc`connected
      ensures Steady() && (old(fatal) ==> fatal)
      ensures !fatal ==> rpc.Numbered() && rpc.items == {}
      ensures !fatal && r.Failed? ==> rpc.handles == old(rpc.handles)
      ensures r.Done? && !fatal ==> r.value !in old(rpc.handles) && rpc.handles == old(rpc.handles) + {r.value}
      ensures r.Done? && rpc.serves ==> r.value.node == rpc.Node(item.token)
    {
      var reply := Mutate(Open(item.token));
      if reply.Failed? {
        var _ := Release(item);
        return Failed(reply.why);
      }
      if !reply.value.Opened? || reply.value.handle.None? {
        var _ := Release(item);
        Fail();
        return Failed(Terminal);
      }
      var kept := Release(item);
      if !kept {
        return Failed(Terminal);
      }
      return Done(reply.value.handle.value);
    }

    method OpenFile(path: Option<seq<Bytes>>) returns (r: Outcome<File>)
      requires Valid()
      modifies this, rpc
      ensures Valid() && (old(fatal) ==> fatal) && old(issued) <= issued
      ensures r.Done? ==> fresh(r.value) && fresh(r.value.description) && r.value.description in issued
      ensures r.Done? ==> r.value.description.client == this && !r.value.description.closed
      ensures r.Done? ==> r.value.attr.kind == Regular
      ensures r.Done? && rpc.serves ==> Names(path, r.value.description.handle, r.value.attr)
    {
      var found := OpenItem(path, Regular);
      if found.Failed? {
        return Failed(found.why);
      }
      var file := new File(found.value.0, found.value.1);
      return Done(file);
    }

    /** Closes a description's handle. A refusal leaves it open, with its caller. */
    method CloseDescription(d: Description) returns (ok: bool)
      requires Valid() && d in issued && d.client == this
      modifies this, rpc, d`closed
      ensures Valid() && (old(fatal) ==> fatal) && issued == old(issued)
      ensures ok ==> d.closed
      ensures !ok && !fatal ==> !d.closed && live == old(live)
    {
      if d.closed {
        return true;
      }
      var reply := Mutate(CloseHandle(d.handle));
      if reply.Failed? {
        return false;
      }
      d.closed := true;
      live := live - {d.handle};
      return true;
    }

    // ----- directories -----

    /** A cursor this client may read: its position is inside the directory. */
    ghost predicate Readable(cursor: Cursor)
      reads this, cursor
    {
      && cursor.description in issued && cursor.description.client == this
      && (rpc.serves ==> Position(cursor.cookie) <= |rpc.listings(cursor.description.handle.node)|)
    }

    /** One page from the authority, checked entry by entry. */
    method ReadPage(cursor: Cursor, requested: nat) returns (r: Outcome<(seq<Entry>, bool)>)
      requires Valid() && Readable(cursor) && !cursor.description.closed && 0 < requested
      modifies `fatal, rpc, cursor
      ensures Valid() && (old(fatal) ==> fatal) && Readable(cursor)
      ensures r.Done? ==> |r.value.0| <= requested && (!r.value.1 ==> r.value.0 != [])
      ensures r.Done? && rpc.serves ==>
                Follows(rpc.listings(cursor.description.handle.node), old(cursor.cookie), cursor.cookie, r.value.0, r.value.1)
      ensures r.Failed? && rpc.serves ==> r.why != Malformed
    {
      var handle := cursor.description.handle;
      var reply := Mutate(ReadDir(handle, cursor.cookie, requested));
      if reply.Failed? {
        return Failed(reply.why);
      }
      var page := reply.value;
      if rpc.serves {
        ServedWellFormed(rpc.listings(handle.node), cursor.cookie, requested, page);
      }
      if !page.Listed? || !page.verified || |page.entries| > requested {
        return Failed(Malformed);
      }
      var accepted := AcceptEntries(page.entries, cursor.cookie);
      if accepted.None? {
        return Failed(Malformed);
      }
      if rpc.serves {
        PageFollows(rpc.listings(handle.node), cursor.cookie, accepted.value.1, requested, page, accepted.value.0);
      }
      cursor.cookie := accepted.value.1;
      if !page.eof && page.entries == [] {
        return Failed(Malformed);
      }
      return Done((accepted.value.0, page.eof));
    }

    /** Reads up to limit entries from where the cursor is. The loop ends because
        every page that is not the last brings an entry. */
    method ReadEntries(cursor: Cursor, limit: nat) returns (r: Outcome<(seq<Entry>, bool)>)
      requires Valid() && Readable(cursor) && 0 < limit
      modifies `fatal, rpc, cursor
      ensures Valid() && (old(fatal) ==> fatal) && Readable(cursor)
      ensures r.Done? ==> |r.value.0| <= limit && (!r.value.1 ==> |r.value.0| == limit)
      ensures r.Done? && rpc.serves ==>
                Follows(rpc.listings(cursor.description.handle.node), old(cursor.cookie), cursor.cookie, r.value.0, r.value.1)
      ensures r.Failed? && rpc.serves ==> r.why != Malformed
    {
      if cursor.description.closed {
        return Failed(Refused(EBADF));
      }
      var entries: seq<Entry> := [];
      ghost var listing := rpc.listings(cursor.description.handle.node);
      while |entries| < limit
        invariant |entries| <= limit && Readable(cursor) && Valid() && (old(fatal) ==> fatal)
        invariant rpc.serves ==> Follows(listing, old(cursor.cookie), cursor.cookie, entries, false)
        decreases limit - |entries|
      {
        var requested := if limit - |entries| < LIST_PAGE then limit - |entries| else LIST_PAGE;
        ghost var before := cursor.cookie;
        var page := ReadPage(cursor, requested);
        if page.Failed? {
          return Failed(page.why);
        }
        if rpc.serves {
          FollowsOn(listing, old(cursor.cookie), before, cursor.cookie, entries, page.value.0, page.value.1);
        }
        entries := entries + page.value.0;
        if page.value.1 {
          return Done((entries, true));
        }
      }
      return Done((entries, false));
    }

    method OpenDirectory(path: Option<seq<Bytes>>) returns (r: Outcome<Cursor>)
      requires Valid()
      modifies this, rpc
      ensures Valid() && (old(fatal) ==> fatal) && old(issued) <= issued
      ensures r.Done? ==> fresh(r.value) && fresh(r.value.description) && !r.value.description.closed
      ensures r.Done? ==> Readable(r.value) && r.value.cookie == None && r.value.directory.kind == Directory
      ensures r.Done? && rpc.serves ==> Names(path, r.value.description.handle, r.value.directory)
    {
      var found := OpenItem(path, Directory);
      if found.Failed? {
        return Failed(found.why);
      }
      var cursor := new Cursor(found.value.0, found.value.1);
      return Done(cursor);
    }

    /** One page from a cursor. The end of the directory and every failure close it,
        or end the session; otherwise the same cursor resumes. */
    method NextPage(cursor: Cursor, limit: nat) returns (r: Outcome<Page>)
      requires Valid() && Readable(cursor) && 0 < limit
      modifies this, rpc, cursor, cursor.description
      ensures Valid() && (old(fatal) ==> fatal) && issued == old(issued) && Readable(cursor)
      ensures r.Failed? ==> cursor.description.closed || fatal
      ensures r.Done? && r.value.next.None? ==> cursor.description.closed
      ensures r.Done? && r.value.next.Some? ==> r.value.next.value == cursor && |r.value.entries| == limit
      ensures r.Done? ==> r.value.directory == cursor.directory && |r.value.entries| <= limit
      ensures r.Done? && rpc.serves ==>
                Follows(rpc.listings(cursor.description.handle.node), old(cursor.cookie), cursor.cookie, r.value.entries,
                        r.value.next.None?)
    {
      var read := ReadEntries(cursor, limit);
      if read.Failed? {
        var closed := CloseDescription(cursor.description);
        if !closed {
          Fail();
        }
        return Failed(read.why);
      }
      if read.value.1 {
        var closed := CloseDescription(cursor.description);
        if !closed {
          Fail();
          return Failed(Terminal);
        }
        return Done(Page(cursor.directory, read.value.0, None));
      }
      return Done(Page(cursor.directory, read.value.0, Some(cursor)));
    }

    /** One page of a directory, from its start or from a cursor of this client.
        handle is the open directory the page was read from. */
    method List(path: Option<seq<Bytes>>, limit: int, cursor: Option<Cursor>)
      returns (r: Outcome<Page>, ghost handle: Grant)
      requires Valid()
      requires cursor.Some? && cursor.value.description.client == this ==> Readable(cursor.value)
      modifies this, rpc
      modifies if cursor.Some? then {cursor.value, cursor.value.description} else {}
      ensures Valid() && (old(fatal) ==> fatal) && old(issued) <= issued
      ensures cursor.Some? ==> handle == cursor.value.description.handle
      ensures cursor.Some? && cursor.value.description.client == this ==> Readable(cursor.value)
      ensures r.Done? ==> 1 <= limit <= MAX_LIST_ENTRIES && |r.value.entries| <= limit
      ensures r.Done? && r.value.next.Some? ==>
                && |r.value.entries| == limit
                && Readable(r.value.next.value) && r.value.next.value.description.handle == handle
                && (cursor.Some? ==> r.value.next == cursor)
                && (cursor.None? ==> fresh(r.value.next.value) && fresh(r.value.next.value.description))
      ensures r.Done? && cursor.Some? && r.value.next.None? ==> cursor.value.description.closed
      ensures r.Done? && cursor.None? && rpc.serves ==> Names(path, handle, r.value.directory)
      ensures r.Done? && rpc.serves ==>
                var from := if cursor.Some? then old(cursor.value.cookie) else None;
                var to := Position(from) + |r.value.entries|;
                && Follows(rpc.listings(handle.node), from, Some(to), r.value.entries, r.value.next.None?)
                && (r.value.next.Some? ==> Position(r.value.next.value.cookie) == to)
    {
      handle := if cursor.Some? then cursor.value.description.handle else Grant(0, ROOT);
      if limit < 1 || limit > MAX_LIST_ENTRIES {
        return Failed(Refused(EINVAL)), handle;
      }
      if cursor.Some? {
        if cursor.value.description.client != this {
          return Failed(Refused(EINVAL)), handle;
        }
        r := NextPage(cursor.value, limit);
        return;
      }
      var created := OpenDirectory(path);
      if created.Failed? {
        return Failed(created.why), handle;
      }
      handle := created.value.description.handle;
      r := NextPage(created.value, limit);
    }

    /** Ends the session, once. A session that still lives asks the authority to let
        it go, and once it has, nothing is granted to it any more; a session that
        was already terminal asks nothing, and a second Close does nothing at all. */
    method Close() returns (ok: bool)
      requires Valid()
      modifies this, rpc
      ensures Valid() && fatal && closed && issued == old(issued)
      ensures rpc.detaches == old(rpc.detaches) + if old(fatal) then 0 else 1
      ensures !old(fatal) && ok ==> rpc.items == {} && rpc.handles == {}
      ensures old(fatal) ==> rpc.Untouched()
      ensures old(closed) ==> ok
    {
      if closed {
        return true;
      }
      var alive := !fatal;
      closed, fatal := true, true;
      var detached := true;
      if alive {
        detached := rpc.Detach();
      }
      var dropped := rpc.Disconnect();
      ok := detached && dropped;
    }
  }

  // ----- pages -----

  predicate EntryWellFormed(raw: RawEntry) {
    AttrFrom(raw.attr).Some? && raw.name != [] && raw.nextCookie.Some?
  }

  function EntryFrom(raw: RawEntry): Entry
    requires EntryWellFormed(raw)
  {
    Entry(AttrFrom(raw.attr).value, raw.name)
  }

  /** Checks and converts a page's entries, keeping the last one's cookie. */
  method AcceptEntries(raws: seq<RawEntry>, cookie: Option<nat>) returns (r: Option<(seq<Entry>, Option<nat>)>)
    ensures r.Some? <==> forall i :: 0 <= i < |raws| ==> EntryWellFormed(raws[i])
    ensures r.Some? ==> |r.value.0| == |raws| && forall i :: 0 <= i < |raws| ==> r.value.0[i] == EntryFrom(raws[i])
    ensures r.Some? ==> r.value.1 == if raws == [] then cookie else raws[|raws| - 1].nextCookie
  {
    var entries: seq<Entry> := [];
    var next := cookie;
    for i := 0 to |raws|
      invariant |entries| == i
      invariant forall j :: 0 <= j < i ==> EntryWellFormed(raws[j]) && entries[j] == EntryFrom(raws[j])
      invariant next == if i == 0 then cookie else raws[i - 1].nextCookie
    {
      if !EntryWellFormed(raws[i]) {
        return None;
      }
      entries := entries + [EntryFrom(raws[i])];
      next := raws[i].nextCookie;
    }
    return Some((entries, next));
  }

  /** A whole directory as entries. */
  function Entries(listing: Listing): (s: seq<Entry>)
    ensures |s| == |listing|
    ensures forall i :: 0 <= i < |s| ==>
              && s[i].name == listing[i].name && s[i].attr.inode == listing[i].attr.inode
              && s[i].attr.kind == listing[i].attr.kind && s[i].attr.size == listing[i].attr.size
  {
    seq(|listing|, i requires 0 <= i < |listing| => Entry(AttrFrom(Some(listing[i].attr)).value, listing[i].name))
  }

  /** Reading from one cookie to another yielded exactly the entries between them,
      and the end was reported only at the end. */
  predicate Follows(listing: Listing, from: Option<nat>, to: Option<nat>, entries: seq<Entry>, eof: bool) {
    && Position(from) + |entries| == Position(to) <= |listing|
    && entries == Entries(listing)[Position(from)..Position(to)]
    && (eof ==> Position(to) == |listing|)
  }

  lemma ServedWellFormed(listing: Listing, cookie: Option<nat>, maxEntries: nat, page: Body)
    requires ServesPage(listing, cookie, maxEntries, page)
    ensures forall i :: 0 <= i < |page.entries| ==> EntryWellFormed(page.entries[i])
  {
    forall i | 0 <= i < |page.entries|
      ensures EntryWellFormed(page.entries[i])
    {
      assert page.entries[i] == RawOf(listing, Position(cookie) + i);
      assert WellFormedEntry(listing[Position(cookie) + i]);
    }
  }

  lemma PageFollows(listing: Listing, before: Option<nat>, after: Option<nat>, requested: nat, page: Body, more: seq<Entry>)
    requires Position(before) <= |listing| && ServesPage(listing, before, requested, page)
    requires forall i :: 0 <= i < |page.entries| ==> EntryWellFormed(page.entries[i])
    requires |more| == |page.entries| && forall i :: 0 <= i < |more| ==> more[i] == EntryFrom(page.entries[i])
    requires after == if page.entries == [] then before else page.entries[|page.entries| - 1].nextCookie
    ensures Follows(listing, before, after, more, page.eof)
  {
    var whole := Entries(listing);
    assert Position(after) == Position(before) + |more|;
    forall i | 0 <= i < |more|
      ensures more[i] == whole[Position(before) + i]
    {
      assert page.entries[i] == RawOf(listing, Position(before) + i);
    }
  }

  lemma FollowsOn(listing: Listing, start: Option<nat>, middle: Option<nat>, end: Option<nat>, a: seq<Entry>, b: seq<Entry>,
                  eof: bool)
    requires Follows(listing, start, middle, a, false) && Follows(listing, middle, end, b, eof)
    ensures Follows(listing, start, end, a + b, eof) && Follows(listing, start, end, a + b, false)
  {
    hide Entries;
    var whole := Entries(listing);
    assert whole[Position(start)..Position(middle)] + whole[Position(middle)..Position(end)] ==
           whole[Position(start)..Position(end)];
  }

  function Limit(n: nat): nat {
    n
  }

  /** Lists a directory page by page under any limits, until the end is reported or
      the limits run out: every page before the last is as long as its limit. Against
      a fixed directory the pages are the listing from its start, each entry once and
      in order, and limits for more entries than it has reach its end. */
  method ListPages(client: Client, path: Option<seq<Bytes>>, limits: seq<nat>)
    returns (r: Outcome<(seq<Entry>, bool)>, ghost handle: Grant)
    requires client.Valid()
    modifies client, client.rpc
    ensures client.Valid()
    ensures r.Done? && client.rpc.serves && limits != [] ==>
              path.Some? && client.rpc.Reach(path.value) == Some(handle.node)
    ensures r.Done? && client.rpc.serves ==>
              var whole := Entries(client.rpc.listings(handle.node));
              r.value.0 <= whole && (r.value.1 ==> r.value.0 == whole)
    ensures r.Done? && !r.value.1 ==> |r.value.0| == Total(Limit, limits)
    ensures r.Done? && client.rpc.serves && Total(Limit, limits) > |client.rpc.listings(handle.node)| ==> r.value.1
  {
    assert limits[..0] == [] && Total(Limit, []) == 0;
    hide Entries, Total, Session.Reach, Client.Balanced;
    var cursor: Option<Cursor> := None;
    var all: seq<Entry> := [];
    handle := Grant(0, ROOT);
    Beginning(client.rpc.listings(handle.node));
    for i := 0 to |limits|
      invariant client.Valid()
      invariant client.rpc.serves ==> Follows(client.rpc.listings(handle.node), None, Some(|all|), all, false)
      invariant |all| == Total(Limit, limits[..i])
      invariant cursor.None? ==> all == [] && i == 0
      invariant cursor.Some? && client.rpc.serves ==> path.Some? && client.rpc.Reach(path.value) == Some(handle.node)
      invariant cursor.Some? ==>
                  && client.Readable(cursor.value) && fresh(cursor.value) && fresh(cursor.value.description)
                  && cursor.value.description.handle == handle
                  && (client.rpc.serves ==> Position(cursor.value.cookie) == |all|)
    {
      TotalStep(Limit, limits, i);
      ghost var before := if cursor.Some? then cursor.value.cookie else None;
      var page;
      page, handle := client.List(path, limits[i], cursor);
      if page.Failed? {
        return Failed(page.why), handle;
      }
      if client.rpc.serves {
        Beginning(client.rpc.listings(handle.node));
        FollowsOn(client.rpc.listings(handle.node), None, before, Some(|all| + |page.value.entries|), all, page.value.entries,
          page.value.next.None?);
      }
      all := all + page.value.entries;
      if page.value.next.None? {
        return Done((all, true)), handle;
      }
      cursor := page.value.next;
    }
    PrefixWhole(limits);
    return Done((all, false)), handle;
  }

  lemma Beginning(listing: Listing)
    ensures Follows(listing, None, None, [], false) && Follows(listing, None, Some(0), [], false)
  {
  }

  // ----- whole runs -----

  /** Anything a caller may do next. */
  datatype Operation =
    | OpenPath(path: Option<seq<Bytes>>)
    | ListPath(path: Option<seq<Bytes>>, limit: int)
    | Resume(cursor: nat, limit: int)
    | CloseFile(file: nat)
    | CloseCursor(cursor: nat)
    | LoseSession
    | EndSession

  /** What a caller holds. */
  ghost predicate Holds(client: Client, files: seq<File>, cursors: seq<Cursor>)
    reads client, cursors
  {
    && (forall i :: 0 <= i < |files| ==> files[i].description in client.issued && files[i].description.client == client)
    && (forall i :: 0 <= i < |cursors| ==> client.Readable(cursors[i]))
  }

  lemma ValidBounds(client: Client)
    requires client.Valid()
    ensures client.fatal || client.Balanced({})
    ensures client.rpc.peak <= 2 && client.rpc.detaches <= 1
  {
    hide Client.Balanced;
  }

  /** After any sequence of operations, whatever the authority answered to each
      call and whenever the keepalive worker ended the session: it is terminal or its
      accounts balance, at most two item capabilities were ever out, and it detached
      at most once. */
  method AnyRun(client: Client, operations: seq<Operation>)
    requires client.Valid()
    modifies client, client.rpc
    ensures client.fatal || client.Balanced({})
    ensures client.rpc.peak <= 2 && client.rpc.detaches <= 1
    ensures old(client.fatal) ==> client.fatal
  {
    hide Client.Valid, Client.Names, Follows, Session.Reach;
    var files: seq<File> := [];
    var cursors: seq<Cursor> := [];
    for i := 0 to |operations|
      invariant client.Valid() && Holds(client, files, cursors) && (old(client.fatal) ==> client.fatal)
      invariant forall j :: 0 <= j < |files| ==> fresh(files[j]) && fresh(files[j].description)
      invariant forall j :: 0 <= j < |cursors| ==> fresh(cursors[j]) && fresh(cursors[j].description)
    {
      match operations[i]
      case OpenPath(path) =>
        var file := client.OpenFile(path);
        if file.Done? {
          files := files + [file.value];
        }
      case ListPath(path, limit) =>
        var page;
        ghost var handle;
        page, handle := client.List(path, limit, None);
        if page.Done? && page.value.next.Some? {
          cursors := cursors + [page.value.next.value];
        }
      case Resume(cursor, limit) =>
        if cursor < |cursors| {
          var page;
          ghost var handle;
          page, handle := client.List(None, limit, Some(cursors[cursor]));
        }
      case CloseFile(file) =>
        if file < |files| {
          var ok := files[file].Close();
        }
      case CloseCursor(cursor) =>
        if cursor < |cursors| {
          var ok := cursors[cursor].Close();
        }
      case LoseSession =>
        client.Keepalive();
      case EndSession =>
        var ok := client.Close();
    }
    ValidBounds(client);
  }
}
