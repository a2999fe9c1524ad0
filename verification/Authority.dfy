/**
The authority a read-only client talks to, as far as ownership goes: what each
request may grant or take back, under every outcome a call can have
(the authorityClient interface of vcs/readonlyfs/client.go).
 */
module Authority {
  import opened Basics

  datatype Kind = Directory | Regular | Symlink | Opaque

  /** Attributes as the wire carries them. */
  datatype RawAttr = RawAttr(inode: u64, kind: Kind, size: i64)

  /** An item capability or a handle. Its holder cannot look into it; to the
      authority it names a node. */
  datatype Grant = Grant(serial: nat, node: nat)

  /** No parent or no item means the root, whose capability the session never gives
      back. */
  datatype Request =
    | Lookup(parent: Option<Grant>, name: Bytes)
    | Open(item: Option<Grant>)
    | Reclaim(token: Grant)
    | CloseHandle(handle: Grant)
    | ReadDir(directory: Grant, cookie: Option<nat>, maxEntries: nat)

  datatype RawEntry = RawEntry(attr: Option<RawAttr>, name: Bytes, nextCookie: Option<nat>)

  datatype Body =
    | Nothing
    | Item(token: Option<Grant>, attr: Option<RawAttr>)
    | Opened(handle: Option<Grant>)
    | Listed(verified: bool, entries: seq<RawEntry>, eof: bool)

  /** How a call ended: never sent, lost in transport, or answered; an answer may
      itself be unsettled. */
  datatype Reply =
    | NotSent
    | Broken
    | Answer(missing: bool, uncertain: bool, terminal: bool, errno: nat, body: Body)
  {
    predicate Settled() {
      Answer? && !missing && !uncertain && !terminal
    }

    predicate Succeeded() {
      Settled() && errno == 0
    }
  }

  /** One entry of a fixed directory. */
  datatype DirEntry = DirEntry(attr: RawAttr, name: Bytes)

  predicate WellFormedAttr(a: RawAttr) {
    a.inode != 0 && a.size >= 0
  }

  predicate WellFormedEntry(e: DirEntry) {
    WellFormedAttr(e.attr) && e.name != []
  }

  type Listing = s: seq<DirEntry> | forall i :: 0 <= i < |s| ==> WellFormedEntry(s[i])

  /** Entry i of a listing as a page carries it; its cookie resumes after it. */
  function RawOf(listing: Listing, i: nat): RawEntry
    requires i < |listing|
  {
    RawEntry(Some(listing[i].attr), listing[i].name, Some(i + 1))
  }

  function Position(cookie: Option<nat>): nat {
    match cookie
    case None => 0
    case Some(n) => n
  }

  /** A page of a directory served in cookie order: the next entries from the
      cookie, at least one unless none is left, eof only at the end. */
  predicate ServesPage(listing: Listing, cookie: Option<nat>, maxEntries: nat, body: Body) {
    && body.Listed? && body.verified && |body.entries| <= maxEntries
    && Position(cookie) + |body.entries| <= |listing|
    && (forall i :: 0 <= i < |body.entries| ==> body.entries[i] == RawOf(listing, Position(cookie) + i))
    && (body.eof ==> Position(cookie) + |body.entries| == |listing|)
    && (!body.eof ==> body.entries != [])
  }

  const ROOT: nat := 0
  const ENOENT: nat := 2

  /** A session with the authority. items and handles are what it has granted this
      session and not taken back; peak is the most item capabilities out at once,
      and detaches how often it was asked to let the session go. */
  class Session {
    const root: Option<RawAttr>
    const serves: bool  // answers come from the fixed tree below
    const attrs: nat -> RawAttr
    const child: (nat, Bytes) -> Option<nat>
    const listings: nat -> Listing
    var items: set<Grant>
    var handles: set<Grant>
    var next: nat
    var peak: nat
    var connected: bool
    var detaches: nat

    /** Grants are numbered, so an outstanding one is never granted again. */
    ghost predicate Numbered()
      reads this
    {
      forall x :: x in items || x in handles ==> x.serial < next
    }

    constructor (fixed: bool, rootAttr: Option<RawAttr>, nodes: nat -> RawAttr, tree: (nat, Bytes) -> Option<nat>,
                 served: nat -> Listing)
      requires fixed ==> rootAttr == Some(nodes(ROOT))
      ensures items == {} && handles == {} && peak == 0 && Numbered() && connected && detaches == 0 && Rooted()
    {
      serves, root, attrs, child, listings := fixed, rootAttr, nodes, tree, served;
      items, handles, next, peak, connected, detaches := {}, {}, 0, 0, true, 0;
    }

    /** A fixed tree's root has the attributes the session reports for it. */
    predicate Rooted() {
      serves ==> root == Some(attrs(ROOT))
    }

    /** The node a request starts from. */
    function Node(item: Option<Grant>): nat {
      if item.None? then ROOT else item.value.node
    }

    /** The node a path leads to, component by component from the root. */
    function Reach(path: seq<Bytes>): Option<nat> {
      if path == [] then Some(ROOT)
      else
        var parent :- Reach(path[..|path| - 1]);
        child(parent, path[|path| - 1])
    }

    lemma ReachRoot()
      ensures Reach([]) == Some(ROOT)
    {
    }

    lemma ReachStep(path: seq<Bytes>, i: nat)
      requires i < |path|
      ensures Reach(path[..i + 1]) == if Reach(path[..i]).None? then None else child(Reach(path[..i]).value, path[i])
    {
      assert path[..i + 1][..i] == path[..i];
    }

    /** Where a prefix of a path leads nowhere, the path does not lead anywhere. */
    lemma {:induction false} DeadEnd(path: seq<Bytes>, n: nat)
      requires n <= |path| && Reach(path[..n]).None?
      ensures Reach(path).None?
      decreases |path| - n
    {
      if n < |path| {
        assert path[..n + 1][..n] == path[..n];
        DeadEnd(path, n + 1);
      } else {
        assert path[..n] == path;
      }
    }

    /** The session holds what a request uses. */
    predicate Holds(request: Request)
      reads `items, `handles
    {
      match request
      case Lookup(parent, _) => parent.Some? ==> parent.value in items
      case Open(item) => item.Some? ==> item.value in items
      case Reclaim(token) => token in items
      case CloseHandle(handle) => handle in handles
      case ReadDir(directory, _, _) => directory in handles
    }

    /** Nothing was granted or taken back. */
    twostate predicate Untouched()
      reads this
    {
      items == old(items) && handles == old(handles) && peak == old(peak) && next == old(next)
    }

    /** What a settled success means: exactly the named grant, or the named return.
        An answer that names no grant says nothing about what was granted. */
    twostate predicate Effect(request: Request, body: Body)
      reads this
    {
      match request
      case Lookup(parent, name) =>
        && old(items) <= items && handles == old(handles)
        && (body.Item? && body.token.Some? ==>
              && body.token.value !in old(items)
              && items == old(items) + {body.token.value}
              && peak == if old(peak) < |items| then |items| else old(peak))
        && (serves ==>
              && child(Node(parent), name).Some? && body.Item? && body.token.Some?
              && body.token.value.node == child(Node(parent), name).value
              && body.attr == Some(attrs(child(Node(parent), name).value)))
      case Open(item) =>
        && items == old(items) && peak == old(peak) && old(handles) <= handles
        && (body.Opened? && body.handle.Some? ==>
              && body.handle.value !in old(handles)
              && handles == old(handles) + {body.handle.value})
        && (serves ==> body.Opened? && body.handle.Some? && body.handle.value.node == Node(item))
      case Reclaim(token) =>
        items == old(items) - {token} && handles == old(handles) && peak == old(peak)
      case CloseHandle(handle) =>
        handles == old(handles) - {handle} && items == old(items) && peak == old(peak)
      case ReadDir(directory, cookie, maxEntries) =>
        && items == old(items) && handles == old(handles) && peak == old(peak)
        && (serves ==> ServesPage(listings(directory.node), cookie, maxEntries, body))
    }

    /** One request for something the session holds. A settled refusal and a call never
        sent change nothing; after an unsettled outcome the request may or may not
        have been carried out. A fixed tree reports a missing name exactly when it has
        none. */
    method Call(request: Request) returns (reply: Reply)
      requires Numbered() && connected && Holds(request)
      requires request.ReadDir? && serves ==>
                 0 < request.maxEntries && Position(request.cookie) <= |listings(request.directory.node)|
      modifies `items, `handles, `next, `peak
      ensures Numbered()
      ensures peak <= if request.Lookup? && old(peak) <= |old(items)| then |old(items)| + 1 else old(peak)
      ensures reply.NotSent? || (reply.Settled() && reply.errno != 0) ==> Untouched()
      ensures reply.Succeeded() ==> Effect(request, reply.body)
      ensures serves && request.Lookup? && reply.Settled() && reply.errno == ENOENT ==>
                child(Node(request.parent), request.name).None?
    {
      reply := *;
      var carried: bool := *;
      if serves && request.Lookup? && reply.Settled() {
        if child(Node(request.parent), request.name).None? {
          reply := reply.(errno := ENOENT);
        } else if reply.errno == ENOENT {
          reply := reply.(errno := 0);
        }
      }
      if reply.NotSent? || (reply.Settled() && reply.errno != 0) || (!reply.Settled() && !carried) {
        return;
      }
      match request
      case Lookup(parent, name) =>
        var found := child(Node(parent), name);
        var node := AnyNode();
        if serves && found.Some? {
          node := found.value;
        }
        if reply.Succeeded() && (serves || (reply.body.Item? && reply.body.token.Some?)) {
          var attr := if serves then Some(attrs(node)) else if reply.body.Item? then reply.body.attr else None;
          reply := reply.(body := Item(Some(Grant(next, node)), attr));
          carried := true;
        }
        if carried {
          items, next := items + {Grant(next, node)}, next + 1;
          peak := if peak < |items| then |items| else peak;
        }
      case Open(item) =>
        if reply.Succeeded() && (serves || (reply.body.Opened? && reply.body.handle.Some?)) {
          reply := reply.(body := Opened(Some(Grant(next, Node(item)))));
          carried := true;
        }
        if carried {
          handles, next := handles + {Grant(next, Node(item))}, next + 1;
        }
      case Reclaim(token) =>
        items := items - {token};
      case CloseHandle(handle) =>
        handles := handles - {handle};
      case ReadDir(directory, cookie, maxEntries) =>
        if serves && reply.Succeeded() {
          var page := NextPage(listings(directory.node), cookie, maxEntries);
          reply := reply.(body := page);
        }
    }

    /** The authenticated departure: once it succeeds the authority has taken back
        everything it granted this session. */
    method Detach() returns (ok: bool)
      requires connected
      modifies `items, `handles, `detaches
      ensures detaches == old(detaches) + 1
      ensures ok ==> items == {} && handles == {}
    {
      ok := *;
      detaches := detaches + 1;
      var carried: bool := *;
      if ok || carried {
        items, handles := {}, {};
      }
    }

    /** Closes the connection; nothing can be asked of this session any more. */
    method Disconnect() returns (ok: bool)
      modifies `connected
      ensures !connected
    {
      ok := *;
      connected := false;
    }
  }

  /** Any node at all. */
  method AnyNode() returns (node: nat)
  {
    var wish: int := *;
    node := if wish < 0 then 0 else wish;
  }

  /** Any page a fixed directory may be served in. */
  method NextPage(listing: Listing, cookie: Option<nat>, maxEntries: nat) returns (page: Body)
    requires 0 < maxEntries && Position(cookie) <= |listing|
    ensures ServesPage(listing, cookie, maxEntries, page)
  {
    var from := Position(cookie);
    var left := |listing| - from;
    var wish: int := *;
    var count := if wish < 1 then 1 else if wish > maxEntries then maxEntries else wish;
    if count > left {
      count := left;
    }
    var last: bool := *;
    var eof := left == 0 || (last && count == left);
    var entries := seq(count, i requires 0 <= i < count => RawOf(listing, from + i));
    return Listed(true, entries, eof);
  }
}
