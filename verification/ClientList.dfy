/** The server's clients: a doubly linked list threaded through the connections. */
module ClientList {
  class Client {
    var prev: Client?
    var next: Client?
    /** How often the client was told to disconnect. */
    var notices: nat

    constructor ()
      ensures prev == null && next == null && notices == 0
    {
      prev, next, notices := null, null, 0;
    }
  }

  /** `s` without its element `k`. */
  function Without<T>(s: seq<T>, k: nat): seq<T>
    requires k < |s|
  {
    s[..k] + s[k + 1..]
  }

  predicate Distinct<T(==)>(s: seq<T>) {
    forall i, j :: 0 <= i < j < |s| ==> s[i] != s[j]
  }

  // ------------------------------------------------------ what happens to the list

  datatype Op<T> = Adopt(client: T) | Close(client: T)

  function IndexOf<T(==)>(s: seq<T>, x: T): (k: nat)
    requires x in s
    ensures k < |s| && s[k] == x
  {
    if s[0] == x then 0 else 1 + IndexOf(s[1..], x)
  }

  /** What adopting and closing a client do to the list. */
  function After<T(==)>(s: seq<T>, op: Op<T>): seq<T> {
    match op
    case Adopt(c) => if c in s then s else [c] + s
    case Close(c) => if c in s then Without(s, IndexOf(s, c)) else s
  }

  function AfterAll<T(==)>(ops: seq<Op<T>>): seq<T> {
    if ops == [] then [] else After(AfterAll(ops[..|ops| - 1]), ops[|ops| - 1])
  }

  /** Adopted, and not closed since. */
  predicate Open<T(==)>(ops: seq<Op<T>>, c: T) {
    exists i :: 0 <= i < |ops| && ops[i] == Adopt(c) && forall j :: i < j < |ops| ==> ops[j] != Close(c)
  }

  lemma WithoutMembers<T>(s: seq<T>, k: nat)
    requires Distinct(s) && k < |s|
    ensures Distinct(Without(s, k))
    ensures forall c :: c in Without(s, k) <==> c in s && c != s[k]
  {
    var t := Without(s, k);
    forall c ensures c in t <==> c in s && c != s[k] {
      if c in s && c != s[k] {
        var i :| 0 <= i < |s| && s[i] == c;
        assert t[if i < k then i else i - 1] == c;
      }
      if c in t {
        var i :| 0 <= i < |t| && t[i] == c;
        assert s[if i < k then i else i + 1] == c;
      }
    }
  }

  lemma OpenSnoc<T>(ops: seq<Op<T>>, op: Op<T>, c: T)
    ensures Open(ops + [op], c) <==> op == Adopt(c) || (Open(ops, c) && op != Close(c))
  {
    var more := ops + [op];
    assert more[|ops|] == op && forall i :: 0 <= i < |ops| ==> more[i] == ops[i];
    if Open(ops, c) && op != Close(c) {
      var i :| 0 <= i < |ops| && ops[i] == Adopt(c) && forall j :: i < j < |ops| ==> ops[j] != Close(c);
      assert more[i] == Adopt(c) && forall j :: i < j < |more| ==> more[j] != Close(c);
    }
    if Open(more, c) && op != Adopt(c) {
      var i :| 0 <= i < |more| && more[i] == Adopt(c) && forall j :: i < j < |more| ==> more[j] != Close(c);
      assert ops[i] == Adopt(c) && forall j :: i < j < |ops| ==> ops[j] == more[j];
    }
  }

  /** After any sequence of adoptions and closings the list holds exactly the clients
      adopted and not yet closed, each once. */
  lemma {:induction false} ListHoldsOpenClients<T>(ops: seq<Op<T>>, c: T)
    ensures Distinct(AfterAll(ops))
    ensures c in AfterAll(ops) <==> Open(ops, c)
  {
    if ops != [] {
      var init, op := ops[..|ops| - 1], ops[|ops| - 1];
      ListHoldsOpenClients(init, c);
      assert ops == init + [op];
      OpenSnoc(init, op, c);
      if op.Close? && op.client in AfterAll(init) {
        WithoutMembers(AfterAll(init), IndexOf(AfterAll(init), op.client));
      }
    }
  }

  lemma WithoutAt<T>(s: seq<T>, k: nat)
    requires k < |s|
    ensures |Without(s, k)| == |s| - 1
    ensures forall i :: 0 <= i < |s| - 1 ==> Without(s, k)[i] == s[if i < k then i else i + 1]
  {
  }

  lemma WithoutDistinct<T>(s: seq<T>, k: nat)
    requires Distinct(s) && k < |s|
    ensures Distinct(Without(s, k)) && s[k] !in Without(s, k)
  {
    WithoutMembers(s, k);
  }

  lemma WithoutFirst<T>(s: seq<T>)
    requires s != []
    ensures Without(s, 0) == s[1..]
  {
  }

  lemma IndexInDistinct<T>(s: seq<T>, k: nat)
    requires Distinct(s) && k < |s|
    ensures IndexOf(s, s[k]) == k
  {
    assert s[IndexOf(s, s[k])] == s[k];
  }

  lemma AdoptThenClose<T>(s: seq<T>, c: T)
    requires c !in s
    ensures After(After(s, Adopt(c)), Close(c)) == s
  {
    assert Without([c] + s, 0) == s;
  }

  lemma AfterAllSnoc<T>(ops: seq<Op<T>>, op: Op<T>)
    ensures AfterAll(ops + [op]) == After(AfterAll(ops), op)
  {
    assert (ops + [op])[..|ops|] == ops;
  }

  lemma AfterAllAccept<T>(ops: seq<Op<T>>, setUp: bool, c: T)
    ensures AfterAll(ops + if setUp then [Adopt(c)] else [Adopt(c), Close(c)]) ==
            if setUp then After(AfterAll(ops), Adopt(c)) else After(After(AfterAll(ops), Adopt(c)), Close(c))
  {
    AfterAllSnoc(ops, Adopt(c));
    if !setUp {
      AfterAllSnoc(ops + [Adopt(c)], Close(c));
      assert ops + [Adopt(c)] + [Close(c)] == ops + [Adopt(c), Close(c)];
    }
  }

  datatype Request = Accept(setUp: bool) | Hangup(at: nat)

  /** A connection is adopted, and closed again when setting it up fails; a client
      hangs up only while it is open. */
  ghost predicate Served<T>(requests: seq<Request>, ops: seq<Op<T>>)
    decreases |requests|
  {
    if requests == [] then ops == []
    else
      var n, before := |ops|, requests[..|requests| - 1];
      match requests[|requests| - 1]
      case Accept(true) => n > 0 && ops[n - 1].Adopt? && Served(before, ops[..n - 1])
      case Accept(false) =>
        n > 1 && ops[n - 2].Adopt? && ops[n - 1] == Close(ops[n - 2].client) && Served(before, ops[..n - 2])
      case Hangup(at) =>
        || (at >= |AfterAll(ops)| && Served(before, ops))
        || (n > 0 && var open := AfterAll(ops[..n - 1]);
                     at < |open| && ops[n - 1] == Close(open[at]) && Served(before, ops[..n - 1]))
  }

  /** What one request adds to the record. */
  ghost predicate Adds<T>(request: Request, ops: seq<Op<T>>, more: seq<Op<T>>) {
    match request
    case Accept(setUp) =>
      && |more| > |ops| && more[|ops|].Adopt?
      && more == ops + if setUp then [more[|ops|]] else [more[|ops|], Close(more[|ops|].client)]
    case Hangup(at) =>
      more == ops + if at < |AfterAll(ops)| then [Close(AfterAll(ops)[at])] else []
  }

  lemma ServedSnoc<T>(requests: seq<Request>, request: Request, ops: seq<Op<T>>, more: seq<Op<T>>)
    requires Served(requests, ops) && Adds(request, ops, more)
    ensures Served(requests + [request], more)
  {
    assert (requests + [request])[..|requests|] == requests;
    assert more[..|ops|] == ops && ops + [] == ops;
  }

  lemma ServedNext<T>(requests: seq<Request>, i: nat, ops: seq<Op<T>>, more: seq<Op<T>>)
    requires i < |requests| && Served(requests[..i], ops) && Adds(requests[i], ops, more)
    ensures Served(requests[..i + 1], more)
  {
    ServedSnoc(requests[..i], requests[i], ops, more);
    assert requests[..i + 1] == requests[..i] + [requests[i]];
  }

  // ------------------------------------------------------------------- the server

  lemma ListIsOpenClients(ops: seq<Op<Client>>)
    ensures forall c: Client :: c in AfterAll(ops) <==> Open(ops, c)
  {
    forall c: Client ensures c in AfterAll(ops) <==> Open(ops, c) {
      ListHoldsOpenClients(ops, c);
    }
  }

  class Server {
    var clients: Client?
    ghost var list: seq<Client>

    /** The links spell `list` forwards and backwards, and no client is in it twice. */
    ghost predicate Valid()
      reads this, list
    {
      && Distinct(list)
      && clients == (if list == [] then null else list[0])
      && (forall i {:trigger list[i].prev} :: 0 <= i < |list| ==> list[i].prev == if i == 0 then null else list[i - 1])
      && (forall i {:trigger list[i].next} :: 0 <= i < |list| ==>
            list[i].next == if i == |list| - 1 then null else list[i + 1])
    }

    constructor ()
      ensures Valid() && list == []
    {
      clients, list := null, [];
    }

    method LinkClient(cl: Client)
      requires Valid() && cl !in list
      modifies this, cl, clients
      ensures Valid() && list == [cl] + old(list)
      ensures list == After(old(list), Adopt(cl))
      ensures forall c :: c in list ==> c.notices == old(c.notices)
    {
      cl.prev := null;
      cl.next := clients;
      if clients != null {
        clients.prev := cl;
      }
      clients := cl;
      list := [cl] + list;
    }

    method UnlinkClient(cl: Client, ghost k: nat)
      requires Valid() && k < |list| && list[k] == cl
      modifies this, list
      ensures Valid() && list == Without(old(list), k)
      ensures cl.prev == null && cl.next == null && cl !in list
      ensures forall c :: c in old(list) ==> c.notices == old(c.notices)
    {
      ghost var was := list;
      if cl.prev != null {
        cl.prev.next := cl.next;
      } else {
        clients := cl.next;
      }
      if cl.next != null {
        cl.next.prev := cl.prev;
      }
      cl.next := null;
      cl.prev := null;
      list := Without(list, k);
      WithoutDistinct(was, k);
      forall i | 0 <= i < |list|
        ensures list[i].prev == (if i == 0 then null else list[i - 1])
        ensures list[i].next == if i == |list| - 1 then null else list[i + 1]
      {
        WithoutAt(was, k);
      }
    }

    method CloseClient(cl: Client, ghost k: nat)
      requires Valid() && k < |list| && list[k] == cl
      modifies this, list
      ensures Valid() && list == Without(old(list), k)
      ensures list == After(old(list), Close(cl))
      ensures cl.prev == null && cl.next == null && cl !in list
      ensures forall c :: c in old(list) ==> c.notices == old(c.notices)
    {
      IndexInDistinct(list, k);
      UnlinkClient(cl, k);
    }

    /** Accepting a connection links it first; when setting it up fails it is closed. */
    method AdoptClient(setUp: bool) returns (cl: Client)
      requires Valid()
      modifies this, list
      ensures Valid() && fresh(cl)
      ensures list == if setUp then [cl] + old(list) else old(list)
      ensures list == if setUp then After(old(list), Adopt(cl)) else After(After(old(list), Adopt(cl)), Close(cl))
      ensures forall c :: c in old(list) ==> c.notices == old(c.notices)
    {
      cl := new Client();
      ghost var was := list;
      AdoptThenClose(was, cl);
      LinkClient(cl);
      if !setUp {
        CloseClient(cl, 0);
        assert list == was;
      }
    }

    /** The walk visits every client once, in list order, and changes no link. */
    method BeginShutdown() returns (visited: seq<Client>)
      requires Valid()
      modifies list
      ensures Valid() && list == old(list) && visited == list
      ensures forall c :: c in list ==> c.notices == old(c.notices) + 1
    {
      visited := [];
      var cl := clients;
      while cl != null
        invariant Valid() && list == old(list)
        invariant |visited| <= |list| && visited == list[..|visited|]
        invariant cl == if |visited| < |list| then list[|visited|] else null
        invariant forall i :: 0 <= i < |list| ==>
                    list[i].notices == old(list[i].notices) + if i < |visited| then 1 else 0
        decreases |list| - |visited|
      {
        var next := cl.next;
        cl.notices := cl.notices + 1;
        visited := visited + [cl];
        cl := next;
      }
    }

    method CloseFirst()
      requires Valid() && clients != null
      modifies this, list
      ensures Valid() && list == old(list)[1..]
      ensures old(list)[0].prev == null && old(list)[0].next == null
    {
      WithoutFirst(list);
      CloseClient(clients, 0);
    }

    /** Closing the first client until there is none left. */
    method Destroy()
      requires Valid()
      modifies this, list
      ensures Valid() && list == [] && clients == null
      ensures forall c :: c in old(list) ==> c.prev == null && c.next == null
    {
      ghost var was, closed := list, 0;
      while clients != null
        invariant Valid()
        invariant closed <= |was| && list == was[closed..]
        invariant forall i :: 0 <= i < closed ==> was[i].prev == null && was[i].next == null
        decreases |list|
      {
        CloseFirst();
        assert was[closed..][1..] == was[closed + 1..];
        closed := closed + 1;
      }
    }

    /** One request on a server whose open clients are `open`. */
    method ServeOne(request: Request, open: seq<Client>, ops: seq<Op<Client>>)
      returns (now: seq<Client>, more: seq<Op<Client>>)
      requires Valid() && list == open == AfterAll(ops)
      modifies this, list
      ensures Valid() && list == now == AfterAll(more)
      ensures Adds(request, ops, more)
      ensures forall k :: 0 <= k < |list| ==> list[k] in old(list) || fresh(list[k])
    {
      match request
      case Accept(setUp) =>
        var cl := AdoptClient(setUp);
        AfterAllAccept(ops, setUp, cl);
        now := if setUp then [cl] + open else open;
        more := ops + if setUp then [Adopt(cl)] else [Adopt(cl), Close(cl)];
      case Hangup(at) =>
        now, more := open, ops;
        if at < |open| {
          CloseClient(open[at], at);
          AfterAllSnoc(ops, Close(open[at]));
          now, more := Without(open, at), ops + [Close(open[at])];
        }
    }

    /** Connections come and go: each is set up or not, and any open one may be closed.
        Recorded as adoptions and closings, they make the list what it is. */
    method Serve(requests: seq<Request>) returns (ops: seq<Op<Client>>)
      requires Valid() && list == []
      modifies this
      ensures Valid() && list == AfterAll(ops) && Served(requests, ops)
      ensures forall c: Client :: c in list <==> Open(ops, c)
    {
      ops := [];
      var open: seq<Client> := [];
      for i := 0 to |requests|
        invariant Valid() && list == open == AfterAll(ops)
        invariant forall k :: 0 <= k < |list| ==> fresh(list[k])
        invariant Served(requests[..i], ops)
      {
        ghost var was := ops;
        open, ops := ServeOne(requests[i], open, ops);
        ServedNext(requests, i, was, ops);
      }
      assert requests[..|requests|] == requests;
      ListIsOpenClients(ops);
    }
  }
}
