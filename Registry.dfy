/** The client registry: a doubly linked list of client records hanging off
    one global list head. Every accepted connection is pushed at the head;
    a handler unlinks its own record when it tears down. Each locked region of
    the source is one sequential operation here. */
module Registry {
  import opened Frame

  /** `client_t`: one accepted connection. */
  class Client {
    var username: seq<byte>
    const fd: int
    var next: Client?
    var prev: Client?

    /** The record `main` allocates for an accepted connection: an all-zero
        username (not joined) and no links. */
    constructor (fd: int)
      ensures username == seq(UsernameFieldWidth, _ => 0)
      ensures |username| == UsernameFieldWidth && username[0] == 0
      ensures this.fd == fd && next == null && prev == null
    {
      username := seq(UsernameFieldWidth, _ => 0);
      this.fd := fd;
      next, prev := null, null;
    }
  }

  /** What the dispatcher observes of a listed client. */
  datatype Peer = Peer(fd: int, username: seq<byte>)

  /** Position of `c` in a list of distinct clients. */
  function IndexOf(s: seq<Client>, c: Client): (k: nat)
    requires c in s
    ensures k < |s| && s[k] == c
    ensures c !in s[..k]
  {
    if s[0] == c then 0 else 1 + IndexOf(s[1..], c)
  }

  /** `s` with the client `c` taken out, the others in their order. */
  function Without(s: seq<Client>, c: Client): (r: seq<Client>)
    requires c in s
    ensures |r| == |s| - 1
    ensures forall i :: 0 <= i < |r| ==> r[i] == (if i < IndexOf(s, c) then s[i] else s[i + 1])
  {
    var k := IndexOf(s, c);
    s[..k] + s[k + 1..]
  }

  predicate Distinct(s: seq<Client>)
  {
    forall i, j :: 0 <= i < j < |s| ==> s[i] != s[j]
  }

  /** Removing one client from a list without duplicates removes exactly that
      client and keeps the list free of duplicates. */
  lemma WithoutMembers(s: seq<Client>, c: Client)
    requires c in s && Distinct(s)
    ensures |Without(s, c)| == |s| - 1
    ensures Distinct(Without(s, c))
    ensures forall x :: x in Without(s, c) <==> x in s && x != c
  {
    var k := IndexOf(s, c);
    var r := Without(s, c);
    forall x
      ensures x in r <==> x in s && x != c
    {
      if x in r {
        var i :| 0 <= i < |r| && r[i] == x;
        if i < k { assert s[i] == x && i != k; } else { assert s[i + 1] == x && i + 1 != k; }
      }
      if x in s && x != c {
        var i :| 0 <= i < |s| && s[i] == x;
        if i < k { assert r[i] == x; } else { assert i != k && r[i - 1] == x; }
      }
    }
  }

  /** Node `i` of `ns` points forward to node `i + 1` and back to node
      `i - 1` (null at the ends), and its username has the field width. */
  ghost predicate LinkedAt(ns: seq<Client>, i: int)
    reads ns
    requires 0 <= i < |ns|
  {
    && ns[i].next == (if i + 1 < |ns| then ns[i + 1] else null)
    && ns[i].prev == (if i == 0 then null else ns[i - 1])
    && |ns[i].username| == UsernameFieldWidth
  }

  /** `client_list_t`: the list head, with the ghost sequence of the nodes
      reachable from it. */
  class ClientList {
    var head: Client?
    ghost var Nodes: seq<Client>

    /** The links are exactly those of a doubly linked list over `Nodes`, and
        every node's username field has its fixed width. */
    ghost predicate Valid()
      reads this, Nodes
      ensures Valid() ==> (head == null <==> Nodes == [])
    {
      && Distinct(Nodes)
      && head == (if Nodes == [] then null else Nodes[0])
      && forall i {:trigger LinkedAt(Nodes, i)} :: 0 <= i < |Nodes| ==> LinkedAt(Nodes, i)
    }

    /** The fds and usernames of the listed clients, head first. */
    ghost function Peers(): (r: seq<Peer>)
      reads this, Nodes
      ensures |r| == |Nodes|
      ensures forall i {:trigger r[i]} :: 0 <= i < |Nodes| ==> r[i] == Peer(Nodes[i].fd, Nodes[i].username)
    {
      var ns := Nodes;
      seq(|ns|, i reads ns requires 0 <= i < |ns| => Peer(ns[i].fd, ns[i].username))
    }

    /** The list `main` starts with: no clients. */
    constructor ()
      ensures Valid() && Nodes == [] && head == null
    {
      head := null;
      Nodes := [];
    }

    /** Insert a newly accepted client at the head. */
    method Insert(c: Client)
      requires Valid()
      requires c !in Nodes && c.next == null && c.prev == null
      requires |c.username| == UsernameFieldWidth
      modifies this, c, head
      ensures Valid()
      ensures Nodes == [c] + old(Nodes)
      ensures head == c && c.next == old(head) && c.prev == null
      ensures old(head) != null ==> old(head).prev == c
      ensures Peers() == [Peer(c.fd, c.username)] + old(Peers())
      ensures c.username == old(c.username)
    {
      ghost var s := Nodes;
      ghost var ps := Peers();
      var h := head;
      if h != null {
        c.next := h;
        h.prev := c;
      }
      head := c;
      Nodes := [c] + s;
      assert Distinct(Nodes) by {
        forall i, j | 0 <= i < j < |Nodes|
          ensures Nodes[i] != Nodes[j]
        {
          assert Nodes[j] == s[j - 1];
          if i > 0 { assert Nodes[i] == s[i - 1]; }
        }
      }
      assert forall i {:trigger LinkedAt(Nodes, i)} :: 0 <= i < |Nodes| ==> LinkedAt(Nodes, i) by {
        forall i | 0 <= i < |Nodes|
          ensures LinkedAt(Nodes, i)
        {
          if i > 0 {
            assert Nodes[i] == s[i - 1] && s[i - 1] in old(Nodes);
            assert old(LinkedAt(s, i - 1));
            if i + 1 < |Nodes| {
              assert Nodes[i + 1] == s[i];
            }
          } else if h != null {
            assert old(LinkedAt(s, 0));
          }
        }
      }
      assert Peers() == [Peer(c.fd, c.username)] + ps by {
        var r := Peers();
        forall i | 0 <= i < |r|
          ensures r[i] == ([Peer(c.fd, c.username)] + ps)[i]
        {
          if i > 0 {
            assert Nodes[i] == s[i - 1] && s[i - 1] != c;
          }
        }
      }
    }

    /** One round of the accept loop: a failed `accept` (fd -1) frees the
        record and leaves the list alone; otherwise the zeroed record for the
        new connection is pushed at the head. */
    method Accept(fd: int) returns (c: Client?)
      requires Valid()
      modifies this, head
      ensures Valid()
      ensures fd == -1 ==> c == null && Nodes == old(Nodes) && head == old(head)
      ensures fd != -1 ==> c != null && fresh(c) && Nodes == [c] + old(Nodes) && head == c
      ensures fd != -1 ==> c != null && c.fd == fd && c.username == seq(UsernameFieldWidth, _ => 0)
      ensures fd != -1 ==> c != null && Peers() == [Peer(fd, c.username)] + old(Peers())
    {
      if fd == -1 {
        return null;
      }
      c := new Client(fd);
      Insert(c);
    }

    /** The handler's teardown: unlink `c` by rewiring its neighbours and, if
        it was the head, the list head. `c` keeps its own stale links. */
    method Remove(c: Client)
      requires Valid() && c in Nodes
      modifies this, c.next, c.prev
      ensures Valid()
      ensures Nodes == Without(old(Nodes), c)
      ensures head == (if old(head) == c then old(c.next) else old(head))
      ensures c.next == old(c.next) && c.prev == old(c.prev)
      ensures forall n :: n in old(Nodes) ==> n.username == old(n.username)
    {
      ghost var s := Nodes;
      ghost var k := IndexOf(s, c);
      var nx, pv := c.next, c.prev;
      assert LinkedAt(s, k);
      assert k > 0 ==> LinkedAt(s, k - 1);
      assert k + 1 < |s| ==> LinkedAt(s, k + 1);
      assert head == c <==> k == 0;
      if nx != null {
        nx.prev := pv;
      }
      if pv != null {
        pv.next := nx;
      }
      if head == c {
        head := nx;
      }
      Nodes := s[..k] + s[k + 1..];
      assert Distinct(Nodes) by {
        WithoutMembers(s, c);
      }
      forall i | 0 <= i < |Nodes|
        ensures LinkedAt(Nodes, i)
      {
        var j := if i < k then i else i + 1;
        assert Nodes[i] == s[j] && j != k;
        assert old(LinkedAt(s, j));
        if i + 1 < |Nodes| {
          assert Nodes[i + 1] == s[j + 1] || j + 1 == k;
        }
        if pv != null && j + 1 != k { assert s[j] != pv; }
        if nx != null && j != k + 1 { assert s[j] != nx; }
      }
    }
  }

  /** Between two states with the same nodes, the same `Peers()` means that
      no listed client's username changed. */
  twostate lemma SamePeersSameNames(reg: ClientList)
    requires old(reg.Nodes) == reg.Nodes && old(reg.Peers()) == reg.Peers()
    ensures forall n :: n in reg.Nodes ==> n.username == old(n.username)
  {
    forall n | n in reg.Nodes
      ensures n.username == old(n.username)
    {
      var k :| 0 <= k < |reg.Nodes| && reg.Nodes[k] == n;
      assert reg.Peers()[k] == old(reg.Peers())[k];
    }
  }
}
