/** One pass through the handler's `switch`: the received frame is rewritten
    in place and sent to file descriptors taken from the client list. The
    specification functions (`Step` and one per arm) follow the code as
    written, including its defects: UNICAST picks the first client whose name
    DIFFERS from the target, LIST copies the frame's own username field into
    every slot, JOIN compares the list head with the sender's own name, and
    the BROADCAST, JOIN-check and JOIN-notify loops never advance their
    cursor. A loop that would run forever is cut after `fuel` rounds and
    reports `Spin`. */
module Dispatcher {
  import opened Frame
  import opened Registry

  /** A socket call the handler makes. */
  datatype Effect = Send(fd: int, frame: seq<byte>) | Close(fd: int)

  /** Where control goes after the switch: on to the next `recv` (`done:`),
      to `close_connection:`, or nowhere, because a loop never ends. */
  datatype Outcome = Continue | Teardown | Spin

  /** The outcome, the buffer, the sender's username and the sends of one
      dispatch. */
  datatype StepResult = StepResult(outcome: Outcome, frame: seq<byte>, name: seq<byte>, sends: seq<Effect>)

  const RecipientNotFound: seq<byte> := AsciiBytes("recipient not found")
  const AlreadyJoined: seq<byte> := AsciiBytes("you have already joined the server")
  const UsernameTaken: seq<byte> := AsciiBytes("username taken")

  function Repeat(e: Effect, n: nat): (r: seq<Effect>)
    ensures |r| == n && forall k :: 0 <= k < n ==> r[k] == e
  {
    seq(n, _ => e)
  }

  /** Index of the first peer whose username differs from `target` (the
      non-zero `memcmp` test of UNICAST), or `|peers|` if there is none. */
  function FirstDiffering(peers: seq<Peer>, target: seq<byte>): (k: nat)
    ensures k <= |peers|
    ensures forall j :: 0 <= j < k ==> peers[j].username == target
    ensures k < |peers| ==> peers[k].username != target
  {
    if peers == [] then 0
    else if peers[0].username != target then 0
    else 1 + FirstDiffering(peers[1..], target)
  }

  /** `n` copies of the 20-byte name `u`, back to back. */
  function Copies(u: seq<byte>, n: nat): (r: seq<byte>)
    requires |u| == UsernameFieldWidth
    ensures |r| == UsernameFieldWidth * n
  {
    if n == 0 then [] else Copies(u, n - 1) + u
  }

  /** Slot `s` (bytes 20s..20s+19) of `n` copies of `u` is `u`. */
  lemma {:induction false} CopiesSlot(u: seq<byte>, n: nat, s: nat)
    requires |u| == UsernameFieldWidth && s < n
    ensures Copies(u, n)[UsernameFieldWidth * s..UsernameFieldWidth * s + UsernameFieldWidth] == u
  {
    var r := Copies(u, n);
    assert r == Copies(u, n - 1) + u;
    if s < n - 1 {
      CopiesSlot(u, n - 1, s);
      assert r[UsernameFieldWidth * s..UsernameFieldWidth * s + UsernameFieldWidth]
          == Copies(u, n - 1)[UsernameFieldWidth * s..UsernameFieldWidth * s + UsernameFieldWidth];
    } else {
      assert r[UsernameFieldWidth * s..] == u;
    }
  }

  /** The buffer after the LIST loop has run over `n` nodes: the message
      field starts with `n` copies of the frame's username field. */
  function ListReply(f: seq<byte>, n: nat): (r: seq<byte>)
    requires |f| == MaxDataSize && n <= MaxUsers
    ensures |r| == MaxDataSize
  {
    f[..MessageOffset] + Copies(f[UsernameOffset..MessageOffset], n) + f[MessageOffset + UsernameFieldWidth * n..]
  }

  /** One more round of the LIST loop writes the next slot. */
  lemma ListReplyNext(f: seq<byte>, n: nat)
    requires |f| == MaxDataSize && n < MaxUsers
    ensures ListReply(f, n)[UsernameOffset..MessageOffset] == f[UsernameOffset..MessageOffset]
    ensures Overwrite(ListReply(f, n), MessageOffset + UsernameFieldWidth * n, f[UsernameOffset..MessageOffset])
         == ListReply(f, n + 1)
  {
    var u := f[UsernameOffset..MessageOffset];
    var a := ListReply(f, n);
    var b := Overwrite(a, MessageOffset + UsernameFieldWidth * n, u);
    var c := ListReply(f, n + 1);
    assert Copies(u, n + 1) == Copies(u, n) + u;
    forall k | 0 <= k < MaxDataSize
      ensures b[k] == c[k]
    {
      if k < MessageOffset + UsernameFieldWidth * n {
        assert b[k] == a[k];
      }
    }
  }

  /** The sends of a `while (p) send(p->fd, ...)` loop that never advances
      `p`: nothing if `p` starts null, otherwise the same frame to the same
      fd for as long as the loop is allowed to run. */
  function Flood(peers: seq<Peer>, g: seq<byte>, fuel: nat): (r: (Outcome, seq<Effect>))
    ensures r.0 == Spin <==> peers != []
    ensures r.0 != Teardown
    ensures peers == [] ==> r.1 == []
    ensures peers != [] ==> |r.1| == fuel && forall k :: 0 <= k < fuel ==> r.1[k] == Send(peers[0].fd, g)
  {
    if peers == [] then (Continue, []) else (Spin, Repeat(Send(peers[0].fd, g), fuel))
  }

  /** UNICAST: deliver to the first client whose name differs from the
      frame's username field, else reply "recipient not found". */
  function UnicastStep(f: seq<byte>, name: seq<byte>, fd: int, peers: seq<Peer>): (s: StepResult)
    requires |f| == MaxDataSize && |name| == UsernameFieldWidth
    ensures s.outcome == Continue && s.name == name && |s.sends| == 1
    ensures s.sends[0].Send? && s.sends[0].frame == s.frame && |s.frame| == MaxDataSize
    ensures Decode(s.frame).command == Tag(Error) || Decode(s.frame) == Decode(f).(username := name)
  {
    var k := FirstDiffering(peers, f[UsernameOffset..MessageOffset]);
    if k < |peers| then
      var g := WithUsername(f, name);
      StepResult(Continue, g, name, [Send(peers[k].fd, g)])
    else
      var g := WithError(f, RecipientNotFound);
      StepResult(Continue, g, name, [Send(fd, g)])
  }

  /** BROADCAST: stamp the sender's name, then flood the list head. */
  function BroadcastStep(f: seq<byte>, name: seq<byte>, peers: seq<Peer>, fuel: nat): (s: StepResult)
    requires |f| == MaxDataSize && |name| == UsernameFieldWidth
    ensures |s.frame| == MaxDataSize && Decode(s.frame) == Decode(f).(username := name) && s.name == name
    ensures s.outcome != Teardown
    ensures peers == [] ==> s.outcome == Continue && s.sends == []
    ensures peers != [] ==> s.outcome == Spin && |s.sends| == fuel
    ensures peers != [] ==> forall k :: 0 <= k < |s.sends| ==> s.sends[k] == Send(peers[0].fd, s.frame)
  {
    var g := WithUsername(f, name);
    var (o, sends) := Flood(peers, g, fuel);
    StepResult(o, g, name, sends)
  }

  /** LIST: fill one slot per node, then reply to the sender. */
  function ListStep(f: seq<byte>, name: seq<byte>, fd: int, peers: seq<Peer>): (s: StepResult)
    requires |f| == MaxDataSize && |peers| <= MaxUsers
    ensures s.outcome == Continue && s.name == name && s.sends == [Send(fd, s.frame)]
    ensures |s.frame| == MaxDataSize && s.frame[..MessageOffset] == f[..MessageOffset]
  {
    var g := ListReply(f, |peers|);
    StepResult(Continue, g, name, [Send(fd, g)])
  }

  /** JOIN: refuse a sender whose name is set; otherwise the never-advancing
      uniqueness loop looks only at the head (against the sender's own name),
      and only an empty list lets the name be taken and the notify loop run. */
  function JoinStep(f: seq<byte>, name: seq<byte>, fd: int, peers: seq<Peer>, fuel: nat): (s: StepResult)
    requires |f| == MaxDataSize && |name| == UsernameFieldWidth
    ensures s.name == name || (name[0] == 0 && peers == [] && s.name == Decode(f).username)
    ensures s.outcome == Teardown ==> s.sends == [Send(fd, s.frame)]
    ensures |s.sends| <= 1 || s.outcome == Spin
  {
    if name[0] != 0 then
      var g := WithError(f, AlreadyJoined);
      StepResult(Continue, g, name, [Send(fd, g)])
    else if peers != [] && peers[0].username != name then
      var g := WithError(f, UsernameTaken);
      StepResult(Teardown, g, name, [Send(fd, g)])
    else if peers != [] then
      StepResult(Spin, f, name, [])
    else
      var (o, sends) := Flood(peers, f, fuel);
      StepResult(o, f, f[UsernameOffset..MessageOffset], sends)
  }

  /** The whole switch on the command byte. */
  function Step(f: seq<byte>, name: seq<byte>, fd: int, peers: seq<Peer>, fuel: nat): (s: StepResult)
    requires |f| == MaxDataSize && |name| == UsernameFieldWidth && |peers| <= MaxUsers
    ensures |s.frame| == MaxDataSize && |s.name| == UsernameFieldWidth
    ensures forall k :: 0 <= k < |s.sends| ==> s.sends[k].Send?
  {
    match CommandOf(f[0])
    case Some(Unicast) => UnicastStep(f, name, fd, peers)
    case Some(Broadcast) => BroadcastStep(f, name, peers, fuel)
    case Some(List) => ListStep(f, name, fd, peers)
    case Some(Join) => JoinStep(f, name, fd, peers, fuel)
    case Some(Exit) => StepResult(Teardown, f, name, [])
    case _ => StepResult(Continue, f, name, [])
  }

  /** `while (p) { send(p->fd, frame) }` with a cursor that is never
      advanced, cut after `fuel` rounds. */
  method SpinSend(p: Client?, frame: seq<byte>, fuel: nat) returns (spun: bool, sends: seq<Effect>)
    ensures spun <==> p != null
    ensures sends == (if p == null then [] else Repeat(Send(p.fd, frame), fuel))
  {
    sends := [];
    var n := 0;
    while p != null && n < fuel
      invariant 0 <= n <= fuel
      invariant p == null ==> sends == []
      invariant p != null ==> sends == Repeat(Send(p.fd, frame), n)
    {
      sends := sends + [Send(p.fd, frame)];
      n := n + 1;
    }
    spun := p != null;
  }

  /** The UNICAST arm. */
  method UnicastArm(reg: ClientList, client: Client, buf: array<byte>) returns (o: Outcome, sends: seq<Effect>)
    requires reg.Valid() && buf.Length == MaxDataSize && |client.username| == UsernameFieldWidth
    modifies buf
    ensures var s := UnicastStep(old(buf[..]), client.username, client.fd, reg.Peers());
      o == s.outcome && buf[..] == s.frame && sends == s.sends
  {
    ghost var f := buf[..];
    ghost var peers := reg.Peers();
    ghost var target := f[UsernameOffset..MessageOffset];
    ghost var i := 0;
    var p := reg.head;
    while p != null
      invariant 0 <= i <= |reg.Nodes|
      invariant p == (if i < |reg.Nodes| then reg.Nodes[i] else null)
      invariant forall j :: 0 <= j < i ==> peers[j].username == target
      invariant buf[..] == f
      decreases |reg.Nodes| - i
    {
      assert LinkedAt(reg.Nodes, i);
      assert peers[i] == Peer(p.fd, p.username);
      if p.username != buf[UsernameOffset..MessageOffset] {
        Write(buf, UsernameOffset, client.username);
        sends := [Send(p.fd, buf[..])];
        o := Continue;
        assert FirstDiffering(peers, target) == i;
        return;
      }
      p := p.next;
      i := i + 1;
    }
    assert FirstDiffering(peers, target) == |peers|;
    buf[0] := Tag(Error);
    Write(buf, MessageOffset, RecipientNotFound + [0]);
    sends := [Send(client.fd, buf[..])];
    o := Continue;
  }

  /** The LIST arm: `memcpy(m, instruction->username, 20)` per node. */
  method ListArm(reg: ClientList, client: Client, buf: array<byte>) returns (o: Outcome, sends: seq<Effect>)
    requires reg.Valid() && |reg.Nodes| <= MaxUsers && buf.Length == MaxDataSize
    modifies buf
    ensures var s := ListStep(old(buf[..]), client.username, client.fd, reg.Peers());
      o == s.outcome && buf[..] == s.frame && sends == s.sends
  {
    ghost var f := buf[..];
    ghost var i := 0;
    var p := reg.head;
    var m := MessageOffset;
    while p != null
      invariant 0 <= i <= |reg.Nodes|
      invariant p == (if i < |reg.Nodes| then reg.Nodes[i] else null)
      invariant m == MessageOffset + UsernameFieldWidth * i
      invariant buf[..] == ListReply(f, i)
      decreases |reg.Nodes| - i
    {
      assert LinkedAt(reg.Nodes, i);
      ListReplyNext(f, i);
      Write(buf, m, buf[UsernameOffset..MessageOffset]);
      p := p.next;
      m := m + UsernameFieldWidth;
      i := i + 1;
    }
    sends := [Send(client.fd, buf[..])];
    o := Continue;
  }

  /** The JOIN arm. */
  method JoinArm(reg: ClientList, client: Client, buf: array<byte>, fuel: nat) returns (o: Outcome, sends: seq<Effect>)
    requires reg.Valid() && buf.Length == MaxDataSize && |client.username| == UsernameFieldWidth
    modifies buf, client`username
    ensures reg.Valid() && reg.Peers() == old(reg.Peers())
    ensures var s := JoinStep(old(buf[..]), old(client.username), client.fd, old(reg.Peers()), fuel);
      o == s.outcome && buf[..] == s.frame && client.username == s.name && sends == s.sends
  {
    if client.username[0] != 0 {
      buf[0] := Tag(Error);
      Write(buf, MessageOffset, AlreadyJoined + [0]);
      sends := [Send(client.fd, buf[..])];
      o := Continue;
      return;
    }
    ghost var f := buf[..];
    var p := reg.head;
    var n := 0;
    while p != null
      invariant 0 <= n <= fuel
      invariant buf[..] == f
      decreases fuel - n
    {
      if p.username != client.username {
        buf[0] := Tag(Error);
        Write(buf, MessageOffset, UsernameTaken + [0]);
        sends := [Send(client.fd, buf[..])];
        o := Teardown;
        return;
      }
      if n == fuel {
        sends := [];
        o := Spin;
        return;
      }
      n := n + 1;
    }
    client.username := buf[UsernameOffset..MessageOffset];
    var spun;
    spun, sends := SpinSend(reg.head, buf[..], fuel);
    o := if spun then Spin else Continue;
  }

  /** The switch of `client_handler` on the received buffer. */
  method Dispatch(reg: ClientList, client: Client, buf: array<byte>, fuel: nat) returns (o: Outcome, sends: seq<Effect>)
    requires reg.Valid() && |reg.Nodes| <= MaxUsers
    requires buf.Length == MaxDataSize && |client.username| == UsernameFieldWidth
    modifies buf, client`username
    ensures reg.Valid() && reg.Peers() == old(reg.Peers())
    ensures var s := Step(old(buf[..]), old(client.username), client.fd, old(reg.Peers()), fuel);
      o == s.outcome && buf[..] == s.frame && client.username == s.name && sends == s.sends
  {
    match CommandOf(buf[0])
    case Some(Unicast) =>
      o, sends := UnicastArm(reg, client, buf);
    case Some(Broadcast) =>
      Write(buf, UsernameOffset, client.username);
      var spun;
      spun, sends := SpinSend(reg.head, buf[..], fuel);
      o := if spun then Spin else Continue;
    case Some(List) =>
      o, sends := ListArm(reg, client, buf);
    case Some(Join) =>
      o, sends := JoinArm(reg, client, buf, fuel);
    case Some(Exit) =>
      o, sends := Teardown, [];
    case _ =>
      o, sends := Continue, [];
  }

  /** A 20-byte slot of the message field. */
  function Slot(msg: seq<byte>, t: nat): seq<byte>
    requires UsernameFieldWidth * t + UsernameFieldWidth <= |msg|
  {
    msg[UsernameFieldWidth * t..UsernameFieldWidth * t + UsernameFieldWidth]
  }

  /** UNICAST with no client whose name differs from the target: exactly one
      ERROR frame, "recipient not found", to the sender. */
  lemma UnicastNotFound(f: seq<byte>, name: seq<byte>, fd: int, peers: seq<Peer>, fuel: nat)
    requires |f| == MaxDataSize && |name| == UsernameFieldWidth && |peers| <= MaxUsers
    requires f[0] == Tag(Unicast)
    requires forall j :: 0 <= j < |peers| ==> peers[j].username == Decode(f).username
    ensures var s := Step(f, name, fd, peers, fuel);
      && s.outcome == Continue && s.name == name
      && s.sends == [Send(fd, s.frame)]
      && Decode(s.frame).command == Tag(Error)
      && Decode(s.frame).username == Decode(f).username
      && Decode(s.frame).message[..|RecipientNotFound| + 1] == RecipientNotFound + [0]
  {
    assert FirstDiffering(peers, f[UsernameOffset..MessageOffset]) == |peers|;
  }

  /** UNICAST goes to the first client whose name differs from the target,
      once, with the sender's name stamped in; that client is never the one
      the target names. */
  lemma UnicastDelivers(f: seq<byte>, name: seq<byte>, fd: int, peers: seq<Peer>, fuel: nat, k: nat)
    requires |f| == MaxDataSize && |name| == UsernameFieldWidth && |peers| <= MaxUsers
    requires f[0] == Tag(Unicast) && k < |peers|
    requires forall j :: 0 <= j < k ==> peers[j].username == Decode(f).username
    requires peers[k].username != Decode(f).username
    ensures var s := Step(f, name, fd, peers, fuel);
      && s.outcome == Continue && s.name == name
      && s.sends == [Send(peers[k].fd, s.frame)]
      && Decode(s.frame) == Decode(f).(username := name)
  {
  }

  /** UNICAST always sends exactly one frame, and it goes to the sender only
      when no listed name differs from the target. */
  lemma UnicastSendsOnce(f: seq<byte>, name: seq<byte>, fd: int, peers: seq<Peer>, fuel: nat)
    requires |f| == MaxDataSize && |name| == UsernameFieldWidth && |peers| <= MaxUsers
    requires f[0] == Tag(Unicast)
    ensures var s := Step(f, name, fd, peers, fuel);
      && |s.sends| == 1 && s.outcome == Continue
      && (Decode(s.frame).command == Tag(Error)
          <==> forall j :: 0 <= j < |peers| ==> peers[j].username == Decode(f).username)
  {
    var target := f[UsernameOffset..MessageOffset];
    var i := FirstDiffering(peers, target);
    if i < |peers| {
      assert Decode(WithUsername(f, name)).command == Tag(Unicast);
      assert !(forall j :: 0 <= j < |peers| ==> peers[j].username == Decode(f).username) by {
        assert peers[i].username != Decode(f).username;
      }
    }
  }

  /** BROADCAST stamps the sender's name into the frame; on an empty list it
      sends nothing, otherwise it sends that frame to the head, again and
      again, and never finishes. */
  lemma BroadcastFloodsHead(f: seq<byte>, name: seq<byte>, fd: int, peers: seq<Peer>, fuel: nat)
    requires |f| == MaxDataSize && |name| == UsernameFieldWidth && |peers| <= MaxUsers
    requires f[0] == Tag(Broadcast)
    ensures var s := Step(f, name, fd, peers, fuel);
      && Decode(s.frame) == Decode(f).(username := name) && s.name == name
      && (peers == [] ==> s.outcome == Continue && s.sends == [])
      && (peers != [] ==>
            && s.outcome == Spin && |s.sends| == fuel
            && forall k :: 0 <= k < fuel ==> s.sends[k] == Send(peers[0].fd, s.frame))
  {
  }

  /** LIST writes the frame's own username field into one slot per listed
      client and replies once to the sender; the rest of the frame is kept. */
  lemma ListFillsSlots(f: seq<byte>, name: seq<byte>, fd: int, peers: seq<Peer>, fuel: nat)
    requires |f| == MaxDataSize && |name| == UsernameFieldWidth && |peers| <= MaxUsers
    requires f[0] == Tag(List)
    ensures var s := Step(f, name, fd, peers, fuel);
      && s.outcome == Continue && s.name == name
      && s.sends == [Send(fd, s.frame)]
      && Decode(s.frame).command == Tag(List)
      && Decode(s.frame).username == Decode(f).username
      && (forall t :: 0 <= t < |peers| ==> Slot(Decode(s.frame).message, t) == Decode(f).username)
      && Decode(s.frame).message[UsernameFieldWidth * |peers|..] == Decode(f).message[UsernameFieldWidth * |peers|..]
  {
    var u := f[UsernameOffset..MessageOffset];
    var r := ListReply(f, |peers|);
    var msg := Decode(r).message;
    assert msg == Copies(u, |peers|) + f[MessageOffset + UsernameFieldWidth * |peers|..];
    forall t | 0 <= t < |peers|
      ensures Slot(msg, t) == Decode(f).username
    {
      CopiesSlot(u, |peers|, t);
    }
  }

  /** JOIN from a client whose name is already set: one ERROR frame, "you
      have already joined the server", to the sender; nothing else changes. */
  lemma JoinWhenJoined(f: seq<byte>, name: seq<byte>, fd: int, peers: seq<Peer>, fuel: nat)
    requires |f| == MaxDataSize && |name| == UsernameFieldWidth && |peers| <= MaxUsers
    requires f[0] == Tag(Join) && name[0] != 0
    ensures var s := Step(f, name, fd, peers, fuel);
      && s.outcome == Continue && s.name == name
      && s.sends == [Send(fd, s.frame)]
      && Decode(s.frame).command == Tag(Error)
      && Decode(s.frame).username == Decode(f).username
      && Decode(s.frame).message[..|AlreadyJoined| + 1] == AlreadyJoined + [0]
  {
  }

  /** JOIN from a client whose name is unset looks only at the list head:
      a head with another name gets the sender "username taken" and closed, a
      head with the sender's own name spins without sending, and only an
      empty list lets the requested name be taken (with nobody to notify). */
  lemma JoinChecksHeadOnly(f: seq<byte>, name: seq<byte>, fd: int, peers: seq<Peer>, fuel: nat)
    requires |f| == MaxDataSize && |name| == UsernameFieldWidth && |peers| <= MaxUsers
    requires f[0] == Tag(Join) && name[0] == 0
    ensures var s := Step(f, name, fd, peers, fuel);
      && (peers == [] ==> s == StepResult(Continue, f, Decode(f).username, []))
      && (peers != [] && peers[0].username != name ==>
            && s.outcome == Teardown && s.name == name
            && s.sends == [Send(fd, s.frame)]
            && Decode(s.frame).command == Tag(Error)
            && Decode(s.frame).message[..|UsernameTaken| + 1] == UsernameTaken + [0])
      && (peers != [] && peers[0].username == name ==> s == StepResult(Spin, f, name, []))
  {
  }

  /** EXIT goes to teardown and sends nothing; any byte that is not one of
      the five handled tags (ERROR included) is ignored. */
  lemma ExitAndUnknown(f: seq<byte>, name: seq<byte>, fd: int, peers: seq<Peer>, fuel: nat)
    requires |f| == MaxDataSize && |name| == UsernameFieldWidth && |peers| <= MaxUsers
    ensures f[0] == Tag(Exit) ==> Step(f, name, fd, peers, fuel) == StepResult(Teardown, f, name, [])
    ensures !(Tag(Unicast) <= f[0] <= Tag(Join)) ==> Step(f, name, fd, peers, fuel) == StepResult(Continue, f, name, [])
  {
  }

  /** The switch closes the connection exactly on EXIT and on a JOIN refused
      for "username taken". */
  lemma TeardownCases(f: seq<byte>, name: seq<byte>, fd: int, peers: seq<Peer>, fuel: nat)
    requires |f| == MaxDataSize && |name| == UsernameFieldWidth && |peers| <= MaxUsers
    ensures Step(f, name, fd, peers, fuel).outcome == Teardown
        <==> (f[0] == Tag(Exit) || (f[0] == Tag(Join) && name[0] == 0 && peers != [] && peers[0].username != name))
  {
  }

  /** The switch never returns exactly on a BROADCAST to a non-empty list and
      on a JOIN whose check finds the sender's own name at the head. */
  lemma SpinCases(f: seq<byte>, name: seq<byte>, fd: int, peers: seq<Peer>, fuel: nat)
    requires |f| == MaxDataSize && |name| == UsernameFieldWidth && |peers| <= MaxUsers
    ensures Step(f, name, fd, peers, fuel).outcome == Spin
        <==> ((f[0] == Tag(Broadcast) && peers != [])
              || (f[0] == Tag(Join) && name[0] == 0 && peers != [] && peers[0].username == name))
  {
  }

  /** A sender that is itself on the list (as every handler's client is)
      never gets a name from a dispatch. */
  lemma ListedSenderKeepsName(f: seq<byte>, name: seq<byte>, fd: int, peers: seq<Peer>, fuel: nat)
    requires |f| == MaxDataSize && |name| == UsernameFieldWidth && |peers| <= MaxUsers
    requires Peer(fd, name) in peers
    ensures Step(f, name, fd, peers, fuel).name == name
  {
  }
}
