/** The per-connection thread: receive into the fixed buffer, terminate the
    received bytes, run the switch, and repeat until `recv` fails, the peer
    closes, or the switch jumps to `close_connection:`; then unlink the
    client and close its socket. The sequence of `recv` results is a
    parameter; `Run` is the handler as a function of it. */
module Handler {
  import opened Frame
  import opened Registry
  import opened Dispatcher

  /** What one `recv` call returns: -1, or the bytes received (none for a
      peer that closed the connection). */
  datatype Recv = Failed | Bytes(data: seq<byte>)

  /** How the thread ends: it exits with the return value `rv`, it is still
      waiting in `recv` when the inputs run out, or it is stuck in a loop
      that never ends. */
  datatype End = Exited(rv: int) | Waiting | Spinning

  /** The end, the socket calls made, the final buffer and username, and how
      many `recv` results were consumed. */
  datatype Trace = Trace(end: End, effects: seq<Effect>, frame: seq<byte>, name: seq<byte>, used: nat)

  /** `buf[nbytes] = 0` stays inside the buffer. */
  predicate Fits(inputs: seq<Recv>)
  {
    forall k :: 0 <= k < |inputs| ==> inputs[k].Bytes? ==> |inputs[k].data| < MaxDataSize
  }

  /** The buffer after `recv` placed `data` at its start and the handler
      stored a NUL right after it; bytes beyond that are left over from
      earlier frames. */
  function Received(f: seq<byte>, data: seq<byte>): (r: seq<byte>)
    requires |f| == MaxDataSize && |data| < MaxDataSize
    ensures |r| == MaxDataSize
    ensures r[..|data|] == data && r[|data|] == 0 && r[|data| + 1..] == f[|data| + 1..]
  {
    data + [0] + f[|data| + 1..]
  }

  /** One iteration of the loop: a failed or empty `recv` leaves it
      (with `rv` -1 or 0); any other frame is terminated and dispatched. */
  function Round(r: Recv, f: seq<byte>, name: seq<byte>, fd: int, peers: seq<Peer>, fuel: nat): (s: StepResult)
    requires r.Bytes? ==> |r.data| < MaxDataSize
    requires |f| == MaxDataSize && |name| == UsernameFieldWidth && |peers| <= MaxUsers
    ensures |s.frame| == MaxDataSize && |s.name| == UsernameFieldWidth
    ensures forall k :: 0 <= k < |s.sends| ==> s.sends[k].Send?
  {
    if r.Failed? || |r.data| == 0 then StepResult(Teardown, f, name, [])
    else Step(Received(f, r.data), name, fd, peers, fuel)
  }

  /** The thread's return value when `r` ended the loop: -1 after a failed
      `recv`, 0 after a closed connection or a jump to `close_connection:`. */
  function ExitCode(r: Recv): (rv: int)
    ensures rv == -1 <==> r.Failed?
    ensures rv == 0 <==> r.Bytes?
  {
    if r.Failed? then -1 else 0
  }

  /** The handler loop over a sequence of `recv` results. */
  function Run(inputs: seq<Recv>, f: seq<byte>, name: seq<byte>, fd: int, peers: seq<Peer>, fuel: nat): (t: Trace)
    requires Fits(inputs) && |f| == MaxDataSize && |name| == UsernameFieldWidth && |peers| <= MaxUsers
    ensures t.used <= |inputs|
    ensures |t.frame| == MaxDataSize && |t.name| == UsernameFieldWidth
    decreases |inputs|
  {
    if inputs == [] then Trace(Waiting, [], f, name, 0)
    else
      var s := Round(inputs[0], f, name, fd, peers, fuel);
      match s.outcome
      case Teardown => Trace(Exited(ExitCode(inputs[0])), s.sends + [Close(fd)], s.frame, s.name, 1)
      case Spin => Trace(Spinning, s.sends, s.frame, s.name, 1)
      case Continue =>
        FitsTail(inputs);
        var t := Run(inputs[1..], s.frame, s.name, fd, peers, fuel);
        Trace(t.end, s.sends + t.effects, t.frame, t.name, 1 + t.used)
  }

  lemma FitsTail(inputs: seq<Recv>)
    requires Fits(inputs) && inputs != []
    ensures Fits(inputs[1..])
  {
    forall k | 0 <= k < |inputs| - 1 && inputs[1..][k].Bytes?
      ensures |inputs[1..][k].data| < MaxDataSize
    {
      assert inputs[1..][k] == inputs[k + 1];
    }
  }

  /** The thread closes its socket exactly when it exits, exactly once, as
      its last socket call; every other call is a `send`. */
  lemma {:induction false} CloseOnlyAtExit(inputs: seq<Recv>, f: seq<byte>, name: seq<byte>, fd: int, peers: seq<Peer>, fuel: nat)
    requires Fits(inputs) && |f| == MaxDataSize && |name| == UsernameFieldWidth && |peers| <= MaxUsers
    ensures var t := Run(inputs, f, name, fd, peers, fuel);
      && (t.end.Exited? <==> (|t.effects| > 0 && t.effects[|t.effects| - 1] == Close(fd)))
      && forall k :: 0 <= k < |t.effects| && t.effects[k].Close? ==> t.end.Exited? && k == |t.effects| - 1
    decreases |inputs|
  {
    if inputs != [] {
      var s := Round(inputs[0], f, name, fd, peers, fuel);
      if s.outcome == Continue {
        FitsTail(inputs);
        CloseOnlyAtExit(inputs[1..], s.frame, s.name, fd, peers, fuel);
        var t := Run(inputs[1..], s.frame, s.name, fd, peers, fuel);
        var e := s.sends + t.effects;
        forall k | 0 <= k < |e| && e[k].Close?
          ensures t.end.Exited? && k == |e| - 1
        {
          assert e[k] == t.effects[k - |s.sends|];
        }
      }
    }
  }

  /** The thread returns -1 exactly when the `recv` that ended it failed and
      0 otherwise; every earlier `recv` delivered at least one byte. */
  lemma {:induction false} ReturnValue(inputs: seq<Recv>, f: seq<byte>, name: seq<byte>, fd: int, peers: seq<Peer>, fuel: nat)
    requires Fits(inputs) && |f| == MaxDataSize && |name| == UsernameFieldWidth && |peers| <= MaxUsers
    ensures var t := Run(inputs, f, name, fd, peers, fuel);
      && (t.end.Exited? ==> 1 <= t.used && (t.end.rv == -1 <==> inputs[t.used - 1] == Failed))
      && (t.end.Exited? ==> t.end.rv == 0 || t.end.rv == -1)
      && (t.end == Waiting ==> t.used == |inputs|)
      && forall k :: 0 <= k < t.used - 1 ==> inputs[k].Bytes? && |inputs[k].data| > 0
    decreases |inputs|
  {
    if inputs != [] {
      var s := Round(inputs[0], f, name, fd, peers, fuel);
      if s.outcome == Continue {
        FitsTail(inputs);
        ReturnValue(inputs[1..], s.frame, s.name, fd, peers, fuel);
        var t := Run(inputs[1..], s.frame, s.name, fd, peers, fuel);
        forall k | 0 <= k < t.used
          ensures inputs[k + 1] == inputs[1..][k]
        {
        }
      }
    }
  }

  /** A failed `recv`, a `recv` of zero bytes and an EXIT frame each end the
      thread at once through `close_connection:`: the socket is closed once,
      no frame is sent, and the return value is -1 only for the failure. */
  lemma {:induction false} TeardownPaths(r: Recv, rest: seq<Recv>, f: seq<byte>, name: seq<byte>, fd: int, peers: seq<Peer>, fuel: nat)
    requires Fits([r] + rest) && |f| == MaxDataSize && |name| == UsernameFieldWidth && |peers| <= MaxUsers
    requires r.Failed? || |r.data| == 0 || r.data[0] == Tag(Exit)
    ensures var t := Run([r] + rest, f, name, fd, peers, fuel);
      t.end == Exited(ExitCode(r)) && t.used == 1 && t.effects == [Close(fd)]
  {
    assert ([r] + rest)[0] == r;
    if r.Bytes? && |r.data| > 0 {
      assert Received(f, r.data)[0] == r.data[0];
    }
  }

  /** A client on the list (every handler's own client is) never gets a
      name, whatever it sends: JOIN only succeeds on an empty list. */
  lemma {:induction false} ListedClientNeverJoins(inputs: seq<Recv>, f: seq<byte>, name: seq<byte>, fd: int, peers: seq<Peer>, fuel: nat)
    requires Fits(inputs) && |f| == MaxDataSize && |name| == UsernameFieldWidth && |peers| <= MaxUsers
    requires Peer(fd, name) in peers
    ensures Run(inputs, f, name, fd, peers, fuel).name == name
    decreases |inputs|
  {
    if inputs != [] {
      if inputs[0].Bytes? && |inputs[0].data| > 0 {
        ListedSenderKeepsName(Received(f, inputs[0].data), name, fd, peers, fuel);
      }
      var s := Round(inputs[0], f, name, fd, peers, fuel);
      if s.outcome == Continue {
        FitsTail(inputs);
        ListedClientNeverJoins(inputs[1..], s.frame, s.name, fd, peers, fuel);
      }
    }
  }

  /** The handler's progress after `i` inputs: what is left of the run
      from the current buffer and name, appended to the calls made so far,
      is the whole run. */
  ghost predicate Resumes(t0: Trace, inputs: seq<Recv>, i: nat, effects: seq<Effect>,
                          f: seq<byte>, name: seq<byte>, fd: int, peers: seq<Peer>, fuel: nat)
  {
    && i <= |inputs| && Fits(inputs[i..])
    && |f| == MaxDataSize && |name| == UsernameFieldWidth && |peers| <= MaxUsers
    && var t := Run(inputs[i..], f, name, fd, peers, fuel);
       t0 == Trace(t.end, effects + t.effects, t.frame, t.name, i + t.used)
  }

  /** An iteration that goes on to the next `recv` keeps `Resumes`. */
  lemma Advance(t0: Trace, inputs: seq<Recv>, i: nat, effects: seq<Effect>,
                f: seq<byte>, name: seq<byte>, fd: int, peers: seq<Peer>, fuel: nat)
    requires Resumes(t0, inputs, i, effects, f, name, fd, peers, fuel) && i < |inputs|
    ensures inputs[i].Bytes? ==> |inputs[i].data| < MaxDataSize
    ensures var s := Round(inputs[i], f, name, fd, peers, fuel);
      s.outcome == Continue ==> Resumes(t0, inputs, i + 1, effects + s.sends, s.frame, s.name, fd, peers, fuel)
  {
    assert inputs[i..][0] == inputs[i];
    var s := Round(inputs[i], f, name, fd, peers, fuel);
    if s.outcome == Continue {
      assert inputs[i..][1..] == inputs[i + 1..];
      var t := Run(inputs[i + 1..], s.frame, s.name, fd, peers, fuel);
      assert effects + (s.sends + t.effects) == effects + s.sends + t.effects;
    }
  }

  /** An iteration that leaves the loop or never finishes ends the run. */
  lemma Finish(t0: Trace, inputs: seq<Recv>, i: nat, effects: seq<Effect>,
               f: seq<byte>, name: seq<byte>, fd: int, peers: seq<Peer>, fuel: nat)
    requires Resumes(t0, inputs, i, effects, f, name, fd, peers, fuel)
    ensures i == |inputs| ==> t0 == Trace(Waiting, effects, f, name, i)
    ensures i < |inputs| ==> inputs[i].Bytes? ==> |inputs[i].data| < MaxDataSize
    ensures i < |inputs| ==>
      var s := Round(inputs[i], f, name, fd, peers, fuel);
      && (s.outcome == Spin ==> t0 == Trace(Spinning, effects + s.sends, s.frame, s.name, i + 1))
      && (s.outcome == Teardown ==>
            t0 == Trace(Exited(ExitCode(inputs[i])), effects + s.sends + [Close(fd)], s.frame, s.name, i + 1))
  {
    if i < |inputs| {
      assert inputs[i..][0] == inputs[i];
      var s := Round(inputs[i], f, name, fd, peers, fuel);
      assert effects + (s.sends + [Close(fd)]) == effects + s.sends + [Close(fd)];
    }
  }

  /** `recv` into the buffer followed by `buf[nbytes] = 0`. */
  method Receive(buf: array<byte>, data: seq<byte>)
    requires buf.Length == MaxDataSize && |data| < MaxDataSize
    modifies buf
    ensures buf[..] == Received(old(buf[..]), data)
  {
    Write(buf, 0, data);
    buf[|data|] := 0;
    assert buf[..] == Received(old(buf[..]), data);
  }

  /** One iteration of the loop on the `recv` result `r`. */
  method Serve(reg: ClientList, client: Client, buf: array<byte>, r: Recv, fuel: nat)
      returns (o: Outcome, sends: seq<Effect>)
    requires reg.Valid() && |reg.Nodes| <= MaxUsers
    requires buf.Length == MaxDataSize && |client.username| == UsernameFieldWidth
    requires r.Bytes? ==> |r.data| < MaxDataSize
    modifies buf, client`username
    ensures reg.Valid() && reg.Peers() == old(reg.Peers())
    ensures var s := Round(r, old(buf[..]), old(client.username), client.fd, old(reg.Peers()), fuel);
      o == s.outcome && sends == s.sends && buf[..] == s.frame && client.username == s.name
  {
    if r.Failed? || |r.data| == 0 {
      return Teardown, [];
    }
    Receive(buf, r.data);
    o, sends := Dispatch(reg, client, buf, fuel);
  }

  /** `close_connection:`: unlink the client from the list under the lock. */
  method CloseConnection(reg: ClientList, client: Client)
    requires reg.Valid() && client in reg.Nodes
    modifies reg, reg.Nodes
    ensures reg.Valid() && reg.Nodes == Without(old(reg.Nodes), client)
    ensures forall n :: n in old(reg.Nodes) ==> n.username == old(n.username)
  {
    ghost var k := IndexOf(reg.Nodes, client);
    assert LinkedAt(reg.Nodes, k);
    assert client.next == null || client.next in reg.Nodes;
    assert client.prev == null || client.prev in reg.Nodes;
    reg.Remove(client);
  }

  /** `client_handler`: the loop over `recv` results, then the teardown
      that unlinks the client and closes its socket. */
  method ClientHandler(reg: ClientList, client: Client, buf: array<byte>, inputs: seq<Recv>, fuel: nat)
      returns (end: End, effects: seq<Effect>)
    requires reg.Valid() && client in reg.Nodes && |reg.Nodes| <= MaxUsers
    requires buf.Length == MaxDataSize && Fits(inputs)
    modifies reg, reg.Nodes, buf
    ensures reg.Valid()
    ensures |old(client.username)| == UsernameFieldWidth
    ensures var t := Run(inputs, old(buf[..]), old(client.username), client.fd, old(reg.Peers()), fuel);
      end == t.end && effects == t.effects && buf[..] == t.frame && client.username == t.name
    ensures end.Exited? ==> reg.Nodes == Without(old(reg.Nodes), client)
    ensures !end.Exited? ==> reg.Nodes == old(reg.Nodes) && reg.Peers() == old(reg.Peers())
    ensures forall n :: n in old(reg.Nodes) ==> n.username == old(n.username)
  {
    assert LinkedAt(reg.Nodes, IndexOf(reg.Nodes, client));
    ghost var peers := reg.Peers();
    ghost var nodes := reg.Nodes;
    ghost var t0 := Run(inputs, buf[..], client.username, client.fd, peers, fuel);
    assert inputs[0..] == inputs;
    var i := 0;
    effects := [];
    while true
      invariant reg.Valid() && reg.Nodes == nodes && reg.Peers() == peers
      invariant Resumes(t0, inputs, i, effects, buf[..], client.username, client.fd, peers, fuel)
      decreases |inputs| - i
    {
      Finish(t0, inputs, i, effects, buf[..], client.username, client.fd, peers, fuel);
      if i == |inputs| {
        SamePeersSameNames(reg);
        return Waiting, effects;
      }
      Advance(t0, inputs, i, effects, buf[..], client.username, client.fd, peers, fuel);
      var o, sends := Serve(reg, client, buf, inputs[i], fuel);
      if o == Teardown {
        effects := effects + sends;
        break;
      } else if o == Spin {
        SamePeersSameNames(reg);
        return Spinning, effects + sends;
      }
      effects := effects + sends;
      i := i + 1;
    }
    SamePeersSameNames(reg);
    CloseConnection(reg, client);
    effects := effects + [Close(client.fd)];
    end := Exited(ExitCode(inputs[i]));
  }
}
