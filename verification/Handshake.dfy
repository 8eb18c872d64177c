/** The five-frame exchange behind `connect` and `accept` on one in-process duplex: three
    handshake messages with identity proofs, a connect request and its answer. Cryptography is
    symbolic: a sealed message opens for its owner only, and a signature verifies only under the
    key and over the message it was made with. Frames are whole, as the framing model shows. */
module Handshake {
  import opened Results

  type Key = nat
  type DeviceId = nat

  datatype Role = Client | Server

  datatype Signature = Signed(signer: Key, role: Role, noise: Key)

  /** A proof as it arrives: key and signature bytes may fail to parse. */
  datatype Proof = Proof(device: DeviceId, verifying: Option<Key>, signature: Option<Signature>)

  datatype Msg =
    | Msg1(sealedTo: Key)
    | Msg2(proof: Proof)
    | Msg3(noise: Key, proof: Proof)
    | Request(device: DeviceId)
    | Response(ok: bool)

  datatype Party = Party(verifying: Key, noise: Key)

  /** What both sides bring along; `fingerprint` is the hash that names a device by its key. */
  datatype Setting = Setting(
    fingerprint: Key -> DeviceId,
    client: Party,
    server: Party,
    announcedId: DeviceId,
    announcedNoise: Key)
  {
    function ClientId(): DeviceId { fingerprint(client.verifying) }
    function ServerId(): DeviceId { fingerprint(server.verifying) }
    predicate KeyRight() { announcedNoise == server.noise }
    predicate IdRight() { announcedId == ServerId() }
  }

  function ProofOf(fingerprint: Key -> DeviceId, p: Party, role: Role): Proof {
    Proof(fingerprint(p.verifying), Some(p.verifying), Some(Signed(p.verifying, role, p.noise)))
  }

  /** `validate_proof`: the device behind the proof, or nothing. */
  function ValidateProof(fingerprint: Key -> DeviceId, proof: Proof, role: Role, noise: Key): Option<DeviceId> {
    if proof.verifying.None? then None
    else if fingerprint(proof.verifying.value) != proof.device then None
    else if proof.signature.None? then None
    else if proof.signature.value != Signed(proof.verifying.value, role, noise) then None
    else Some(fingerprint(proof.verifying.value))
  }

  /** The proofs accepted for a role and a channel key are those that an owner of that channel key
      makes for that role, and no others; what is learnt is that owner's device. */
  lemma AcceptedProofsExactly(fingerprint: Key -> DeviceId, proof: Proof, role: Role, noise: Key, device: DeviceId)
    ensures ValidateProof(fingerprint, proof, role, noise) == Some(device) <==>
      exists key: Key :: proof == ProofOf(fingerprint, Party(key, noise), role) && device == fingerprint(key)
  {
    if ValidateProof(fingerprint, proof, role, noise) == Some(device) {
      assert proof == ProofOf(fingerprint, Party(proof.verifying.value, noise), role);
    }
  }

  // ---------- The two sides ----------

  datatype ClientAt =
    | SendMsg1
    | AwaitMsg2
    | SendMsg3(remote: DeviceId)
    | SendRequest(remote: DeviceId)
    | AwaitResponse(remote: DeviceId)
    | Connected(remote: DeviceId)
    | ClientFailed

  datatype ServerAt =
    | AwaitMsg1
    | SendMsg2
    | AwaitMsg3
    | AwaitRequest(remote: DeviceId)
    | SendResponse(remote: DeviceId, ok: bool)
    | Accepted(remote: DeviceId)
    | ServerFailed

  /** Everything ever sent each way, with how much of it was received. */
  datatype State = State(client: ClientAt, server: ServerAt, up: seq<Msg>, upRead: nat, down: seq<Msg>, downRead: nat)

  const START := State(SendMsg1, AwaitMsg1, [], 0, [], 0)

  function UpQueue(s: State): seq<Msg>
    requires s.upRead <= |s.up|
  {
    s.up[s.upRead..]
  }

  function DownQueue(s: State): seq<Msg>
    requires s.downRead <= |s.down|
  {
    s.down[s.downRead..]
  }

  predicate ClientWaits(s: State) { s.client.AwaitMsg2? || s.client.AwaitResponse? }
  predicate ServerWaits(s: State) { s.server.AwaitMsg1? || s.server.AwaitMsg3? || s.server.AwaitRequest? }
  predicate ClientOver(s: State) { s.client.Connected? || s.client.ClientFailed? }
  predicate ServerOver(s: State) { s.server.Accepted? || s.server.ServerFailed? }

  datatype Action = ClientMoves | ServerMoves | ClientTimesOut | ServerTimesOut

  predicate Enabled(s: State, a: Action) {
    match a
    case ClientMoves => !ClientOver(s) && (ClientWaits(s) ==> s.downRead < |s.down|)
    case ServerMoves => !ServerOver(s) && (ServerWaits(s) ==> s.upRead < |s.up|)
    case ClientTimesOut => ClientWaits(s) && s.downRead == |s.down|
    case ServerTimesOut => ServerWaits(s) && s.upRead == |s.up|
  }

  function ClientReads(g: Setting, at: ClientAt, m: Msg): ClientAt
    requires at.AwaitMsg2? || at.AwaitResponse?
  {
    match (at, m)
    case (AwaitMsg2, Msg2(proof)) =>
      // The initiator's remote static key is the announced one.
      var device := ValidateProof(g.fingerprint, proof, Server, g.announcedNoise);
      if device.None? || device.value != g.announcedId then ClientFailed else SendMsg3(device.value)
    case (AwaitResponse(remote), Response(ok)) => if ok then Connected(remote) else ClientFailed
    case _ => ClientFailed
  }

  function ServerReads(g: Setting, at: ServerAt, m: Msg): ServerAt
    requires at.AwaitMsg1? || at.AwaitMsg3? || at.AwaitRequest?
  {
    match (at, m)
    case (AwaitMsg1, Msg1(sealedTo)) => if sealedTo == g.server.noise then SendMsg2 else ServerFailed
    case (AwaitMsg3, Msg3(noise, proof)) =>
      var device := ValidateProof(g.fingerprint, proof, Client, noise);
      if device.None? then ServerFailed else AwaitRequest(device.value)
    case (AwaitRequest(remote), Request(device)) => SendResponse(remote, device == remote)
    case _ => ServerFailed
  }

  /** Where a side stands once it has sent what it had to send. */
  function ClientSent(at: ClientAt): ClientAt {
    match at
    case SendMsg1 => AwaitMsg2
    case SendMsg3(remote) => SendRequest(remote)
    case SendRequest(remote) => AwaitResponse(remote)
    case _ => at
  }

  function ServerSent(at: ServerAt): ServerAt {
    match at
    case SendMsg2 => AwaitMsg3
    case SendResponse(remote, ok) => if ok then Accepted(remote) else ServerFailed
    case _ => at
  }

  function Next(g: Setting, s: State, a: Action): State
    requires Enabled(s, a)
  {
    match a
    case ClientMoves =>
      if ClientWaits(s) then
        s.(client := ClientReads(g, s.client, s.down[s.downRead]), downRead := s.downRead + 1)
      else
        var m := (match s.client
          case SendMsg1 => Msg1(g.announcedNoise)
          case SendMsg3(_) => Msg3(g.client.noise, ProofOf(g.fingerprint, g.client, Client))
          case SendRequest(_) => Request(g.ClientId()));
        s.(client := ClientSent(s.client), up := s.up + [m])
    case ServerMoves =>
      if ServerWaits(s) then
        s.(server := ServerReads(g, s.server, s.up[s.upRead]), upRead := s.upRead + 1)
      else
        var m := (match s.server
          case SendMsg2 => Msg2(ProofOf(g.fingerprint, g.server, Server))
          case SendResponse(_, ok) => Response(ok));
        s.(server := ServerSent(s.server), down := s.down + [m])
    case ClientTimesOut => s.(client := ClientFailed)
    case ServerTimesOut => s.(server := ServerFailed)
  }

  ghost predicate IsRun(g: Setting, s: State, run: seq<Action>)
    decreases |run|
  {
    run == [] || (Enabled(s, run[0]) && IsRun(g, Next(g, s, run[0]), run[1..]))
  }

  ghost function After(g: Setting, s: State, run: seq<Action>): State
    requires IsRun(g, s, run)
    decreases |run|
  {
    if run == [] then s else After(g, Next(g, s, run[0]), run[1..])
  }

  // ---------- Each side against anybody ----------

  /** The server, fed the given messages by whoever is on the other side. */
  function ServerFed(g: Setting, at: ServerAt, msgs: seq<Msg>): ServerAt
    decreases |msgs|
  {
    if msgs == [] || !(at.AwaitMsg1? || at.AwaitMsg3? || at.AwaitRequest?) then at
    else ServerFed(g, ServerSent(ServerReads(g, at, msgs[0])), msgs[1..])
  }

  /** The client, fed the given messages by whoever is on the other side. */
  function ClientFed(g: Setting, at: ClientAt, msgs: seq<Msg>): ClientAt
    decreases |msgs|
  {
    if msgs == [] || !(at.AwaitMsg2? || at.AwaitResponse?) then at
    else ClientFed(g, ClientSent(ClientSent(ClientReads(g, at, msgs[0]))), msgs[1..])
  }

  lemma FedRequest(g: Setting, device: DeviceId, msgs: seq<Msg>, remote: DeviceId)
    ensures ServerFed(g, AwaitRequest(device), msgs) == Accepted(remote) <==>
      |msgs| >= 1 && msgs[0] == Request(device) && remote == device
  {
    hide ValidateProof;
    if msgs != [] {
      var last := ServerSent(ServerReads(g, AwaitRequest(device), msgs[0]));
      assert ServerFed(g, last, msgs[1..]) == last;
    }
  }

  lemma FedProof(g: Setting, msgs: seq<Msg>, remote: DeviceId)
    ensures ServerFed(g, AwaitMsg3, msgs) == Accepted(remote) <==>
      && |msgs| >= 2 && msgs[0].Msg3? && msgs[1] == Request(remote)
      && ValidateProof(g.fingerprint, msgs[0].proof, Client, msgs[0].noise) == Some(remote)
  {
    hide ValidateProof;
    if msgs != [] {
      var next := ServerSent(ServerReads(g, AwaitMsg3, msgs[0]));
      if next.AwaitRequest? {
        FedRequest(g, next.remote, msgs[1..], remote);
      } else {
        assert ServerFed(g, next, msgs[1..]) == next;
      }
    }
  }

  /** A server accepts a device if and only if it is sent a first message sealed to its own key, then
      a proof made for the client's role by an owner of that device's key, over the channel key it
      comes with, and then a request in that device's name. */
  lemma ServerAcceptsExactly(g: Setting, msgs: seq<Msg>, remote: DeviceId)
    ensures ServerFed(g, AwaitMsg1, msgs) == Accepted(remote) <==>
      && |msgs| >= 3 && msgs[0] == Msg1(g.server.noise) && msgs[2] == Request(remote)
      && exists key: Key, noise: Key ::
           msgs[1] == Msg3(noise, ProofOf(g.fingerprint, Party(key, noise), Client)) && remote == g.fingerprint(key)
  {
    hide ValidateProof, ProofOf;
    if msgs != [] {
      var next := ServerSent(ServerReads(g, AwaitMsg1, msgs[0]));
      FedProof(g, msgs[1..], remote);
      assert next.ServerFailed? ==> ServerFed(g, next, msgs[1..]) == next;
      if |msgs| >= 2 && msgs[1].Msg3? {
        AcceptedProofsExactly(g.fingerprint, msgs[1].proof, Client, msgs[1].noise, remote);
      }
    }
  }

  /** A client connects to a device if and only if it is the announced one, its proof for the
      server's role over the announced channel key arrives, made by an owner of its key, and then
      a consenting answer. */
  lemma ClientConnectsExactly(g: Setting, msgs: seq<Msg>, remote: DeviceId)
    ensures ClientFed(g, AwaitMsg2, msgs) == Connected(remote) <==>
      && |msgs| >= 2 && msgs[1] == Response(true) && remote == g.announcedId
      && exists key: Key ::
           msgs[0] == Msg2(ProofOf(g.fingerprint, Party(key, g.announcedNoise), Server)) && remote == g.fingerprint(key)
  {
    hide ValidateProof, ProofOf;
    if |msgs| >= 2 && msgs[0].Msg2? {
      AcceptedProofsExactly(g.fingerprint, msgs[0].proof, Server, g.announcedNoise, remote);
      assert msgs[1..][0] == msgs[1];
      var device := ValidateProof(g.fingerprint, msgs[0].proof, Server, g.announcedNoise);
      if device == Some(g.announcedId) {
        var last := ClientReads(g, AwaitResponse(device.value), msgs[1]);
        assert ClientFed(g, ClientSent(ClientSent(last)), msgs[1..][1..]) == last;
      }
    }
  }

  // ---------- What every run keeps ----------

  function UpScript(g: Setting): seq<Msg> {
    [Msg1(g.announcedNoise), Msg3(g.client.noise, ProofOf(g.fingerprint, g.client, Client)), Request(g.ClientId())]
  }

  function DownScript(g: Setting): seq<Msg> {
    [Msg2(ProofOf(g.fingerprint, g.server, Server)), Response(true)]
  }

  predicate ClientFits(g: Setting, s: State) {
    match s.client
    case SendMsg1 => |s.up| == 0 && s.downRead == 0
    case AwaitMsg2 => |s.up| == 1 && s.downRead == 0
    case SendMsg3(remote) => |s.up| == 1 && s.downRead == 1 && remote == g.ServerId() && g.IdRight()
    case SendRequest(remote) => |s.up| == 2 && s.downRead == 1 && remote == g.ServerId()
    case AwaitResponse(remote) => |s.up| == 3 && s.downRead == 1 && remote == g.ServerId()
    case Connected(remote) => |s.up| == 3 && s.downRead == 2 && remote == g.ServerId()
    case ClientFailed => true
  }

  predicate ServerFits(g: Setting, s: State) {
    match s.server
    case AwaitMsg1 => s.upRead == 0 && |s.down| == 0
    case SendMsg2 => s.upRead == 1 && |s.down| == 0 && g.KeyRight()
    case AwaitMsg3 => s.upRead == 1 && |s.down| == 1
    case AwaitRequest(remote) => s.upRead == 2 && |s.down| == 1 && remote == g.ClientId()
    case SendResponse(remote, ok) => s.upRead == 3 && |s.down| == 1 && remote == g.ClientId() && ok
    case Accepted(remote) => s.upRead == 3 && |s.down| == 2 && remote == g.ClientId()
    case ServerFailed => |s.down| < 2
  }

  predicate Inv(g: Setting, s: State) {
    && |s.up| <= 3 && s.up == UpScript(g)[..|s.up|] && s.upRead <= |s.up|
    && |s.down| <= 2 && s.down == DownScript(g)[..|s.down|] && s.downRead <= |s.down|
    && (|s.up| >= 2 ==> s.downRead >= 1 && g.IdRight())
    && (|s.down| >= 1 ==> s.upRead >= 1 && g.KeyRight())
    && (|s.down| == 2 ==> s.upRead == 3)
    && ClientFits(g, s) && ServerFits(g, s)
  }

  lemma ClientKeeps(g: Setting, s: State)
    requires Inv(g, s) && Enabled(s, ClientMoves)
    ensures Inv(g, Next(g, s, ClientMoves))
  {
    if ClientWaits(s) {
      assert s.down[s.downRead] == DownScript(g)[s.downRead];
    } else {
      assert UpScript(g)[..|s.up| + 1] == UpScript(g)[..|s.up|] + [UpScript(g)[|s.up|]];
    }
  }

  lemma ServerKeeps(g: Setting, s: State)
    requires Inv(g, s) && Enabled(s, ServerMoves)
    ensures Inv(g, Next(g, s, ServerMoves))
  {
    if ServerWaits(s) {
      assert s.up[s.upRead] == UpScript(g)[s.upRead];
    } else {
      assert DownScript(g)[..|s.down| + 1] == DownScript(g)[..|s.down|] + [DownScript(g)[|s.down|]];
    }
  }

  lemma StepKeeps(g: Setting, s: State, a: Action)
    requires Inv(g, s) && Enabled(s, a)
    ensures Inv(g, Next(g, s, a))
  {
    match a
    case ClientMoves => ClientKeeps(g, s);
    case ServerMoves => ServerKeeps(g, s);
    case ClientTimesOut =>
    case ServerTimesOut =>
  }

  lemma {:induction false} RunKeeps(g: Setting, s: State, run: seq<Action>)
    requires Inv(g, s) && IsRun(g, s, run)
    ensures Inv(g, After(g, s, run))
    decreases |run|
  {
    hide Inv, Next, Enabled;
    if run != [] {
      StepKeeps(g, s, run[0]);
      RunKeeps(g, Next(g, s, run[0]), run[1..]);
    }
  }

  /** Whatever the interleaving and whoever times out: queues stay short, the two sides are never
      both blocked while neither has failed, and a connected client means an accepting server that
      answered ok, each side holding the other's identity, the client's being the announced one. */
  lemma EveryRun(g: Setting, run: seq<Action>)
    requires IsRun(g, START, run)
    ensures var s := After(g, START, run);
      && s.upRead <= |s.up| && |UpQueue(s)| <= 2
      && s.downRead <= |s.down| && |DownQueue(s)| <= 1
      && (!s.client.ClientFailed? && !s.server.ServerFailed? ==>
            !(ClientWaits(s) && DownQueue(s) == [] && ServerWaits(s) && UpQueue(s) == []))
      && (s.client.Connected? ==>
            && s.server == Accepted(g.ClientId()) && Response(true) in s.down
            && s.client.remote == g.ServerId() == g.announcedId)
      && (s.server.Accepted? ==> s.server.remote == g.ClientId())
  {
    hide After, IsRun;
    RunKeeps(g, START, run);
    var s := After(g, START, run);
    assert s.client.Connected? ==> s.down[1] == Response(true);
  }

  // ---------- Runs without timeouts ----------

  predicate Calm(run: seq<Action>) {
    forall i :: 0 <= i < |run| ==> run[i].ClientMoves? || run[i].ServerMoves?
  }

  /** Without timeouts, the announcement alone decides who fails. */
  predicate CalmInv(g: Setting, s: State) {
    && Inv(g, s)
    && (s.client.ClientFailed? ==> g.KeyRight() && !g.IdRight() && |s.up| == 1 && s.downRead == 1)
    && (s.server.ServerFailed? ==> !g.KeyRight() && s.upRead == 1 && |s.down| == 0)
  }

  function Progress(s: State): nat {
    |s.up| + |s.down| + s.upRead + s.downRead
  }

  lemma CalmStep(g: Setting, s: State, a: Action)
    requires CalmInv(g, s) && Enabled(s, a) && (a.ClientMoves? || a.ServerMoves?)
    ensures CalmInv(g, Next(g, s, a)) && Progress(Next(g, s, a)) == Progress(s) + 1
  {
    match a
    case ClientMoves =>
      ClientKeeps(g, s);
      if ClientWaits(s) {
        assert s.down[s.downRead] == DownScript(g)[s.downRead];
      }
    case ServerMoves =>
      ServerKeeps(g, s);
      if ServerWaits(s) {
        assert s.up[s.upRead] == UpScript(g)[s.upRead];
      }
  }

  lemma {:induction false} CalmKeeps(g: Setting, s: State, run: seq<Action>)
    requires CalmInv(g, s) && IsRun(g, s, run) && Calm(run)
    ensures CalmInv(g, After(g, s, run)) && Progress(After(g, s, run)) == Progress(s) + |run|
    decreases |run|
  {
    hide CalmInv, Progress, Enabled;
    if run != [] {
      CalmStep(g, s, run[0]);
      CalmKeeps(g, Next(g, s, run[0]), run[1..]);
    }
  }

  /** A timeout-free run has at most ten steps. Once no move is left, both sides have succeeded
      exactly when the announcement carries the server's key and identity; a wrong key stops the
      server at the first message, a wrong identity stops the client at the second, and the other
      side is left waiting. */
  lemma CalmOutcome(g: Setting, run: seq<Action>)
    requires IsRun(g, START, run) && Calm(run)
    ensures |run| <= 10
    ensures var s := After(g, START, run);
      !Enabled(s, ClientMoves) && !Enabled(s, ServerMoves) ==>
        && (g.KeyRight() && g.IdRight() <==> s.client.Connected? && s.server.Accepted?)
        && (!g.KeyRight() ==> s.server.ServerFailed? && s.client.AwaitMsg2?)
        && (g.KeyRight() && !g.IdRight() ==> s.client.ClientFailed? && s.server.AwaitMsg3?)
  {
    hide After, IsRun;
    CalmKeeps(g, START, run);
  }

  lemma {:induction false} Appended(g: Setting, s: State, run: seq<Action>, a: Action)
    requires IsRun(g, s, run) && Enabled(After(g, s, run), a)
    ensures IsRun(g, s, run + [a]) && After(g, s, run + [a]) == Next(g, After(g, s, run), a)
    decreases |run|
  {
    hide Enabled, Next;
    if run == [] {
      assert run + [a] == [a] && [a][1..] == [];
      assert After(g, Next(g, s, a), []) == Next(g, s, a);
    } else {
      Appended(g, Next(g, s, run[0]), run[1..], a);
      assert (run + [a])[1..] == run[1..] + [a];
    }
  }

  lemma Onward(g: Setting, run: seq<Action>, a: Action) returns (longer: seq<Action>)
    requires IsRun(g, START, run) && Enabled(After(g, START, run), a)
    ensures IsRun(g, START, longer) && After(g, START, longer) == Next(g, After(g, START, run), a)
  {
    Appended(g, START, run, a);
    longer := run + [a];
  }

  /** The converse of agreement fails: the server can accept a client that has given up. */
  lemma ServerMayAcceptAlone(g: Setting) returns (run: seq<Action>)
    requires g.KeyRight() && g.IdRight()
    ensures IsRun(g, START, run)
    ensures After(g, START, run).server.Accepted? && After(g, START, run).client.ClientFailed?
  {
    hide IsRun, After;
    EmptyRun(g);
    run := [];
    run := Onward(g, run, ClientMoves);
    run := Onward(g, run, ServerMoves);
    run := Onward(g, run, ServerMoves);
    run := Onward(g, run, ClientMoves);
    run := Onward(g, run, ClientMoves);
    run := Onward(g, run, ClientMoves);
    run := Onward(g, run, ClientTimesOut);
    run := Onward(g, run, ServerMoves);
    run := Onward(g, run, ServerMoves);
    run := Onward(g, run, ServerMoves);
  }

  lemma EmptyRun(g: Setting)
    ensures IsRun(g, START, []) && After(g, START, []) == START
  {
  }

  // ---------- What timeouts change ----------

  lemma {:induction false} FailedStays(g: Setting, s: State, run: seq<Action>)
    requires IsRun(g, s, run) && (s.client.ClientFailed? || ClientTimesOut in run)
    ensures After(g, s, run).client.ClientFailed?
    decreases |run|
  {
    if run != [] {
      FailedStays(g, Next(g, s, run[0]), run[1..]);
    }
  }

  lemma FailsByIdentity(g: Setting, s: State, a: Action)
    requires Inv(g, s) && Enabled(s, a) && a != ClientTimesOut
    requires s.client.ClientFailed? ==> !g.IdRight()
    ensures Next(g, s, a).client.ClientFailed? ==> !g.IdRight()
  {
    if a.ClientMoves? && ClientWaits(s) {
      assert s.down[s.downRead] == DownScript(g)[s.downRead];
    }
  }

  lemma {:induction false} FailureCause(g: Setting, s: State, run: seq<Action>)
    requires Inv(g, s) && IsRun(g, s, run) && ClientTimesOut !in run
    requires s.client.ClientFailed? ==> !g.IdRight()
    ensures After(g, s, run).client.ClientFailed? ==> !g.IdRight()
    decreases |run|
  {
    hide Inv, Next, Enabled;
    if run != [] {
      FailsByIdentity(g, s, run[0]);
      StepKeeps(g, s, run[0]);
      FailureCause(g, Next(g, s, run[0]), run[1..]);
    }
  }

  /** A server that has accepted, once the client has no move left, faces a connected client if and
      only if the client never timed out. */
  lemma AcceptedMeetsExactly(g: Setting, run: seq<Action>)
    requires IsRun(g, START, run) && After(g, START, run).server.Accepted?
    requires !Enabled(After(g, START, run), ClientMoves)
    ensures After(g, START, run).client.Connected? <==> ClientTimesOut !in run
  {
    hide After, IsRun;
    RunKeeps(g, START, run);
    if ClientTimesOut in run {
      FailedStays(g, START, run);
    } else {
      FailureCause(g, START, run);
    }
  }

  /** Of all runs that are over, those connect in which the announcement is right and nobody times
      out, and no others. */
  lemma ConnectedExactly(g: Setting, run: seq<Action>)
    requires IsRun(g, START, run)
    requires !Enabled(After(g, START, run), ClientMoves) && !Enabled(After(g, START, run), ServerMoves)
    ensures After(g, START, run).client.Connected? <==> g.KeyRight() && g.IdRight() && Calm(run)
  {
    hide After, IsRun;
    if Calm(run) {
      CalmOutcome(g, run);
    } else {
      RunKeeps(g, START, run);
      TimedOutFails(g, START, run);
    }
  }

  lemma {:induction false} TimedOutFails(g: Setting, s: State, run: seq<Action>)
    requires IsRun(g, s, run)
    requires s.client.ClientFailed? || s.server.ServerFailed? || !Calm(run)
    ensures After(g, s, run).client.ClientFailed? || After(g, s, run).server.ServerFailed?
    decreases |run|
  {
    if run != [] {
      TimedOutFails(g, Next(g, s, run[0]), run[1..]);
    }
  }
}
