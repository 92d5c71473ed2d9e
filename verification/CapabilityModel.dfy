/** The capability daemon as a state machine over finite maps: tokens by id, rights by process. */
module CapabilityModel {
  import opened Machine
  import opened Bytes

  const TOKEN_MAX: nat := 64
  const MAX_POLICY: nat := 128
  const LIFETIME: nat := 3_600_000_000_000

  type Rights = bv64

  datatype Hint = Strict | App | Container | Compositor

  function DefaultRights(hint: Hint): Rights {
    match hint
    case Strict => 0x0003
    case App => 0x60E3
    case Container => 0x01FF
    case Compositor => 0x0E1B
  }

  datatype Right =
    | MemoryRead | MemoryWrite | MemoryExec | IpcSend | IpcRecv | FileRead | FileWrite | NetConnect | NetBind
    | Display | Input | AudioPlayback | AudioCapture | Sensor | Notification | Vibrate | Admin

  /** The bit that stands for a right. */
  function BitOf(r: Right): Rights {
    match r
    case MemoryRead => 0x1
    case MemoryWrite => 0x2
    case MemoryExec => 0x4
    case IpcSend => 0x8
    case IpcRecv => 0x10
    case FileRead => 0x20
    case FileWrite => 0x40
    case NetConnect => 0x80
    case NetBind => 0x100
    case Display => 0x200
    case Input => 0x400
    case AudioPlayback => 0x800
    case AudioCapture => 0x1000
    case Sensor => 0x2000
    case Notification => 0x4000
    case Vibrate => 0x8000
    case Admin => 0x8000_0000_0000_0000
  }

  /** The rights each kind of process has, by name. */
  function Preset(hint: Hint): set<Right> {
    {MemoryRead, MemoryWrite} +
    match hint
    case Strict => {}
    case App => {FileRead, FileWrite, NetConnect, Notification, Sensor}
    case Container => {MemoryExec, FileRead, FileWrite, NetConnect, NetBind, IpcSend, IpcRecv}
    case Compositor => {Display, Input, IpcSend, IpcRecv, AudioPlayback}
  }

  /** The masks hold exactly the rights of the presets. */
  lemma PresetsExact(hint: Hint, r: Right)
    ensures Within(BitOf(r), DefaultRights(hint)) <==> r in Preset(hint)
  {
  }

  predicate Within(requested: Rights, max: Rights) { max & requested == requested }

  /** `bounds` are always empty; `tag` is the label and holds 64 bytes. */
  datatype Token = Token(id: nat, rights: Rights, lo: nat, hi: nat, expiry: nat, owner: int, tag: seq<byte>)

  datatype State = State(tokens: map<nat, Token>, nextId: nat, policy: map<int, Rights>)

  const BOOTED: State := State(map[], 1, map[])

  /** The daemon registers two processes before it serves anyone. */
  const STARTED: State := State(map[], 1, map[1 := DefaultRights(Compositor), 2 := DefaultRights(Strict)])

  /** Token ids are `int`. */
  const INT_MAX: nat := 0x7FFF_FFFF

  /** `peer` is the process at the other end of the connection, `sender` the one the message
      names. */
  datatype Request =
    | Connect(pid: int, hint: Hint)
    | Ask(peer: int, sender: int, rights: Rights, tag: seq<byte>, now: nat)
    | Revoke(id: nat, sender: int)
    | Verify(id: nat, sender: int, now: nat)
    | List(sender: int)
    | Unknown

  datatype Error = UnknownPid | NoSpace | NotPermitted | NoEntry | Expired | BadType

  datatype Reply =
    | Deny(error: Error)
    | Granted(id: nat, rights: Rights)
    | Revoked
    | Verified(token: Token)
    | Count(n: nat)
    | Registered

  /** The first 63 characters of a C string, zero-filled to 64 bytes. */
  function Label(src: seq<byte>): (l: seq<byte>)
    ensures |l| == 64 && l[63] == 0
  {
    var s := CString(src);
    var t := if |s| > 63 then s[..63] else s;
    t + seq(64 - |t|, _ => 0)
  }

  ghost function OwnedBy(s: State, pid: int): set<nat> {
    set id | id in s.tokens && s.tokens[id].owner == pid
  }

  ghost function Grant(s: State, owner: int, rights: Rights, tag: seq<byte>, now: nat): (State, Reply) {
    if |s.tokens| >= TOKEN_MAX then (s, Deny(NoSpace))
    else if owner !in s.policy || !Within(rights, s.policy[owner]) then (s, Deny(NotPermitted))
    else
      var t := Token(s.nextId, rights, 0, 0, (now + LIFETIME) % TWO64, owner, Label(tag));
      (s.(tokens := s.tokens[t.id := t], nextId := s.nextId + 1), Granted(t.id, rights))
  }

  ghost function Serve(s: State, r: Request): (State, Reply) {
    match r
    case Connect(pid, hint) =>
      if pid in s.policy || |s.policy| >= MAX_POLICY then (s, Registered)
      else (s.(policy := s.policy[pid := DefaultRights(hint)]), Registered)
    case Ask(_, sender, rights, tag, now) =>
      if sender !in s.policy then (s, Deny(UnknownPid)) else Grant(s, sender, rights, tag, now)
    case Revoke(id, _) =>
      if id in s.tokens then (s.(tokens := s.tokens - {id}), Revoked) else (s, Deny(NoEntry))
    case Verify(id, sender, now) =>
      if id !in s.tokens then (s, Deny(NoEntry))
      else if s.tokens[id].owner != sender then (s, Deny(NotPermitted))
      else if now > s.tokens[id].expiry then (s, Deny(Expired))
      else (s, Verified(s.tokens[id]))
    case List(sender) => (s, Count(|OwnedBy(s, sender)|))
    case Unknown => (s, Deny(BadType))
  }

  /** Token ids are below the next one, and every token's rights lie within its owner's policy. */
  ghost predicate Inv(s: State) {
    && |s.tokens| <= TOKEN_MAX && s.nextId >= 1
    && forall id :: id in s.tokens ==>
         && s.tokens[id].id == id && 1 <= id < s.nextId
         && s.tokens[id].owner in s.policy && Within(s.tokens[id].rights, s.policy[s.tokens[id].owner])
  }

  lemma ServeInv(s: State, r: Request)
    requires Inv(s)
    ensures Inv(Serve(s, r).0)
  {
    hide Label, Within, DefaultRights;
    hide Inv, Grant;
    match r
    case Ask(_, sender, rights, tag, now) => GrantInv(s, sender, rights, tag, now);
    case Revoke(id, _) => RevokeInv(s, id);
    case Connect(pid, hint) => ConnectInv(s, pid, DefaultRights(hint));
    case Verify(_, _, _) =>
    case List(_) =>
    case Unknown =>
  }

  lemma RevokeInv(s: State, id: nat)
    requires Inv(s)
    ensures Inv(s.(tokens := s.tokens - {id}))
  {
    hide Within;
    var t := s.tokens - {id};
    assert t.Keys <= s.tokens.Keys;
    FewerKeys(t.Keys, s.tokens.Keys);
    assert |t| == |t.Keys| && |s.tokens| == |s.tokens.Keys|;
  }

  lemma {:induction false} FewerKeys(a: set<nat>, b: set<nat>)
    requires a <= b
    ensures |a| <= |b|
  {
    assert b == a + (b - a);
  }

  lemma ConnectInv(s: State, pid: int, rights: Rights)
    requires Inv(s)
    ensures pid !in s.policy ==> Inv(s.(policy := s.policy[pid := rights]))
  {
    hide Within;
  }

  lemma GrantInv(s: State, owner: int, rights: Rights, tag: seq<byte>, now: nat)
    requires Inv(s)
    ensures Inv(Grant(s, owner, rights, tag, now).0)
  {
    hide Label, Within;
  }

  /** One request: policies stay, live tokens do not change, and old ids do not come back. */
  ghost predicate Monotone(s: State, s': State) {
    && s.nextId <= s'.nextId
    && (forall pid :: pid in s.policy ==> pid in s'.policy && s'.policy[pid] == s.policy[pid])
    && (forall id :: id < s.nextId && id !in s.tokens ==> id !in s'.tokens)
    && (forall id :: id in s.tokens && id in s'.tokens ==> s'.tokens[id] == s.tokens[id])
  }

  lemma ServeMonotone(s: State, r: Request)
    requires Inv(s)
    ensures Monotone(s, Serve(s, r).0)
  {
    hide Label, Within, DefaultRights;
  }

  ghost predicate IsRun(trace: seq<State>, rs: seq<Request>) {
    && |trace| == |rs| + 1 && trace[0] == STARTED
    && forall i :: 0 <= i < |rs| ==> trace[i].nextId < INT_MAX && trace[i + 1] == Serve(trace[i], rs[i]).0
  }

  lemma {:induction false} RunInv(trace: seq<State>, rs: seq<Request>, n: nat)
    requires IsRun(trace, rs) && n < |trace|
    ensures Inv(trace[n])
  {
    if n > 0 {
      RunInv(trace, rs, n - 1);
      ServeInv(trace[n - 1], rs[n - 1]);
    }
  }

  /** From one time to a later one: policies stay fixed, live tokens never change, and an id
      that was issued and is gone stays gone. */
  lemma {:induction false} RunMonotone(trace: seq<State>, rs: seq<Request>, m: nat, n: nat)
    requires IsRun(trace, rs) && m <= n < |trace|
    ensures Monotone(trace[m], trace[n])
    decreases n - m
  {
    hide Serve, Inv;
    if m < n {
      RunMonotone(trace, rs, m, n - 1);
      RunInv(trace, rs, m);
      RunInv(trace, rs, n - 1);
      ServeMonotone(trace[n - 1], rs[n - 1]);
    }
  }

  /** No id is issued twice in a run, whether or not it was revoked in between. */
  lemma NeverReissued(trace: seq<State>, rs: seq<Request>, m: nat, n: nat)
    requires IsRun(trace, rs) && m < n < |rs|
    requires Serve(trace[m], rs[m]).1.Granted? && Serve(trace[n], rs[n]).1.Granted?
    ensures Serve(trace[m], rs[m]).1.id < Serve(trace[n], rs[n]).1.id
  {
    RunMonotone(trace, rs, m + 1, n);
  }

  // ---------- Tokens and their history ----------

  ghost predicate Grants(s: State, r: Request, id: nat) {
    r.Ask? && Serve(s, r).1.Granted? && Serve(s, r).1.id == id
  }

  /** Request `m` was granted token `id`, and nothing revoked it before time `n`. */
  ghost predicate IssuedAt(trace: seq<State>, rs: seq<Request>, id: nat, m: nat, n: nat)
    requires n <= |rs| && n <= |trace|
  {
    && m < n && Grants(trace[m], rs[m], id)
    && forall j :: m < j < n ==> !(rs[j].Revoke? && rs[j].id == id)
  }

  /** The token that a request asks for and gets. */
  function Wanted(r: Request, id: nat): Token
    requires r.Ask?
  {
    Token(id, r.rights, 0, 0, (r.now + LIFETIME) % TWO64, r.sender, Label(r.tag))
  }

  /** One request: the token of an id is new, gone, or as it was. */
  lemma ServeToken(s: State, r: Request, id: nat)
    requires Inv(s)
    ensures var t := Serve(s, r).0;
      && (Grants(s, r, id) ==> id in t.tokens && t.tokens[id] == Wanted(r, id) && id !in s.tokens)
      && (r.Revoke? && r.id == id ==> id !in t.tokens)
      && (!Grants(s, r, id) && !(r.Revoke? && r.id == id) ==>
            (id in t.tokens <==> id in s.tokens) && (id in s.tokens ==> t.tokens[id] == s.tokens[id]))
  {
    hide Label, Within, DefaultRights;
  }

  /** A token is live exactly when a request was granted it and no later one revoked it; it
      then is the token that request asked for. */
  lemma {:induction false} TokensAreHistory(trace: seq<State>, rs: seq<Request>, id: nat, n: nat)
    requires IsRun(trace, rs) && n < |trace|
    ensures id in trace[n].tokens <==> exists m: nat :: IssuedAt(trace, rs, id, m, n)
    ensures forall m: nat :: IssuedAt(trace, rs, id, m, n) ==>
              id in trace[n].tokens && trace[n].tokens[id] == Wanted(rs[m], id)
  {
    hide Serve, Inv, Wanted;
    if n > 0 {
      TokensAreHistory(trace, rs, id, n - 1);
      RunInv(trace, rs, n - 1);
      ServeToken(trace[n - 1], rs[n - 1], id);
      if id in trace[n].tokens {
        if Grants(trace[n - 1], rs[n - 1], id) {
          assert IssuedAt(trace, rs, id, n - 1, n);
        } else {
          var m: nat :| IssuedAt(trace, rs, id, m, n - 1);
          assert IssuedAt(trace, rs, id, m, n);
        }
      }
      forall m: nat | IssuedAt(trace, rs, id, m, n)
        ensures id in trace[n].tokens && trace[n].tokens[id] == Wanted(rs[m], id)
      {
        if m < n - 1 {
          assert IssuedAt(trace, rs, id, m, n - 1);
        }
      }
    }
  }

  /** VERIFY succeeds exactly for a sender that was granted the token earlier, within its
      lifetime, while no one has revoked it; it then shows what was granted, and the sender's
      policy allows it. */
  lemma VerifyExact(trace: seq<State>, rs: seq<Request>, n: nat, id: nat, sender: int, now: nat)
    requires IsRun(trace, rs) && n < |trace|
    ensures var reply := Serve(trace[n], Verify(id, sender, now)).1;
      && (reply.Verified? <==> exists m: nat :: IssuedAt(trace, rs, id, m, n) && rs[m].sender == sender
                                                && now <= (rs[m].now + 3600 * 1_000_000_000) % TWO64)
      && (reply.Verified? ==> sender in trace[n].policy && Within(reply.token.rights, trace[n].policy[sender]))
    ensures forall m: nat :: IssuedAt(trace, rs, id, m, n) && Serve(trace[n], Verify(id, sender, now)).1.Verified? ==>
              Serve(trace[n], Verify(id, sender, now)).1.token == Wanted(rs[m], id)
  {
    assert |trace| == |rs| + 1;
    hide IssuedAt, Within, Wanted, Serve, IsRun, Inv;
    RunInv(trace, rs, n);
    TokensAreHistory(trace, rs, id, n);
    VerifyReply(trace[n], id, sender, now);
    if id in trace[n].tokens { LiveRights(trace[n], id); }
    IssuedByAsk(trace, rs, id, n);
    forall m: nat | IssuedAt(trace, rs, id, m, n)
      ensures Wanted(rs[m], id).owner == rs[m].sender
      ensures Wanted(rs[m], id).expiry == (rs[m].now + 3600 * 1_000_000_000) % TWO64
    {
      WantedFields(rs[m], id);
    }
  }

  lemma WantedFields(r: Request, id: nat)
    requires r.Ask?
    ensures Wanted(r, id).owner == r.sender && Wanted(r, id).expiry == (r.now + 3600 * 1_000_000_000) % TWO64
  {
  }

  lemma IssuedByAsk(trace: seq<State>, rs: seq<Request>, id: nat, n: nat)
    requires n <= |rs| && n <= |trace|
    ensures forall m: nat :: IssuedAt(trace, rs, id, m, n) ==> m < n && rs[m].Ask?
  {
  }

  lemma LiveRights(s: State, id: nat)
    requires Inv(s) && id in s.tokens
    ensures s.tokens[id].owner in s.policy && Within(s.tokens[id].rights, s.policy[s.tokens[id].owner])
  {
    hide Within;
  }

  lemma VerifyReply(s: State, id: nat, sender: int, now: nat)
    ensures var reply := Serve(s, Verify(id, sender, now)).1;
      && (id !in s.tokens ==> reply == Deny(NoEntry))
      && (id in s.tokens && s.tokens[id].owner != sender ==> reply == Deny(NotPermitted))
      && (id in s.tokens && s.tokens[id].owner == sender ==>
            reply == if now > s.tokens[id].expiry then Deny(Expired) else Verified(s.tokens[id]))
  {
  }

  /** Why VERIFY refuses: the token was never granted or is revoked, is someone else's, or has
      expired, in this order. */
  lemma VerifyRefusals(trace: seq<State>, rs: seq<Request>, n: nat, id: nat, sender: int, now: nat)
    requires IsRun(trace, rs) && n < |trace|
    ensures var reply := Serve(trace[n], Verify(id, sender, now)).1;
      && (reply == Deny(NoEntry) <==> forall m: nat :: !IssuedAt(trace, rs, id, m, n))
      && (forall m: nat :: IssuedAt(trace, rs, id, m, n) ==>
            && (reply == Deny(NotPermitted) <==> rs[m].sender != sender)
            && (reply == Deny(Expired) <==> rs[m].sender == sender && now > (rs[m].now + 3600 * 1_000_000_000) % TWO64))
  {
    assert |trace| == |rs| + 1;
    hide IssuedAt, Wanted, Serve, IsRun;
    TokensAreHistory(trace, rs, id, n);
    VerifyReply(trace[n], id, sender, now);
    IssuedByAsk(trace, rs, id, n);
    forall m: nat | IssuedAt(trace, rs, id, m, n)
      ensures Wanted(rs[m], id).owner == rs[m].sender
      ensures Wanted(rs[m], id).expiry == (rs[m].now + 3600 * 1_000_000_000) % TWO64
    {
      WantedFields(rs[m], id);
    }
  }

  /** REVOKE succeeds exactly for tokens that are granted and not revoked yet. */
  lemma RevokeExact(trace: seq<State>, rs: seq<Request>, n: nat, id: nat, sender: int)
    requires IsRun(trace, rs) && n < |trace|
    ensures var reply := Serve(trace[n], Revoke(id, sender)).1;
      && (reply == Revoked <==> exists m: nat :: IssuedAt(trace, rs, id, m, n))
      && (reply != Revoked ==> reply == Deny(NoEntry))
  {
    TokensAreHistory(trace, rs, id, n);
    hide IssuedAt;
  }

  /** LIST answers with the number of tokens that were granted to the sender and not revoked. */
  lemma ListExact(trace: seq<State>, rs: seq<Request>, n: nat, sender: int, ids: set<nat>)
    requires IsRun(trace, rs) && n < |trace|
    requires forall id :: id in ids <==> exists m: nat :: IssuedAt(trace, rs, id, m, n) && rs[m].sender == sender
    ensures Serve(trace[n], List(sender)).1 == Count(|ids|)
  {
    forall id ensures id in ids <==> id in OwnedBy(trace[n], sender) {
      TokensAreHistory(trace, rs, id, n);
      if id in trace[n].tokens {
        var m: nat :| IssuedAt(trace, rs, id, m, n);
      }
    }
    hide IssuedAt;
    assert ids == OwnedBy(trace[n], sender);
  }

  /** REQUEST is refused to unknown processes, then when 64 tokens are out, then for rights the
      policy does not have; otherwise it gets those rights under an id never issued before. */
  lemma AskExact(trace: seq<State>, rs: seq<Request>, n: nat, r: Request, ids: set<nat>)
    requires IsRun(trace, rs) && n < |trace| && r.Ask?
    requires forall id :: id in ids <==> exists m: nat :: IssuedAt(trace, rs, id, m, n)
    ensures var reply, policy := Serve(trace[n], r).1, trace[n].policy;
      && (reply == Deny(UnknownPid) <==> r.sender !in policy)
      && (reply == Deny(NoSpace) <==> r.sender in policy && |ids| >= 64)
      && (reply == Deny(NotPermitted) <==> r.sender in policy && |ids| < 64 && !Within(r.rights, policy[r.sender]))
      && (reply.Granted? <==> r.sender in policy && |ids| < 64 && Within(r.rights, policy[r.sender]))
      && (reply.Granted? ==> reply.rights == r.rights && forall m :: 0 <= m < n ==> !Grants(trace[m], rs[m], reply.id))
  {
    hide IssuedAt, Grants, Within, Label, IsRun;
    LiveIds(trace, rs, n, ids);
    NextIsNew(trace, rs, n);
  }

  lemma LiveIds(trace: seq<State>, rs: seq<Request>, n: nat, ids: set<nat>)
    requires IsRun(trace, rs) && n < |trace|
    requires forall id :: id in ids <==> exists m: nat :: IssuedAt(trace, rs, id, m, n)
    ensures |ids| == |trace[n].tokens|
  {
    hide IsRun, IssuedAt;
    forall id ensures id in ids <==> id in trace[n].tokens.Keys { TokensAreHistory(trace, rs, id, n); }
    assert ids == trace[n].tokens.Keys;
  }

  lemma NextIsNew(trace: seq<State>, rs: seq<Request>, n: nat)
    requires IsRun(trace, rs) && n < |trace|
    ensures forall m :: 0 <= m < n ==> !Grants(trace[m], rs[m], trace[n].nextId)
  {
    hide Label, Within, DefaultRights;
    forall m | 0 <= m < n ensures !Grants(trace[m], rs[m], trace[n].nextId) {
      RunMonotone(trace, rs, m + 1, n);
    }
  }

  /** The first registration of a process that finds room fixes its rights for good. */
  lemma FirstRegistrationDecides(trace: seq<State>, rs: seq<Request>, m: nat, n: nat, pid: int, hint: Hint)
    requires IsRun(trace, rs) && m < n < |trace| && rs[m] == Connect(pid, hint)
    requires pid !in trace[m].policy
    ensures |trace[m].policy| < 128 ==> pid in trace[n].policy && trace[n].policy[pid] == DefaultRights(hint)
    ensures |trace[m].policy| >= 128 ==> trace[m + 1] == trace[m]
  {
    RunMonotone(trace, rs, m + 1, n);
    hide DefaultRights;
  }

  /** A stored label reads back as the first 63 characters of the one sent. */
  lemma LabelReadsBack(src: seq<byte>)
    ensures var s := CString(src); CString(Label(src)) == if |s| > 63 then s[..63] else s
  {
    var s := CString(src);
    var t := if |s| > 63 then s[..63] else s;
    var zeros: seq<byte> := seq(64 - |t|, _ => 0);
    assert Label(src) == t + zeros;
    hide CString, Label;
    PaddedString(t, zeros);
  }

  lemma {:induction false} PaddedString(t: seq<byte>, zeros: seq<byte>)
    requires 0 !in t && |zeros| > 0 && zeros[0] == 0
    ensures CString(t + zeros) == t
  {
    if t != [] {
      assert (t + zeros)[1..] == t[1..] + zeros;
      PaddedString(t[1..], zeros);
    }
  }

  // ---------- Who removes tokens ----------

  /** Tokens disappear by requests of their owners only. */
  ghost predicate OwnersRemove(s: State, r: Request) {
    forall id :: id in s.tokens && id !in Serve(s, r).0.tokens ==> r.Revoke? && r.sender == s.tokens[id].owner
  }

  /** This holds exactly of requests other than revoking a live token of someone else. */
  lemma OwnersRemoveExact(s: State, r: Request)
    ensures OwnersRemove(s, r) <==> !(r.Revoke? && r.id in s.tokens && s.tokens[r.id].owner != r.sender)
  {
    hide Label, Within, DefaultRights;
    if r.Revoke? && r.id in s.tokens {
      assert r.id !in Serve(s, r).0.tokens;
    }
  }

  /** A run in which process 2 removes the token of process 1. */
  lemma OthersCanRemove() returns (trace: seq<State>, rs: seq<Request>)
    ensures IsRun(trace, rs) && |rs| == 2 && !OwnersRemove(trace[1], rs[1])
  {
    rs := [Ask(1, 1, 0, [], 0), Revoke(1, 2)];
    assert Within(0, DefaultRights(Compositor));
    var s1 := Serve(STARTED, rs[0]).0;
    assert 1 in s1.tokens && s1.tokens[1].owner == 1;
    OwnersRemoveExact(s1, rs[1]);
    trace := [STARTED, s1, Serve(s1, rs[1]).0];
  }

  // ---------- Whose rights decide ----------

  /** What this peer gets in the name of `sender` is within the peer's own policy. */
  ghost predicate GrantsWithinPeer(s: State, peer: int, sender: int) {
    forall rights, tag, now :: Serve(s, Ask(peer, sender, rights, tag, now)).1.Granted? ==>
      peer in s.policy && Within(rights, s.policy[peer])
  }

  lemma WithinTransitive(a: Rights, b: Rights, c: Rights)
    requires Within(a, b) && Within(b, c)
    ensures Within(a, c)
  {
  }

  lemma WithinReflexive(a: Rights)
    ensures Within(a, a)
  {
  }

  /** A message is judged by the process it names. So the peer's own policy bounds what it gets
      exactly when nothing is granted to that name, or the name has no right the peer lacks. */
  lemma GrantsWithinPeerExact(s: State, peer: int, sender: int)
    ensures GrantsWithinPeer(s, peer, sender) <==>
            sender !in s.policy || |s.tokens| >= TOKEN_MAX
            || (peer in s.policy && Within(s.policy[sender], s.policy[peer]))
  {
    hide Within, Label, DefaultRights;
    if sender in s.policy && |s.tokens| < TOKEN_MAX {
      WithinReflexive(s.policy[sender]);
      assert Serve(s, Ask(peer, sender, s.policy[sender], [], 0)).1.Granted?;
      if peer in s.policy && Within(s.policy[sender], s.policy[peer]) {
        forall rights, tag, now | Serve(s, Ask(peer, sender, rights, tag, now)).1.Granted?
          ensures Within(rights, s.policy[peer])
        {
          WithinTransitive(rights, s.policy[sender], s.policy[peer]);
        }
      }
    }
  }

  /** A run in which process 7, an ordinary application, gets rights that its policy does not
      allow by naming process 1. */
  lemma NamedProcessDecides() returns (trace: seq<State>, rs: seq<Request>)
    ensures IsRun(trace, rs) && rs == [Connect(7, App)] && trace[1].policy[7] == DefaultRights(App)
    ensures !GrantsWithinPeer(trace[1], 7, 1)
  {
    rs := [Connect(7, App)];
    trace := [STARTED, Serve(STARTED, rs[0]).0];
    assert |STARTED.policy| == 2;
    assert !Within(DefaultRights(Compositor), DefaultRights(App));
    GrantsWithinPeerExact(trace[1], 7, 1);
  }
}
