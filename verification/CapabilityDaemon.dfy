/** The token store and policy table of userspace/security/capability_daemon.c: arrays filled
    from the front, searched linearly, with deletion by moving the last token into the gap. */
module CapabilityDaemon {
  import opened Machine
  import opened Bytes
  import opened CapabilityModel

  datatype Policy = Policy(pid: int, rights: Rights)

  ghost predicate HasId(store: seq<Token>, id: nat) {
    exists i :: 0 <= i < |store| && store[i].id == id
  }

  /** The array's tokens are exactly the ones in the map. */
  ghost predicate Represents(store: seq<Token>, tokens: map<nat, Token>) {
    && |store| == |tokens|
    && (forall i :: 0 <= i < |store| ==> store[i].id in tokens && tokens[store[i].id] == store[i])
    && (forall i, j :: 0 <= i < j < |store| ==> store[i].id != store[j].id)
    && (forall id :: id in tokens ==> HasId(store, id))
  }

  ghost predicate HasPid(table: seq<Policy>, pid: int) {
    exists i :: 0 <= i < |table| && table[i].pid == pid
  }

  ghost predicate RepresentsPolicy(table: seq<Policy>, policy: map<int, Rights>) {
    && |table| == |policy|
    && (forall i :: 0 <= i < |table| ==> table[i].pid in policy && policy[table[i].pid] == table[i].rights)
    && (forall pid :: pid in policy ==> HasPid(table, pid))
  }

  /** Deletion by moving the last token into the gap. */
  lemma SwapDelete(store: seq<Token>, tokens: map<nat, Token>, i: nat)
    requires Represents(store, tokens) && i < |store|
    ensures Represents(store[i := store[|store| - 1]][..|store| - 1], tokens - {store[i].id})
  {
    hide HasId;
    var n, gone := |store| - 1, store[i].id;
    var s, m := store[i := store[n]][..n], tokens - {gone};
    assert |m| == |tokens| - 1 by {
      assert m.Keys == tokens.Keys - {gone};
    }
    assert forall k :: 0 <= k < n ==> s[k] == if k == i then store[n] else store[k];
    forall id | id in m ensures HasId(s, id) {
      SurvivesDelete(store, i, id);
    }
  }

  lemma SurvivesDelete(store: seq<Token>, i: nat, id: nat)
    requires i < |store| && HasId(store, id) && store[i].id != id
    ensures HasId(store[i := store[|store| - 1]][..|store| - 1], id)
  {
    var n := |store| - 1;
    var k :| 0 <= k < |store| && store[k].id == id;
    assert store[i := store[n]][..n][if k == n then i else k].id == id;
  }

  lemma Append(store: seq<Token>, tokens: map<nat, Token>, t: Token)
    requires Represents(store, tokens) && t.id !in tokens
    ensures Represents(store + [t], tokens[t.id := t])
  {
    var s, m := store + [t], tokens[t.id := t];
    assert s[|store|].id == t.id;
    assert HasId(s, t.id);
    forall id | id in tokens ensures HasId(s, id) { StillThere(store, t, id); }
    hide HasId;
  }

  lemma StillThere(store: seq<Token>, t: Token, id: nat)
    requires HasId(store, id)
    ensures HasId(store + [t], id)
  {
    var k :| 0 <= k < |store| && store[k].id == id;
    assert (store + [t])[k].id == id;
  }

  lemma AppendPolicy(table: seq<Policy>, policy: map<int, Rights>, p: Policy)
    requires RepresentsPolicy(table, policy) && p.pid !in policy
    ensures RepresentsPolicy(table + [p], policy[p.pid := p.rights])
  {
    var s := table + [p];
    assert s[|table|].pid == p.pid;
    forall pid | pid in policy ensures HasPid(s, pid) {
      var k :| 0 <= k < |table| && table[k].pid == pid;
      assert s[k].pid == pid;
    }
  }

  function OwnedCount(store: seq<Token>, pid: int): nat {
    if store == [] then 0
    else OwnedCount(store[..|store| - 1], pid) + if store[|store| - 1].owner == pid then 1 else 0
  }

  ghost function OwnedIds(store: seq<Token>, pid: int): set<nat> {
    set i | 0 <= i < |store| && store[i].owner == pid :: store[i].id
  }

  lemma OwnedIdsGrow(store: seq<Token>, n: nat, pid: int)
    requires n == |store| - 1 && forall i :: 0 <= i < n ==> store[i].id != store[n].id
    ensures store[n].id !in OwnedIds(store[..n], pid)
    ensures OwnedIds(store, pid) == OwnedIds(store[..n], pid) + if store[n].owner == pid then {store[n].id} else {}
  {
  }

  lemma {:induction false} OwnedCountIsSize(store: seq<Token>, pid: int)
    requires forall i, j :: 0 <= i < j < |store| ==> store[i].id != store[j].id
    ensures OwnedCount(store, pid) == |OwnedIds(store, pid)|
  {
    if store != [] {
      var n := |store| - 1;
      OwnedIdsGrow(store, n, pid);
      OwnedCountIsSize(store[..n], pid);
      hide OwnedIds;
    }
  }

  /** Counting over the array counts the owner's live tokens. */
  lemma OwnedCountIsExact(store: seq<Token>, s: State, pid: int)
    requires Represents(store, s.tokens)
    ensures OwnedCount(store, pid) == |OwnedBy(s, pid)|
  {
    OwnedCountIsSize(store, pid);
    assert OwnedIds(store, pid) == OwnedBy(s, pid);
  }

  class Daemon {
    const store: array<Token>
    const table: array<Policy>
    var count: nat
    var policyCount: nat
    var nextId: nat
    ghost var state: State

    ghost predicate Valid()
      reads this, store, table
    {
      && store.Length == TOKEN_MAX && table.Length == MAX_POLICY
      && count <= TOKEN_MAX && policyCount <= MAX_POLICY
      && Represents(store[..count], state.tokens) && RepresentsPolicy(table[..policyCount], state.policy)
      && nextId == state.nextId && Inv(state)
      && forall i :: 0 <= i < TOKEN_MAX ==> |store[i].tag| == 64 && store[i].tag[63] == 0
    }

    constructor ()
      ensures Valid() && state == BOOTED && fresh(store) && fresh(table)
    {
      store := new Token[TOKEN_MAX](_ => Token(0, 0, 0, 0, 0, 0, seq(64, _ => 0)));
      table := new Policy[MAX_POLICY](_ => Policy(0, 0));
      count, policyCount, nextId := 0, 0, 1;
      state := BOOTED;
    }

    /** The registrations before the first request. */
    method Start()
      requires Valid() && state == BOOTED
      modifies this, table
      ensures Valid() && state == STARTED
    {
      var i := PolicyRegister(1, Compositor);
      i := PolicyRegister(2, Strict);
    }

    method PolicyLookup(pid: int) returns (i: int)
      requires Valid()
      ensures i == -1 <==> pid !in state.policy
      ensures i != -1 ==> 0 <= i < policyCount && table[i].pid == pid && table[i].rights == state.policy[pid]
    {
      hide Represents, Inv;
      for k := 0 to policyCount
        invariant forall j :: 0 <= j < k ==> table[j].pid != pid
      {
        if table[k].pid == pid { return k; }
      }
      return -1;
    }

    method TokenFind(id: nat) returns (i: int)
      requires Valid()
      ensures i == -1 <==> id !in state.tokens
      ensures i != -1 ==> 0 <= i < count && store[i].id == id && store[i] == state.tokens[id]
    {
      hide RepresentsPolicy, Inv;
      for k := 0 to count
        invariant forall j :: 0 <= j < k ==> store[j].id != id
      {
        if store[k].id == id { return k; }
      }
      return -1;
    }

    /** Returns the place of the process in the table, or -ENOSPC. */
    method PolicyRegister(pid: int, hint: Hint) returns (i: int)
      requires Valid()
      modifies this, table
      ensures Valid() && (state, Registered) == Serve(old(state), Connect(pid, hint))
      ensures i == -28 <==> pid !in old(state).policy && |old(state).policy| >= MAX_POLICY
      ensures i != -28 ==> 0 <= i < policyCount && pid in state.policy && table[i] == Policy(pid, state.policy[pid])
    {
      hide Represents, RepresentsPolicy, DefaultRights, Inv;
      i := PolicyLookup(pid);
      PolicySizes();
      if i >= 0 { return; }
      if policyCount >= MAX_POLICY { return -28; }
      i := policyCount;
      ServeInv(state, Connect(pid, hint));
      AppendPolicy(table[..policyCount], state.policy, Policy(pid, DefaultRights(hint)));
      table[policyCount] := Policy(pid, DefaultRights(hint));
      policyCount := policyCount + 1;
      state := state.(policy := state.policy[pid := DefaultRights(hint)]);
      assert table[..policyCount] == old(table[..policyCount]) + [Policy(pid, DefaultRights(hint))];
    }

    lemma PolicySizes()
      requires Valid()
      ensures |state.policy| == policyCount && |state.tokens| == count
    {
    }

    lemma NextIdIsNew()
      requires Valid()
      ensures state.nextId !in state.tokens
    {
    }

    /** `strncpy` of at most 63 bytes: the last byte of the slot is left as it was. */
    static function StoredLabel(src: seq<byte>, old63: byte): seq<byte> {
      var s := CString(src);
      (if |s| > 63 then s[..63] else s + seq(63 - |s|, _ => 0)) + [old63]
    }

    static lemma StoredLabelIsTerminated(src: seq<byte>)
      ensures StoredLabel(src, 0) == Label(src)
    {
    }

    method TokenGrant(owner: int, rights: Rights, tag: seq<byte>, now: nat) returns (reply: Reply)
      requires Valid() && nextId < INT_MAX
      modifies this, store
      ensures Valid() && (state, reply) == Grant(old(state), owner, rights, tag, now)
    {
      hide Represents, RepresentsPolicy, Inv, Label, StoredLabel, Within;
      PolicySizes();
      if count >= TOKEN_MAX { return Deny(NoSpace); }
      var p := PolicyLookup(owner);
      if p < 0 || !Within(rights, table[p].rights) { return Deny(NotPermitted); }
      NextIdIsNew();
      ServeInv(state, Ask(owner, owner, rights, tag, now));
      StoredLabelIsTerminated(tag);
      var t := Token(nextId, rights, 0, 0, (now + LIFETIME) % TWO64, owner, StoredLabel(tag, store[count].tag[63]));
      Append(store[..count], state.tokens, t);
      store[count] := t;
      count := count + 1;
      nextId := nextId + 1;
      state := State(state.tokens[t.id := t], state.nextId + 1, state.policy);
      assert store[..count] == old(store[..count]) + [t];
      return Granted(t.id, rights);
    }

    method TokenRevoke(id: nat, ghost sender: int) returns (reply: Reply)
      requires Valid()
      modifies this, store
      ensures Valid() && (state, reply) == Serve(old(state), Revoke(id, sender))
    {
      hide Represents, RepresentsPolicy, Inv;
      var i := TokenFind(id);
      if i < 0 { return Deny(NoEntry); }
      ServeInv(state, Revoke(id, sender));
      SwapDelete(store[..count], state.tokens, i);
      store[i] := store[count - 1];
      count := count - 1;
      state := state.(tokens := state.tokens - {id});
      assert store[..count] == old(store[..count])[i := old(store[count - 1])][..old(count) - 1];
      return Revoked;
    }

    method TokenVerify(id: nat, requester: int, now: nat) returns (reply: Reply)
      requires Valid()
      ensures (state, reply) == Serve(state, Verify(id, requester, now))
    {
      var i := TokenFind(id);
      if i < 0 { return Deny(NoEntry); }
      if store[i].owner != requester { return Deny(NotPermitted); }
      if now > store[i].expiry { return Deny(Expired); }
      return Verified(store[i]);
    }

    method TokenList(sender: int) returns (reply: Reply)
      requires Valid()
      ensures (state, reply) == Serve(state, List(sender))
    {
      hide Represents, RepresentsPolicy, Inv;
      OwnedCountIsExact(store[..count], state, sender);
      var n := 0;
      for i := 0 to count
        invariant n == OwnedCount(store[..i], sender)
      {
        assert store[..i + 1][..i] == store[..i];
        if store[i].owner == sender { n := n + 1; }
      }
      return Count(n);
    }

    /** The decision part of `handle_message`, and of accepting a connection. */
    method Handle(r: Request) returns (reply: Reply)
      requires Valid() && nextId < INT_MAX
      modifies this, store, table
      ensures Valid() && (state, reply) == Serve(old(state), r)
    {
      hide Represents, RepresentsPolicy, Inv;
      match r
      case Connect(pid, hint) =>
        var i := PolicyRegister(pid, hint);
        reply := Registered;
      case Ask(_, sender, rights, tag, now) =>
        var p := PolicyLookup(sender);
        if p < 0 { return Deny(UnknownPid); }
        reply := TokenGrant(sender, rights, tag, now);
      case Revoke(id, sender) =>
        reply := TokenRevoke(id, sender);
      case Verify(id, sender, now) =>
        reply := TokenVerify(id, sender, now);
      case List(sender) =>
        reply := TokenList(sender);
      case Unknown =>
        reply := Deny(BadType);
    }
  }
}
