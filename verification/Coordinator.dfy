/** The coordinator's calls, step by step over the catalog and the credential tables. */
module Coordinator {
  import opened Wrappers
  import E = Enrollment
  import opened Enrollment
  import opened EnrollmentRuns

  class MachineCredentialCoordinator {
    var machines: map<MachineId, Machine>
    var index: map<string, MachineId>
    var credentials: map<KeyId, Credential>
    var uses: map<KeyId, Use>
    var nextKey: KeyId
    var nextMachine: MachineId

    function Current(): State
      reads this
    {
      State(machines, index, Ledger(credentials, uses), nextKey, nextMachine)
    }

    constructor ()
      ensures Current() == State(map[], map[], Ledger(map[], map[]), 0, 0) && Inv(Current())
    {
      machines, index, credentials, uses, nextKey, nextMachine := map[], map[], map[], map[], 0, 0;
    }

    // ----- the credential tables

    /** Whether the key had been used for this request before; nothing when it was used for another. */
    method ConsumeEnrollment(key: KeyId, request: Request) returns (recovered: Option<bool>)
      modifies `uses
      ensures recovered == if key !in old(uses) then Some(false) else if old(uses)[key].request == request then Some(true) else None
      ensures uses == if key in old(uses) then old(uses) else old(uses)[key := Use(request, None)]
    {
      if key !in uses {
        uses := uses[key := Use(request, None)];
        return Some(false);
      }
      recovered := if uses[key].request == request then Some(true) else None;
    }

    method BindEnrollmentUse(key: KeyId, m: MachineId) returns (ok: bool)
      requires key in uses
      modifies `uses
      ensures ok <==> old(uses)[key].machine.None? || old(uses)[key].machine == Some(m)
      ensures uses == if ok then old(uses)[key := Use(old(uses)[key].request, Some(m))] else old(uses)
    {
      ok := uses[key].machine.None? || uses[key].machine == Some(m);
      if ok {
        uses := uses[key := uses[key].(machine := Some(m))];
      }
    }

    method IssueMachine(m: MachineId, rotationFrom: Option<KeyId>) returns (k: KeyId)
      modifies `credentials, `nextKey
      ensures k == old(nextKey) && nextKey == k + 1
      ensures Ledger(credentials, uses) == Issue(old(Ledger(credentials, uses)), k, m, rotationFrom)
    {
      k := nextKey;
      nextKey := nextKey + 1;
      credentials := credentials[k := Credential(m, false, None, rotationFrom)];
    }

    method RevokeMachineKey(key: KeyId, m: MachineId, successor: Option<KeyId>) returns (ok: bool)
      modifies `credentials
      ensures ok <==> key in old(credentials) && old(credentials)[key].machine == m
      ensures Ledger(credentials, uses) ==
        if ok then Revoke(old(Ledger(credentials, uses)), {key}, successor) else old(Ledger(credentials, uses))
    {
      ok := key in credentials && credentials[key].machine == m;
      if ok {
        credentials := credentials[key := RevokedBy(credentials[key], successor)];
      }
    }

    /** Revokes, one by one, the machine's active credentials but the one to keep. */
    method RevokeAllBut(m: MachineId, keep: Option<KeyId>)
      modifies `credentials
      ensures Ledger(credentials, uses) == RevokeOthers(old(Ledger(credentials, uses)), m, keep)
    {
      hide Revoke, Active, Handled;
      ghost var before := Ledger(credentials, uses);
      var listed := set k | k in credentials && credentials[k].machine == m;
      var rest := listed;
      NothingHandled(before, m, keep, listed);
      while rest != {}
        invariant rest <= listed
        invariant Ledger(credentials, uses) == Revoke(before, Handled(before, m, keep, rest), None)
        decreases |rest|
      {
        var k :| k in rest;
        OneMoreHandled(before, m, keep, rest, k);
        rest := rest - {k};
        if keep != Some(k) && !credentials[k].revoked {
          var revoked := RevokeMachineKey(k, m, None);
        }
      }
      AllHandled(before, m, keep);
    }

    // ----- the catalog, each method one transaction

    /** Finds or creates the registration's machine; nothing when it belongs elsewhere or differs. */
    method RegisterMachine(request: Request, enrollment: Option<KeyId>, recovered: bool) returns (m: Option<MachineId>)
      requires forall r :: r in index ==> index[r] in machines
      modifies `machines, `index, `nextMachine
      ensures var r := request.registration;
        if r !in old(index) then
          && m == Some(old(nextMachine)) && nextMachine == old(nextMachine) + 1 && index == old(index)[r := old(nextMachine)]
          && machines == old(machines)[old(nextMachine) := Machine(request, None, enrollment)]
        else
          var there := old(machines)[old(index)[r]];
          var owner := if there.enrollment.None? && recovered then enrollment else there.enrollment;
          var agreed := there.request == request && (enrollment.Some? ==> owner == enrollment);
          && m == (if agreed then Some(old(index)[r]) else None)
          && index == old(index) && nextMachine == old(nextMachine)
          && machines == if agreed then old(machines)[old(index)[r] := there.(enrollment := owner)] else old(machines)
    {
      if request.registration in index {
        var saved, id := machines, index[request.registration];
        if enrollment.Some? && machines[id].enrollment.None? && recovered {
          machines := machines[id := machines[id].(enrollment := enrollment)];
        }
        if (enrollment.Some? && machines[id].enrollment != enrollment) || machines[id].request != request {
          machines := saved;
          return None;
        }
        return Some(id);
      }
      m := Some(nextMachine);
      machines := machines[nextMachine := Machine(request, None, enrollment)];
      index := index[request.registration := nextMachine];
      nextMachine := nextMachine + 1;
    }

    method BindMachineCredential(m: MachineId, expected: Option<KeyId>, key: KeyId) returns (ok: bool)
      requires m in machines
      modifies `machines
      ensures ok <==> old(machines)[m].credential == expected
      ensures Current() == if ok then Bind(old(Current()), m, Some(key)) else old(Current())
    {
      ok := machines[m].credential == expected;
      if ok {
        machines := machines[m := machines[m].(credential := Some(key))];
      }
    }

    method ClearMachineCredential(m: MachineId, expected: KeyId) returns (ok: bool)
      requires m in machines
      modifies `machines
      ensures ok <==> old(machines)[m].credential.None? || old(machines)[m].credential == Some(expected)
      ensures Current() == if ok then Bind(old(Current()), m, None) else old(Current())
    {
      ok := machines[m].credential.None? || machines[m].credential == Some(expected);
      if ok {
        machines := machines[m := machines[m].(credential := None)];
      }
    }

    // ----- the calls, each inside one transaction of the credential tables

    /** Uses up the enrollment key and enters the machine in the catalog, which commits. */
    method EnterCatalog(p: Principal, request: Request) returns (error: Option<Error>, m: MachineId, recovered: bool)
      requires Inv(Current())
      modifies `uses, `machines, `index, `nextMachine
      ensures error == RegistrationError(old(Current()), p, request)
      ensures error.Some? ==> Current() == old(Current())
      ensures error.None? ==>
        && Current() == Catalogued(old(Current()), p, request).(ledger := Ledger(credentials, uses))
        && request.registration in index && m == index[request.registration]
        && recovered == IsRecovery(old(Current()), p, request)
        && (if p.Enroller? then p.key in uses && uses == old(uses)[p.key := uses[p.key]] else uses == old(uses))
        && (p.Enroller? ==> uses[p.key].request == request && (uses[p.key].machine.Some? ==> uses[p.key].machine == Some(m)))
    {
      hide Inv, UseAgrees;
      IndexFinds(Current());
      error, m, recovered := None, 0, false;
      ghost var s := Current();
      var savedUses := uses;
      if p.MachineKey? {
        error := Some(NotPermitted);
        return;
      }
      if p.Enroller? {
        var consumed := ConsumeEnrollment(p.key, request);
        if consumed.None? {
          error := Some(EnrollmentConsumed);
          return;
        }
        recovered := consumed.value;
      }
      var existing := if request.registration in index then Some(machines[index[request.registration]]) else None;
      var registered := RegisterMachine(request, EnrollmentOf(p), recovered);
      if registered.None? {
        uses := savedUses;
        error := Some(RegistrationConflict);
        return;
      }
      m := registered.value;
      assert machines == Catalogued(s, p, request).machines;
      UseRepeats(s, p, request);
      if p.Enroller? && existing.Some? {
        recovered := existing.value.enrollment == Some(p.key);
      }
    }

    method Register(p: Principal, request: Request, crash: Crash) returns (reply: Reply)
      requires Inv(Current())
      modifies this
      ensures Result(Current(), reply) == E.Register(old(Current()), p, request, crash)
    {
      hide Inv, Active, Rekeyed, Catalogued, RegistrationError, IsRecovery;
      if crash == After(0) {
        return Crashed;
      }
      ghost var s := Current();
      var savedCredentials, savedUses := credentials, uses;
      var error, m, recovered := EnterCatalog(p, request);
      if error.Some? {
        return Refused(error.value);
      }
      KnownCredentials(s, p, request);
      CataloguedMachine(s, p, request);
      if crash == After(1) {
        credentials, uses := savedCredentials, savedUses;
        return Crashed;
      }
      var previous := machines[m].credential;
      if p.Enroller? {
        var bound := BindEnrollmentUse(p.key, m);
        assert bound;  // The call's second refusal for a used key never happens.
      }
      assert uses == if p.Enroller? then s.ledger.uses[p.key := Use(request, Some(m))] else s.ledger.uses;
      var k := Rekey(m, previous);
      if crash.After? {
        credentials, uses := savedCredentials, savedUses;
        return Crashed;
      }
      reply := Registered(m, k, recovered);
    }

    /** Leaves the machine with one fresh credential, bound in the catalog, and revokes all others. */
    method Rekey(m: MachineId, previous: Option<KeyId>) returns (k: KeyId)
      requires m in machines && machines[m].credential == previous
      requires forall o :: o in credentials ==> o < nextKey
      requires previous.Some? && previous.value in credentials ==> credentials[previous.value].machine == m
      modifies `machines, `credentials, `nextKey
      ensures k == old(nextKey) && nextKey == k + 1
      ensures machines == old(machines)[m := old(machines)[m].(credential := Some(k))]
      ensures Ledger(credentials, uses) == Rekeyed(old(Ledger(credentials, uses)), m, previous, k)
    {
      hide Active, Revoke, RevokeOthers;
      ghost var before := Ledger(credentials, uses);
      var known := previous.Some? && previous.value in credentials;
      RevokeAllBut(m, previous);
      RevokeOthersKeeps(before, m, previous);
      k := IssueMachine(m, None);
      var swapped := BindMachineCredential(m, previous, k);
      if known {
        var revoked := RevokeMachineKey(previous.value, m, Some(k));
      }
    }

    method RequireCurrent(p: Principal, m: MachineId, allowCleared: bool) returns (error: Option<Error>)
      ensures error == CurrencyError(Current(), p, m, allowCleared)
    {
      if m !in machines {
        return Some(UnknownMachine);
      }
      if p.Admin? {
        return None;
      }
      var bound := machines[m].credential;
      if !p.MachineKey? || p.machine != m || (bound != Some(p.key) && !(allowCleared && bound.None?)) {
        return Some(NotCurrent);
      }
      error := None;
    }

    method PrepareRotation(p: Principal, m: MachineId, crash: Crash) returns (reply: Reply)
      modifies this
      ensures Result(Current(), reply) == Prepare(old(Current()), p, m, crash)
    {
      var error := RequireCurrent(p, m, false);
      if error.Some? {
        return Refused(error.value);
      }
      if crash.After? {
        return Crashed;
      }
      var bound := machines[m].credential;
      RevokeAllBut(m, bound);
      var k := IssueMachine(m, bound);
      reply := Prepared(k);
    }

    /** Whether the key is an active credential of the machine. */
    method RequireMachineCredential(k: KeyId, m: MachineId) returns (ok: bool)
      ensures ok <==> IsActiveFor(Ledger(credentials, uses), k, m)
    {
      ok := k in credentials && !credentials[k].revoked && credentials[k].machine == m;
    }

    method ConfirmRotation(p: Principal, m: MachineId, replacement: KeyId, crash: Crash) returns (reply: Reply)
      requires Inv(Current())
      modifies this
      ensures Result(Current(), reply) == Confirm(old(Current()), p, m, replacement, crash)
    {
      var error := RequireCurrent(p, m, false);
      if error.Some? {
        return Refused(error.value);
      }
      var savedCredentials := credentials;
      var valid := RequireMachineCredential(replacement, m);
      if !valid {
        return Refused(InvalidCredential);
      }
      var bound, from := machines[m].credential, credentials[replacement].rotationFrom;
      if bound == Some(replacement) {
        if from.None? || !(p.Admin? || p.key == replacement) || from.value !in credentials {
          return Refused(InvalidCredential);
        }
        var former := credentials[from.value];
        if former.machine != m || (!former.revoked && former.replacedBy.Some?)
          || (former.revoked && former.replacedBy != Some(replacement)) {
          return Refused(InvalidCredential);
        }
        if crash.After? {
          return Crashed;
        }
        if !former.revoked {
          var finished := RevokeMachineKey(from.value, m, Some(replacement));
        }
        return Confirmed;
      }
      if bound.None? || from != bound {
        return Refused(InvalidCredential);
      }
      if crash == After(0) {
        return Crashed;
      }
      assert BindingAgrees(Current(), m);
      var swapped := BindMachineCredential(m, bound, replacement);
      var revoked := RevokeMachineKey(bound.value, m, Some(replacement));
      if !revoked {
        credentials := savedCredentials;
        return Refused(InvalidCredential);
      }
      if crash.After? {
        credentials := savedCredentials;
        return Crashed;
      }
      reply := Confirmed;
    }

    method RevokeCredential(p: Principal, m: MachineId, crash: Crash) returns (reply: Reply)
      requires Inv(Current())
      modifies this
      ensures Result(Current(), reply) == Clear(old(Current()), p, m, crash)
    {
      var error := RequireCurrent(p, m, true);
      if error.Some? {
        return Refused(error.value);
      }
      var savedCredentials, bound := credentials, machines[m].credential;
      if bound.None? {
        if crash.After? {
          return Crashed;
        }
        RevokeAllBut(m, None);
        return Cleared;
      }
      assert BindingAgrees(Current(), m);
      var revoked := RevokeMachineKey(bound.value, m, None);
      if !revoked {
        return Refused(InvalidCredential);
      }
      if crash == After(0) {
        credentials := savedCredentials;
        return Crashed;
      }
      var cleared := ClearMachineCredential(m, bound.value);
      if crash.After? {
        credentials := savedCredentials;
        return Crashed;
      }
      reply := Cleared;
    }
  }

  lemma RevokeOthersKeeps(l: Ledger, m: MachineId, keep: Option<KeyId>)
    ensures RevokeOthers(l, m, keep).credentials.Keys == l.credentials.Keys
    ensures forall k :: k in l.credentials ==> RevokeOthers(l, m, keep).credentials[k].machine == l.credentials[k].machine
  {
  }

  /** The credentials that the loop has revoked once only those in rest are left to look at. */
  ghost function Handled(l: Ledger, m: MachineId, keep: Option<KeyId>, rest: set<KeyId>): set<KeyId> {
    set k | k in Active(l, m) && keep != Some(k) && k !in rest
  }

  lemma NothingHandled(l: Ledger, m: MachineId, keep: Option<KeyId>, listed: set<KeyId>)
    requires forall k :: k in l.credentials && l.credentials[k].machine == m ==> k in listed
    ensures Revoke(l, Handled(l, m, keep, listed), None) == l
  {
    assert Handled(l, m, keep, listed) == {};
    assert Revoke(l, {}, None).credentials == l.credentials;
  }

  lemma OneMoreHandled(l: Ledger, m: MachineId, keep: Option<KeyId>, rest: set<KeyId>, k: KeyId)
    requires k in rest && k in l.credentials && l.credentials[k].machine == m
    ensures var now := Revoke(l, Handled(l, m, keep, rest), None);
      && k in now.credentials && now.credentials[k] == l.credentials[k]
      && Revoke(l, Handled(l, m, keep, rest - {k}), None) ==
           if keep != Some(k) && !now.credentials[k].revoked then Revoke(now, {k}, None) else now
  {
    var now := Revoke(l, Handled(l, m, keep, rest), None);
    if keep != Some(k) && !now.credentials[k].revoked {
      assert Handled(l, m, keep, rest - {k}) == Handled(l, m, keep, rest) + {k};
    } else {
      assert Handled(l, m, keep, rest - {k}) == Handled(l, m, keep, rest);
    }
  }

  lemma AllHandled(l: Ledger, m: MachineId, keep: Option<KeyId>)
    ensures Revoke(l, Handled(l, m, keep, {}), None) == RevokeOthers(l, m, keep)
  {
    assert Handled(l, m, keep, {}) == set k | k in Active(l, m) && keep != Some(k);
  }

  lemma KnownCredentials(s: State, p: Principal, request: Request)
    requires Inv(s) && RegistrationError(s, p, request).None?
    ensures forall k :: k in s.ledger.credentials ==> k < s.nextKey
    ensures var c := Catalogued(s, p, request);
      && request.registration in c.index && c.index[request.registration] in c.machines
      && var previous := c.machines[c.index[request.registration]].credential;
         previous.Some? && previous.value in s.ledger.credentials ==>
           s.ledger.credentials[previous.value].machine == c.index[request.registration]
  {
    CataloguedMachine(s, p, request);
    var m := Catalogued(s, p, request).index[request.registration];
    assert m in s.machines ==> BindingAgrees(s, m);
  }

  lemma IndexFinds(s: State)
    requires Inv(s)
    ensures forall r :: r in s.index ==> s.index[r] in s.machines
  {
  }
}
