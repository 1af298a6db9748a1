/** Rotating and revoking machine credentials: what a retry finishes, and what stays shut out. */
module Rotation {
  import opened Wrappers
  import opened Enrollment
  import opened EnrollmentRuns

  /** A confirmed replacement is the bound credential, and its predecessor is revoked in its favour. */
  lemma ConfirmationRotates(s: State, p: Principal, m: MachineId, replacement: KeyId)
    requires Inv(s) && Confirm(s, p, m, replacement, NoCrash).reply.Confirmed?
    ensures var t := Confirm(s, p, m, replacement, NoCrash).state;
      && m in t.machines && t.machines[m].credential == Some(replacement) && IsActiveFor(t.ledger, replacement, m)
      && var from := t.ledger.credentials[replacement].rotationFrom;
         && from.Some? && from.value in t.ledger.credentials
         && t.ledger.credentials[from.value].revoked && t.ledger.credentials[from.value].replacedBy == Some(replacement)
         && (from.value in Active(s.ledger, m) ==> Active(t.ledger, m) == {replacement})
  {
    hide IndexAgrees, UsesAgree, AtMostTwoActive;
    assert BindingAgrees(s, m);
    var former := s.ledger.credentials[replacement].rotationFrom.value;
    if former in Active(s.ledger, m) {
      NoOthersActive(s, m, former, replacement);
      RevokeActive(s.ledger, {former}, Some(replacement), m);
    }
  }

  lemma NoOthersActive(s: State, m: MachineId, a: KeyId, b: KeyId)
    requires Inv(s) && a in Active(s.ledger, m) && b in Active(s.ledger, m) && a != b
    ensures Active(s.ledger, m) == {a, b}
  {
    var active := Active(s.ledger, m);
    assert s.ledger.credentials[a].machine == m;
    SubsetIsSmaller({a, b}, active);
    if k :| k in active && k !in {a, b} {
      SubsetIsSmaller({a, b, k}, active);
    }
  }

  /**
   A confirmation that crashed is finished by an immediate retry, from an admin or from whichever
   credential is then bound: the outcome is that of the confirmation had it not crashed.
   */
  lemma ConfirmRetryFinishes(s: State, p: Principal, m: MachineId, replacement: KeyId, crash: Crash, q: Principal)
    requires Inv(s) && Confirm(s, p, m, replacement, NoCrash).reply.Confirmed? && crash.After?
    ensures var t := Confirm(s, p, m, replacement, crash).state;
      CurrencyError(t, q, m, false).None? ==>
        Confirm(t, q, m, replacement, NoCrash) == Confirm(s, p, m, replacement, NoCrash)
  {
    hide IndexAgrees, UsesAgree, AtMostTwoActive;
    assert BindingAgrees(s, m);
  }

  /** A rotation prepared before the retry makes it too late: the predecessor has no successor on record. */
  lemma ConfirmRetryAfterPrepareFails(
    s: State, p: Principal, m: MachineId, replacement: KeyId, q: Principal, r: Principal, crash: Crash)
    requires Inv(s) && Confirm(s, p, m, replacement, NoCrash).reply.Confirmed? && m in s.machines
    requires s.machines[m].credential != Some(replacement)
    ensures var t := Confirm(s, p, m, replacement, After(1)).state;
      var u := Prepare(t, q, m, NoCrash);
      u.reply.Prepared? ==> Confirm(u.state, r, m, replacement, crash).reply.Refused?
  {
    hide IndexAgrees, UsesAgree, AtMostTwoActive;
    assert BindingAgrees(s, m);
    var former := s.machines[m].credential.value;
    var t := Confirm(s, p, m, replacement, After(1)).state;
    assert t.ledger == s.ledger && t.machines[m].credential == Some(replacement);
    assert former in Active(t.ledger, m);
    var u := Prepare(t, q, m, NoCrash);
    if u.reply.Prepared? {
      assert former != u.reply.key && replacement != u.reply.key;
      assert u.state.ledger.credentials[former].revoked && u.state.ledger.credentials[former].replacedBy.None?;
      assert u.state.machines[m].credential == Some(replacement);
    }
  }

  /** An admin, or the machine itself with the credential now bound to it. */
  ghost predicate IsCurrent(s: State, p: Principal, m: MachineId) {
    p == Admin || (m in s.machines && exists k: KeyId :: p == MachineKey(k, m) && s.machines[m].credential == Some(k))
  }

  /** Any credential of a machine that none is bound to. */
  ghost predicate IsOfUnbound(s: State, p: Principal, m: MachineId) {
    m in s.machines && s.machines[m].credential == None && exists k: KeyId :: p == MachineKey(k, m)
  }

  /** Only who is current may rotate, and revoke; of an unbound machine any credential of its own may revoke. */
  lemma OthersAreRefused(s: State, p: Principal, m: MachineId, replacement: KeyId, crash: Crash)
    ensures m !in s.machines || !IsCurrent(s, p, m) ==>
      var refusal := Result(s, Refused(if m in s.machines then NotCurrent else UnknownMachine));
      Prepare(s, p, m, crash) == refusal && Confirm(s, p, m, replacement, crash) == refusal
    ensures m !in s.machines || !(IsCurrent(s, p, m) || IsOfUnbound(s, p, m)) ==>
      Clear(s, p, m, crash) == Result(s, Refused(if m in s.machines then NotCurrent else UnknownMachine))
  {
    if p.MachineKey? {
      assert p == MachineKey(p.key, p.machine);
    }
  }

  /**
   A preparation by someone who may, not cut short, gives the machine a fresh active credential
   that succeeds the bound one, and leaves no other active; the binding is as it was.
   */
  lemma PreparationIs(s: State, p: Principal, m: MachineId)
    requires Inv(s) && m in s.machines && IsCurrent(s, p, m)
    ensures var t := Prepare(s, p, m, NoCrash);
      && t.reply == Prepared(s.nextKey) && s.nextKey !in s.ledger.credentials && t.state.nextKey == s.nextKey + 1
      && t.state.machines == s.machines && t.state.ledger.uses == s.ledger.uses
      && t.state.ledger.credentials.Keys == s.ledger.credentials.Keys + {s.nextKey}
      && t.state.ledger.credentials[s.nextKey] == Credential(m, false, None, s.machines[m].credential)
      && forall k :: k in s.ledger.credentials ==>
           t.state.ledger.credentials[k] ==
             if s.ledger.credentials[k].machine == m && s.machines[m].credential != Some(k)
             then s.ledger.credentials[k].(revoked := true) else s.ledger.credentials[k]
  {
    hide IndexAgrees, UsesAgree, AtMostTwoActive;
    assert BindingAgrees(s, m);
  }

  /** A prepared replacement can be confirmed at once, by an admin or by the credential still bound. */
  lemma PreparedCanBeConfirmed(s: State, p: Principal, m: MachineId)
    requires Inv(s) && m in s.machines && s.machines[m].credential.Some?
    requires s.machines[m].credential.value in s.ledger.credentials
    ensures var t := Prepare(s, p, m, NoCrash);
      t.reply.Prepared? ==>
        && Confirm(t.state, Admin, m, t.reply.key, NoCrash).reply.Confirmed?
        && Confirm(t.state, MachineKey(s.machines[m].credential.value, m), m, t.reply.key, NoCrash).reply.Confirmed?
  {
    assert BindingAgrees(s, m);
  }

  /** A confirmation binds the replacement and revokes its predecessor in its favour; nothing else changes. */
  lemma ConfirmationIs(s: State, p: Principal, m: MachineId, replacement: KeyId)
    requires Inv(s) && m in s.machines && s.machines[m].credential.Some? && IsCurrent(s, p, m)
    requires var former := s.machines[m].credential.value;
      && former in s.ledger.credentials && replacement != former && replacement in s.ledger.credentials
      && s.ledger.credentials[replacement] == Credential(m, false, None, Some(former))
    ensures var former := s.machines[m].credential.value;
      Confirm(s, p, m, replacement, NoCrash) == Result(
        s.(machines := s.machines[m := s.machines[m].(credential := Some(replacement))],
           ledger := s.ledger.(credentials :=
             s.ledger.credentials[former := s.ledger.credentials[former].(revoked := true, replacedBy := Some(replacement))])),
        Confirmed)
  {
    hide IndexAgrees, UsesAgree, AtMostTwoActive;
    assert BindingAgrees(s, m);
    var former := s.machines[m].credential.value;
    assert Revoke(s.ledger, {former}, Some(replacement)).credentials ==
      s.ledger.credentials[former := s.ledger.credentials[former].(revoked := true, replacedBy := Some(replacement))];
  }

  /** A revocation by someone who may unbinds the machine and revokes what was bound, or, unbound, all it has. */
  lemma RevocationIs(s: State, p: Principal, m: MachineId)
    requires Inv(s) && m in s.machines && (IsCurrent(s, p, m) || IsOfUnbound(s, p, m))
    requires s.machines[m].credential.Some? ==> s.machines[m].credential.value in s.ledger.credentials
    ensures var t, bound := Clear(s, p, m, NoCrash), s.machines[m].credential;
      && t.reply == Cleared && t.state.machines == s.machines[m := s.machines[m].(credential := None)]
      && t.state.ledger.uses == s.ledger.uses && t.state.ledger.credentials.Keys == s.ledger.credentials.Keys
      && forall k :: k in s.ledger.credentials ==>
           t.state.ledger.credentials[k] ==
             if bound == Some(k) || (bound == None && s.ledger.credentials[k].machine == m)
             then s.ledger.credentials[k].(revoked := true) else s.ledger.credentials[k]
  {
    hide IndexAgrees, UsesAgree, AtMostTwoActive;
    assert BindingAgrees(s, m);
    assert s.machines[m].credential == None ==> s.machines[m := s.machines[m].(credential := None)] == s.machines;
  }

  /** A crash keeps the catalog's commits that were made and loses the ledger's. */
  lemma CrashesAre(s: State, p: Principal, m: MachineId, replacement: KeyId, crash: Crash)
    requires Inv(s) && crash.After? && m in s.machines
    ensures Prepare(s, p, m, NoCrash).reply.Prepared? ==> Prepare(s, p, m, crash) == Result(s, Crashed)
    ensures Confirm(s, p, m, replacement, NoCrash).reply.Confirmed? ==>
      Confirm(s, p, m, replacement, crash) == Result(
        if crash == After(0) then s else s.(machines := s.machines[m := s.machines[m].(credential := Some(replacement))]), Crashed)
    ensures Clear(s, p, m, NoCrash).reply.Cleared? ==>
      Clear(s, p, m, crash) == Result(
        if crash == After(0) then s else s.(machines := s.machines[m := s.machines[m].(credential := None)]), Crashed)
  {
    hide IndexAgrees, UsesAgree, AtMostTwoActive;
    assert s.machines[m := s.machines[m]] == s.machines;
  }

  /**
   Who is let past authentication: the active credential bound to its machine on every route, and
   an active credential of an unbound machine on the cleanup route; nobody else.
   */
  lemma AdmittedIff(s: State, k: KeyId, cleanup: bool)
    requires Inv(s)
    ensures Admitted(s, k, cleanup) <==>
      exists m :: m in s.machines && k in s.ledger.credentials
        && s.ledger.credentials[k].machine == m && !s.ledger.credentials[k].revoked
        && (s.machines[m].credential == Some(k) || (cleanup && s.machines[m].credential == None))
    ensures forall m :: m in s.machines && s.machines[m].credential == Some(k) && k in s.ledger.credentials ==>
      Admitted(s, k, cleanup)
    ensures forall m :: m in s.machines && s.machines[m].credential.Some? && s.machines[m].credential != Some(k) ==>
      (k in s.ledger.credentials && s.ledger.credentials[k].machine == m ==> !Admitted(s, k, cleanup))
  {
    hide IndexAgrees, UsesAgree, AtMostTwoActive, CredentialsAgree;
    forall m | m in s.machines && s.machines[m].credential == Some(k) ensures BindingAgrees(s, m) {}
  }

  // ----- revocation

  /** A completed revocation unbinds the machine; the credential that was bound is revoked. */
  lemma RevocationUnbinds(s: State, p: Principal, m: MachineId)
    requires Inv(s) && Clear(s, p, m, NoCrash).reply.Cleared?
    ensures var t := Clear(s, p, m, NoCrash).state;
      && m in t.machines && t.machines[m].credential.None?
      && Active(t.ledger, m) == if s.machines[m].credential.Some? then Active(s.ledger, m) - {s.machines[m].credential.value} else {}
  {
    hide IndexAgrees, UsesAgree, AtMostTwoActive;
    var bound := s.machines[m].credential;
    RevokeActive(s.ledger, if bound.Some? then {bound.value} else Active(s.ledger, m), None, m);
    assert (set k | k in Active(s.ledger, m) && None != Some(k)) == Active(s.ledger, m);
  }

  /** A revocation that crashed is finished by the same caller's retry: no credential stays active. */
  lemma RevokeRetryFinishes(s: State, p: Principal, m: MachineId, crash: Crash)
    requires Inv(s) && Clear(s, p, m, NoCrash).reply.Cleared? && crash.After?
    ensures var t := Clear(s, p, m, crash).state;
      && Inv(t)
      && var u := Clear(t, p, m, NoCrash);
         && u.reply.Cleared? && u.state.machines[m].credential.None?
         && (if t == s then u == Clear(s, p, m, NoCrash) else Active(u.state.ledger, m) == {})
  {
    ClearKeepsInv(s, p, m, crash);
    var t := Clear(s, p, m, crash).state;
    hide Inv;
    if t != s {
      RevocationUnbinds(t, p, m);
    }
  }

  /** The command would bind a credential to the machine afresh. */
  predicate Reregisters(c: Command, registration: string) {
    c.DoRegister? && c.request.registration == registration
  }

  lemma StepLeavesUnbound(s: State, c: Command, m: MachineId)
    requires Inv(s) && m in s.machines && s.machines[m].credential.None?
    requires !Reregisters(c, s.machines[m].request.registration)
    ensures var t := Step(s, c).state; m in t.machines && t.machines[m].credential.None?
  {
    hide BindingsAgree, CredentialsAgree, UsesAgree, AtMostTwoActive, Enrolled;
    if c.DoRegister? && RegistrationError(s, c.p, c.request).None? {
      CataloguedMachine(s, c.p, c.request);
      CataloguedIdentities(s, c.p, c.request);
      assert Indexed(s, m);
      hide Catalogued, RegistrationError, Active;
    }
  }

  /**
   After a completed revocation, until the machine is registered again, no credential of the
   machine is let in anywhere but on the cleanup route, whatever else happens.
   */
  lemma {:induction false} UnboundStaysShut(s: State, m: MachineId, cs: seq<Command>, k: KeyId)
    requires Inv(s) && m in s.machines && s.machines[m].credential.None?
    requires forall c :: c in cs ==> !Reregisters(c, s.machines[m].request.registration)
    ensures var t := Run(s, cs);
      && m in t.machines && t.machines[m].credential.None?
      && (k in t.ledger.credentials && t.ledger.credentials[k].machine == m ==> !Admitted(t, k, false))
    decreases |cs|
  {
    hide Inv, Step;
    if cs != [] {
      StepLeavesUnbound(s, cs[0], m);
      StepExtends(s, cs[0]);
      StepKeepsInv(s, cs[0]);
      UnboundStaysShut(Step(s, cs[0]).state, m, cs[1..], k);
    }
  }

  /** A plain revocation spares a prepared replacement, which the cleanup route alone admits; used there it goes too. */
  lemma RevocationSparesThePrepared(s: State, p: Principal, q: Principal, m: MachineId)
    requires Inv(s) && Prepare(s, p, m, NoCrash).reply.Prepared? && m in s.machines && s.machines[m].credential.Some?
    ensures var t := Prepare(s, p, m, NoCrash);
      var u := Clear(t.state, q, m, NoCrash);
      u.reply.Cleared? ==>
        var k := t.reply.key;
        && Active(u.state.ledger, m) == {k} && Admitted(u.state, k, true) && !Admitted(u.state, k, false)
        && var v := Clear(u.state, MachineKey(k, m), m, NoCrash);
           v.reply.Cleared? && Active(v.state.ledger, m) == {}
  {
    PrepareKeepsInv(s, p, m, NoCrash);
    PreparedAndBound(s, p, m);
    hide Inv, Prepare, Clear, Admitted;
    var t := Prepare(s, p, m, NoCrash);
    RevocationSpares(t.state, q, m, t.reply.key);
  }

  lemma RevocationSpares(s: State, q: Principal, m: MachineId, k: KeyId)
    requires Inv(s) && m in s.machines && s.machines[m].credential.Some? && s.machines[m].credential != Some(k)
    requires k in Active(s.ledger, m) && forall o :: o in Active(s.ledger, m) ==> o == k || s.machines[m].credential == Some(o)
    ensures var u := Clear(s, q, m, NoCrash);
      u.reply.Cleared? ==>
        && Active(u.state.ledger, m) == {k} && Admitted(u.state, k, true) && !Admitted(u.state, k, false)
        && var v := Clear(u.state, MachineKey(k, m), m, NoCrash);
           v.reply.Cleared? && Active(v.state.ledger, m) == {}
  {
    hide Inv, Clear, Admitted, Active;
    var u := Clear(s, q, m, NoCrash);
    if u.reply.Cleared? {
      RevocationUnbinds(s, q, m);
      ClearKeepsInv(s, q, m, NoCrash);
      assert Active(u.state.ledger, m) == {k};
      OnCleanupRouteOnly(u.state, m, k);
    }
  }

  lemma OnCleanupRouteOnly(s: State, m: MachineId, k: KeyId)
    requires Inv(s) && m in s.machines && s.machines[m].credential.None? && k in Active(s.ledger, m)
    ensures Admitted(s, k, true) && !Admitted(s, k, false)
    ensures var v := Clear(s, MachineKey(k, m), m, NoCrash); v.reply.Cleared? && Active(v.state.ledger, m) == {}
  {
    var v := Clear(s, MachineKey(k, m), m, NoCrash);
    assert v.reply.Cleared?;
    RevocationUnbinds(s, MachineKey(k, m), m);
  }

  lemma PreparedAndBound(s: State, p: Principal, m: MachineId)
    requires Inv(s) && Prepare(s, p, m, NoCrash).reply.Prepared? && m in s.machines && s.machines[m].credential.Some?
    ensures var t := Prepare(s, p, m, NoCrash);
      && t.state.machines == s.machines && t.reply.key != s.machines[m].credential.value
      && t.reply.key in Active(t.state.ledger, m)
      && forall k :: k in Active(t.state.ledger, m) ==> k == t.reply.key || k == s.machines[m].credential.value
  {
    OnlyOthersGo(s, m);
    BoundKeyIsNotFresh(s, m);
    hide Inv;
  }

  // ----- other machines

  /** The command names this machine, by its id or by its registration. */
  predicate Concerns(s: State, c: Command, m: MachineId)
    requires m in s.machines
  {
    if c.DoRegister? then c.request.registration == s.machines[m].request.registration else c.machine == m
  }

  predicate SameCredentials(a: Ledger, b: Ledger, m: MachineId) {
    forall k :: k in a.credentials && a.credentials[k].machine == m ==> k in b.credentials && b.credentials[k] == a.credentials[k]
  }

  lemma RevokeLeavesOthers(l: Ledger, keys: set<KeyId>, successor: Option<KeyId>, m: MachineId)
    requires forall k :: k in keys && k in l.credentials ==> l.credentials[k].machine != m
    ensures SameCredentials(l, Revoke(l, keys, successor), m)
  {
  }

  lemma EnrolledLeavesOthers(l: Ledger, p: Principal, request: Request, n: MachineId, previous: Option<KeyId>, k: KeyId, m: MachineId)
    requires m != n && k !in l.credentials
    requires previous.Some? && previous.value in l.credentials ==> l.credentials[previous.value].machine == n
    ensures SameCredentials(l, Enrolled(l, p, request, n, previous, k), m)
  {
    var used := if p.Enroller? then l.(uses := l.uses[p.key := Use(request, Some(n))]) else l;
    RevokeLeavesOthers(used, (set o | o in Active(used, n) && previous != Some(o)), None, m);
    var issued := Issue(RevokeOthers(used, n, previous), k, n, None);
    assert SameCredentials(l, issued, m);
    if previous.Some? && previous.value in l.credentials {
      assert issued.credentials[previous.value].machine == n;
      RevokeLeavesOthers(issued, {previous.value}, Some(k), m);
    }
  }

  lemma RegisterLeavesOthers(s: State, p: Principal, request: Request, crash: Crash, m: MachineId)
    requires Inv(s) && m in s.machines && request.registration != s.machines[m].request.registration
    ensures var t := Register(s, p, request, crash).state;
      m in t.machines && t.machines[m] == s.machines[m] && SameCredentials(s.ledger, t.ledger, m)
  {
    hide UsesAgree, AtMostTwoActive, Enrolled, Active;
    if RegistrationError(s, p, request).None? {
      var c := Catalogued(s, p, request);
      CataloguedMachine(s, p, request);
      CataloguedIdentities(s, p, request);
      var n := c.index[request.registration];
      assert n != m;
      assert n in s.machines ==> BindingAgrees(s, n);
      EnrolledLeavesOthers(c.ledger, p, request, n, c.machines[n].credential, c.nextKey, m);
      hide Inv, Catalogued, RegistrationError;
    }
  }

  lemma RevocationLeavesOthers(s: State, n: MachineId, successor: Option<KeyId>, m: MachineId)
    requires Inv(s) && n in s.machines && m != n
    ensures SameCredentials(s.ledger, RevokeOthers(s.ledger, n, s.machines[n].credential), m)
    ensures s.machines[n].credential.Some? ==>
      SameCredentials(s.ledger, Revoke(s.ledger, {s.machines[n].credential.value}, successor), m)
  {
    assert BindingAgrees(s, n);
    var bound := s.machines[n].credential;
    RevokeLeavesOthers(s.ledger, (set k | k in Active(s.ledger, n) && bound != Some(k)), None, m);
    if bound.Some? {
      RevokeLeavesOthers(s.ledger, {bound.value}, successor, m);
    }
  }

  lemma PrepareLeavesOthers(s: State, p: Principal, n: MachineId, crash: Crash, m: MachineId)
    requires Inv(s) && m in s.machines && m != n
    ensures var t := Prepare(s, p, n, crash).state; t.machines == s.machines && SameCredentials(s.ledger, t.ledger, m)
  {
    hide IndexAgrees, BindingsAgree, UsesAgree, AtMostTwoActive, Revoke, RevokeOthers, Active;
    if n in s.machines {
      RevocationLeavesOthers(s, n, None, m);
    }
  }

  lemma ConfirmLeavesOthers(s: State, p: Principal, n: MachineId, replacement: KeyId, crash: Crash, m: MachineId)
    requires Inv(s) && m in s.machines && m != n
    ensures var t := Confirm(s, p, n, replacement, crash).state;
      m in t.machines && t.machines[m] == s.machines[m] && SameCredentials(s.ledger, t.ledger, m)
  {
    hide Inv, Revoke, RevokeOthers, Active;
    if n in s.machines {
      RevocationLeavesOthers(s, n, Some(replacement), m);
      if CanFinish(s.ledger, n, replacement) {
        RevokeLeavesOthers(s.ledger, {s.ledger.credentials[replacement].rotationFrom.value}, Some(replacement), m);
      }
    }
  }

  lemma ClearLeavesOthers(s: State, p: Principal, n: MachineId, crash: Crash, m: MachineId)
    requires Inv(s) && m in s.machines && m != n
    ensures var t := Clear(s, p, n, crash).state;
      m in t.machines && t.machines[m] == s.machines[m] && SameCredentials(s.ledger, t.ledger, m)
  {
    hide Inv, Revoke, RevokeOthers, Active;
    if n in s.machines {
      RevocationLeavesOthers(s, n, None, m);
    }
  }

  /** A machine's record and credentials change only by commands that name it. */
  lemma StepLeavesOthers(s: State, c: Command, m: MachineId)
    requires Inv(s) && m in s.machines && !Concerns(s, c, m)
    ensures var t := Step(s, c).state;
      m in t.machines && t.machines[m] == s.machines[m] && SameCredentials(s.ledger, t.ledger, m)
  {
    hide Inv, Register, Prepare, Confirm, Clear;
    match c
    case DoRegister(p, request, crash) => RegisterLeavesOthers(s, p, request, crash, m);
    case DoPrepare(p, n, crash) => PrepareLeavesOthers(s, p, n, crash, m);
    case DoConfirm(p, n, replacement, crash) => ConfirmLeavesOthers(s, p, n, replacement, crash, m);
    case DoClear(p, n, crash) => ClearLeavesOthers(s, p, n, crash, m);
  }
}
