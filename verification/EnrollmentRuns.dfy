/** What holds of machine credentials over whole runs, with crashes anywhere. */
module EnrollmentRuns {
  import opened Wrappers
  import opened Enrollment

  function Run(s: State, cs: seq<Command>): (r: State)
    requires Inv(s)
    ensures Inv(r)
    decreases |cs|
  {
    if cs == [] then s
    else
      StepKeepsInv(s, cs[0]);
      Run(Step(s, cs[0]).state, cs[1..])
  }

  /** In every reachable state a machine has at most two active credentials. */
  lemma AtMostTwoActiveAlways(s: State, cs: seq<Command>, m: MachineId)
    requires Inv(s)
    ensures |Active(Run(s, cs).ledger, m)| <= 2
  {
    var l := Run(s, cs).ledger;
    if k :| k in Active(l, m) {
      assert l.credentials[k].machine == m;
    } else {
      assert Active(l, m) == {};
    }
  }

  // ----- identities, once given, stay

  predicate SameMachine(a: Machine, b: Machine) {
    b.request == a.request && (a.enrollment.Some? ==> b.enrollment == a.enrollment)
  }

  predicate SameUse(a: Use, b: Use) {
    b.request == a.request && (a.machine.Some? ==> b.machine == a.machine)
  }

  /** Machines keep their requests, enrollments once set, and enrollment keys their uses. */
  predicate Extends(s: State, t: State) {
    && (forall r :: r in s.index ==> r in t.index && t.index[r] == s.index[r])
    && (forall m :: m in s.machines ==> m in t.machines && SameMachine(s.machines[m], t.machines[m]))
    && (forall e :: e in s.ledger.uses ==> e in t.ledger.uses && SameUse(s.ledger.uses[e], t.ledger.uses[e]))
  }

  /** What a registration adds to the catalogued state: a binding, and the use of the key. */
  lemma RegisterShape(s: State, p: Principal, request: Request, crash: Crash)
    requires Inv(s) && RegistrationError(s, p, request).None? && crash != After(0)
    ensures var c, t := Catalogued(s, p, request), Register(s, p, request, crash).state;
      && t.index == c.index && t.machines.Keys == c.machines.Keys
      && (forall m :: m in c.machines ==> SameMachine(c.machines[m], t.machines[m]))
      && (t.ledger.uses == s.ledger.uses || (p.Enroller? && request.registration in c.index
            && t.ledger.uses == s.ledger.uses[p.key := Use(request, Some(c.index[request.registration]))]))
  {
    CataloguedMachine(s, p, request);
    hide Inv, Catalogued, Enrolled, RegistrationError;
  }

  /** A key used before was used for this request, and for the machine it names. */
  lemma UseRepeats(s: State, p: Principal, request: Request)
    requires Inv(s) && RegistrationError(s, p, request).None? && request.registration in Catalogued(s, p, request).index
    ensures p.Enroller? && p.key in s.ledger.uses ==>
      SameUse(s.ledger.uses[p.key], Use(request, Some(Catalogued(s, p, request).index[request.registration])))
  {
    hide BindingsAgree, CredentialsAgree, AtMostTwoActive;
    if p.Enroller? && p.key in s.ledger.uses {
      assert UseAgrees(s, p.key);
    }
  }

  lemma RegisterExtends(s: State, p: Principal, request: Request, crash: Crash)
    requires Inv(s)
    ensures Extends(s, Register(s, p, request, crash).state)
  {
    hide Inv, Enrolled, Bind, Catalogued, RegistrationError;
    if RegistrationError(s, p, request).None? && crash != After(0) {
      CataloguedMachine(s, p, request);
      CataloguedExtends(s, p, request);
      RegisterShape(s, p, request, crash);
      UseRepeats(s, p, request);
      ThenExtends(s, Catalogued(s, p, request), Register(s, p, request, crash).state);
    }
  }

  lemma ThenExtends(s: State, c: State, t: State)
    requires Extends(s, c) && t.index == c.index && t.machines.Keys == c.machines.Keys
    requires forall m :: m in c.machines ==> SameMachine(c.machines[m], t.machines[m])
    requires forall e :: e in s.ledger.uses ==> e in t.ledger.uses && SameUse(s.ledger.uses[e], t.ledger.uses[e])
    ensures Extends(s, t)
  {
  }

  lemma CataloguedExtends(s: State, p: Principal, request: Request)
    requires Inv(s) && RegistrationError(s, p, request).None?
    ensures Extends(s, Catalogued(s, p, request))
  {
    hide BindingsAgree, CredentialsAgree, AtMostTwoActive, UsesAgree;
  }

  lemma StepExtends(s: State, c: Command)
    requires Inv(s)
    ensures Extends(s, Step(s, c).state)
  {
    hide Inv, Revoke, RevokeOthers, Issue, Register, CanFinish, IsActiveFor;
    match c
    case DoRegister(p, request, crash) => RegisterExtends(s, p, request, crash);
    case DoPrepare(_, _, _) =>
    case DoConfirm(_, _, _, _) =>
    case DoClear(_, _, _) =>
  }

  lemma {:induction false} RunExtends(s: State, cs: seq<Command>)
    requires Inv(s)
    ensures Extends(s, Run(s, cs))
    decreases |cs|
  {
    hide Inv, Step;
    if cs != [] {
      StepExtends(s, cs[0]);
      StepKeepsInv(s, cs[0]);
      RunExtends(Step(s, cs[0]).state, cs[1..]);
    }
  }

  // ----- registration

  /** Whether the enrollment key may register the request: exactly when it is fresh, or was used for it. */
  predicate MayRegister(s: State, p: Principal, request: Request)
    requires Inv(s)
  {
    && !p.MachineKey?
    && (request.registration in s.index ==> s.machines[s.index[request.registration]].request == request)
    && (p.Enroller? ==>
          && (p.key in s.ledger.uses ==> s.ledger.uses[p.key].request == request)
          && (request.registration in s.index ==>
                var owner := s.machines[s.index[request.registration]].enrollment;
                owner == Some(p.key) || (owner.None? && p.key in s.ledger.uses)))
  }

  /**
   A registration that does not crash succeeds exactly when allowed, and then the credential it
   returns is the one bound to the machine and the machine's only active one.
   */
  lemma RegistrationConverges(s: State, p: Principal, request: Request)
    requires Inv(s)
    ensures var r := Register(s, p, request, NoCrash);
      && (r.reply.Registered? <==> MayRegister(s, p, request))
      && (r.reply.Registered? ==>
            var m, k := r.reply.machine, r.reply.key;
            && k !in s.ledger.credentials && m in r.state.machines && r.state.machines[m].request == request
            && r.state.machines[m].credential == Some(k) && Active(r.state.ledger, m) == {k})
      && (!r.reply.Registered? ==> r.state == s)
  {
    hide BindingsAgree, AtMostTwoActive, UsesAgree;
    if RegistrationError(s, p, request).None? {
      CataloguedMachine(s, p, request);
      var c := Catalogued(s, p, request);
      var m := c.index[request.registration];
      OnlyTheNewKey(c.ledger, p, request, m, c.machines[m].credential, c.nextKey);
    }
  }

  lemma OnlyTheNewKey(l: Ledger, p: Principal, request: Request, m: MachineId, previous: Option<KeyId>, k: KeyId)
    requires k !in l.credentials
    ensures Active(Enrolled(l, p, request, m, previous, k), m) == {k}
  {
    var used := if p.Enroller? then l.(uses := l.uses[p.key := Use(request, Some(m))]) else l;
    var others := set o | o in Active(used, m) && previous != Some(o);
    RevokeActive(used, others, None, m);
    var issued := Issue(RevokeOthers(used, m, previous), k, m, None);
    assert Active(issued, m) == Active(RevokeOthers(used, m, previous), m) + {k};
    if previous.Some? {
      RevokeActive(issued, {previous.value}, Some(k), m);
    }
  }

  /** Why a registration is refused: the caller, a key used for another request, or a machine that is not its own. */
  lemma RefusalIs(s: State, p: Principal, request: Request)
    requires Inv(s)
    ensures var r := Register(s, p, request, NoCrash).reply;
      && (r == Refused(NotPermitted) <==> p.MachineKey?)
      && (r == Refused(EnrollmentConsumed) <==>
            exists e :: p == Enroller(e) && e in s.ledger.uses && s.ledger.uses[e].request != request)
      && (r.Refused? ==> r.error in {NotPermitted, EnrollmentConsumed, RegistrationConflict})
  {
    if p.Enroller? {
      assert p == Enroller(p.key);
    }
    hide Inv, Catalogued, Enrolled;
  }

  /** The machine that a registration enters or finds, and what becomes of the catalog. */
  lemma RegisteredMachineIs(s: State, p: Principal, request: Request)
    requires Inv(s) && Register(s, p, request, NoCrash).reply.Registered?
    ensures var r := Register(s, p, request, NoCrash);
      var m, known := r.reply.machine, request.registration in s.index;
      && r.reply.key == s.nextKey && r.state.nextKey == s.nextKey + 1
      && m == (if known then s.index[request.registration] else s.nextMachine) && (known <==> m in s.machines)
      && r.state.nextMachine == (if known then s.nextMachine else s.nextMachine + 1)
      && r.state.index == s.index[request.registration := m]
      && r.state.machines == s.machines[m := Machine(request, Some(s.nextKey),
           if p.Enroller? then Some(p.key) else if known then s.machines[m].enrollment else None)]
  {
    CataloguedMachine(s, p, request);
    hide BindingsAgree, CredentialsAgree, UsesAgree, AtMostTwoActive, Enrolled;
    if request.registration in s.index { assert Indexed(s, s.index[request.registration]); }
  }

  /** The credential issued, and those that give way to it: the one bound until then names it as its successor. */
  lemma RegisteredLedgerIs(s: State, p: Principal, request: Request)
    requires Inv(s) && Register(s, p, request, NoCrash).reply.Registered?
    ensures var r := Register(s, p, request, NoCrash);
      var m, k := r.reply.machine, r.reply.key;
      && r.state.ledger.uses == (if p.Enroller? then s.ledger.uses[p.key := Use(request, Some(m))] else s.ledger.uses)
      && r.state.ledger.credentials.Keys == s.ledger.credentials.Keys + {k}
      && r.state.ledger.credentials[k] == Credential(m, false, None, None)
      && (forall o :: o in s.ledger.credentials ==>
            r.state.ledger.credentials[o] ==
              if m in s.machines && s.machines[m].credential == Some(o)
              then s.ledger.credentials[o].(revoked := true, replacedBy := Some(k))
              else if s.ledger.credentials[o].machine == m then s.ledger.credentials[o].(revoked := true)
              else s.ledger.credentials[o])
  {
    CataloguedMachine(s, p, request);
    var c := Catalogued(s, p, request);
    var m := c.index[request.registration];
    assert m in s.machines ==> BindingAgrees(s, m);
    RekeyedIs(s.ledger, p, request, m, c.machines[m].credential, s.nextKey);
    hide IndexAgrees, BindingsAgree, UsesAgree, AtMostTwoActive, Enrolled, Catalogued, RegistrationError;
  }

  lemma RekeyedIs(l: Ledger, p: Principal, request: Request, m: MachineId, previous: Option<KeyId>, k: KeyId)
    requires k !in l.credentials
    requires previous.Some? && previous.value in l.credentials ==>
      IsActiveFor(l, previous.value, m) && l.credentials[previous.value].replacedBy == None
    ensures var t := Enrolled(l, p, request, m, previous, k);
      && t.credentials.Keys == l.credentials.Keys + {k} && t.credentials[k] == Credential(m, false, None, None)
      && forall o :: o in l.credentials ==>
           t.credentials[o] ==
             if previous == Some(o) then l.credentials[o].(revoked := true, replacedBy := Some(k))
             else if l.credentials[o].machine == m then l.credentials[o].(revoked := true)
             else l.credentials[o]
  {
  }

  /** A registration is a recovery if its machine, or with none yet its enrollment key, was there for it before. */
  lemma RecoveryIs(s: State, p: Principal, request: Request)
    requires Inv(s) && Register(s, p, request, NoCrash).reply.Registered?
    ensures Register(s, p, request, NoCrash).reply.recovered <==>
      exists e :: p == Enroller(e) &&
        if request.registration in s.index then s.machines[s.index[request.registration]].enrollment == Some(e)
        else e in s.ledger.uses && s.ledger.uses[e].request == request
  {
    if p.Enroller? {
      assert p == Enroller(p.key);
    }
    hide Inv, Catalogued, Enrolled, RegistrationError;
  }

  /** A crashed registration: nothing, or the machine in the catalog, or also its binding to a key never issued. */
  lemma CrashedRegistrationIs(s: State, p: Principal, request: Request, crash: Crash)
    requires Inv(s) && Register(s, p, request, NoCrash).reply.Registered? && crash.After?
    ensures var whole, r := Register(s, p, request, NoCrash), Register(s, p, request, crash);
      var m := whole.reply.machine;
      && r.reply == Crashed && r.state.ledger == s.ledger && m in whole.state.machines
      && (crash == After(0) ==> r.state == s)
      && (crash != After(0) ==> r.state.index == whole.state.index && r.state.nextMachine == whole.state.nextMachine)
      && (crash == After(1) ==> r.state.nextKey == s.nextKey && r.state.machines == whole.state.machines[
            m := whole.state.machines[m].(credential := if m in s.machines then s.machines[m].credential else None)])
      && (crash != After(0) && crash != After(1) ==>
            r.state.nextKey == whole.state.nextKey && r.state.machines == whole.state.machines)
  {
    CataloguedMachine(s, p, request);
    hide Inv, Enrolled, RegistrationError, Catalogued;
  }

  /** A registration that succeeds under an enrollment key records the machine as that key's. */
  lemma RegistrationIsRecorded(s: State, e: KeyId, request: Request)
    requires Inv(s) && Register(s, Enroller(e), request, NoCrash).reply.Registered?
    ensures var r := Register(s, Enroller(e), request, NoCrash);
      && e in r.state.ledger.uses && r.state.ledger.uses[e] == Use(request, Some(r.reply.machine))
      && r.reply.machine in r.state.machines && r.state.machines[r.reply.machine].enrollment == Some(e)
  {
    CataloguedMachine(s, Enroller(e), request);
    hide Inv, Catalogued, Enrolled;
  }

  /** All credentials registered under one enrollment key, however far apart, are one machine's. */
  lemma OneKeyOneMachine(s: State, e: KeyId, first: Request, cs: seq<Command>, second: Request)
    requires Inv(s)
    ensures var a := Register(s, Enroller(e), first, NoCrash);
      && Inv(a.state)
      && var b := Register(Run(a.state, cs), Enroller(e), second, NoCrash);
         a.reply.Registered? && b.reply.Registered? ==> b.reply.machine == a.reply.machine && second == first
  {
    hide Inv, Register;
    var a := Register(s, Enroller(e), first, NoCrash);
    RegisterKeepsInv(s, Enroller(e), first, NoCrash);
    var t := Run(a.state, cs);
    var b := Register(t, Enroller(e), second, NoCrash);
    if a.reply.Registered? && b.reply.Registered? {
      RegistrationIsRecorded(s, e, first);
      RegistrationIsRecorded(t, e, second);
      RunExtends(a.state, cs);
      RegisterExtends(t, Enroller(e), second, NoCrash);
    }
  }

  /** A machine that belongs to one enrollment key is never registered by another, in any later state. */
  lemma OneMachineOneKey(s: State, m: MachineId, e: KeyId, cs: seq<Command>, f: KeyId, request: Request, crash: Crash)
    requires Inv(s) && m in s.machines && s.machines[m].enrollment == Some(e) && f != e
    requires request.registration == s.machines[m].request.registration
    ensures var t := Run(s, cs);
      !Register(t, Enroller(f), request, crash).reply.Registered? && Register(t, Enroller(f), request, crash).state == t
  {
    RunExtends(s, cs);
    hide BindingsAgree, CredentialsAgree, AtMostTwoActive, Enrolled, Catalogued;
    assert Indexed(s, m);
    var t := Run(s, cs);
    assert t.machines[m].enrollment == Some(e) && t.index[request.registration] == m;
  }

  // ----- retried registrations

  /** Nothing recorded so far stands against this request, from this key or from an admin. */
  predicate Fits(s: State, request: Request, e: Option<KeyId>) {
    && (request.registration in s.index ==>
          var m := s.index[request.registration];
          m in s.machines && s.machines[m].request == request && (e.Some? ==> s.machines[m].enrollment == e))
    && (e.Some? && e.value in s.ledger.uses ==> s.ledger.uses[e.value].request == request)
  }

  /** The command sends this request if it concerns this registration or uses this enrollment key. */
  predicate Repeats(c: Command, request: Request, e: Option<KeyId>) {
    c.DoRegister? ==>
      && (c.request.registration == request.registration ==> c.request == request && (e.Some? ==> c.p == Enroller(e.value)))
      && (e.Some? && c.p == Enroller(e.value) ==> c.request == request)
  }

  lemma RegisterFits(s: State, p: Principal, sent: Request, crash: Crash, request: Request, e: Option<KeyId>)
    requires Inv(s) && Fits(s, request, e) && Repeats(DoRegister(p, sent, crash), request, e)
    ensures Fits(Register(s, p, sent, crash).state, request, e)
  {
    hide BindingsAgree, CredentialsAgree, AtMostTwoActive, UsesAgree, Enrolled;
    RegisterExtends(s, p, sent, crash);
    if RegistrationError(s, p, sent).None? && crash != After(0) {
      CataloguedMachine(s, p, sent);
      RegisterShape(s, p, sent, crash);
      IndexGrows(s, p, sent);
      hide Inv, Catalogued, RegistrationError, Register, Active;
    }
  }

  lemma StepFits(s: State, c: Command, request: Request, e: Option<KeyId>)
    requires Inv(s) && Fits(s, request, e) && Repeats(c, request, e)
    ensures Fits(Step(s, c).state, request, e)
  {
    hide Inv, Repeats;
    if c.DoRegister? {
      RegisterFits(s, c.p, c.request, c.crash, request, e);
    }
  }

  lemma IndexGrows(s: State, p: Principal, request: Request)
    requires Inv(s) && RegistrationError(s, p, request).None?
    ensures Catalogued(s, p, request).index.Keys == s.index.Keys + {request.registration}
  {
  }

  /**
   After any crashes and lost replies, with every call for the registration repeating one request
   from one enrollment key, the next call that does not crash succeeds; so does an admin's.
   */
  lemma {:induction false} RetriesConverge(s: State, cs: seq<Command>, request: Request, e: Option<KeyId>)
    requires Inv(s) && Fits(s, request, e) && forall c :: c in cs ==> Repeats(c, request, e)
    ensures Fits(Run(s, cs), request, e)
    ensures e.Some? ==> Register(Run(s, cs), Enroller(e.value), request, NoCrash).reply.Registered?
    ensures Register(Run(s, cs), Admin, request, NoCrash).reply.Registered?
    decreases |cs|
  {
    hide Inv, Register, Step;
    if cs == [] {
      if e.Some? { RegistrationConverges(s, Enroller(e.value), request); }
      RegistrationConverges(s, Admin, request);
    } else {
      StepFits(s, cs[0], request, e);
      StepKeepsInv(s, cs[0]);
      RetriesConverge(Step(s, cs[0]).state, cs[1..], request, e);
    }
  }

  /** An admin's registration that crashes at its first commit shuts out every enrollment key. */
  lemma AdminFirstShutsOutTheKey(s: State, request: Request, e: KeyId)
    requires Inv(s) && request.registration !in s.index && e !in s.ledger.uses
    ensures var t := Register(s, Admin, request, After(1)).state;
      Inv(t) && Register(t, Enroller(e), request, NoCrash).reply == Refused(RegistrationConflict)
  {
    RegisterKeepsInv(s, Admin, request, After(1));
  }
}
