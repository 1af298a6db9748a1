/**
 When a confirmation that crashed between the two commits can still be finished: over any run of
 commands in between, exactly if none rebinds the machine and none prepares a rotation before
 some retry has finished it.
 */
module ConfirmRetry {
  import opened Wrappers
  import opened Enrollment
  import opened EnrollmentRuns
  import opened Rotation

  /** The command passes its checks and makes the catalog commit that changes the machine's binding. */
  predicate Rebinds(s: State, c: Command, m: MachineId)
    requires Inv(s) && m in s.machines
  {
    match c
    case DoRegister(p, request, crash) =>
      request.registration == s.machines[m].request.registration && RegistrationError(s, p, request).None?
      && crash !in {After(0), After(1)}
    case DoPrepare(_, _, _) => false
    case DoConfirm(p, n, replacement, crash) =>
      && n == m && CurrencyError(s, p, m, false).None? && s.machines[m].credential.Some?
      && s.machines[m].credential != Some(replacement) && IsActiveFor(s.ledger, replacement, m)
      && s.ledger.credentials[replacement].rotationFrom == s.machines[m].credential && crash != After(0)
    case DoClear(p, n, crash) =>
      && n == m && CurrencyError(s, p, m, true).None? && s.machines[m].credential.Some?
      && s.machines[m].credential.value in s.ledger.credentials && crash != After(0)
  }

  /** The command issues a new replacement for the machine's credential. */
  predicate Prepares(s: State, c: Command, m: MachineId) {
    c.DoPrepare? && c.machine == m && Prepare(s, c.p, m, c.crash).reply.Prepared?
  }

  /** The command completes the confirmation. */
  predicate Finishes(s: State, c: Command, m: MachineId, replacement: KeyId) {
    c.DoConfirm? && c.machine == m && c.replacement == replacement && Confirm(s, c.p, m, replacement, c.crash).reply.Confirmed?
  }

  /** No command of the run rebinds the machine, and none prepares before the confirmation is finished. */
  predicate Undisturbed(s: State, cs: seq<Command>, m: MachineId, replacement: KeyId, finished: bool)
    requires Inv(s) && m in s.machines
    decreases |cs|
  {
    cs == [] || (
      && !Rebinds(s, cs[0], m) && (finished || !Prepares(s, cs[0], m))
      && (StepKeepsInv(s, cs[0]); StepExtends(s, cs[0]);
          Undisturbed(Step(s, cs[0]).state, cs[1..], m, replacement, finished || Finishes(s, cs[0], m, replacement))))
  }

  // ----- where the machine stands

  /** The replacement was issued to succeed the former credential of the machine. */
  predicate Succeeds(s: State, m: MachineId, replacement: KeyId, former: KeyId) {
    && m in s.machines && replacement in s.ledger.credentials && former in s.ledger.credentials
    && s.ledger.credentials[replacement].rotationFrom == Some(former) && former < replacement
    && s.ledger.credentials[replacement].machine == m && s.ledger.credentials[former].machine == m
  }

  /** The replacement is bound, and the former credential active, or revoked in its favour once finished. */
  predicate Finishable(s: State, m: MachineId, replacement: KeyId, former: KeyId, finished: bool) {
    && Succeeds(s, m, replacement, former) && s.machines[m].credential == Some(replacement)
    && var c := s.ledger.credentials[former];
       if finished then c.revoked && c.replacedBy == Some(replacement) else !c.revoked && c.replacedBy.None?
  }

  /** Another credential is bound, or none, or the former one was revoked with no successor on record. */
  predicate TooLate(s: State, m: MachineId, replacement: KeyId, former: KeyId) {
    && Succeeds(s, m, replacement, former)
    && (s.machines[m].credential == Some(replacement) ==>
          s.ledger.credentials[former].revoked && s.ledger.credentials[former].replacedBy.None?)
    && (s.machines[m].credential.Some? ==> s.machines[m].credential.value >= replacement)
  }

  /** Credentials are never removed and keep their machine and origin. */
  predicate Keeps(l: Ledger, l': Ledger) {
    forall k :: k in l.credentials ==>
      && k in l'.credentials && l'.credentials[k].machine == l.credentials[k].machine
      && l'.credentials[k].rotationFrom == l.credentials[k].rotationFrom
  }

  lemma EnrolledKeeps(l: Ledger, p: Principal, request: Request, m: MachineId, previous: Option<KeyId>, k: KeyId)
    requires k !in l.credentials
    ensures Keeps(l, Enrolled(l, p, request, m, previous, k))
  {
    hide Active;
  }

  // ----- one command

  lemma RegisterStep(s: State, p: Principal, request: Request, crash: Crash, m: MachineId)
    requires Inv(s) && m in s.machines && request.registration == s.machines[m].request.registration
    ensures var t := Register(s, p, request, crash).state;
      && m in t.machines && Keeps(s.ledger, t.ledger)
      && if Rebinds(s, DoRegister(p, request, crash), m) then t.machines[m].credential == Some(s.nextKey)
         else t.ledger == s.ledger && t.machines[m].credential == s.machines[m].credential
  {
    hide BindingsAgree, UsesAgree, AtMostTwoActive, Enrolled, Catalogued, RegistrationError;
    assert Indexed(s, m);
    if RegistrationError(s, p, request).None? {
      var c := Catalogued(s, p, request);
      CataloguedMachine(s, p, request);
      IndexKept(s, p, request);
      assert s.nextKey !in s.ledger.credentials;
      EnrolledKeeps(s.ledger, p, request, m, c.machines[m].credential, s.nextKey);
    }
  }

  lemma IndexKept(s: State, p: Principal, request: Request)
    requires Inv(s) && request.registration in s.index && RegistrationError(s, p, request).None?
    ensures Catalogued(s, p, request).index == s.index
  {
    hide BindingsAgree, UsesAgree, AtMostTwoActive;
  }

  lemma PrepareStep(s: State, p: Principal, m: MachineId, crash: Crash)
    requires Inv(s) && m in s.machines
    ensures var t := Prepare(s, p, m, crash).state;
      && t.machines == s.machines && Keeps(s.ledger, t.ledger)
      && if Prepares(s, DoPrepare(p, m, crash), m)
         then forall k :: k in s.ledger.credentials && s.ledger.credentials[k].machine == m ==>
                t.ledger.credentials[k] == if s.ledger.credentials[k].revoked || s.machines[m].credential == Some(k)
                                           then s.ledger.credentials[k] else RevokedBy(s.ledger.credentials[k], None)
         else t.ledger == s.ledger
  {
    hide IndexAgrees, UsesAgree, AtMostTwoActive, BindingsAgree;
    assert s.nextKey !in s.ledger.credentials;
  }

  lemma ConfirmStep(s: State, p: Principal, m: MachineId, x: KeyId, crash: Crash)
    requires Inv(s) && m in s.machines
    ensures var c, t := DoConfirm(p, m, x, crash), Confirm(s, p, m, x, crash).state;
      && m in t.machines && Keeps(s.ledger, t.ledger)
      && (Rebinds(s, c, m) ==>
            t.machines[m].credential == Some(x) && s.machines[m].credential.Some? && x in s.ledger.credentials
            && s.ledger.credentials[x].rotationFrom == s.machines[m].credential)
      && (!Rebinds(s, c, m) ==> t.machines == s.machines)
      && (!Rebinds(s, c, m) && !Finishes(s, c, m, x) ==> t.ledger == s.ledger)
      && (Finishes(s, c, m, x) && s.machines[m].credential == Some(x) ==>
            CanFinish(s.ledger, m, x) && var former := s.ledger.credentials[x].rotationFrom.value;
            t.ledger == if s.ledger.credentials[former].revoked then s.ledger else Revoke(s.ledger, {former}, Some(x)))
      && (Finishes(s, c, m, x) && s.machines[m].credential != Some(x) ==> Rebinds(s, c, m))
  {
    hide Inv, Active;
  }

  lemma ClearStep(s: State, p: Principal, m: MachineId, crash: Crash)
    requires Inv(s) && m in s.machines
    ensures var t := Clear(s, p, m, crash).state;
      && m in t.machines && Keeps(s.ledger, t.ledger)
      && if Rebinds(s, DoClear(p, m, crash), m) then t.machines[m].credential.None?
         else t.machines == s.machines && (s.machines[m].credential.Some? ==> t.ledger == s.ledger)
  {
    hide Inv, Active;
  }

  lemma OtherStep(s: State, c: Command, m: MachineId, replacement: KeyId, former: KeyId)
    requires Inv(s) && Succeeds(s, m, replacement, former) && !Concerns(s, c, m)
    ensures var t := Step(s, c).state;
      && Succeeds(t, m, replacement, former) && t.machines[m] == s.machines[m]
      && t.ledger.credentials[former] == s.ledger.credentials[former]
      && !Rebinds(s, c, m) && !Prepares(s, c, m) && !Finishes(s, c, m, replacement)
  {
    hide Inv, Step;
    StepLeavesOthers(s, c, m);
  }

  /** From where the confirmation can be finished, one command leads on or makes it too late. */
  ghost predicate LeadsOn(s: State, t: State, c: Command, m: MachineId, replacement: KeyId, former: KeyId, finished: bool)
    requires Inv(s) && m in s.machines
  {
    if Rebinds(s, c, m) || (!finished && Prepares(s, c, m)) then TooLate(t, m, replacement, former)
    else Finishable(t, m, replacement, former, finished || Finishes(s, c, m, replacement))
  }

  lemma FinishableStep(s: State, c: Command, m: MachineId, replacement: KeyId, former: KeyId, finished: bool)
    requires Inv(s) && Finishable(s, m, replacement, former, finished)
    ensures LeadsOn(s, Step(s, c).state, c, m, replacement, former, finished)
  {
    if !Concerns(s, c, m) {
      OtherStep(s, c, m, replacement, former);
    } else {
      StepExtends(s, c);
      BoundKeyIsNotFresh(s, m);
      OriginsAreOlder(s);
      hide Inv, Register, Prepare, Confirm, Clear, Rebinds, Prepares, Finishes;
      match c
      case DoRegister(p, request, crash) => RegisterStep(s, p, request, crash, m); NoFinish(s, c, m, replacement);
      case DoPrepare(p, n, crash) => PrepareStep(s, p, m, crash); NoFinish(s, c, m, replacement);
      case DoConfirm(p, n, x, crash) => ConfirmStep(s, p, m, x, crash); NoPrepare(s, c, m, replacement);
      case DoClear(p, n, crash) => ClearStep(s, p, m, crash); NoFinish(s, c, m, replacement);
    }
  }

  lemma OriginsAreOlder(s: State)
    requires Inv(s)
    ensures forall k :: k in s.ledger.credentials && s.ledger.credentials[k].rotationFrom.Some? ==>
      s.ledger.credentials[k].rotationFrom.value < k
  {
  }

  lemma NoFinish(s: State, c: Command, m: MachineId, replacement: KeyId)
    requires Inv(s) && m in s.machines && !c.DoConfirm?
    ensures !Finishes(s, c, m, replacement) && (!c.DoPrepare? ==> !Prepares(s, c, m)) && (c.DoPrepare? ==> !Rebinds(s, c, m))
  {
  }

  lemma NoPrepare(s: State, c: Command, m: MachineId, replacement: KeyId)
    requires c.DoConfirm?
    ensures !Prepares(s, c, m) && (Finishes(s, c, m, replacement) ==> c.replacement == replacement)
  {
  }

  lemma TooLateStep(s: State, c: Command, m: MachineId, replacement: KeyId, former: KeyId)
    requires Inv(s) && TooLate(s, m, replacement, former)
    ensures TooLate(Step(s, c).state, m, replacement, former)
  {
    if !Concerns(s, c, m) {
      OtherStep(s, c, m, replacement, former);
    } else {
      StepExtends(s, c);
      OriginsAreOlder(s);
      assert replacement < s.nextKey;
      hide Inv, Register, Prepare, Confirm, Clear, Rebinds, Prepares, Finishes;
      match c
      case DoRegister(p, request, crash) => RegisterStep(s, p, request, crash, m);
      case DoPrepare(p, n, crash) => PrepareStep(s, p, m, crash);
      case DoConfirm(p, n, x, crash) => ConfirmStep(s, p, m, x, crash);
      case DoClear(p, n, crash) => ClearStep(s, p, m, crash);
    }
  }

  // ----- any run

  lemma {:induction false} TooLateForGood(s: State, cs: seq<Command>, m: MachineId, replacement: KeyId, former: KeyId)
    requires Inv(s) && TooLate(s, m, replacement, former)
    ensures TooLate(Run(s, cs), m, replacement, former)
    decreases |cs|
  {
    hide Inv, Step, TooLate;
    if cs != [] {
      StepKeepsInv(s, cs[0]);
      TooLateStep(s, cs[0], m, replacement, former);
      TooLateForGood(Step(s, cs[0]).state, cs[1..], m, replacement, former);
    }
  }

  /** Along a run the confirmation stays finishable exactly while the run is undisturbed. */
  lemma {:induction false} FinishableIff(
    s: State, cs: seq<Command>, m: MachineId, replacement: KeyId, former: KeyId, finished: bool)
    requires Inv(s) && Finishable(s, m, replacement, former, finished)
    ensures var t := Run(s, cs);
      if Undisturbed(s, cs, m, replacement, finished)
      then Finishable(t, m, replacement, former, true) || Finishable(t, m, replacement, former, false)
      else TooLate(t, m, replacement, former)
    decreases |cs|
  {
    hide Inv, Step, Rebinds, Prepares, Finishes;
    if cs != [] {
      var c, t := cs[0], Step(s, cs[0]).state;
      StepKeepsInv(s, c);
      StepExtends(s, c);
      FinishableStep(s, c, m, replacement, former, finished);
      if Rebinds(s, c, m) || (!finished && Prepares(s, c, m)) {
        TooLateForGood(t, cs[1..], m, replacement, former);
      } else {
        FinishableIff(t, cs[1..], m, replacement, former, finished || Finishes(s, c, m, replacement));
      }
    }
  }

  lemma RetryConfirms(s: State, r: Principal, m: MachineId, replacement: KeyId, former: KeyId, finished: bool)
    requires Inv(s)
    ensures Finishable(s, m, replacement, former, finished) ==>
      (Confirm(s, r, m, replacement, NoCrash).reply.Confirmed? <==> r in {Admin, MachineKey(replacement, m)})
    ensures TooLate(s, m, replacement, former) ==> !Confirm(s, r, m, replacement, NoCrash).reply.Confirmed?
  {
    if Finishable(s, m, replacement, former, finished) {
      assert BindingAgrees(s, m);
    }
  }

  lemma CrashedIsFinishable(s: State, p: Principal, m: MachineId, replacement: KeyId)
    requires Inv(s) && Confirm(s, p, m, replacement, NoCrash).reply.Confirmed? && m in s.machines
    requires s.machines[m].credential != Some(replacement)
    ensures var t := Confirm(s, p, m, replacement, After(1)).state;
      Finishable(t, m, replacement, s.machines[m].credential.value, false)
  {
    hide IndexAgrees, UsesAgree, AtMostTwoActive;
    assert BindingAgrees(s, m);
  }

  /**
   A confirmation that crashed between its two commits, retried after any run of commands, is
   confirmed exactly if an admin or the replacement itself asks and the run left it undisturbed.
   */
  lemma ConfirmRetryIff(s: State, p: Principal, m: MachineId, replacement: KeyId, cs: seq<Command>, r: Principal)
    requires Inv(s) && Confirm(s, p, m, replacement, NoCrash).reply.Confirmed? && m in s.machines
    requires s.machines[m].credential != Some(replacement)
    ensures var t := Confirm(s, p, m, replacement, After(1)).state;
      && Inv(t) && m in t.machines
      && (Confirm(Run(t, cs), r, m, replacement, NoCrash).reply.Confirmed? <==>
            r in {Admin, MachineKey(replacement, m)} && Undisturbed(t, cs, m, replacement, false))
  {
    ConfirmKeepsInv(s, p, m, replacement, After(1));
    CrashedIsFinishable(s, p, m, replacement);
    var t, former := Confirm(s, p, m, replacement, After(1)).state, s.machines[m].credential.value;
    hide Inv, Confirm, Undisturbed, Finishable, TooLate;
    FinishableIsOfMachine(t, m, replacement, former);
    FinishableIff(t, cs, m, replacement, former, false);
    RetryConfirms(Run(t, cs), r, m, replacement, former, true);
    RetryConfirms(Run(t, cs), r, m, replacement, former, false);
  }

  lemma FinishableIsOfMachine(s: State, m: MachineId, replacement: KeyId, former: KeyId)
    requires Finishable(s, m, replacement, former, false)
    ensures m in s.machines
  {
  }
}
