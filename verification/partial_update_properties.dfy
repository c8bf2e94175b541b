/**
 * What the partial update of a service template promises, stated over the trace
 * of calls and the response of `PartialUpdate.Invoke`.
 */
module PartialUpdateProperties {
  import opened Base
  import opened ServiceTemplate
  import opened PartialUpdate

  // ===========================================================================
  // traces

  /** No call of the trace changes the stored configuration. */
  predicate NoWrites(t: seq<Effect>) {
    forall e :: e in t ==> !IsWrite(e)
  }

  /** No call of the trace goes to the storage engine. */
  predicate NoTransactionCalls(t: seq<Effect>) {
    forall e :: e in t ==> !IsTransactionCall(e)
  }

  /** No call of the trace belongs to the macro phase. */
  predicate NoMacroPhaseCalls(t: seq<Effect>) {
    forall e :: e in t ==> !IsMacroPhaseCall(e)
  }

  /** Every write of the trace comes after a `startTransaction`. */
  predicate WritesInsideTransaction(t: seq<Effect>) {
    forall i :: 0 <= i < |t| && IsWrite(t[i]) ==> StartTransaction in t[..i]
  }

  /**
   * `CallAll` makes a prefix of the calls; it makes all of them and throws
   * nothing exactly when none of them throws.
   */
  lemma {:induction false} CallAllPrefix(w: World, es: seq<Effect>)
    ensures CallAll(w, es).trace <= es
    ensures CallAll(w, es).thrown.None? <==> forall e :: e in es ==> e !in w.failures
    ensures CallAll(w, es).thrown.None? ==> CallAll(w, es).trace == es
    decreases |es|
  {
    if |es| > 0 {
      assert es == [es[0]] + es[1..];
      CallAllPrefix(w, es[1..]);
    }
  }

  /** When `CallAll` throws, it stopped at the first call that throws, with that call's exception. */
  lemma {:induction false} CallAllStops(w: World, es: seq<Effect>)
    ensures CallAll(w, es).thrown.Some? ==>
              var t := CallAll(w, es).trace;
              && |t| > 0 && t[|t| - 1] in w.failures
              && CallAll(w, es).thrown.value == w.failures[t[|t| - 1]]
              && forall e :: e in t[..|t| - 1] ==> e !in w.failures
    decreases |es|
  {
    if |es| > 0 {
      CallAllStops(w, es[1..]);
      var rest := CallAll(w, es[1..]);
      if es[0] !in w.failures && rest.thrown.Some? {
        var t := CallAll(w, es).trace;
        assert t == [es[0]] + rest.trace;
        assert t[..|t| - 1] == [es[0]] + rest.trace[..|rest.trace| - 1];
      }
    }
  }

  // ===========================================================================
  // the gates

  /** The response is Forbidden exactly when the user lacks the write role, and then nothing is called. */
  lemma ForbiddenGate(w: World, c: Collaborators, req: Request)
    ensures Invoke(w, c, req).response.Forbidden? <==> !w.hasWriteRole
    ensures !w.hasWriteRole ==> Invoke(w, c, req) == Outcome([], Forbidden(NotAllowed))
  {
  }

  /**
   * The response is NotFound exactly when the role is there, the lookup of the
   * template does not throw and finds nothing; then the lookup is the only call.
   */
  lemma NotFoundGate(w: World, c: Collaborators, req: Request)
    ensures Invoke(w, c, req).response.NotFound? <==>
              w.hasWriteRole && FindTemplate(req.id) !in w.failures && w.template.None?
    ensures Invoke(w, c, req).response.NotFound? ==> Invoke(w, c, req).trace == [FindTemplate(req.id)]
  {
  }

  // ===========================================================================
  // validation

  /**
   * Host template validation makes one lookup, of the requested ids with
   * duplicates dropped. A throwing lookup propagates; otherwise validation throws
   * exactly when a requested id is missing from the ids found, and the exception
   * names each missing id once.
   */
  lemma HostTemplateValidation(w: World, ids: seq<int>)
    ensures AssertHostTemplateIds(w, ids).trace == [FindExistingHostTemplates(Dedup(ids))]
    ensures FindExistingHostTemplates(Dedup(ids)) in w.failures ==>
              AssertHostTemplateIds(w, ids).thrown == Some(w.failures[FindExistingHostTemplates(Dedup(ids))])
    ensures FindExistingHostTemplates(Dedup(ids)) !in w.failures ==>
              (AssertHostTemplateIds(w, ids).thrown.Some? <==> exists x :: x in ids && x !in w.foundHostTemplates)
    ensures FindExistingHostTemplates(Dedup(ids)) !in w.failures && AssertHostTemplateIds(w, ids).thrown.Some? ==>
              var ex := AssertHostTemplateIds(w, ids).thrown.value;
              && ex.TemplateException? && ex.code == w.idsMissingCode
              && ex.reason.IdsDoNotExist? && ex.reason.propertyName == "host_templates"
              && (forall x :: x in ex.reason.ids <==> x in ids && x !in w.foundHostTemplates)
              && (forall i, j :: 0 <= i < j < |ex.reason.ids| ==> ex.reason.ids[i] != ex.reason.ids[j])
  {
    var missing := Missing(Dedup(ids), w.foundHostTemplates);
    if exists x :: x in ids && x !in w.foundHostTemplates {
      var x :| x in ids && x !in w.foundHostTemplates;
      assert x in missing;
    }
    if missing != [] {
      assert missing[0] in missing;
    }
    MissingUnique(Dedup(ids), w.foundHostTemplates);
  }

  /** `array_diff` keeps the ids of a list without repetitions free of repetitions. */
  lemma {:induction false} MissingUnique(a: seq<int>, b: seq<int>)
    requires forall i, j :: 0 <= i < j < |a| ==> a[i] != a[j]
    ensures forall i, j :: 0 <= i < j < |Missing(a, b)| ==> Missing(a, b)[i] != Missing(a, b)[j]
    decreases |a|
  {
    if |a| > 0 {
      var pre := a[..|a| - 1];
      MissingUnique(pre, b);
      assert a[|a| - 1] !in pre;
      assert a[|a| - 1] !in Missing(pre, b);
    }
  }

  /**
   * Category validation makes one lookup, of the requested ids as sent, restricted
   * to the user's access groups for a non-admin. A throwing lookup propagates;
   * otherwise validation throws exactly when a requested category is missing from
   * the categories found.
   */
  lemma CategoryValidation(w: World, ids: seq<int>)
    ensures AssertServiceCategories(w, ids).trace == [FindExistingCategories(ids, !w.isAdmin)]
    ensures FindExistingCategories(ids, !w.isAdmin) in w.failures ==>
              AssertServiceCategories(w, ids).thrown == Some(w.failures[FindExistingCategories(ids, !w.isAdmin)])
    ensures FindExistingCategories(ids, !w.isAdmin) !in w.failures ==>
              (AssertServiceCategories(w, ids).thrown.Some? <==> exists x :: x in ids && x !in w.foundCategories)
    ensures FindExistingCategories(ids, !w.isAdmin) !in w.failures && AssertServiceCategories(w, ids).thrown.Some? ==>
              var ex := AssertServiceCategories(w, ids).thrown.value;
              && ex.TemplateException? && ex.code == w.idsMissingCode
              && ex.reason.IdsDoNotExist? && ex.reason.propertyName == "service_categories"
              && forall x :: x in ex.reason.ids <==> x in ids && x !in w.foundCategories
  {
    var missing := Missing(ids, w.foundCategories);
    if exists x :: x in ids && x !in w.foundCategories {
      var x :| x in ids && x !in w.foundCategories;
      assert x in missing;
    }
    if missing != [] {
      assert missing[0] in missing;
    }
  }

  // ===========================================================================
  // links

  /**
   * Sent host templates replace the links: all links are removed, then the ids
   * as sent are linked; the second call is skipped when the first one throws.
   */
  lemma HostLinksReplaced(w: World, req: Request)
    requires req.hostTemplates.Given?
    ensures var es := [UnlinkHosts(req.id), LinkToHosts(req.id, req.hostTemplates.value)];
            var r := LinkHostTemplates(w, req);
            && r.trace <= es
            && (r.thrown.None? <==> forall e :: e in es ==> e !in w.failures)
            && (r.thrown.None? ==> r.trace == es)
  {
  }

  /**
   * Sent categories are applied as a difference against the current ones, taken
   * after duplicates are dropped: read, unlink the removed, link the added.
   */
  lemma CategoryLinksFollowDifference(w: World, c: Collaborators, req: Request)
    requires req.serviceCategories.Given?
    ensures var diff := c.basicDifference(w.originalCategories, Dedup(req.serviceCategories.value));
            var es := [FindCategoriesOfService(req.id, !w.isAdmin),
                       UnlinkCategories(req.id, diff.removed), LinkCategories(req.id, diff.added)];
            var r := LinkServiceCategories(w, c, req);
            && r.trace <= es
            && (r.thrown.None? <==> forall e :: e in es ==> e !in w.failures)
            && (r.thrown.None? ==> r.trace == es)
  {
    var diff := c.basicDifference(w.originalCategories, Dedup(req.serviceCategories.value));
    CallAllPrefix(w, [FindCategoriesOfService(req.id, !w.isAdmin),
                      UnlinkCategories(req.id, diff.removed), LinkCategories(req.id, diff.added)]);
  }

  // ===========================================================================
  // the transaction

  /**
   * The transaction discipline: one start, then the body, then at most one commit
   * and at most one rollback. Commit is reached only after the whole body
   * succeeded; a failing body or commit is rolled back and its exception rethrown,
   * unless the rollback throws. Commit and rollback both appear only when the
   * commit itself threw.
   */
  lemma TransactionDiscipline(w: World, body: Step)
    requires NoTransactionCalls(body.trace)
    ensures var t := InTransaction(w, body).trace;
            && |t| > 0 && t[0] == StartTransaction
            && multiset(t)[StartTransaction] == 1
            && multiset(t)[CommitTransaction] <= 1
            && multiset(t)[RollbackTransaction] <= 1
            && (CommitTransaction in t ==> body.thrown.None?)
            && (CommitTransaction in t && RollbackTransaction in t ==> CommitTransaction in w.failures)
            && (InTransaction(w, body).thrown.None? <==> CommitTransaction in t && RollbackTransaction !in t)
    ensures InTransaction(w, body).thrown.None? <==>
              StartTransaction !in w.failures && body.thrown.None? && CommitTransaction !in w.failures
    ensures StartTransaction !in w.failures && body.thrown.Some? ==>
              && RollbackTransaction in InTransaction(w, body).trace
              && CommitTransaction !in InTransaction(w, body).trace
              && InTransaction(w, body).thrown ==
                   if RollbackTransaction in w.failures then Some(w.failures[RollbackTransaction]) else body.thrown
  {
    var t := InTransaction(w, body).trace;
    TransactionTrace(w, body);
    TransactionThrown(w, body);
    assert StartTransaction !in body.trace && CommitTransaction !in body.trace && RollbackTransaction !in body.trace;
    assert multiset(body.trace)[StartTransaction] == 0;
    assert multiset(body.trace)[CommitTransaction] == 0;
    assert multiset(body.trace)[RollbackTransaction] == 0;
  }

  /** The calls of the transaction in each case: start, body, then commit and/or rollback. */
  lemma TransactionTrace(w: World, body: Step)
    ensures InTransaction(w, body).trace ==
              if StartTransaction in w.failures then [StartTransaction]
              else if body.thrown.Some? then [StartTransaction] + body.trace + [RollbackTransaction]
              else if CommitTransaction in w.failures then [StartTransaction] + body.trace + [CommitTransaction, RollbackTransaction]
              else [StartTransaction] + body.trace + [CommitTransaction]
  {
    if StartTransaction !in w.failures && body.thrown.None? {
      assert AndThen(body, Call(w, CommitTransaction)).trace == body.trace + [CommitTransaction];
    }
  }

  /** The exception the transaction ends with in each case; a rollback exception takes precedence. */
  lemma TransactionThrown(w: World, body: Step)
    ensures InTransaction(w, body).thrown ==
              if StartTransaction in w.failures then Some(w.failures[StartTransaction])
              else if body.thrown.None? && CommitTransaction !in w.failures then None
              else if RollbackTransaction in w.failures then Some(w.failures[RollbackTransaction])
              else if body.thrown.Some? then body.thrown
              else Some(w.failures[CommitTransaction])
  {
  }

  /** The transaction succeeds exactly when its trace commits and does not roll back. */
  lemma TransactionCommitted(w: World, body: Step)
    requires NoTransactionCalls(body.trace)
    ensures InTransaction(w, body).thrown.None? <==>
              CommitTransaction in InTransaction(w, body).trace && RollbackTransaction !in InTransaction(w, body).trace
  {
    TransactionTrace(w, body);
    TransactionThrown(w, body);
    assert CommitTransaction !in body.trace && RollbackTransaction !in body.trace;
  }

  /** Every call of the transaction is a call of the body or a call to the storage engine. */
  lemma TransactionCalls(w: World, body: Step)
    ensures forall e :: e in InTransaction(w, body).trace ==> e in body.trace || IsTransactionCall(e)
  {
    TransactionTrace(w, body);
  }

  // ===========================================================================
  // macros

  /**
   * The macro writes come in a fixed order, one per entry of the difference:
   * the deletions of the removed macros, then the updates, then the additions,
   * each addition with its description defaulted.
   */
  lemma WritePlanOrder(diff: MacroDiff, command: map<string, CommandMacro>)
    ensures var plan := WritePlan(diff, command);
            var r, u := |diff.removed|, |diff.updated|;
            && |plan| == r + u + |diff.added|
            && (forall i :: 0 <= i < r ==> plan[i] == DeleteMacro(diff.removed[i]))
            && (forall i :: 0 <= i < u ==> plan[r + i] == UpdateMacro(diff.updated[i]))
            && (forall i :: 0 <= i < |diff.added| ==>
                  plan[r + u + i] == AddMacro(WithDefaultDescription(diff.added[i], command)))
    ensures forall i, j :: 0 <= i < j < |WritePlan(diff, command)| ==>
              Rank(WritePlan(diff, command)[i]) <= Rank(WritePlan(diff, command)[j])
  {
  }

  /** The position of a macro write in the order deletions, updates, additions. */
  function Rank(e: Effect): int {
    if e.DeleteMacro? then 0 else if e.UpdateMacro? then 1 else 2
  }

  /**
   * Once the macros are read and built, the macro step makes the reads and then a
   * prefix of the write plan, all of it when no write throws.
   */
  lemma UpdateMacrosWrites(w: World, c: Collaborators, req: Request, template: Template, macros: seq<Macro>)
    requires req.macros.Given?
    requires FindAllMacros(w, c, req.id, template.commandId).step.thrown.None?
    requires CreateMacros(c, req.macros.value, req.id, FindAllMacros(w, c, req.id, template.commandId)) == Success(macros)
    ensures var known := FindAllMacros(w, c, req.id, template.commandId);
            var diff := c.setOrder(c.computeDiff(known.direct, known.inherited, known.command, macros), macros);
            var plan := WritePlan(diff, known.command);
            var t := UpdateMacros(w, c, req, template).trace;
            && known.step.trace <= t
            && t[|known.step.trace|..] <= plan
            && (UpdateMacros(w, c, req, template).thrown.None? <==> forall e :: e in plan ==> e !in w.failures)
            && (UpdateMacros(w, c, req, template).thrown.None? ==> t == known.step.trace + plan)
  {
    var known := FindAllMacros(w, c, req.id, template.commandId);
    var diff := c.setOrder(c.computeDiff(known.direct, known.inherited, known.command, macros), macros);
    var plan := WritePlan(diff, known.command);
    CallAllPrefix(w, plan);
    var t := UpdateMacros(w, c, req, template).trace;
    assert t == known.step.trace + CallAll(w, plan).trace;
    assert t[|known.step.trace|..] == CallAll(w, plan).trace;
  }

  /**
   * The macro step writes nothing when reading the macros throws (that exception
   * propagates) or when `MacroFactory::create` throws for a requested macro (its
   * exception propagates after the reads).
   */
  lemma UpdateMacrosStops(w: World, c: Collaborators, req: Request, template: Template)
    requires req.macros.Given?
    ensures var known := FindAllMacros(w, c, req.id, template.commandId);
            known.step.thrown.Some? ==> UpdateMacros(w, c, req, template) == known.step
    ensures var known := FindAllMacros(w, c, req.id, template.commandId);
            var made := CreateMacros(c, req.macros.value, req.id, known);
            known.step.thrown.None? && made.Failure? ==>
              UpdateMacros(w, c, req, template) == Step(known.step.trace, Some(made.error))
    ensures NoWrites(FindAllMacros(w, c, req.id, template.commandId).step.trace)
  {
  }

  /** An added macro's description: its own when non-empty, else its command macro's, else empty. */
  lemma AddedDescriptions(diff: MacroDiff, command: map<string, CommandMacro>)
    ensures forall i :: 0 <= i < |diff.added| ==>
              var m := diff.added[i];
              var d := WithDefaultDescription(m, command).description;
              d == (if m.description != "" then m.description
                    else if m.name in command then command[m.name].description else "")
  {
  }

  // ===========================================================================
  // the whole use case

  /** The pieces `Invoke` runs once both gates are passed. */
  datatype Phases = Phases(find: Step, groups: Step, checks: Step, body: Step, tx: Step)

  /** The pieces of an invocation past both gates. */
  function PhasesOf(w: World, c: Collaborators, req: Request): Phases
    requires w.template.Some?
  {
    var body := TransactionBody(w, c, req, w.template.value);
    Phases(Call(w, FindTemplate(req.id)), if w.isAdmin then Done else Call(w, FindAccessGroups),
           AssertAllProperties(w, req), body, InTransaction(w, body))
  }

  /** The calls made before the transaction: the lookup, the access groups and validation. */
  function PreTransaction(p: Phases): seq<Effect> {
    p.find.trace + p.groups.trace + p.checks.trace
  }

  /** Nothing before the transaction writes, calls the storage engine or makes a call of the macro phase. */
  lemma PreTransactionReadsOnly(w: World, c: Collaborators, req: Request)
    requires w.template.Some?
    ensures var pre := PreTransaction(PhasesOf(w, c, req));
            NoWrites(pre) && NoTransactionCalls(pre) && NoMacroPhaseCalls(pre)
  {
    var p := PhasesOf(w, c, req);
    assert p.find.trace == [FindTemplate(req.id)];
    assert forall e :: e in p.groups.trace ==> e == FindAccessGroups;
    assert forall e :: e in p.checks.trace ==> e.FindExistingHostTemplates? || e.FindExistingCategories?;
    var pre := PreTransaction(p);
    forall e | e in pre ensures !IsWrite(e) && !IsTransactionCall(e) && !IsMacroPhaseCall(e) {
      assert e in p.find.trace || e in p.groups.trace || e in p.checks.trace;
    }
  }

  /** Past both gates and validation, the trace ends with the transaction, whose outcome decides the response. */
  lemma InvokeProceeds(w: World, c: Collaborators, req: Request)
    requires w.hasWriteRole && FindTemplate(req.id) !in w.failures && w.template.Some?
    requires PhasesOf(w, c, req).groups.thrown.None? && PhasesOf(w, c, req).checks.thrown.None?
    ensures var p := PhasesOf(w, c, req);
            Invoke(w, c, req) == Outcome(PreTransaction(p) + p.tx.trace,
                                         if p.tx.thrown.None? then NoContent else ResponseFor(p.tx.thrown.value))
  {
  }

  /** Past both gates, an exception before the transaction ends the trace early with an error response. */
  lemma InvokeStopsEarly(w: World, c: Collaborators, req: Request)
    requires w.hasWriteRole && FindTemplate(req.id) !in w.failures && w.template.Some?
    requires PhasesOf(w, c, req).groups.thrown.Some? || PhasesOf(w, c, req).checks.thrown.Some?
    ensures Invoke(w, c, req).trace <= PreTransaction(PhasesOf(w, c, req))
    ensures Invoke(w, c, req).response.Error? || Invoke(w, c, req).response.Conflict?
  {
  }

  /** A prefix of a trace keeps every call-kind restriction of the trace. */
  lemma PrefixCalls(t: seq<Effect>, u: seq<Effect>)
    requires u <= t
    ensures forall e :: e in u ==> e in t
  {
    forall e | e in u ensures e in t {
      var i :| 0 <= i < |u| && u[i] == e;
      assert t[i] == e;
    }
  }

  /** Writes that follow a read-only prefix and a `startTransaction` are inside the transaction. */
  lemma WritesAfterStart(pre: seq<Effect>, tx: seq<Effect>)
    requires NoWrites(pre) && |tx| > 0 && tx[0] == StartTransaction
    ensures WritesInsideTransaction(pre + tx)
  {
    var t := pre + tx;
    forall i | 0 <= i < |t| && IsWrite(t[i]) ensures StartTransaction in t[..i] {
      if i >= |pre| {
        assert t[..i][|pre|] == tx[0];
      }
    }
  }

  /** Behind a prefix without storage calls, the commits and rollbacks are those of the rest. */
  lemma TransactionCallsAfter(pre: seq<Effect>, tx: seq<Effect>)
    requires NoTransactionCalls(pre)
    ensures CommitTransaction in pre + tx <==> CommitTransaction in tx
    ensures RollbackTransaction in pre + tx <==> RollbackTransaction in tx
  {
    assert CommitTransaction !in pre && RollbackTransaction !in pre;
  }

  /** No configuration write happens outside the transaction. */
  lemma WritesOnlyInTransaction(w: World, c: Collaborators, req: Request)
    ensures WritesInsideTransaction(Invoke(w, c, req).trace)
  {
    if w.hasWriteRole && FindTemplate(req.id) !in w.failures && w.template.Some? {
      var p := PhasesOf(w, c, req);
      PreTransactionReadsOnly(w, c, req);
      if p.groups.thrown.None? && p.checks.thrown.None? {
        InvokeProceeds(w, c, req);
        TransactionTrace(w, p.body);
        WritesAfterStart(PreTransaction(p), p.tx.trace);
      } else {
        InvokeStopsEarly(w, c, req);
        PrefixCalls(PreTransaction(p), Invoke(w, c, req).trace);
      }
    }
  }

  /** The response is NoContent exactly when the trace commits and does not roll back. */
  lemma NoContentIffCommitted(w: World, c: Collaborators, req: Request)
    ensures Invoke(w, c, req).response == NoContent <==>
              CommitTransaction in Invoke(w, c, req).trace && RollbackTransaction !in Invoke(w, c, req).trace
  {
    if w.hasWriteRole && FindTemplate(req.id) !in w.failures && w.template.Some? {
      var p := PhasesOf(w, c, req);
      PreTransactionReadsOnly(w, c, req);
      if p.groups.thrown.None? && p.checks.thrown.None? {
        InvokeProceeds(w, c, req);
        TransactionCommitted(w, p.body);
        TransactionCallsAfter(PreTransaction(p), p.tx.trace);
      } else {
        InvokeStopsEarly(w, c, req);
        PrefixCalls(PreTransaction(p), Invoke(w, c, req).trace);
      }
    }
  }

  /**
   * When validation throws, no transaction is started; past the gates and the
   * access-group lookup, the response is the one for the validation exception.
   */
  lemma ValidationStopsBeforeTransaction(w: World, c: Collaborators, req: Request)
    requires AssertAllProperties(w, req).thrown.Some?
    ensures StartTransaction !in Invoke(w, c, req).trace
    ensures w.hasWriteRole && FindTemplate(req.id) !in w.failures && w.template.Some? &&
            (!w.isAdmin ==> FindAccessGroups !in w.failures) ==>
              Invoke(w, c, req).response == ResponseFor(AssertAllProperties(w, req).thrown.value)
  {
    if w.hasWriteRole && FindTemplate(req.id) !in w.failures && w.template.Some? {
      PreTransactionReadsOnly(w, c, req);
      InvokeStopsEarly(w, c, req);
      PrefixCalls(PreTransaction(PhasesOf(w, c, req)), Invoke(w, c, req).trace);
    }
  }

  /** Without a macro list, no call of the macro phase is made: no parent lookup, no macro repository call. */
  lemma NoMacroPhaseWithoutMacros(w: World, c: Collaborators, req: Request)
    requires req.macros.NoValue?
    ensures NoMacroPhaseCalls(Invoke(w, c, req).trace)
  {
    if w.hasWriteRole && FindTemplate(req.id) !in w.failures && w.template.Some? {
      var p := PhasesOf(w, c, req);
      PreTransactionReadsOnly(w, c, req);
      if p.groups.thrown.None? && p.checks.thrown.None? {
        InvokeProceeds(w, c, req);
        TransactionCalls(w, p.body);
        assert NoMacroPhaseCalls(p.body.trace);
        assert NoMacroPhaseCalls(p.tx.trace);
        assert NoMacroPhaseCalls(PreTransaction(p) + p.tx.trace);
      } else {
        InvokeStopsEarly(w, c, req);
        PrefixCalls(PreTransaction(p), Invoke(w, c, req).trace);
      }
    }
  }
}
