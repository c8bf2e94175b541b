/**
 * The use case `PartialUpdateServiceTemplate` as a pure function from a world of
 * repository answers to the trace of repository calls it makes and the response
 * it presents.
 */
module PartialUpdate {
  import opened Base
  import opened ServiceTemplate

  // ===========================================================================
  // running calls

  /** The calls made so far and the exception that ended them, if one did. */
  datatype Step = Step(trace: seq<Effect>, thrown: Option<Exception>)

  /** What the use case presents, with the calls it made on the way. */
  datatype Outcome = Outcome(trace: seq<Effect>, response: Response)

  /** No call and no exception. */
  const Done := Step([], None)

  /** One call to a repository or to the storage engine: it throws when the world says so. */
  function Call(w: World, e: Effect): (r: Step)
    ensures r.trace == [e]
    ensures r.thrown.Some? <==> e in w.failures
    ensures r.thrown.Some? ==> r.thrown.value == w.failures[e]
  {
    Step([e], if e in w.failures then Some(w.failures[e]) else None)
  }

  /** Runs `b` after `a` unless `a` threw: the calls of `a`, then those of `b` when `a` did not throw. */
  function AndThen(a: Step, b: Step): (r: Step)
    ensures r.trace == a.trace || r.trace == a.trace + b.trace
    ensures forall e :: e in r.trace ==> e in a.trace || e in b.trace
    ensures r.thrown.None? <==> a.thrown.None? && b.thrown.None?
  {
    if a.thrown.Some? then a else Step(a.trace + b.trace, b.thrown)
  }

  /** Runs the calls in order and stops at the first one that throws. */
  function CallAll(w: World, es: seq<Effect>): (r: Step)
    ensures forall e :: e in r.trace ==> e in es
    decreases |es|
  {
    if |es| == 0 then Done else AndThen(Call(w, es[0]), CallAll(w, es[1..]))
  }

  // ===========================================================================
  // PHP array helpers

  /** `array_unique`: the same ids, each once (the body keeps the first occurrence of each, in order). */
  function Dedup(xs: seq<int>): (r: seq<int>)
    ensures forall x :: x in r <==> x in xs
    ensures forall i, j :: 0 <= i < j < |r| ==> r[i] != r[j]
    decreases |xs|
  {
    if |xs| == 0 then []
    else
      var pre := Dedup(xs[..|xs| - 1]);
      assert xs == xs[..|xs| - 1] + [xs[|xs| - 1]];
      if xs[|xs| - 1] in pre then pre else pre + [xs[|xs| - 1]]
  }

  /** `array_diff(a, b)`: the ids of `a` that are not in `b`, in order. */
  function Missing(a: seq<int>, b: seq<int>): (r: seq<int>)
    ensures forall x :: x in r <==> x in a && x !in b
    ensures |r| <= |a|
    decreases |a|
  {
    if |a| == 0 then []
    else
      assert a == a[..|a| - 1] + [a[|a| - 1]];
      Missing(a[..|a| - 1], b) + (if a[|a| - 1] in b then [] else [a[|a| - 1]])
  }

  /** The exception `ServiceTemplateException::idsDoesNotExist`. */
  function IdsMissing(w: World, propertyName: string, ids: seq<int>): Exception {
    TemplateException(w.idsMissingCode, IdsDoNotExist(propertyName, ids))
  }

  // ===========================================================================
  // validation

  /** `assertHostTemplateIds`: every requested host template, duplicates dropped, exists. */
  function AssertHostTemplateIds(w: World, ids: seq<int>): Step {
    var unique := Dedup(ids);
    var find := Call(w, FindExistingHostTemplates(unique));
    var missing := Missing(unique, w.foundHostTemplates);
    if find.thrown.None? && missing != [] then Step(find.trace, Some(IdsMissing(w, "host_templates", missing)))
    else find
  }

  /** `assertServiceCategories`: every requested category exists and, for a non-admin, is visible. */
  function AssertServiceCategories(w: World, ids: seq<int>): Step {
    var find := Call(w, FindExistingCategories(ids, !w.isAdmin));
    var missing := Missing(ids, w.foundCategories);
    if find.thrown.None? && missing != [] then Step(find.trace, Some(IdsMissing(w, "service_categories", missing)))
    else find
  }

  /** `assertAllProperties`: checks the host templates and categories that were sent. */
  function AssertAllProperties(w: World, req: Request): (r: Step)
    ensures forall e :: e in r.trace ==> e.FindExistingHostTemplates? || e.FindExistingCategories?
    ensures req.hostTemplates.NoValue? && req.serviceCategories.NoValue? ==> r == Done
    ensures req.hostTemplates.NoValue? ==> forall e :: e in r.trace ==> !e.FindExistingHostTemplates?
    ensures req.serviceCategories.NoValue? ==> forall e :: e in r.trace ==> !e.FindExistingCategories?
  {
    AndThen(
      if req.hostTemplates.Given? then AssertHostTemplateIds(w, req.hostTemplates.value) else Done,
      if req.serviceCategories.Given? then AssertServiceCategories(w, req.serviceCategories.value) else Done)
  }

  // ===========================================================================
  // links

  /** `linkServiceTemplateToHostTemplates`: replaces all host template links. */
  function LinkHostTemplates(w: World, req: Request): (r: Step)
    ensures forall e :: e in r.trace ==> e.UnlinkHosts? || e.LinkToHosts?
    ensures req.hostTemplates.NoValue? ==> r == Done
  {
    match req.hostTemplates
    case NoValue => Done
    case Given(ids) => AndThen(Call(w, UnlinkHosts(req.id)), Call(w, LinkToHosts(req.id, ids)))
  }

  /** `linkServiceTemplateToServiceCategories`: unlinks the removed categories, links the added ones. */
  function LinkServiceCategories(w: World, c: Collaborators, req: Request): (r: Step)
    ensures forall e :: e in r.trace ==> e.FindCategoriesOfService? || e.UnlinkCategories? || e.LinkCategories?
    ensures req.serviceCategories.NoValue? ==> r == Done
  {
    match req.serviceCategories
    case NoValue => Done
    case Given(ids) =>
      var diff := c.basicDifference(w.originalCategories, Dedup(ids));
      CallAll(w, [FindCategoriesOfService(req.id, !w.isAdmin),
                  UnlinkCategories(req.id, diff.removed),
                  LinkCategories(req.id, diff.added)])
  }

  // ===========================================================================
  // macros

  /** The macros `findAllMacros` returns, with the calls that read them. */
  datatype KnownMacros = KnownMacros(
    step: Step, direct: MacroTable, inherited: MacroTable, command: map<string, CommandMacro>)

  /** `findAllMacros`: the template's own and inherited macros, and its check command's macros. */
  function FindAllMacros(w: World, c: Collaborators, id: int, commandId: Option<int>): (r: KnownMacros)
    ensures forall e :: e in r.step.trace ==> e.FindParents? || e.FindMacrosOf? || e.FindCommandMacros?
    ensures commandId.None? ==> r.command == map[] && forall e :: e in r.step.trace ==> !e.FindCommandMacros?
  {
    var line := c.inheritanceLine(id, w.parents);
    var resolved := c.resolveInheritance(w.existingMacros, line, id);
    var direct := resolved.0;
    var inherited := resolved.1;
    var lookups := AndThen(Call(w, FindParents(id)), Call(w, FindMacrosOf([id] + line)));
    match commandId
    case None => KnownMacros(lookups, direct, inherited, map[])
    case Some(cid) =>
      KnownMacros(AndThen(lookups, Call(w, FindCommandMacros(cid))), direct, inherited,
                  c.resolveCommandMacros(w.existingCommandMacros))
  }

  /** `$macros[$macro->getName()] = $macro`: overwrites the macro of that name in place, or appends. */
  function PutByName(macros: seq<Macro>, m: Macro): (r: seq<Macro>)
    ensures forall i :: 0 <= i < |macros| && macros[i].name != m.name ==> macros[i] in r
    ensures m in r
    ensures forall x :: x in r ==> x == m || (x in macros && x.name != m.name)
  {
    if exists i :: 0 <= i < |macros| && macros[i].name == m.name then
      var r := seq(|macros|, i requires 0 <= i < |macros| => if macros[i].name == m.name then m else macros[i]);
      assert forall i :: 0 <= i < |macros| ==> r[i] == (if macros[i].name == m.name then m else macros[i]);
      assert m in r by {
        var k :| 0 <= k < |macros| && macros[k].name == m.name;
        assert r[k] == m;
      }
      r
    else macros + [m]
  }

  /** The loop over the requested macros: each goes through `MacroFactory::create`, which may throw. */
  function CreateMacros(c: Collaborators, requested: seq<RequestMacro>, id: int, known: KnownMacros)
    : Result<seq<Macro>, Exception>
    decreases |requested|
  {
    if |requested| == 0 then Success([])
    else
      match CreateMacros(c, requested[..|requested| - 1], id, known)
      case Failure(e) => Failure(e)
      case Success(macros) =>
        match c.createMacro(requested[|requested| - 1], id, known.direct, known.inherited)
        case Failure(e) => Failure(e)
        case Success(m) => Success(PutByName(macros, m))
  }

  /** An added macro without description takes the description of the command macro of that name. */
  function WithDefaultDescription(m: Macro, command: map<string, CommandMacro>): (r: Macro)
    ensures r.(description := m.description) == m
    ensures m.description != "" ==> r == m
    ensures m.description == "" && m.name in command ==> r.description == command[m.name].description
    ensures m.description == "" && m.name !in command ==> r.description == ""
  {
    if m.description == "" then
      m.(description := if m.name in command then command[m.name].description else "")
    else m
  }

  /** The macro writes: every removed macro deleted, then every updated one updated, then every added one added. */
  function WritePlan(diff: MacroDiff, command: map<string, CommandMacro>): (r: seq<Effect>)
    ensures forall e :: e in r ==> e.DeleteMacro? || e.UpdateMacro? || e.AddMacro?
  {
    seq(|diff.removed|, i requires 0 <= i < |diff.removed| => DeleteMacro(diff.removed[i]))
    + seq(|diff.updated|, i requires 0 <= i < |diff.updated| => UpdateMacro(diff.updated[i]))
    + seq(|diff.added|, i requires 0 <= i < |diff.added| =>
            AddMacro(WithDefaultDescription(diff.added[i], command)))
  }

  /** `updateMacros`: nothing without a macro list, else read, diff and write the macros. */
  function UpdateMacros(w: World, c: Collaborators, req: Request, template: Template): (r: Step)
    ensures forall e :: e in r.trace ==> IsMacroPhaseCall(e)
    ensures req.macros.NoValue? ==> r == Done
  {
    match req.macros
    case NoValue => Done
    case Given(requested) =>
      var known := FindAllMacros(w, c, req.id, template.commandId);
      if known.step.thrown.Some? then known.step
      else
        match CreateMacros(c, requested, req.id, known)
        case Failure(e) => Step(known.step.trace, Some(e))
        case Success(macros) =>
          var diff := c.setOrder(c.computeDiff(known.direct, known.inherited, known.command, macros), macros);
          AndThen(known.step, CallAll(w, WritePlan(diff, known.command)))
  }

  // ===========================================================================
  // the transaction and the use case

  /** The work done inside the transaction. */
  function TransactionBody(w: World, c: Collaborators, req: Request, template: Template): (r: Step)
    ensures forall e :: e in r.trace ==> !IsTransactionCall(e) && (IsWrite(e) || IsMacroPhaseCall(e) || e.FindCategoriesOfService?)
    ensures req.macros.NoValue? ==> forall e :: e in r.trace ==> !IsMacroPhaseCall(e)
  {
    AndThen(LinkHostTemplates(w, req), AndThen(LinkServiceCategories(w, c, req), UpdateMacros(w, c, req, template)))
  }

  /**
   * `updatePropertiesInTransaction`: starts a transaction, runs the body and commits;
   * when the body or the commit throws, rolls back and rethrows (an exception of the
   * rollback itself replaces it).
   */
  function InTransaction(w: World, body: Step): Step {
    var start := Call(w, StartTransaction);
    if start.thrown.Some? then start
    else
      var work := AndThen(body, Call(w, CommitTransaction));
      if work.thrown.None? then Step(start.trace + work.trace, None)
      else
        var rollback := Call(w, RollbackTransaction);
        Step(start.trace + work.trace + rollback.trace,
             if rollback.thrown.Some? then rollback.thrown else work.thrown)
  }

  /** The catch blocks of `__invoke`. */
  function ResponseFor(ex: Exception): (r: Response)
    ensures r.Conflict? <==> ex.TemplateException? && ex.code == ConflictCode
    ensures r.Conflict? ==> r.error == ex
    ensures ex.TemplateException? && ex.code != ConflictCode ==> r == Error(ex)
    ensures ex.OtherThrowable? ==> r == Error(TemplateException(OtherCode, ErrorWhileUpdating))
  {
    match ex
    case TemplateException(code, _) => if code == ConflictCode then Conflict(ex) else Error(ex)
    case OtherThrowable(_) => Error(TemplateException(OtherCode, ErrorWhileUpdating))
  }

  /** The exception `ServiceTemplateException::updateNotAllowed`. */
  const NotAllowed := TemplateException(OtherCode, UpdateNotAllowed)

  /** `__invoke`: the role gate, the not-found gate, validation, then the transaction. */
  function Invoke(w: World, c: Collaborators, req: Request): Outcome {
    if !w.hasWriteRole then Outcome([], Forbidden(NotAllowed))
    else
      var find := Call(w, FindTemplate(req.id));
      if find.thrown.Some? then Outcome(find.trace, ResponseFor(find.thrown.value))
      else if w.template.None? then Outcome(find.trace, NotFound)
      else
        var groups := if w.isAdmin then Done else Call(w, FindAccessGroups);
        if groups.thrown.Some? then Outcome(find.trace + groups.trace, ResponseFor(groups.thrown.value))
        else
          var checks := AssertAllProperties(w, req);
          if checks.thrown.Some? then
            Outcome(find.trace + groups.trace + checks.trace, ResponseFor(checks.thrown.value))
          else
            var tx := InTransaction(w, TransactionBody(w, c, req, w.template.value));
            Outcome(find.trace + groups.trace + checks.trace + tx.trace,
                    if tx.thrown.None? then NoContent else ResponseFor(tx.thrown.value))
  }
}
