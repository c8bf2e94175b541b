/**
 * The values the partial update of a service template works on: the request,
 * the macros, the exceptions and responses, and the effects it has on its
 * repositories and storage engine.
 */
module ServiceTemplate {
  import opened Base

  /** A request field the client may leave out (`NoValue`) or send. */
  datatype Field<+T> = NoValue | Given(value: T)

  /** A macro as sent by the client, before `MacroFactory::create`. */
  datatype RequestMacro = RequestMacro(name: string, value: string, isPassword: bool, description: string)

  /** The body of `PATCH /configuration/services/templates/{id}`. */
  datatype Request = Request(
    id: int,
    hostTemplates: Field<seq<int>>,
    serviceCategories: Field<seq<int>>,
    macros: Field<seq<RequestMacro>>)

  /** The stored service template, as far as the update reads it. */
  datatype Template = Template(id: int, commandId: Option<int>)

  /** A service macro owned by a service template. */
  datatype Macro = Macro(ownerId: int, name: string, value: string, isPassword: bool, description: string, order: int)

  /** A macro declared by a check command. */
  datatype CommandMacro = CommandMacro(commandId: int, name: string, description: string)

  /** A macro name mapped to its macro, as the PHP arrays keyed by macro name. */
  type MacroTable = map<string, Macro>

  /** The macros the update deletes, updates and adds, as computed by `MacroDifference`. */
  datatype MacroDiff = MacroDiff(removed: seq<Macro>, updated: seq<Macro>, added: seq<Macro>)

  /** The added and removed ids computed by `BasicDifference`. */
  datatype IdDiff = IdDiff(added: seq<int>, removed: seq<int>)

  /** A link between a service template and its parent template. */
  datatype Inheritance = Inheritance(parentId: int, childId: int)

  /** The code of a `ServiceTemplateException`: `CODE_CONFLICT` or any other. */
  datatype Code = ConflictCode | OtherCode

  /** Why a `ServiceTemplateException` was raised. */
  datatype Reason =
    | UpdateNotAllowed
    | ErrorWhileUpdating
    | IdsDoNotExist(propertyName: string, ids: seq<int>)
    | OtherReason(tag: int)

  /** A thrown exception: a `ServiceTemplateException` or any other `Throwable`. */
  datatype Exception =
    | TemplateException(code: Code, reason: Reason)
    | OtherThrowable(tag: int)

  /** The response the presenter receives. */
  datatype Response =
    | NoContent
    | Forbidden(error: Exception)
    | NotFound
    | Conflict(error: Exception)
    | Error(error: Exception)

  /** A call to a repository or to the storage engine. */
  datatype Effect =
    | FindTemplate(id: int)
    | FindAccessGroups
    | FindExistingHostTemplates(ids: seq<int>)
    | FindExistingCategories(ids: seq<int>, byAccessGroups: bool)
    | StartTransaction
    | CommitTransaction
    | RollbackTransaction
    | UnlinkHosts(id: int)
    | LinkToHosts(id: int, hostTemplates: seq<int>)
    | FindCategoriesOfService(id: int, byAccessGroups: bool)
    | UnlinkCategories(id: int, categories: seq<int>)
    | LinkCategories(id: int, categories: seq<int>)
    | FindParents(id: int)
    | FindMacrosOf(ids: seq<int>)
    | FindCommandMacros(commandId: int)
    | DeleteMacro(macro: Macro)
    | UpdateMacro(macro: Macro)
    | AddMacro(macro: Macro)

  /** The calls that change the stored configuration. */
  predicate IsWrite(e: Effect) {
    e.UnlinkHosts? || e.LinkToHosts? || e.UnlinkCategories? || e.LinkCategories? ||
    e.DeleteMacro? || e.UpdateMacro? || e.AddMacro?
  }

  /** The calls of the storage engine. */
  predicate IsTransactionCall(e: Effect) {
    e.StartTransaction? || e.CommitTransaction? || e.RollbackTransaction?
  }

  /**
   * The calls of the macro phase: the parent lookup of the service template
   * repository, and the calls to the service and command macro repositories.
   */
  predicate IsMacroPhaseCall(e: Effect) {
    e.FindParents? || e.FindMacrosOf? || e.FindCommandMacros? ||
    e.DeleteMacro? || e.UpdateMacro? || e.AddMacro?
  }

  /**
   * What the repositories answer and which calls throw. The user's rights are
   * part of it; every call listed in `failures` throws the exception it maps to.
   */
  datatype World = World(
    hasWriteRole: bool,
    isAdmin: bool,
    template: Option<Template>,
    foundHostTemplates: seq<int>,
    foundCategories: seq<int>,
    originalCategories: seq<int>,
    parents: seq<Inheritance>,
    existingMacros: seq<Macro>,
    existingCommandMacros: seq<CommandMacro>,
    idsMissingCode: Code,
    failures: map<Effect, Exception>)

  /**
   * The collaborators whose behaviour the update takes as given:
   * `ServiceTemplateInheritance::createInheritanceLine`, `Macro::resolveInheritance`,
   * `MacroManager::resolveInheritanceForCommandMacro`, `MacroFactory::create`,
   * `MacroDifference::compute`, `MacroManager::setOrder` and `BasicDifference`.
   */
  datatype Collaborators = Collaborators(
    inheritanceLine: (int, seq<Inheritance>) -> seq<int>,
    resolveInheritance: (seq<Macro>, seq<int>, int) -> (MacroTable, MacroTable),
    resolveCommandMacros: seq<CommandMacro> -> map<string, CommandMacro>,
    createMacro: (RequestMacro, int, MacroTable, MacroTable) -> Result<Macro, Exception>,
    computeDiff: (MacroTable, MacroTable, map<string, CommandMacro>, seq<Macro>) -> MacroDiff,
    setOrder: (MacroDiff, seq<Macro>) -> MacroDiff,
    basicDifference: (seq<int>, seq<int>) -> IdDiff)
}
