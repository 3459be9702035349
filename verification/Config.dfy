/** The share configuration: action validation and the overlay of a user file on the builtin actions. */
module Config {
  import opened Wrappers

  const KIND_TEMPLATE := "template"
  const KIND_LITERAL := "literal"
  const KIND_REGEX := "regex"
  const KIND_CAPTURE := "capture"

  /** The declared fields of an action. */
  datatype Action = Action(
    id: string, caption: string, icon: string, inputType: string, target: string, kind: string,
    commandTemplate: string, pattern: string, archiveThreshold: int, profileMap: string, condition: string,
    inlineTriage: bool, autoScore: bool, confidenceThreshold: int, autoLaunch: bool, serverScore: bool,
    forceContentClassify: bool, shortsRubricTemplate: string,
    artifactDir: string, artifactFilenameTemplate: string, postCaptureCommand: string)

  datatype DomainRoute = DomainRoute(pattern: string, overrideAction: string)

  /** The server block and the routing thresholds are taken or dropped whole; "" is their zero value. */
  datatype Settings = Settings(defaultArchiveThreshold: int, server: string, domainRoutes: seq<DomainRoute>,
      routing: string, actions: seq<Action>)

  /** Which template and regex sources the libraries accept. */
  datatype Compilers = Compilers(template: string -> bool, regex: string -> bool)

  datatype ConfigError =
    | IdRequired | DuplicateId(id: string) | TemplateRequired(id: string) | PatternRequired(id: string)
    | InvalidTemplate(id: string) | InvalidPattern(id: string) | UnknownKind(id: string)
    | PostCaptureOnlyForCapture(id: string) | AutoLaunchNeedsThreshold(id: string)

  // -------------------------------------------------------------- validation

  function WithKind(a: Action): Action {
    if a.kind == "" then a.(kind := KIND_TEMPLATE) else a
  }

  /** The checks validate makes on one action, after its kind got its default. */
  function Problem(a: Action, lib: Compilers): Result<(), ConfigError> {
    var kindProblem :=
      if a.kind == KIND_TEMPLATE then
        if a.commandTemplate == "" then Err(TemplateRequired(a.id))
        else if !lib.template(a.commandTemplate) then Err(InvalidTemplate(a.id))
        else Ok(())
      else if a.kind == KIND_LITERAL then Ok(())
      else if a.kind == KIND_REGEX then
        if a.pattern == "" then Err(PatternRequired(a.id))
        else if a.commandTemplate == "" then Err(TemplateRequired(a.id))
        else if !lib.regex(a.pattern) then Err(InvalidPattern(a.id))
        else if !lib.template(a.commandTemplate) then Err(InvalidTemplate(a.id))
        else Ok(())
      else if a.kind == KIND_CAPTURE then
        if a.postCaptureCommand != "" && !lib.template(a.postCaptureCommand) then Err(InvalidTemplate(a.id)) else Ok(())
      else Err(UnknownKind(a.id));
    if kindProblem.Err? then kindProblem
    else if a.postCaptureCommand != "" && a.kind != KIND_CAPTURE then Err(PostCaptureOnlyForCapture(a.id))
    else if a.autoLaunch && a.confidenceThreshold <= 0 then Err(AutoLaunchNeedsThreshold(a.id))
    else Ok(())
  }

  /**
   An action is accepted exactly when its kind, "template" by default, is known
   and has the sources it needs, all of which compile; when only a capture action
   has a post-capture command; and when launching by itself has a threshold.
   */
  lemma AcceptedIff(a: Action, lib: Compilers)
    ensures Problem(WithKind(a), lib).Ok? <==>
            && a.kind in {"", "template", "literal", "regex", "capture"}
            && (a.kind in {"", "template", "regex"} ==> a.commandTemplate != "" && lib.template(a.commandTemplate))
            && (a.kind == "regex" ==> a.pattern != "" && lib.regex(a.pattern))
            && (a.postCaptureCommand != "" ==> a.kind == "capture" && lib.template(a.postCaptureCommand))
            && (a.autoLaunch ==> a.confidenceThreshold > 0)
    ensures WithKind(a) == a.(kind := if a.kind == "" then "template" else a.kind)
  {
  }

  ghost predicate UniqueIds(actions: seq<Action>) {
    forall i, k :: 0 <= i < k < |actions| ==> actions[i].id != actions[k].id
  }

  ghost function WithKinds(actions: seq<Action>): seq<Action> {
    seq(|actions|, i requires 0 <= i < |actions| => WithKind(actions[i]))
  }

  /** What validation accepts: named, unrepeated actions without a problem. */
  ghost predicate AreValid(actions: seq<Action>, lib: Compilers) {
    && UniqueIds(actions)
    && forall i :: 0 <= i < |actions| ==> actions[i].id != "" && Problem(WithKind(actions[i]), lib).Ok?
  }

  /** Validation succeeds exactly on valid actions, and then only fills in missing kinds. */
  method Validate(actions: seq<Action>, lib: Compilers) returns (r: Result<seq<Action>, ConfigError>)
    ensures r.Ok? <==> AreValid(actions, lib)
    ensures r.Ok? ==> r.value == WithKinds(actions)
  {
    hide Problem, WithKind;
    var ids: set<string> := {};
    var out: seq<Action> := [];
    for i := 0 to |actions|
      invariant forall id :: id in ids <==> exists k :: 0 <= k < i && actions[k].id == id
      invariant AreValid(actions[..i], lib)
      invariant out == WithKinds(actions)[..i]
    {
      var a := actions[i];
      if a.id == "" {
        return Err(IdRequired);
      }
      if a.id in ids {
        return Err(DuplicateId(a.id));
      }
      ids := ids + {a.id};
      var problem := Problem(WithKind(a), lib);
      if problem.Err? {
        return Err(problem.error);
      }
      out := out + [WithKind(a)];
    }
    assert actions[..|actions|] == actions;
    return Ok(out);
  }

  // ----------------------------------------------------------------- overlay

  /** mergeActionShallow: the user's non-zero fields over a builtin action. */
  function Overlay(base: Action, user: Action): Action {
    base.(
      caption := if user.caption != "" then user.caption else base.caption,
      icon := if user.icon != "" then user.icon else base.icon,
      inputType := if user.inputType != "" then user.inputType else base.inputType,
      target := if user.target != "" then user.target else base.target,
      kind := if user.kind != "" then user.kind else base.kind,
      commandTemplate := if user.commandTemplate != "" then user.commandTemplate else base.commandTemplate,
      pattern := if user.pattern != "" then user.pattern else base.pattern,
      archiveThreshold := if user.archiveThreshold != 0 then user.archiveThreshold else base.archiveThreshold,
      profileMap := if user.profileMap != "" then user.profileMap else base.profileMap,
      condition := if user.condition != "" then user.condition else base.condition,
      inlineTriage := user.inlineTriage || base.inlineTriage,
      autoScore := user.autoScore || base.autoScore,
      confidenceThreshold :=
        if user.confidenceThreshold != 0 then user.confidenceThreshold else base.confidenceThreshold,
      autoLaunch := user.autoLaunch || base.autoLaunch,
      serverScore := user.serverScore || base.serverScore)
  }

  /** A field that is set in the user's action has the user's value in the result. */
  ghost predicate Honours<T>(user: T, zero: T, merged: T) {
    user == zero || merged == user
  }

  /** Every non-zero field the overlay merges overrides the builtin's. */
  ghost predicate HonoursMergedFields(user: Action, merged: Action) {
    && Honours(user.caption, "", merged.caption) && Honours(user.icon, "", merged.icon)
    && Honours(user.inputType, "", merged.inputType) && Honours(user.target, "", merged.target)
    && Honours(user.kind, "", merged.kind) && Honours(user.commandTemplate, "", merged.commandTemplate)
    && Honours(user.pattern, "", merged.pattern) && Honours(user.archiveThreshold, 0, merged.archiveThreshold)
    && Honours(user.profileMap, "", merged.profileMap) && Honours(user.condition, "", merged.condition)
    && Honours(user.inlineTriage, false, merged.inlineTriage) && Honours(user.autoScore, false, merged.autoScore)
    && Honours(user.confidenceThreshold, 0, merged.confidenceThreshold)
    && Honours(user.autoLaunch, false, merged.autoLaunch)
    && Honours(user.serverScore, false, merged.serverScore)
  }

  /** Every non-zero field of the user's action overrides the builtin's. */
  ghost predicate HonoursEveryField(user: Action, merged: Action) {
    && HonoursMergedFields(user, merged)
    && Honours(user.forceContentClassify, false, merged.forceContentClassify)
    && Honours(user.shortsRubricTemplate, "", merged.shortsRubricTemplate)
    && Honours(user.artifactDir, "", merged.artifactDir)
    && Honours(user.artifactFilenameTemplate, "", merged.artifactFilenameTemplate)
    && Honours(user.postCaptureCommand, "", merged.postCaptureCommand)
  }

  /** A field that is not set in the user's action has the builtin's value in the result. */
  ghost predicate Inherits<T>(user: T, zero: T, base: T, merged: T) {
    user == zero ==> merged == base
  }

  /** Every zero field of the user's action leaves the builtin's. */
  ghost predicate InheritsEveryField(base: Action, user: Action, merged: Action) {
    && merged.id == base.id
    && Inherits(user.caption, "", base.caption, merged.caption) && Inherits(user.icon, "", base.icon, merged.icon)
    && Inherits(user.inputType, "", base.inputType, merged.inputType)
    && Inherits(user.target, "", base.target, merged.target) && Inherits(user.kind, "", base.kind, merged.kind)
    && Inherits(user.commandTemplate, "", base.commandTemplate, merged.commandTemplate)
    && Inherits(user.pattern, "", base.pattern, merged.pattern)
    && Inherits(user.archiveThreshold, 0, base.archiveThreshold, merged.archiveThreshold)
    && Inherits(user.profileMap, "", base.profileMap, merged.profileMap)
    && Inherits(user.condition, "", base.condition, merged.condition)
    && Inherits(user.inlineTriage, false, base.inlineTriage, merged.inlineTriage)
    && Inherits(user.autoScore, false, base.autoScore, merged.autoScore)
    && Inherits(user.confidenceThreshold, 0, base.confidenceThreshold, merged.confidenceThreshold)
    && Inherits(user.autoLaunch, false, base.autoLaunch, merged.autoLaunch)
    && Inherits(user.serverScore, false, base.serverScore, merged.serverScore)
    && Inherits(user.forceContentClassify, false, base.forceContentClassify, merged.forceContentClassify)
    && Inherits(user.shortsRubricTemplate, "", base.shortsRubricTemplate, merged.shortsRubricTemplate)
    && Inherits(user.artifactDir, "", base.artifactDir, merged.artifactDir)
    && Inherits(user.artifactFilenameTemplate, "", base.artifactFilenameTemplate, merged.artifactFilenameTemplate)
    && Inherits(user.postCaptureCommand, "", base.postCaptureCommand, merged.postCaptureCommand)
  }

  /** The user sets none of the five unmerged fields, or sets them to the builtin's values. */
  predicate AgreesOnUnmerged(base: Action, user: Action) {
    && user.forceContentClassify in {false, base.forceContentClassify}
    && user.shortsRubricTemplate in {"", base.shortsRubricTemplate}
    && user.artifactDir in {"", base.artifactDir}
    && user.artifactFilenameTemplate in {"", base.artifactFilenameTemplate}
    && user.postCaptureCommand in {"", base.postCaptureCommand}
  }

  /**
   The overlay honours every field the user sets exactly when the user sets none
   of the five it does not merge, or sets them to the builtin's values.
   */
  lemma OverlayHonoursIff(base: Action, user: Action)
    ensures HonoursMergedFields(user, Overlay(base, user))
    ensures HonoursEveryField(user, Overlay(base, user)) <==> AgreesOnUnmerged(base, user)
  {
  }

  /** Fields the user leaves out are the builtin's. */
  lemma OverlayInherits(base: Action, user: Action)
    ensures InheritsEveryField(base, user, Overlay(base, user))
  {
  }

  /** A builtin action. */
  const CAPTURE_JIRA := Action(
    "capture_jira_auto", "Capture Jira", "work", "url", "", KIND_CAPTURE, "", "", 0, "auto", "",
    false, false, 0, false, false, false, "", "docs/captures", "{{.Date}}_{{.Key}}.md", "")

  /** A user who moves its artifacts elsewhere has a valid file, and no effect. */
  lemma ArtifactDirIgnored(lib: Compilers)
    ensures var user := CAPTURE_JIRA.(artifactDir := "notes");
            && AreValid([user], lib)
            && Overlay(CAPTURE_JIRA, user) == CAPTURE_JIRA
            && !HonoursEveryField(user, Overlay(CAPTURE_JIRA, user))
  {
    OverlayHonoursIff(CAPTURE_JIRA, CAPTURE_JIRA.(artifactDir := "notes"));
  }

  // ------------------------------------------------------------------- merge

  function IdsOf(actions: seq<Action>): set<string> {
    set a | a in actions :: a.id
  }

  /** The user's action of an id; the last one wins. */
  function ById(actions: seq<Action>): map<string, Action> {
    if actions == [] then map[] else ById(actions[..|actions| - 1])[actions[|actions| - 1].id := actions[|actions| - 1]]
  }

  function OverlaidBy(base: Action, users: map<string, Action>): Action {
    if base.id in users then Overlay(base, users[base.id]) else base
  }

  ghost function Overlaid(builtin: seq<Action>, user: seq<Action>): seq<Action> {
    seq(|builtin|, i requires 0 <= i < |builtin| => OverlaidBy(builtin[i], ById(user)))
  }

  /** The user's actions whose ids no builtin has, in the user's order. */
  function UserOnly(builtinIds: set<string>, user: seq<Action>): seq<Action> {
    if user == [] then []
    else
      var last := user[|user| - 1];
      UserOnly(builtinIds, user[..|user| - 1]) + if last.id in builtinIds then [] else [last]
  }

  ghost function MergedActions(builtin: seq<Action>, user: seq<Action>): seq<Action> {
    Overlaid(builtin, user) + UserOnly(IdsOf(builtin), user)
  }

  /** The merged settings before validation; the routing block of either file is not carried over. */
  ghost function Merged(builtin: Settings, user: Settings): Settings {
    Settings(
      if user.defaultArchiveThreshold != 0 then user.defaultArchiveThreshold else builtin.defaultArchiveThreshold,
      if user.server != "" then user.server else builtin.server,
      if user.domainRoutes != [] then user.domainRoutes else builtin.domainRoutes,
      "",
      MergedActions(builtin.actions, user.actions))
  }

  lemma {:induction false} EveryIdIndexed(actions: seq<Action>)
    ensures ById(actions).Keys == IdsOf(actions)
  {
    if actions != [] {
      var front, last := actions[..|actions| - 1], actions[|actions| - 1];
      EveryIdIndexed(front);
      assert actions == front + [last];
    }
  }

  method IndexById(actions: seq<Action>) returns (byId: map<string, Action>)
    ensures byId == ById(actions)
  {
    byId := map[];
    for i := 0 to |actions|
      invariant byId == ById(actions[..i])
    {
      assert actions[..i + 1][..i] == actions[..i];
      byId := byId[actions[i].id := actions[i]];
    }
    assert actions[..|actions|] == actions;
  }

  /** The action list of the merge: builtins overlaid in place, then the user-only actions. */
  method MergeActions(builtin: seq<Action>, user: seq<Action>) returns (actions: seq<Action>)
    ensures actions == MergedActions(builtin, user)
  {
    hide OverlaidBy, ById;
    var userById := IndexById(user);
    EveryIdIndexed(user);
    var seen: set<string> := {};
    actions := [];
    for i := 0 to |builtin|
      invariant seen == IdsOf(builtin[..i]) * userById.Keys
      invariant actions == Overlaid(builtin, user)[..i]
    {
      var b := builtin[i];
      assert IdsOf(builtin[..i + 1]) == IdsOf(builtin[..i]) + {b.id};
      if b.id in userById {
        seen := seen + {b.id};
      }
      actions := actions + [OverlaidBy(b, userById)];
    }
    assert builtin[..|builtin|] == builtin;
    for i := 0 to |user|
      invariant actions == Overlaid(builtin, user) + UserOnly(IdsOf(builtin), user[..i])
    {
      assert user[..i + 1][..i] == user[..i];
      assert user[i].id in userById;
      if user[i].id !in seen {
        actions := actions + [user[i]];
      }
    }
    assert user[..|user|] == user;
  }

  /** Merging succeeds exactly when the merged actions are valid; without a user file the builtin is only validated. */
  method MergeWithBuiltin(builtin: Settings, user: Option<Settings>, lib: Compilers)
    returns (r: Result<Settings, ConfigError>)
    ensures var merged := match user case Some(u) => Merged(builtin, u) case None => builtin;
            && (r.Ok? <==> AreValid(merged.actions, lib))
            && (r.Ok? ==> r.value == merged.(actions := WithKinds(merged.actions)))
  {
    hide AreValid, WithKinds, MergedActions;
    match user
    case None =>
      var checked := Validate(builtin.actions, lib);
      return if checked.Err? then Err(checked.error) else Ok(builtin.(actions := checked.value));
    case Some(u) =>
      var actions := MergeActions(builtin.actions, u.actions);
      var checked := Validate(actions, lib);
      if checked.Err? {
        return Err(checked.error);
      }
      return Ok(Settings(
        if u.defaultArchiveThreshold != 0 then u.defaultArchiveThreshold else builtin.defaultArchiveThreshold,
        if u.server != "" then u.server else builtin.server,
        if u.domainRoutes != [] then u.domainRoutes else builtin.domainRoutes,
        "", checked.value));
  }

  // --------------------------------------------------------- merge properties

  /**
   `tail` lists the user's actions with other ids, at the positions `at`: all of
   them, in order, each as often as it occurs.
   */
  ghost predicate IsSelection(ids: set<string>, user: seq<Action>, tail: seq<Action>, at: seq<nat>) {
    && |at| == |tail|
    && (forall k :: 0 <= k < |at| ==> at[k] < |user| && tail[k] == user[at[k]])
    && (forall k, l :: 0 <= k < l < |at| ==> at[k] < at[l])
    && (forall i :: 0 <= i < |user| ==> (i in at <==> user[i].id !in ids))
  }

  ghost function PositionsOutside(ids: set<string>, user: seq<Action>): seq<nat> {
    if user == [] then []
    else
      var last := |user| - 1;
      PositionsOutside(ids, user[..last]) + if user[last].id in ids then [] else [last]
  }

  lemma SelectOneMore(ids: set<string>, front: seq<Action>, a: Action, tail: seq<Action>, at: seq<nat>)
    requires IsSelection(ids, front, tail, at)
    ensures if a.id in ids then IsSelection(ids, front + [a], tail, at)
            else IsSelection(ids, front + [a], tail + [a], at + [|front|])
  {
    assert forall k :: 0 <= k < |at| ==> at[k] in at;
    forall i | 0 <= i < |front| ensures (front + [a])[i] == front[i] {}
  }

  lemma {:induction false} UserOnlyIsSelection(ids: set<string>, user: seq<Action>)
    ensures IsSelection(ids, user, UserOnly(ids, user), PositionsOutside(ids, user))
  {
    if user != [] {
      var front, last := user[..|user| - 1], user[|user| - 1];
      UserOnlyIsSelection(ids, front);
      assert user == front + [last];
      SelectOneMore(ids, front, last, UserOnly(ids, front), PositionsOutside(ids, front));
      hide IsSelection;
      assert UserOnly(ids, front) + [] == UserOnly(ids, front);
      assert PositionsOutside(ids, front) + [] == PositionsOutside(ids, front);
    }
  }

  /**
   The builtins come first, in their order and with their ids; then come the
   user's actions with other ids, verbatim, in the user's order, and as often as
   the user lists them.
   */
  lemma MergeOrder(builtin: seq<Action>, user: seq<Action>)
    ensures var merged := MergedActions(builtin, user);
            && |merged| >= |builtin|
            && (forall i :: 0 <= i < |builtin| ==> merged[i].id == builtin[i].id)
            && exists at :: IsSelection(IdsOf(builtin), user, merged[|builtin|..], at)
  {
    UserOnlyIsSelection(IdsOf(builtin), user);
    assert MergedActions(builtin, user)[|builtin|..] == UserOnly(IdsOf(builtin), user);
  }

  /** The user's last action of an id. */
  ghost predicate IsLastOf(user: seq<Action>, k: nat, id: string) {
    k < |user| && user[k].id == id && forall l :: k < l < |user| ==> user[l].id != id
  }

  lemma {:induction false} ByIdIsLast(user: seq<Action>, id: string)
    ensures id !in ById(user) ==> forall k :: 0 <= k < |user| ==> user[k].id != id
    ensures id in ById(user) ==> exists k: nat :: IsLastOf(user, k, id) && user[k] == ById(user)[id]
  {
    if user != [] {
      var front, n := user[..|user| - 1], |user| - 1;
      ByIdIsLast(front, id);
      assert forall k :: 0 <= k < n ==> user[k] == front[k];
      if user[n].id == id {
        assert IsLastOf(user, n, id);
      } else if id in ById(front) {
        var k: nat :| IsLastOf(front, k, id) && front[k] == ById(front)[id];
        assert IsLastOf(user, k, id);
      }
    }
  }

  lemma ByIdAt(user: seq<Action>, k: nat, id: string)
    requires IsLastOf(user, k, id)
    ensures id in ById(user) && ById(user)[id] == user[k]
  {
    ByIdIsLast(user, id);
  }

  /**
   A builtin no user action overrides is kept.  One that is overridden, by the
   user's last action of its id, inherits every field that action leaves out, and
   has every field it sets, the unmerged ones only where they agree.
   */
  lemma MergedFields(builtin: seq<Action>, user: seq<Action>, i: nat)
    requires i < |builtin|
    ensures (forall k :: 0 <= k < |user| ==> user[k].id != builtin[i].id) ==>
              MergedActions(builtin, user)[i] == builtin[i]
    ensures forall k: nat :: IsLastOf(user, k, builtin[i].id) ==>
              var merged := MergedActions(builtin, user)[i];
              && InheritsEveryField(builtin[i], user[k], merged)
              && (HonoursEveryField(user[k], merged) <==> AgreesOnUnmerged(builtin[i], user[k]))
              && HonoursMergedFields(user[k], merged)
  {
    hide InheritsEveryField, HonoursEveryField, HonoursMergedFields, AgreesOnUnmerged, Overlay;
    ByIdIsLast(user, builtin[i].id);
    forall k: nat | IsLastOf(user, k, builtin[i].id)
      ensures MergedActions(builtin, user)[i] == Overlay(builtin[i], user[k])
    {
      ByIdAt(user, k, builtin[i].id);
    }
    forall u { OverlayInherits(builtin[i], u); }
    forall u { OverlayHonoursIff(builtin[i], u); }
  }

  /** The user's scalars win where set, the builtin's stay elsewhere, and the routing block of both is dropped. */
  lemma MergedScalars(builtin: Settings, user: Settings)
    ensures var merged := Merged(builtin, user);
            && Honours(user.defaultArchiveThreshold, 0, merged.defaultArchiveThreshold)
            && Inherits(user.defaultArchiveThreshold, 0, builtin.defaultArchiveThreshold,
                        merged.defaultArchiveThreshold)
            && Honours(user.server, "", merged.server) && Inherits(user.server, "", builtin.server, merged.server)
            && Honours(user.domainRoutes, [], merged.domainRoutes)
            && Inherits(user.domainRoutes, [], builtin.domainRoutes, merged.domainRoutes)
            && merged.routing == ""
  {
  }

  lemma SelectedAreForeign(ids: set<string>, user: seq<Action>, tail: seq<Action>, at: seq<nat>)
    requires IsSelection(ids, user, tail, at)
    ensures forall k :: 0 <= k < |tail| ==> tail[k].id !in ids
  {
    assert forall k :: 0 <= k < |at| ==> at[k] in at;
  }

  lemma TailIsForeign(builtin: seq<Action>, user: seq<Action>)
    ensures var merged := MergedActions(builtin, user);
            |merged| >= |builtin| &&
            forall i :: 0 <= i < |merged| ==> if i < |builtin| then merged[i].id == builtin[i].id
                                              else merged[i].id !in IdsOf(builtin)
  {
    hide MergedActions, IdsOf, IsSelection;
    MergeOrder(builtin, user);
    var merged := MergedActions(builtin, user);
    var tail := merged[|builtin|..];
    var at :| IsSelection(IdsOf(builtin), user, tail, at);
    SelectedAreForeign(IdsOf(builtin), user, tail, at);
    assert forall i :: |builtin| <= i < |merged| ==> merged[i] == tail[i - |builtin|];
  }

  lemma {:induction false} LookupUnique(actions: seq<Action>, i: nat)
    requires UniqueIds(actions) && i < |actions|
    ensures actions[i].id in ById(actions) && ById(actions)[actions[i].id] == actions[i]
  {
    if i < |actions| - 1 {
      LookupUnique(actions[..|actions| - 1], i);
    }
  }

  lemma {:induction false} UserOnlySuffix(ids: set<string>, s: seq<Action>, n: nat)
    requires n <= |s| && forall i :: 0 <= i < |s| ==> (s[i].id in ids <==> i < n)
    ensures UserOnly(ids, s) == s[n..]
  {
    if s != [] {
      var front := s[..|s| - 1];
      UserOnlySuffix(ids, front, if n == |s| then n - 1 else n);
    }
  }

  lemma OverlayOnce(base: Action, user: Action)
    ensures Overlay(base, WithKind(Overlay(base, user))) == WithKind(Overlay(base, user))
  {
  }

  lemma OverlayNothing(base: Action)
    ensures Overlay(base, WithKind(base)) == WithKind(base)
  {
  }

  lemma OverlayTwice(base: Action, users: map<string, Action>)
    ensures Overlay(base, WithKind(OverlaidBy(base, users))) == WithKind(OverlaidBy(base, users))
  {
    hide Overlay, WithKind;
    if base.id in users {
      OverlayOnce(base, users[base.id]);
    } else {
      OverlayNothing(base);
    }
  }

  /** Merging a merged configuration over the same builtins again changes nothing. */
  lemma MergeIsIdempotent(builtin: Settings, user: Settings, lib: Compilers)
    requires AreValid(MergedActions(builtin.actions, user.actions), lib)
    ensures var once := Merged(builtin, user).(actions := WithKinds(MergedActions(builtin.actions, user.actions)));
            && AreValid(Merged(builtin, once).actions, lib)
            && Merged(builtin, once).(actions := WithKinds(Merged(builtin, once).actions)) == once
  {
    hide Problem;
    var merged := MergedActions(builtin.actions, user.actions);
    var once := WithKinds(merged);
    MergedAgain(builtin.actions, user.actions);
    assert WithKinds(once) == once;
  }

  lemma OverlaidAgain(builtin: seq<Action>, user: seq<Action>, once: seq<Action>)
    requires |builtin| <= |once| && UniqueIds(once)
    requires forall i :: 0 <= i < |builtin| ==>
             once[i].id == builtin[i].id && once[i] == WithKind(OverlaidBy(builtin[i], ById(user)))
    ensures Overlaid(builtin, once) == once[..|builtin|]
  {
    hide Overlay, WithKind, ById;
    forall i | 0 <= i < |builtin| ensures Overlaid(builtin, once)[i] == once[i] {
      LookupUnique(once, i);
      OverlayTwice(builtin[i], ById(user));
    }
  }

  lemma MergedAgain(builtin: seq<Action>, user: seq<Action>)
    requires UniqueIds(MergedActions(builtin, user))
    ensures MergedActions(builtin, WithKinds(MergedActions(builtin, user))) == WithKinds(MergedActions(builtin, user))
  {
    hide OverlaidBy, ById, UserOnly;
    var merged := MergedActions(builtin, user);
    var once := WithKinds(merged);
    TailIsForeign(builtin, user);
    assert forall i :: 0 <= i < |once| ==> once[i].id == merged[i].id;
    OverlaidAgain(builtin, user, once);
    forall i | 0 <= i < |once| ensures once[i].id in IdsOf(builtin) <==> i < |builtin| {
      if i < |builtin| { assert builtin[i] in builtin; }
    }
    UserOnlySuffix(IdsOf(builtin), once, |builtin|);
    assert once == once[..|builtin|] + once[|builtin|..];
  }
}
