/**
 Routing a share request: the router's action index, domain overrides,
 action resolution, and the lookup Route makes in the end.
 */
module Routing {
  import opened Config
  import opened Text
  import opened Wrappers

  datatype Request = Request(action: string, profile: string, url: string)

  /** classifyURLProfile: a profile and whether a domain matched. */
  type Classifier = string -> (string, bool)

  type ActionIndex = map<string, Action>

  class Router {
    var actionsCfg: seq<Action>
    var cfgIndex: ActionIndex

    constructor ()
      ensures actionsCfg == [] && cfgIndex == map[]
    {
      actionsCfg, cfgIndex := [], map[];
    }

    /**
     Replaces the actions by the active ones of a configuration.  When its
     ids are unique, the index holds exactly the listed actions.
     */
    method LoadConfig(cfg: Settings, isMet: string -> bool)
      modifies this
      ensures actionsCfg == Active(cfg, isMet)
      ensures exists at :: IsActiveSelection(cfg, cfg.actions, isMet, actionsCfg, at)
      ensures cfgIndex == ById(actionsCfg)
      ensures UniqueIds(cfg.actions) ==> IsIndexOf(cfgIndex, actionsCfg)
    {
      hide IsActiveSelection;
      var active: seq<Action> := [];
      for i := 0 to |cfg.actions|
        invariant active == ActiveOf(cfg, cfg.actions[..i], isMet)
      {
        assert cfg.actions[..i + 1][..i] == cfg.actions[..i];
        var a := cfg.actions[i];
        if a.condition != "" && !isMet(a.condition) {
          continue;
        }
        active := active + [WithThreshold(cfg, a)];
      }
      assert cfg.actions[..|cfg.actions|] == cfg.actions;
      var index := IndexById(active);
      if UniqueIds(cfg.actions) {
        ActiveStaysUnique(cfg, cfg.actions, isMet);
        UniqueIndex(active);
      }
      ActiveIsSelection(cfg, cfg.actions, isMet);
      actionsCfg, cfgIndex := active, index;
    }
  }

  function WithThreshold(cfg: Settings, a: Action): Action {
    if a.archiveThreshold == 0 && cfg.defaultArchiveThreshold != 0
    then a.(archiveThreshold := cfg.defaultArchiveThreshold)
    else a
  }

  /** The actions whose condition is met, with the default archive threshold filled in. */
  ghost function ActiveOf(cfg: Settings, actions: seq<Action>, isMet: string -> bool): seq<Action> {
    if actions == [] then []
    else
      var a := actions[|actions| - 1];
      ActiveOf(cfg, actions[..|actions| - 1], isMet) +
      if a.condition != "" && !isMet(a.condition) then [] else [WithThreshold(cfg, a)]
  }

  ghost function Active(cfg: Settings, isMet: string -> bool): seq<Action> {
    ActiveOf(cfg, cfg.actions, isMet)
  }

  /**
   The active actions are those without a condition or with a met one, in the
   configured order, at the positions `at`; the default archive threshold stands
   in where an action has none.
   */
  ghost predicate IsActiveSelection(cfg: Settings, actions: seq<Action>, isMet: string -> bool, active: seq<Action>,
      at: seq<nat>) {
    && |at| == |active|
    && (forall k, l :: 0 <= k < l < |at| ==> at[k] < at[l])
    && (forall i :: 0 <= i < |actions| ==> (i in at <==> actions[i].condition == "" || isMet(actions[i].condition)))
    && (forall k :: 0 <= k < |at| ==> at[k] < |actions| && IsActiveForm(cfg, actions[at[k]], active[k]))
  }

  ghost predicate IsActiveForm(cfg: Settings, a: Action, active: Action) {
    && active == a.(archiveThreshold := active.archiveThreshold)
    && active.archiveThreshold == if a.archiveThreshold != 0 then a.archiveThreshold else cfg.defaultArchiveThreshold
  }

  lemma ThresholdFilledIn(cfg: Settings, a: Action)
    ensures IsActiveForm(cfg, a, WithThreshold(cfg, a))
  {
  }

  ghost function ActivePositions(actions: seq<Action>, isMet: string -> bool): seq<nat> {
    if actions == [] then []
    else
      var last := |actions| - 1;
      ActivePositions(actions[..last], isMet) +
      if actions[last].condition == "" || isMet(actions[last].condition) then [last] else []
  }

  lemma SelectOneMore(cfg: Settings, front: seq<Action>, a: Action, isMet: string -> bool, active: seq<Action>,
      at: seq<nat>)
    requires IsActiveSelection(cfg, front, isMet, active, at)
    ensures if a.condition == "" || isMet(a.condition)
            then IsActiveSelection(cfg, front + [a], isMet, active + [WithThreshold(cfg, a)], at + [|front|])
            else IsActiveSelection(cfg, front + [a], isMet, active, at)
  {
    hide WithThreshold, IsActiveForm;
    ThresholdFilledIn(cfg, a);
    assert forall k :: 0 <= k < |at| ==> at[k] in at;
    forall i | 0 <= i < |front| ensures (front + [a])[i] == front[i] {}
  }

  lemma {:induction false} ActiveIsSelection(cfg: Settings, actions: seq<Action>, isMet: string -> bool)
    ensures IsActiveSelection(cfg, actions, isMet, ActiveOf(cfg, actions, isMet), ActivePositions(actions, isMet))
  {
    if actions != [] {
      var front, last := actions[..|actions| - 1], actions[|actions| - 1];
      ActiveIsSelection(cfg, front, isMet);
      assert actions == front + [last];
      SelectOneMore(cfg, front, last, isMet, ActiveOf(cfg, front, isMet), ActivePositions(front, isMet));
      hide IsActiveSelection;
      assert ActiveOf(cfg, front, isMet) + [] == ActiveOf(cfg, front, isMet);
      assert ActivePositions(front, isMet) + [] == ActivePositions(front, isMet);
    }
  }

  /** Every listed action is found under its id, and nothing else is found. */
  ghost predicate IsIndexOf(index: ActionIndex, actions: seq<Action>) {
    && (forall i :: 0 <= i < |actions| ==> actions[i].id in index && index[actions[i].id] == actions[i])
    && (forall id :: id in index ==> exists i :: 0 <= i < |actions| && actions[i].id == id)
  }

  lemma {:induction false} ActiveStaysUnique(cfg: Settings, actions: seq<Action>, isMet: string -> bool)
    requires UniqueIds(actions)
    ensures UniqueIds(ActiveOf(cfg, actions, isMet))
    ensures forall a :: a in ActiveOf(cfg, actions, isMet) ==> exists i :: 0 <= i < |actions| && actions[i].id == a.id
  {
    if actions != [] {
      var front, last := actions[..|actions| - 1], actions[|actions| - 1];
      ActiveStaysUnique(cfg, front, isMet);
      var active := ActiveOf(cfg, front, isMet);
      forall i | 0 <= i < |active| ensures active[i].id != last.id {
        assert active[i] in active;
      }
      forall a | a in ActiveOf(cfg, actions, isMet) ensures exists i :: 0 <= i < |actions| && actions[i].id == a.id {
        if a in active {
          var i :| 0 <= i < |front| && front[i].id == a.id;
          assert actions[i].id == a.id;
        } else {
          assert actions[|actions| - 1].id == a.id;
        }
      }
    }
  }

  lemma UniqueIndex(actions: seq<Action>)
    requires UniqueIds(actions)
    ensures IsIndexOf(ById(actions), actions)
  {
    forall i | 0 <= i < |actions| ensures actions[i].id in ById(actions) && ById(actions)[actions[i].id] == actions[i] {
      LookupUnique(actions, i);
    }
    EveryIdIndexed(actions);
  }

  // -------------------------------------------------------------- resolution

  /** The text after the first underscore, as SplitN with two parts gives it. */
  function AfterUnderscore(s: string): Option<string> {
    if s == "" then None else if s[0] == '_' then Some(s[1..]) else AfterUnderscore(s[1..])
  }

  function PrefixProfile(a: Action, id: string, profile: string): string {
    if a.profileMap == "prefix" && profile == "" && AfterUnderscore(id).Some?
    then AfterUnderscore(id).value
    else profile
  }

  /** resolveShareAction: the action and profile a request ends up with. */
  function Resolve(req: Request, index: ActionIndex, classify: Classifier, heuristics: bool): (string, string) {
    if req.action in index then
      var a := index[req.action];
      var profile := PrefixProfile(a, req.action, req.profile);
      if a.profileMap == "auto" && heuristics && profile == ""
      then (req.action, classify(req.url).0)
      else (req.action, profile)
    else if req.action + "_auto" in index then
      var id := req.action + "_auto";
      (id, PrefixProfile(index[id], id, req.profile))
    else (req.action, req.profile)
  }

  lemma {:induction false} FirstUnderscore(before: string, after: string)
    requires '_' !in before
    ensures AfterUnderscore(before + "_" + after) == Some(after)
    ensures AfterUnderscore(before) == None
  {
    var s := before + "_" + after;
    if before == "" {
      assert s[1..] == after;
    } else {
      assert s[1..] == before[1..] + "_" + after;
      FirstUnderscore(before[1..], after);
    }
  }

  /** The text falls into these two parts around its first underscore. */
  ghost predicate IsFirstSplit(s: string, before: string, after: string) {
    s == before + "_" + after && '_' !in before
  }

  /** The action is the caller's, unless only its "_auto" form is registered; then it is that. */
  lemma ResolvedAction(req: Request, index: ActionIndex, classify: Classifier, heuristics: bool)
    ensures Resolve(req, index, classify, heuristics).0 ==
            if req.action !in index && req.action + "_auto" in index then req.action + "_auto" else req.action
  {
  }

  /**
   A profile the caller gives is the resulting one.  For an empty one the
   resulting action decides: with the profile map "prefix" it is what follows
   the action's first underscore, with "auto" and heuristics, when the caller
   named the action itself, what the classifier says, and otherwise empty.
   */
  lemma ResolvedProfile(req: Request, index: ActionIndex, classify: Classifier, heuristics: bool)
    ensures var (action, profile) := Resolve(req, index, classify, heuristics);
            && (req.profile != "" ==> profile == req.profile)
            && (req.profile == "" && action !in index ==> profile == "")
            && (req.profile == "" && action in index && index[action].profileMap == "prefix" ==>
                  && ('_' !in action ==> profile == "")
                  && forall before, after :: IsFirstSplit(action, before, after) ==> profile == after)
            && (req.profile == "" && action in index && index[action].profileMap == "auto" ==>
                  profile == if heuristics && action == req.action then classify(req.url).0 else "")
            && (req.profile == "" && action in index && index[action].profileMap !in {"prefix", "auto"} ==>
                  profile == "")
  {
    var action := Resolve(req, index, classify, heuristics).0;
    if '_' !in action { FirstUnderscore(action, ""); }
    forall before, after | IsFirstSplit(action, before, after) ensures AfterUnderscore(action) == Some(after)
    {
      FirstUnderscore(before, after);
    }
    hide AfterUnderscore;
  }

  /** A request names a registered action, or the bare intent of one. */
  predicate IsRoutable(req: Request, index: ActionIndex) {
    req.action in index || req.action + "_auto" in index
  }

  /** The first matching rule overrides the action; a rule naming an unknown action is an error. */
  function ResolveDomain(req: Request, routes: seq<DomainRoute>, index: ActionIndex): Result<Request, string> {
    if routes == [] then Ok(req)
    else if !Contains(req.url, routes[0].pattern) then ResolveDomain(req, routes[1..], index)
    else if routes[0].overrideAction !in index then Err(routes[0].overrideAction)
    else Ok(req.(action := routes[0].overrideAction))
  }

  /** The loop of resolveDomainRouteWith; it assigns the request's action. */
  method ResolveDomainRoute(req: Request, routes: seq<DomainRoute>, index: ActionIndex)
    returns (r: Result<Request, string>)
    ensures r == ResolveDomain(req, routes, index)
    ensures forall i :: IsFirstMatch(req, routes, i) ==>
              var id := routes[i].overrideAction;
              r == if id in index then Ok(req.(action := id)) else Err(id)
    ensures (forall i :: 0 <= i < |routes| ==> !Contains(req.url, routes[i].pattern)) ==> r == Ok(req)
  {
    hide Contains;
    assert routes[0..] == routes;
    for i := 0 to |routes|
      invariant ResolveDomain(req, routes, index) == ResolveDomain(req, routes[i..], index)
      invariant forall k :: 0 <= k < i ==> !Contains(req.url, routes[k].pattern)
    {
      assert routes[i..][1..] == routes[i + 1..];
      if !Contains(req.url, routes[i].pattern) {
        continue;
      }
      assert IsFirstMatch(req, routes, i);
      if routes[i].overrideAction !in index {
        return Err(routes[i].overrideAction);
      }
      return Ok(req.(action := routes[i].overrideAction));
    }
    return Ok(req);
  }

  ghost predicate IsFirstMatch(req: Request, routes: seq<DomainRoute>, i: int) {
    && 0 <= i < |routes| && Contains(req.url, routes[i].pattern)
    && forall k :: 0 <= k < i ==> !Contains(req.url, routes[k].pattern)
  }

  /** The startup check: every rule's action is registered. */
  method ValidateDomainRoutes(routes: seq<DomainRoute>, index: ActionIndex) returns (ok: bool)
    ensures ok <==> AreRegistered(routes, index)
  {
    for i := 0 to |routes|
      invariant forall k :: 0 <= k < i ==> routes[k].overrideAction in index
    {
      if routes[i].overrideAction !in index {
        return false;
      }
    }
    return true;
  }

  ghost predicate AreRegistered(routes: seq<DomainRoute>, index: ActionIndex) {
    forall k :: 0 <= k < |routes| ==> routes[k].overrideAction in index
  }

  lemma {:induction false} DomainRoutesSucceed(req: Request, routes: seq<DomainRoute>, index: ActionIndex)
    requires AreRegistered(routes, index)
    ensures ResolveDomain(req, routes, index).Ok?
    ensures var r := ResolveDomain(req, routes, index).value;
            r == req || (r == req.(action := r.action) && r.action in index)
  {
    if routes != [] {
      DomainRoutesSucceed(req, routes[1..], index);
    }
  }

  /** Resolving again what was resolved, as Route does without heuristics, changes nothing. */
  lemma ResolveTwice(req: Request, index: ActionIndex, classify: Classifier, heuristics: bool)
    requires IsRoutable(req, index)
    ensures var (action, profile) := Resolve(req, index, classify, heuristics);
            action in index && Resolve(req.(action := action, profile := profile), index, classify, false) ==
              (action, profile)
  {
  }

  /**
   The share handler's pipeline, domain override before resolution, keeps
   every routable request routable once the rules are validated: Route finds
   the resolved action in the index, and it is the one listed under that id.
   */
  lemma RoutingCloses(req: Request, routes: seq<DomainRoute>, actions: seq<Action>, index: ActionIndex,
      classify: Classifier, heuristics: bool)
    requires IsIndexOf(index, actions) && AreRegistered(routes, index) && IsRoutable(req, index)
    ensures ResolveDomain(req, routes, index).Ok?
    ensures var overridden := ResolveDomain(req, routes, index).value;
            var (action, profile) := Resolve(overridden, index, classify, heuristics);
            var routed := Resolve(overridden.(action := action, profile := profile), index, classify, false);
            && routed == (action, profile)
            && exists i :: 0 <= i < |actions| && actions[i].id == routed.0 && index[routed.0] == actions[i]
  {
    hide ResolveDomain, PrefixProfile;
    DomainRoutesSucceed(req, routes, index);
    ResolveTwice(ResolveDomain(req, routes, index).value, index, classify, heuristics);
  }

  /**
   Without a registered action or bare intent, and no matching rule, resolution
   hands the action through and Route does not find it.
   */
  lemma UnknownStaysUnknown(req: Request, routes: seq<DomainRoute>, index: ActionIndex, classify: Classifier,
      heuristics: bool)
    requires !IsRoutable(req, index) && ResolveDomain(req, routes, index) == Ok(req)
    ensures Resolve(req, index, classify, heuristics) == (req.action, req.profile) && req.action !in index
  {
  }
}
