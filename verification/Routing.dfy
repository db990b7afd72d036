/**
  Route and rule reconciliation of the local controller: `SetRoutes` and `RemoveRoutes` against a
  netlink layer whose calls may fail at any point.
*/
module Routing {
  import opened Wrappers
  import opened Arithmetic
  import opened Cidrs

  const RT_TABLE_MAIN: int := 254

  datatype Family = FamilyV4 | FamilyV6

  /** A unicast route of the kernel, keyed by link, table and destination. */
  datatype Route = Route(link: int, table: int, dst: Cidr)

  /** A policy rule, kept per family. */
  datatype Rule = Rule(mark: nat, table: int, suppressPrefixlen: int, priority: int)

  /** Kernel routes have masked destinations. */
  predicate IsDestination(c: Cidr) {
    Valid(c) && NetworkAddr(c) == c
  }

  function FamilyOf(c: Cidr): Family {
    if c.addr.V4? then FamilyV4 else FamilyV6
  }

  function Other(family: Family): Family {
    if family.FamilyV4? then FamilyV6 else FamilyV4
  }

  /** Table 0 is the main table in a request. */
  function TableNumber(table: int): int {
    if table == 0 then RT_TABLE_MAIN else table
  }

  function Requested(link: int, table: int, cidr: Cidr): Route
    requires Valid(cidr)
  {
    Route(link, TableNumber(table), NetworkAddr(cidr))
  }

  predicate IsFwMarkRule(rule: Rule, mark: nat, table: int) {
    rule.mark == mark && rule.table == table
  }

  predicate IsMainRule(rule: Rule) {
    rule.suppressPrefixlen == 0 && rule.table == RT_TABLE_MAIN
  }

  function MainCount(rules: seq<Rule>): nat {
    if rules == [] then 0
    else MainCount(rules[..|rules| - 1]) + if IsMainRule(rules[|rules| - 1]) then 1 else 0
  }

  predicate HasFwMarkRule(rules: seq<Rule>, mark: nat, table: int) {
    exists i :: 0 <= i < |rules| && IsFwMarkRule(rules[i], mark, table)
  }

  predicate HasMainRule(rules: seq<Rule>) {
    exists i :: 0 <= i < |rules| && IsMainRule(rules[i])
  }

  predicate ContainsDefaultRoute(cidrs: seq<Cidr>) {
    exists i :: 0 <= i < |cidrs| && cidrs[i].len == 0
  }

  lemma {:induction false} MainCountInsert(rules: seq<Rule>, i: nat, rule: Rule)
    requires i <= |rules|
    ensures MainCount(rules[..i] + [rule] + rules[i..]) == MainCount(rules) + if IsMainRule(rule) then 1 else 0
  {
    var more := rules[..i] + [rule] + rules[i..];
    if i == |rules| {
      assert more[..|rules|] == rules;
    } else {
      var n := |rules| - 1;
      MainCountInsert(rules[..n], i, rule);
      assert more[..|more| - 1] == rules[..n][..i] + [rule] + rules[..n][i..];
    }
  }

  lemma {:induction false} MainCountPositive(rules: seq<Rule>)
    ensures MainCount(rules) > 0 <==> HasMainRule(rules)
  {
    if rules != [] {
      var n := |rules| - 1;
      MainCountPositive(rules[..n]);
      if i :| 0 <= i < n && IsMainRule(rules[i]) {
        assert rules[..n][i] == rules[i];
      }
    }
  }

  lemma {:induction false} MainCountPrefix(rules: seq<Rule>, i: nat)
    requires i <= |rules|
    ensures MainCount(rules[..i]) <= MainCount(rules)
  {
    if i < |rules| {
      MainCountPrefix(rules[..|rules| - 1], i);
      assert rules[..|rules| - 1][..i] == rules[..i];
    } else {
      assert rules[..i] == rules;
    }
  }

  // ---------------------------------------------------------------------- rule priorities

  predicate PriorityUsed(rules: seq<Rule>, prio: int) {
    exists i :: 0 <= i < |rules| && rules[i].priority == prio
  }

  function Priorities(rules: seq<Rule>): (s: set<int>)
    ensures forall p :: p in s <==> PriorityUsed(rules, p)
  {
    set i | 0 <= i < |rules| :: rules[i].priority
  }

  /** The lowest unused priority at or above the configured offset; the search ends since rules are finitely many. */
  method GetMainRulePriority(offset: int, existingRules: seq<Rule>) returns (prio: int)
    ensures prio >= offset && !PriorityUsed(existingRules, prio)
    ensures forall p :: offset <= p < prio ==> PriorityUsed(existingRules, p)
  {
    prio := offset;
    ghost var ahead := Priorities(existingRules);
    while PriorityUsed(existingRules, prio)
      invariant prio >= offset && forall p :: offset <= p < prio ==> PriorityUsed(existingRules, p)
      invariant forall p :: p >= prio && PriorityUsed(existingRules, p) ==> p in ahead
      decreases ahead
    {
      ahead := ahead - {prio};
      prio := prio + 1;
    }
  }

  /** The highest unused priority at or below 32700. */
  method GetRulePriority(existingRules: seq<Rule>) returns (prio: int)
    ensures prio <= 32700 && !PriorityUsed(existingRules, prio)
    ensures forall p :: prio < p <= 32700 ==> PriorityUsed(existingRules, p)
  {
    prio := 32700;
    ghost var ahead := Priorities(existingRules);
    while PriorityUsed(existingRules, prio)
      invariant prio <= 32700 && forall p :: prio < p <= 32700 ==> PriorityUsed(existingRules, p)
      invariant forall p :: p <= prio && PriorityUsed(existingRules, p) ==> p in ahead
      decreases ahead
    {
      ahead := ahead - {prio};
      prio := prio - 1;
    }
  }

  // ---------------------------------------------------------------------- the reconciled state

  /** Whether a route survives the clean-up of a link's routes of one family. */
  predicate Kept(r: Route, link: int, family: Family, cidrs: seq<Cidr>) {
    r.link != link || FamilyOf(r.dst) != family || r.dst in cidrs
  }

  function RequestedRoutes(link: int, table: int, cidrs: seq<Cidr>): (s: set<Route>)
    requires AllValid(cidrs)
    ensures forall i :: 0 <= i < |cidrs| ==> Requested(link, table, cidrs[i]) in s
  {
    set i | 0 <= i < |cidrs| :: Requested(link, table, cidrs[i])
  }

  /** The routes after `setRoutesForFamily`. */
  function FamilyRoutes(routes: set<Route>, link: int, family: Family, table: int, cidrs: seq<Cidr>): set<Route>
    requires AllValid(cidrs)
  {
    set r | r in routes + RequestedRoutes(link, table, cidrs) && Kept(r, link, family, cidrs)
  }

  /** The rules of a family after `setRoutesForFamily`; adding the main rule may have failed unnoticed. */
  predicate FamilyRules(before: seq<Rule>, after: seq<Rule>, mark: nat, table: int, cidrs: seq<Cidr>, mainAdded: bool) {
    && (table == 0 || (HasFwMarkRule(before, mark, table) && !mainAdded) ==> after == before)
    && (table != 0 ==> HasFwMarkRule(after, mark, table))
    && (mainAdded ==> table != 0 && !HasMainRule(before) && ContainsDefaultRoute(cidrs) && HasMainRule(after))
    && (forall r :: r in before ==> r in after)
    && (forall r :: r in after ==> r in before || IsFwMarkRule(r, mark, table) || (mainAdded && IsMainRule(r)))
    && MainCount(after) == MainCount(before) + (if mainAdded then 1 else 0)
    && MainCount(after) <= 1
  }

  /** What routing consists of: the routes, the rules of each family, and the firewall mark of each device. */
  datatype State = State(routes: set<Route>, rules4: seq<Rule>, rules6: seq<Rule>, marks: map<string, nat>)

  predicate Consistent(s: State) {
    forall r :: r in s.routes ==> IsDestination(r.dst)
  }

  /** The premise of `SetRoutes` on rules, which it keeps. */
  predicate AtMostOneMainRule(s: State) {
    MainCount(s.rules4) <= 1 && MainCount(s.rules6) <= 1
  }

  datatype RoutingInfo = RoutingInfo(
    interfaceId: string, addresses: seq<Cidr>, allowedIps: seq<Cidr>, fwMark: nat, table: int)

  predicate ValidInfo(info: RoutingInfo) {
    AllValid(info.addresses) && AllValid(info.allowedIps) && info.fwMark < 0x1_0000_0000
  }

  /** `getOrCreateRoutingTableAndFwMark`, with the conversion to 32 bits. */
  function Resolve(offset: nat, index: nat, tableIn: int, fwMarkIn: nat): (int, nat) {
    var fwmark := if fwMarkIn == 0 then (offset + index) % 0x1_0000_0000 else fwMarkIn;
    (if tableIn == 0 then fwmark else tableIn, fwmark)
  }

  /** The routes that `SetRoutes` aims for. */
  function TargetRoutes(routes: set<Route>, link: int, table: int, info: RoutingInfo): set<Route>
    requires ValidInfo(info)
  {
    OfFamilyValid(info.allowedIps, true);
    OfFamilyValid(info.allowedIps, false);
    var v4 := FamilyRoutes(routes, link, FamilyV4, table, OfFamily(info.allowedIps, true));
    var v6 := FamilyRoutes(v4, link, FamilyV6, table, OfFamily(info.allowedIps, false));
    v6 + RequestedRoutes(link, 0, info.addresses)
  }

  lemma {:induction false} OfFamilyValid(cidrs: seq<Cidr>, v4: bool)
    requires AllValid(cidrs)
    ensures AllValid(OfFamily(cidrs, v4))
    ensures forall c :: c in OfFamily(cidrs, v4) <==> c in cidrs && c.addr.V4? == v4
  {
    hide Valid;
    if cidrs != [] {
      OfFamilyValid(cidrs[1..], v4);
    }
  }

  /** What a successful `SetRoutes` does. */
  predicate Reconciled(
      before: State, after: State, link: int, table: int, mark: nat, info: RoutingInfo, main4: bool, main6: bool)
    requires ValidInfo(info)
  {
    && after.routes == TargetRoutes(before.routes, link, table, info)
    && after.marks == before.marks[info.interfaceId := mark]
    && (AtMostOneMainRule(before) ==>
         && FamilyRules(before.rules4, after.rules4, mark, table, OfFamily(info.allowedIps, true), main4)
         && FamilyRules(before.rules6, after.rules6, mark, table, OfFamily(info.allowedIps, false), main6))
  }

  /** What a call may have done to the routes, wherever it stopped. */
  predicate RoutesBetween(before: set<Route>, after: set<Route>, link: int, table: int, info: RoutingInfo)
    requires ValidInfo(info)
  {
    && after <= before + RequestedRoutes(link, table, info.allowedIps) + RequestedRoutes(link, 0, info.addresses)
    && forall r :: r in before && (r.link != link || r.dst in info.allowedIps) ==> r in after
  }

  /** What a call may have done to the rules of a family, wherever it stopped. */
  predicate RulesBetween(before: seq<Rule>, after: seq<Rule>, mark: nat, table: int, cidrs: seq<Cidr>) {
    && (forall r :: r in before ==> r in after)
    && (forall r :: r in after ==>
         || r in before
         || (IsFwMarkRule(r, mark, table) && !HasFwMarkRule(before, mark, table))
         || (IsMainRule(r) && Due(before, table, cidrs)))
    && (table == 0 || (HasFwMarkRule(before, mark, table) && !Due(before, table, cidrs)) ==> after == before)
  }

  predicate HighestFree(rules: seq<Rule>, p: int) {
    p <= 32700 && !PriorityUsed(rules, p) && forall q :: p < q <= 32700 ==> PriorityUsed(rules, q)
  }

  predicate LowestFree(rules: seq<Rule>, prioOffset: int, p: int) {
    p >= prioOffset && !PriorityUsed(rules, p) && forall q :: prioOffset <= q < p ==> PriorityUsed(rules, q)
  }

  /**
    The rules that were added to a family, spelled out: at most one for the mark, at the highest free priority up
    to 32700, and at most one that suppresses default routes of the main table, at the lowest free priority from
    the offset on; both free among the rules listed before.
  */
  predicate RulesAdded(
      before: seq<Rule>, after: seq<Rule>, mark: nat, table: int, cidrs: seq<Cidr>, prioOffset: int)
  {
    && multiset(before) <= multiset(after)
    && |after| <= |before| + (if HasFwMarkRule(before, mark, table) then 0 else 1)
                           + (if Due(before, table, cidrs) then 1 else 0)
    && forall r :: r in after ==>
         || r in before
         || (&& r == Rule(mark, table, -1, r.priority) && !HasFwMarkRule(before, mark, table)
             && HighestFree(before, r.priority))
         || (&& r == Rule(0, 254, 0, r.priority) && Due(before, table, cidrs)
             && LowestFree(before, prioOffset, r.priority))
  }

  /**
    The rules of a family after a success, however many main rules there were: those of the list with the added
    rules that come before a second main rule. None is touched when the management of rules is off.
  */
  ghost predicate Trimmed(
      before: seq<Rule>, after: seq<Rule>, mark: nat, table: int, cidrs: seq<Cidr>, prioOffset: int)
  {
    if table == 0 then after == before
    else
      && MainCount(after) <= 1
      && exists middle :: IsTrimmed(before, middle, after, mark, table, cidrs, prioOffset)
  }

  predicate IsTrimmed(
      before: seq<Rule>, middle: seq<Rule>, after: seq<Rule>, mark: nat, table: int, cidrs: seq<Cidr>, prioOffset: int)
  {
    && RulesAdded(before, middle, mark, table, cidrs, prioOffset)
    && multiset(after) == multiset(middle[..SecondMain(middle)])
  }

  /** The number of the call that adds the main rule, if one is due, when `n` calls were made before. */
  function MainAt(n: nat, before: seq<Rule>, mark: nat, table: int): nat {
    if HasFwMarkRule(before, mark, table) then n else n + 1
  }

  /** Whether the mark rule is missing and the call that adds it fails. */
  predicate MarkRuleFails(addFails: nat -> bool, n: nat, before: seq<Rule>, mark: nat, table: int) {
    table != 0 && !HasFwMarkRule(before, mark, table) && addFails(n)
  }

  function AddsAfter(n: nat, before: seq<Rule>, mark: nat, table: int, cidrs: seq<Cidr>): nat {
    if table == 0 then n
    else MainAt(n, before, mark, table) + if Due(before, table, cidrs) then 1 else 0
  }

  /** What `SetRoutes` may have done, wherever it stopped. */
  predicate Attempted(before: State, after: State, link: int, table: int, mark: nat, info: RoutingInfo)
    requires ValidInfo(info)
  {
    && RoutesBetween(before.routes, after.routes, link, table, info)
    && (after.marks == before.marks || after.marks == before.marks[info.interfaceId := mark])
    && (AtMostOneMainRule(before) ==>
         && RulesBetween(before.rules4, after.rules4, mark, table, OfFamily(info.allowedIps, true))
         && RulesBetween(before.rules6, after.rules6, mark, table, OfFamily(info.allowedIps, false)))
  }

  /** The table and mark `RemoveRoutes` works from, given the mark of the device if it could be read. */
  function Recalled(info: RoutingInfo, deviceMark: Option<nat>): (int, nat) {
    (if deviceMark.Some? && info.table == 0 then deviceMark.value else info.table,
     if deviceMark.Some? && info.fwMark == 0 then deviceMark.value else info.fwMark)
  }

  /** What a successful `RemoveRoutes` does when the link exists. */
  ghost predicate Removed(
      before: State, after: State, link: int, table: int, mark: nat, wholeTable: bool, info: RoutingInfo)
  {
    && after.routes == (set r | r in before.routes && !(r.link == link && InTable(r, table, info.allowedIps)))
    && after.marks == before.marks
    && (forall rule :: rule in after.rules4 <==>
         rule in before.rules4 && !Selects(rule, table, if wholeTable then None else Some(mark)))
    && (forall rule :: rule in after.rules6 <==>
         rule in before.rules6 && !Selects(rule, table, if wholeTable then None else Some(mark)))
  }

  // ---------------------------------------------------------------------- the controller

  datatype Outcome = Done | Failed

  /** A route as listed: the default route may come without a destination. */
  datatype RawRoute = RawRoute(link: int, table: int, dst: Option<Cidr>)

  function DefaultRoute(family: Family): Cidr {
    if family.FamilyV4? then Cidr(V4(0), 0) else Cidr(V6(0), 0)
  }

  lemma ZeroLengthIsDefault(c: Cidr)
    requires IsDestination(c)
    ensures c.len == 0 ==> c == DefaultRoute(FamilyOf(c))
  {
    if c.len == 0 {
      RoundsToZero(c.addr.bits, Size(c));
    }
  }

  lemma RoundsToZero(x: nat, d: int)
    requires x < d
    ensures RoundDown(x, d) == 0
  {
  }

  /** The route a listed route denotes. */
  function Denoted(raw: RawRoute, family: Family): Route {
    Route(raw.link, raw.table, if raw.dst.None? then DefaultRoute(family) else raw.dst.value)
  }

  predicate Concerns(r: Route, link: int, family: Family) {
    r.link == link && FamilyOf(r.dst) == family
  }

  /** The list has the routes of the link and family, each once, except those in `rest`. */
  predicate ListsExactly(list: seq<RawRoute>, routes: set<Route>, link: int, family: Family, rest: set<Route>) {
    && (forall i :: 0 <= i < |list| ==>
         Denoted(list[i], family) in routes - rest && Concerns(Denoted(list[i], family), link, family))
    && (forall r :: r in routes - rest && Concerns(r, link, family) ==>
         exists i :: 0 <= i < |list| && Denoted(list[i], family) == r)
    && (forall i, j :: 0 <= i < j < |list| ==> Denoted(list[i], family) != Denoted(list[j], family))
  }

  class LocalController {
    const routeTableOffset: nat
    const rulePrioOffset: int
    /** Whether the netlink library fills in the family of listed rules. */
    const listsFamily: bool

    /** Which of the calls that add a rule fail. */
    const addFails: nat -> bool

    /** No other call fails for a reason of its own. */
    const reliable: bool

    /** How many calls to add a rule were made. */
    var adds: nat
    var links: map<string, nat>
    var routes: set<Route>
    var rules4: seq<Rule>
    var rules6: seq<Rule>
    var marks: map<string, nat>

    constructor (
        offset: nat, prioOffset: int, listsFamily: bool, addFails: nat -> bool, reliable: bool,
        links: map<string, nat>, s: State)
      ensures routeTableOffset == offset && rulePrioOffset == prioOffset && this.listsFamily == listsFamily
      ensures this.addFails == addFails && this.reliable == reliable && adds == 0
      ensures this.links == links && Current() == s
    {
      this.addFails, this.reliable, adds := addFails, reliable, 0;
      routeTableOffset, rulePrioOffset, this.listsFamily, this.links := offset, prioOffset, listsFamily, links;
      routes, rules4, rules6, marks := s.routes, s.rules4, s.rules6, s.marks;
    }

    function Current(): State
      reads this
    {
      State(routes, rules4, rules6, marks)
    }

    function Rules(family: Family): seq<Rule>
      reads this
    {
      if family.FamilyV4? then rules4 else rules6
    }

    // -------------------------------------------------------------------- netlink and wgctrl calls

    method LinkByName(name: string) returns (index: Option<nat>)
      ensures index.Some? ==> name in links && index.value == links[name]
      ensures name !in links ==> index.None?
      ensures reliable ==> (index.Some? <==> name in links)
    {
      var ok: bool := *;
      return if (ok || reliable) && name in links then Some(links[name]) else None;
    }

    method DeviceMark(name: string) returns (mark: Option<nat>)
      ensures mark.Some? ==> name in marks && mark.value == marks[name]
      ensures reliable ==> (mark.Some? <==> name in marks)
    {
      var ok: bool := *;
      return if (ok || reliable) && name in marks then Some(marks[name]) else None;
    }

    method ConfigureMark(name: string, mark: nat) returns (r: Outcome)
      modifies this`marks
      ensures marks == if r.Done? then old(marks)[name := mark] else old(marks)
      ensures reliable ==> r.Done?
    {
      var ok: bool := *;
      if !ok && !reliable {
        return Failed;
      }
      marks := marks[name := mark];
      return Done;
    }

    method RouteReplace(route: Route) returns (r: Outcome)
      modifies this`routes
      ensures routes == if r.Done? then old(routes) + {route} else old(routes)
      ensures reliable ==> r.Done?
    {
      var ok: bool := *;
      if !ok && !reliable {
        return Failed;
      }
      routes := routes + {route};
      return Done;
    }

    /** An already existing route is reported as an error that the callers ignore. */
    method RouteAdd(route: Route) returns (r: Outcome, alreadyThere: bool)
      modifies this`routes
      ensures alreadyThere ==> r.Failed? && route in old(routes)
      ensures routes == if r.Done? then old(routes) + {route} else old(routes)
      ensures reliable ==> r.Done? || alreadyThere
    {
      if route in routes {
        return Failed, true;
      }
      var ok: bool := *;
      if !ok && !reliable {
        return Failed, false;
      }
      routes := routes + {route};
      return Done, false;
    }

    method RouteDel(route: Route) returns (r: Outcome)
      modifies this`routes
      ensures r.Done? ==> route in old(routes)
      ensures routes == if r.Done? then old(routes) - {route} else old(routes)
      ensures reliable && route in old(routes) ==> r.Done?
    {
      var ok: bool := *;
      if (!ok && !reliable) || route !in routes {
        return Failed;
      }
      routes := routes - {route};
      return Done;
    }

    /** The unicast routes of a link and family in all tables, in any order, each once. */
    method RouteListFiltered(link: int, family: Family) returns (raw: Option<seq<RawRoute>>)
      requires forall r :: r in routes ==> IsDestination(r.dst)
      ensures raw.Some? ==>
                ListsExactly(raw.value, routes, link, family, {})
      ensures reliable ==> raw.Some?
    {
      var ok: bool := *;
      if !ok && !reliable {
        return None;
      }
      var list: seq<RawRoute> := [];
      var rest := set r | r in routes && Concerns(r, link, family);
      while rest != {}
        invariant forall r :: r in rest ==> r in routes && Concerns(r, link, family)
        invariant ListsExactly(list, routes, link, family, rest)
        decreases rest
      {
        var r :| r in rest;
        var omitted: bool := *;
        var raw1 := RawRoute(link, r.table, if omitted && r.dst.len == 0 then None else Some(r.dst));
        ZeroLengthIsDefault(r.dst);
        ListsSnoc(list, raw1, routes, link, family, rest);
        list := list + [raw1];
        rest := rest - {r};
      }
      return Some(list);
    }

    method RuleList(family: Family) returns (rules: Option<seq<Rule>>)
      ensures rules.Some? ==> rules.value == Rules(family)
      ensures reliable ==> rules.Some?
    {
      var ok: bool := *;
      return if ok || reliable then Some(Rules(family)) else None;
    }

    /** The family a listed rule carries. */
    function ListedFamily(family: Family): Option<Family> {
      if listsFamily then Some(family) else None
    }

    /** The kernel chooses the position, by priority. */
    method RuleAdd(family: Family, rule: Rule) returns (r: Outcome)
      modifies this`rules4, this`rules6, this`adds
      ensures adds == old(adds) + 1 && (r.Failed? <==> addFails(old(adds)))
      ensures Rules(Other(family)) == old(Rules(Other(family)))
      ensures r.Failed? ==> Rules(family) == old(Rules(family))
      ensures r.Done? ==> Inserted(old(Rules(family)), Rules(family), rule)
    {
      adds := adds + 1;
      if addFails(adds - 1) {
        return Failed;
      }
      var before := Rules(family);
      var i: int := *;
      if i < 0 || i > |before| {
        i := |before|;
      }
      var after := before[..i] + [rule] + before[i..];
      assert Inserted(before, after, rule);
      if family.FamilyV4? {
        rules4 := after;
      } else {
        rules6 := after;
      }
      return Done;
    }

    /** Removes the first such rule of the family in the request, which is IPv4 if the request has none. */
    method RuleDel(requested: Option<Family>, rule: Rule) returns (r: Outcome)
      modifies this`rules4, this`rules6
      ensures Rules(Other(RequestFamily(requested))) == old(Rules(Other(RequestFamily(requested))))
      ensures r.Failed? ==> rules4 == old(rules4) && rules6 == old(rules6)
      ensures r.Done? ==> rule in old(Rules(RequestFamily(requested)))
      ensures r.Done? ==> Rules(RequestFamily(requested)) == WithoutFirst(old(Rules(RequestFamily(requested))), rule)
      ensures reliable && rule in old(Rules(RequestFamily(requested))) ==> r.Done?
    {
      var ok: bool := *;
      var family := RequestFamily(requested);
      if (!ok && !reliable) || rule !in Rules(family) {
        return Failed;
      }
      if family.FamilyV4? {
        rules4 := WithoutFirst(rules4, rule);
      } else {
        rules6 := WithoutFirst(rules6, rule);
      }
      return Done;
    }

    // -------------------------------------------------------------------- SetRoutes

    method ReplaceRoutes(link: int, table: int, cidrs: seq<Cidr>) returns (r: Outcome)
      requires AllValid(cidrs)
      modifies this`routes
      ensures old(routes) <= routes <= old(routes) + RequestedRoutes(link, table, cidrs)
      ensures r.Done? ==> routes == old(routes) + RequestedRoutes(link, table, cidrs)
      ensures reliable ==> r.Done?
    {
      for i := 0 to |cidrs|
        invariant old(routes) <= routes <= old(routes) + RequestedRoutes(link, table, cidrs)
        invariant forall k :: 0 <= k < i ==> Requested(link, table, cidrs[k]) in routes
      {
        var replaced := RouteReplace(Requested(link, table, cidrs[i]));
        if replaced.Failed? {
          return Failed;
        }
      }
      return Done;
    }

    /** Deletes the routes of the link and family, whatever their table, whose destination is not wanted. */
    method RemoveOldRoutes(link: int, family: Family, cidrs: seq<Cidr>) returns (r: Outcome)
      requires forall route :: route in routes ==> IsDestination(route.dst)
      modifies this`routes
      ensures routes <= old(routes)
      ensures forall route :: route in old(routes) && Kept(route, link, family, cidrs) ==> route in routes
      ensures r.Done? ==> forall route :: route in routes ==> Kept(route, link, family, cidrs)
      ensures reliable ==> r.Done?
    {
      var rawRoutes := RouteListFiltered(link, family);
      if rawRoutes.None? {
        return Failed;
      }
      var raw := rawRoutes.value;
      for i := 0 to |raw|
        invariant routes <= old(routes)
        invariant forall route :: route in old(routes) && Kept(route, link, family, cidrs) ==> route in routes
        invariant forall k :: 0 <= k < i && Denoted(raw[k], family) in routes ==>
                    Kept(Denoted(raw[k], family), link, family, cidrs)
        invariant forall k :: i <= k < |raw| ==> Denoted(raw[k], family) in routes
      {
        var route := Denoted(raw[i], family);
        if route.dst in cidrs {
          continue;
        }
        assert Concerns(route, link, family);
        var deleted := RouteDel(route);
        if deleted.Failed? {
          return Failed;
        }
      }
      forall route | route in routes
        ensures Kept(route, link, family, cidrs)
      {
        if Concerns(route, link, family) {
          var k :| 0 <= k < |raw| && Denoted(raw[k], family) == route;
        }
      }
      return Done;
    }

    /** Adds the rule that directs marked packets to the table, unless it exists. */
    method AddFwMarkRule(family: Family, existingRules: seq<Rule>, table: int, fwMark: nat) returns (r: Outcome)
      requires existingRules == Rules(family)
      modifies this`rules4, this`rules6, this`adds
      ensures Rules(Other(family)) == old(Rules(Other(family)))
      ensures MainCount(Rules(family)) == MainCount(existingRules)
      ensures forall rule :: rule in existingRules ==> rule in Rules(family)
      ensures forall rule :: rule in Rules(family) ==> rule in existingRules || IsFwMarkRule(rule, fwMark, table)
      ensures HasFwMarkRule(existingRules, fwMark, table) ==> r.Done? && Rules(family) == existingRules
      ensures r.Done? ==> HasFwMarkRule(Rules(family), fwMark, table)
      ensures r.Done? ==> adds == MainAt(old(adds), existingRules, fwMark, table)
      ensures r.Failed? ==> Rules(family) == existingRules
      ensures r.Failed? <==> !HasFwMarkRule(existingRules, fwMark, table) && addFails(old(adds))
      ensures !HasFwMarkRule(existingRules, fwMark, table) && r.Done? ==>
                exists p :: HighestFree(existingRules, p) &&
                            Inserted(existingRules, Rules(family), Rule(fwMark, table, -1, p))
    {
      if HasFwMarkRule(existingRules, fwMark, table) {
        return Done;
      }
      var prio := GetRulePriority(existingRules);
      var rule := Rule(fwMark, table, -1, prio);
      r := RuleAdd(family, rule);
      if r.Done? {
        InsertedCount(existingRules, Rules(family), rule);
        InsertedMembers(existingRules, Rules(family), rule);
        assert HighestFree(existingRules, prio) && Inserted(existingRules, Rules(family), Rule(fwMark, table, -1, prio));
        assert rule in Rules(family) && IsFwMarkRule(rule, fwMark, table);
        MembersDecide(Rules(family), fwMark, table);
      }
    }

    /** Adds the rule that suppresses default routes of the main table, if one is due; a failure goes unnoticed. */
    method AddMainRule(family: Family, existingRules: seq<Rule>, cidrs: seq<Cidr>) returns (ghost mainAdded: bool)
      modifies this`rules4, this`rules6, this`adds
      ensures Rules(Other(family)) == old(Rules(Other(family)))
      ensures MainCount(Rules(family)) == MainCount(old(Rules(family))) + if mainAdded then 1 else 0
      ensures forall rule :: rule in old(Rules(family)) ==> rule in Rules(family)
      ensures forall rule :: rule in Rules(family) ==> rule in old(Rules(family)) || (mainAdded && IsMainRule(rule))
      ensures !mainAdded ==> Rules(family) == old(Rules(family))
      ensures var due := !HasMainRule(existingRules) && ContainsDefaultRoute(cidrs);
              && (mainAdded <==> due && !addFails(old(adds)))
              && adds == old(adds) + if due then 1 else 0
      ensures mainAdded ==>
                exists p :: LowestFree(existingRules, rulePrioOffset, p) &&
                            Inserted(old(Rules(family)), Rules(family), Rule(0, RT_TABLE_MAIN, 0, p))
    {
      mainAdded := false;
      if !HasMainRule(existingRules) && ContainsDefaultRoute(cidrs) {
        var prio := GetMainRulePriority(rulePrioOffset, existingRules);
        var rule := Rule(0, RT_TABLE_MAIN, 0, prio);
        ghost var before := Rules(family);
        var added := RuleAdd(family, rule);
        if added.Done? {
          InsertedCount(before, Rules(family), rule);
          InsertedMembers(before, Rules(family), rule);
          assert LowestFree(existingRules, rulePrioOffset, prio) &&
                 Inserted(before, Rules(family), Rule(0, RT_TABLE_MAIN, 0, prio));
          mainAdded := true;
        }
      }
    }

    method AddRules(family: Family, table: int, fwMark: nat, cidrs: seq<Cidr>)
      returns (r: Outcome, ghost mainAdded: bool)
      requires table != 0
      modifies this`rules4, this`rules6, this`adds
      ensures Rules(Other(family)) == old(Rules(Other(family)))
      ensures MainCount(old(Rules(family))) <= 1 ==> MainCount(Rules(family)) <= 1
      ensures RulesBetween(old(Rules(family)), Rules(family), fwMark, table, cidrs)
      ensures RulesAdded(old(Rules(family)), Rules(family), fwMark, table, cidrs, rulePrioOffset)
      ensures r.Done? ==>
                && (mainAdded <==> Due(old(Rules(family)), table, cidrs) &&
                                   !addFails(MainAt(old(adds), old(Rules(family)), fwMark, table)))
                && adds == AddsAfter(old(adds), old(Rules(family)), fwMark, table, cidrs)
      ensures r.Done? && MainCount(old(Rules(family))) <= 1 ==>
                FamilyRules(old(Rules(family)), Rules(family), fwMark, table, cidrs, mainAdded)
      ensures reliable ==>
                (r.Failed? <==> !HasFwMarkRule(old(Rules(family)), fwMark, table) && addFails(old(adds)))
    {
      hide MainCount, HasMainRule, HasFwMarkRule, ContainsDefaultRoute, IsMainRule, IsFwMarkRule, RulesAdded;
      hide HighestFree, LowestFree, Inserted;
      NoRulesAdded(Rules(family), fwMark, table, cidrs, rulePrioOffset);
      mainAdded := false;
      var listed := RuleList(family);
      if listed.None? {
        return Failed, false;
      }
      var existingRules := listed.value;
      MainCountPositive(existingRules);
      r := AddFwMarkRule(family, existingRules, table, fwMark);
      if r.Failed? {
        return;
      }
      ghost var middle := Rules(family);
      mainAdded := AddMainRule(family, existingRules, cidrs);
      MembersDecide(middle, fwMark, table);
      MembersDecide(Rules(family), fwMark, table);
      MainCountPositive(Rules(family));
      TheRulesAdded(existingRules, middle, Rules(family), fwMark, table, cidrs, rulePrioOffset, mainAdded);
    }

    /**
      Deletes surplus main rules. The counting test is outside the test for main rules, so that every
      rule listed after the second main rule goes. A rule listed without its family goes from the IPv4 rules.
    */
    method RemoveExtraMainRules(family: Family) returns (r: Outcome)
      modifies this`rules4, this`rules6
      ensures MainCount(old(Rules(family))) <= 1 ==> rules4 == old(rules4) && rules6 == old(rules6)
      ensures var target := RequestFamily(ListedFamily(family));
              && Rules(Other(target)) == old(Rules(Other(target)))
              && (r.Done? ==>
                   multiset(Rules(target)) + multiset(Doomed(old(Rules(family)))) == multiset(old(Rules(target))))
      ensures reliable && MainCount(old(Rules(family))) <= 1 ==> r.Done?
    {
      hide IsMainRule, WithoutFirst, MainCount, Doomed, Purged;
      var listed := RuleList(family);
      if listed.None? {
        return Failed;
      }
      var existingRules := listed.value;
      var mainRuleCount := 0;
      ghost var target := RequestFamily(ListedFamily(family));
      ghost var was := Current();
      PurgeBegins(was, family, target);
      for i := 0 to |existingRules|
        invariant mainRuleCount == MainCount(existingRules[..i])
        invariant Current().routes == was.routes && Current().marks == was.marks
        invariant Purged(was, Current(), family, target, i)
      {
        CountSnoc(existingRules, i);
        ghost var before := Current();
        if IsMainRule(existingRules[i]) {
          mainRuleCount := mainRuleCount + 1;
        }
        if mainRuleCount > 1 {
          var deleted := RuleDel(ListedFamily(family), existingRules[i]);
          if deleted.Failed? {
            PurgeEnds(was, Current(), family, target, i);
            return Failed;
          }
        }
        PurgeGoesOn(was, before, Current(), family, target, i);
      }
      PurgeEnds(was, Current(), family, target, |existingRules|);
      return Done;
    }

    method SetRoutesForFamily(link: int, family: Family, table: int, fwMark: nat, cidrs: seq<Cidr>)
      returns (r: Outcome, ghost mainAdded: bool)
      requires AllValid(cidrs) && forall route :: route in routes ==> IsDestination(route.dst)
      modifies this`routes, this`rules4, this`rules6, this`adds
      ensures forall route :: route in routes ==> IsDestination(route.dst)
      ensures forall route: Route :: route.link != link ==> (route in routes <==> route in old(routes))
      ensures MainCount(old(Rules(family))) <= 1 ==>
                && Rules(Other(family)) == old(Rules(Other(family)))
                && MainCount(Rules(family)) <= 1
      ensures routes <= old(routes) + RequestedRoutes(link, table, cidrs)
      ensures forall route :: route in old(routes) && Kept(route, link, family, cidrs) ==> route in routes
      ensures MainCount(old(Rules(family))) <= 1 ==>
                RulesBetween(old(Rules(family)), Rules(family), fwMark, table, cidrs)
      ensures MainCount(old(Rules(family))) <= 1 ==>
                RulesAdded(old(Rules(family)), Rules(family), fwMark, table, cidrs, rulePrioOffset)
      ensures r.Done? ==>
                && (mainAdded <==> Due(old(Rules(family)), table, cidrs) &&
                                   !addFails(MainAt(old(adds), old(Rules(family)), fwMark, table)))
                && adds == AddsAfter(old(adds), old(Rules(family)), fwMark, table, cidrs)
      ensures r.Done? ==> routes == FamilyRoutes(old(routes), link, family, table, cidrs)
      ensures r.Done? && MainCount(old(Rules(family))) <= 1 ==>
                FamilyRules(old(Rules(family)), Rules(family), fwMark, table, cidrs, mainAdded)
      ensures reliable && MainCount(old(Rules(family))) <= 1 ==>
                (r.Failed? <==> MarkRuleFails(addFails, old(adds), old(Rules(family)), fwMark, table))
      ensures r.Done? && RequestFamily(ListedFamily(family)) == family ==>
                && Rules(Other(family)) == old(Rules(Other(family)))
                && Trimmed(old(Rules(family)), Rules(family), fwMark, table, cidrs, rulePrioOffset)
    {
      hide RulesAdded, Doomed, RulesBetween, MainAt, HasFwMarkRule, MainCount, HasMainRule, ContainsDefaultRoute;
      hide IsDestination;
      mainAdded := false;
      SameRules(Rules(family), fwMark, table, cidrs);
      NoRulesAdded(Rules(family), fwMark, table, cidrs, rulePrioOffset);
      r := ReplaceRoutes(link, table, cidrs);
      RequestedAreDestinations(link, table, cidrs);
      if r.Failed? {
        return;
      }
      ghost var replaced := routes;
      r := RemoveOldRoutes(link, family, cidrs);
      if r.Failed? {
        return;
      }
      assert routes == FamilyRoutes(old(routes), link, family, table, cidrs);
      if table == 0 {
        return Done, false;
      }
      r, mainAdded := AddRules(family, table, fwMark, cidrs);
      if r.Failed? {
        return;
      }
      ghost var middle := Rules(family);
      r := RemoveExtraMainRules(family);
      if r.Done? && RequestFamily(ListedFamily(family)) == family {
        TrimmedBy(old(Rules(family)), middle, Rules(family), fwMark, table, cidrs, rulePrioOffset);
      }
    }

    method SetRoutes(info: RoutingInfo) returns (r: Outcome, ghost main4: bool, ghost main6: bool)
      requires ValidInfo(info) && Consistent(Current())
      modifies this`routes, this`rules4, this`rules6, this`marks, this`adds
      ensures Consistent(Current())
      ensures forall route: Route :: info.interfaceId !in links || route.link != links[info.interfaceId] ==>
                (route in routes <==> route in old(routes))
      ensures AtMostOneMainRule(old(Current())) ==> AtMostOneMainRule(Current())
      ensures info.interfaceId !in links ==> Current() == old(Current())
      ensures info.interfaceId in links ==>
                var (table, mark) := Resolve(routeTableOffset, links[info.interfaceId], info.table, info.fwMark);
                Attempted(old(Current()), Current(), links[info.interfaceId], table, mark, info)
      ensures info.interfaceId in links && AtMostOneMainRule(old(Current())) ==>
                var (table, mark) := Resolve(routeTableOffset, links[info.interfaceId], info.table, info.fwMark);
                && RulesAdded(old(rules4), rules4, mark, table, OfFamily(info.allowedIps, true), rulePrioOffset)
                && RulesAdded(old(rules6), rules6, mark, table, OfFamily(info.allowedIps, false), rulePrioOffset)
      ensures r.Done? && AtMostOneMainRule(old(Current())) ==>
                && info.interfaceId in links
                && var (table, mark) := Resolve(routeTableOffset, links[info.interfaceId], info.table, info.fwMark);
                   var cidrs4, cidrs6 := OfFamily(info.allowedIps, true), OfFamily(info.allowedIps, false);
                   var adds4 := AddsAfter(old(adds), old(rules4), mark, table, cidrs4);
                   && (main4 <==> Due(old(rules4), table, cidrs4) &&
                                  !addFails(MainAt(old(adds), old(rules4), mark, table)))
                   && (main6 <==> Due(old(rules6), table, cidrs6) &&
                                  !addFails(MainAt(adds4, old(rules6), mark, table)))
      ensures r.Done? ==>
                && info.interfaceId in links
                && var (table, mark) := Resolve(routeTableOffset, links[info.interfaceId], info.table, info.fwMark);
                   Reconciled(old(Current()), Current(), links[info.interfaceId], table, mark, info, main4, main6)
      ensures r.Done? && listsFamily ==>
                && info.interfaceId in links
                && var (table, mark) := Resolve(routeTableOffset, links[info.interfaceId], info.table, info.fwMark);
                   && Trimmed(old(rules4), rules4, mark, table, OfFamily(info.allowedIps, true), rulePrioOffset)
                   && Trimmed(old(rules6), rules6, mark, table, OfFamily(info.allowedIps, false), rulePrioOffset)
      ensures reliable && AtMostOneMainRule(old(Current())) && info.interfaceId in links
                && info.interfaceId in old(marks) ==>
                var (table, mark) := Resolve(routeTableOffset, links[info.interfaceId], info.table, info.fwMark);
                var cidrs4 := OfFamily(info.allowedIps, true);
                r.Failed? <==>
                  || MarkRuleFails(addFails, old(adds), old(rules4), mark, table)
                  || MarkRuleFails(
                       addFails, AddsAfter(old(adds), old(rules4), mark, table, cidrs4), old(rules6), mark, table)
    {
      hide FamilyRoutes, FamilyRules, MainCount, IsDestination, Valid, OfFamily, Requested, Kept, RequestedRoutes;
      hide RulesBetween, RoutesBetween, RulesAdded, Due, MainAt, AddsAfter, MarkRuleFails;
      hide AllValid, Resolve, Trimmed;
      main4, main6 := false, false;
      var index := LinkByName(info.interfaceId);
      if info.interfaceId in links {
        var (table, mark) := Resolve(routeTableOffset, links[info.interfaceId], info.table, info.fwMark);
        NothingAttempted(Current(), links[info.interfaceId], table, mark, info);
        NoRulesAdded(rules4, mark, table, OfFamily(info.allowedIps, true), rulePrioOffset);
        NoRulesAdded(rules6, mark, table, OfFamily(info.allowedIps, false), rulePrioOffset);
      }
      if index.None? {
        return Failed, main4, main6;
      }
      var link := index.value;
      OfFamilyValid(info.allowedIps, true);
      OfFamilyValid(info.allowedIps, false);
      var cidrsV4, cidrsV6 := CidrsPerFamily(info.allowedIps);
      var (realTable, realFwMark) := Resolve(routeTableOffset, link, info.table, info.fwMark);
      var current := DeviceMark(info.interfaceId);
      if current.None? {
        return Failed, main4, main6;
      }
      if realFwMark != current.value {
        r := ConfigureMark(info.interfaceId, realFwMark);
        if r.Failed? {
          return;
        }
      }
      ghost var start := routes;
      r, main4 := SetRoutesForFamily(link, FamilyV4, realTable, realFwMark, cidrsV4);
      FamilyStepBetween(start, start, routes, link, FamilyV4, realTable, info);
      assert AtMostOneMainRule(old(Current())) ==> MainCount(Rules(FamilyV6)) <= 1 && MainCount(Rules(FamilyV4)) <= 1;
      if r.Failed? {
        return;
      }
      ghost var middle := routes;
      r, main6 := SetRoutesForFamily(link, FamilyV6, realTable, realFwMark, cidrsV6);
      FamilyStepBetween(start, middle, routes, link, FamilyV6, realTable, info);
      assert AtMostOneMainRule(old(Current())) ==> MainCount(Rules(FamilyV4)) <= 1;
      if r.Failed? {
        return;
      }
      index := LinkByName(info.interfaceId);
      if index.None? {
        return Failed, main4, main6;
      }
      ghost var reconciled := routes;
      r := AddConnectedRoutes(index.value, info.addresses);
      ConnectedBetween(start, reconciled, routes, link, realTable, info);
    }

    method AddConnectedRoutes(link: int, addresses: seq<Cidr>) returns (r: Outcome)
      requires AllValid(addresses) && forall route :: route in routes ==> IsDestination(route.dst)
      modifies this`routes
      ensures forall route :: route in routes ==> IsDestination(route.dst)
      ensures forall route: Route :: route.link != link ==> (route in routes <==> route in old(routes))
      ensures old(routes) <= routes <= old(routes) + RequestedRoutes(link, 0, addresses)
      ensures r.Done? ==> routes == old(routes) + RequestedRoutes(link, 0, addresses)
      ensures reliable ==> r.Done?
    {
      RequestedAreDestinations(link, 0, addresses);
      for i := 0 to |addresses|
        invariant old(routes) <= routes <= old(routes) + RequestedRoutes(link, 0, addresses)
        invariant forall k :: 0 <= k < i ==> Requested(link, 0, addresses[k]) in routes
      {
        var added, alreadyThere := RouteAdd(Requested(link, 0, addresses[i]));
        if added.Failed? && !alreadyThere {
          return Failed;
        }
      }
      return Done;
    }

    // -------------------------------------------------------------------- RemoveRoutes

    /** Deletes the rules of a family for a table and mark. */
    method DeleteMarkRules(family: Family, table: int, mark: nat) returns (r: Outcome)
      modifies this`rules4, this`rules6
      ensures Rules(Other(family)) == old(Rules(Other(family)))
      ensures r.Done? ==> Rules(family) == Remaining(old(Rules(family)), table, Some(mark))
      ensures reliable ==> r.Done?
    {
      hide WithoutFirst, Remaining, Selects;
      var listed := RuleList(family);
      if listed.None? {
        return Failed;
      }
      var existingRules := listed.value;
      RemainingStep(existingRules, 0, table, Some(mark));
      for i := 0 to |existingRules|
        invariant Rules(Other(family)) == old(Rules(Other(family)))
        invariant Rules(family) == Remaining(existingRules[..i], table, Some(mark)) + existingRules[i..]
      {
        RemainingStep(existingRules, i, table, Some(mark));
        if Selects(existingRules[i], table, Some(mark)) {
          var deleted := RuleDel(Some(family), existingRules[i]);
          if deleted.Failed? {
            return Failed;
          }
        }
      }
      assert existingRules[..|existingRules|] == existingRules;
      return Done;
    }

    /** Deletes the rules of a family for a table; a listed rule without family is deleted as an IPv4 rule. */
    method RemoveRouteRulesForTable(family: Family, table: int) returns (r: Outcome)
      modifies this`rules4, this`rules6
      ensures RequestFamily(ListedFamily(family)) == family ==>
                Rules(Other(family)) == old(Rules(Other(family)))
                && (r.Done? ==> Rules(family) == Remaining(old(Rules(family)), table, None))
      ensures RequestFamily(ListedFamily(family)) != family && NoRuleFor(old(rules4), table) ==>
                rules4 == old(rules4) && rules6 == old(rules6)
                && (r.Done? ==> Rules(family) == Remaining(old(Rules(family)), table, None))
      ensures reliable && RequestFamily(ListedFamily(family)) == family ==> r.Done?
    {
      hide WithoutFirst, Remaining, Selects, NoRuleFor, Swept;
      var listed := RuleList(family);
      if listed.None? {
        return Failed;
      }
      var existingRules := listed.value;
      ghost var target := RequestFamily(ListedFamily(family));
      ghost var was := Current();
      SweepBegins(was, family, target, table);
      for i := 0 to |existingRules|
        invariant Current().routes == was.routes && Current().marks == was.marks
        invariant Swept(was, Current(), family, target, table, i)
      {
        ghost var before := Current();
        if Selects(existingRules[i], table, None) {
          StillToSweep(was, before, family, target, table, i);
          var deleted := RuleDel(ListedFamily(family), existingRules[i]);
          if deleted.Failed? {
            SweepEnds(was, Current(), family, target, table, i);
            return Failed;
          }
        }
        SweepGoesOn(was, before, Current(), family, target, table, i);
      }
      SweepEnds(was, Current(), family, target, table, |existingRules|);
      return Done;
    }

    /** Deletes the routes of the link and family in the table whose destination is among the given ones. */
    method RemoveTableRoutes(link: int, family: Family, table: int, cidrs: seq<Cidr>) returns (r: Outcome)
      requires forall route :: route in routes ==> IsDestination(route.dst)
      modifies this`routes
      ensures routes <= old(routes)
      ensures forall route :: route in old(routes) && !(Concerns(route, link, family) && InTable(route, table, cidrs)) ==>
                route in routes
      ensures r.Done? ==>
                forall route :: route in routes ==> !(Concerns(route, link, family) && InTable(route, table, cidrs))
      ensures reliable ==> r.Done?
    {
      var rawRoutes := RouteListFiltered(link, family);
      if rawRoutes.None? {
        return Failed;
      }
      var raw := rawRoutes.value;
      for i := 0 to |raw|
        invariant routes <= old(routes)
        invariant forall route :: route in old(routes) && !(Concerns(route, link, family) && InTable(route, table, cidrs))
                    ==> route in routes
        invariant forall k :: 0 <= k < i && Denoted(raw[k], family) in routes ==>
                    !InTable(Denoted(raw[k], family), table, cidrs)
        invariant forall k :: i <= k < |raw| ==> Denoted(raw[k], family) in routes
      {
        var route := Denoted(raw[i], family);
        if raw[i].table != table {
          continue;
        }
        if route.dst !in cidrs {
          continue;
        }
        var deleted := RouteDel(route);
        if deleted.Failed? {
          return Failed;
        }
      }
      forall route | route in routes
        ensures !(Concerns(route, link, family) && InTable(route, table, cidrs))
      {
        if Concerns(route, link, family) {
          var k :| 0 <= k < |raw| && Denoted(raw[k], family) == route;
        }
      }
      return Done;
    }

    method RemoveRoutesForFamily(link: int, family: Family, table: int, fwMark: nat, cidrs: seq<Cidr>)
      returns (r: Outcome)
      requires forall route :: route in routes ==> IsDestination(route.dst)
      modifies this`routes, this`rules4, this`rules6
      ensures Rules(Other(family)) == old(Rules(Other(family)))
      ensures routes <= old(routes)
      ensures forall route :: route in old(routes) && !(Concerns(route, link, family) && InTable(route, table, cidrs)) ==>
                route in routes
      ensures r.Done? ==> Rules(family) == Remaining(old(Rules(family)), table, Some(fwMark))
      ensures r.Done? ==>
                forall route :: route in routes ==> !(Concerns(route, link, family) && InTable(route, table, cidrs))
      ensures reliable ==> r.Done?
    {
      hide Remaining, InTable, Concerns;
      r := DeleteMarkRules(family, table, fwMark);
      if r.Failed? {
        return;
      }
      r := RemoveTableRoutes(link, family, table, cidrs);
    }

    method RemoveRouteRules(table: int) returns (r: Outcome)
      modifies this`rules4, this`rules6
      ensures r.Done? ==> rules4 == Remaining(old(rules4), table, None) && rules6 == Remaining(old(rules6), table, None)
      ensures reliable && listsFamily ==> r.Done?
    {
      hide Remaining, NoRuleFor;
      r := RemoveRouteRulesForTable(FamilyV4, table);
      if r.Failed? {
        return;
      }
      NothingRemains(old(rules4), table);
      r := RemoveRouteRulesForTable(FamilyV6, table);
    }

    /**
      A link that is gone, or cannot be read, is a success without effect; a device that cannot be read
      leaves the firewall mark unknown.
    */
    method RemoveRoutes(info: RoutingInfo) returns (r: Outcome, linkRead: bool, deviceRead: bool)
      requires ValidInfo(info) && Consistent(Current())
      modifies this`routes, this`rules4, this`rules6
      ensures Consistent(Current())
      ensures forall route: Route :: info.interfaceId !in links || route.link != links[info.interfaceId] ==>
                (route in routes <==> route in old(routes))
      ensures linkRead ==> info.interfaceId in links
      ensures deviceRead ==> info.interfaceId in marks
      ensures !linkRead ==> r.Done? && Current() == old(Current())
      ensures r.Done? && linkRead && links[info.interfaceId] > 0 ==>
                var (t, m) := Recalled(info, if deviceRead then Some(marks[info.interfaceId]) else None);
                var (table, mark) := Resolve(routeTableOffset, links[info.interfaceId], t, m);
                Removed(old(Current()), Current(), links[info.interfaceId], table, mark, t > 0, info)
      ensures reliable ==>
                && (linkRead <==> info.interfaceId in links) && (deviceRead <==> info.interfaceId in old(marks))
                && (listsFamily || Recalled(info, Lookup(old(marks), info.interfaceId)).0 <= 0 ==> r.Done?)
    {
      hide Remaining, InTable, IsDestination, Valid, OfFamily, Selects, NoRuleFor, AllValid;
      var wgDev := DeviceMark(info.interfaceId);
      deviceRead := wgDev.Some?;
      var index := LinkByName(info.interfaceId);
      linkRead := index.Some?;
      if index.None? {
        return Done, linkRead, deviceRead;
      }
      var link := index.value;
      var fwMark := if wgDev.Some? && info.fwMark == 0 then wgDev.value else info.fwMark;
      var table := if wgDev.Some? && info.table == 0 then wgDev.value else info.table;
      var cidrsV4, cidrsV6 := CidrsPerFamily(info.allowedIps);
      var (realTable, realFwMark) := Resolve(routeTableOffset, link, table, fwMark);
      ghost var routesV4 := routes;
      if link > 0 {
        r := RemoveRoutesForFamily(link, FamilyV4, realTable, realFwMark, cidrsV4);
        if r.Failed? {
          return;
        }
        routesV4 := routes;
        r := RemoveRoutesForFamily(link, FamilyV6, realTable, realFwMark, cidrsV6);
        if r.Failed? {
          return;
        }
      }
      if table > 0 {
        r := RemoveRouteRules(realTable);
        if r.Failed? {
          return;
        }
      }
      r := Done;
      if link > 0 {
        RemainingRules(old(rules4), rules4, realTable, realFwMark, table > 0);
        RemainingRules(old(rules6), rules6, realTable, realFwMark, table > 0);
        RemovedRoutes(old(routes), routesV4, routes, link, realTable, info.allowedIps);
      }
    }
  }

  lemma NoSuchRule(rules: seq<Rule>, table: int, rule: Rule, mark: Option<nat>)
    requires Selects(rule, table, mark)
    ensures NoRuleFor(rules, table) ==> rule !in rules
  {
  }

  function RulesOf(s: State, family: Family): seq<Rule> {
    if family.FamilyV4? then s.rules4 else s.rules6
  }

  /**
    The first `i` listed rules of the family have been deleted as rules of the target family: they are gone
    if that is the same family; otherwise there were none to delete, if the target family has none.
  */
  predicate Swept(was: State, now: State, family: Family, target: Family, table: int, i: nat) {
    var listed := RulesOf(was, family);
    && i <= |listed|
    && (target == family ==>
         && RulesOf(now, Other(family)) == RulesOf(was, Other(family))
         && RulesOf(now, family) == Remaining(listed[..i], table, None) + listed[i..])
    && (target != family && NoRuleFor(RulesOf(was, target), table) ==>
         now.rules4 == was.rules4 && now.rules6 == was.rules6 && Remaining(listed[..i], table, None) == listed[..i])
  }

  lemma SweepBegins(was: State, family: Family, target: Family, table: int)
    ensures Swept(was, was, family, target, table, 0)
  {
    hide Remaining, NoRuleFor;
    RemainingStep(RulesOf(was, family), 0, table, None);
  }

  lemma StillToSweep(was: State, now: State, family: Family, target: Family, table: int, i: nat)
    requires Swept(was, now, family, target, table, i) && i < |RulesOf(was, family)|
    ensures target == family ==> RulesOf(was, family)[i] in RulesOf(now, target)
  {
    hide Remaining, NoRuleFor;
    var listed := RulesOf(was, family);
    assert listed[i..][0] == listed[i];
  }

  lemma SweepGoesOn(was: State, before: State, now: State, family: Family, target: Family, table: int, i: nat)
    requires Swept(was, before, family, target, table, i) && i < |RulesOf(was, family)|
    requires var rule := RulesOf(was, family)[i];
             if Selects(rule, table, None) then
               && rule in RulesOf(before, target)
               && RulesOf(now, target) == WithoutFirst(RulesOf(before, target), rule)
               && RulesOf(now, Other(target)) == RulesOf(before, Other(target))
             else now == before
    ensures Swept(was, now, family, target, table, i + 1)
  {
    hide Remaining, NoRuleFor, WithoutFirst, Selects;
    var listed := RulesOf(was, family);
    RemainingStep(listed, i, table, None);
    if Selects(listed[i], table, None) {
      NoSuchRule(RulesOf(was, target), table, listed[i], None);
    } else {
      assert listed[..i + 1] == listed[..i] + [listed[i]];
    }
  }

  lemma SweepEnds(was: State, now: State, family: Family, target: Family, table: int, i: nat)
    requires Swept(was, now, family, target, table, i)
    ensures target == family ==> RulesOf(now, Other(family)) == RulesOf(was, Other(family))
    ensures target != family && NoRuleFor(RulesOf(was, target), table) ==>
              now.rules4 == was.rules4 && now.rules6 == was.rules6
    ensures i == |RulesOf(was, family)| &&
            (target == family || NoRuleFor(RulesOf(was, target), table)) ==>
              RulesOf(now, family) == Remaining(RulesOf(was, family), table, None)
  {
    hide Remaining, NoRuleFor;
    var listed := RulesOf(was, family);
    assert listed[..|listed|] == listed;
  }

  lemma NothingRemains(rules: seq<Rule>, table: int)
    ensures NoRuleFor(Remaining(rules, table, None), table)
  {
    RemainingMembers(rules, table, None);
  }

  lemma RemainingRules(before: seq<Rule>, after: seq<Rule>, table: int, mark: nat, wholeTable: bool)
    requires var marked := Remaining(before, table, Some(mark));
             after == if wholeTable then Remaining(marked, table, None) else marked
    ensures forall rule :: rule in after <==>
              rule in before && !Selects(rule, table, if wholeTable then None else Some(mark))
  {
    RemainingMembers(before, table, Some(mark));
    RemainingMembers(Remaining(before, table, Some(mark)), table, None);
  }

  lemma RemovedRoutes(
      before: set<Route>, middle: set<Route>, after: set<Route>, link: int, table: int, cidrs: seq<Cidr>)
    requires AllValid(cidrs) && after <= middle <= before
    requires forall r :: r in before && !(Concerns(r, link, FamilyV4) && InTable(r, table, OfFamily(cidrs, true)))
               ==> r in middle
    requires forall r :: r in middle && !(Concerns(r, link, FamilyV6) && InTable(r, table, OfFamily(cidrs, false)))
               ==> r in after
    requires forall r :: r in middle ==>
               !(Concerns(r, link, FamilyV4) && InTable(r, table, OfFamily(cidrs, true)))
    requires forall r :: r in after ==>
               !(Concerns(r, link, FamilyV6) && InTable(r, table, OfFamily(cidrs, false)))
    ensures after == set r | r in before && !(r.link == link && InTable(r, table, cidrs))
  {
    hide Valid, OfFamily;
    OfFamilyValid(cidrs, true);
    OfFamilyValid(cidrs, false);
  }

  predicate Selects(rule: Rule, table: int, mark: Option<nat>) {
    rule.table == table && (mark.None? || rule.mark == mark.value)
  }

  function Remaining(rules: seq<Rule>, table: int, mark: Option<nat>): seq<Rule> {
    if rules == [] then []
    else Remaining(rules[..|rules| - 1], table, mark) +
         if Selects(rules[|rules| - 1], table, mark) then [] else [rules[|rules| - 1]]
  }

  predicate NoRuleFor(rules: seq<Rule>, table: int) {
    forall i :: 0 <= i < |rules| ==> rules[i].table != table
  }

  predicate InTable(r: Route, table: int, cidrs: seq<Cidr>) {
    r.table == table && r.dst in cidrs
  }

  lemma SameRules(rules: seq<Rule>, mark: nat, table: int, cidrs: seq<Cidr>)
    ensures RulesBetween(rules, rules, mark, table, cidrs)
  {
  }

  lemma NoRulesAdded(rules: seq<Rule>, mark: nat, table: int, cidrs: seq<Cidr>, prioOffset: int)
    ensures RulesAdded(rules, rules, mark, table, cidrs, prioOffset)
  {
  }

  lemma InsertedMultiset(before: seq<Rule>, after: seq<Rule>, rule: Rule)
    requires Inserted(before, after, rule)
    ensures multiset(after) == multiset(before) + multiset{rule} && |after| == |before| + 1
  {
    var i :| 0 <= i <= |before| && after == before[..i] + [rule] + before[i..];
    assert before == before[..i] + before[i..];
  }

  /** The rule for the mark and the main rule, one after the other. */
  lemma TheRulesAdded(
      before: seq<Rule>, middle: seq<Rule>, after: seq<Rule>, mark: nat, table: int, cidrs: seq<Cidr>,
      prioOffset: int, mainAdded: bool)
    requires HasFwMarkRule(before, mark, table) ==> middle == before
    requires !HasFwMarkRule(before, mark, table) ==>
               exists p :: HighestFree(before, p) && Inserted(before, middle, Rule(mark, table, -1, p))
    requires mainAdded ==> Due(before, table, cidrs)
    requires mainAdded ==>
               exists p :: LowestFree(before, prioOffset, p) && Inserted(middle, after, Rule(0, RT_TABLE_MAIN, 0, p))
    requires !mainAdded ==> after == middle
    ensures RulesAdded(before, after, mark, table, cidrs, prioOffset)
  {
    hide HighestFree, LowestFree, Inserted, Due, HasFwMarkRule;
    if !HasFwMarkRule(before, mark, table) {
      var p :| HighestFree(before, p) && Inserted(before, middle, Rule(mark, table, -1, p));
      InsertedMultiset(before, middle, Rule(mark, table, -1, p));
      InsertedMembers(before, middle, Rule(mark, table, -1, p));
    }
    if mainAdded {
      var p :| LowestFree(before, prioOffset, p) && Inserted(middle, after, Rule(0, RT_TABLE_MAIN, 0, p));
      InsertedMultiset(middle, after, Rule(0, RT_TABLE_MAIN, 0, p));
      InsertedMembers(middle, after, Rule(0, RT_TABLE_MAIN, 0, p));
    }
  }

  lemma NothingAttempted(s: State, link: int, table: int, mark: nat, info: RoutingInfo)
    requires ValidInfo(info)
    ensures Attempted(s, s, link, table, mark, info)
    ensures RoutesBetween(s.routes, s.routes, link, table, info)
    ensures RulesBetween(s.rules4, s.rules4, mark, table, OfFamily(info.allowedIps, true))
    ensures RulesBetween(s.rules6, s.rules6, mark, table, OfFamily(info.allowedIps, false))
  {
    hide RequestedRoutes, Valid;
  }

  /** The routes of one family are among those of both. */
  lemma RequestedOfFamily(link: int, table: int, cidrs: seq<Cidr>, v4: bool)
    requires AllValid(cidrs)
    ensures AllValid(OfFamily(cidrs, v4))
    ensures RequestedRoutes(link, table, OfFamily(cidrs, v4)) <= RequestedRoutes(link, table, cidrs)
  {
    hide Valid, NetworkAddr, OfFamily;
    OfFamilyValid(cidrs, v4);
    var mine := OfFamily(cidrs, v4);
    forall r | r in RequestedRoutes(link, table, mine)
      ensures r in RequestedRoutes(link, table, cidrs)
    {
      var i :| 0 <= i < |mine| && r == Requested(link, table, mine[i]);
      assert mine[i] in mine;
      var j :| 0 <= j < |cidrs| && cidrs[j] == mine[i];
      assert r == Requested(link, table, cidrs[j]);
    }
  }

  lemma FamilyStepBetween(
      start: set<Route>, before: set<Route>, after: set<Route>, link: int, family: Family, table: int,
      info: RoutingInfo)
    requires ValidInfo(info)
    requires start == before || RoutesBetween(start, before, link, table, info)
    requires var cidrs := OfFamily(info.allowedIps, family.FamilyV4?);
             && AllValid(cidrs)
             && after <= before + RequestedRoutes(link, table, cidrs)
             && forall r :: r in before && Kept(r, link, family, cidrs) ==> r in after
    ensures RoutesBetween(start, after, link, table, info)
  {
    hide Valid, OfFamily, RequestedRoutes;
    OfFamilyValid(info.allowedIps, family.FamilyV4?);
    RequestedOfFamily(link, table, info.allowedIps, family.FamilyV4?);
  }

  lemma ConnectedBetween(
      start: set<Route>, before: set<Route>, after: set<Route>, link: int, table: int, info: RoutingInfo)
    requires ValidInfo(info) && RoutesBetween(start, before, link, table, info)
    requires before <= after <= before + RequestedRoutes(link, 0, info.addresses)
    ensures RoutesBetween(start, after, link, table, info)
  {
    hide Valid, RequestedRoutes;
  }

  lemma RequestedAreDestinations(link: int, table: int, cidrs: seq<Cidr>)
    requires AllValid(cidrs)
    ensures forall r :: r in RequestedRoutes(link, table, cidrs) ==> r.link == link && IsDestination(r.dst)
  {
    forall i | 0 <= i < |cidrs|
      ensures IsDestination(NetworkAddr(cidrs[i]))
    {
      MaskedTwice(cidrs[i]);
    }
  }

  lemma InsertedCount(before: seq<Rule>, after: seq<Rule>, rule: Rule)
    requires Inserted(before, after, rule)
    ensures MainCount(after) == MainCount(before) + if IsMainRule(rule) then 1 else 0
  {
    var i :| 0 <= i <= |before| && after == before[..i] + [rule] + before[i..];
    MainCountInsert(before, i, rule);
  }

  lemma InsertedMembers(before: seq<Rule>, after: seq<Rule>, rule: Rule)
    requires Inserted(before, after, rule)
    ensures forall r :: r in after <==> r in before || r == rule
  {
    var i :| 0 <= i <= |before| && after == before[..i] + [rule] + before[i..];
    assert before == before[..i] + before[i..];
  }

  lemma MembersDecide(rules: seq<Rule>, mark: nat, table: int)
    ensures HasMainRule(rules) <==> exists r :: r in rules && IsMainRule(r)
    ensures HasFwMarkRule(rules, mark, table) <==> exists r :: r in rules && IsFwMarkRule(r, mark, table)
  {
    hide IsMainRule, IsFwMarkRule;
  }

  /** The rules listed at or after the second main rule. */
  function Doomed(rules: seq<Rule>): seq<Rule> {
    if rules == [] then []
    else Doomed(rules[..|rules| - 1]) + if MainCount(rules) > 1 then [rules[|rules| - 1]] else []
  }

  /** Of the first `i` listed rules the doomed ones have been deleted, as rules of the target family. */
  predicate Purged(was: State, now: State, family: Family, target: Family, i: nat) {
    var listed := RulesOf(was, family);
    && i <= |listed|
    && RulesOf(now, Other(target)) == RulesOf(was, Other(target))
    && multiset(RulesOf(now, target)) + multiset(Doomed(listed[..i])) == multiset(RulesOf(was, target))
    && (MainCount(listed) <= 1 ==> RulesOf(now, target) == RulesOf(was, target))
  }

  lemma PurgeBegins(was: State, family: Family, target: Family)
    ensures Purged(was, was, family, target, 0)
    ensures MainCount(RulesOf(was, family)[..0]) == 0
  {
    assert RulesOf(was, family)[..0] == [];
  }

  lemma PurgeGoesOn(was: State, before: State, now: State, family: Family, target: Family, i: nat)
    requires Purged(was, before, family, target, i) && i < |RulesOf(was, family)|
    requires var listed := RulesOf(was, family);
             if MainCount(listed[..i + 1]) > 1 then
               && listed[i] in RulesOf(before, target)
               && RulesOf(now, target) == WithoutFirst(RulesOf(before, target), listed[i])
               && RulesOf(now, Other(target)) == RulesOf(before, Other(target))
             else now == before
    ensures Purged(was, now, family, target, i + 1)
  {
    hide IsMainRule, WithoutFirst, MainCount, Doomed;
    var listed := RulesOf(was, family);
    CountSnoc(listed, i);
    WithoutFirstMultiset(RulesOf(before, target), listed[i]);
  }

  lemma PurgeEnds(was: State, now: State, family: Family, target: Family, i: nat)
    requires Purged(was, now, family, target, i)
    ensures RulesOf(now, Other(target)) == RulesOf(was, Other(target))
    ensures MainCount(RulesOf(was, family)) <= 1 ==> now.rules4 == was.rules4 && now.rules6 == was.rules6
    ensures i == |RulesOf(was, family)| ==>
              multiset(RulesOf(now, target)) + multiset(Doomed(RulesOf(was, family))) == multiset(RulesOf(was, target))
  {
    hide MainCount, Doomed;
    var listed := RulesOf(was, family);
    assert listed[..|listed|] == listed;
  }

  lemma CountSnoc(rules: seq<Rule>, i: nat)
    requires i < |rules|
    ensures MainCount(rules[..i + 1]) == MainCount(rules[..i]) + if IsMainRule(rules[i]) then 1 else 0
    ensures MainCount(rules[..i + 1]) <= MainCount(rules)
    ensures Doomed(rules[..i + 1]) == Doomed(rules[..i]) + if MainCount(rules[..i + 1]) > 1 then [rules[i]] else []
  {
    assert rules[..i + 1][..i] == rules[..i];
    MainCountPrefix(rules, i + 1);
  }

  lemma {:induction false} WithoutFirstMultiset(rules: seq<Rule>, rule: Rule)
    ensures rule in rules ==> multiset(WithoutFirst(rules, rule)) + multiset{rule} == multiset(rules)
  {
    if rules != [] {
      assert rules == [rules[0]] + rules[1..];
      WithoutFirstMultiset(rules[1..], rule);
    }
  }

  function RequestFamily(requested: Option<Family>): Family {
    if requested.Some? then requested.value else FamilyV4
  }

  function WithoutFirst(rules: seq<Rule>, rule: Rule): seq<Rule> {
    if rules == [] then []
    else if rules[0] == rule then rules[1..]
    else [rules[0]] + WithoutFirst(rules[1..], rule)
  }

  predicate Inserted(before: seq<Rule>, after: seq<Rule>, rule: Rule) {
    exists i :: 0 <= i <= |before| && after == before[..i] + [rule] + before[i..]
  }

  lemma ListsSnoc(list: seq<RawRoute>, raw: RawRoute, routes: set<Route>, link: int, family: Family, rest: set<Route>)
    requires ListsExactly(list, routes, link, family, rest)
    requires rest <= routes && Denoted(raw, family) in rest && Concerns(Denoted(raw, family), link, family)
    ensures ListsExactly(list + [raw], routes, link, family, rest - {Denoted(raw, family)})
  {
    hide Denoted, Concerns;
    var more := list + [raw];
    assert more[|list|] == raw && forall i :: 0 <= i < |list| ==> more[i] == list[i];
    forall r | r in routes - (rest - {Denoted(raw, family)}) && Concerns(r, link, family)
      ensures exists i :: 0 <= i < |more| && Denoted(more[i], family) == r
    {
      if r == Denoted(raw, family) {
        assert Denoted(more[|list|], family) == r;
      } else {
        var i :| 0 <= i < |list| && Denoted(list[i], family) == r;
        assert Denoted(more[i], family) == r;
      }
    }
  }

  lemma {:induction false} RemainingMembers(rules: seq<Rule>, table: int, mark: Option<nat>)
    ensures forall r :: r in Remaining(rules, table, mark) <==> r in rules && !Selects(r, table, mark)
  {
    hide Selects;
    if rules != [] {
      RemainingMembers(rules[..|rules| - 1], table, mark);
      assert rules == rules[..|rules| - 1] + [rules[|rules| - 1]];
    }
  }

  lemma {:induction false} WithoutFirstSkips(kept: seq<Rule>, rule: Rule, rest: seq<Rule>)
    requires rule !in kept
    ensures WithoutFirst(kept + [rule] + rest, rule) == kept + rest
  {
    var rules := kept + [rule] + rest;
    if kept != [] {
      WithoutFirstSkips(kept[1..], rule, rest);
      assert rules[1..] == kept[1..] + [rule] + rest;
    }
  }

  /** Deleting the next selected rule removes that rule, since no equal one is left before it. */
  lemma RemainingStep(rules: seq<Rule>, i: nat, table: int, mark: Option<nat>)
    requires i <= |rules|
    ensures i == 0 ==> Remaining(rules[..i], table, mark) == []
    ensures i < |rules| ==>
              var kept := Remaining(rules[..i], table, mark);
              if Selects(rules[i], table, mark)
              then Remaining(rules[..i + 1], table, mark) == kept
                   && WithoutFirst(kept + rules[i..], rules[i]) == kept + rules[i + 1..]
              else Remaining(rules[..i + 1], table, mark) == kept + [rules[i]]
                   && kept + rules[i..] == kept + [rules[i]] + rules[i + 1..]
  {
    if i < |rules| {
      var kept := Remaining(rules[..i], table, mark);
      assert rules[..i + 1][..i] == rules[..i];
      assert kept + rules[i..] == kept + [rules[i]] + rules[i + 1..];
      if Selects(rules[i], table, mark) {
        RemainingMembers(rules[..i], table, mark);
        WithoutFirstSkips(kept, rules[i], rules[i + 1..]);
      }
    }
  }

  // ---------------------------------------------------------------------- what SetRoutes achieves

  predicate IsConnected(info: RoutingInfo, d: Cidr)
    requires ValidInfo(info)
  {
    exists i :: 0 <= i < |info.addresses| && NetworkAddr(info.addresses[i]) == d
  }

  /** The destinations a reconciled link has. */
  predicate Wanted(info: RoutingInfo, d: Cidr)
    requires ValidInfo(info)
  {
    (d in info.allowedIps && IsDestination(d)) || IsConnected(info, d)
  }

  lemma RequestedMembers(link: int, table: int, cidrs: seq<Cidr>, r: Route)
    requires AllValid(cidrs)
    ensures r in RequestedRoutes(link, table, cidrs) <==>
              r.link == link && r.table == TableNumber(table) &&
              exists i :: 0 <= i < |cidrs| && NetworkAddr(cidrs[i]) == r.dst
  {
    hide NetworkAddr;
    if i :| 0 <= i < |cidrs| && NetworkAddr(cidrs[i]) == r.dst && r.link == link && r.table == TableNumber(table) {
      assert Requested(link, table, cidrs[i]) == r;
    }
  }

  lemma RequestedFamily(link: int, table: int, cidrs: seq<Cidr>, v4: bool, r: Route)
    requires AllValid(cidrs)
    requires AllValid(OfFamily(cidrs, v4)) && r in RequestedRoutes(link, table, OfFamily(cidrs, v4))
    ensures r.dst.addr.V4? == v4
  {
    OfFamilyValid(cidrs, v4);
    var i :| 0 <= i < |OfFamily(cidrs, v4)| && r == Requested(link, table, OfFamily(cidrs, v4)[i]);
    assert OfFamily(cidrs, v4)[i] in OfFamily(cidrs, v4);
  }

  /** Which routes are left: another link's routes, the wanted ones, and the connected ones. */
  lemma TargetMembers(routes: set<Route>, link: int, table: int, info: RoutingInfo, r: Route)
    requires ValidInfo(info)
    requires forall route :: route in routes ==> IsDestination(route.dst)
    ensures r in TargetRoutes(routes, link, table, info) <==>
              if r.link != link then r in routes
              else (r.dst in info.allowedIps && IsDestination(r.dst) && (r in routes || r.table == TableNumber(table)))
                   || (r.table == RT_TABLE_MAIN && IsConnected(info, r.dst))
  {
    hide NetworkAddr, OfFamily, RequestedRoutes;
    var allowed4, allowed6 := OfFamily(info.allowedIps, true), OfFamily(info.allowedIps, false);
    OfFamilyValid(info.allowedIps, true);
    OfFamilyValid(info.allowedIps, false);
    RequestedMembers(link, table, allowed4, r);
    RequestedMembers(link, table, allowed6, r);
    RequestedMembers(link, 0, info.addresses, r);
    RequestedAreDestinations(link, table, allowed4);
    RequestedAreDestinations(link, table, allowed6);
    if r in RequestedRoutes(link, table, allowed4) {
      RequestedFamily(link, table, info.allowedIps, true, r);
    }
    if r in RequestedRoutes(link, table, allowed6) {
      RequestedFamily(link, table, info.allowedIps, false, r);
    }
    if r.link == link && r.table == TableNumber(table) && r.dst in info.allowedIps && IsDestination(r.dst) {
      var mine := if r.dst.addr.V4? then allowed4 else allowed6;
      var i :| 0 <= i < |mine| && mine[i] == r.dst;
      assert NetworkAddr(mine[i]) == r.dst;
    }
  }

  /**
    The destinations of the link are the allowed networks and those of the interface addresses. An allowed
    CIDR with host bits is not among them: a kernel that takes such a destination stores it masked, as is
    assumed here, and it then counts as deprecated; one that refuses it makes the call fail.
  */
  lemma DestinationsAreWanted(
      before: State, after: State, link: int, table: int, mark: nat, info: RoutingInfo, main4: bool, main6: bool)
    requires ValidInfo(info) && Consistent(before)
    requires Reconciled(before, after, link, table, mark, info, main4, main6)
    ensures forall d :: (exists t :: Route(link, t, d) in after.routes) <==> Wanted(info, d)
    ensures forall c :: c in info.allowedIps && IsDestination(c) ==> Route(link, TableNumber(table), c) in after.routes
    ensures forall c :: c in info.allowedIps && !IsDestination(c) ==> forall t :: Route(link, t, c) !in after.routes
    ensures forall r: Route :: r.link != link ==> (r in after.routes <==> r in before.routes)
  {
    hide NetworkAddr, Valid, TargetRoutes, FamilyRules, IsDestination, OfFamily;
    forall r
      ensures r in after.routes <==>
                if r.link != link then r in before.routes
                else (r.dst in info.allowedIps && IsDestination(r.dst) &&
                      (r in before.routes || r.table == TableNumber(table)))
                     || (r.table == RT_TABLE_MAIN && IsConnected(info, r.dst))
    {
      TargetMembers(before.routes, link, table, info, r);
    }
    forall d
      ensures (exists t :: Route(link, t, d) in after.routes) <==> Wanted(info, d)
    {
      if d in info.allowedIps && IsDestination(d) {
        assert Route(link, TableNumber(table), d) in after.routes;
      } else if IsConnected(info, d) {
        assert Route(link, RT_TABLE_MAIN, d) in after.routes;
      }
    }
    forall c, t | c in info.allowedIps && !IsDestination(c)
      ensures Route(link, t, c) !in after.routes
    {
      NotConnected(info, c);
    }
  }

  lemma NotConnected(info: RoutingInfo, c: Cidr)
    requires ValidInfo(info) && !IsDestination(c)
    ensures !IsConnected(info, c)
  {
    if IsConnected(info, c) {
      var i :| 0 <= i < |info.addresses| && NetworkAddr(info.addresses[i]) == c;
      MaskedTwice(info.addresses[i]);
      assert false;
    }
  }

  /** A main rule is still to be added for the family. */
  predicate Due(rules: seq<Rule>, table: int, cidrs: seq<Cidr>) {
    table != 0 && ContainsDefaultRoute(cidrs) && !HasMainRule(rules)
  }

  predicate AnyDue(s: State, table: int, info: RoutingInfo) {
    Due(s.rules4, table, OfFamily(info.allowedIps, true)) || Due(s.rules6, table, OfFamily(info.allowedIps, false))
  }

  /**
    After one call, the same call again, if it succeeds, changes nothing, also where adding the main rule fails,
    iff no main rule is due any more.
  */
  lemma SecondCallChangesNothingIff(
      s0: State, s1: State, link: int, table: int, mark: nat, info: RoutingInfo, main4: bool, main6: bool)
    requires ValidInfo(info) && Consistent(s0) && AtMostOneMainRule(s0)
    requires Reconciled(s0, s1, link, table, mark, info, main4, main6)
    ensures (forall s2, late4, late6 :: Reconciled(s1, s2, link, table, mark, info, late4, late6) ==> s2 == s1)
            <==> !AnyDue(s1, table, info)
  {
    hide Reconciled, AnyDue;
    if AnyDue(s1, table, info) {
      var s2, late4, late6 := DueIsAdded(s0, s1, link, table, mark, info, main4, main6);
      assert Reconciled(s1, s2, link, table, mark, info, late4, late6) && s2 != s1;
    } else {
      forall s2, late4, late6 | Reconciled(s1, s2, link, table, mark, info, late4, late6)
        ensures s2 == s1
      {
        NothingDue(s0, s1, s2, link, table, mark, info, main4, main6, late4, late6);
      }
    }
  }

  /** A main rule is due after a call exactly if it was due before, and the call failed to add it. */
  lemma DueAfterIff(
      s0: State, s1: State, link: int, table: int, mark: nat, info: RoutingInfo, main4: bool, main6: bool)
    requires ValidInfo(info) && Consistent(s0) && AtMostOneMainRule(s0)
    requires Reconciled(s0, s1, link, table, mark, info, main4, main6)
    ensures AnyDue(s1, table, info) <==>
              || (Due(s0.rules4, table, OfFamily(info.allowedIps, true)) && !main4)
              || (Due(s0.rules6, table, OfFamily(info.allowedIps, false)) && !main6)
  {
    hide HasFwMarkRule, MainCount, ContainsDefaultRoute, IsFwMarkRule, OfFamily, Valid, TargetRoutes, HasMainRule;
    FamilyStillDue(s0.rules4, s1.rules4, mark, table, OfFamily(info.allowedIps, true), main4);
    FamilyStillDue(s0.rules6, s1.rules6, mark, table, OfFamily(info.allowedIps, false), main6);
  }

  lemma FamilyStillDue(before: seq<Rule>, after: seq<Rule>, mark: nat, table: int, cidrs: seq<Cidr>, main: bool)
    requires FamilyRules(before, after, mark, table, cidrs, main)
    ensures Due(after, table, cidrs) <==> Due(before, table, cidrs) && !main
  {
    hide HasFwMarkRule, MainCount, ContainsDefaultRoute, IsMainRule, HasMainRule;
    MainCountPositive(before);
    MainCountPositive(after);
  }

  /**
    The same call again, wherever it stops: it may have lost networks of the interface addresses that are not
    allowed CIDRs, which are added back last, and left a route for an allowed CIDR with host bits. Nothing
    else has changed, unless a main rule was due.
  */
  lemma RepeatLeaves(
      s0: State, s1: State, s2: State, link: int, table: int, mark: nat, info: RoutingInfo,
      main4: bool, main6: bool)
    requires ValidInfo(info) && Consistent(s0)
    requires Reconciled(s0, s1, link, table, mark, info, main4, main6)
    requires Attempted(s1, s2, link, table, mark, info)
    ensures forall r :: r in s1.routes && r !in s2.routes ==>
              r.link == link && r.table == RT_TABLE_MAIN && IsConnected(info, r.dst) && r.dst !in info.allowedIps
    ensures forall r :: r in s2.routes && r !in s1.routes ==>
              && r.link == link && r.table == TableNumber(table)
              && exists i :: 0 <= i < |info.allowedIps| && !IsDestination(info.allowedIps[i])
                             && NetworkAddr(info.allowedIps[i]) == r.dst
    ensures s2.marks == s1.marks
    ensures AtMostOneMainRule(s0) && !AnyDue(s1, table, info) ==> s2.rules4 == s1.rules4 && s2.rules6 == s1.rules6
  {
    hide FamilyRules, OfFamily, NetworkAddr, TargetRoutes, IsDestination, RulesBetween, RequestedRoutes, Pow2;
    hide Due, HasFwMarkRule;
    forall r | r in s1.routes && r !in s2.routes
      ensures r.link == link && r.table == RT_TABLE_MAIN && IsConnected(info, r.dst) && r.dst !in info.allowedIps
    {
      TargetMembers(s0.routes, link, table, info, r);
    }
    forall r | r in s2.routes && r !in s1.routes
      ensures r.link == link && r.table == TableNumber(table)
      ensures exists i :: 0 <= i < |info.allowedIps| && !IsDestination(info.allowedIps[i])
                          && NetworkAddr(info.allowedIps[i]) == r.dst
    {
      TargetMembers(s0.routes, link, table, info, r);
      RequestedMembers(link, 0, info.addresses, r);
      RequestedMembers(link, table, info.allowedIps, r);
      var i :| 0 <= i < |info.allowedIps| && NetworkAddr(info.allowedIps[i]) == r.dst;
      DestinationIsItself(info.allowedIps[i]);
    }
    if AtMostOneMainRule(s0) && !AnyDue(s1, table, info) {
      RulesArePresent(s0, s1, link, table, mark, info, main4, main6);
      RulesUnchanged(s1.rules4, s2.rules4, mark, table, OfFamily(info.allowedIps, true));
      RulesUnchanged(s1.rules6, s2.rules6, mark, table, OfFamily(info.allowedIps, false));
    }
  }

  lemma DestinationIsItself(c: Cidr)
    requires Valid(c)
    ensures IsDestination(c) ==> NetworkAddr(c) == c
  {
  }

  lemma RulesUnchanged(before: seq<Rule>, after: seq<Rule>, mark: nat, table: int, cidrs: seq<Cidr>)
    requires RulesBetween(before, after, mark, table, cidrs) && !Due(before, table, cidrs)
    requires table != 0 ==> HasFwMarkRule(before, mark, table)
    ensures after == before
  {
    hide HasFwMarkRule, Due;
  }

  /** A repeated call that stops after the clean-up has lost the connected route of the interface. */
  lemma RepeatMayLoseConnected() returns (s0: State, s1: State, s2: State, info: RoutingInfo)
    ensures ValidInfo(info) && Consistent(s0) && AtMostOneMainRule(s0)
    ensures Reconciled(s0, s1, 1, 7, 7, info, false, false) && !AnyDue(s1, 7, info)
    ensures Attempted(s1, s2, 1, 7, 7, info) && s2.routes == {} && s1.routes != {}
  {
    var host := Cidr(V4(1), 32);
    HostIsDestination();
    info := RoutingInfo("wg0", [host], [], 7, 7);
    var rule := Rule(7, 7, -1, 32700);
    s0 := State({}, [], [], map[]);
    s1 := State({Route(1, RT_TABLE_MAIN, host)}, [rule], [rule], map["wg0" := 7]);
    s2 := s1.(routes := {});
    assert info.addresses[0] == host;
    forall r
      ensures r in TargetRoutes(s0.routes, 1, 7, info) <==> r in s1.routes
    {
      TargetMembers(s0.routes, 1, 7, info, r);
    }
    OneRule(rule);
  }

  lemma HostIsDestination()
    ensures IsDestination(Cidr(V4(1), 32)) && IsDestination(Cidr(V4(2), 32))
  {
    SmallPowers();
    Pow2Add(8, 8);
    Pow2Add(16, 16);
  }

  lemma RoutesSettle(
      s0: State, s1: State, link: int, table: int, mark: nat, info: RoutingInfo, main4: bool, main6: bool)
    requires ValidInfo(info) && Consistent(s0)
    requires Reconciled(s0, s1, link, table, mark, info, main4, main6)
    ensures TargetRoutes(s1.routes, link, table, info) == s1.routes
  {
    hide FamilyRules, OfFamily, Valid, NetworkAddr, TargetRoutes, IsDestination, AtMostOneMainRule;
    forall r
      ensures r in TargetRoutes(s1.routes, link, table, info) <==> r in s1.routes
    {
      TargetMembers(s0.routes, link, table, info, r);
      ConsistentTarget(s0.routes, link, table, info);
      TargetMembers(s1.routes, link, table, info, r);
    }
  }

  lemma NothingDue(
      s0: State, s1: State, s2: State, link: int, table: int, mark: nat, info: RoutingInfo,
      main4: bool, main6: bool, late4: bool, late6: bool)
    requires ValidInfo(info) && Consistent(s0) && AtMostOneMainRule(s0)
    requires Reconciled(s0, s1, link, table, mark, info, main4, main6)
    requires Reconciled(s1, s2, link, table, mark, info, late4, late6)
    requires !AnyDue(s1, table, info)
    ensures s2 == s1
  {
    hide HasFwMarkRule, MainCount, ContainsDefaultRoute, IsFwMarkRule, OfFamily, Valid, TargetRoutes, HasMainRule;
    RoutesSettle(s0, s1, link, table, mark, info, main4, main6);
    assert s2.marks == s1.marks;
  }

  /** The call that adds what is due. */
  lemma DueIsAdded(
      s0: State, s1: State, link: int, table: int, mark: nat, info: RoutingInfo, main4: bool, main6: bool)
    returns (s2: State, late4: bool, late6: bool)
    requires ValidInfo(info) && Consistent(s0) && AtMostOneMainRule(s0)
    requires Reconciled(s0, s1, link, table, mark, info, main4, main6) && AnyDue(s1, table, info)
    ensures Reconciled(s1, s2, link, table, mark, info, late4, late6) && s2 != s1
  {
    hide HasFwMarkRule, MainCount, ContainsDefaultRoute, IsFwMarkRule, OfFamily, Valid, TargetRoutes, HasMainRule;
    hide IsMainRule;
    var rule := Rule(0, RT_TABLE_MAIN, 0, 0);
    RoutesSettle(s0, s1, link, table, mark, info, main4, main6);
    late4 := Due(s1.rules4, table, OfFamily(info.allowedIps, true));
    late6 := Due(s1.rules6, table, OfFamily(info.allowedIps, false));
    var rules4 := if late4 then s1.rules4 + [rule] else s1.rules4;
    var rules6 := if late6 then s1.rules6 + [rule] else s1.rules6;
    s2 := State(s1.routes, rules4, rules6, s1.marks);
    assert s1.marks[info.interfaceId := mark] == s1.marks;
    LateFamily(s1.rules4, mark, table, OfFamily(info.allowedIps, true), rule);
    LateFamily(s1.rules6, mark, table, OfFamily(info.allowedIps, false), rule);
  }

  lemma LateFamily(rules: seq<Rule>, mark: nat, table: int, cidrs: seq<Cidr>, rule: Rule)
    requires MainCount(rules) <= 1 && rule == Rule(0, RT_TABLE_MAIN, 0, 0)
    requires table != 0 ==> HasFwMarkRule(rules, mark, table)
    ensures var due := Due(rules, table, cidrs);
            FamilyRules(rules, if due then rules + [rule] else rules, mark, table, cidrs, due)
  {
    hide MainCount, ContainsDefaultRoute, IsFwMarkRule, HasFwMarkRule, HasMainRule;
    var more := rules + [rule];
    assert more[..|rules|] == rules && rules == rules[..|rules|] && rules[|rules|..] == [];
    MainCountInsert(rules, |rules|, rule);
    assert rules[..|rules|] + [rule] + rules[|rules|..] == more;
    MainCountPositive(rules);
    MainCountPositive(more);
    MembersDecide(rules, mark, table);
    MembersDecide(more, mark, table);
  }

  /** Two states between which a call has reconciled everything except that adding the main rule failed. */
  lemma MainRuleMayBeLost() returns (s0: State, s1: State, info: RoutingInfo)
    ensures ValidInfo(info) && Consistent(s0) && AtMostOneMainRule(s0)
    ensures Reconciled(s0, s1, 1, 7, 7, info, false, false) && AnyDue(s1, 7, info)
  {
    var all := Cidr(V4(0), 0);
    info := RoutingInfo("wg0", [], [all], 7, 7);
    var rule := Rule(7, 7, -1, 32700);
    s0 := State({}, [], [], map[]);
    s1 := State({Route(1, 7, all)}, [rule], [rule], map["wg0" := 7]);
    SmallPowers();
    AllIsDestination();
    forall r
      ensures r in TargetRoutes(s0.routes, 1, 7, info) <==> r in s1.routes
    {
      TargetMembers(s0.routes, 1, 7, info, r);
    }
    OneRule(rule);
    assert OfFamily([all], true) == [all] && OfFamily([all], false) == [];
  }

  lemma AllIsDestination()
    ensures IsDestination(Cidr(V4(0), 0))
  {
    var all := Cidr(V4(0), 0);
    SmallPowers();
    assert Valid(all);
    MulDiv(0, Size(all));
  }

  lemma OneRule(rule: Rule)
    requires rule.suppressPrefixlen != 0
    ensures MainCount([rule]) == 0 && MainCount([]) == 0 && !HasMainRule([rule])
    ensures HasFwMarkRule([rule], rule.mark, rule.table)
  {
    assert [rule][0] == rule && [rule][..0] == [];
  }

  lemma ConsistentTarget(routes: set<Route>, link: int, table: int, info: RoutingInfo)
    requires ValidInfo(info)
    requires forall r :: r in routes ==> IsDestination(r.dst)
    ensures forall r :: r in TargetRoutes(routes, link, table, info) ==> IsDestination(r.dst)
  {
    hide NetworkAddr, Valid, TargetRoutes, IsDestination, OfFamily;
    forall r | r in TargetRoutes(routes, link, table, info)
      ensures IsDestination(r.dst)
    {
      TargetMembers(routes, link, table, info, r);
      if !IsDestination(r.dst) {
        NotConnected(info, r.dst);
      }
    }
  }

  /** The marked packets of both families are directed to the table, except for table 0. */
  lemma RulesArePresent(
      before: State, after: State, link: int, table: int, mark: nat, info: RoutingInfo, main4: bool, main6: bool)
    requires ValidInfo(info) && AtMostOneMainRule(before)
    requires Reconciled(before, after, link, table, mark, info, main4, main6)
    ensures AtMostOneMainRule(after)
    ensures table != 0 ==> HasFwMarkRule(after.rules4, mark, table) && HasFwMarkRule(after.rules6, mark, table)
    ensures forall rule :: rule in before.rules4 ==> rule in after.rules4
    ensures forall rule :: rule in before.rules6 ==> rule in after.rules6
  {
    hide HasFwMarkRule, MainCount, ContainsDefaultRoute, IsFwMarkRule, OfFamily, Valid, NetworkAddr, TargetRoutes;
  }

  // ---------------------------------------------------------------------- what RemoveRoutes undoes

  /** The resolved table is zero in one case only, that of a mark that wraps around to zero. */
  lemma ResolvesToZero(offset: nat, index: nat, table: int, fwMark: nat)
    ensures Resolve(offset, index, table, fwMark).0 == 0 <==>
              table == 0 && fwMark == 0 && (offset + index) % 0x1_0000_0000 == 0
    ensures fwMark < 0x1_0000_0000 ==> Resolve(offset, index, table, fwMark).1 < 0x1_0000_0000
  {
  }

  /** `RemoveRoutes` works on the table and mark of `SetRoutes`, whether the device can be read or not. */
  lemma RecallsWhatWasSet(
      before: State, after: State, offset: nat, index: nat, info: RoutingInfo, main4: bool, main6: bool, read: bool)
    requires ValidInfo(info)
    requires var (table, mark) := Resolve(offset, index, info.table, info.fwMark);
             Reconciled(before, after, index, table, mark, info, main4, main6)
    ensures info.interfaceId in after.marks
    ensures var (t, m) := Recalled(info, if read then Some(after.marks[info.interfaceId]) else None);
            Resolve(offset, index, t, m) == Resolve(offset, index, info.table, info.fwMark)
  {
    hide FamilyRules, TargetRoutes, OfFamily, MainCount;
  }

  /**
    After setting and removing, the link has no allowed destination in the table, and the marked packets are
    no longer directed there. No route of the link at all is left in a table other than main.
  */
  lemma RemovedAfterSet(
      s0: State, s1: State, s2: State, link: int, table: int, mark: nat, info: RoutingInfo,
      main4: bool, main6: bool, wholeTable: bool)
    requires ValidInfo(info) && Consistent(s0)
    requires Reconciled(s0, s1, link, table, mark, info, main4, main6)
    requires Removed(s1, s2, link, table, mark, wholeTable, info)
    ensures forall c :: c in info.allowedIps ==> Route(link, table, c) !in s2.routes
    ensures table != 0 && table != RT_TABLE_MAIN ==>
              forall r :: r in s2.routes ==> !(r.link == link && r.table == table)
    ensures (forall c :: c in info.allowedIps ==> Route(link, TableNumber(table), c) !in s2.routes) <==>
              table != 0 || forall c :: c in info.allowedIps ==> !IsDestination(c)
    ensures forall r: Route :: r.link != link ==> (r in s2.routes <==> r in s0.routes)
    ensures !HasFwMarkRule(s2.rules4, mark, table) && !HasFwMarkRule(s2.rules6, mark, table)
  {
    hide NetworkAddr, Valid, TargetRoutes, IsDestination, OfFamily, FamilyRules, MainCount;
    DestinationsAreWanted(s0, s1, link, table, mark, info, main4, main6);
    MembersDecide(s2.rules4, mark, table);
    MembersDecide(s2.rules6, mark, table);
    if table != 0 && table != RT_TABLE_MAIN {
      forall r | r in s2.routes
        ensures !(r.link == link && r.table == table)
      {
        TargetMembers(s0.routes, link, table, info, r);
      }
    }
    if table == 0 {
      forall c | c in info.allowedIps && IsDestination(c)
        ensures Route(link, TableNumber(table), c) in s2.routes
      {
        assert Route(link, TableNumber(table), c) in s1.routes;
      }
    }
  }

  /** The clean-up by table runs for a requested table, and for the mark of a readable device that serves as one. */
  predicate CleansTable(info: RoutingInfo, deviceMark: Option<nat>) {
    info.table > 0 || (info.table == 0 && deviceMark.Some? && deviceMark.value > 0)
  }

  /**
    No rule for the table is left in either family if and only if a positive table was requested, or the
    device could be read and has a positive mark that serves as the table, or all rules for the table had the
    mark.
  */
  lemma NoRuleForTableIff(
      before: State, after: State, offset: nat, link: nat, info: RoutingInfo, deviceMark: Option<nat>)
    requires var (t, m) := Recalled(info, deviceMark);
             var (table, mark) := Resolve(offset, link, t, m);
             Removed(before, after, link, table, mark, t > 0, info)
    ensures var (t, m) := Recalled(info, deviceMark);
            var (table, mark) := Resolve(offset, link, t, m);
            NoRuleFor(after.rules4, table) && NoRuleFor(after.rules6, table) <==>
              || CleansTable(info, deviceMark)
              || (forall rule :: rule in before.rules4 + before.rules6 && rule.table == table ==> rule.mark == mark)
  {
    assert forall i :: 0 <= i < |after.rules4| ==> after.rules4[i] in after.rules4;
    assert forall i :: 0 <= i < |after.rules6| ==> after.rules6[i] in after.rules6;
  }

  /**
    A removal after a call of `SetRoutes` that leaves a rule of the table, which another program has added: no
    table was requested, and the device cannot be read.
  */
  lemma RuleMayStay() returns (s0: State, s1: State, s2: State, info: RoutingInfo)
    ensures Recalled(info, None) == (0, 0) && Resolve(20000, 3, 0, 0) == (20003, 20003)
    ensures ValidInfo(info) && Consistent(s0) && AtMostOneMainRule(s0)
    ensures Reconciled(s0, s1, 3, 20003, 20003, info, false, false) && s1.routes != {}
    ensures Removed(s1, s2, 3, 20003, 20003, false, info) && s2.routes == {} && !NoRuleFor(s2.rules4, 20003)
  {
    hide TargetRoutes, FamilyRules, Removed, Pow2, NetworkAddr;
    var host := Cidr(V4(2), 32);
    HostIsDestination();
    var foreign, rule := Rule(5, 20003, -1, 32700), Rule(20003, 20003, -1, 32699);
    info := RoutingInfo("wg0", [], [host], 0, 0);
    s0 := State({}, [foreign], [], map[]);
    s1 := State({Route(3, 20003, host)}, [foreign, rule], [rule], map["wg0" := 20003]);
    s2 := State({}, [foreign], [], map["wg0" := 20003]);
    assert info.allowedIps[0] == host;
    forall r
      ensures r in TargetRoutes(s0.routes, 3, 20003, info) <==> r in s1.routes
    {
      TargetMembers(s0.routes, 3, 20003, info, r);
    }
    RuleIsAdded([], rule, OfFamily([host], false));
    RuleIsAdded([foreign], rule, OfFamily([host], true));
    assert [] + [rule] == [rule] && [foreign] + [rule] == [foreign, rule];
    OneRule(foreign);
    assert OfFamily([host], true) == [host] && OfFamily([host], false) == [];
    MarkedRuleIsRemoved(s1, s2, foreign, rule, host, info);
  }

  lemma MarkedRuleIsRemoved(s1: State, s2: State, foreign: Rule, rule: Rule, host: Cidr, info: RoutingInfo)
    requires foreign.table == rule.table && foreign.mark != rule.mark && info.allowedIps == [host]
    requires s1.routes == {Route(3, rule.table, host)} && s2.routes == {} && s2.marks == s1.marks
    requires s1.rules4 == [foreign, rule] && s1.rules6 == [rule] && s2.rules4 == [foreign] && s2.rules6 == []
    ensures Removed(s1, s2, 3, rule.table, rule.mark, false, info) && !NoRuleFor(s2.rules4, rule.table)
  {
    assert [host][0] == host && s2.rules4[0] == foreign;
  }

  lemma RuleIsAdded(rules: seq<Rule>, rule: Rule, cidrs: seq<Cidr>)
    requires MainCount(rules) == 0 && rule.suppressPrefixlen != 0 && rule.table != 0
    requires !HasFwMarkRule(rules, rule.mark, rule.table)
    ensures FamilyRules(rules, rules + [rule], rule.mark, rule.table, cidrs, false)
  {
    var more := rules + [rule];
    assert more[..|rules|] == rules && more[|rules|] == rule;
    assert IsFwMarkRule(more[|rules|], rule.mark, rule.table);
  }

  // ---------------------------------------------------------------------- surplus main rules

  /** The position of the second main rule, or the number of rules. */
  function SecondMain(rules: seq<Rule>): (k: nat)
    ensures k <= |rules|
    ensures k < |rules| ==> IsMainRule(rules[k]) && MainCount(rules[..k]) == 1
    ensures k == |rules| <==> MainCount(rules) <= 1
  {
    if rules == [] then 0
    else
      var n := |rules| - 1;
      var k := SecondMain(rules[..n]);
      assert rules[..n][..k] == rules[..k];
      if k < n then k
      else if MainCount(rules) > 1 then n else n + 1
  }

  /** Everything from the second main rule on is deleted. */
  lemma {:induction false} DoomedIsTail(rules: seq<Rule>)
    ensures Doomed(rules) == rules[SecondMain(rules)..]
  {
    hide IsMainRule;
    if rules != [] {
      var n := |rules| - 1;
      DoomedIsTail(rules[..n]);
      var k := SecondMain(rules[..n]);
      MainCountPrefix(rules, n);
      if k < n {
        assert rules[k..] == rules[..n][k..] + [rules[n]];
      } else {
        assert Doomed(rules[..n]) == [] && rules[n..] == [rules[n]] && rules[n + 1..] == [];
      }
    }
  }

  lemma TrimmedBy(
      before: seq<Rule>, middle: seq<Rule>, after: seq<Rule>, mark: nat, table: int, cidrs: seq<Cidr>, prioOffset: int)
    requires table != 0 && RulesAdded(before, middle, mark, table, cidrs, prioOffset)
    requires multiset(after) + multiset(Doomed(middle)) == multiset(middle)
    ensures Trimmed(before, after, mark, table, cidrs, prioOffset)
  {
    hide RulesAdded, MainCount, Doomed, SecondMain, IsMainRule;
    var k := SecondMain(middle);
    DoomedIsTail(middle);
    assert middle == middle[..k] + middle[k..];
    Cancel(multiset(after), multiset(middle[..k]), multiset(middle[k..]));
    SameMainCount(after, middle[..k]);
    UpToSecondMain(middle);
    assert IsTrimmed(before, middle, after, mark, table, cidrs, prioOffset);
  }

  lemma Cancel(a: multiset<Rule>, b: multiset<Rule>, c: multiset<Rule>)
    requires a + c == b + c
    ensures a == b
  {
    forall x: Rule
      ensures a[x] == b[x]
    {
      assert (a + c)[x] == a[x] + c[x] && (b + c)[x] == b[x] + c[x];
    }
  }

  lemma UpToSecondMain(rules: seq<Rule>)
    ensures MainCount(rules[..SecondMain(rules)]) <= 1
  {
    hide MainCount;
    if SecondMain(rules) == |rules| {
      assert rules[..|rules|] == rules;
    }
  }

  /** The order does not matter to how many main rules there are. */
  lemma {:induction false} SameMainCount(a: seq<Rule>, b: seq<Rule>)
    requires multiset(a) == multiset(b)
    ensures MainCount(a) == MainCount(b)
  {
    hide IsMainRule;
    if a == [] {
      assert |multiset(b)| == 0;
      assert b == [];
    } else {
      var n := |a| - 1;
      var x := a[n];
      assert a == a[..n] + [x];
      assert x in multiset(b);
      var j :| 0 <= j < |b| && b[j] == x;
      var rest := b[..j] + b[j + 1..];
      assert b == b[..j] + [x] + b[j + 1..];
      assert rest[..j] == b[..j] && rest[j..] == b[j + 1..];
      assert multiset(b) == multiset(rest) + multiset([x]) && multiset(a) == multiset(a[..n]) + multiset([x]);
      Cancel(multiset(a[..n]), multiset(rest), multiset([x]));
      SameMainCount(a[..n], rest);
      MainCountInsert(rest, j, x);
    }
  }

  /** Rules of others are deleted if and only if one is listed behind a second main rule. */
  lemma OthersAreDeletedIff(rules: seq<Rule>)
    ensures (exists rule :: rule in Doomed(rules) && !IsMainRule(rule)) <==>
              exists j :: SecondMain(rules) < j < |rules| && !IsMainRule(rules[j])
    ensures Doomed(rules) == [] <==> MainCount(rules) <= 1
  {
    hide IsMainRule, MainCount, Doomed, SecondMain;
    DoomedIsTail(rules);
    TailHasOther(rules, SecondMain(rules));
  }

  lemma TailHasOther(rules: seq<Rule>, k: nat)
    requires k <= |rules| && (k < |rules| ==> IsMainRule(rules[k]))
    ensures (exists rule :: rule in rules[k..] && !IsMainRule(rule)) <==>
              exists j :: k < j < |rules| && !IsMainRule(rules[j])
  {
    hide IsMainRule;
    if j :| k < j < |rules| && !IsMainRule(rules[j]) {
      assert rules[k..][j - k] == rules[j];
    } else {
      forall i | 0 <= i < |rules| - k
        ensures IsMainRule(rules[k..][i])
      {
        assert rules[k..][i] == rules[k + i];
      }
    }
  }

  /** An input on which an unrelated rule is lost. */
  lemma UnrelatedRuleIsLost()
    ensures var main, other := Rule(0, RT_TABLE_MAIN, 0, 0), Rule(7, 7, -1, 9);
            other in Doomed([main, main, other])
  {
    var main, other := Rule(0, RT_TABLE_MAIN, 0, 0), Rule(7, 7, -1, 9);
    var rules := [main, main, other];
    assert rules[..2] == [main, main] && [main, main][..1] == [main];
    assert MainCount([main]) == 1 && MainCount([main, main]) == 2;
  }
}
