/** Deciding whether a query can take the algebra path.

    The scan follows the clauses in order and keeps the variables that are bound,
    and the relationship variables that may be used again.  The theorem says
    what the scan decides without mentioning its state.
 */
module Routing {
  import opened Prelude
  import opened Patterns
  import opened ReturnItems
  import L = Lqa
  import C = Cypher

  datatype Clause =
    | Match(optional: bool, patterns: seq<Pattern>)
    | With(items: Items)
    | Return(items: Items)
    | Unwind
    | Write
    | ReadCall
    | Union

  datatype Reason =
    | DuplicateAlias | ClauseShape | VarlenRelProps | VarlenNamedRelvar | NamedPathVarlen
    | RelvarAfterWith | UnboundedVarlenUnlabeled | NamedPathWithRealAgg

  // ---------- Aliases and clause kinds ----------

  // Two items of the list go by the same name.
  ghost predicate HasDuplicate(items: Items) {
    items.Explicit? && exists i, j, name :: 0 <= i < j < |items.list| && GoesBy(items.list[i], name) && GoesBy(items.list[j], name)
  }

  lemma NamesGoBy(items: seq<ReturnItem>)
    ensures forall k, name :: 0 <= k < |items| ==> (UserAlias(items[k]) == Some(name) <==> GoesBy(items[k], name))
  {
    forall k, name | 0 <= k < |items|
      ensures UserAlias(items[k]) == Some(name) <==> GoesBy(items[k], name)
    {
      UserAliasIff(items[k], name);
    }
  }

  method FindDuplicate(items: Items) returns (found: bool)
    ensures found <==> HasDuplicate(items)
  {
    if items.All? {
      return false;
    }
    hide UserAlias, GoesBy;
    NamesGoBy(items.list);
    var seen: set<string> := {};
    for i := 0 to |items.list|
      invariant forall a :: a in seen <==> exists k :: 0 <= k < i && UserAlias(items.list[k]) == Some(a)
      invariant forall j, k :: 0 <= j < k < i && UserAlias(items.list[j]).Some? ==> UserAlias(items.list[j]) != UserAlias(items.list[k])
    {
      var alias := UserAlias(items.list[i]);
      if alias.Some? {
        if alias.value in seen {
          return true;
        }
        seen := seen + {alias.value};
      }
    }
    return false;
  }

  ghost predicate ClauseDuplicates(c: Clause) {
    (c.With? || c.Return?) && HasDuplicate(c.items)
  }

  datatype Kind = KMatch | KOptional | KReturn | KWith | KUnwind | KWrite | KCall | KUnion

  function Kinds(c: Clause): seq<Kind> {
    match c
    case Match(optional, _) => if optional then [KMatch, KOptional] else [KMatch]
    case With(_) => [KWith]
    case Return(_) => [KReturn]
    case Unwind => [KUnwind]
    case Write => [KWrite]
    case ReadCall => [KCall]
    case Union => [KUnion]
  }

  // A query ends in RETURN, or else in a write.
  predicate GoodShape(cs: seq<Clause>) {
    |cs| > 0 && (cs[|cs| - 1].Return? || cs[|cs| - 1].Write?)
  }

  // ---------- The scan ----------

  datatype Scan = Scan(bound: set<string>, seenWith: bool, live: set<string>)

  function Named(e: Element): set<string> {
    if e.variable.Some? then {e.variable.value} else {}
  }

  predicate IsExactHop(r: RangeQuantifier) {
    r.upper == Some(if r.lower.Some? then r.lower.value else 1)
  }

  // The positions an unbounded path must not leave open.
  function Endpoints(d: RelDirection, k: nat): seq<nat> {
    match d
    case Right => [k + 1]
    case Left => if k > 0 then [k - 1] else []
    case Both => [k + 1] + if k > 0 then [k - 1] else []
  }

  predicate IsOpenNode(e: Element, bound: set<string>) {
    && e.Node?
    && e.labels == []
    && (e.props.None? || e.props.value == [])
    && (e.variable.None? || e.variable.value !in bound)
  }

  predicate HasOpenEnd(p: Pattern, k: nat, bound: set<string>)
    requires k < |p.elements| && p.elements[k].Rel?
  {
    var ends := Endpoints(p.elements[k].direction, k);
    exists i :: 0 <= i < |ends| && ends[i] < |p.elements| && IsOpenNode(p.elements[ends[i]], bound)
  }

  function RelReason(p: Pattern, k: nat, st: Scan): Option<Reason>
    requires k < |p.elements| && p.elements[k].Rel?
  {
    var r := p.elements[k];
    if r.range.Some? && r.props.Some? then Some(VarlenRelProps)
    else if r.range.Some? && r.variable.Some? then Some(VarlenNamedRelvar)
    else if p.variable.Some? && r.range.Some? && !IsExactHop(r.range.value) then Some(NamedPathVarlen)
    else if r.variable.Some? && st.seenWith && r.variable.value !in st.live then Some(RelvarAfterWith)
    else if r.range.Some? && r.range.value.upper.None? && HasOpenEnd(p, k, st.bound) then Some(UnboundedVarlenUnlabeled)
    else None
  }

  function ElementStep(p: Pattern, k: nat, st: Scan): Result<Scan, Reason>
    requires k < |p.elements|
  {
    var e := p.elements[k];
    if e.Node? then Ok(st.(bound := st.bound + Named(e)))
    else
      var reason := RelReason(p, k, st);
      if reason.Some? then Err(reason.value) else Ok(st.(live := st.live + Named(e)))
  }

  function ElementsFrom(p: Pattern, k: nat, st: Scan): Result<Scan, Reason>
    requires k <= |p.elements|
    decreases |p.elements| - k
  {
    if k == |p.elements| then Ok(st)
    else
      var st' :- ElementStep(p, k, st);
      ElementsFrom(p, k + 1, st')
  }

  function PatternsFrom(ps: seq<Pattern>, q: nat, st: Scan): Result<Scan, Reason>
    requires q <= |ps|
    decreases |ps| - q
  {
    if q == |ps| then Ok(st)
    else
      var st' :- ElementsFrom(ps[q], 0, st);
      PatternsFrom(ps, q + 1, st')
  }

  predicate IsRename(item: ReturnItem) {
    item.expression.Variable? && item.alias.Some? && item.alias.value != item.expression.name
  }

  predicate IsIdentity(item: ReturnItem, v: string) {
    item.expression == C.Variable(v) && (item.alias.None? || item.alias.value == v)
  }

  predicate Renames(items: seq<ReturnItem>) {
    exists k :: 0 <= k < |items| && IsRename(items[k])
  }

  predicate Passes(items: seq<ReturnItem>, v: string) {
    exists k :: 0 <= k < |items| && IsIdentity(items[k], v)
  }

  function ItemNames(items: seq<ReturnItem>): (names: set<string>)
    ensures forall name :: name in names <==> exists k :: 0 <= k < |items| && GoesBy(items[k], name)
  {
    hide UserAlias, GoesBy;
    NamesGoBy(items);
    set k | 0 <= k < |items| && UserAlias(items[k]).Some? :: UserAlias(items[k]).value
  }

  function WithStep(items: Items, st: Scan): Scan {
    if items.All? then st.(seenWith := true)
    else Scan(ItemNames(items.list), true, if Renames(items.list) then {} else set v | v in st.live && Passes(items.list, v))
  }

  function ClauseStep(c: Clause, st: Scan): Result<Scan, Reason> {
    match c
    case With(items) => Ok(WithStep(items, st))
    case Match(_, ps) => PatternsFrom(ps, 0, st)
    case _ => Ok(st)
  }

  function ClausesFrom(cs: seq<Clause>, i: nat, st: Scan): Result<Scan, Reason>
    requires i <= |cs|
    decreases |cs| - i
  {
    if i == |cs| then Ok(st)
    else
      var st' :- ClauseStep(cs[i], st);
      ClausesFrom(cs, i + 1, st')
  }

  const START := Scan({}, false, {})

  // ---------- Aggregates ----------

  // An aggregate other than COUNT, where the check looks for one: not inside lists or maps.
  predicate HasRealAggregate(e: C.Expression) {
    match e
    case Aggregate(k, _, _) => k != L.Count && k != L.CountStar
    case Arith(_, a, b) => HasRealAggregate(a) || HasRealAggregate(b)
    case And(a, b) => HasRealAggregate(a) || HasRealAggregate(b)
    case Or(a, b) => HasRealAggregate(a) || HasRealAggregate(b)
    case Xor(a, b) => HasRealAggregate(a) || HasRealAggregate(b)
    case Comparison(a, _, b) => HasRealAggregate(a) || HasRealAggregate(b)
    case Subscript(a, b) => HasRealAggregate(a) || HasRealAggregate(b)
    case Not(a) => HasRealAggregate(a)
    case Negate(a) => HasRealAggregate(a)
    case IsNull(a) => HasRealAggregate(a)
    case IsNotNull(a) => HasRealAggregate(a)
    case Property(a, _) => HasRealAggregate(a)
    case FunctionCall(_, _, args) => exists i :: 0 <= i < |args| && HasRealAggregate(args[i])
    case CaseExpression(operand, whens, otherwise) =>
      || (operand.Some? && HasRealAggregate(operand.value))
      || (exists i :: 0 <= i < |whens| && (HasRealAggregate(whens[i].cond) || HasRealAggregate(whens[i].result)))
      || (otherwise.Some? && HasRealAggregate(otherwise.value))
    case ListComprehension(_, list, filter, projection) =>
      || HasRealAggregate(list)
      || (filter.Some? && HasRealAggregate(filter.value))
      || (projection.Some? && HasRealAggregate(projection.value))
    case _ => false
  }

  predicate HasNamedPath(c: Clause) {
    c.Match? && exists q :: 0 <= q < |c.patterns| && c.patterns[q].variable.Some?
  }

  predicate Aggregates(c: Clause) {
    && (c.With? || c.Return?)
    && c.items.Explicit?
    && exists k :: 0 <= k < |c.items.list| && HasRealAggregate(c.items.list[k].expression)
  }

  // ---------- The method ----------

  ghost function SafeReason(cs: seq<Clause>): Option<Reason> {
    if exists i :: 0 <= i < |cs| && ClauseDuplicates(cs[i]) then Some(DuplicateAlias)
    else if !GoodShape(cs) then Some(ClauseShape)
    else
      match ClausesFrom(cs, 0, START)
      case Err(reason) => Some(reason)
      case Ok(_) =>
        if (exists i :: 0 <= i < |cs| && HasNamedPath(cs[i])) && (exists i :: 0 <= i < |cs| && Aggregates(cs[i])) then Some(NamedPathWithRealAgg)
        else None
  }

  method LqaSafeReason(cs: seq<Clause>) returns (r: Option<Reason>)
    ensures r == SafeReason(cs)
  {
    hide ClausesFrom, HasNamedPath, Aggregates, HasDuplicate;
    var kinds: seq<Kind> := [];
    for i := 0 to |cs|
      invariant forall k :: 0 <= k < i ==> !ClauseDuplicates(cs[k])
      invariant i > 0 ==> kinds != [] && kinds[|kinds| - 1] == Kinds(cs[i - 1])[|Kinds(cs[i - 1])| - 1]
      invariant i == 0 ==> kinds == []
      invariant KWrite in kinds <==> exists k :: 0 <= k < i && cs[k].Write?
    {
      kinds := kinds + Kinds(cs[i]);
      if cs[i].With? || cs[i].Return? {
        var duplicate := FindDuplicate(cs[i].items);
        if duplicate {
          return Some(DuplicateAlias);
        }
      }
    }
    var last := if kinds == [] then None else Some(kinds[|kinds| - 1]);
    if KWrite !in kinds {
      if last != Some(KReturn) {
        return Some(ClauseShape);
      }
    } else {
      if last != Some(KWrite) && last != Some(KReturn) {
        return Some(ClauseShape);
      }
    }
    var scan := ScanClauses(cs);
    if scan.Err? {
      return Some(scan.error);
    }
    var hasNamedPath := exists i :: 0 <= i < |cs| && HasNamedPath(cs[i]);
    if hasNamedPath {
      var hasRealAgg := exists i :: 0 <= i < |cs| && Aggregates(cs[i]);
      if hasRealAgg {
        return Some(NamedPathWithRealAgg);
      }
    }
    return None;
  }

  method ScanClauses(cs: seq<Clause>) returns (r: Result<Scan, Reason>)
    ensures r == ClausesFrom(cs, 0, START)
  {
    hide PatternsFrom;
    var bound: set<string>, seenWith, live: set<string> := {}, false, {};
    for i := 0 to |cs|
      invariant ClausesFrom(cs, 0, START) == ClausesFrom(cs, i, Scan(bound, seenWith, live))
    {
      match cs[i] {
        case With(items) =>
          seenWith := true;
          if items.Explicit? {
            live := if Renames(items.list) then {} else set v | v in live && Passes(items.list, v);
            bound := ItemNames(items.list);
          }
        case Match(_, ps) =>
          var st := ScanPatterns(ps, Scan(bound, seenWith, live));
          if st.Err? {
            return st;
          }
          bound, seenWith, live := st.value.bound, st.value.seenWith, st.value.live;
        case _ =>
      }
    }
    return Ok(Scan(bound, seenWith, live));
  }

  method ScanPatterns(ps: seq<Pattern>, start: Scan) returns (r: Result<Scan, Reason>)
    ensures r == PatternsFrom(ps, 0, start)
  {
    hide RelReason;
    var st := start;
    for q := 0 to |ps|
      invariant PatternsFrom(ps, 0, start) == PatternsFrom(ps, q, st)
    {
      ghost var before := st;
      for k := 0 to |ps[q].elements|
        invariant ElementsFrom(ps[q], 0, before) == ElementsFrom(ps[q], k, st)
      {
        var e := ps[q].elements[k];
        if e.Node? {
          st := st.(bound := st.bound + Named(e));
        } else {
          var reason := RelReason(ps[q], k, st);
          if reason.Some? {
            return Err(reason.value);
          }
          st := st.(live := st.live + Named(e));
        }
      }
    }
    return Ok(st);
  }

  // ---------- What the scan decides ----------

  predicate OccursIn(c: Clause, v: string) {
    c.Match? && exists q, k :: 0 <= q < |c.patterns| && 0 <= k < |c.patterns[q].elements|
                               && c.patterns[q].elements[k].Rel? && c.patterns[q].elements[k].variable == Some(v)
  }

  // v is listed, by its own name.
  predicate Lists(items: seq<ReturnItem>, v: string) {
    exists k :: 0 <= k < |items| && items[k].expression == C.Variable(v) && items[k].alias in {None, Some(v)}
  }

  // Some variable is listed under another name.
  predicate HasOtherName(items: seq<ReturnItem>) {
    exists k :: 0 <= k < |items| && items[k].expression.Variable? && items[k].alias !in {None, Some(items[k].expression.name)}
  }

  // A WITH that gives a variable another name, or does not list v, ends the life of v;
  // WITH * ends none.
  predicate Keeps(c: Clause, v: string) {
    match c
    case With(Explicit(list)) => !HasOtherName(list) && Lists(list, v)
    case _ => true
  }

  // v occurred in a MATCH among the first n clauses, and every explicit WITH since then
  // passed it on unchanged and renamed nothing.
  ghost predicate Survives(cs: seq<Clause>, n: nat, v: string)
    requires n <= |cs|
  {
    exists i :: 0 <= i < n && OccursIn(cs[i], v) && forall j :: i < j < n ==> Keeps(cs[j], v)
  }

  predicate AfterWith(cs: seq<Clause>, n: nat)
    requires n <= |cs|
  {
    exists i :: 0 <= i < n && cs[i].With?
  }

  // The named nodes of the pattern at positions from a up to b.
  function NodeVars(p: Pattern, a: nat, b: nat): set<string>
    requires a <= b <= |p.elements|
  {
    set k | a <= k < b && p.elements[k].Node? && p.elements[k].variable.Some? :: p.elements[k].variable.value
  }

  function RelVars(p: Pattern, a: nat, b: nat): set<string>
    requires a <= b <= |p.elements|
  {
    set k | a <= k < b && p.elements[k].Rel? && p.elements[k].variable.Some? :: p.elements[k].variable.value
  }

  function AllNodeVars(ps: seq<Pattern>, q: nat): set<string>
    requires q <= |ps|
  {
    if q == 0 then {} else AllNodeVars(ps, q - 1) + NodeVars(ps[q - 1], 0, |ps[q - 1].elements|)
  }

  function AllRelVars(ps: seq<Pattern>, q: nat): set<string>
    requires q <= |ps|
  {
    if q == 0 then {} else AllRelVars(ps, q - 1) + RelVars(ps[q - 1], 0, |ps[q - 1].elements|)
  }

  // The variables bound before clause n.
  function BoundBefore(cs: seq<Clause>, n: nat): set<string>
    requires n <= |cs|
  {
    if n == 0 then {}
    else
      match cs[n - 1]
      case Match(_, ps) => BoundBefore(cs, n - 1) + AllNodeVars(ps, |ps|)
      case With(items) => if items.Explicit? then ItemNames(items.list) else BoundBefore(cs, n - 1)
      case _ => BoundBefore(cs, n - 1)
  }

  // A node that says something of itself: a label, a property or the name of one bound.
  predicate IsPinned(e: Element, bound: set<string>)
    requires e.Node?
  {
    || e.labels != []
    || (e.props.Some? && |e.props.value| > 0)
    || (e.variable.Some? && e.variable.value in bound)
  }

  // There is no node at position i, or it is pinned.
  predicate PinnedAt(p: Pattern, i: int, bound: set<string>) {
    0 <= i < |p.elements| && p.elements[i].Node? ==> IsPinned(p.elements[i], bound)
  }

  // A relationship of more than one step has no properties and no name; in a named path its
  // length is fixed; and without an upper bound the node it points to is pinned, both nodes
  // when it points nowhere.
  predicate GoodRel(p: Pattern, k: nat, bound: set<string>)
    requires k < |p.elements| && p.elements[k].Rel?
  {
    var r := p.elements[k];
    match r.range
    case None => true
    case Some(RangeQuantifier(lower, upper)) =>
      && r.props.None?
      && r.variable.None?
      && (p.variable.Some? ==> upper == (if lower.None? then Some(1) else lower))
      && (upper.None? && r.direction != Left ==> PinnedAt(p, k + 1, bound))
      && (upper.None? && r.direction != Right ==> PinnedAt(p, k - 1, bound))
  }

  lemma OpenEndIff(p: Pattern, k: nat, bound: set<string>)
    requires k < |p.elements| && p.elements[k].Rel?
    ensures !HasOpenEnd(p, k, bound)
       <==> && (p.elements[k].direction != Left ==> PinnedAt(p, k + 1, bound))
            && (p.elements[k].direction != Right ==> PinnedAt(p, k - 1, bound))
  {
    var ends := Endpoints(p.elements[k].direction, k);
    forall i: nat
      ensures i < |p.elements| ==> (IsOpenNode(p.elements[i], bound) <==> !PinnedAt(p, i, bound))
    {
    }
    match p.elements[k].direction {
      case Right => assert ends[0] == k + 1;
      case Left => assert k > 0 ==> ends[0] == k - 1;
      case Both => assert ends[0] == k + 1 && (k > 0 ==> ends[1] == k - 1);
    }
  }

  // Which reason a relationship is refused for: what is said first below is reported.
  lemma RelReasonIs(p: Pattern, k: nat, st: Scan)
    requires k < |p.elements| && p.elements[k].Rel?
    ensures var Rel(variable, direction, _, props, range) := p.elements[k];
            var pinned := (direction != Left ==> PinnedAt(p, k + 1, st.bound)) && (direction != Right ==> PinnedAt(p, k - 1, st.bound));
            RelReason(p, k, st) ==
            match (range, props, variable)
            case (None, _, Some(v)) => if st.seenWith && v !in st.live then Some(RelvarAfterWith) else None
            case (None, _, None) => None
            case (Some(_), Some(_), _) => Some(VarlenRelProps)
            case (Some(_), None, Some(_)) => Some(VarlenNamedRelvar)
            case (Some(r), None, None) =>
              if p.variable.Some? && r.upper != (if r.lower.None? then Some(1) else r.lower) then Some(NamedPathVarlen)
              else if r.upper.None? && !pinned then Some(UnboundedVarlenUnlabeled)
              else None
  {
    hide HasOpenEnd, PinnedAt;
    OpenEndIff(p, k, st.bound);
  }

  predicate Fine(p: Pattern, k: nat, bound: set<string>, seenWith: bool, live: set<string>)
    requires k < |p.elements|
  {
    var e := p.elements[k];
    e.Rel? ==> GoodRel(p, k, bound) && (seenWith && e.variable.Some? ==> e.variable.value in live)
  }

  // Element l, reached with these variables bound at element k.
  predicate FineAt(p: Pattern, k: nat, l: nat, bound: set<string>, seenWith: bool, live: set<string>)
    requires k <= l < |p.elements|
  {
    Fine(p, l, bound + NodeVars(p, k, l), seenWith, live)
  }

  predicate FineFrom(p: Pattern, k: nat, bound: set<string>, seenWith: bool, live: set<string>)
    requires k <= |p.elements|
  {
    forall l :: k <= l < |p.elements| ==> FineAt(p, k, l, bound, seenWith, live)
  }

  lemma VarsAfter(p: Pattern, k: nat, l: nat)
    requires k < l <= |p.elements|
    ensures NodeVars(p, k, l) == (if p.elements[k].Node? then Named(p.elements[k]) else {}) + NodeVars(p, k + 1, l)
    ensures RelVars(p, k, l) == (if p.elements[k].Rel? then Named(p.elements[k]) else {}) + RelVars(p, k + 1, l)
  {
  }

  lemma StepDecided(p: Pattern, k: nat, st: Scan)
    requires k < |p.elements|
    ensures ElementStep(p, k, st).Ok? <==> FineAt(p, k, k, st.bound, st.seenWith, st.live)
  {
    hide HasOpenEnd;
    assert st.bound + NodeVars(p, k, k) == st.bound;
    if p.elements[k].Rel? {
      OpenEndIff(p, k, st.bound);
    }
  }

  lemma TailAt(p: Pattern, k: nat, l: nat, st: Scan, st': Scan)
    requires k < l < |p.elements| && ElementStep(p, k, st) == Ok(st')
    ensures FineAt(p, k + 1, l, st'.bound, st'.seenWith, st'.live) <==> FineAt(p, k, l, st.bound, st.seenWith, st.live)
  {
    hide GoodRel, HasOpenEnd, NodeVars, RelVars;
    assert st.seenWith ==> st'.live == st.live;
    VarsAfter(p, k, l);
    assert st'.bound + NodeVars(p, k + 1, l) == st.bound + NodeVars(p, k, l);
  }

  lemma FineTail(p: Pattern, k: nat, st: Scan, st': Scan)
    requires k < |p.elements| && ElementStep(p, k, st) == Ok(st')
    ensures FineFrom(p, k, st.bound, st.seenWith, st.live) <==> FineFrom(p, k + 1, st'.bound, st'.seenWith, st'.live)
  {
    hide FineAt, ElementStep;
    StepDecided(p, k, st);
    var next := k + 1;
    forall l | k < l < |p.elements|
      ensures FineAt(p, next, l, st'.bound, st'.seenWith, st'.live) <==> FineAt(p, k, l, st.bound, st.seenWith, st.live)
    {
      TailAt(p, k, l, st, st');
    }
    assert FineFrom(p, next, st'.bound, st'.seenWith, st'.live)
      <==> forall l :: k < l < |p.elements| ==> FineAt(p, k, l, st.bound, st.seenWith, st.live);
  }

  lemma {:induction false} ElementsDecided(p: Pattern, k: nat, st: Scan)
    requires k <= |p.elements|
    ensures var n, r := |p.elements|, ElementsFrom(p, k, st);
            && (r.Ok? <==> FineFrom(p, k, st.bound, st.seenWith, st.live))
            && (r.Ok? ==> r.value == Scan(st.bound + NodeVars(p, k, n), st.seenWith, st.live + RelVars(p, k, n)))
    decreases |p.elements| - k
  {
    hide FineAt, RelReason, ElementStep;
    if k < |p.elements| {
      StepDecided(p, k, st);
      if ElementStep(p, k, st).Ok? {
        StepResult(p, k, st);
        var st' := ElementStep(p, k, st).value;
        FineTail(p, k, st, st');
        ElementsDecided(p, k + 1, st');
        VarsAfter(p, k, |p.elements|);
      }
    }
  }

  lemma StepResult(p: Pattern, k: nat, st: Scan)
    requires k < |p.elements| && ElementStep(p, k, st).Ok?
    ensures var e, r := p.elements[k], ElementStep(p, k, st).value;
            r == Scan(st.bound + (if e.Node? then Named(e) else {}), st.seenWith, st.live + (if e.Rel? then Named(e) else {}))
  {
    var e := p.elements[k];
    assert st.bound + {} == st.bound && st.live + {} == st.live;
  }

  predicate FinePattern(p: Pattern, bound: set<string>, seenWith: bool, live: set<string>) {
    FineFrom(p, 0, bound, seenWith, live)
  }

  lemma PatternDecided(p: Pattern, st: Scan, live: set<string>)
    requires st.seenWith ==> st.live == live
    ensures var n, r := |p.elements|, ElementsFrom(p, 0, st);
            && (r.Ok? <==> FinePattern(p, st.bound, st.seenWith, live))
            && (r.Ok? ==> r.value == Scan(st.bound + NodeVars(p, 0, n), st.seenWith, st.live + RelVars(p, 0, n)))
            && (r.Ok? && st.seenWith ==> RelVars(p, 0, n) <= live)
  {
    hide ElementsFrom;
    ElementsDecided(p, 0, st);
    if !st.seenWith {
      FineBeforeWith(p, st.bound, st.live, live);
    } else if ElementsFrom(p, 0, st).Ok? {
      RelVarsFine(p, st.bound, live);
    }
  }

  lemma {:induction false} PatternsDecided(ps: seq<Pattern>, q: nat, start: Scan, st: Scan)
    requires q <= |ps|
    requires st == Scan(start.bound + AllNodeVars(ps, q), start.seenWith, start.live + AllRelVars(ps, q))
    requires start.seenWith ==> st.live == start.live
    ensures var n, r := |ps|, PatternsFrom(ps, q, st);
            && (r.Ok? <==> forall l :: q <= l < n ==> FinePattern(ps[l], start.bound + AllNodeVars(ps, l), start.seenWith, start.live))
            && (r.Ok? ==> r.value == Scan(start.bound + AllNodeVars(ps, n), start.seenWith, start.live + AllRelVars(ps, n)))
    decreases |ps| - q
  {
    hide FinePattern, ElementsFrom;
    if q < |ps| {
      PatternDecided(ps[q], st, start.live);
      if ElementsFrom(ps[q], 0, st).Ok? {
        var st' := ElementsFrom(ps[q], 0, st).value;
        assert st'.bound == start.bound + AllNodeVars(ps, q + 1);
        assert st'.live == start.live + AllRelVars(ps, q + 1);
        PatternsDecided(ps, q + 1, start, st');
      }
    }
  }

  lemma FineBeforeWith(p: Pattern, bound: set<string>, live: set<string>, live': set<string>)
    ensures FinePattern(p, bound, false, live) <==> FinePattern(p, bound, false, live')
  {
    assert forall k :: 0 <= k < |p.elements| ==> (FineAt(p, 0, k, bound, false, live) <==> FineAt(p, 0, k, bound, false, live'));
  }

  lemma RelVarsFine(p: Pattern, bound: set<string>, live: set<string>)
    requires FinePattern(p, bound, true, live)
    ensures RelVars(p, 0, |p.elements|) <= live
  {
    forall k | 0 <= k < |p.elements| && p.elements[k].Rel? && p.elements[k].variable.Some?
      ensures p.elements[k].variable.value in live
    {
      assert FineAt(p, 0, k, bound, true, live);
    }
  }

  // ---------- The state of the scan, said outright ----------

  ghost predicate IsStateBefore(st: Scan, cs: seq<Clause>, n: nat)
    requires n <= |cs|
  {
    && st.bound == BoundBefore(cs, n)
    && (st.seenWith <==> AfterWith(cs, n))
    && forall v :: v in st.live <==> Survives(cs, n, v)
  }

  // Every relationship of the MATCH clauses is acceptable; those named after a WITH
  // have survived up to their clause.
  ghost predicate GoodMatch(cs: seq<Clause>, i: nat)
    requires i < |cs| && cs[i].Match?
  {
    var ps := cs[i].patterns;
    && (forall q, k :: 0 <= q < |ps| && 0 <= k < |ps[q].elements| && ps[q].elements[k].Rel? ==>
          GoodRel(ps[q], k, BoundBefore(cs, i) + AllNodeVars(ps, q) + NodeVars(ps[q], 0, k)))
    && (AfterWith(cs, i) ==> forall v :: OccursIn(cs[i], v) ==> Survives(cs, i, v))
  }

  lemma {:induction false} AllRelVarsOccur(ps: seq<Pattern>, q: nat, v: string)
    requires q <= |ps|
    ensures v in AllRelVars(ps, q)
       <==> exists r, k :: 0 <= r < q && 0 <= k < |ps[r].elements| && ps[r].elements[k].Rel? && ps[r].elements[k].variable == Some(v)
  {
    if q > 0 {
      AllRelVarsOccur(ps, q - 1, v);
    }
  }

  lemma SurvivesNext(cs: seq<Clause>, n: nat, v: string)
    requires n < |cs|
    ensures Survives(cs, n + 1, v) <==> OccursIn(cs[n], v) || (Survives(cs, n, v) && Keeps(cs[n], v))
  {
    if Survives(cs, n + 1, v) {
      var i :| 0 <= i < n + 1 && OccursIn(cs[i], v) && forall j :: i < j < n + 1 ==> Keeps(cs[j], v);
      assert i == n || Survives(cs, n, v);
    }
    if Survives(cs, n, v) && Keeps(cs[n], v) {
      var i :| 0 <= i < n && OccursIn(cs[i], v) && forall j :: i < j < n ==> Keeps(cs[j], v);
      assert forall j :: i < j < n + 1 ==> Keeps(cs[j], v);
    }
  }

  lemma OnlyMatchesOccur(c: Clause, v: string)
    ensures OccursIn(c, v) ==> c.Match?
  {
  }

  lemma AfterWithNext(cs: seq<Clause>, n: nat)
    requires n < |cs|
    ensures AfterWith(cs, n + 1) <==> AfterWith(cs, n) || cs[n].With?
  {
  }

  lemma PassingIsKeeping(items: seq<ReturnItem>, st: Scan)
    ensures forall v :: Keeps(With(Explicit(items)), v) <==> !Renames(items) && Passes(items, v)
    ensures forall v :: v in WithStep(Explicit(items), st).live <==> v in st.live && Keeps(With(Explicit(items)), v)
  {
    hide IsRename, IsIdentity;
    forall k | 0 <= k < |items|
      ensures IsRename(items[k]) <==> items[k].expression.Variable? && items[k].alias !in {None, Some(items[k].expression.name)}
    {
      NamesOfItem(items[k], "");
    }
    forall k, v | 0 <= k < |items|
      ensures IsIdentity(items[k], v) <==> items[k].expression == C.Variable(v) && items[k].alias in {None, Some(v)}
    {
      NamesOfItem(items[k], v);
    }
  }

  lemma NamesOfItem(item: ReturnItem, v: string)
    ensures IsRename(item) <==> item.expression.Variable? && item.alias !in {None, Some(item.expression.name)}
    ensures IsIdentity(item, v) <==> item.expression == C.Variable(v) && item.alias in {None, Some(v)}
  {
    match item.alias {
      case Some(a) => assert item.alias in {None, Some(v)} <==> a == v;
      case None => assert item.alias in {None, Some(v)};
    }
  }

  // One clause more keeps the state equal to its declarative reading: in particular the
  // live variables are exactly those that survive.
  lemma StateAfterClause(cs: seq<Clause>, n: nat, st: Scan)
    requires n < |cs| && IsStateBefore(st, cs, n)
    ensures ClauseStep(cs[n], st).Ok? <==> (cs[n].Match? ==> GoodMatch(cs, n))
    ensures ClauseStep(cs[n], st).Ok? ==> IsStateBefore(ClauseStep(cs[n], st).value, cs, n + 1)
  {
    hide GoodRel, ItemNames, Survives, AfterWith, Renames, Passes, HasOtherName, Lists, PatternsFrom, GoodMatch, OccursIn;
    var c := cs[n];
    forall v
      ensures Survives(cs, n + 1, v) <==> OccursIn(c, v) || (Survives(cs, n, v) && Keeps(c, v))
      ensures !c.Match? ==> !OccursIn(c, v)
    {
      SurvivesNext(cs, n, v);
      OnlyMatchesOccur(c, v);
    }
    AfterWithNext(cs, n);
    if c.Match? {
      MatchDecided(cs, n, st);
    } else if c.With? && c.items.Explicit? {
      PassingIsKeeping(c.items.list, st);
      assert c == With(Explicit(c.items.list));
      assert BoundBefore(cs, n + 1) == ItemNames(c.items.list);
    }
  }

  lemma MatchDecided(cs: seq<Clause>, n: nat, st: Scan)
    requires n < |cs| && IsStateBefore(st, cs, n) && cs[n].Match?
    ensures ClauseStep(cs[n], st).Ok? <==> GoodMatch(cs, n)
    ensures var ps := cs[n].patterns;
            && (ClauseStep(cs[n], st).Ok? ==> ClauseStep(cs[n], st).value == Scan(st.bound + AllNodeVars(ps, |ps|), st.seenWith, st.live + AllRelVars(ps, |ps|)))
            && forall v :: v in AllRelVars(ps, |ps|) <==> OccursIn(cs[n], v)
  {
    hide GoodRel, Survives, AfterWith;
    var ps := cs[n].patterns;
    PatternsDecided(ps, 0, st, st);
    forall v
      ensures v in AllRelVars(ps, |ps|) <==> OccursIn(cs[n], v)
    {
      AllRelVarsOccur(ps, |ps|, v);
    }
    FinePatternsAre(cs, n, st);
  }

  lemma FinePatternsAre(cs: seq<Clause>, n: nat, st: Scan)
    requires n < |cs| && IsStateBefore(st, cs, n) && cs[n].Match?
    ensures var ps := cs[n].patterns;
            (forall q :: 0 <= q < |ps| ==> FinePattern(ps[q], st.bound + AllNodeVars(ps, q), st.seenWith, st.live)) <==> GoodMatch(cs, n)
  {
    hide GoodRel, Survives, AfterWith, BoundBefore;
    var ps := cs[n].patterns;
    if forall q :: 0 <= q < |ps| ==> FinePattern(ps[q], st.bound + AllNodeVars(ps, q), st.seenWith, st.live) {
      forall q, k | 0 <= q < |ps| && 0 <= k < |ps[q].elements| && ps[q].elements[k].Rel?
        ensures GoodRel(ps[q], k, st.bound + AllNodeVars(ps, q) + NodeVars(ps[q], 0, k))
        ensures st.seenWith && ps[q].elements[k].variable.Some? ==> ps[q].elements[k].variable.value in st.live
      {
        assert FineAt(ps[q], 0, k, st.bound + AllNodeVars(ps, q), st.seenWith, st.live);
      }
    }
    if GoodMatch(cs, n) {
      forall q, k | 0 <= q < |ps| && 0 <= k < |ps[q].elements|
        ensures FineAt(ps[q], 0, k, st.bound + AllNodeVars(ps, q), st.seenWith, st.live)
      {
        if ps[q].elements[k].Rel? && st.seenWith && ps[q].elements[k].variable.Some? {
          assert OccursIn(cs[n], ps[q].elements[k].variable.value);
        }
      }
    }
  }

  lemma {:induction false} ClausesDecided(cs: seq<Clause>, n: nat, st: Scan)
    requires n <= |cs| && IsStateBefore(st, cs, n)
    ensures ClausesFrom(cs, n, st).Ok? <==> forall i :: n <= i < |cs| && cs[i].Match? ==> GoodMatch(cs, i)
    ensures ClausesFrom(cs, n, st).Ok? ==> IsStateBefore(ClausesFrom(cs, n, st).value, cs, |cs|)
    decreases |cs| - n
  {
    hide GoodMatch, IsStateBefore, ClauseStep;
    if n < |cs| {
      StateAfterClause(cs, n, st);
      if ClauseStep(cs[n], st).Ok? {
        ClausesDecided(cs, n + 1, ClauseStep(cs[n], st).value);
      }
    }
  }

  // ---------- Where aggregates are looked for ----------

  // The parts of an expression where an aggregate is looked for: not those of lists and
  // maps, nor of an aggregate itself.
  function Parts(e: C.Expression): (parts: set<C.Expression>)
    ensures forall x :: x in parts ==> (e decreases to x)
  {
    match e
    case Property(a, _) => {a}
    case Negate(a) => {a}
    case Not(a) => {a}
    case IsNull(a) => {a}
    case IsNotNull(a) => {a}
    case Arith(_, a, b) => {a, b}
    case Or(a, b) => {a, b}
    case Xor(a, b) => {a, b}
    case And(a, b) => {a, b}
    case Comparison(a, _, b) => {a, b}
    case Subscript(a, b) => {a, b}
    case FunctionCall(_, _, args) => set x | x in args
    case CaseExpression(o, ws, d) => OptPart(o) + WhenParts(ws) + OptPart(d)
    case ListComprehension(_, l, f, j) => {l} + OptPart(f) + OptPart(j)
    case _ => {}
  }

  function OptPart(e: Option<C.Expression>): set<C.Expression> {
    if e.Some? then {e.value} else {}
  }

  function WhenParts(ws: seq<C.Branch>): (parts: set<C.Expression>)
    ensures forall x :: x in parts <==> exists i :: 0 <= i < |ws| && (x == ws[i].cond || x == ws[i].result)
    ensures forall x :: x in parts ==> (ws decreases to x)
  {
    if ws == [] then {}
    else
      assert ws decreases to ws[0];
      assert forall i :: 0 < i < |ws| ==> ws[i] == ws[1..][i - 1];
      {ws[0].cond, ws[0].result} + WhenParts(ws[1..])
  }

  ghost predicate IsWithin(a: C.Expression, e: C.Expression) {
    a == e || exists x :: x in Parts(e) && IsWithin(a, x)
  }

  // An aggregate that yields something else than a count.
  predicate IsReal(a: C.Expression) {
    a.Aggregate? && a.kind in {L.Sum, L.Avg, L.Min, L.Max, L.Collect}
  }

  ghost predicate HasReal(e: C.Expression) {
    exists a :: IsReal(a) && IsWithin(a, e)
  }

  lemma HasRealStep(e: C.Expression)
    ensures HasReal(e) <==> IsReal(e) || exists x :: x in Parts(e) && HasReal(x)
  {
    forall a | IsReal(a) && IsWithin(a, e) && a != e
      ensures exists x :: x in Parts(e) && HasReal(x)
    {
      var x :| x in Parts(e) && IsWithin(a, x);
    }
    if x :| x in Parts(e) && HasReal(x) {
      var a :| IsReal(a) && IsWithin(a, x);
      assert IsWithin(a, e);
    }
    if IsReal(e) {
      assert IsWithin(e, e);
    }
  }

  // The traversal finds an aggregate exactly where there is one.
  lemma {:induction false} RealAggregateIff(e: C.Expression)
    ensures HasRealAggregate(e) <==> HasReal(e)
  {
    hide HasReal, HasRealAggregate;
    HasRealStep(e);
    LookedFor(e);
    forall x | x in Parts(e)
      ensures HasRealAggregate(x) <==> HasReal(x)
    {
      RealAggregateIff(x);
    }
  }

  lemma LookedFor(e: C.Expression)
    ensures HasRealAggregate(e) <==> IsReal(e) || exists x :: x in Parts(e) && HasRealAggregate(x)
  {
    match e {
      case CaseExpression(o, ws, d) => LookedForInCase(e, o, ws, d);
      case FunctionCall(_, _, args) =>
        assert forall i :: 0 <= i < |args| ==> args[i] in Parts(e);
      case ListComprehension(_, l, f, j) =>
        assert l in Parts(e) && (f.Some? ==> f.value in Parts(e)) && (j.Some? ==> j.value in Parts(e));
      case Property(a, _) => assert a in Parts(e);
      case _ => BinaryLookedFor(e);
    }
  }

  lemma BinaryLookedFor(e: C.Expression)
    requires !e.CaseExpression? && !e.FunctionCall? && !e.ListComprehension? && !e.Property?
    ensures HasRealAggregate(e) <==> IsReal(e) || exists x :: x in Parts(e) && HasRealAggregate(x)
  {
    match e {
      case Negate(a) => assert a in Parts(e);
      case Not(a) => assert a in Parts(e);
      case IsNull(a) => assert a in Parts(e);
      case IsNotNull(a) => assert a in Parts(e);
      case Arith(_, a, b) => assert a in Parts(e) && b in Parts(e);
      case Or(a, b) => assert a in Parts(e) && b in Parts(e);
      case Xor(a, b) => assert a in Parts(e) && b in Parts(e);
      case And(a, b) => assert a in Parts(e) && b in Parts(e);
      case Comparison(a, _, b) => assert a in Parts(e) && b in Parts(e);
      case Subscript(a, b) => assert a in Parts(e) && b in Parts(e);
      case _ =>
    }
  }

  lemma LookedForInCase(e: C.Expression, o: Option<C.Expression>, ws: seq<C.Branch>, d: Option<C.Expression>)
    requires e == C.CaseExpression(o, ws, d)
    ensures HasRealAggregate(e) <==> exists x :: x in Parts(e) && HasRealAggregate(x)
  {
    hide HasRealAggregate, Parts, WhenParts, OptPart;
    CaseLooks(e, o, ws, d);
    CaseParts(e, o, ws, d);
    assert forall i :: 0 <= i < |ws| ==> ws[i].cond in WhenParts(ws) && ws[i].result in WhenParts(ws);
  }

  lemma CaseParts(e: C.Expression, o: Option<C.Expression>, ws: seq<C.Branch>, d: Option<C.Expression>)
    requires e == C.CaseExpression(o, ws, d)
    ensures forall x :: x in Parts(e) <==> o == Some(x) || x in WhenParts(ws) || d == Some(x)
  {
    hide WhenParts;
  }

  lemma CaseLooks(e: C.Expression, o: Option<C.Expression>, ws: seq<C.Branch>, d: Option<C.Expression>)
    requires e == C.CaseExpression(o, ws, d)
    ensures HasRealAggregate(e)
       <==> || (o.Some? && HasRealAggregate(o.value))
            || (exists i :: 0 <= i < |ws| && (HasRealAggregate(ws[i].cond) || HasRealAggregate(ws[i].result)))
            || (d.Some? && HasRealAggregate(d.value))
  {
  }

  // ---------- The decision ----------

  // What is returned, or passed on by WITH, under the names of the items.
  function ItemsOf(c: Clause): seq<ReturnItem> {
    match c
    case With(Explicit(list)) => list
    case Return(Explicit(list)) => list
    case _ => []
  }

  lemma ClauseReads(c: Clause)
    ensures ClauseDuplicates(c) <==> exists i, j, name :: 0 <= i < j < |ItemsOf(c)| && GoesBy(ItemsOf(c)[i], name) && GoesBy(ItemsOf(c)[j], name)
    ensures Aggregates(c) <==> exists k :: 0 <= k < |ItemsOf(c)| && HasReal(ItemsOf(c)[k].expression)
  {
    hide GoesBy, HasReal, HasRealAggregate;
    var list := ItemsOf(c);
    if c.With? || c.Return? {
      assert c.items.Explicit? ==> list == c.items.list;
    }
    forall k | 0 <= k < |list|
      ensures HasRealAggregate(list[k].expression) <==> HasReal(list[k].expression)
    {
      RealAggregateIff(list[k].expression);
    }
  }

  lemma {:induction false} ScanReasons(p: Pattern, k: nat, st: Scan)
    requires k <= |p.elements| && ElementsFrom(p, k, st).Err?
    ensures ElementsFrom(p, k, st).error in SCAN_REASONS
    decreases |p.elements| - k
  {
    if ElementStep(p, k, st).Ok? {
      ScanReasons(p, k + 1, ElementStep(p, k, st).value);
    }
  }

  const SCAN_REASONS := {VarlenRelProps, VarlenNamedRelvar, NamedPathVarlen, RelvarAfterWith, UnboundedVarlenUnlabeled}

  lemma {:induction false} PatternReasons(ps: seq<Pattern>, q: nat, st: Scan)
    requires q <= |ps| && PatternsFrom(ps, q, st).Err?
    ensures PatternsFrom(ps, q, st).error in SCAN_REASONS
    decreases |ps| - q
  {
    hide ElementsFrom;
    if ElementsFrom(ps[q], 0, st).Ok? {
      PatternReasons(ps, q + 1, ElementsFrom(ps[q], 0, st).value);
    } else {
      ScanReasons(ps[q], 0, st);
    }
  }

  lemma {:induction false} ClauseReasons(cs: seq<Clause>, n: nat, st: Scan)
    requires n <= |cs| && ClausesFrom(cs, n, st).Err?
    ensures ClausesFrom(cs, n, st).error in SCAN_REASONS
    decreases |cs| - n
  {
    hide PatternsFrom, WithStep;
    if ClauseStep(cs[n], st).Ok? {
      ClauseReasons(cs, n + 1, ClauseStep(cs[n], st).value);
    } else {
      PatternReasons(cs[n].patterns, 0, st);
    }
  }

  ghost predicate HasDuplicates(cs: seq<Clause>) {
    exists n, i, j, name :: 0 <= n < |cs| && 0 <= i < j < |ItemsOf(cs[n])| && GoesBy(ItemsOf(cs[n])[i], name) && GoesBy(ItemsOf(cs[n])[j], name)
  }

  predicate EndsWell(cs: seq<Clause>) {
    cs != [] && (cs[|cs| - 1].Return? || cs[|cs| - 1].Write?)
  }

  ghost predicate AllGood(cs: seq<Clause>) {
    forall i :: 0 <= i < |cs| && cs[i].Match? ==> GoodMatch(cs, i)
  }

  ghost predicate AggregatesNamedPath(cs: seq<Clause>) {
    && (exists i, q :: 0 <= i < |cs| && cs[i].Match? && 0 <= q < |cs[i].patterns| && cs[i].patterns[q].variable.Some?)
    && (exists i, k :: 0 <= i < |cs| && 0 <= k < |ItemsOf(cs[i])| && HasReal(ItemsOf(cs[i])[k].expression))
  }

  // A query takes the algebra path exactly when no two items of a clause go by one name, it
  // ends in RETURN or a write, its relationships are acceptable where they stand, every one
  // named after a WITH has survived until then, and it does not both match a named path and
  // aggregate.  The first and the last of these have reasons of their own, which the caller
  // treats apart.
  lemma SafeIff(cs: seq<Clause>)
    ensures SafeReason(cs).None?
       <==> !HasDuplicates(cs) && EndsWell(cs) && AllGood(cs) && !AggregatesNamedPath(cs)
    ensures SafeReason(cs) == Some(DuplicateAlias) <==> HasDuplicates(cs)
    ensures SafeReason(cs) == Some(ClauseShape) <==> !HasDuplicates(cs) && !EndsWell(cs)
    ensures SafeReason(cs) == Some(NamedPathWithRealAgg) <==> !HasDuplicates(cs) && EndsWell(cs) && AllGood(cs) && AggregatesNamedPath(cs)
  {
    hide GoodMatch, ClausesFrom, HasReal, HasRealAggregate, GoesBy;
    assert IsStateBefore(START, cs, 0);
    ClausesDecided(cs, 0, START);
    if ClausesFrom(cs, 0, START).Err? {
      ClauseReasons(cs, 0, START);
    }
    forall n | 0 <= n < |cs|
      ensures ClauseDuplicates(cs[n])
         <==> exists i, j, name :: 0 <= i < j < |ItemsOf(cs[n])| && GoesBy(ItemsOf(cs[n])[i], name) && GoesBy(ItemsOf(cs[n])[j], name)
      ensures Aggregates(cs[n]) <==> exists k :: 0 <= k < |ItemsOf(cs[n])| && HasReal(ItemsOf(cs[n])[k].expression)
    {
      ClauseReads(cs[n]);
    }
  }
}
