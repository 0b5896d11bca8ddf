/** What a clean mangle audit guarantees about packets: which mark bits move, and that every walk ends. */
module PacketWalk {
  import opened Common
  import opened Text
  import opened MarkAudit
  import opened MangleAudit

  datatype Frame = Frame(chain: string, pc: nat)

  datatype Walk = Walk(frames: seq<Frame>, marks: Marks)

  function Caller(frames: seq<Frame>): seq<Frame>
    requires frames != []
  {
    frames[..|frames| - 1]
  }

  function TargetName(rule: Rule): string {
    match Target(rule)
    case Named(name) => name
    case _ => ""
  }

  /** Where a matching rule may continue: into its chain (jump or goto), or on, back, or to a verdict. */
  ghost predicate Continues(g: Listing, rule: Rule, rest: seq<Frame>, next: Frame, frames: seq<Frame>) {
    if Target(rule).Named? && Target(rule).name in g.declared then
      var callee := Frame(Target(rule).name, 0);
      frames == rest + [next] + [callee] || frames == rest + [callee]
    else
      frames == rest + [next] || frames == rest || frames == []
  }

  /** A jump into a declared chain leaves the marks; any other target acts on them at once. */
  function RuleEffect(g: Listing, rule: Rule, m: Marks): Marks {
    if TargetName(rule) in g.declared then m else RunRule(rule, TargetName(rule), |rule|, m)
  }

  /** One step of a packet through the listing; `ran` is the rule that matched, if one did. */
  ghost predicate Step(g: Listing, w: Walk, ran: Option<Rule>, w': Walk) {
    && w.frames != []
    && var top := w.frames[|w.frames| - 1];
       var rules := g.RulesAt(top.chain);
       if top.pc >= |rules| then
         w' == w.(frames := Caller(w.frames)) && ran == None
       else
         var next := Frame(top.chain, top.pc + 1);
         match ran
         case None => w' == w.(frames := Caller(w.frames) + [next])
         case Some(rule) =>
           && rule == rules[top.pc]
           && Continues(g, rule, Caller(w.frames), next, w'.frames)
           && w'.marks == RuleEffect(g, rule, w.marks)
  }

  ghost predicate Run(g: Listing, walks: seq<Walk>, rans: seq<Option<Rule>>) {
    && |walks| == |rans| + 1
    && walks[0].frames == [Frame(OUTPUT, 0)]
    && (forall i | 0 <= i < |rans| :: Step(g, walks[i], rans[i], walks[i + 1]))
  }

  // ----- walks stay on paths from OUTPUT -----------------------------------------------------------

  /** A path from OUTPUT of `depth` chains ends at `chain`. */
  ghost predicate AtDepth(g: Listing, chain: string, depth: nat) {
    exists p :: PathFromOutput(g, p) && |p| == depth && p[|p| - 1] == chain
  }

  ghost predicate Placed(g: Listing, frames: seq<Frame>, depths: seq<nat>) {
    |depths| == |frames| && forall i | 0 <= i < |frames| :: AtDepth(g, frames[i].chain, depths[i])
  }

  lemma DeeperByEdge(g: Listing, from: string, to: string, depth: nat)
    requires AtDepth(g, from, depth) && Edge(g, from, to)
    ensures AtDepth(g, to, depth + 1)
  {
    var p :| PathFromOutput(g, p) && |p| == depth && p[|p| - 1] == from;
    PathExtends(g, p, to);
    assert (p + [to])[|p|] == to;
  }

  lemma DepthBound(g: Listing, chain: string, depth: nat)
    requires Acyclic(g) && AtDepth(g, chain, depth)
    ensures 1 <= depth <= |Universe(g)|
  {
    var p :| PathFromOutput(g, p) && |p| == depth && p[|p| - 1] == chain;
    forall i | 0 <= i < |p|
      ensures p[i] in Universe(g)
    {
      if i > 0 { assert Edge(g, p[i - 1], p[i]); }
    }
    DistinctFits(p, Universe(g));
  }

  // ----- the bound on a walk ---------------------------------------------------------------------

  /** Steps left in a frame, counting the walks its rules may start. */
  ghost function Cost(g: Listing, chain: string, depth: nat, pc: nat): (cost: nat)
    decreases |Universe(g)| - depth, |g.RulesAt(chain)| - pc
  {
    var rules := g.RulesAt(chain);
    if depth > |Universe(g)| then 0
    else if pc >= |rules| then 1
    else
      var target := Target(rules[pc]);
      1 + Cost(g, chain, depth, pc + 1)
        + (if target.Named? && target.name in g.declared then Cost(g, target.name, depth + 1, 0) else 0)
  }

  ghost function StackCost(g: Listing, frames: seq<Frame>, depths: seq<nat>): (cost: nat)
    requires |depths| == |frames|
  {
    if frames == [] then 0
    else
      var n := |frames| - 1;
      StackCost(g, frames[..n], depths[..n]) + Cost(g, frames[n].chain, depths[n], frames[n].pc)
  }

  lemma StackCostPush(g: Listing, frames: seq<Frame>, depths: seq<nat>, frame: Frame, depth: nat)
    requires |depths| == |frames|
    ensures StackCost(g, frames + [frame], depths + [depth])
            == StackCost(g, frames, depths) + Cost(g, frame.chain, depth, frame.pc)
  {
    assert (frames + [frame])[..|frames|] == frames && (depths + [depth])[..|depths|] == depths;
  }

  lemma PlacedPush(g: Listing, frames: seq<Frame>, depths: seq<nat>, frame: Frame, depth: nat)
    requires Placed(g, frames, depths) && AtDepth(g, frame.chain, depth)
    ensures Placed(g, frames + [frame], depths + [depth])
  {
  }

  /** The cost of a frame pays for the step itself, the rest of its chain, and the callee of its rule. */
  lemma CostCovers(g: Listing, chain: string, depth: nat, pc: nat)
    requires depth <= |Universe(g)| && pc < |g.RulesAt(chain)|
    ensures var target := Target(g.RulesAt(chain)[pc]);
            Cost(g, chain, depth, pc) == 1 + Cost(g, chain, depth, pc + 1)
              + (if target.Named? && target.name in g.declared then Cost(g, target.name, depth + 1, 0) else 0)
  {
  }

  lemma CallDescends(g: Listing, rest: seq<Frame>, restDepths: seq<nat>, next: Frame, callee: Frame, depth: nat,
      frames: seq<Frame>)
    returns (depths: seq<nat>)
    requires Placed(g, rest, restDepths) && AtDepth(g, next.chain, depth) && AtDepth(g, callee.chain, depth + 1)
    requires frames == rest + [next] + [callee] || frames == rest + [callee]
    ensures Placed(g, frames, depths)
    ensures StackCost(g, frames, depths) <= StackCost(g, rest, restDepths)
              + Cost(g, next.chain, depth, next.pc) + Cost(g, callee.chain, depth + 1, callee.pc)
  {
    if frames == rest + [callee] {
      StackCostPush(g, rest, restDepths, callee, depth + 1);
      PlacedPush(g, rest, restDepths, callee, depth + 1);
      return restDepths + [depth + 1];
    }
    StackCostPush(g, rest, restDepths, next, depth);
    PlacedPush(g, rest, restDepths, next, depth);
    StackCostPush(g, rest + [next], restDepths + [depth], callee, depth + 1);
    PlacedPush(g, rest + [next], restDepths + [depth], callee, depth + 1);
    return restDepths + [depth] + [depth + 1];
  }

  lemma ReturnDescends(g: Listing, rest: seq<Frame>, restDepths: seq<nat>, next: Frame, depth: nat, frames: seq<Frame>)
    returns (depths: seq<nat>)
    requires Placed(g, rest, restDepths) && AtDepth(g, next.chain, depth)
    requires frames == rest + [next] || frames == rest || frames == []
    ensures Placed(g, frames, depths)
    ensures StackCost(g, frames, depths) <= StackCost(g, rest, restDepths) + Cost(g, next.chain, depth, next.pc)
  {
    if frames == rest + [next] {
      StackCostPush(g, rest, restDepths, next, depth);
      PlacedPush(g, rest, restDepths, next, depth);
      return restDepths + [depth];
    }
    if frames == rest { return restDepths; }
    return [];
  }

  /** Where a matching rule continues, the stack costs less than before and stays on paths from OUTPUT. */
  lemma MatchDescends(g: Listing, rest: seq<Frame>, restDepths: seq<nat>, top: Frame, depth: nat, frames: seq<Frame>)
    returns (depths: seq<nat>)
    requires Acyclic(g) && Placed(g, rest, restDepths) && AtDepth(g, top.chain, depth)
    requires top.pc < |g.RulesAt(top.chain)|
    requires Continues(g, g.RulesAt(top.chain)[top.pc], rest, Frame(top.chain, top.pc + 1), frames)
    ensures Placed(g, frames, depths)
    ensures StackCost(g, frames, depths) < StackCost(g, rest, restDepths) + Cost(g, top.chain, depth, top.pc)
  {
    hide Cost, StackCost, Placed, AtDepth, Acyclic;
    DepthBound(g, top.chain, depth);
    CostCovers(g, top.chain, depth, top.pc);
    var next := Frame(top.chain, top.pc + 1);
    var target := Target(g.RulesAt(top.chain)[top.pc]);
    if target.Named? && target.name in g.declared {
      DeeperByEdge(g, top.chain, target.name, depth);
      depths := CallDescends(g, rest, restDepths, next, Frame(target.name, 0), depth, frames);
    } else {
      depths := ReturnDescends(g, rest, restDepths, next, depth, frames);
    }
  }

  lemma LeavingCosts(g: Listing, chain: string, depth: nat, pc: nat)
    requires depth <= |Universe(g)| && pc >= |g.RulesAt(chain)|
    ensures Cost(g, chain, depth, pc) == 1
  {
  }

  lemma PassDescends(g: Listing, rest: seq<Frame>, restDepths: seq<nat>, top: Frame, depth: nat)
    requires Placed(g, rest, restDepths) && AtDepth(g, top.chain, depth) && depth <= |Universe(g)|
    requires top.pc < |g.RulesAt(top.chain)|
    ensures var next := Frame(top.chain, top.pc + 1);
      && Placed(g, rest + [next], restDepths + [depth])
      && StackCost(g, rest + [next], restDepths + [depth])
         < StackCost(g, rest, restDepths) + Cost(g, top.chain, depth, top.pc)
  {
    hide Cost, StackCost, AtDepth;
    var next := Frame(top.chain, top.pc + 1);
    CostCovers(g, top.chain, depth, top.pc);
    StackCostPush(g, rest, restDepths, next, depth);
    PlacedPush(g, rest, restDepths, next, depth);
  }

  /** Every step keeps the frames on paths from OUTPUT and strictly lowers the cost of the stack. */
  lemma StepDescends(g: Listing, w: Walk, ran: Option<Rule>, w': Walk, depths: seq<nat>) returns (depths': seq<nat>)
    requires Acyclic(g) && Placed(g, w.frames, depths) && Step(g, w, ran, w')
    ensures Placed(g, w'.frames, depths')
    ensures StackCost(g, w'.frames, depths') < StackCost(g, w.frames, depths)
  {
    hide RuleEffect, RunRule, AtDepth, Acyclic, Continues, Cost, StackCost;
    var n := |w.frames| - 1;
    var top, depth := w.frames[n], depths[n];
    var rest, restDepths := w.frames[..n], depths[..n];
    assert AtDepth(g, top.chain, depth);
    DepthBound(g, top.chain, depth);
    assert w.frames == rest + [top] && depths == restDepths + [depth];
    StackCostPush(g, rest, restDepths, top, depth);
    if top.pc >= |g.RulesAt(top.chain)| {
      LeavingCosts(g, top.chain, depth, top.pc);
      depths' := restDepths;
    } else if ran.None? {
      PassDescends(g, rest, restDepths, top, depth);
      depths' := restDepths + [depth];
    } else {
      depths' := MatchDescends(g, rest, restDepths, top, depth, w'.frames);
    }
  }

  lemma {:induction false} RunDescends(g: Listing, walks: seq<Walk>, rans: seq<Option<Rule>>, n: nat)
    returns (depths: seq<nat>)
    requires Acyclic(g) && Run(g, walks, rans) && n <= |rans|
    ensures Placed(g, walks[n].frames, depths)
    ensures StackCost(g, walks[n].frames, depths) + n <= Cost(g, OUTPUT, 1, 0)
  {
    if n == 0 {
      depths := [1];
      assert PathFromOutput(g, [OUTPUT]) && [OUTPUT][0] == OUTPUT;
      assert AtDepth(g, OUTPUT, 1);
      StackCostPush(g, [], [], Frame(OUTPUT, 0), 1);
      assert [] + [Frame(OUTPUT, 0)] == walks[0].frames && [] + [1] == depths;
    } else {
      var before := RunDescends(g, walks, rans, n - 1);
      depths := StepDescends(g, walks[n - 1], rans[n - 1], walks[n], before);
    }
  }

  /** Through a listing with no reachable cycle, every packet walk ends within a bound the listing fixes. */
  lemma WalksEnd(g: Listing, walks: seq<Walk>, rans: seq<Option<Rule>>)
    requires Acyclic(g) && Run(g, walks, rans)
    ensures |rans| <= Cost(g, OUTPUT, 1, 0)
  {
    var depths := RunDescends(g, walks, rans, |rans|);
  }

  // ----- the marks -------------------------------------------------------------------------------

  /** The rules outside the allow-list set values only inside their masks. */
  ghost predicate ForeignValuesInsideMasks(g: Listing, allowed: set<string>) {
    forall chain, k | 0 <= k < |g.RulesAt(chain)| && JoinWords(g.RulesAt(chain)[k]) !in allowed ::
      ValuesInsideMasks(g.RulesAt(chain)[k])
  }

  ghost predicate Foreign(ran: Option<Rule>, allowed: set<string>) {
    ran.Some? && JoinWords(ran.value) !in allowed
  }

  /** In every walk through a clean listing, no foreign rule moves a candidate bit of either mark. */
  lemma CleanListingKeepsCandidate(lines: seq<string>, allowed: set<string>, productChain: string, mark: nat,
                                   g: Listing, walks: seq<Walk>, rans: seq<Option<Rule>>, i: nat)
    requires AuditClean(lines, allowed, productChain, mark)
    requires Describes(g, Normalized(lines))
    requires ForeignValuesInsideMasks(g, allowed)
    requires Run(g, walks, rans) && i < |rans|
    ensures Foreign(rans[i], allowed) || rans[i].None? ==> SameOn(walks[i].marks, walks[i + 1].marks, BitsOf(mark))
  {
    hide BitsOf, ValuesInsideMasks, Cost, StackCost, Describes, Normalized, Acyclic, RuleVerdict, JoinWords;
    var normal := Normalized(lines);
    var h :| Describes(h, normal) && ReachableOk(h, allowed, BitsOf(mark));
    DescriptionUnique(g, h, normal);
    if Foreign(rans[i], allowed) {
      var depths := RunDescends(g, walks, rans, i);
      var w := walks[i];
      assert Step(g, w, rans[i], walks[i + 1]);
      var top := w.frames[|w.frames| - 1];
      assert AtDepth(g, top.chain, depths[|depths| - 1]);
      assert Reachable(g, top.chain);
      var rule := g.RulesAt(top.chain)[top.pc];
      assert RuleOk(g, allowed, BitsOf(mark), rule);
      CleanRuleKeepsCandidate(rule, TargetName(rule), BitsOf(mark), w.marks);
    }
  }

  /** Over a whole walk that runs no product rule, the candidate bits end where they started. */
  lemma {:induction false} ForeignWalkKeepsCandidate(lines: seq<string>, allowed: set<string>, productChain: string,
                                   mark: nat, g: Listing, walks: seq<Walk>, rans: seq<Option<Rule>>, n: nat)
    requires AuditClean(lines, allowed, productChain, mark)
    requires Describes(g, Normalized(lines))
    requires ForeignValuesInsideMasks(g, allowed)
    requires Run(g, walks, rans) && n <= |rans|
    requires forall i | 0 <= i < n :: Foreign(rans[i], allowed) || rans[i].None?
    ensures SameOn(walks[0].marks, walks[n].marks, BitsOf(mark))
  {
    hide BitsOf, AuditClean, Describes, ForeignValuesInsideMasks, Foreign;
    if n != 0 {
      ForeignWalkKeepsCandidate(lines, allowed, productChain, mark, g, walks, rans, n - 1);
      CleanListingKeepsCandidate(lines, allowed, productChain, mark, g, walks, rans, n - 1);
    }
  }

  // ----- exactly when a clean listing keeps the candidate ----------------------------------------------

  /** The rule acts on a mark itself, rather than passing the packet to a chain of that name. */
  predicate ActsOnMark(g: Listing, rule: Rule) {
    IsMarkTarget(TargetName(rule)) && TargetName(rule) !in g.declared
  }

  /** Every reachable foreign rule that acts on a mark is neutral for the candidate. */
  ghost predicate ForeignNeutral(g: Listing, allowed: set<string>, candidate: Bits) {
    forall chain, k | Reachable(g, chain) && 0 <= k < |g.RulesAt(chain)|
      && JoinWords(g.RulesAt(chain)[k]) !in allowed ::
      ActsOnMark(g, g.RulesAt(chain)[k]) ==> Neutral(g.RulesAt(chain)[k], candidate)
  }

  /** In every walk, no foreign rule moves a candidate bit of either mark. */
  ghost predicate ForeignKeeps(g: Listing, allowed: set<string>, candidate: Bits) {
    forall walks: seq<Walk>, rans: seq<Option<Rule>>, i: int
      | Run(g, walks, rans) && 0 <= i < |rans| && Foreign(rans[i], allowed) ::
      SameOn(walks[i].marks, walks[i + 1].marks, candidate)
  }

  lemma {:induction false} OtherTargetsKeepMarks(rule: Rule, target: string, n: nat, m: Marks)
    requires n <= |rule| && !IsMarkTarget(target)
    ensures RunRule(rule, target, n, m) == m
  {
    if n != 0 { OtherTargetsKeepMarks(rule, target, n - 1, m); }
  }

  /** The rule that runs at a step stands in a reachable chain. */
  lemma RanIsReachable(g: Listing, walks: seq<Walk>, rans: seq<Option<Rule>>, i: nat) returns (chain: string, k: nat)
    requires Acyclic(g) && Run(g, walks, rans) && i < |rans| && rans[i].Some?
    ensures Reachable(g, chain) && k < |g.RulesAt(chain)| && g.RulesAt(chain)[k] == rans[i].value
    ensures walks[i + 1].marks == RuleEffect(g, rans[i].value, walks[i].marks)
  {
    hide Cost, StackCost, RuleEffect;
    var depths := RunDescends(g, walks, rans, i);
    assert Step(g, walks[i], rans[i], walks[i + 1]);
    var top := walks[i].frames[|walks[i].frames| - 1];
    assert AtDepth(g, top.chain, depths[|depths| - 1]);
    chain, k := top.chain, top.pc;
  }

  lemma NeutralStepKeeps(g: Listing, allowed: set<string>, candidate: Bits,
                         walks: seq<Walk>, rans: seq<Option<Rule>>, i: nat)
    requires ReachableOk(g, allowed, candidate) && ForeignNeutral(g, allowed, candidate)
    requires Run(g, walks, rans) && i < |rans| && Foreign(rans[i], allowed)
    ensures SameOn(walks[i].marks, walks[i + 1].marks, candidate)
  {
    hide Acyclic, Reachable, RuleVerdict, Neutral, Step, RunRule;
    var chain, k := RanIsReachable(g, walks, rans, i);
    var rule := rans[i].value;
    assert RuleOk(g, allowed, candidate, g.RulesAt(chain)[k]);
    if ActsOnMark(g, rule) {
      NeutralKeepsCandidate(rule, TargetName(rule), candidate, walks[i].marks);
    } else if TargetName(rule) !in g.declared {
      OtherTargetsKeepMarks(rule, TargetName(rule), |rule|, walks[i].marks);
    }
  }

  lemma NeutralListingKeeps(g: Listing, allowed: set<string>, candidate: Bits)
    requires ReachableOk(g, allowed, candidate) && ForeignNeutral(g, allowed, candidate)
    ensures ForeignKeeps(g, allowed, candidate)
  {
    hide ReachableOk, ForeignNeutral, Step, Foreign, SameOn;
    forall walks: seq<Walk>, rans: seq<Option<Rule>>, i: int
      | Run(g, walks, rans) && 0 <= i < |rans| && Foreign(rans[i], allowed)
      ensures SameOn(walks[i].marks, walks[i + 1].marks, candidate)
    {
      NeutralStepKeeps(g, allowed, candidate, walks, rans, i);
    }
  }

  lemma ExtendWalk(g: Listing, walks: seq<Walk>, rans: seq<Option<Rule>>, ran: Option<Rule>, w: Walk)
    returns (walks': seq<Walk>, rans': seq<Option<Rule>>)
    requires Run(g, walks, rans) && Step(g, walks[|rans|], ran, w)
    ensures Run(g, walks', rans') && walks' == walks + [w] && rans' == rans + [ran]
  {
    hide Step;
    walks', rans' := walks + [w], rans + [ran];
  }

  /** A walk stands before rule `k` of `chain`, with these marks. */
  ghost predicate StandsAt(g: Listing, walks: seq<Walk>, rans: seq<Option<Rule>>, chain: string, k: nat, m: Marks) {
    && Run(g, walks, rans)
    && var w := walks[|rans|];
       w.marks == m && w.frames != [] && w.frames[|w.frames| - 1] == Frame(chain, k)
  }

  /** Rules that do not match are passed over. */
  lemma {:induction false} SkipTo(g: Listing, walks: seq<Walk>, rans: seq<Option<Rule>>, chain: string, j: nat,
      k: nat, m: Marks)
    returns (walks': seq<Walk>, rans': seq<Option<Rule>>)
    requires StandsAt(g, walks, rans, chain, j, m) && j <= k <= |g.RulesAt(chain)|
    ensures StandsAt(g, walks', rans', chain, k, m)
    decreases k - j
  {
    if j == k {
      walks', rans' := walks, rans;
    } else {
      var w := walks[|rans|];
      var next := w.(frames := Caller(w.frames) + [Frame(chain, j + 1)]);
      walks', rans' := ExtendWalk(g, walks, rans, None, next);
      walks', rans' := SkipTo(g, walks', rans', chain, j + 1, k, m);
    }
  }

  /** A matching jump enters its chain with the marks as they are. */
  lemma EnterChain(g: Listing, walks: seq<Walk>, rans: seq<Option<Rule>>, chain: string, k: nat, to: string, m: Marks)
    returns (walks': seq<Walk>, rans': seq<Option<Rule>>)
    requires StandsAt(g, walks, rans, chain, k, m) && k < |g.RulesAt(chain)|
    requires Target(g.RulesAt(chain)[k]) == Named(to) && to in g.declared
    ensures StandsAt(g, walks', rans', to, 0, m)
  {
    hide RunRule;
    var w, rule := walks[|rans|], g.RulesAt(chain)[k];
    var next := w.(frames := Caller(w.frames) + [Frame(chain, k + 1)] + [Frame(to, 0)]);
    walks', rans' := ExtendWalk(g, walks, rans, Some(rule), next);
  }

  /** Every rule of a reachable chain can be reached with any marks. */
  lemma {:induction false} ReachRule(g: Listing, p: seq<string>, k: nat, m: Marks)
    returns (walks: seq<Walk>, rans: seq<Option<Rule>>)
    requires PathFromOutput(g, p) && k <= |g.RulesAt(p[|p| - 1])|
    ensures StandsAt(g, walks, rans, p[|p| - 1], k, m)
    decreases |p|
  {
    hide StandsAt;
    var chain := p[|p| - 1];
    if |p| == 1 {
      walks, rans := StartWalk(g, m);
    } else {
      var shorter := p[..|p| - 1];
      assert Edge(g, p[|p| - 2], p[|p| - 1]) && shorter[|shorter| - 1] == p[|p| - 2];
      var from := p[|p| - 2];
      var j :| 0 <= j < |g.RulesAt(from)| && Target(g.RulesAt(from)[j]) == Named(chain);
      walks, rans := ReachRule(g, shorter, j, m);
      walks, rans := EnterChain(g, walks, rans, from, j, chain, m);
    }
    walks, rans := SkipTo(g, walks, rans, chain, 0, k, m);
  }

  lemma StartWalk(g: Listing, m: Marks) returns (walks: seq<Walk>, rans: seq<Option<Rule>>)
    ensures StandsAt(g, walks, rans, OUTPUT, 0, m)
  {
    walks, rans := [Walk([Frame(OUTPUT, 0)], m)], [];
  }

  /** A rule that acts on a mark can run wherever a walk stands before it. */
  lemma RunMarkRule(g: Listing, walks: seq<Walk>, rans: seq<Option<Rule>>, chain: string, k: nat, m: Marks)
    returns (walks': seq<Walk>, rans': seq<Option<Rule>>)
    requires StandsAt(g, walks, rans, chain, k, m) && k < |g.RulesAt(chain)| && ActsOnMark(g, g.RulesAt(chain)[k])
    ensures Run(g, walks', rans') && |rans'| == |rans| + 1 && rans'[|rans|] == Some(g.RulesAt(chain)[k])
    ensures walks'[|rans|].marks == m
    ensures var rule := g.RulesAt(chain)[k]; walks'[|rans| + 1].marks == RunRule(rule, TargetName(rule), |rule|, m)
  {
    hide RunRule;
    var w, rule := walks[|rans|], g.RulesAt(chain)[k];
    var next := Walk(Caller(w.frames) + [Frame(chain, k + 1)], RunRule(rule, TargetName(rule), |rule|, m));
    walks', rans' := ExtendWalk(g, walks, rans, Some(rule), next);
  }

  /** Some walk runs the rule on exactly these marks. */
  lemma WalkRunsRule(g: Listing, chain: string, k: nat, m: Marks)
    returns (walks: seq<Walk>, rans: seq<Option<Rule>>, n: nat)
    requires Reachable(g, chain) && k < |g.RulesAt(chain)| && ActsOnMark(g, g.RulesAt(chain)[k])
    ensures Run(g, walks, rans) && n < |rans| && rans[n] == Some(g.RulesAt(chain)[k]) && walks[n].marks == m
    ensures var rule := g.RulesAt(chain)[k]; walks[n + 1].marks == RunRule(rule, TargetName(rule), |rule|, m)
  {
    hide RunRule, Step, ActsOnMark, Edge, TargetName, StandsAt;
    var p :| PathFromOutput(g, p) && p[|p| - 1] == chain;
    walks, rans := ReachRule(g, p, k, m);
    n := |rans|;
    walks, rans := RunMarkRule(g, walks, rans, chain, k, m);
  }

  lemma NotNeutralMoves(rule: Rule, target: string, candidate: Bits) returns (m: Marks)
    requires RuleVerdict(rule, candidate) == Clean && IsMarkTarget(target) && !Neutral(rule, candidate)
    ensures !SameOn(RunRule(rule, target, |rule|, m), m, candidate)
  {
    hide RunRule, RuleVerdict, Neutral, SameOn;
    CleanRuleExactCondition(rule, target, candidate);
    m :| !SameOn(RunRule(rule, target, |rule|, m), m, candidate);
  }

  lemma OtherwiseMoves(g: Listing, allowed: set<string>, candidate: Bits, chain: string, k: nat)
    requires ReachableOk(g, allowed, candidate) && Reachable(g, chain) && k < |g.RulesAt(chain)|
    requires JoinWords(g.RulesAt(chain)[k]) !in allowed
    requires ActsOnMark(g, g.RulesAt(chain)[k]) && !Neutral(g.RulesAt(chain)[k], candidate)
    ensures !ForeignKeeps(g, allowed, candidate)
  {
    hide RunRule, RuleVerdict, Neutral, Acyclic, Reachable, Step, TargetOk;
    var rule := g.RulesAt(chain)[k];
    assert RuleOk(g, allowed, candidate, g.RulesAt(chain)[k]);
    var m := NotNeutralMoves(rule, TargetName(rule), candidate);
    var walks, rans, n := WalkRunsRule(g, chain, k, m);
    assert !SameOn(walks[n].marks, walks[n + 1].marks, candidate) by {
      assert SameOn(walks[n].marks, walks[n + 1].marks, candidate) <==>
        SameOn(walks[n + 1].marks, walks[n].marks, candidate);
    }
    assert Foreign(rans[n], allowed);
  }

  /**
   No walk of a clean listing moves the candidate at a foreign rule exactly when its foreign mark
   rules are neutral.
   */
  lemma CleanListingExactCondition(lines: seq<string>, allowed: set<string>, productChain: string, mark: nat,
      g: Listing)
    requires AuditClean(lines, allowed, productChain, mark) && Describes(g, Normalized(lines))
    ensures ForeignKeeps(g, allowed, BitsOf(mark)) <==> ForeignNeutral(g, allowed, BitsOf(mark))
  {
    hide ReachableOk, Describes, BitsOf, Reachable, Neutral, JoinWords, ForeignKeeps, Normalized;
    var h :| Describes(h, Normalized(lines)) && ReachableOk(h, allowed, BitsOf(mark));
    DescriptionUnique(g, h, Normalized(lines));
    if ForeignNeutral(g, allowed, BitsOf(mark)) {
      NeutralListingKeeps(g, allowed, BitsOf(mark));
    } else {
      var chain, k :| Reachable(g, chain) && 0 <= k < |g.RulesAt(chain)| && JoinWords(g.RulesAt(chain)[k]) !in allowed
        && ActsOnMark(g, g.RulesAt(chain)[k]) && !Neutral(g.RulesAt(chain)[k], BitsOf(mark));
      OtherwiseMoves(g, allowed, BitsOf(mark), chain, k);
    }
  }
}
