/**
 The audit of one mangle listing (`audit_mangle_output` in root_policy.rs): parsing, the
 three-colour walk over user-defined chains, and what a clean verdict means for packets.
 */
module MangleAudit {
  import opened Common
  import opened Text
  import opened MarkAudit

  type Rule = seq<string>

  datatype Listing = Listing(declared: set<string>, rules: map<string, seq<Rule>>) {
    /** The rules of a chain; a chain without an entry has none. */
    function RulesAt(chain: string): seq<Rule> {
      if chain in rules then rules[chain] else []
    }
  }

  predicate SafeChainCharacter(c: char) {
    || 'a' <= c <= 'z' || 'A' <= c <= 'Z' || '0' <= c <= '9'
    || c == '_' || c == '.' || c == ':' || c == '+' || c == '-'
  }

  predicate IsSafeChainName(value: string) {
    1 <= |value| <= 28 && forall i | 0 <= i < |value| :: SafeChainCharacter(value[i])
  }

  // ----- targets ---------------------------------------------------------------------------------

  datatype ChainTarget = NoTarget | Malformed | Named(name: string)

  /** The target named by the jump at position `i`, if that position is a jump. */
  function JumpTarget(tokens: Rule, i: nat): ChainTarget
    requires i < |tokens|
  {
    if !KindOf(tokens[i]).Jump? then NoTarget
    else if i + 1 == |tokens| || "-" <= tokens[i + 1] then Malformed
    else Named(tokens[i + 1])
  }

  function TargetOf(tokens: Rule, n: nat): ChainTarget
    requires n <= |tokens|
  {
    if n == 0 then NoTarget
    else
      var earlier := TargetOf(tokens, n - 1);
      var here := JumpTarget(tokens, n - 1);
      if earlier.NoTarget? || earlier == here then here
      else if here.NoTarget? then earlier
      else Malformed
  }

  function Target(tokens: Rule): ChainTarget {
    TargetOf(tokens, |tokens|)
  }

  /** `chain_target`: one pass that remembers the first target and rejects a different one. */
  method ChainTargetOf(tokens: Rule) returns (target: ChainTarget)
    ensures target == Target(tokens)
  {
    target := NoTarget;
    for i := 0 to |tokens|
      invariant !target.Malformed? && target == TargetOf(tokens, i)
    {
      if KindOf(tokens[i]).Jump? {
        if i + 1 == |tokens| || "-" <= tokens[i + 1] || (target.Named? && target.name != tokens[i + 1]) {
          MalformedStays(tokens, i + 1, |tokens|);
          return Malformed;
        }
        target := Named(tokens[i + 1]);
      }
    }
  }

  lemma {:induction false} MalformedStays(tokens: Rule, m: nat, n: nat)
    requires m <= n <= |tokens|
    ensures TargetOf(tokens, m).Malformed? ==> TargetOf(tokens, n).Malformed?
  {
    if m < n { MalformedStays(tokens, m, n - 1); }
  }

  /** The target read off the rule as a whole: every jump must name the same well-formed target. */
  lemma {:induction false} TargetMeaning(tokens: Rule, n: nat)
    requires n <= |tokens|
    ensures TargetOf(tokens, n).NoTarget? <==> forall i | 0 <= i < n :: !KindOf(tokens[i]).Jump?
    ensures forall name :: TargetOf(tokens, n) == Named(name) <==>
              && (exists i | 0 <= i < n :: KindOf(tokens[i]).Jump?)
              && (forall i | 0 <= i < n && KindOf(tokens[i]).Jump? :: JumpTarget(tokens, i) == Named(name))
  {
    if n != 0 { TargetMeaning(tokens, n - 1); }
  }

  // ----- parsing ---------------------------------------------------------------------------------

  datatype Line = Declare(name: string) | Append(chain: string, tokens: Rule) | Broken | Irrelevant

  function Classify(line: string): Line {
    var tokens := SplitWhitespace(line);
    if |tokens| >= 1 && tokens[0] == "-N" then
      if |tokens| != 2 || !IsSafeChainName(tokens[1]) then Broken else Declare(tokens[1])
    else if |tokens| >= 1 && tokens[0] == "-A" then
      if |tokens| < 3 || !IsSafeChainName(tokens[1]) then Broken else Append(tokens[1], tokens)
    else Irrelevant
  }

  /** The trimmed, non-empty lines. */
  function Normalized(lines: seq<string>): seq<string> {
    if lines == [] then []
    else
      var rest := Normalized(lines[..|lines| - 1]);
      var last := Trim(lines[|lines| - 1]);
      if last == "" then rest else rest + [last]
  }

  ghost predicate WellFormed(lines: seq<string>) {
    && (forall i | 0 <= i < |lines| :: !Classify(lines[i]).Broken?)
    && (forall i, j | 0 <= i < j < |lines| ::
          Classify(lines[i]).Declare? ==> Classify(lines[i]) != Classify(lines[j]))
  }

  ghost function Declared(lines: seq<string>): set<string> {
    set i | 0 <= i < |lines| && Classify(lines[i]).Declare? :: Classify(lines[i]).name
  }

  /** The rules appended to `chain`, in listing order. */
  ghost function RulesOf(lines: seq<string>, chain: string): seq<Rule> {
    if lines == [] then []
    else
      var earlier := RulesOf(lines[..|lines| - 1], chain);
      var last := Classify(lines[|lines| - 1]);
      if last.Append? && last.chain == chain then earlier + [last.tokens] else earlier
  }

  ghost predicate Describes(listing: Listing, lines: seq<string>) {
    && listing.declared == Declared(lines)
    && (forall chain :: listing.RulesAt(chain) == RulesOf(lines, chain))
    && (forall chain :: chain in listing.rules <==> RulesOf(lines, chain) != [])
  }

  method ParseListing(lines: seq<string>) returns (parsed: Option<Listing>)
    ensures parsed.Some? <==> WellFormed(lines)
    ensures parsed.Some? ==> Describes(parsed.value, lines)
  {
    var declared: set<string>, rules: map<string, seq<Rule>> := {}, map[];
    for i := 0 to |lines|
      invariant WellFormed(lines[..i])
      invariant Describes(Listing(declared, rules), lines[..i])
    {
      ghost var earlier := lines[..i];
      assert lines[..i + 1] == earlier + [lines[i]];
      DescribesStep(Listing(declared, rules), earlier, lines[i]);
      var line := Classify(lines[i]);
      match line {
        case Broken =>
          return None;
        case Declare(name) =>
          if name in declared {
            RedeclaredNotWellFormed(lines, i);
            return None;
          }
          declared := declared + {name};
        case Append(chain, tokens) =>
          rules := rules[chain := (if chain in rules then rules[chain] else []) + [tokens]];
        case Irrelevant =>
      }
    }
    assert lines[..|lines|] == lines;
    return Some(Listing(declared, rules));
  }

  lemma RedeclaredNotWellFormed(lines: seq<string>, i: nat)
    requires i < |lines| && Classify(lines[i]).Declare? && Classify(lines[i]).name in Declared(lines[..i])
    ensures !WellFormed(lines)
  {
    var k :| 0 <= k < i && Classify(lines[..i][k]).Declare? && Classify(lines[..i][k]).name == Classify(lines[i]).name;
    assert Classify(lines[k]) == Classify(lines[i]);
  }

  /** One more line: when it keeps the listing well formed, and how the description grows. */
  lemma DescribesStep(listing: Listing, earlier: seq<string>, line: string)
    requires Describes(listing, earlier) && WellFormed(earlier)
    ensures WellFormed(earlier + [line]) <==>
            !Classify(line).Broken? && (Classify(line).Declare? ==> Classify(line).name !in listing.declared)
    ensures match Classify(line)
            case Declare(name) => Describes(listing.(declared := listing.declared + {name}), earlier + [line])
            case Append(chain, tokens) =>
              Describes(listing.(rules := listing.rules[chain := listing.RulesAt(chain) + [tokens]]), earlier + [line])
            case _ => Describes(listing, earlier + [line])
  {
    hide Classify;
    var longer := earlier + [line];
    assert longer[..|earlier|] == earlier;
    assert forall k | 0 <= k < |earlier| :: longer[k] == earlier[k];
    DeclaredStep(earlier, line);
    assert longer[|earlier|] == line;
    assert forall k | 0 <= k < |earlier| && Classify(earlier[k]).Declare? ::
      Classify(earlier[k]).name in Declared(earlier);
    if Classify(line).Declare? && Classify(line).name in listing.declared {
      RedeclaredNotWellFormed(longer, |earlier|);
    }
  }

  lemma DeclaredStep(earlier: seq<string>, line: string)
    ensures Declared(earlier + [line]) ==
            Declared(earlier) + (if Classify(line).Declare? then {Classify(line).name} else {})
  {
    var longer := earlier + [line];
    forall name | name in Declared(earlier)
      ensures name in Declared(longer)
    {
      var k :| 0 <= k < |earlier| && Classify(earlier[k]).Declare? && Classify(earlier[k]).name == name;
      assert longer[k] == earlier[k];
    }
    assert longer[|earlier|] == line;
  }

  // ----- the chain graph -------------------------------------------------------------------------

  const OUTPUT := "OUTPUT"

  /** Some rule of `from` targets the declared chain `to`. */
  ghost predicate Edge(g: Listing, from: string, to: string) {
    to in g.declared && exists k | 0 <= k < |g.RulesAt(from)| :: Target(g.RulesAt(from)[k]) == Named(to)
  }

  ghost predicate PathFromOutput(g: Listing, p: seq<string>) {
    && |p| >= 1 && p[0] == OUTPUT
    && (forall i | 0 <= i < |p| - 1 :: Edge(g, p[i], p[i + 1]))
  }

  ghost predicate Reachable(g: Listing, chain: string) {
    exists p :: PathFromOutput(g, p) && p[|p| - 1] == chain
  }

  ghost predicate Repeats(p: seq<string>) {
    exists i, j | 0 <= i < j < |p| :: p[i] == p[j]
  }

  /** The part of the graph reachable from OUTPUT has no cycle. */
  ghost predicate Acyclic(g: Listing) {
    forall p | PathFromOutput(g, p) :: !Repeats(p)
  }

  ghost predicate TargetOk(g: Listing, rule: Rule) {
    match Target(rule)
    case NoTarget => true
    case Malformed => false
    case Named(target) => target in g.declared || target !in g.rules
  }

  ghost predicate RuleOk(g: Listing, allowed: set<string>, candidate: Bits, rule: Rule) {
    (JoinWords(rule) in allowed || RuleVerdict(rule, candidate) == Clean) && TargetOk(g, rule)
  }

  ghost predicate ChainOk(g: Listing, allowed: set<string>, candidate: Bits, chain: string) {
    forall k | 0 <= k < |g.RulesAt(chain)| :: RuleOk(g, allowed, candidate, g.RulesAt(chain)[k])
  }

  ghost predicate ReachableOk(g: Listing, allowed: set<string>, candidate: Bits) {
    Acyclic(g) && forall chain | Reachable(g, chain) :: ChainOk(g, allowed, candidate, chain)
  }

  /** A reachable reason for a verdict other than `Clean`. */
  ghost predicate Fault(g: Listing, allowed: set<string>, candidate: Bits, verdict: AuditResult) {
    || (exists chain, k | Reachable(g, chain) && 0 <= k < |g.RulesAt(chain)| ::
          RuleFault(g, allowed, candidate, g.RulesAt(chain)[k], verdict))
    || (verdict == Ambiguous && !Acyclic(g))
  }

  ghost predicate RuleFault(g: Listing, allowed: set<string>, candidate: Bits, rule: Rule, verdict: AuditResult) {
    || (JoinWords(rule) !in allowed && RuleVerdict(rule, candidate) == verdict != Clean)
    || (verdict == Ambiguous && !TargetOk(g, rule))
  }

  // ----- the walk --------------------------------------------------------------------------------

  datatype Colour = Visiting | Done

  ghost function Universe(g: Listing): set<string> {
    g.declared + {OUTPUT}
  }

  /** `done` lists chains whose rules all pass and whose declared targets stand earlier in `done`. */
  ghost predicate Finished(g: Listing, allowed: set<string>, candidate: Bits, done: seq<string>) {
    && (forall i, j | 0 <= i < j < |done| :: done[i] != done[j])
    && (forall i | 0 <= i < |done| :: ChainOk(g, allowed, candidate, done[i]))
    && (forall i, to | 0 <= i < |done| && Edge(g, done[i], to) :: to in done[..i])
  }

  ghost predicate WalkInv(g: Listing, allowed: set<string>, candidate: Bits,
                          states: map<string, Colour>, stack: seq<string>, done: seq<string>) {
    && states.Keys <= Universe(g)
    && (forall c :: c in states && states[c].Visiting? <==> c in stack)
    && (forall c :: c in states && states[c].Done? <==> c in done)
    && Finished(g, allowed, candidate, done)
  }

  /** `visit`: `stack` is the chain of callers, `done` the finished chains in finishing order. */
  method Visit(g: Listing, allowed: set<string>, candidate: Bits, chain: string, states: map<string, Colour>,
               ghost stack: seq<string>, ghost done: seq<string>)
    returns (result: AuditResult, states': map<string, Colour>, ghost done': seq<string>)
    requires chain in Universe(g)
    requires PathFromOutput(g, stack + [chain])
    requires WalkInv(g, allowed, candidate, states, stack, done)
    ensures result == Clean ==> WalkInv(g, allowed, candidate, states', stack, done') && done <= done' && chain in done'
    ensures result == Clean ==> states.Keys <= states'.Keys
    ensures result != Clean ==> Fault(g, allowed, candidate, result)
    decreases Universe(g) - states.Keys
  {
    hide JoinWords, RuleVerdict, TargetOf, Finished, Fault, PathFromOutput;
    states', done' := states, done;
    if chain in states {
      if states[chain].Visiting? {
        CycleIsFault(g, allowed, candidate, stack, chain);
        return Ambiguous, states', done';
      }
      return Clean, states', done';
    }
    states' := states'[chain := Visiting];
    ghost var path := stack + [chain];
    assert path[|path| - 1] == chain;
    var rules := g.RulesAt(chain);
    for k := 0 to |rules|
      invariant WalkInv(g, allowed, candidate, states', path, done')
      invariant states.Keys + {chain} <= states'.Keys && done <= done'
      invariant forall j | 0 <= j < k :: RuleOk(g, allowed, candidate, rules[j])
      invariant forall j | 0 <= j < k :: Target(rules[j]).Named? && Target(rules[j]).name in g.declared
                                         ==> Target(rules[j]).name in done'
    {
      if JoinWords(rules[k]) !in allowed {
        var verdict := AuditMarkSemantics(rules[k], candidate);
        if verdict != Clean {
          RuleIsFault(g, allowed, candidate, path, k, verdict);
          return verdict, states', done';
        }
      }
      var target := ChainTargetOf(rules[k]);
      match target {
        case Malformed =>
          RuleIsFault(g, allowed, candidate, path, k, Ambiguous);
          return Ambiguous, states', done';
        case NoTarget =>
        case Named(name) =>
          if name in g.declared {
            PathExtends(g, path, name);
            ghost var before := done';
            var nested;
            nested, states', done' := Visit(g, allowed, candidate, name, states', path, done');
            if nested != Clean {
              return nested, states', done';
            }
          } else if name in g.rules {
            RuleIsFault(g, allowed, candidate, path, k, Ambiguous);
            return Ambiguous, states', done';
          }
      }
    }
    assert chain !in done' by { assert chain in path; }
    FinishChain(g, allowed, candidate, done', chain);
    states' := states'[chain := Done];
    done' := done' + [chain];
    assert forall c :: c in path <==> c in stack || c == chain;
    assert chain !in stack;
    result := Clean;
  }

  lemma CycleIsFault(g: Listing, allowed: set<string>, candidate: Bits, stack: seq<string>, chain: string)
    requires PathFromOutput(g, stack + [chain]) && chain in stack
    ensures Fault(g, allowed, candidate, Ambiguous)
  {
    var p := stack + [chain];
    var i :| 0 <= i < |stack| && stack[i] == chain;
    assert p[i] == p[|stack|];
  }

  lemma RuleIsFault(g: Listing, allowed: set<string>, candidate: Bits, path: seq<string>, k: nat, verdict: AuditResult)
    requires path != [] && PathFromOutput(g, path) && k < |g.RulesAt(path[|path| - 1])|
    requires RuleFault(g, allowed, candidate, g.RulesAt(path[|path| - 1])[k], verdict)
    ensures Fault(g, allowed, candidate, verdict)
  {
    assert Reachable(g, path[|path| - 1]);
  }

  lemma PathExtends(g: Listing, path: seq<string>, to: string)
    requires PathFromOutput(g, path) && Edge(g, path[|path| - 1], to)
    ensures PathFromOutput(g, path + [to])
  {
  }

  lemma FinishChain(g: Listing, allowed: set<string>, candidate: Bits, done: seq<string>, chain: string)
    requires Finished(g, allowed, candidate, done) && chain !in done
    requires ChainOk(g, allowed, candidate, chain)
    requires forall to | Edge(g, chain, to) :: to in done
    ensures Finished(g, allowed, candidate, done + [chain])
  {
    var longer := done + [chain];
    forall i, to | 0 <= i < |longer| && Edge(g, longer[i], to)
      ensures to in longer[..i]
    {
      assert longer[..i] == if i < |done| then done[..i] else done;
    }
  }

  // ----- a finished walk from OUTPUT covers exactly the reachable, acyclic part --------------------

  ghost function Rank(done: seq<string>, chain: string): nat
    requires chain in done
  {
    var i :| 0 <= i < |done| && done[i] == chain; i
  }

  lemma EdgeDescends(g: Listing, allowed: set<string>, candidate: Bits, done: seq<string>, from: string, to: string)
    requires Finished(g, allowed, candidate, done) && from in done && Edge(g, from, to)
    ensures to in done && Rank(done, to) < Rank(done, from)
  {
    hide ChainOk, Edge;
    var r := Rank(done, from);
    assert to in done[..r];
    var k :| 0 <= k < r && done[k] == to;
    assert Rank(done, to) == k;
  }

  lemma {:induction false} PathDescends(g: Listing, allowed: set<string>, candidate: Bits, done: seq<string>,
      p: seq<string>)
    requires Finished(g, allowed, candidate, done) && OUTPUT in done
    requires PathFromOutput(g, p)
    ensures forall i | 0 <= i < |p| :: p[i] in done
    ensures forall i, j | 0 <= i < j < |p| :: Rank(done, p[j]) < Rank(done, p[i])
    decreases |p|
  {
    hide Finished, Edge, Rank;
    if |p| > 1 {
      var shorter := p[..|p| - 1];
      PathDescends(g, allowed, candidate, done, shorter);
      var from, to := p[|p| - 2], p[|p| - 1];
      assert from == shorter[|shorter| - 1] && from in done && Edge(g, from, to);
      EdgeDescends(g, allowed, candidate, done, from, to);
      forall i, j | 0 <= i < j < |p|
        ensures Rank(done, p[j]) < Rank(done, p[i])
      {
        if j < |shorter| { assert p[i] == shorter[i] && p[j] == shorter[j]; } else { assert p[i] == shorter[i]; }
      }
    }
  }

  lemma FinishedCovers(g: Listing, allowed: set<string>, candidate: Bits, done: seq<string>)
    requires Finished(g, allowed, candidate, done) && OUTPUT in done
    ensures ReachableOk(g, allowed, candidate)
  {
    forall p | PathFromOutput(g, p)
      ensures !Repeats(p) && p[|p| - 1] in done
    {
      PathDescends(g, allowed, candidate, done, p);
    }
  }

  lemma FaultBreaks(g: Listing, allowed: set<string>, candidate: Bits, verdict: AuditResult)
    requires Fault(g, allowed, candidate, verdict) && verdict != Clean
    ensures !ReachableOk(g, allowed, candidate)
  {
    if Acyclic(g) {
      var chain, k :| Reachable(g, chain) && 0 <= k < |g.RulesAt(chain)|
                      && RuleFault(g, allowed, candidate, g.RulesAt(chain)[k], verdict);
      assert !RuleOk(g, allowed, candidate, g.RulesAt(chain)[k]);
    }
  }

  // ----- the whole audit -------------------------------------------------------------------------

  ghost predicate ProductLinesAllowed(lines: seq<string>, allowed: set<string>, productChain: string) {
    forall i | 0 <= i < |lines| :: Contains(lines[i], productChain) ==> lines[i] in allowed
  }

  ghost predicate GraphOk(lines: seq<string>, allowed: set<string>, candidate: Bits) {
    exists g :: Describes(g, lines) && ReachableOk(g, allowed, candidate)
  }

  /** What a clean audit means, without reference to the walk. */
  ghost predicate AuditClean(lines: seq<string>, allowed: set<string>, productChain: string, candidateMark: nat) {
    var normal := Normalized(lines);
    && candidateMark != 0
    && ProductLinesAllowed(normal, allowed, productChain)
    && WellFormed(normal)
    && GraphOk(normal, allowed, BitsOf(candidateMark))
  }

  lemma DescriptionUnique(g: Listing, h: Listing, lines: seq<string>)
    requires Describes(g, lines) && Describes(h, lines)
    ensures g == h
  {
    assert g.rules.Keys == h.rules.Keys;
    forall c | c in g.rules
      ensures g.rules[c] == h.rules[c]
    {
      assert g.RulesAt(c) == h.RulesAt(c);
    }
    assert g.rules == h.rules;
  }

  method AuditMangleOutput(lines: seq<string>, allowed: set<string>, productChain: string, candidateMark: nat)
    returns (result: AuditResult)
    ensures result == Clean <==> AuditClean(lines, allowed, productChain, candidateMark)
    ensures candidateMark == 0 ==> result == Ambiguous
    ensures candidateMark != 0 && !ProductLinesAllowed(Normalized(lines), allowed, productChain) ==> result == Collision
    ensures candidateMark != 0 && ProductLinesAllowed(Normalized(lines), allowed, productChain) ==>
              !WellFormed(Normalized(lines)) ==> result == Ambiguous
    ensures AuditFault(lines, allowed, productChain, candidateMark, result)
  {
    if candidateMark == 0 { return Ambiguous; }
    var normal := Normalized(lines);
    for i := 0 to |normal|
      invariant ProductLinesAllowed(normal[..i], allowed, productChain)
    {
      if Contains(normal[i], productChain) && normal[i] !in allowed { return Collision; }
    }
    assert normal[..|normal|] == normal;
    var parsed := ParseListing(normal);
    if parsed.None? { return Ambiguous; }
    var g, candidate := parsed.value, BitsOf(candidateMark);
    var states;
    ghost var done;
    assert PathFromOutput(g, [] + [OUTPUT]);
    result, states, done := Visit(g, allowed, candidate, OUTPUT, map[], [], []);
    if result == Clean {
      FinishedCovers(g, allowed, candidate, done);
    } else {
      FaultBreaks(g, allowed, candidate, result);
      forall h | Describes(h, normal)
        ensures !ReachableOk(h, allowed, candidate)
      {
        DescriptionUnique(g, h, normal);
      }
    }
  }

  /** On a well-formed listing, a verdict other than `Clean` comes from a reachable fault of that kind. */
  ghost predicate AuditFault(lines: seq<string>, allowed: set<string>, productChain: string, candidateMark: nat,
                             result: AuditResult) {
    var normal := Normalized(lines);
    candidateMark != 0 && ProductLinesAllowed(normal, allowed, productChain) && WellFormed(normal) && result != Clean
    ==> exists g :: Describes(g, normal) && Fault(g, allowed, BitsOf(candidateMark), result)
  }
}
