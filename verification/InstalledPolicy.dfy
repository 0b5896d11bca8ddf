/** The policy as the product installs it is accepted, under every candidate, and found again after a restart. */
module InstalledPolicy {
  import opened Common
  import opened Text
  import opened MarkAudit
  import opened MangleAudit
  import opened RootPolicy

  // ----- what is installed -----------------------------------------------------------------------

  function InstalledMangle(uid: nat, space: Namespace, family: Family, identity: PolicyIdentity): seq<string> {
    [ChainDefinition(space)] + OwnedChainLines(space, family, identity) + [OutputJump(uid, space)]
  }

  function RuleWords(priority: nat, identity: PolicyIdentity, action: seq<string>): seq<string> {
    [Decimal(priority) + ":", "from", "all", "fwmark", MarkText(identity)] + action
  }

  /** A routing rule on the identity's mark, as `ip rule show` prints it. */
  function RuleLine(priority: nat, identity: PolicyIdentity, action: seq<string>): string {
    JoinWords(RuleWords(priority, identity, action))
  }

  function GuardLine(identity: PolicyIdentity): string {
    RuleLine(identity.guardPriority, identity, ["unreachable"])
  }

  function LookupLine(identity: PolicyIdentity, table: string): string {
    RuleLine(identity.lookupPriority, identity, ["lookup", table])
  }

  function Installed(uid: nat, space: Namespace, identity: PolicyIdentity): Snapshot {
    Snapshot([GuardLine(identity)], [GuardLine(identity)],
             InstalledMangle(uid, space, Ipv4, identity), InstalledMangle(uid, space, Ipv6, identity))
  }

  // ----- routing rules -----------------------------------------------------------------------------

  lemma MarkTextStarts(identity: PolicyIdentity)
    requires identity.markHex != ""
    ensures MarkText(identity)[0] == identity.markHex[0]
  {
  }

  lemma RuleWordsAreSolid(space: Namespace, priority: nat, identity: PolicyIdentity, action: seq<string>)
    requires identity in Candidates(space) && forall i | 0 <= i < |action| :: Solid(action[i])
    ensures var words := RuleWords(priority, identity, action); forall i | 0 <= i < |words| :: Solid(words[i])
  {
    hide MarkText, Candidates, Decimal;
    NamesAreSolid(space, identity);
    DecimalIsDigits(priority);
  }

  lemma RuleLineReads(space: Namespace, priority: nat, identity: PolicyIdentity, action: seq<string>)
    requires identity in Candidates(space) && priority < U32_LIMIT && forall i | 0 <= i < |action| :: Solid(action[i])
    ensures var line := RuleLine(priority, identity, action);
      && SplitWhitespace(line) == RuleWords(priority, identity, action)
      && RpdbPriority(line) == Some(priority)
      && TokenAfter(SplitWhitespace(line), "fwmark") == Some(MarkText(identity))
  {
    hide SplitWhitespace, Trim, MarkText, Candidates, Decimal, ParseRadix;
    var words, line := RuleWords(priority, identity, action), RuleLine(priority, identity, action);
    RuleWordsAreSolid(space, priority, identity, action);
    SplitJoined(words);
    TrimJoined(words);
    JoinedEnds(words);
    DecimalIsDigits(priority);
    DecimalRoundTrip(priority, U32_LIMIT);
    var n := |Decimal(priority)|;
    assert line[n] == words[0][n] == ':';
    assert forall k | 0 <= k < n :: line[k] == words[0][k] != ':';
    assert line[..n] == Decimal(priority);
    assert words[0][0] != 'f' && words[3] == "fwmark";
    assert Position(words, "fwmark") == 3;
  }

  lemma GuardIsOwned(space: Namespace, identity: PolicyIdentity)
    requires identity in Candidates(space)
    ensures OwnedGuard(GuardLine(identity), identity) && !OwnedLookup(GuardLine(identity), identity)
  {
    hide SplitWhitespace, RpdbPriority, TokenAfter, RuleLine, Candidates, MarkText;
    NamesAreSolid(space, identity);
    var action := ["unreachable"];
    RuleLineReads(space, identity.guardPriority, identity, action);
    assert RuleWords(identity.guardPriority, identity, action)[5] == "unreachable";
  }

  lemma SafeTokenIsSolid(table: string)
    requires IsSafeTableToken(table)
    ensures Solid(table)
  {
    assert forall i | 0 <= i < |table| :: SafeTableCharacter(table[i]) && !IsWhitespace(table[i]);
  }

  lemma LookupNamesTable(space: Namespace, identity: PolicyIdentity, table: string)
    requires identity in Candidates(space)
    ensures TokenAfter(RuleWords(identity.lookupPriority, identity, ["lookup", table]), "lookup") == Some(table)
  {
    hide Candidates, MarkText, Decimal;
    NamesAreSolid(space, identity);
    MarkTextStarts(identity);
    DecimalIsDigits(identity.lookupPriority);
    var words := RuleWords(identity.lookupPriority, identity, ["lookup", table]);
    assert words[0][0] != 'l' && words[4][0] == '0' && words[5] == "lookup";
    assert Position(words, "lookup") == 5;
  }

  lemma LookupIsOwned(space: Namespace, identity: PolicyIdentity, table: string)
    requires identity in Candidates(space) && IsSafeTableToken(table)
    ensures OwnedLookup(LookupLine(identity, table), identity)
  {
    hide SplitWhitespace, RpdbPriority, RuleLine, RuleWords, TokenAfter, Candidates, MarkText, IsSafeTableToken;
    NamesAreSolid(space, identity);
    SafeTokenIsSolid(table);
    assert Solid("lookup");
    RuleLineReads(space, identity.lookupPriority, identity, ["lookup", table]);
    LookupNamesTable(space, identity, table);
  }

  // ----- the mangle listing --------------------------------------------------------------------------

  lemma JoinHead(words: Rule)
    requires |words| >= 2
    ensures JoinWords(words) == words[0] + " " + JoinWords(words[1..])
  {
  }

  lemma PrefixThrough(a: string, b: string, c: string)
    ensures a + b <= a + (b + c)
  {
    assert a + (b + c) == a + b + c;
  }

  lemma LineStarts(words: Rule)
    requires |words| >= 3
    ensures (words[0] + " ") + (words[1] + " ") <= JoinWords(words)
  {
    hide JoinWords;
    JoinHead(words);
    JoinHead(words[1..]);
    PrefixThrough(words[0] + " ", words[1] + " ", JoinWords(words[1..][1..]));
  }

  lemma LineReads(words: Rule)
    requires |words| >= 3 && words[0] == "-A" && IsSafeChainName(words[1])
    requires forall i | 0 <= i < |words| :: Solid(words[i])
    ensures Classify(JoinWords(words)) == Append(words[1], words)
    ensures "-A " + words[1] + " " <= JoinWords(words)
  {
    hide IsSafeChainName, SplitWhitespace, JoinWords;
    SplitJoined(words);
    LineStarts(words);
    assert "-A" + " " == "-A ";
    assert "-A " + words[1] + " " == "-A " + (words[1] + " ");
  }

  lemma ChainNameIsSafe(space: Namespace)
    ensures IsSafeChainName(ChainName(space)) && IsSafeChainName(OUTPUT) && Solid(OUTPUT) && OUTPUT != ChainName(space)
  {
  }

  lemma JumpWordsAreSolid(uid: nat, space: Namespace)
    ensures var words := OutputJumpWords(uid, space); forall i | 0 <= i < |words| :: Solid(words[i])
  {
    hide ChainName, Decimal;
    ChainNameIsPlain(space);
    PlainIsSolid(ChainName(space));
    DecimalIsDigits(uid);
  }

  lemma DefinitionReads(space: Namespace)
    ensures Classify(ChainDefinition(space)) == Declare(ChainName(space))
    ensures Trim(ChainDefinition(space)) == ChainDefinition(space) != ""
    ensures "-N" <= ChainDefinition(space)
  {
    hide SplitWhitespace, Trim, ChainName, IsSafeChainName, JoinWords;
    ChainNameIsPlain(space);
    PlainIsSolid(ChainName(space));
    ChainNameIsSafe(space);
    var words := ["-N", ChainName(space)];
    assert Solid("-N");
    SplitJoined(words);
    TrimJoined(words);
    JoinedEnds(words);
  }

  lemma JumpReads(uid: nat, space: Namespace)
    ensures Classify(OutputJump(uid, space)) == Append(OUTPUT, OutputJumpWords(uid, space))
    ensures Trim(OutputJump(uid, space)) == OutputJump(uid, space) != ""
    ensures "-A OUTPUT " <= OutputJump(uid, space)
  {
    hide Trim, ChainName, IsSafeChainName, JoinWords, Classify, Decimal;
    JumpWordsAreSolid(uid, space);
    ChainNameIsSafe(space);
    LineReads(OutputJumpWords(uid, space));
    TrimJoined(OutputJumpWords(uid, space));
    assert "-A " + OUTPUT + " " == "-A OUTPUT ";
  }

  lemma OwnedReads(space: Namespace, family: Family, identity: PolicyIdentity, k: nat)
    requires identity in Candidates(space) && k < 4
    ensures var line, words := OwnedChainLines(space, family, identity)[k], OwnedChainWords(space, family, identity)[k];
      && line == JoinWords(words) && Classify(line) == Append(ChainName(space), words)
      && Trim(line) == line != "" && "-A " + ChainName(space) + " " <= line
  {
    hide Trim, ChainName, IsSafeChainName, JoinWords, Classify, Candidates, MarkText;
    OwnedWordsAreSolid(space, family, identity, k);
    ChainNameIsSafe(space);
    var words := OwnedChainWords(space, family, identity)[k];
    assert |words| >= 3 && words[0] == "-A" && words[1] == ChainName(space);
    LineReads(words);
    TrimJoined(words);
  }

  // ----- counting the product's lines -----------------------------------------------------------------

  lemma {:induction false} CountAbsent(lines: seq<string>, line: string)
    requires line !in lines
    ensures Count(lines, line) == 0
  {
    if lines != [] { CountAbsent(lines[1..], line); }
  }

  lemma {:induction false} CountJoins(a: seq<string>, b: seq<string>, line: string)
    ensures Count(a + b, line) == Count(a, line) + Count(b, line)
  {
    if a != [] {
      CountJoins(a[1..], b, line);
      assert (a + b)[1..] == a[1..] + b;
    } else {
      assert a + b == b;
    }
  }

  lemma {:induction false} PrefixJoins(a: seq<string>, b: seq<string>, prefix: string)
    ensures LinesWithPrefix(a + b, prefix) == LinesWithPrefix(a, prefix) + LinesWithPrefix(b, prefix)
  {
    if a != [] {
      PrefixJoins(a[1..], b, prefix);
      assert (a + b)[1..] == a[1..] + b;
    } else {
      assert a + b == b;
    }
  }

  lemma {:induction false} AllHavePrefix(lines: seq<string>, prefix: string)
    requires forall i | 0 <= i < |lines| :: prefix <= lines[i]
    ensures LinesWithPrefix(lines, prefix) == lines
  {
    if lines != [] { AllHavePrefix(lines[1..], prefix); }
  }

  lemma {:induction false} AlreadyNormal(lines: seq<string>)
    requires forall i | 0 <= i < |lines| :: Trim(lines[i]) == lines[i] != ""
    ensures Normalized(lines) == lines
  {
    hide Trim;
    if lines != [] { AlreadyNormal(lines[..|lines| - 1]); }
  }

  lemma LinesDiffer(uid: nat, space: Namespace, line: string)
    requires "-A " + ChainName(space) + " " <= line
    ensures line != ChainDefinition(space) && line != OutputJump(uid, space)
    ensures ChainDefinition(space) != OutputJump(uid, space)
    ensures !("-A " + ChainName(space) + " " <= ChainDefinition(space))
    ensures !("-A " + ChainName(space) + " " <= OutputJump(uid, space))
  {
    hide ChainName, ChainDefinition, OutputJump;
    DefinitionReads(space);
    JumpReads(uid, space);
    ChainNameIsPlain(space);
    var prefix := "-A " + ChainName(space) + " ";
    assert prefix[1] == 'A' && prefix[3] == 'M';
    assert line[1] == 'A' && line[3] == 'M';
    assert ChainDefinition(space)[1] == 'N' && OutputJump(uid, space)[1] == 'A' && OutputJump(uid, space)[3] == 'O';
  }

  lemma InstalledIsAttached(uid: nat, space: Namespace, family: Family, identity: PolicyIdentity)
    requires identity in Candidates(space)
    ensures MangleFamilyState(uid, space, InstalledMangle(uid, space, family, identity), family, identity)
            == AttachedExact
  {
    hide ChainName, ChainDefinition, OutputJump, OwnedChainWords, JoinWords, Candidates;
    var definition, jump := ChainDefinition(space), OutputJump(uid, space);
    var owned, prefix := OwnedChainLines(space, family, identity), "-A " + ChainName(space) + " ";
    forall k | 0 <= k < |owned|
      ensures prefix <= owned[k] && owned[k] != definition && owned[k] != jump
    {
      OwnedReads(space, family, identity, k);
      LinesDiffer(uid, space, owned[k]);
    }
    LinesDiffer(uid, space, prefix);
    CountAbsent(owned, definition);
    CountAbsent(owned, jump);
    CountInstalled(definition, owned, jump, definition);
    CountInstalled(definition, owned, jump, jump);
    PrefixJoins([definition], owned, prefix);
    PrefixJoins([definition] + owned, [jump], prefix);
    AllHavePrefix(owned, prefix);
    AttachedExactMeaning(uid, space, InstalledMangle(uid, space, family, identity), family, identity);
  }

  lemma CountInstalled(first: string, middle: seq<string>, last: string, line: string)
    ensures Count([first] + middle + [last], line) ==
      (if first == line then 1 else 0) + Count(middle, line) + (if last == line then 1 else 0)
  {
    CountJoins([first], middle, line);
    CountJoins([first] + middle, [last], line);
  }

  // ----- the audit of the installed listing --------------------------------------------------------------

  function InstalledListing(uid: nat, space: Namespace, family: Family, identity: PolicyIdentity): Listing {
    Listing({ChainName(space)},
            map[ChainName(space) := OwnedChainWords(space, family, identity), OUTPUT := [OutputJumpWords(uid, space)]])
  }

  lemma {:induction false} AppendedDescribe(g: Listing, earlier: seq<string>, chain: string, lines: seq<string>,
      rules: seq<Rule>)
    requires Describes(g, earlier) && WellFormed(earlier) && |lines| == |rules| > 0
    requires forall k | 0 <= k < |lines| :: Classify(lines[k]) == Append(chain, rules[k])
    ensures WellFormed(earlier + lines)
    ensures Describes(g.(rules := g.rules[chain := g.RulesAt(chain) + rules]), earlier + lines)
    decreases |lines|
  {
    hide Classify, WellFormed, Describes;
    var n := |lines| - 1;
    if n == 0 {
      DescribesStep(g, earlier, lines[0]);
      assert lines == [lines[0]] && rules == [rules[0]];
    } else {
      AppendedDescribe(g, earlier, chain, lines[..n], rules[..n]);
      var h := g.(rules := g.rules[chain := g.RulesAt(chain) + rules[..n]]);
      DescribesStep(h, earlier + lines[..n], lines[n]);
      assert earlier + lines[..n] + [lines[n]] == earlier + lines;
      assert g.RulesAt(chain) + rules[..n] + [rules[n]] == g.RulesAt(chain) + rules;
      assert h.rules[chain := g.RulesAt(chain) + rules] == g.rules[chain := g.RulesAt(chain) + rules];
    }
  }

  lemma InstalledDescribes(uid: nat, space: Namespace, family: Family, identity: PolicyIdentity)
    requires identity in Candidates(space)
    ensures WellFormed(InstalledMangle(uid, space, family, identity))
    ensures Describes(InstalledListing(uid, space, family, identity), InstalledMangle(uid, space, family, identity))
  {
    hide Classify, ChainName, ChainDefinition, OutputJump, OutputJumpWords, OwnedChainWords, JoinWords, Candidates;
    var definition, jump, chain := ChainDefinition(space), OutputJump(uid, space), ChainName(space);
    var lines, rules := OwnedChainLines(space, family, identity), OwnedChainWords(space, family, identity);
    DefinitionReads(space);
    JumpReads(uid, space);
    ChainNameIsSafe(space);
    forall k | 0 <= k < |lines|
      ensures Classify(lines[k]) == Append(chain, rules[k])
    {
      OwnedReads(space, family, identity, k);
    }
    var empty: Listing := Listing({}, map[]);
    assert Describes(empty, []);
    DescribesStep(empty, [], definition);
    var declared := Listing({chain}, map[]);
    assert [] + [definition] == [definition] && {} + {chain} == {chain};
    AppendedDescribe(declared, [definition], chain, lines, rules);
    var owned := Listing({chain}, map[chain := rules]);
    assert [] + rules == rules;
    DescribesStep(owned, [definition] + lines, jump);
    assert [] + [OutputJumpWords(uid, space)] == [OutputJumpWords(uid, space)];
  }

  lemma NotAnOption(word: string)
    requires word != "" && word[0] != '-'
    ensures KindOf(word) == Other && !("-" <= word)
  {
  }

  /** A rule whose only jump is at position `j`. */
  lemma OneJump(rule: Rule, j: nat)
    requires j + 1 < |rule| && rule[j] == "-j" && rule[j + 1] != "" && rule[j + 1][0] != '-'
    requires forall i | 0 <= i < |rule| && i != j :: !KindOf(rule[i]).Jump?
    ensures Target(rule) == Named(rule[j + 1])
  {
    NotAnOption(rule[j + 1]);
    TargetMeaning(rule, |rule|);
    assert JumpTarget(rule, j) == Named(rule[j + 1]);
  }

  lemma JumpTargetsChain(uid: nat, space: Namespace)
    ensures Target(OutputJumpWords(uid, space)) == Named(ChainName(space))
  {
    hide ChainName, Decimal, Target;
    ChainNameIsPlain(space);
    DecimalIsDigits(uid);
    NotAnOption(ChainName(space));
    NotAnOption(Decimal(uid));
    OneJump(OutputJumpWords(uid, space), 6);
  }

  lemma NamesAreNotOptions(space: Namespace, identity: PolicyIdentity)
    requires identity in Candidates(space)
    ensures KindOf(ChainName(space)) == KindOf(identity.markHex) == KindOf(MarkText(identity)) == Other
  {
    hide ChainName, MarkText, Candidates, KindOf;
    ChainNameIsPlain(space);
    NamesAreSolid(space, identity);
    MarkTextStarts(identity);
    NotAnOption(ChainName(space));
    NotAnOption(identity.markHex);
    NotAnOption(MarkText(identity));
  }

  lemma ReturnTarget(space: Namespace, family: Family, identity: PolicyIdentity)
    requires identity in Candidates(space)
    ensures Target(OwnedChainWords(space, family, identity)[0]) == Named("RETURN")
  {
    hide ChainName, MarkText, Candidates, Target;
    NamesAreNotOptions(space, identity);
    OneJump(OwnedChainWords(space, family, identity)[0], 4);
  }

  lemma RestoreTarget(space: Namespace, family: Family, identity: PolicyIdentity)
    requires identity in Candidates(space)
    ensures Target(OwnedChainWords(space, family, identity)[1]) == Named("CONNMARK")
  {
    hide ChainName, MarkText, Candidates, Target;
    NamesAreNotOptions(space, identity);
    OneJump(OwnedChainWords(space, family, identity)[1], 2);
  }

  lemma SetTarget(space: Namespace, family: Family, identity: PolicyIdentity)
    requires identity in Candidates(space)
    ensures Target(OwnedChainWords(space, family, identity)[2]) == Named("MARK")
  {
    hide ChainName, MarkText, Candidates, Target;
    NamesAreNotOptions(space, identity);
    OneJump(OwnedChainWords(space, family, identity)[2], 6);
  }

  lemma SaveTarget(space: Namespace, family: Family, identity: PolicyIdentity)
    requires identity in Candidates(space)
    ensures Target(OwnedChainWords(space, family, identity)[3]) == Named("CONNMARK")
  {
    hide ChainName, MarkText, Candidates, Target;
    NamesAreNotOptions(space, identity);
    OneJump(OwnedChainWords(space, family, identity)[3], 10);
  }

  lemma OwnedTargets(space: Namespace, family: Family, identity: PolicyIdentity, k: nat)
    requires identity in Candidates(space) && k < 4
    ensures var target := Target(OwnedChainWords(space, family, identity)[k]);
      target.Named? && target.name in {"RETURN", "CONNMARK", "MARK"}
  {
    hide Candidates, Target, OwnedChainWords;
    ReturnTarget(space, family, identity);
    RestoreTarget(space, family, identity);
    SetTarget(space, family, identity);
    SaveTarget(space, family, identity);
    assert k == 0 || k == 1 || k == 2 || k == 3;
  }

  lemma BuiltInTargets(space: Namespace)
    ensures ChainName(space) !in {"RETURN", "CONNMARK", "MARK"} && OUTPUT !in {"RETURN", "CONNMARK", "MARK"}
  {
    var names := {"RETURN", "CONNMARK", "MARK"};
    assert forall name | name in names :: |name| != |ChainName(space)| && (|name| == 6 ==> name[0] == 'R');
  }

  /** Every installed rule is one the audit allows, and every target is the product's chain or built in. */
  lemma InstalledChainsOk(uid: nat, space: Namespace, family: Family, identity: PolicyIdentity, candidate: Bits)
    requires identity in Candidates(space)
    ensures var g, allowed := InstalledListing(uid, space, family, identity),
                              AllowedMangleLines(uid, space, family, identity);
      && ChainOk(g, allowed, candidate, ChainName(space)) && ChainOk(g, allowed, candidate, OUTPUT)
      && (forall to :: !Edge(g, ChainName(space), to)) && (forall to | Edge(g, OUTPUT, to) :: to == ChainName(space))
  {
    hide ChainName, ChainDefinition, LegacySelector, OutputJumpWords, OwnedChainWords, JoinWords, Candidates,
      RuleVerdict, Target;
    var g, allowed := InstalledListing(uid, space, family, identity), AllowedMangleLines(uid, space, family, identity);
    ChainNameIsSafe(space);
    BuiltInTargets(space);
    JumpTargetsChain(uid, space);
    var rules := OwnedChainWords(space, family, identity);
    forall k | 0 <= k < |rules|
      ensures RuleOk(g, allowed, candidate, rules[k]) && Target(rules[k]) != Named(ChainName(space))
    {
      OwnedTargets(space, family, identity, k);
      assert JoinWords(rules[k]) == OwnedChainLines(space, family, identity)[k];
    }
  }

  lemma InstalledGraphOk(uid: nat, space: Namespace, family: Family, identity: PolicyIdentity, candidate: Bits)
    requires identity in Candidates(space)
    ensures ReachableOk(InstalledListing(uid, space, family, identity),
                        AllowedMangleLines(uid, space, family, identity), candidate)
  {
    hide ChainName, ChainOk, Edge, InstalledListing, AllowedMangleLines, Candidates, ReachableOk;
    InstalledChainsOk(uid, space, family, identity, candidate);
    ChainNameIsSafe(space);
    var done := [ChainName(space), OUTPUT];
    assert done[..1] == [ChainName(space)];
    FinishedCovers(InstalledListing(uid, space, family, identity), AllowedMangleLines(uid, space, family, identity),
                   candidate, done);
  }

  lemma InstalledMangleIsClean(uid: nat, space: Namespace, family: Family, identity: PolicyIdentity)
    requires identity in Candidates(space)
    ensures AuditClean(InstalledMangle(uid, space, family, identity), AllowedMangleLines(uid, space, family, identity),
                       ChainName(space), identity.markValue)
  {
    hide ChainName, ChainDefinition, LegacySelector, OutputJump, OwnedChainWords, JoinWords, Candidates, Describes,
      ReachableOk, WellFormed, InstalledListing, Trim, BitsOf, Contains, Classify;
    var lines := InstalledMangle(uid, space, family, identity);
    DefinitionReads(space);
    JumpReads(uid, space);
    NamesAreSolid(space, identity);
    forall i | 0 <= i < |lines|
      ensures Trim(lines[i]) == lines[i] != "" && lines[i] in AllowedMangleLines(uid, space, family, identity)
    {
      if 1 <= i <= 4 { OwnedReads(space, family, identity, i - 1); }
    }
    AlreadyNormal(lines);
    InstalledDescribes(uid, space, family, identity);
    InstalledGraphOk(uid, space, family, identity, BitsOf(identity.markValue));
  }

  // ----- the whole policy --------------------------------------------------------------------------------

  lemma InstalledSpaceIsClean(uid: nat, space: Namespace, identity: PolicyIdentity, more: seq<string>)
    requires identity in Candidates(space)
    requires forall i | 0 <= i < |more| :: OwnedLookup(more[i], identity)
    ensures var snapshot := Installed(uid, space, identity);
      ReservedSpaceClean(uid, space, snapshot.(ipv4Rules := snapshot.ipv4Rules + more), identity)
  {
    hide OwnedGuard, OwnedLookup, GuardLine, InstalledMangle, AuditClean, AllowedMangleLines, Candidates;
    GuardIsOwned(space, identity);
    InstalledMangleIsClean(uid, space, Ipv4, identity);
    InstalledMangleIsClean(uid, space, Ipv6, identity);
  }

  /** The installed policy is accepted as fail-closed under the identity it was installed for. */
  lemma InstalledVerifies(uid: nat, space: Namespace, identity: PolicyIdentity)
    requires identity in Candidates(space)
    ensures VerifyFailClosed(uid, space, Some(identity), Installed(uid, space, identity)) == None
  {
    hide OwnedGuard, OwnedLookup, GuardLine, InstalledMangle, MangleFamilyState, ReservedSpaceClean, Candidates;
    var snapshot := Installed(uid, space, identity);
    GuardIsOwned(space, identity);
    InstalledSpaceIsClean(uid, space, identity, []);
    assert snapshot.(ipv4Rules := snapshot.ipv4Rules + []) == snapshot;
    InstalledIsAttached(uid, space, Ipv4, identity);
    InstalledIsAttached(uid, space, Ipv6, identity);
    assert OwnedGuard(snapshot.ipv4Rules[0], identity) && OwnedGuard(snapshot.ipv6Rules[0], identity);
  }

  /** With a routing lookup beside the guard, through any table, the same policy is not fail-closed. */
  lemma LookupIsNoticed(uid: nat, space: Namespace, identity: PolicyIdentity, table: string)
    requires identity in Candidates(space) && IsSafeTableToken(table)
    ensures var snapshot := Installed(uid, space, identity);
      VerifyFailClosed(uid, space, Some(identity),
        snapshot.(ipv4Rules := snapshot.ipv4Rules + [LookupLine(identity, table)])) == Some(LookupStillPresent)
  {
    hide OwnedGuard, OwnedLookup, GuardLine, LookupLine, InstalledMangle, MangleFamilyState, ReservedSpaceClean,
      Candidates;
    var snapshot := Installed(uid, space, identity);
    var open := snapshot.(ipv4Rules := snapshot.ipv4Rules + [LookupLine(identity, table)]);
    GuardIsOwned(space, identity);
    LookupIsOwned(space, identity, table);
    InstalledSpaceIsClean(uid, space, identity, [LookupLine(identity, table)]);
    InstalledIsAttached(uid, space, Ipv4, identity);
    InstalledIsAttached(uid, space, Ipv6, identity);
    assert OwnedGuard(open.ipv4Rules[0], identity) && OwnedGuard(open.ipv6Rules[0], identity);
    assert OwnedLookup(open.ipv4Rules[1], identity);
  }

  /** Every candidate can be the one in force: a contract that finds its policy installed holds it and accepts it. */
  lemma EveryCandidateCanBeHeld(uid: nat, space: Namespace, identity: PolicyIdentity)
    requires identity in Candidates(space)
    ensures var installed := Installed(uid, space, identity);
      && ActiveThrough(uid, space, None, [ResolveCall(installed)]) == Some(identity)
      && VerifyFailClosed(uid, space, ActiveThrough(uid, space, None, [ResolveCall(installed)]), installed) == None
  {
    hide VerifyFailClosed, Resolve, Installed, Candidates;
    var calls := [ResolveCall(Installed(uid, space, identity))];
    InstalledVerifies(uid, space, identity);
    RestartSelectsSameIdentity(uid, space, identity, Installed(uid, space, identity));
    assert calls[..0] == [];
    assert ActiveThrough(uid, space, None, []) == None;
  }

  // ----- printed rules, and lines of the product -----------------------------------------------------------------

  /** A rule printed with the identity's own mark: whose it is depends on its priority and its action. */
  lemma OwnRuleExactly(space: Namespace, identity: PolicyIdentity, priority: nat, action: seq<string>)
    requires identity in Candidates(space) && priority < U32_LIMIT && forall i | 0 <= i < |action| :: Solid(action[i])
    ensures var line := RuleLine(priority, identity, action);
      && (OwnedGuard(line, identity) <==> priority == identity.guardPriority && "unreachable" in action)
      && (OwnedLookup(line, identity) <==>
            && priority == identity.lookupPriority
            && var table := TokenAfter(RuleWords(priority, identity, action), "lookup");
               table.Some? && IsSafeTableToken(table.value))
  {
    hide SplitWhitespace, RpdbPriority, TokenAfter, RuleLine, Candidates, MarkText, Decimal, IsSafeTableToken;
    RuleLineReads(space, priority, identity, action);
    NamesAreSolid(space, identity);
    MarkTextStarts(identity);
    DecimalIsDigits(priority);
    var words := RuleWords(priority, identity, action);
    assert words[5..] == action;
    assert words[0][0] != 'u' && words[4][0] == '0';
    assert "unreachable" in words <==> "unreachable" in action by {
      if k :| 0 <= k < |words| && words[k] == "unreachable" { assert k >= 5 && action[k - 5] == "unreachable"; }
      if k :| 0 <= k < |action| && action[k] == "unreachable" { assert words[k + 5] == "unreachable"; }
    }
  }

  /** Without its guard in either family the installed policy is not fail-closed. */
  lemma MissingGuardIsNoticed(uid: nat, space: Namespace, identity: PolicyIdentity, family: Family)
    requires identity in Candidates(space)
    ensures var installed := Installed(uid, space, identity);
      var bare := if family.Ipv4? then installed.(ipv4Rules := []) else installed.(ipv6Rules := []);
      VerifyFailClosed(uid, space, Some(identity), bare) == Some(GuardMismatch)
  {
    hide OwnedGuard, OwnedLookup, GuardLine, InstalledMangle, MangleFamilyState, AuditClean, AllowedMangleLines,
      Candidates;
    GuardIsOwned(space, identity);
    InstalledMangleIsClean(uid, space, Ipv4, identity);
    InstalledMangleIsClean(uid, space, Ipv6, identity);
    InstalledIsAttached(uid, space, Ipv4, identity);
    InstalledIsAttached(uid, space, Ipv6, identity);
    var installed := Installed(uid, space, identity);
    assert OwnedGuard(installed.ipv4Rules[0], identity) && OwnedGuard(installed.ipv6Rules[0], identity);
  }

  /** Whether any line of the product is present, as `HasAnyProductSignature` finds it. */
  ghost predicate Signed(uid: nat, space: Namespace, snapshot: Snapshot) {
    || MentionsProduct(uid, space, snapshot.ipv4Mangle) || MentionsProduct(uid, space, snapshot.ipv6Mangle)
    || exists identity | identity in Candidates(space) :: RulesMention(snapshot, identity)
  }

  /** A mangle line the product writes, now or in an earlier release. */
  ghost predicate ProductLine(uid: nat, space: Namespace, line: string) {
    || line == ChainDefinition(space) || line == OutputJump(uid, space) || line == LegacySelector(uid, space)
    || exists family, identity | identity in Candidates(space) :: line in OwnedChainLines(space, family, identity)
  }

  lemma {:induction false} JoinedContains(words: seq<string>, k: nat)
    requires k < |words|
    ensures Contains(JoinWords(words), words[k])
  {
    var line := JoinWords(words);
    if |words| == 1 {
      assert line[0..] == line;
    } else if k == 0 {
      assert line[0..] == line;
    } else {
      JoinedContains(words[1..], k - 1);
      var rest := JoinWords(words[1..]);
      var i :| 0 <= i <= |rest| - |words[k]| && words[k] <= rest[i..];
      var at := |words[0]| + 1 + i;
      assert line[at..] == rest[i..];
    }
  }

  /** Any one line of the product, anywhere in a snapshot, is found. */
  lemma ProductLineIsFound(uid: nat, space: Namespace, snapshot: Snapshot, line: string)
    requires line in snapshot.ipv4Mangle || line in snapshot.ipv6Mangle
    requires ProductLine(uid, space, line)
    ensures Signed(uid, space, snapshot)
  {
    hide JoinWords, Contains, Candidates, ChainName, MarkText, Decimal;
    if line == ChainDefinition(space) {
      JoinedContains(["-N", ChainName(space)], 1);
    } else if line == OutputJump(uid, space) {
      JoinedContains(OutputJumpWords(uid, space), 7);
    } else if line != LegacySelector(uid, space) {
      var family, identity :| identity in Candidates(space) && line in OwnedChainLines(space, family, identity);
      var words := OwnedChainWords(space, family, identity);
      var k :| 0 <= k < 4 && line == OwnedChainLines(space, family, identity)[k];
      assert words[k][1] == ChainName(space);
      JoinedContains(words[k], 1);
    }
    assert MentionsProduct(uid, space, snapshot.ipv4Mangle) || MentionsProduct(uid, space, snapshot.ipv6Mangle);
  }

  /** So is a guard in either family and an IPv4 lookup, of any candidate. */
  lemma ProductRuleIsFound(uid: nat, space: Namespace, snapshot: Snapshot, identity: PolicyIdentity, line: string)
    requires identity in Candidates(space)
    requires (line in snapshot.ipv4Rules && (OwnedGuard(line, identity) || OwnedLookup(line, identity)))
             || (line in snapshot.ipv6Rules && OwnedGuard(line, identity))
    ensures Signed(uid, space, snapshot)
  {
    hide OwnedGuard, OwnedLookup, Candidates;
    assert RulesMention(snapshot, identity);
  }
}
