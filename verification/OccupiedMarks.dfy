/** Other owners' rules on the reserved marks: which candidates they leave, and which one is then selected. */
module OccupiedMarks {
  import opened Common
  import opened Text
  import opened MarkAudit
  import opened MarkMeaning
  import opened MangleAudit
  import opened RootPolicy
  import opened InstalledPolicy
  import opened IdentityChoice

  /** A rule that sets the reserved mark of the `i`-th candidate on everything sent. */
  function OccupyingWords(space: Namespace, i: nat): Rule
    requires i < 4
  {
    ["-A", "OUTPUT", "-j", "MARK", "--set-xmark", MarkText(Candidates(space)[i])]
  }

  /** The first `n` candidates are occupied. */
  function OccupyingRules(space: Namespace, n: nat): (rules: seq<Rule>)
    requires n <= 4
    ensures |rules| == n && forall i | 0 <= i < n :: rules[i] == OccupyingWords(space, i)
  {
    seq(n, i requires 0 <= i < 4 => OccupyingWords(space, i))
  }

  function OccupyingLines(space: Namespace, n: nat): (lines: seq<string>)
    requires n <= 4
    ensures |lines| == n && forall i | 0 <= i < n :: lines[i] == JoinWords(OccupyingWords(space, i))
  {
    seq(n, i requires 0 <= i < 4 => JoinWords(OccupyingWords(space, i)))
  }

  function Occupied(space: Namespace, n: nat): Snapshot
    requires n <= 4
  {
    Snapshot([], [], OccupyingLines(space, n), [])
  }

  // ----- what the lines are ------------------------------------------------------------------------------

  lemma WordsAreSolid(space: Namespace, i: nat)
    requires i < 4
    ensures var words := OccupyingWords(space, i); forall k | 0 <= k < |words| :: Solid(words[k])
  {
    hide MarkText, Candidates;
    NamesAreSolid(space, Candidates(space)[i]);
  }

  lemma LineIs(space: Namespace, i: nat)
    requires i < 4
    ensures var line := JoinWords(OccupyingWords(space, i));
      && Classify(line) == Append(OUTPUT, OccupyingWords(space, i))
      && Trim(line) == line != "" && "-A OUTPUT " <= line
  {
    hide Classify, Trim, JoinWords, IsSafeChainName, MarkText, Candidates;
    WordsAreSolid(space, i);
    ChainNameIsSafe(space);
    LineReads(OccupyingWords(space, i));
    TrimJoined(OccupyingWords(space, i));
    assert "-A " + OUTPUT + " " == "-A OUTPUT ";
  }

  lemma {:induction false} JoinedLacks(words: seq<string>, c: char)
    requires c != ' ' && forall k | 0 <= k < |words| :: c !in words[k]
    ensures c !in JoinWords(words)
  {
    if |words| > 1 { JoinedLacks(words[1..], c); }
  }

  lemma NoProductName(space: Namespace, i: nat)
    requires i < 4
    ensures !Contains(JoinWords(OccupyingWords(space, i)), ChainName(space))
  {
    hide JoinWords, Candidates;
    var line, name := JoinWords(OccupyingWords(space, i)), ChainName(space);
    MarkIsPlain(space, i);
    JoinedLacks(OccupyingWords(space, i), '_');
    assert name[4] == '_';
    forall k | 0 <= k <= |line| - |name|
      ensures !(name <= line[k..])
    {
      assert line[k..][4] == line[k + 4];
    }
  }

  lemma NotAllowed(uid: nat, space: Namespace, family: Family, i: nat, j: nat)
    requires i < 4 && j < 4
    ensures JoinWords(OccupyingWords(space, i)) !in AllowedMangleLines(uid, space, family, Candidates(space)[j])
  {
    hide JoinWords, SplitWhitespace, Candidates, MarkText, ChainName, Decimal;
    var words := OccupyingWords(space, i);
    WordsAreSolid(space, i);
    SplitJoined(words);
    OwnedDiffer(space, family, i, j);
    DefinitionDiffers(space, i);
    JumpDiffers(uid, space, i);
    LegacyDiffers(uid, space, i);
  }

  lemma OwnedDiffer(space: Namespace, family: Family, i: nat, j: nat)
    requires i < 4 && j < 4
    ensures JoinWords(OccupyingWords(space, i)) !in OwnedChainLines(space, family, Candidates(space)[j])
  {
    hide JoinWords, SplitWhitespace, Candidates, MarkText, ChainName, OwnedChainWords, Classify, Trim;
    LineIs(space, i);
    ChainNameIsSafe(space);
    forall k | 0 <= k < 4
      ensures OwnedChainLines(space, family, Candidates(space)[j])[k] != JoinWords(OccupyingWords(space, i))
    {
      OwnedReads(space, family, Candidates(space)[j], k);
    }
  }

  lemma DefinitionDiffers(space: Namespace, i: nat)
    requires i < 4
    ensures JoinWords(OccupyingWords(space, i)) != ChainDefinition(space)
  {
    hide *;
    LineIs(space, i);
    DefinitionReads(space);
  }

  lemma JumpDiffers(uid: nat, space: Namespace, i: nat)
    requires i < 4
    ensures JoinWords(OccupyingWords(space, i)) != OutputJump(uid, space)
  {
    hide JoinWords, SplitWhitespace, Classify, Trim;
    LineIs(space, i);
    JumpReads(uid, space);
    assert OccupyingWords(space, i)[2] != OutputJumpWords(uid, space)[2];
  }

  lemma ThirdWordShows(words: Rule)
    requires |words| >= 4 && words[0] == "-A" && words[1] == "OUTPUT" && |words[2]| == 2
    ensures |JoinWords(words)| > 11 && JoinWords(words)[11] == words[2][1]
  {
    hide JoinWords;
    JoinHead(words);
    JoinHead(words[1..]);
    JoinHead(words[1..][1..]);
    var third := JoinWords(words[1..][1..]);
    assert third[1] == words[2][1];
    assert JoinWords(words) == "-A" + " " + ("OUTPUT" + " " + third);
  }

  lemma LegacyDiffers(uid: nat, space: Namespace, i: nat)
    requires i < 4
    ensures JoinWords(OccupyingWords(space, i)) != LegacySelector(uid, space)
  {
    hide JoinWords, Candidates, MarkText, Decimal;
    ThirdWordShows(OccupyingWords(space, i));
    ThirdWordShows(LegacySelectorWords(uid, space));
  }

  // ----- the audit ---------------------------------------------------------------------------------------

  lemma OtherWordsAreHarmless(text: string, candidate: Bits)
    requires text != "" && text[0] == '0'
    ensures var rule := ["-A", "OUTPUT", "-j", "MARK", "--set-xmark", text];
      && !Unexplained(rule) && (Harmless(rule, 4, candidate) <==> SpecAvoids(text, candidate))
      && forall k | 0 <= k < 6 && k != 4 :: Harmless(rule, k, candidate)
  {
    hide SpecAvoids, Avoids, MaskAvoids;
    var rule := ["-A", "OUTPUT", "-j", "MARK", "--set-xmark", text];
    assert rule[4] == "--set-xmark" && rule[5] == text;
  }

  lemma OccupyingVerdict(space: Namespace, i: nat, j: nat)
    requires i < 4 && j < 4
    ensures RuleVerdict(OccupyingWords(space, i), BitsOf(Candidates(space)[j].markValue)) == Clean <==> i != j
  {
    hide Candidates, MarkText, BitsOf, SpecAvoids, MarkSpecTouches, RuleVerdict, Harmless, Unexplained;
    var candidate := BitsOf(Candidates(space)[j].markValue);
    CandidateReservesOneBit(space, j);
    MarksAreApart(space, i, j);
    SpecAvoidsExactly(MarkText(Candidates(space)[i]), candidate);
    NamesAreSolid(space, Candidates(space)[i]);
    MarkTextStarts(Candidates(space)[i]);
    OtherWordsAreHarmless(MarkText(Candidates(space)[i]), candidate);
    RuleCleanExactly(OccupyingWords(space, i), candidate);
  }

  lemma OccupyingTarget(space: Namespace, i: nat)
    requires i < 4
    ensures Target(OccupyingWords(space, i)) == Named("MARK")
  {
    hide Candidates, MarkText, Target;
    NamesAreNotOptions(space, Candidates(space)[i]);
    OneJump(OccupyingWords(space, i), 2);
  }

  function OccupiedListing(space: Namespace, n: nat): Listing
    requires n <= 4
  {
    Listing({}, if n == 0 then map[] else map[OUTPUT := OccupyingRules(space, n)])
  }

  lemma OccupiedDescribes(space: Namespace, n: nat)
    requires n <= 4
    ensures WellFormed(OccupyingLines(space, n)) && Describes(OccupiedListing(space, n), OccupyingLines(space, n))
  {
    hide Classify, JoinWords, OccupyingWords, Trim;
    var empty := Listing({}, map[]);
    assert Describes(empty, []);
    if n > 0 {
      forall i | 0 <= i < n
        ensures Classify(OccupyingLines(space, n)[i]) == Append(OUTPUT, OccupyingRules(space, n)[i])
      {
        LineIs(space, i);
      }
      AppendedDescribe(empty, [], OUTPUT, OccupyingLines(space, n), OccupyingRules(space, n));
      assert [] + OccupyingLines(space, n) == OccupyingLines(space, n);
      assert [] + OccupyingRules(space, n) == OccupyingRules(space, n);
    }
  }

  /** Rule `i` passes under candidate `j` exactly when it occupies another one. */
  lemma OccupyingRuleOk(uid: nat, space: Namespace, family: Family, n: nat, i: nat, j: nat)
    requires i < n <= 4 && j < 4
    ensures var allowed := AllowedMangleLines(uid, space, family, Candidates(space)[j]);
      var candidate := BitsOf(Candidates(space)[j].markValue);
      RuleOk(OccupiedListing(space, n), allowed, candidate, OccupyingWords(space, i)) <==> i != j
  {
    hide Candidates, AllowedMangleLines, BitsOf, RuleVerdict, Target, JoinWords, OccupyingWords;
    NotAllowed(uid, space, family, i, j);
    OccupyingVerdict(space, i, j);
    OccupyingTarget(space, i);
    BuiltInTargets(space);
  }

  lemma OccupiedGraph(uid: nat, space: Namespace, family: Family, n: nat, j: nat)
    requires n <= 4 && j < 4
    ensures var allowed := AllowedMangleLines(uid, space, family, Candidates(space)[j]);
      ReachableOk(OccupiedListing(space, n), allowed, BitsOf(Candidates(space)[j].markValue)) <==> n <= j
  {
    hide Candidates, AllowedMangleLines, BitsOf, RuleOk, OccupyingWords;
    var g, allowed := OccupiedListing(space, n), AllowedMangleLines(uid, space, family, Candidates(space)[j]);
    var candidate := BitsOf(Candidates(space)[j].markValue);
    forall i | 0 <= i < n
      ensures RuleOk(g, allowed, candidate, g.RulesAt(OUTPUT)[i]) <==> i != j
    {
      OccupyingRuleOk(uid, space, family, n, i, j);
    }
    if n <= j {
      FinishedCovers(g, allowed, candidate, [OUTPUT]);
    } else {
      assert PathFromOutput(g, [OUTPUT]) && [OUTPUT][|[OUTPUT]| - 1] == OUTPUT;
      assert Reachable(g, OUTPUT) && !RuleOk(g, allowed, candidate, g.RulesAt(OUTPUT)[j]);
    }
  }

  lemma OccupiedAudit(uid: nat, space: Namespace, family: Family, n: nat, j: nat)
    requires n <= 4 && j < 4
    ensures var allowed := AllowedMangleLines(uid, space, family, Candidates(space)[j]);
      AuditClean(OccupyingLines(space, n), allowed, ChainName(space), Candidates(space)[j].markValue) <==> n <= j
  {
    hide Candidates, AllowedMangleLines, BitsOf, ReachableOk, Describes, WellFormed, JoinWords, OccupyingWords, Trim,
      Contains, Classify, ChainName, OccupiedListing;
    var lines := OccupyingLines(space, n);
    forall i | 0 <= i < n
      ensures Trim(lines[i]) == lines[i] != "" && !Contains(lines[i], ChainName(space))
    {
      LineIs(space, i);
      NoProductName(space, i);
    }
    AlreadyNormal(lines);
    NamesAreSolid(space, Candidates(space)[j]);
    OccupiedDescribes(space, n);
    OccupiedGraph(uid, space, family, n, j);
    forall h | Describes(h, lines)
      ensures h == OccupiedListing(space, n)
    {
      DescriptionUnique(h, OccupiedListing(space, n), lines);
    }
  }

  // ----- the choice --------------------------------------------------------------------------------------

  lemma {:induction false} NoneHavePrefix(lines: seq<string>, prefix: string)
    requires forall i | 0 <= i < |lines| :: !(prefix <= lines[i])
    ensures LinesWithPrefix(lines, prefix) == []
  {
    if lines != [] { NoneHavePrefix(lines[1..], prefix); }
  }

  lemma NoChainHere(uid: nat, space: Namespace, n: nat)
    requires n <= 4
    ensures ChainLines(OccupyingLines(space, n), space) == []
    ensures Count(OccupyingLines(space, n), OutputJump(uid, space)) == 0
  {
    hide JoinWords, OccupyingWords, ChainName, OutputJump, Classify, Trim, Count;
    var lines, prefix := OccupyingLines(space, n), "-A " + ChainName(space) + " ";
    ChainNameIsPlain(space);
    forall i | 0 <= i < n
      ensures !(prefix <= lines[i]) && lines[i] != OutputJump(uid, space)
    {
      LineIs(space, i);
      JumpDiffers(uid, space, i);
      assert lines[i][3] == 'O' && prefix[3] == 'M';
    }
    NoneHavePrefix(lines, prefix);
    CountAbsent(lines, OutputJump(uid, space));
  }

  /** With the first `n` candidates occupied the next one is selected; with all four, none is. */
  lemma OccupiedSelectsNext(uid: nat, space: Namespace, n: nat)
    requires n <= 4
    ensures Resolve(uid, space, None, Occupied(space, n))
      == if n < 4 then Selected(Candidates(space)[n]) else NoIdentity
  {
    hide Candidates, AuditClean, AllowedMangleLines, Resolve, ChainName, OutputJump, OwnedChainLines;
    var snapshot := Occupied(space, n);
    assert OccupyingLines(space, 0) == [];
    NoChainHere(uid, space, n);
    NoChainHere(uid, space, 0);
    forall j | 0 <= j < 4
      ensures Usable(uid, space, snapshot, Candidates(space)[j]) <==> n <= j
    {
      OccupiedAudit(uid, space, Ipv4, n, j);
      OccupiedAudit(uid, space, Ipv6, 0, j);
    }
    FreshChoiceExactly(uid, space, snapshot);
  }

  /** A selected candidate stays selected when the rules that drove the choice are gone. */
  lemma SelectedSurvivesRelease(uid: nat, space: Namespace, n: nat, m: nat)
    requires m <= n < 4
    ensures Resolve(uid, space, ActiveAfter(uid, space, None, Occupied(space, n)), Occupied(space, m))
      == Selected(Candidates(space)[n])
  {
    hide AuditClean, AllowedMangleLines, ChainName, OutputJump, OwnedChainLines, Candidates, FirstClean, Eligible;
    OccupiedSelectsNext(uid, space, n);
    assert OccupyingLines(space, 0) == [];
    NoChainHere(uid, space, m);
    NoChainHere(uid, space, 0);
    OccupiedAudit(uid, space, Ipv4, m, n);
    OccupiedAudit(uid, space, Ipv6, 0, n);
    HeldChoiceExactly(uid, space, Candidates(space)[n], Occupied(space, m));
  }

  /** Other owners' rules are not taken for the product's. */
  lemma OccupiedIsUnsigned(uid: nat, space: Namespace, n: nat)
    requires n <= 4
    ensures !Signed(uid, space, Occupied(space, n))
  {
    hide JoinWords, OccupyingWords, Contains, Candidates, ChainName, LegacySelector;
    forall i | 0 <= i < n
      ensures !Contains(OccupyingLines(space, n)[i], ChainName(space))
              && OccupyingLines(space, n)[i] != LegacySelector(uid, space)
    {
      NoProductName(space, i);
      LegacyDiffers(uid, space, i);
    }
  }
}
