/** Release and debug builds on one device: the policy one installs leaves the other its whole choice. */
module NamespacesApart {
  import opened Common
  import opened Text
  import opened MarkAudit
  import opened MarkMeaning
  import opened MangleAudit
  import opened RootPolicy
  import opened InstalledPolicy
  import opened IdentityChoice
  import OccupiedMarks

  function Other(space: Namespace): Namespace {
    if space.Release? then Debug else Release
  }

  // ----- names -----------------------------------------------------------------------------------------------

  lemma NamesSplit(space: Namespace)
    ensures ChainName(space)[3] == 'H' && |ChainName(space)| >= 14
    ensures ChainName(space)[5] != ChainName(Other(space))[5]
    ensures forall k | 0 <= k < |ChainName(space)| && k != 3 :: ChainName(space)[k] != 'H'
  {
  }

  /** A line that names one namespace's chain once does not hold the other's name. */
  lemma NameOnce(before: string, space: Namespace, after: string)
    requires 'H' !in before && 'H' !in after
    ensures !Contains(before + ChainName(space) + after, ChainName(Other(space)))
  {
    hide ChainName;
    var name, other := ChainName(space), ChainName(Other(space));
    var line := before + name + after;
    NamesSplit(space);
    NamesSplit(Other(space));
    forall k | 0 <= k <= |line| - |other|
      ensures !(other <= line[k..])
    {
      assert line[k..][3] == line[k + 3] && line[k..][5] == line[k + 5];
      if line[k + 3] == 'H' {
        assert k + 3 == |before| + 3;
        assert line[k + 5] == name[5];
      }
    }
  }

  lemma {:induction false} JoinSplits(a: seq<string>, name: string, b: seq<string>)
    requires a != []
    ensures JoinWords(a + [name] + b) == JoinWords(a) + " " + name + (if b == [] then "" else " " + JoinWords(b))
  {
    var words := a + [name] + b;
    if |a| == 1 {
      assert words[1..] == [name] + b;
      assert b != [] ==> ([name] + b)[1..] == b;
      assert b == [] ==> [name] + b == [name];
    } else {
      assert words[1..] == a[1..] + [name] + b;
      JoinSplits(a[1..], name, b);
      JoinAssociates(a[0], JoinWords(a[1..]), name, if b == [] then "" else " " + JoinWords(b));
    }
  }

  lemma JoinAssociates(first: string, rest: string, name: string, tail: string)
    ensures first + " " + (rest + " " + name + tail) == (first + " " + rest) + " " + name + tail
  {
  }

  /** The words before and after the chain's name. */
  lemma LineNamesOnce(space: Namespace, words: Rule, k: nat)
    requires 0 < k < |words| && words[k] == ChainName(space)
    requires forall j | 0 <= j < |words| && j != k :: 'H' !in words[j]
    ensures !Contains(JoinWords(words), ChainName(Other(space)))
  {
    hide ChainName, JoinWords, Contains;
    var a, b := words[..k], words[k + 1..];
    assert words == a + [ChainName(space)] + b;
    JoinSplits(a, ChainName(space), b);
    OccupiedMarks.JoinedLacks(a, 'H');
    OccupiedMarks.JoinedLacks(b, 'H');
    var tail := if b == [] then "" else " " + JoinWords(b);
    assert 'H' !in JoinWords(a) + " " && 'H' !in tail;
    NameOnce(JoinWords(a) + " ", space, tail);
  }

  lemma MarkHasNoLetter(space: Namespace, i: nat)
    requires i < 4
    ensures 'H' !in Candidates(space)[i].markHex && 'H' !in MarkText(Candidates(space)[i])
  {
    assert i == 0 || i == 1 || i == 2 || i == 3;
  }

  lemma OwnedNamesOnce(space: Namespace, family: Family, i: nat, k: nat)
    requires i < 4 && k < 4
    ensures var line := OwnedChainLines(space, family, Candidates(space)[i])[k];
      !Contains(line, ChainName(Other(space)))
  {
    hide ChainName, JoinWords, Contains, Candidates, MarkText;
    MarkHasNoLetter(space, i);
    LineNamesOnce(space, OwnedChainWords(space, family, Candidates(space)[i])[k], 1);
  }

  lemma JumpNamesOnce(uid: nat, space: Namespace)
    ensures !Contains(OutputJump(uid, space), ChainName(Other(space)))
    ensures !Contains(ChainDefinition(space), ChainName(Other(space)))
  {
    hide ChainName, JoinWords, Contains, Decimal;
    DecimalIsDigits(uid);
    LineNamesOnce(space, OutputJumpWords(uid, space), 7);
    LineNamesOnce(space, ["-N", ChainName(space)], 1);
  }

  // ----- marks -----------------------------------------------------------------------------------------------

  /** Marks of different namespaces share no bit. */
  lemma MarksShareNothing(space: Namespace, i: nat, j: nat)
    requires i < 4 && j < 4
    ensures var candidate := BitsOf(Candidates(Other(space))[j].markValue);
      && Candidate(candidate) && Avoids(Candidates(space)[i].markHex, candidate)
      && SpecAvoids(MarkText(Candidates(space)[i]), candidate)
  {
    hide BitsOf, Candidates;
    var text, value := Candidates(space)[i].markHex, Candidates(space)[i].markValue;
    var candidate := BitsOf(Candidates(Other(space))[j].markValue);
    MarkReads(space, i);
    CandidateReservesOneBit(space, i);
    CandidateReservesOneBit(Other(space), j);
    BitsOfMeaning(value, BitOf(Other(space), j));
    assert Reads(text, value) && forall bit | bit in candidate :: !HasBit(value, bit);
    assert Readable(text) && Avoids(text, candidate) && MarkText(Candidates(space)[i]) == text + "/" + text;
  }

  /** No word of the rule is read as a mark option, apart from those listed. */
  lemma OwnedIsHarmless(space: Namespace, family: Family, i: nat, k: nat, candidate: Bits)
    requires i < 4 && k < 4 && Candidate(candidate)
    requires Avoids(Candidates(space)[i].markHex, candidate) && SpecAvoids(MarkText(Candidates(space)[i]), candidate)
    ensures RuleVerdict(OwnedChainWords(space, family, Candidates(space)[i])[k], candidate) == Clean
  {
    hide Candidates, MarkText, ChainName, RuleVerdict, Harmless, Unexplained, OwnedChainWords;
    var rule := OwnedChainWords(space, family, Candidates(space)[i])[k];
    forall w | 0 <= w < |rule| ensures Harmless(rule, w, candidate) {
      OwnedWordIsHarmless(space, family, i, k, w, candidate);
    }
    OwnedIsExplained(space, family, i, k);
    RuleCleanExactly(rule, candidate);
  }

  lemma MasksAvoid(space: Namespace, family: Family, i: nat, k: nat, candidate: Bits)
    requires i < 4 && (k == 1 || k == 3) && Avoids(Candidates(space)[i].markHex, candidate)
    ensures var rule := OwnedChainWords(space, family, Candidates(space)[i])[k];
      MaskAvoids(rule, "--nfmask", candidate) && MaskAvoids(rule, "--ctmask", candidate)
  {
    hide Candidates, MarkText, ChainName, Avoids;
    var rule := OwnedChainWords(space, family, Candidates(space)[i])[k];
    NamesAreSolid(space, Candidates(space)[i]);
    MarkTextStarts(Candidates(space)[i]);
    ChainNameIsPlain(space);
    var at := if k == 1 then 5 else 13;
    assert rule[at] == "--nfmask" && rule[at + 1] == Candidates(space)[i].markHex;
    assert rule[at + 2] == "--ctmask" && rule[at + 3] == Candidates(space)[i].markHex;
    assert HasNext(rule, at) && HasNext(rule, at + 2);
  }

  lemma OwnedWordIsHarmless(space: Namespace, family: Family, i: nat, k: nat, w: nat, candidate: Bits)
    requires i < 4 && k < 4 && w < |OwnedChainWords(space, family, Candidates(space)[i])[k]|
    requires Avoids(Candidates(space)[i].markHex, candidate) && SpecAvoids(MarkText(Candidates(space)[i]), candidate)
    ensures Harmless(OwnedChainWords(space, family, Candidates(space)[i])[k], w, candidate)
  {
    hide Candidates, MarkText, ChainName, Avoids, SpecAvoids, MaskAvoids;
    NamesAreSolid(space, Candidates(space)[i]);
    MarkTextStarts(Candidates(space)[i]);
    ChainNameIsPlain(space);
    if k == 1 || k == 3 { MasksAvoid(space, family, i, k, candidate); }
  }

  lemma OwnedIsExplained(space: Namespace, family: Family, i: nat, k: nat)
    requires i < 4 && k < 4
    ensures !Unexplained(OwnedChainWords(space, family, Candidates(space)[i])[k])
  {
    hide Candidates, MarkText, ChainName;
    var rule := OwnedChainWords(space, family, Candidates(space)[i])[k];
    if k == 0 {
      NamesAreSolid(space, Candidates(space)[i]);
      ChainNameIsPlain(space);
    } else if k == 1 {
      assert rule[4] == "--restore-mark";
    } else if k == 2 {
      assert rule[8] == "--set-xmark";
    } else {
      assert rule[12] == "--save-mark";
    }
  }

  lemma JumpWordIsHarmless(uid: nat, space: Namespace, w: nat, candidate: Bits)
    requires w < 8
    ensures Harmless(OutputJumpWords(uid, space), w, candidate)
  {
    hide Decimal, ChainName, Avoids, SpecAvoids, MaskAvoids;
    var rule := OutputJumpWords(uid, space);
    DecimalIsDigits(uid);
    ChainNameIsPlain(space);
    if w == 4 {
      assert rule[w] == "--uid-owner";
    } else if w == 5 {
      assert rule[w] == Decimal(uid) && rule[w][0] != '-';
    } else if w == 7 {
      assert rule[w] == ChainName(space) && rule[w][0] != '-';
    }
  }

  lemma JumpIsHarmless(uid: nat, space: Namespace, candidate: Bits)
    requires Candidate(candidate)
    ensures RuleVerdict(OutputJumpWords(uid, space), candidate) == Clean
  {
    hide Decimal, ChainName, RuleVerdict, Harmless;
    var rule := OutputJumpWords(uid, space);
    DecimalIsDigits(uid);
    ChainNameIsPlain(space);
    BuiltInTargets(space);
    forall w | 0 <= w < |rule| ensures Harmless(rule, w, candidate) { JumpWordIsHarmless(uid, space, w, candidate); }
    assert !Unexplained(rule);
    RuleCleanExactly(rule, candidate);
  }

  // ----- the other build's audit -------------------------------------------------------------------------------

  lemma InstalledGraphElsewhere(uid: nat, space: Namespace, family: Family, i: nat, allowed: set<string>,
      candidate: Bits)
    requires i < 4 && Candidate(candidate)
    requires Avoids(Candidates(space)[i].markHex, candidate) && SpecAvoids(MarkText(Candidates(space)[i]), candidate)
    ensures ReachableOk(InstalledListing(uid, space, family, Candidates(space)[i]), allowed, candidate)
  {
    hide Candidates, ChainName, OutputJumpWords, OwnedChainWords, AllowedMangleLines, RuleVerdict, Edge, TargetOk,
      Avoids, SpecAvoids, MarkText;
    var identity := Candidates(space)[i];
    var g := InstalledListing(uid, space, family, identity);
    InstalledChainsOk(uid, space, family, identity, candidate);
    ChainNameIsSafe(space);
    JumpIsHarmless(uid, space, candidate);
    forall k | 0 <= k < |g.RulesAt(ChainName(space))|
      ensures RuleOk(g, allowed, candidate, g.RulesAt(ChainName(space))[k])
    {
      OwnedIsHarmless(space, family, i, k, candidate);
    }
    assert ChainOk(g, allowed, candidate, OUTPUT) && ChainOk(g, allowed, candidate, ChainName(space));
    CoverTwo(g, allowed, candidate, ChainName(space));
  }

  lemma CoverTwo(g: Listing, allowed: set<string>, candidate: Bits, chain: string)
    requires chain != OUTPUT && ChainOk(g, allowed, candidate, OUTPUT) && ChainOk(g, allowed, candidate, chain)
    requires (forall to :: !Edge(g, chain, to)) && (forall to | Edge(g, OUTPUT, to) :: to == chain)
    ensures ReachableOk(g, allowed, candidate)
  {
    hide ChainOk, Edge, ReachableOk;
    var done := [chain, OUTPUT];
    assert done[..1] == [chain];
    FinishedCovers(g, allowed, candidate, done);
  }

  lemma InstalledAuditElsewhere(uid: nat, space: Namespace, family: Family, i: nat, allowed: set<string>, j: nat)
    requires i < 4 && j < 4
    ensures AuditClean(InstalledMangle(uid, space, family, Candidates(space)[i]), allowed, ChainName(Other(space)),
                       Candidates(Other(space))[j].markValue)
  {
    hide ChainName, ChainDefinition, OutputJump, OwnedChainWords, JoinWords, Candidates, Describes, ReachableOk,
      WellFormed, InstalledListing, Trim, BitsOf, Contains, Classify, Avoids, SpecAvoids;
    var identity := Candidates(space)[i];
    var lines := InstalledMangle(uid, space, family, identity);
    DefinitionReads(space);
    JumpReads(uid, space);
    JumpNamesOnce(uid, space);
    forall k | 0 <= k < |lines|
      ensures Trim(lines[k]) == lines[k] != "" && !Contains(lines[k], ChainName(Other(space)))
    {
      if 1 <= k <= 4 {
        OwnedReads(space, family, identity, k - 1);
        OwnedNamesOnce(space, family, i, k - 1);
      }
    }
    AlreadyNormal(lines);
    InstalledDescribes(uid, space, family, identity);
    NamesAreSolid(Other(space), Candidates(Other(space))[j]);
    MarksShareNothing(space, i, j);
    InstalledGraphElsewhere(uid, space, family, i, allowed, BitsOf(Candidates(Other(space))[j].markValue));
  }

  lemma PrioritiesApart(space: Namespace, i: nat, j: nat)
    requires i < 4 && j < 4
    ensures Candidates(space)[i].guardPriority != Candidates(Other(space))[j].guardPriority
    ensures Candidates(space)[i].guardPriority != Candidates(Other(space))[j].lookupPriority
    ensures Candidates(space)[i].guardPriority < U32_LIMIT
  {
    assert i == 0 || i == 1 || i == 2 || i == 3;
    assert j == 0 || j == 1 || j == 2 || j == 3;
  }

  lemma GuardIsNotForeign(space: Namespace, i: nat, j: nat, family: Family)
    requires i < 4 && j < 4
    ensures !ForeignReserved(GuardLine(Candidates(space)[i]), family, Candidates(Other(space))[j])
  {
    hide Candidates, MarkText, RpdbPriority, SplitWhitespace, RuleLine, TokenAfter, MarkSpecTouches, BitsOf, Avoids,
      SpecAvoids, OwnedGuard, OwnedLookup;
    var identity := Candidates(space)[i];
    PrioritiesApart(space, i, j);
    assert Solid("unreachable");
    RuleLineReads(space, identity.guardPriority, identity, ["unreachable"]);
    MarksShareNothing(space, i, j);
    SpecAvoidsExactly(MarkText(identity), BitsOf(Candidates(Other(space))[j].markValue));
  }

  lemma PrefixNames(line: string, name: string)
    ensures "-A " + name + " " <= line ==> Contains(line, name)
  {
    if "-A " + name + " " <= line {
      var prefix := "-A " + name + " ";
      assert line == prefix + line[|prefix|..];
      assert line[3..] == name + " " + line[|prefix|..];
      assert name <= line[3..];
    }
  }

  lemma NoTraceElsewhere(uid: nat, other: nat, space: Namespace, family: Family, i: nat)
    requires i < 4
    ensures var lines := InstalledMangle(uid, space, family, Candidates(space)[i]);
      ChainLines(lines, Other(space)) == [] && Count(lines, OutputJump(other, Other(space))) == 0
  {
    hide ChainName, ChainDefinition, OutputJump, OwnedChainWords, JoinWords, Candidates, Contains, Count;
    var lines := InstalledMangle(uid, space, family, Candidates(space)[i]);
    JumpNamesOnce(uid, space);
    JumpNames(other, Other(space));
    forall k | 0 <= k < |lines|
      ensures !("-A " + ChainName(Other(space)) + " " <= lines[k]) && lines[k] != OutputJump(other, Other(space))
    {
      if 1 <= k <= 4 { OwnedNamesOnce(space, family, i, k - 1); }
      PrefixNames(lines[k], ChainName(Other(space)));
    }
    OccupiedMarks.NoneHavePrefix(lines, "-A " + ChainName(Other(space)) + " ");
    CountAbsent(lines, OutputJump(other, Other(space)));
  }

  lemma JumpNames(uid: nat, space: Namespace)
    ensures Contains(OutputJump(uid, space), ChainName(space))
  {
    hide JoinWords, Contains, ChainName, Decimal;
    JoinedContains(OutputJumpWords(uid, space), 7);
  }

  /** Whatever one build has installed, every candidate of the other is usable and its first one is selected. */
  lemma OtherBuildIsUndisturbed(uid: nat, other: nat, space: Namespace, i: nat)
    requires i < 4
    ensures var installed := Installed(uid, space, Candidates(space)[i]);
      && (forall j | 0 <= j < 4 :: Usable(other, Other(space), installed, Candidates(Other(space))[j]))
      && Resolve(other, Other(space), None, installed) == Selected(Candidates(Other(space))[0])
  {
    hide Candidates, AuditClean, AllowedMangleLines, Resolve, ChainName, OutputJump, OwnedChainLines, InstalledMangle,
      GuardLine, ForeignReserved;
    var installed := Installed(uid, space, Candidates(space)[i]);
    NoTraceElsewhere(uid, other, space, Ipv4, i);
    NoTraceElsewhere(uid, other, space, Ipv6, i);
    forall j | 0 <= j < 4
      ensures Usable(other, Other(space), installed, Candidates(Other(space))[j])
    {
      var identity := Candidates(Other(space))[j];
      InstalledAuditElsewhere(uid, space, Ipv4, i, AllowedMangleLines(other, Other(space), Ipv4, identity), j);
      InstalledAuditElsewhere(uid, space, Ipv6, i, AllowedMangleLines(other, Other(space), Ipv6, identity), j);
      GuardIsNotForeign(space, i, j, Ipv4);
      GuardIsNotForeign(space, i, j, Ipv6);
    }
    FreshChoiceExactly(other, Other(space), installed);
  }
}
