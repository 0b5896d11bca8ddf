/** What the product's own chain does to a packet, as netfilter reads the installed rules. */
module ProductChain {
  import opened Common
  import opened Text
  import opened MarkAudit
  import opened MarkMeaning
  import opened MangleAudit
  import opened RootPolicy
  import opened InstalledPolicy
  import opened IdentityChoice

  /** What the matches of the installed rules look at. */
  datatype Packet = Packet(owner: nat, loopback: bool, opensConnection: bool)

  function LoopbackNetwork(family: Family): string {
    if family.Ipv4? then "127.0.0.0/8" else "::1/128"
  }

  /** The match extension is loaded, without which its options are refused. */
  predicate Loads(rule: Rule, extension: string) {
    exists i | 0 <= i < |rule| - 1 :: rule[i] == "-m" && rule[i + 1] == extension
  }

  predicate WellMade(rule: Rule) {
    && ("--uid-owner" in rule ==> Loads(rule, "owner"))
    && ("--ctstate" in rule ==> Loads(rule, "conntrack"))
    && ("--mark" in rule ==> Loads(rule, "mark"))
  }

  predicate MarkMatches(spec: string, mark: Bits) {
    var parsed := ParseMarkSpec(spec);
    parsed.Some? && mark * parsed.value.mask == parsed.value.value
  }

  /** Every match of the rule holds of the packet. */
  predicate Matches(rule: Rule, family: Family, p: Packet, m: Marks) {
    && (TokenAfter(rule, "--uid-owner").Some? ==> TokenAfter(rule, "--uid-owner").value == Decimal(p.owner))
    && (TokenAfter(rule, "--ctstate") == Some("NEW") ==> p.opensConnection)
    && (TokenAfter(rule, "-d") == Some(LoopbackNetwork(family)) ==> p.loopback)
    && (TokenAfter(rule, "--mark").Some? ==> MarkMatches(TokenAfter(rule, "--mark").value, m.packet))
  }

  function TargetOf(rule: Rule): string {
    var t := MangleAudit.Target(rule);
    if t.Named? then t.name else ""
  }

  /** The rules of one chain, in order, until one of them returns. */
  function Traversed(rules: seq<Rule>, family: Family, p: Packet, m: Marks): Marks {
    if rules == [] then m
    else if !Matches(rules[0], family, p, m) then Traversed(rules[1..], family, p, m)
    else if TargetOf(rules[0]) == "RETURN" then m
    else Traversed(rules[1..], family, p, RunRule(rules[0], TargetOf(rules[0]), |rules[0]|, m))
  }

  /** The marks after OUTPUT with the policy installed. */
  function Sent(uid: nat, space: Namespace, family: Family, identity: PolicyIdentity, p: Packet, m: Marks): Marks {
    var jump := OutputJumpWords(uid, space);
    if Matches(jump, family, p, m) && TargetOf(jump) == ChainName(space) then
      Traversed(OwnedChainWords(space, family, identity), family, p, m)
    else m
  }

  // ----- the matches of each rule ----------------------------------------------------------------------------

  lemma After(rule: Rule, option: string, k: nat)
    requires k + 1 < |rule| && rule[k] == option && forall j | 0 <= j < k :: rule[j] != option
    ensures TokenAfter(rule, option) == Some(rule[k + 1])
  {
    assert Position(rule, option) == k;
  }

  lemma Absent(rule: Rule, option: string)
    requires option !in rule
    ensures TokenAfter(rule, option) == None
  {
    assert Position(rule, option) == |rule|;
  }

  lemma {:induction false} DecimalIsInjective(a: nat, b: nat)
    ensures Decimal(a) == Decimal(b) <==> a == b
  {
    DecimalValue(a);
    DecimalValue(b);
  }

  /** The names and numbers in the rules are not options. */
  predicate Name(word: string) {
    word != "" && word[0] != '-'
  }

  lemma NamesHere(uid: nat, space: Namespace, i: nat)
    requires i < 4
    ensures Name(ChainName(space)) && Name(Decimal(uid))
    ensures Name(Candidates(space)[i].markHex) && Name(MarkText(Candidates(space)[i]))
  {
    hide Candidates, MarkText, ChainName, Decimal;
    ChainNameIsPlain(space);
    DecimalIsDigits(uid);
    NamesAreSolid(space, Candidates(space)[i]);
    MarkTextStarts(Candidates(space)[i]);
  }

  lemma JumpMatches(uid: nat, space: Namespace, family: Family, p: Packet, m: Marks)
    ensures Matches(OutputJumpWords(uid, space), family, p, m) <==> p.owner == uid
    ensures TargetOf(OutputJumpWords(uid, space)) == ChainName(space) && WellMade(OutputJumpWords(uid, space))
  {
    hide ChainName, Decimal, MangleAudit.Target, TokenAfter;
    NamesHere(uid, space, 0);
    JumpTargetsChain(uid, space);
    DecimalIsInjective(p.owner, uid);
    var rule := OutputJumpWords(uid, space);
    After(rule, "--uid-owner", 4);
    Absent(rule, "--ctstate");
    Absent(rule, "-d");
    Absent(rule, "--mark");
    assert rule[2] == "-m" && rule[3] == "owner";
  }

  lemma ReturnMatches(space: Namespace, family: Family, i: nat, p: Packet, m: Marks)
    requires i < 4
    ensures var rule := OwnedChainWords(space, family, Candidates(space)[i])[0];
      (Matches(rule, family, p, m) <==> p.loopback) && TargetOf(rule) == "RETURN" && WellMade(rule)
  {
    hide ChainName, MangleAudit.Target, TokenAfter, Candidates, MarkText;
    NamesHere(0, space, i);
    ReturnTarget(space, family, Candidates(space)[i]);
    var rule := OwnedChainWords(space, family, Candidates(space)[i])[0];
    After(rule, "-d", 2);
    Absent(rule, "--uid-owner");
    Absent(rule, "--ctstate");
    Absent(rule, "--mark");
  }

  lemma RestoreMatches(space: Namespace, family: Family, i: nat, p: Packet, m: Marks)
    requires i < 4
    ensures var rule := OwnedChainWords(space, family, Candidates(space)[i])[1];
      Matches(rule, family, p, m) && TargetOf(rule) == "CONNMARK" && WellMade(rule)
  {
    hide ChainName, MangleAudit.Target, TokenAfter, Candidates, MarkText;
    NamesHere(0, space, i);
    RestoreTarget(space, family, Candidates(space)[i]);
    var rule := OwnedChainWords(space, family, Candidates(space)[i])[1];
    Absent(rule, "-d");
    Absent(rule, "--uid-owner");
    Absent(rule, "--ctstate");
    Absent(rule, "--mark");
  }

  lemma SetMatches(space: Namespace, family: Family, i: nat, p: Packet, m: Marks)
    requires i < 4
    ensures var rule := OwnedChainWords(space, family, Candidates(space)[i])[2];
      (Matches(rule, family, p, m) <==> p.opensConnection) && TargetOf(rule) == "MARK" && WellMade(rule)
  {
    hide ChainName, MangleAudit.Target, TokenAfter, Candidates, MarkText;
    NamesHere(0, space, i);
    SetTarget(space, family, Candidates(space)[i]);
    var rule := OwnedChainWords(space, family, Candidates(space)[i])[2];
    After(rule, "--ctstate", 4);
    Absent(rule, "-d");
    Absent(rule, "--uid-owner");
    Absent(rule, "--mark");
    assert rule[2] == "-m" && rule[3] == "conntrack";
  }

  lemma SaveLacks(space: Namespace, family: Family, i: nat)
    requires i < 4
    ensures var rule := OwnedChainWords(space, family, Candidates(space)[i])[3];
      TokenAfter(rule, "-d") == None && TokenAfter(rule, "--uid-owner") == None && "--uid-owner" !in rule
  {
    hide ChainName, TokenAfter, Candidates, MarkText;
    NamesHere(0, space, i);
    var rule := OwnedChainWords(space, family, Candidates(space)[i])[3];
    Absent(rule, "-d");
    Absent(rule, "--uid-owner");
  }

  lemma SaveOptions(space: Namespace, family: Family, i: nat)
    requires i < 4
    ensures var rule := OwnedChainWords(space, family, Candidates(space)[i])[3];
      TokenAfter(rule, "--ctstate") == Some("NEW") && TokenAfter(rule, "--mark") == Some(rule[9])
  {
    hide ChainName, TokenAfter, Candidates, MarkText;
    NamesHere(0, space, i);
    var rule := OwnedChainWords(space, family, Candidates(space)[i])[3];
    After(rule, "--ctstate", 4);
    After(rule, "--mark", 8);
  }

  lemma SaveMatches(space: Namespace, family: Family, i: nat, p: Packet, m: Marks)
    requires i < 4
    ensures var rule := OwnedChainWords(space, family, Candidates(space)[i])[3];
      && (Matches(rule, family, p, m) <==> p.opensConnection && MarkMatches(MarkText(Candidates(space)[i]), m.packet))
      && TargetOf(rule) == "CONNMARK" && WellMade(rule)
  {
    hide ChainName, MangleAudit.Target, TokenAfter, Candidates, MarkText, MarkMatches;
    SaveOptions(space, family, i);
    SaveLacks(space, family, i);
    SaveTarget(space, family, Candidates(space)[i]);
    var rule := OwnedChainWords(space, family, Candidates(space)[i])[3];
    assert rule[2] == "-m" && rule[3] == "conntrack" && rule[6] == "-m" && rule[7] == "mark";
    assert Loads(rule, "conntrack") && Loads(rule, "mark");
  }

  // ----- the effect of each rule -----------------------------------------------------------------------------

  lemma OneOp(rule: Rule, at: nat, target: string, m: Marks)
    requires at < |rule| && forall k | 0 <= k < |rule| && k != at :: OpAt(rule, k) == NoOp
    ensures RunRule(rule, target, |rule|, m) == ApplyOp(OpAt(rule, at), target, m)
  {
    hide OpAt, ApplyOp;
    NoOpsKeep(rule, target, 0, at, m);
    NoOpsKeep(rule, target, at + 1, |rule|, m);
  }

  /** The mark of the `i`-th candidate, read as a spec and as a mask, is its one bit. */
  lemma MarkIsOneBit(space: Namespace, i: nat)
    requires i < 4
    ensures var bit := {BitOf(space, i)};
      && ParseMarkSpec(MarkText(Candidates(space)[i])) == Some(MarkSpec(bit, bit))
      && MaskToken(Candidates(space)[i].markHex) == Some(bit)
  {
    hide Candidates, BitsOf, ParseUnsigned;
    var mark := Candidates(space)[i];
    MarkReads(space, i);
    ReadsExactly(mark.markHex, mark.markValue);
    CandidateReservesOneBit(space, i);
    SplitAtOne(mark.markHex, mark.markHex);
  }

  lemma PlainHasNoOp(rule: Rule, k: nat)
    requires k < |rule| && !KindOf(rule[k]).SetXMark? && !KindOf(rule[k]).SetMark?
    requires !KindOf(rule[k]).RestoreMark? && !KindOf(rule[k]).SaveMark?
    ensures OpAt(rule, k) == NoOp
  {
  }

  lemma NamesAreOther(space: Namespace, i: nat)
    requires i < 4
    ensures KindOf(ChainName(space)) == Other && KindOf(Candidates(space)[i].markHex) == Other
    ensures KindOf(MarkText(Candidates(space)[i])) == Other
  {
    hide Candidates, MarkText, ChainName, KindOf;
    NamesHere(0, space, i);
    NotAnOption(ChainName(space));
    NotAnOption(Candidates(space)[i].markHex);
    NotAnOption(MarkText(Candidates(space)[i]));
  }

  lemma MaskIs(rule: Rule, option: string, k: nat, mask: Bits)
    requires k + 1 < |rule| && rule[k] == option && forall j | 0 <= j < k :: rule[j] != option
    requires MaskToken(rule[k + 1]) == Some(mask)
    ensures OptionMask(rule, option) == mask
  {
    After(rule, option, k);
  }

  lemma RestoreActs(space: Namespace, family: Family, i: nat, m: Marks)
    requires i < 4
    ensures var rule, bit := OwnedChainWords(space, family, Candidates(space)[i])[1], {BitOf(space, i)};
      RunRule(rule, "CONNMARK", |rule|, m) == m.(packet := Toggle(m.packet - bit, m.connection * bit))
  {
    hide Candidates, MarkText, ChainName, MaskToken, OpAt, RunRule, OptionMask, ParseMarkSpec;
    var rule, bit := OwnedChainWords(space, family, Candidates(space)[i])[1], {BitOf(space, i)};
    NamesAreOther(space, i);
    NamesHere(0, space, i);
    MarkIsOneBit(space, i);
    forall k | 0 <= k < |rule| && k != 4 ensures OpAt(rule, k) == NoOp { PlainHasNoOp(rule, k); }
    MaskIs(rule, "--nfmask", 5, bit);
    MaskIs(rule, "--ctmask", 7, bit);
    RestoreOp(rule, 4);
    OneOp(rule, 4, "CONNMARK", m);
  }

  lemma RestoreOp(rule: Rule, k: nat)
    requires k < |rule|
    ensures rule[k] == "--restore-mark" ==>
      OpAt(rule, k) == Restore(OptionMask(rule, "--nfmask"), OptionMask(rule, "--ctmask"))
    ensures rule[k] == "--save-mark" ==>
      OpAt(rule, k) == Save(OptionMask(rule, "--nfmask"), OptionMask(rule, "--ctmask"))
  {
  }

  lemma SetActs(space: Namespace, family: Family, i: nat, m: Marks)
    requires i < 4
    ensures var rule, bit := OwnedChainWords(space, family, Candidates(space)[i])[2], {BitOf(space, i)};
      RunRule(rule, "MARK", |rule|, m) == m.(packet := Toggle(m.packet - bit, bit))
  {
    hide Candidates, MarkText, ChainName, MaskToken, OpAt, RunRule, OptionMask, ParseMarkSpec;
    var rule, bit := OwnedChainWords(space, family, Candidates(space)[i])[2], {BitOf(space, i)};
    NamesAreOther(space, i);
    MarkIsOneBit(space, i);
    forall k | 0 <= k < |rule| && k != 8 ensures OpAt(rule, k) == NoOp { PlainHasNoOp(rule, k); }
    SetOp(rule, 8, MarkSpec(bit, bit));
    OneOp(rule, 8, "MARK", m);
  }

  lemma SetOp(rule: Rule, k: nat, spec: MarkSpec)
    requires k + 1 < |rule| && rule[k] == "--set-xmark" && ParseMarkSpec(rule[k + 1]) == Some(spec)
    ensures OpAt(rule, k) == Xor(spec)
  {
  }

  lemma SaveHasOneOp(space: Namespace, family: Family, i: nat, k: nat)
    requires i < 4 && k < 17 && k != 12
    ensures OpAt(OwnedChainWords(space, family, Candidates(space)[i])[3], k) == NoOp
  {
    hide Candidates, MarkText, ChainName, OpAt;
    NamesAreOther(space, i);
    PlainHasNoOp(OwnedChainWords(space, family, Candidates(space)[i])[3], k);
  }

  lemma SaveMasks(space: Namespace, family: Family, i: nat)
    requires i < 4
    ensures var rule, bit := OwnedChainWords(space, family, Candidates(space)[i])[3], {BitOf(space, i)};
      && |rule| == 17 && OpAt(rule, 12) == Save(bit, bit)
  {
    hide Candidates, MarkText, ChainName, MaskToken, OpAt, OptionMask, ParseMarkSpec;
    var rule, bit := OwnedChainWords(space, family, Candidates(space)[i])[3], {BitOf(space, i)};
    NamesHere(0, space, i);
    MarkIsOneBit(space, i);
    MaskIs(rule, "--nfmask", 13, bit);
    MaskIs(rule, "--ctmask", 15, bit);
    RestoreOp(rule, 12);
  }

  lemma SaveActs(space: Namespace, family: Family, i: nat, m: Marks)
    requires i < 4
    ensures var rule, bit := OwnedChainWords(space, family, Candidates(space)[i])[3], {BitOf(space, i)};
      RunRule(rule, "CONNMARK", |rule|, m) == m.(connection := Toggle(m.connection - bit, m.packet * bit))
  {
    hide Candidates, OwnedChainWords, OpAt, RunRule;
    var rule := OwnedChainWords(space, family, Candidates(space)[i])[3];
    SaveMasks(space, family, i);
    forall k | 0 <= k < |rule| && k != 12 ensures OpAt(rule, k) == NoOp { SaveHasOneOp(space, family, i, k); }
    OneOp(rule, 12, "CONNMARK", m);
  }

  // ----- the whole chain --------------------------------------------------------------------------------------

  /** The marks after the product's chain: one bit of each is decided, and no other bit moves. */
  function Stamped(m: Marks, bit: nat, opensConnection: bool): Marks {
    if opensConnection then Marks(m.packet + {bit}, m.connection + {bit})
    else m.(packet := if bit in m.connection then m.packet + {bit} else m.packet - {bit})
  }

  /** One rule that does not return. */
  function Passed(rule: Rule, family: Family, p: Packet, m: Marks): Marks {
    if Matches(rule, family, p, m) then RunRule(rule, TargetOf(rule), |rule|, m) else m
  }

  lemma PassesOn(rules: seq<Rule>, family: Family, p: Packet, m: Marks)
    requires rules != [] && TargetOf(rules[0]) != "RETURN"
    ensures Traversed(rules, family, p, m) == Traversed(rules[1..], family, p, Passed(rules[0], family, p, m))
  {
    hide Matches, RunRule, TargetOf;
  }

  lemma TraversedFour(rules: seq<Rule>, family: Family, p: Packet, m: Marks)
    requires |rules| == 4 && TargetOf(rules[0]) == "RETURN"
    requires forall k | 1 <= k < 4 :: TargetOf(rules[k]) != "RETURN"
    ensures Traversed(rules, family, p, m) ==
      if Matches(rules[0], family, p, m) then m
      else Passed(rules[3], family, p, Passed(rules[2], family, p, Passed(rules[1], family, p, m)))
  {
    hide Matches, TargetOf, Passed;
    var first := Passed(rules[1], family, p, m);
    var second := Passed(rules[2], family, p, first);
    assert rules[1..][1..] == rules[2..] && rules[2..][1..] == rules[3..] && rules[3..][1..] == [];
    PassesOn(rules[1..], family, p, m);
    PassesOn(rules[2..], family, p, first);
    PassesOn(rules[3..], family, p, second);
  }

  lemma RestoredMarks(m: Marks, bit: nat)
    ensures m.(packet := Toggle(m.packet - {bit}, m.connection * {bit})) == Stamped(m, bit, false)
  {
  }

  lemma SetMarks(m: Marks, bit: nat)
    ensures Toggle(m.packet - {bit}, {bit}) == m.packet + {bit}
    ensures bit in m.packet ==> Toggle(m.connection - {bit}, m.packet * {bit}) == m.connection + {bit}
  {
  }

  lemma MarkMatchesBit(space: Namespace, i: nat, mark: Bits)
    requires i < 4
    ensures MarkMatches(MarkText(Candidates(space)[i]), mark) <==> BitOf(space, i) in mark
  {
    hide ParseMarkSpec, Candidates, MarkText;
    MarkIsOneBit(space, i);
    assert BitOf(space, i) in mark <==> BitOf(space, i) in mark * {BitOf(space, i)};
  }

  /**
   For every candidate and every packet: the product's own traffic off the device carries the reserved bit from
   the first packet of a connection on, later packets get what the connection remembers, and nothing else changes.
   */
  lemma ProductTrafficIsMarked(uid: nat, space: Namespace, family: Family, i: nat, p: Packet, m: Marks)
    requires i < 4
    ensures Sent(uid, space, family, Candidates(space)[i], p, m) ==
      if p.owner == uid && !p.loopback then Stamped(m, BitOf(space, i), p.opensConnection) else m
    ensures WellMade(OutputJumpWords(uid, space))
    ensures forall k | 0 <= k < 4 :: WellMade(OwnedChainWords(space, family, Candidates(space)[i])[k])
  {
    hide WellMade, Matches, RunRule, TargetOf, Candidates, OwnedChainWords, ChainName, OutputJumpWords, Traversed,
      Toggle;
    var rules, bit := OwnedChainWords(space, family, Candidates(space)[i]), BitOf(space, i);
    JumpMatches(uid, space, family, p, m);
    ReturnMatches(space, family, i, p, m);
    RestoreMatches(space, family, i, p, m);
    RestoreActs(space, family, i, m);
    RestoredMarks(m, bit);
    var restored := Stamped(m, bit, false);
    SetMatches(space, family, i, p, restored);
    SetActs(space, family, i, restored);
    SetMarks(restored, bit);
    var set' := if p.opensConnection then restored.(packet := restored.packet + {bit}) else restored;
    SaveMatches(space, family, i, p, set');
    MarkMatchesBit(space, i, set'.packet);
    SaveActs(space, family, i, set');
    SetMarks(set', bit);
    TraversedFour(rules, family, p, m);
    assert restored.packet + {bit} == m.packet + {bit};
  }
}
