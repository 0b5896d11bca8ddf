/** Policy identity: selection, verification and stability (`RootPolicyContract` in root_policy.rs). */
module RootPolicy {
  import opened Common
  import opened Text
  import opened MarkAudit
  import opened MangleAudit

  datatype Namespace = Release | Debug

  datatype PolicyIdentity = PolicyIdentity(markHex: string, markValue: nat, lookupPriority: nat, guardPriority: nat)

  const RELEASE_POLICY_CANDIDATES: seq<PolicyIdentity> := [
    PolicyIdentity("0x200000", 0x20_0000, 9500, 9501),
    PolicyIdentity("0x400000", 0x40_0000, 9520, 9521),
    PolicyIdentity("0x800000", 0x80_0000, 9540, 9541),
    PolicyIdentity("0x1000000", 0x100_0000, 9560, 9561)
  ]

  const DEBUG_POLICY_CANDIDATES: seq<PolicyIdentity> := [
    PolicyIdentity("0x2000000", 0x200_0000, 9580, 9581),
    PolicyIdentity("0x4000000", 0x400_0000, 9600, 9601),
    PolicyIdentity("0x8000000", 0x800_0000, 9620, 9621),
    PolicyIdentity("0x10000000", 0x1000_0000, 9640, 9641)
  ]

  function Candidates(space: Namespace): (among: seq<PolicyIdentity>)
    ensures |among| == 4
  {
    if space.Release? then RELEASE_POLICY_CANDIDATES else DEBUG_POLICY_CANDIDATES
  }

  datatype Snapshot = Snapshot(ipv4Rules: seq<string>, ipv6Rules: seq<string>, ipv4Mangle: seq<string>,
    ipv6Mangle: seq<string>)

  datatype Family = Ipv4 | Ipv6

  datatype Resolution = Selected(identity: PolicyIdentity) | NoIdentity

  datatype FamilyState =
    Missing | DetachedExact | DetachedMismatch | AttachedExact | AttachedDuplicateExact | InvalidReferenced

  datatype StructuralFailure =
    IdentityUnavailable | ReservedPolicyCollision | MangleMismatch | GuardMismatch | LookupStillPresent

  // ----- the product's own lines -----------------------------------------------------------------

  function ChainName(space: Namespace): string {
    if space.Release? then "MISH_EGRESS_V1" else "MISH_DEBUG_EGRESS_V1"
  }

  function ChainDefinition(space: Namespace): string {
    JoinWords(["-N", ChainName(space)])
  }

  function OutputJumpWords(uid: nat, space: Namespace): Rule {
    ["-A", "OUTPUT", "-m", "owner", "--uid-owner", Decimal(uid), "-j", ChainName(space)]
  }

  function OutputJump(uid: nat, space: Namespace): string {
    JoinWords(OutputJumpWords(uid, space))
  }

  function MarkText(identity: PolicyIdentity): string {
    identity.markHex + "/" + identity.markHex
  }

  function LegacySelectorWords(uid: nat, space: Namespace): Rule {
    ["-A", "OUTPUT", "-m", "owner", "--uid-owner", Decimal(uid), "-m", "conntrack", "--ctstate", "NEW",
     "-j", "MARK", "--set-xmark", MarkText(Candidates(space)[0])]
  }

  function LegacySelector(uid: nat, space: Namespace): string {
    JoinWords(LegacySelectorWords(uid, space))
  }

  function OwnedChainWords(space: Namespace, family: Family, identity: PolicyIdentity): (words: seq<Rule>)
    ensures |words| == 4
  {
    var chain, mark := ChainName(space), identity.markHex;
    [["-A", chain, "-d", if family.Ipv4? then "127.0.0.0/8" else "::1/128", "-j", "RETURN"],
     ["-A", chain, "-j", "CONNMARK", "--restore-mark", "--nfmask", mark, "--ctmask", mark],
     ["-A", chain, "-m", "conntrack", "--ctstate", "NEW", "-j", "MARK", "--set-xmark", MarkText(identity)],
     ["-A", chain, "-m", "conntrack", "--ctstate", "NEW", "-m", "mark", "--mark", MarkText(identity),
      "-j", "CONNMARK", "--save-mark", "--nfmask", mark, "--ctmask", mark]]
  }

  function OwnedChainLines(space: Namespace, family: Family, identity: PolicyIdentity): seq<string> {
    var words := OwnedChainWords(space, family, identity);
    [JoinWords(words[0]), JoinWords(words[1]), JoinWords(words[2]), JoinWords(words[3])]
  }

  function AllowedMangleLines(uid: nat, space: Namespace, family: Family, identity: PolicyIdentity): set<string> {
    var owned := OwnedChainLines(space, family, identity);
    {ChainDefinition(space), OutputJump(uid, space), LegacySelector(uid, space)} + (set line | line in owned)
  }

  function Count(lines: seq<string>, line: string): nat {
    if lines == [] then 0 else Count(lines[1..], line) + if lines[0] == line then 1 else 0
  }

  function LinesWithPrefix(lines: seq<string>, prefix: string): seq<string> {
    if lines == [] then []
    else (if prefix <= lines[0] then [lines[0]] else []) + LinesWithPrefix(lines[1..], prefix)
  }

  function ChainLines(lines: seq<string>, space: Namespace): seq<string> {
    LinesWithPrefix(lines, "-A " + ChainName(space) + " ")
  }

  // ----- routing-policy lines --------------------------------------------------------------------

  function RpdbPriority(line: string): Option<nat> {
    match SplitOnce(Trim(line), ':')
    case None => None
    case Some(parts) => ParseRadix(parts.0, 10, U32_LIMIT)
  }

  predicate SafeTableCharacter(c: char) {
    'a' <= c <= 'z' || 'A' <= c <= 'Z' || '0' <= c <= '9' || c == '_' || c == '.' || c == '-'
  }

  predicate IsSafeTableToken(value: string) {
    1 <= |value| <= 32 && forall i | 0 <= i < |value| :: SafeTableCharacter(value[i])
  }

  predicate OwnedLookup(line: string, identity: PolicyIdentity) {
    var tokens := SplitWhitespace(line);
    var table := TokenAfter(tokens, "lookup");
    && RpdbPriority(line) == Some(identity.lookupPriority)
    && TokenAfter(tokens, "fwmark") == Some(MarkText(identity))
    && table.Some? && IsSafeTableToken(table.value)
  }

  predicate OwnedGuard(line: string, identity: PolicyIdentity) {
    var tokens := SplitWhitespace(line);
    && RpdbPriority(line) == Some(identity.guardPriority)
    && TokenAfter(tokens, "fwmark") == Some(MarkText(identity))
    && "unreachable" in tokens
  }

  predicate TouchesReservedMark(line: string, mark: nat) {
    match TokenAfter(SplitWhitespace(line), "fwmark")
    case None => false
    case Some(spec) => MarkSpecTouches(spec, BitsOf(mark)) != Some(false)
  }

  predicate ForeignReserved(line: string, family: Family, identity: PolicyIdentity) {
    && !OwnedGuard(line, identity) && !(family.Ipv4? && OwnedLookup(line, identity))
    && (|| RpdbPriority(line) == Some(identity.lookupPriority)
        || RpdbPriority(line) == Some(identity.guardPriority)
        || TouchesReservedMark(line, identity.markValue))
  }

  predicate NoForeignReserved(lines: seq<string>, family: Family, identity: PolicyIdentity) {
    forall i | 0 <= i < |lines| :: !ForeignReserved(lines[i], family, identity)
  }

  // ----- the reserved space of one identity ------------------------------------------------------

  ghost predicate ReservedSpaceClean(uid: nat, space: Namespace, snapshot: Snapshot, identity: PolicyIdentity) {
    && NoForeignReserved(snapshot.ipv4Rules, Ipv4, identity)
    && NoForeignReserved(snapshot.ipv6Rules, Ipv6, identity)
    && AuditClean(snapshot.ipv4Mangle, AllowedMangleLines(uid, space, Ipv4, identity), ChainName(space),
      identity.markValue)
    && AuditClean(snapshot.ipv6Mangle, AllowedMangleLines(uid, space, Ipv6, identity), ChainName(space),
      identity.markValue)
  }

  method AuditReservedPolicySpace(uid: nat, space: Namespace, snapshot: Snapshot, identity: PolicyIdentity)
    returns (result: AuditResult)
    ensures result == Clean <==> ReservedSpaceClean(uid, space, snapshot, identity)
    ensures !NoForeignReserved(snapshot.ipv4Rules, Ipv4, identity) ==> result == Collision
    ensures !NoForeignReserved(snapshot.ipv6Rules, Ipv6, identity) ==> result == Collision
  {
    if !NoForeignReserved(snapshot.ipv4Rules, Ipv4, identity)
       || !NoForeignReserved(snapshot.ipv6Rules, Ipv6, identity) {
      return Collision;
    }
    result := AuditMangleOutput(snapshot.ipv4Mangle, AllowedMangleLines(uid, space, Ipv4, identity),
                                ChainName(space), identity.markValue);
    if result == Clean {
      result := AuditMangleOutput(snapshot.ipv6Mangle, AllowedMangleLines(uid, space, Ipv6, identity),
                                  ChainName(space), identity.markValue);
    }
  }

  function MangleFamilyState(uid: nat, space: Namespace, lines: seq<string>, family: Family,
      identity: PolicyIdentity): FamilyState {
    var definitions := Count(lines, ChainDefinition(space));
    var jumps := Count(lines, OutputJump(uid, space));
    var exact := ChainLines(lines, space) == OwnedChainLines(space, family, identity);
    if definitions == 0 then if jumps == 0 then Missing else InvalidReferenced
    else if definitions != 1 || (jumps != 0 && !exact) then InvalidReferenced
    else if jumps > 1 then AttachedDuplicateExact
    else if jumps == 1 then AttachedExact
    else if exact then DetachedExact else DetachedMismatch
  }

  // ----- identity resolution ---------------------------------------------------------------------

  predicate JumpWithoutChain(uid: nat, space: Namespace, lines: seq<string>) {
    Count(lines, OutputJump(uid, space)) != 0 && (ChainDefinition(space) !in lines || ChainLines(lines, space) == [])
  }

  predicate CompatibleWith(space: Namespace, snapshot: Snapshot, identity: PolicyIdentity) {
    && ChainLines(snapshot.ipv4Mangle, space) <= OwnedChainLines(space, Ipv4, identity)
    && ChainLines(snapshot.ipv6Mangle, space) <= OwnedChainLines(space, Ipv6, identity)
  }

  function Compatible(space: Namespace, snapshot: Snapshot, among: seq<PolicyIdentity>): seq<PolicyIdentity> {
    if among == [] then []
    else
      (if CompatibleWith(space, snapshot, among[0]) then [among[0]] else [])
      + Compatible(space, snapshot, among[1..])
  }

  /** The identities the chains already present allow; every candidate when no chain line is present. */
  function Eligible(space: Namespace, snapshot: Snapshot): seq<PolicyIdentity> {
    if ChainLines(snapshot.ipv4Mangle, space) == [] && ChainLines(snapshot.ipv6Mangle, space) == [] then
      Candidates(space)
    else Compatible(space, snapshot, Candidates(space))
  }

  ghost function FirstClean(uid: nat, space: Namespace, snapshot: Snapshot, among: seq<PolicyIdentity>): Resolution {
    if among == [] then NoIdentity
    else if ReservedSpaceClean(uid, space, snapshot, among[0]) then Selected(among[0])
    else FirstClean(uid, space, snapshot, among[1..])
  }

  /** What `resolve_identity` answers, given the identity held before the call. */
  ghost function Resolve(uid: nat, space: Namespace, active: Option<PolicyIdentity>, snapshot: Snapshot): Resolution {
    if JumpWithoutChain(uid, space, snapshot.ipv4Mangle) || JumpWithoutChain(uid, space, snapshot.ipv6Mangle) then
      NoIdentity
    else
      var eligible := Eligible(space, snapshot);
      match active
      case Some(identity) =>
        if identity in eligible && ReservedSpaceClean(uid, space, snapshot, identity) then Selected(identity)
        else NoIdentity
      case None => FirstClean(uid, space, snapshot, eligible)
  }

  /** The identity held after the call: the one held before, or the one just selected. */
  ghost function ActiveAfter(uid: nat, space: Namespace, active: Option<PolicyIdentity>,
      snapshot: Snapshot): Option<PolicyIdentity> {
    match Resolve(uid, space, active, snapshot)
    case Selected(identity) => Some(identity)
    case NoIdentity => active
  }

  ghost function VerifyFailClosed(uid: nat, space: Namespace, active: Option<PolicyIdentity>, snapshot: Snapshot)
    : Option<StructuralFailure>
  {
    match active
    case None => Some(IdentityUnavailable)
    case Some(identity) =>
      if !ReservedSpaceClean(uid, space, snapshot, identity) then Some(ReservedPolicyCollision)
      else if MangleFamilyState(uid, space, snapshot.ipv4Mangle, Ipv4, identity) != AttachedExact
           || MangleFamilyState(uid, space, snapshot.ipv6Mangle, Ipv6, identity) != AttachedExact then
             Some(MangleMismatch)
      else if (forall i | 0 <= i < |snapshot.ipv4Rules| :: !OwnedGuard(snapshot.ipv4Rules[i], identity))
           || (forall i | 0 <= i < |snapshot.ipv6Rules| :: !OwnedGuard(snapshot.ipv6Rules[i], identity)) then
             Some(GuardMismatch)
      else if exists i | 0 <= i < |snapshot.ipv4Rules| :: OwnedLookup(snapshot.ipv4Rules[i], identity) then
        Some(LookupStillPresent)
      else None
  }

  predicate MentionsProduct(uid: nat, space: Namespace, lines: seq<string>) {
    exists i | 0 <= i < |lines| :: Contains(lines[i], ChainName(space)) || lines[i] == LegacySelector(uid, space)
  }

  predicate RulesMention(snapshot: Snapshot, identity: PolicyIdentity) {
    || (exists i | 0 <= i < |snapshot.ipv4Rules| ::
          OwnedLookup(snapshot.ipv4Rules[i], identity) || OwnedGuard(snapshot.ipv4Rules[i], identity))
    || (exists i | 0 <= i < |snapshot.ipv6Rules| :: OwnedGuard(snapshot.ipv6Rules[i], identity))
  }

  class RootPolicyContract {
    const productUid: nat
    const space: Namespace
    var activeIdentity: Option<PolicyIdentity>

    constructor (productUid: nat, space: Namespace)
      requires productUid != 0
      ensures this.productUid == productUid && this.space == space && activeIdentity == None
    {
      this.productUid, this.space, activeIdentity := productUid, space, None;
    }

    method ClearActiveIdentity()
      modifies this
      ensures activeIdentity == None
    {
      activeIdentity := None;
    }

    method ResolveIdentity(snapshot: Snapshot) returns (resolution: Resolution)
      modifies this
      ensures resolution == Resolve(productUid, space, old(activeIdentity), snapshot)
      ensures activeIdentity == ActiveAfter(productUid, space, old(activeIdentity), snapshot)
    {
      if JumpWithoutChain(productUid, space, snapshot.ipv4Mangle)
         || JumpWithoutChain(productUid, space, snapshot.ipv6Mangle) {
        return NoIdentity;
      }
      var eligible := Eligible(space, snapshot);
      if activeIdentity.Some? {
        if activeIdentity.value !in eligible { return NoIdentity; }
        var audit := AuditReservedPolicySpace(productUid, space, snapshot, activeIdentity.value);
        return if audit == Clean then Selected(activeIdentity.value) else NoIdentity;
      }
      for i := 0 to |eligible|
        invariant FirstClean(productUid, space, snapshot, eligible)
                  == FirstClean(productUid, space, snapshot, eligible[i..])
      {
        activeIdentity := Some(eligible[i]);
        var audit := AuditReservedPolicySpace(productUid, space, snapshot, eligible[i]);
        if audit == Clean { return Selected(eligible[i]); }
      }
      activeIdentity := None;
      resolution := NoIdentity;
    }

    method VerifyFailClosedBase(snapshot: Snapshot) returns (failure: Option<StructuralFailure>)
      ensures failure == VerifyFailClosed(productUid, space, activeIdentity, snapshot)
    {
      hide MangleFamilyState, OwnedGuard, OwnedLookup, ReservedSpaceClean;
      if activeIdentity.None? { return Some(IdentityUnavailable); }
      var identity := activeIdentity.value;
      var audit := AuditReservedPolicySpace(productUid, space, snapshot, identity);
      if audit != Clean { return Some(ReservedPolicyCollision); }
      if MangleFamilyState(productUid, space, snapshot.ipv4Mangle, Ipv4, identity) != AttachedExact
         || MangleFamilyState(productUid, space, snapshot.ipv6Mangle, Ipv6, identity) != AttachedExact {
        return Some(MangleMismatch);
      }
      if (forall i | 0 <= i < |snapshot.ipv4Rules| :: !OwnedGuard(snapshot.ipv4Rules[i], identity))
         || (forall i | 0 <= i < |snapshot.ipv6Rules| :: !OwnedGuard(snapshot.ipv6Rules[i], identity)) {
        return Some(GuardMismatch);
      }
      if exists i | 0 <= i < |snapshot.ipv4Rules| :: OwnedLookup(snapshot.ipv4Rules[i], identity) {
        return Some(LookupStillPresent);
      }
      return None;
    }

    /** Tries each candidate in place of the active identity, and puts the active identity back. */
    method HasAnyProductSignature(snapshot: Snapshot) returns (found: bool)
      modifies this
      ensures activeIdentity == old(activeIdentity)
      ensures found <==> MentionsProduct(productUid, space, snapshot.ipv4Mangle)
                         || MentionsProduct(productUid, space, snapshot.ipv6Mangle)
                         || exists identity | identity in Candidates(space) :: RulesMention(snapshot, identity)
    {
      if MentionsProduct(productUid, space, snapshot.ipv4Mangle)
         || MentionsProduct(productUid, space, snapshot.ipv6Mangle) {
        return true;
      }
      var previous := activeIdentity;
      var candidates := Candidates(space);
      for i := 0 to |candidates|
        invariant previous == old(activeIdentity)
        invariant forall k | 0 <= k < i :: !RulesMention(snapshot, candidates[k])
      {
        activeIdentity := Some(candidates[i]);
        if RulesMention(snapshot, activeIdentity.value) {
          activeIdentity := previous;
          return true;
        }
      }
      activeIdentity := previous;
      return false;
    }
  }

  // ----- identity survives a restart -------------------------------------------------------------

  lemma CandidateMarksDiffer(space: Namespace, i: nat, j: nat)
    requires i < 4 && j < 4 && i != j
    ensures |Candidates(space)[i].markHex| > 2 && |Candidates(space)[j].markHex| > 2
    ensures Candidates(space)[i].markHex[2] != Candidates(space)[j].markHex[2]
  {
  }

  predicate PlainCharacter(c: char) {
    'A' <= c <= 'Z' || '0' <= c <= '9' || c == 'x' || c == '_' || c == '/'
  }

  predicate Plain(s: string) {
    s != "" && forall i | 0 <= i < |s| :: PlainCharacter(s[i])
  }

  lemma PlainIsSolid(s: string)
    requires Plain(s)
    ensures Solid(s)
  {
    assert forall i | 0 <= i < |s| :: PlainCharacter(s[i]) && !IsWhitespace(s[i]);
  }

  lemma CandidateIsPlain(space: Namespace, i: nat)
    requires i < 4
    ensures var identity := Candidates(space)[i];
      && Plain(identity.markHex) && identity.markHex[0] == '0' && identity.markValue != 0
      && identity.lookupPriority < identity.guardPriority < U32_LIMIT
  {
  }

  /** The words the product writes hold no white space, so a line is read back as its words. */
  lemma NamesAreSolid(space: Namespace, identity: PolicyIdentity)
    requires identity in Candidates(space)
    ensures Solid(ChainName(space)) && Solid(identity.markHex) && Solid(MarkText(identity))
    ensures identity.markHex[0] == '0' && identity.markValue != 0
    ensures identity.lookupPriority < identity.guardPriority < U32_LIMIT
  {
    hide Solid;
    var i :| 0 <= i < 4 && Candidates(space)[i] == identity;
    CandidateIsPlain(space, i);
    PlainIsSolid(identity.markHex);
    assert Plain(MarkText(identity));
    PlainIsSolid(MarkText(identity));
    ChainNameIsPlain(space);
    PlainIsSolid(ChainName(space));
  }

  lemma ChainNameIsPlain(space: Namespace)
    ensures Plain(ChainName(space)) && ChainName(space)[0] == 'M'
  {
  }

  lemma OwnedWordsAreSolid(space: Namespace, family: Family, identity: PolicyIdentity, k: nat)
    requires identity in Candidates(space) && k < 4
    ensures var rule := OwnedChainWords(space, family, identity)[k]; forall i | 0 <= i < |rule| :: Solid(rule[i])
  {
    hide MarkText, ChainName, Candidates;
    NamesAreSolid(space, identity);
  }

  lemma OwnedLinesDiffer(space: Namespace, family: Family, a: PolicyIdentity, b: PolicyIdentity)
    requires a in Candidates(space) && b in Candidates(space) && a != b
    ensures OwnedChainLines(space, family, a) != OwnedChainLines(space, family, b)
  {
    hide JoinWords, SplitWhitespace;
    var i :| 0 <= i < 4 && Candidates(space)[i] == a;
    var j :| 0 <= j < 4 && Candidates(space)[j] == b;
    CandidateMarksDiffer(space, i, j);
    OwnedWordsAreSolid(space, family, a, 1);
    OwnedWordsAreSolid(space, family, b, 1);
    var mine, theirs := OwnedChainWords(space, family, a)[1], OwnedChainWords(space, family, b)[1];
    SplitJoined(mine);
    SplitJoined(theirs);
    assert mine[6] != theirs[6];
    assert OwnedChainLines(space, family, a)[1] != OwnedChainLines(space, family, b)[1];
  }

  lemma {:induction false} OnlyOneCompatible(space: Namespace, snapshot: Snapshot, identity: PolicyIdentity,
      among: seq<PolicyIdentity>)
    requires forall other | other in among && other != identity :: !CompatibleWith(space, snapshot, other)
    requires CompatibleWith(space, snapshot, identity)
    ensures forall other | other in Compatible(space, snapshot, among) :: other == identity
    ensures identity in among ==> identity in Compatible(space, snapshot, among)
  {
    if among != [] { OnlyOneCompatible(space, snapshot, identity, among[1..]); }
  }

  lemma {:induction false} CountedIsPresent(lines: seq<string>, line: string)
    ensures Count(lines, line) != 0 ==> line in lines
  {
    if lines != [] { CountedIsPresent(lines[1..], line); }
  }

  /** Exactly one definition, exactly one jump, and the exact chain: what `AttachedExact` stands for. */
  lemma AttachedExactMeaning(uid: nat, space: Namespace, lines: seq<string>, family: Family, identity: PolicyIdentity)
    ensures MangleFamilyState(uid, space, lines, family, identity) == AttachedExact <==>
            && Count(lines, ChainDefinition(space)) == 1 && Count(lines, OutputJump(uid, space)) == 1
            && ChainLines(lines, space) == OwnedChainLines(space, family, identity)
    ensures MangleFamilyState(uid, space, lines, family, identity) == AttachedExact ==>
      !JumpWithoutChain(uid, space, lines)
  {
    CountedIsPresent(lines, ChainDefinition(space));
  }

  lemma ExactChainsLeaveOneEligible(space: Namespace, snapshot: Snapshot, identity: PolicyIdentity)
    requires identity in Candidates(space)
    requires ChainLines(snapshot.ipv4Mangle, space) == OwnedChainLines(space, Ipv4, identity)
    requires ChainLines(snapshot.ipv6Mangle, space) == OwnedChainLines(space, Ipv6, identity)
    ensures Eligible(space, snapshot) != [] && Eligible(space, snapshot)[0] == identity
  {
    hide JoinWords, OwnedChainWords, LinesWithPrefix;
    forall other | other in Candidates(space) && other != identity
      ensures !CompatibleWith(space, snapshot, other)
    {
      OwnedLinesDiffer(space, Ipv4, identity, other);
    }
    OnlyOneCompatible(space, snapshot, identity, Candidates(space));
    var eligible := Compatible(space, snapshot, Candidates(space));
    assert identity in eligible && eligible[0] in eligible;
  }

  lemma FirstCleanIsHead(uid: nat, space: Namespace, snapshot: Snapshot, among: seq<PolicyIdentity>)
    requires among != [] && ReservedSpaceClean(uid, space, snapshot, among[0])
    ensures FirstClean(uid, space, snapshot, among) == Selected(among[0])
  {
  }

  /** A snapshot accepted as fail-closed under an identity makes a fresh contract select that identity. */
  lemma RestartSelectsSameIdentity(uid: nat, space: Namespace, identity: PolicyIdentity, snapshot: Snapshot)
    requires identity in Candidates(space)
    requires VerifyFailClosed(uid, space, Some(identity), snapshot) == None
    ensures Resolve(uid, space, None, snapshot) == Selected(identity)
    ensures ActiveAfter(uid, space, None, snapshot) == Some(identity)
  {
    AttachedExactMeaning(uid, space, snapshot.ipv4Mangle, Ipv4, identity);
    AttachedExactMeaning(uid, space, snapshot.ipv6Mangle, Ipv6, identity);
    ExactChainsLeaveOneEligible(space, snapshot, identity);
    FirstCleanIsHead(uid, space, snapshot, Eligible(space, snapshot));
  }

  // ----- identity is stable over a run -----------------------------------------------------------

  /** The calls of one contract lifetime that do not clear the identity. */
  datatype Call = ResolveCall(snapshot: Snapshot) | SignatureCall(snapshot: Snapshot) | VerifyCall(snapshot: Snapshot)

  ghost function ActiveThrough(uid: nat, space: Namespace, start: Option<PolicyIdentity>,
      calls: seq<Call>): Option<PolicyIdentity> {
    if calls == [] then start
    else
      var before := ActiveThrough(uid, space, start, calls[..|calls| - 1]);
      match calls[|calls| - 1]
      case ResolveCall(snapshot) => ActiveAfter(uid, space, before, snapshot)
      case _ => before
  }

  /** What the `i`-th call answers, when it is a resolution. */
  ghost function Answer(uid: nat, space: Namespace, start: Option<PolicyIdentity>, calls: seq<Call>, i: nat): Resolution
    requires i < |calls| && calls[i].ResolveCall?
  {
    Resolve(uid, space, ActiveThrough(uid, space, start, calls[..i]), calls[i].snapshot)
  }

  lemma {:induction false} HeldIdentityStays(uid: nat, space: Namespace, start: Option<PolicyIdentity>,
      calls: seq<Call>, i: nat, j: nat)
    requires i <= j <= |calls|
    requires ActiveThrough(uid, space, start, calls[..i]).Some?
    ensures ActiveThrough(uid, space, start, calls[..j]) == ActiveThrough(uid, space, start, calls[..i])
  {
    hide Eligible, ReservedSpaceClean, JumpWithoutChain, FirstClean;
    if i < j {
      HeldIdentityStays(uid, space, start, calls, i, j - 1);
      assert calls[..j][..j - 1] == calls[..j - 1];
    }
  }

  /** All identities one contract selects between two clears are the same. */
  lemma SelectionsAgree(uid: nat, space: Namespace, start: Option<PolicyIdentity>, calls: seq<Call>, i: nat, j: nat)
    requires i <= j < |calls| && calls[i].ResolveCall? && calls[j].ResolveCall?
    requires Answer(uid, space, start, calls, i).Selected? && Answer(uid, space, start, calls, j).Selected?
    ensures Answer(uid, space, start, calls, i) == Answer(uid, space, start, calls, j)
  {
    hide Eligible, ReservedSpaceClean, JumpWithoutChain, FirstClean;
    if i < j {
      assert calls[..i + 1][..i] == calls[..i];
      HeldIdentityStays(uid, space, start, calls, i + 1, j);
    }
  }

  lemma {:induction false} CompatibleAreAmong(space: Namespace, snapshot: Snapshot, among: seq<PolicyIdentity>)
    ensures forall identity | identity in Compatible(space, snapshot, among) :: identity in among
  {
    if among != [] { CompatibleAreAmong(space, snapshot, among[1..]); }
  }

  lemma {:induction false} FirstCleanIsAmong(uid: nat, space: Namespace, snapshot: Snapshot, among: seq<PolicyIdentity>)
    ensures var first := FirstClean(uid, space, snapshot, among); first.Selected? ==> first.identity in among
  {
    if among != [] { FirstCleanIsAmong(uid, space, snapshot, among[1..]); }
  }

  /** A contract only ever holds one of its own candidates. */
  lemma {:induction false} HeldIsCandidate(uid: nat, space: Namespace, calls: seq<Call>)
    ensures var held := ActiveThrough(uid, space, None, calls); held.Some? ==> held.value in Candidates(space)
  {
    hide ReservedSpaceClean, JumpWithoutChain, CompatibleWith;
    if calls != [] {
      HeldIsCandidate(uid, space, calls[..|calls| - 1]);
      var last := calls[|calls| - 1];
      if last.ResolveCall? {
        CompatibleAreAmong(space, last.snapshot, Candidates(space));
        FirstCleanIsAmong(uid, space, last.snapshot, Eligible(space, last.snapshot));
      }
    }
  }

  /** Whatever one lifetime did, a snapshot it verifies is resolved to the same identity by the next lifetime. */
  lemma RestartKeepsIdentity(uid: nat, space: Namespace, calls: seq<Call>, snapshot: Snapshot)
    requires VerifyFailClosed(uid, space, ActiveThrough(uid, space, None, calls), snapshot) == None
    ensures ActiveThrough(uid, space, None, calls).Some?
    ensures Resolve(uid, space, None, snapshot) == Selected(ActiveThrough(uid, space, None, calls).value)
  {
    hide Resolve, Candidates;
    HeldIsCandidate(uid, space, calls);
    RestartSelectsSameIdentity(uid, space, ActiveThrough(uid, space, None, calls).value, snapshot);
  }

  // ----- what each verdict means ---------------------------------------------------------------------------

  lemma {:induction false} CountExactly(lines: seq<string>, line: string)
    ensures Count(lines, line) == 0 <==> line !in lines
  {
    if lines != [] { CountExactly(lines[1..], line); }
  }

  lemma {:induction false} PrefixExactly(lines: seq<string>, prefix: string)
    ensures LinesWithPrefix(lines, prefix) == [] <==> forall i | 0 <= i < |lines| :: !(prefix <= lines[i])
  {
    if lines != [] {
      PrefixExactly(lines[1..], prefix);
      assert forall i | 1 <= i < |lines| :: lines[i] == lines[1..][i - 1];
    }
  }

  /** A jump dangles when the chain is not declared or has no rule. */
  lemma DanglingExactly(uid: nat, space: Namespace, lines: seq<string>)
    ensures JumpWithoutChain(uid, space, lines) <==>
      && OutputJump(uid, space) in lines
      && (|| ChainDefinition(space) !in lines
          || forall i | 0 <= i < |lines| :: !("-A " + ChainName(space) + " " <= lines[i]))
  {
    hide OutputJump, ChainDefinition, ChainName;
    CountExactly(lines, OutputJump(uid, space));
    PrefixExactly(lines, "-A " + ChainName(space) + " ");
  }

  /** The other states of a family, on what the listing holds. */
  lemma FamilyStateExactly(uid: nat, space: Namespace, lines: seq<string>, family: Family, identity: PolicyIdentity)
    ensures var state := MangleFamilyState(uid, space, lines, family, identity);
      var definitions, jumps := Count(lines, ChainDefinition(space)), Count(lines, OutputJump(uid, space));
      var exact := ChainLines(lines, space) == OwnedChainLines(space, family, identity);
      && (state == Missing <==> ChainDefinition(space) !in lines && OutputJump(uid, space) !in lines)
      && (state == DetachedExact <==> definitions == 1 && OutputJump(uid, space) !in lines && exact)
      && (state == DetachedMismatch <==> definitions == 1 && OutputJump(uid, space) !in lines && !exact)
      && (state == AttachedDuplicateExact <==> definitions == 1 && jumps >= 2 && exact)
      && (state == InvalidReferenced <==>
            definitions >= 2 || (OutputJump(uid, space) in lines && (definitions != 1 || !exact)))
  {
    hide OutputJump, ChainDefinition, OwnedChainLines, ChainLines;
    CountExactly(lines, ChainDefinition(space));
    CountExactly(lines, OutputJump(uid, space));
  }

  ghost predicate GuardedIn(rules: seq<string>, identity: PolicyIdentity) {
    exists line | line in rules :: OwnedGuard(line, identity)
  }

  ghost predicate LookedUpIn(rules: seq<string>, identity: PolicyIdentity) {
    exists line | line in rules :: OwnedLookup(line, identity)
  }

  ghost predicate Attached(uid: nat, space: Namespace, snapshot: Snapshot, identity: PolicyIdentity) {
    && MangleFamilyState(uid, space, snapshot.ipv4Mangle, Ipv4, identity) == AttachedExact
    && MangleFamilyState(uid, space, snapshot.ipv6Mangle, Ipv6, identity) == AttachedExact
  }

  /** The fail-closed check answers with the first of its demands that is not met, and with none if all are. */
  lemma FailClosedExactly(uid: nat, space: Namespace, identity: PolicyIdentity, snapshot: Snapshot)
    ensures var failure := VerifyFailClosed(uid, space, Some(identity), snapshot);
      var clean := ReservedSpaceClean(uid, space, snapshot, identity);
      var attached := Attached(uid, space, snapshot, identity);
      var guarded := GuardedIn(snapshot.ipv4Rules, identity) && GuardedIn(snapshot.ipv6Rules, identity);
      && (failure == Some(ReservedPolicyCollision) <==> !clean)
      && (failure == Some(MangleMismatch) <==> clean && !attached)
      && (failure == Some(GuardMismatch) <==> clean && attached && !guarded)
      && (failure == Some(LookupStillPresent) <==>
            clean && attached && guarded && LookedUpIn(snapshot.ipv4Rules, identity))
      && (failure == None <==> clean && attached && guarded && !LookedUpIn(snapshot.ipv4Rules, identity))
    ensures VerifyFailClosed(uid, space, None, snapshot) == Some(IdentityUnavailable)
  {
    hide ReservedSpaceClean, MangleFamilyState, OwnedGuard, OwnedLookup;
  }

  /** A routing table is named by 1 to 32 ASCII letters, digits, hyphens, dots or underscores. */
  lemma TableTokenExactly(value: string)
    ensures IsSafeTableToken(value) <==>
      && |value| > 0 && |value| < 33
      && forall i | 0 <= i < |value| ::
           var n := value[i] as int;
           97 <= n <= 122 || 65 <= n <= 90 || 48 <= n <= 57 || n in [45, 46, 95]
  {
  }
}
