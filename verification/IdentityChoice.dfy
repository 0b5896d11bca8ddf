/** Which identity a contract chooses, for every snapshot, and what foreign rules do to that choice. */
module IdentityChoice {
  import opened Common
  import opened Text
  import opened MarkAudit
  import opened MarkMeaning
  import opened MangleAudit
  import opened RootPolicy
  import InstalledPolicy

  // ----- the choice ----------------------------------------------------------------------------------

  /** A jump to the product chain without the chain. */
  predicate Dangling(uid: nat, space: Namespace, snapshot: Snapshot) {
    JumpWithoutChain(uid, space, snapshot.ipv4Mangle) || JumpWithoutChain(uid, space, snapshot.ipv6Mangle)
  }

  /** The chain lines present are the first of the identity's own, and nothing foreign uses its reserved space. */
  ghost predicate Usable(uid: nat, space: Namespace, snapshot: Snapshot, identity: PolicyIdentity) {
    CompatibleWith(space, snapshot, identity) && ReservedSpaceClean(uid, space, snapshot, identity)
  }

  lemma {:induction false} AllCompatible(space: Namespace, snapshot: Snapshot, among: seq<PolicyIdentity>)
    requires ChainLines(snapshot.ipv4Mangle, space) == [] && ChainLines(snapshot.ipv6Mangle, space) == []
    ensures Compatible(space, snapshot, among) == among
  {
    if among != [] { AllCompatible(space, snapshot, among[1..]); }
  }

  /** Without chain lines every candidate is eligible; that is no special case. */
  lemma EligibleIsCompatible(space: Namespace, snapshot: Snapshot)
    ensures Eligible(space, snapshot) == Compatible(space, snapshot, Candidates(space))
  {
    if ChainLines(snapshot.ipv4Mangle, space) == [] && ChainLines(snapshot.ipv6Mangle, space) == [] {
      AllCompatible(space, snapshot, Candidates(space));
    }
  }

  lemma {:induction false} FirstUsable(uid: nat, space: Namespace, snapshot: Snapshot, among: seq<PolicyIdentity>)
    returns (i: nat)
    ensures i <= |among| && forall j | 0 <= j < i :: !Usable(uid, space, snapshot, among[j])
    ensures i < |among| ==> Usable(uid, space, snapshot, among[i])
    ensures FirstClean(uid, space, snapshot, Compatible(space, snapshot, among))
      == if i < |among| then Selected(among[i]) else NoIdentity
  {
    hide CompatibleWith, ReservedSpaceClean;
    var compatible := Compatible(space, snapshot, among);
    if among == [] {
      i := 0;
    } else if Usable(uid, space, snapshot, among[0]) {
      i := 0;
      assert compatible[0] == among[0];
    } else {
      var rest := FirstUsable(uid, space, snapshot, among[1..]);
      i := rest + 1;
      assert forall j | 1 <= j < i :: among[j] == among[1..][j - 1];
      if CompatibleWith(space, snapshot, among[0]) {
        assert compatible[0] == among[0] && compatible[1..] == Compatible(space, snapshot, among[1..]);
      } else {
        assert compatible == Compatible(space, snapshot, among[1..]);
      }
    }
  }

  lemma CandidatesDiffer(space: Namespace, i: nat, j: nat)
    requires i < 4 && j < 4 && i != j
    ensures Candidates(space)[i] != Candidates(space)[j]
  {
    CandidateMarksDiffer(space, i, j);
  }

  /** A fresh contract selects the first usable candidate, and none exactly when there is none or a jump dangles. */
  lemma FreshChoiceExactly(uid: nat, space: Namespace, snapshot: Snapshot)
    ensures forall i | 0 <= i < 4 ::
      Resolve(uid, space, None, snapshot) == Selected(Candidates(space)[i]) <==>
        && !Dangling(uid, space, snapshot) && Usable(uid, space, snapshot, Candidates(space)[i])
        && forall j | 0 <= j < i :: !Usable(uid, space, snapshot, Candidates(space)[j])
    ensures Resolve(uid, space, None, snapshot) == NoIdentity <==>
      || Dangling(uid, space, snapshot)
      || forall i | 0 <= i < 4 :: !Usable(uid, space, snapshot, Candidates(space)[i])
  {
    hide Usable, JumpWithoutChain, Eligible, FirstClean;
    EligibleIsCompatible(space, snapshot);
    var among := Candidates(space);
    var first := FirstUsable(uid, space, snapshot, among);
    forall i, j | 0 <= i < 4 && 0 <= j < 4 && i != j
      ensures among[i] != among[j]
    {
      CandidatesDiffer(space, i, j);
    }
  }

  lemma {:induction false} CompatibleExactly(space: Namespace, snapshot: Snapshot, among: seq<PolicyIdentity>,
      identity: PolicyIdentity)
    ensures identity in Compatible(space, snapshot, among) <==>
      identity in among && CompatibleWith(space, snapshot, identity)
  {
    hide CompatibleWith;
    if among != [] { CompatibleExactly(space, snapshot, among[1..], identity); }
  }

  /** A contract that holds an identity answers with it while it is usable, and with none otherwise. */
  lemma HeldChoiceExactly(uid: nat, space: Namespace, identity: PolicyIdentity, snapshot: Snapshot)
    ensures Resolve(uid, space, Some(identity), snapshot) ==
      if !Dangling(uid, space, snapshot) && identity in Candidates(space) && Usable(uid, space, snapshot, identity)
      then Selected(identity) else NoIdentity
  {
    hide JumpWithoutChain, Eligible, CompatibleWith, ReservedSpaceClean, Candidates;
    EligibleIsCompatible(space, snapshot);
    CompatibleExactly(space, snapshot, Candidates(space), identity);
  }

  // ----- the reserved marks -----------------------------------------------------------------------------

  /** The bit of the `i`-th candidate of a namespace. */
  function BitOf(space: Namespace, i: nat): nat {
    (if space.Release? then 21 else 25) + i
  }

  lemma PowersOfTwo()
    ensures Pow2(20) == 0x10_0000
  {
    assert Pow2(8) == 256;
    assert Pow2(16) == 256 * Pow2(8);
  }

  /** Each candidate reserves one bit; the eight bits are different. */
  lemma CandidateReservesOneBit(space: Namespace, i: nat)
    requires i < 4
    ensures BitsOf(Candidates(space)[i].markValue) == {BitOf(space, i)} && BitOf(space, i) < 32
    ensures Candidate(BitsOf(Candidates(space)[i].markValue))
  {
    PowersOfTwo();
    assert Pow2(BitOf(space, i)) == Candidates(space)[i].markValue by { ReservedPower(space, i); }
    PowerBits(BitOf(space, i));
  }

  lemma ReservedPower(space: Namespace, i: nat)
    requires i < 4
    ensures Pow2(BitOf(space, i)) == Candidates(space)[i].markValue
  {
    PowersOfTwo();
    var start := if space.Release? then 21 else 25;
    assert Pow2(21) == 2 * Pow2(20);
    assert Pow2(23) == 4 * Pow2(21);
    assert Pow2(25) == 4 * Pow2(23);
    assert Pow2(start + 2) == 4 * Pow2(start);
    assert i == 0 || i == 1 || i == 2 || i == 3;
  }

  function Zeros(n: nat): string {
    seq(n, _ => '0')
  }

  function Pow16(n: nat): nat {
    if n == 0 then 1 else 16 * Pow16(n - 1)
  }

  lemma {:induction false} HexShifts(d: nat, n: nat)
    requires 0 < d < 16
    ensures DigitsValue([LOWER_DIGITS[d]] + Zeros(n), 16) == Some(d * Pow16(n))
  {
    var s := [LOWER_DIGITS[d]] + Zeros(n);
    if n == 0 {
      assert s[..0] == "" && DigitsValue("", 16) == Some(0);
      assert s[|s| - 1] == LOWER_DIGITS[d];
      HexDigitReads(d, LOWER_DIGITS);
    } else {
      HexShifts(d, n - 1);
      assert s[..|s| - 1] == [LOWER_DIGITS[d]] + Zeros(n - 1) && s[|s| - 1] == '0';
      assert d * Pow16(n) == d * Pow16(n - 1) * 16;
    }
  }

  /** The leading digit and the number of zeros of the `i`-th reserved mark. */
  function MarkDigits(space: Namespace, i: nat): (nat, nat)
    requires i < 4
  {
    if space.Release? then [(2, 5), (4, 5), (8, 5), (1, 6)][i] else [(2, 6), (4, 6), (8, 6), (1, 7)][i]
  }

  lemma MarkIsWritten(space: Namespace, i: nat)
    requires i < 4
    ensures var (d, n) := MarkDigits(space, i);
      && 0 < d < 16
      && Candidates(space)[i].markHex == "0x" + ([LOWER_DIGITS[d]] + Zeros(n))
      && Candidates(space)[i].markValue == d * Pow16(n)
  {
    assert Pow16(5) == 0x10_0000;
    assert Pow16(6) == 16 * Pow16(5);
    assert Pow16(7) == 16 * Pow16(6);
    assert i == 0 || i == 1 || i == 2 || i == 3;
  }

  /** The text of a reserved mark reads as its value. */
  lemma MarkReads(space: Namespace, i: nat)
    requires i < 4
    ensures Reads(Candidates(space)[i].markHex, Candidates(space)[i].markValue)
    ensures '/' !in Candidates(space)[i].markHex
  {
    hide DigitsValue, Pow16, Pow2;
    var (d, n) := MarkDigits(space, i);
    var mark := Candidates(space)[i];
    MarkIsWritten(space, i);
    HexShifts(d, n);
    var digits := [LOWER_DIGITS[d]] + Zeros(n);
    assert mark.markHex[2..] == digits;
    HexDigitReads(d, LOWER_DIGITS);
    MarkIsPlain(space, i);
    ReadsExactly(mark.markHex, mark.markValue);
  }

  lemma MarkIsPlain(space: Namespace, i: nat)
    requires i < 4
    ensures '/' !in Candidates(space)[i].markHex && '_' !in Candidates(space)[i].markHex
    ensures Candidates(space)[i].markValue <= IPV4_FULL_MASK
  {
    assert i == 0 || i == 1 || i == 2 || i == 3;
  }

  /** The mark of one candidate touches the reserved bit of another exactly when they are the same. */
  lemma MarksAreApart(space: Namespace, i: nat, j: nat)
    requires i < 4 && j < 4
    ensures MarkSpecTouches(MarkText(Candidates(space)[i]), BitsOf(Candidates(space)[j].markValue)) == Some(i == j)
  {
    hide MarkSpecTouches, BitsOf, Candidates;
    var text, value := Candidates(space)[i].markHex, Candidates(space)[i].markValue;
    var candidate := BitsOf(Candidates(space)[j].markValue);
    MarkReads(space, i);
    CandidateReservesOneBit(space, i);
    CandidateReservesOneBit(space, j);
    MaskedSpecTouches(text, text, candidate);
    BitsOfMeaning(value, BitOf(space, j));
    assert Avoids(text, candidate) <==> !HasBit(value, BitOf(space, j));
  }

  /** A rule of another owner that matches marks without a mask uses every candidate's reserved space. */
  lemma BareFwmarkIsForeign(line: string, spec: string, family: Family, space: Namespace, i: nat)
    requires i < 4 && TokenAfter(SplitWhitespace(line), "fwmark") == Some(spec) && BareNumber(spec)
    ensures ForeignReserved(line, family, Candidates(space)[i])
  {
    hide SplitWhitespace, BitsOf, Candidates;
    CandidateReservesOneBit(space, i);
    BareSpecTouches(spec, BitsOf(Candidates(space)[i].markValue));
    assert '/' in MarkText(Candidates(space)[i]) by {
      assert MarkText(Candidates(space)[i])[|Candidates(space)[i].markHex|] == '/';
    }
  }

  lemma MarkTextsDiffer(space: Namespace, i: nat, j: nat)
    requires i < 4 && j < 4 && i != j
    ensures MarkText(Candidates(space)[i]) != MarkText(Candidates(space)[j])
  {
    hide MarkSpecTouches, BitsOf, Candidates, MarkText;
    MarksAreApart(space, i, j);
    MarksAreApart(space, j, j);
  }

  /** A rule printed with the mark of candidate `j` is foreign to candidate `i` exactly by its priority or its mark. */
  lemma PrintedRuleExactly(space: Namespace, i: nat, j: nat, priority: nat, action: seq<string>, family: Family)
    requires i < 4 && j < 4 && priority < U32_LIMIT && forall k | 0 <= k < |action| :: Solid(action[k])
    ensures var identity, line := Candidates(space)[i],
                                  InstalledPolicy.RuleLine(priority, Candidates(space)[j], action);
      ForeignReserved(line, family, identity) <==>
        if i == j then !OwnedGuard(line, identity) && !(family.Ipv4? && OwnedLookup(line, identity))
        else priority == identity.lookupPriority || priority == identity.guardPriority
  {
    hide MarkSpecTouches, BitsOf, Candidates, MarkText, RpdbPriority, SplitWhitespace, InstalledPolicy.RuleLine,
      TokenAfter, IsSafeTableToken;
    InstalledPolicy.RuleLineReads(space, priority, Candidates(space)[j], action);
    MarksAreApart(space, j, i);
    if i != j { MarkTextsDiffer(space, i, j); }
  }

  /** A rule that matches no mark is foreign exactly when it takes a reserved priority. */
  lemma UnmarkedRuleExactly(line: string, family: Family, identity: PolicyIdentity)
    requires TokenAfter(SplitWhitespace(line), "fwmark") == None
    ensures ForeignReserved(line, family, identity) <==>
      RpdbPriority(line) == Some(identity.lookupPriority) || RpdbPriority(line) == Some(identity.guardPriority)
  {
  }

  /** One foreign rule in either family is enough to make an identity unusable. */
  lemma ForeignRuleBlocks(uid: nat, space: Namespace, snapshot: Snapshot, identity: PolicyIdentity, line: string)
    requires (line in snapshot.ipv4Rules && ForeignReserved(line, Ipv4, identity))
             || (line in snapshot.ipv6Rules && ForeignReserved(line, Ipv6, identity))
    ensures !Usable(uid, space, snapshot, identity)
  {
  }
}
