/**
 Mark analysis of one tokenised mangle rule (`audit_mark_semantics` and its helpers in
 root_policy.rs), against the meaning the kernel gives to the mark options.
 */
module MarkAudit {
  import opened Common
  import opened Text

  datatype AuditResult = Clean | Collision | Ambiguous

  const IPV4_FULL_MASK: nat := 0xffff_ffff

  /** A machine word as the set of its one-bits: `&`, `|`, `^` are then `*`, `+` and `Toggle`. */
  type Bits = set<nat>

  function Odd(n: nat, shift: nat): bool {
    if shift == 0 then n % 2 == 1 else Odd(n / 2, shift - 1)
  }

  function BitsOf(word: nat): Bits {
    set i | 0 <= i < 64 && Odd(word, i)
  }

  function Toggle(a: Bits, b: Bits): Bits {
    (a - b) + (b - a)
  }

  function ParseUnsigned(raw: string): Option<nat> {
    if "0x" <= raw || "0X" <= raw then ParseRadix(raw[2..], 16, U64_LIMIT)
    else ParseRadix(raw, 10, U64_LIMIT)
  }

  datatype MarkSpec = MarkSpec(value: Bits, mask: Bits)

  /** `value[/mask]`, both at most 32 bits wide; a missing mask is the full mask. */
  function ParseMarkSpec(spec: string): Option<MarkSpec> {
    var parts := SplitOn(spec, '/');
    if |parts| > 2 then None
    else
      match (ParseUnsigned(parts[0]), if |parts| == 2 then ParseUnsigned(parts[1]) else Some(IPV4_FULL_MASK))
      case (Some(value), Some(mask)) =>
        if value > IPV4_FULL_MASK || mask > IPV4_FULL_MASK then None
        else Some(MarkSpec(BitsOf(value), BitsOf(mask)))
      case _ => None
  }

  function MarkSpecTouches(spec: string, reserved: Bits): Option<bool> {
    match ParseMarkSpec(spec)
    case None => None
    case Some(parsed) => Some(parsed.mask * reserved != {})
  }

  // ----- the options the audit knows -------------------------------------------------------------

  datatype OptionKind = Jump | MatchMark | SetXMark | SetMark | Mask | RestoreMark | SaveMark | Bitwise | Other

  function KindOf(token: string): OptionKind {
    if token == "-j" || token == "--jump" || token == "-g" || token == "--goto" then Jump
    else if token == "--mark" then MatchMark
    else if token == "--set-xmark" then SetXMark
    else if token == "--set-mark" then SetMark
    else if token == "--nfmask" || token == "--ctmask" then Mask
    else if token == "--restore-mark" then RestoreMark
    else if token == "--save-mark" then SaveMark
    else if token == "--and-mark" || token == "--or-mark" || token == "--xor-mark" then Bitwise
    else Other
  }

  function Position(tokens: seq<string>, word: string): (i: nat)
    ensures i <= |tokens|
    ensures i < |tokens| ==> tokens[i] == word
    ensures forall k | 0 <= k < i :: tokens[k] != word
  {
    if tokens == [] || tokens[0] == word then 0 else 1 + Position(tokens[1..], word)
  }

  function TokenAfter(tokens: seq<string>, keyword: string): Option<string> {
    var i := Position(tokens, keyword);
    if i + 1 < |tokens| then Some(tokens[i + 1]) else None
  }

  function MaskToken(raw: string): Option<Bits> {
    match ParseUnsigned(raw)
    case Some(mask) => if mask <= IPV4_FULL_MASK then Some(BitsOf(mask)) else None
    case None => None
  }

  /** The mask an option carries; absent or unreadable means every bit. */
  function OptionMask(tokens: seq<string>, option: string): Bits {
    match TokenAfter(tokens, option)
    case None => BitsOf(IPV4_FULL_MASK)
    case Some(raw) => (match MaskToken(raw) case Some(mask) => mask case None => BitsOf(IPV4_FULL_MASK))
  }

  /** What the audit concludes from the option at position `i` alone. */
  function TokenVerdict(tokens: seq<string>, i: nat, candidate: Bits): AuditResult
    requires i < |tokens|
  {
    match KindOf(tokens[i])
    case Jump => if i + 1 < |tokens| then Clean else Ambiguous
    case MatchMark | SetXMark | SetMark =>
      if i + 1 == |tokens| then Ambiguous
      else (match MarkSpecTouches(tokens[i + 1], candidate)
            case None => Ambiguous
            case Some(touches) => if touches then Collision else Clean)
    case Mask =>
      if i + 1 == |tokens| then Ambiguous
      else (match MaskToken(tokens[i + 1])
            case None => Ambiguous
            case Some(mask) => if mask * candidate != {} then Collision else Clean)
    case RestoreMark | SaveMark =>
      if OptionMask(tokens, "--nfmask") * candidate != {} || OptionMask(tokens, "--ctmask") * candidate != {}
      then Collision else Clean
    case Bitwise => Collision
    case Other => Clean
  }

  predicate IsMarkTarget(target: string) {
    target == "MARK" || target == "CONNMARK"
  }

  predicate JumpsToMark(tokens: seq<string>, i: nat)
    requires i < |tokens|
  {
    KindOf(tokens[i]).Jump? && i + 1 < |tokens| && IsMarkTarget(tokens[i + 1])
  }

  predicate KnownMarkOption(token: string) {
    var kind := KindOf(token);
    kind.MatchMark? || kind.SetXMark? || kind.SetMark? || kind.Mask? || kind.RestoreMark? || kind.SaveMark?
  }

  /** The first verdict other than `Clean` in the first `n` positions. */
  function FirstVerdict(tokens: seq<string>, n: nat, candidate: Bits): AuditResult
    requires n <= |tokens|
  {
    if n == 0 then Clean
    else
      var earlier := FirstVerdict(tokens, n - 1, candidate);
      if earlier != Clean then earlier else TokenVerdict(tokens, n - 1, candidate)
  }

  /** A mark target none of whose options is known. */
  ghost predicate OpaqueMarkTarget(tokens: seq<string>) {
    && (exists i | 0 <= i < |tokens| :: JumpsToMark(tokens, i))
    && (forall i | 0 <= i < |tokens| :: !KnownMarkOption(tokens[i]))
  }

  ghost function RuleVerdict(tokens: seq<string>, candidate: Bits): AuditResult {
    var first := FirstVerdict(tokens, |tokens|, candidate);
    if first != Clean then first else if OpaqueMarkTarget(tokens) then Ambiguous else Clean
  }

  /** `audit_mark_semantics`: one pass over the tokens, keeping two flags. */
  method AuditMarkSemantics(tokens: seq<string>, candidate: Bits) returns (result: AuditResult)
    ensures result == RuleVerdict(tokens, candidate)
  {
    hide TokenVerdict, KnownMarkOption, JumpsToMark;
    var sawKnownMarkOperation := false;
    var markTarget := false;
    for i := 0 to |tokens|
      invariant FirstVerdict(tokens, i, candidate) == Clean
      invariant markTarget <==> exists k | 0 <= k < i :: JumpsToMark(tokens, k)
      invariant sawKnownMarkOperation <==> exists k | 0 <= k < i :: KnownMarkOption(tokens[k])
    {
      var verdict := TokenVerdict(tokens, i, candidate);
      if verdict != Clean {
        FirstVerdictStops(tokens, i + 1, |tokens|, candidate);
        return verdict;
      }
      if JumpsToMark(tokens, i) { markTarget := true; }
      if KnownMarkOption(tokens[i]) { sawKnownMarkOperation := true; }
    }
    return if markTarget && !sawKnownMarkOperation then Ambiguous else Clean;
  }

  lemma {:induction false} FirstVerdictStops(tokens: seq<string>, m: nat, n: nat, candidate: Bits)
    requires m <= n <= |tokens|
    ensures FirstVerdict(tokens, m, candidate) != Clean
            ==> FirstVerdict(tokens, n, candidate) == FirstVerdict(tokens, m, candidate)
  {
    if m < n { FirstVerdictStops(tokens, m, n - 1, candidate); }
  }

  lemma {:induction false} CleanAtEveryToken(tokens: seq<string>, n: nat, candidate: Bits)
    requires n <= |tokens|
    ensures FirstVerdict(tokens, n, candidate) == Clean
            <==> forall i | 0 <= i < n :: TokenVerdict(tokens, i, candidate) == Clean
  {
    if n != 0 { CleanAtEveryToken(tokens, n - 1, candidate); }
  }

  // ----- what a matching rule does to the marks --------------------------------------------------

  datatype Marks = Marks(packet: Bits, connection: Bits)

  predicate SameOn(a: Marks, b: Marks, bits: Bits) {
    a.packet * bits == b.packet * bits && a.connection * bits == b.connection * bits
  }

  datatype MarkOp =
    | NoOp
    | Xor(spec: MarkSpec)
    | Assign(spec: MarkSpec)
    | Restore(nfmask: Bits, ctmask: Bits)
    | Save(nfmask: Bits, ctmask: Bits)

  /** The operation the option at position `i` denotes; unknown options are taken to leave marks alone. */
  function OpAt(tokens: seq<string>, i: nat): MarkOp
    requires i < |tokens|
  {
    match KindOf(tokens[i])
    case SetXMark | SetMark =>
      if i + 1 == |tokens| then NoOp
      else (match ParseMarkSpec(tokens[i + 1])
            case None => NoOp
            case Some(spec) => if KindOf(tokens[i]).SetXMark? then Xor(spec) else Assign(spec))
    case RestoreMark => Restore(OptionMask(tokens, "--nfmask"), OptionMask(tokens, "--ctmask"))
    case SaveMark => Save(OptionMask(tokens, "--nfmask"), OptionMask(tokens, "--ctmask"))
    case _ => NoOp
  }

  function SetBits(mark: Bits, op: MarkOp): Bits
    requires op.Xor? || op.Assign?
  {
    if op.Xor? then Toggle(mark - op.spec.mask, op.spec.value) else (mark - op.spec.mask) + op.spec.value
  }

  /** Netfilter's MARK and CONNMARK targets; any other target leaves both marks alone. */
  function ApplyOp(op: MarkOp, target: string, m: Marks): Marks {
    match op
    case NoOp => m
    case Xor(_) | Assign(_) =>
      if target == "MARK" then m.(packet := SetBits(m.packet, op))
      else if target == "CONNMARK" then m.(connection := SetBits(m.connection, op))
      else m
    case Restore(nfmask, ctmask) =>
      if target == "CONNMARK" then m.(packet := Toggle(m.packet - nfmask, m.connection * ctmask)) else m
    case Save(nfmask, ctmask) =>
      if target == "CONNMARK" then m.(connection := Toggle(m.connection - ctmask, m.packet * nfmask)) else m
  }

  /** The effect of a matching rule: its options, in order. */
  function RunRule(tokens: seq<string>, target: string, n: nat, m: Marks): Marks
    requires n <= |tokens|
  {
    if n == 0 then m else ApplyOp(OpAt(tokens, n - 1), target, RunRule(tokens, target, n - 1, m))
  }

  ghost predicate ValueAvoids(op: MarkOp, bits: Bits) {
    op.Xor? || op.Assign? ==> op.spec.value * bits == {}
  }

  /** Every value the rule sets lies inside that option's own mask. */
  ghost predicate ValuesInsideMasks(tokens: seq<string>) {
    forall i | 0 <= i < |tokens| ::
      var op := OpAt(tokens, i); op.Xor? || op.Assign? ==> op.spec.value <= op.spec.mask
  }

  lemma CleanOpMasks(tokens: seq<string>, i: nat, candidate: Bits)
    requires i < |tokens|
    requires TokenVerdict(tokens, i, candidate) == Clean
    ensures var op := OpAt(tokens, i);
      match op
      case NoOp => true
      case Xor(spec) => spec.mask * candidate == {}
      case Assign(spec) => spec.mask * candidate == {}
      case Restore(nfmask, ctmask) => nfmask * candidate == {} && ctmask * candidate == {}
      case Save(nfmask, ctmask) => nfmask * candidate == {} && ctmask * candidate == {}
  {
  }

  lemma SetOutside(mark: Bits, mask: Bits, value: Bits, bits: Bits)
    requires mask * bits == {} && value * bits == {}
    ensures Toggle(mark - mask, value) * bits == mark * bits
    ensures (mark - mask + value) * bits == mark * bits
  {
    forall x | x in bits
      ensures x !in mask && x !in value
    {
      assert x in mask <==> x in mask * bits;
      assert x in value <==> x in value * bits;
    }
  }

  /** One clean option keeps the candidate bits of both marks when its value avoids them. */
  lemma CleanOpKeepsCandidate(tokens: seq<string>, i: nat, target: string, candidate: Bits, m: Marks)
    requires i < |tokens|
    requires TokenVerdict(tokens, i, candidate) == Clean
    requires ValueAvoids(OpAt(tokens, i), candidate)
    ensures SameOn(ApplyOp(OpAt(tokens, i), target, m), m, candidate)
  {
    CleanOpMasks(tokens, i, candidate);
    match OpAt(tokens, i) {
      case NoOp =>
      case Xor(spec) =>
        SetOutside(m.packet, spec.mask, spec.value, candidate);
        SetOutside(m.connection, spec.mask, spec.value, candidate);
      case Assign(spec) =>
        SetOutside(m.packet, spec.mask, spec.value, candidate);
        SetOutside(m.connection, spec.mask, spec.value, candidate);
      case Restore(nfmask, ctmask) =>
        assert m.connection * ctmask * candidate <= ctmask * candidate;
        SetOutside(m.packet, nfmask, m.connection * ctmask, candidate);
      case Save(nfmask, ctmask) =>
        assert m.packet * nfmask * candidate <= nfmask * candidate;
        SetOutside(m.connection, ctmask, m.packet * nfmask, candidate);
    }
  }

  lemma {:induction false} RunKeepsCandidate(tokens: seq<string>, target: string, n: nat, candidate: Bits, m: Marks)
    requires n <= |tokens|
    requires forall i | 0 <= i < n ::
      TokenVerdict(tokens, i, candidate) == Clean && ValueAvoids(OpAt(tokens, i), candidate)
    ensures SameOn(RunRule(tokens, target, n, m), m, candidate)
  {
    if n != 0 {
      RunKeepsCandidate(tokens, target, n - 1, candidate, m);
      CleanOpKeepsCandidate(tokens, n - 1, target, candidate, RunRule(tokens, target, n - 1, m));
    }
  }

  /** A rule the audit passes never changes the candidate bits, when its values lie inside its masks. */
  lemma CleanRuleKeepsCandidate(tokens: seq<string>, target: string, candidate: Bits, m: Marks)
    requires RuleVerdict(tokens, candidate) == Clean
    requires ValuesInsideMasks(tokens)
    ensures SameOn(RunRule(tokens, target, |tokens|, m), m, candidate)
  {
    CleanAtEveryToken(tokens, |tokens|, candidate);
    forall i | 0 <= i < |tokens|
      ensures ValueAvoids(OpAt(tokens, i), candidate)
    {
      CleanOpMasks(tokens, i, candidate);
    }
    RunKeepsCandidate(tokens, target, |tokens|, candidate, m);
  }

  // ----- exactly when a clean rule keeps the candidate ------------------------------------------------

  function MarkOf(target: string, m: Marks): Bits {
    if target == "MARK" then m.packet else m.connection
  }

  predicate FlipsBit(op: MarkOp, bit: nat) {
    op.Xor? && bit in op.spec.value
  }

  predicate ForcesBit(op: MarkOp, bit: nat) {
    op.Assign? && bit in op.spec.value
  }

  /** How often the first `n` options toggle a bit. */
  function Flips(tokens: seq<string>, n: nat, bit: nat): nat
    requires n <= |tokens|
  {
    if n == 0 then 0 else Flips(tokens, n - 1, bit) + if FlipsBit(OpAt(tokens, n - 1), bit) then 1 else 0
  }

  predicate Forced(tokens: seq<string>, n: nat, bit: nat)
    requires n <= |tokens|
  {
    exists i | 0 <= i < n :: ForcesBit(OpAt(tokens, i), bit)
  }

  /** One clean option on one candidate bit of the mark its target writes; the other mark keeps the bit. */
  lemma CleanOpOnBit(tokens: seq<string>, i: nat, target: string, candidate: Bits, bit: nat, m: Marks)
    requires i < |tokens| && TokenVerdict(tokens, i, candidate) == Clean && bit in candidate && IsMarkTarget(target)
    ensures var op, after := OpAt(tokens, i), ApplyOp(OpAt(tokens, i), target, m);
      && (bit in MarkOf(target, after) <==>
            if ForcesBit(op, bit) then true
            else if FlipsBit(op, bit) then bit !in MarkOf(target, m) else bit in MarkOf(target, m))
      && (target == "MARK" ==> (bit in after.connection <==> bit in m.connection))
      && (target == "CONNMARK" ==> (bit in after.packet <==> bit in m.packet))
  {
    CleanOpMasks(tokens, i, candidate);
    var op := OpAt(tokens, i);
    if op.Xor? || op.Assign? {
      assert bit in op.spec.mask <==> bit in op.spec.mask * candidate;
    } else if op.Restore? || op.Save? {
      assert bit in op.nfmask <==> bit in op.nfmask * candidate;
      assert bit in op.ctmask <==> bit in op.ctmask * candidate;
    }
  }

  /** What the first `n` options of a clean rule do to one candidate bit. */
  lemma {:induction false} CleanRuleOnBit(tokens: seq<string>, n: nat, target: string, candidate: Bits, bit: nat,
      m: Marks)
    requires n <= |tokens| && bit in candidate && IsMarkTarget(target)
    requires forall i | 0 <= i < n :: TokenVerdict(tokens, i, candidate) == Clean
    ensures var after := RunRule(tokens, target, n, m);
      && (!Forced(tokens, n, bit) ==>
            (bit in MarkOf(target, after) <==> (bit in MarkOf(target, m) <==> Flips(tokens, n, bit) % 2 == 0)))
      && (target == "MARK" ==> (bit in after.connection <==> bit in m.connection))
      && (target == "CONNMARK" ==> (bit in after.packet <==> bit in m.packet))
  {
    hide TokenVerdict, OpAt, ApplyOp;
    if n != 0 {
      CleanRuleOnBit(tokens, n - 1, target, candidate, bit, m);
      CleanOpOnBit(tokens, n - 1, target, candidate, bit, RunRule(tokens, target, n - 1, m));
      assert ForcesBit(OpAt(tokens, n - 1), bit) ==> Forced(tokens, n, bit);
    }
  }

  /** A forced bit ends the same whatever it was. */
  lemma {:induction false} ForcedEndsAlike(tokens: seq<string>, n: nat, target: string, candidate: Bits, bit: nat,
      m: Marks, m': Marks)
    requires n <= |tokens| && bit in candidate && IsMarkTarget(target)
    requires forall i | 0 <= i < n :: TokenVerdict(tokens, i, candidate) == Clean
    requires Forced(tokens, n, bit)
    ensures bit in MarkOf(target, RunRule(tokens, target, n, m)) <==>
      bit in MarkOf(target, RunRule(tokens, target, n, m'))
  {
    hide TokenVerdict, OpAt, ApplyOp;
    CleanOpOnBit(tokens, n - 1, target, candidate, bit, RunRule(tokens, target, n - 1, m));
    CleanOpOnBit(tokens, n - 1, target, candidate, bit, RunRule(tokens, target, n - 1, m'));
    if !ForcesBit(OpAt(tokens, n - 1), bit) {
      assert Forced(tokens, n - 1, bit);
      ForcedEndsAlike(tokens, n - 1, target, candidate, bit, m, m');
    }
  }

  /** No option sets a candidate bit, and every candidate bit is toggled an even number of times. */
  predicate Neutral(tokens: seq<string>, candidate: Bits) {
    forall bit | bit in candidate :: !Forced(tokens, |tokens|, bit) && Flips(tokens, |tokens|, bit) % 2 == 0
  }

  lemma NeutralKeepsCandidate(tokens: seq<string>, target: string, candidate: Bits, m: Marks)
    requires RuleVerdict(tokens, candidate) == Clean && IsMarkTarget(target) && Neutral(tokens, candidate)
    ensures SameOn(RunRule(tokens, target, |tokens|, m), m, candidate)
  {
    hide TokenVerdict, OpAt, ApplyOp, RunRule;
    CleanAtEveryToken(tokens, |tokens|, candidate);
    var after := RunRule(tokens, target, |tokens|, m);
    forall bit | bit in candidate
      ensures (bit in after.packet <==> bit in m.packet) && (bit in after.connection <==> bit in m.connection)
    {
      CleanRuleOnBit(tokens, |tokens|, target, candidate, bit, m);
    }
  }

  /** Of the two marks that are empty and that hold the bit alone, a rule that is not neutral moves one. */
  lemma OtherwiseMovesBit(tokens: seq<string>, target: string, candidate: Bits, bit: nat)
    requires RuleVerdict(tokens, candidate) == Clean && IsMarkTarget(target) && bit in candidate
    requires Forced(tokens, |tokens|, bit) || Flips(tokens, |tokens|, bit) % 2 != 0
    ensures exists m: Marks :: !SameOn(RunRule(tokens, target, |tokens|, m), m, candidate)
  {
    hide TokenVerdict, OpAt, ApplyOp, RunRule;
    CleanAtEveryToken(tokens, |tokens|, candidate);
    var off, on := Marks({}, {}), Marks({bit}, {bit});
    var offAfter, onAfter := RunRule(tokens, target, |tokens|, off), RunRule(tokens, target, |tokens|, on);
    if Forced(tokens, |tokens|, bit) {
      ForcedEndsAlike(tokens, |tokens|, target, candidate, bit, off, on);
    } else {
      CleanRuleOnBit(tokens, |tokens|, target, candidate, bit, off);
    }
    assert bit in MarkOf(target, off) * candidate <==> bit in MarkOf(target, off);
    assert bit in MarkOf(target, offAfter) * candidate <==> bit in MarkOf(target, offAfter);
    assert bit in MarkOf(target, onAfter) * candidate <==> bit in MarkOf(target, onAfter);
    assert bit in MarkOf(target, on) * candidate;
    assert !SameOn(offAfter, off, candidate) || !SameOn(onAfter, on, candidate);
  }

  /**
   The audit tests masks, not values: a rule it passes keeps the candidate of every mark exactly when
   it is neutral.
   */
  lemma CleanRuleExactCondition(tokens: seq<string>, target: string, candidate: Bits)
    requires RuleVerdict(tokens, candidate) == Clean && IsMarkTarget(target)
    ensures (forall m: Marks :: SameOn(RunRule(tokens, target, |tokens|, m), m, candidate)) <==>
      Neutral(tokens, candidate)
  {
    hide RuleVerdict, RunRule, SameOn, Flips, Forced;
    if Neutral(tokens, candidate) {
      forall m: Marks ensures SameOn(RunRule(tokens, target, |tokens|, m), m, candidate) {
        NeutralKeepsCandidate(tokens, target, candidate, m);
      }
    } else {
      var bit :| bit in candidate && (Forced(tokens, |tokens|, bit) || Flips(tokens, |tokens|, bit) % 2 != 0);
      OtherwiseMovesBit(tokens, target, candidate, bit);
    }
  }

  lemma PlainTokenIsClean(tokens: seq<string>, i: nat, candidate: Bits)
    requires i < |tokens|
    requires KindOf(tokens[i]).Other? || (KindOf(tokens[i]).Jump? && i + 1 < |tokens|)
    ensures TokenVerdict(tokens, i, candidate) == Clean && OpAt(tokens, i) == NoOp
  {
  }

  lemma EmptyMaskIsClean(tokens: seq<string>, i: nat, candidate: Bits)
    requires i + 1 < |tokens| && KindOf(tokens[i]).SetXMark?
    requires ParseMarkSpec(tokens[i + 1]) == Some(MarkSpec(candidate, {}))
    ensures TokenVerdict(tokens, i, candidate) == Clean && OpAt(tokens, i) == Xor(MarkSpec(candidate, {}))
    ensures KnownMarkOption(tokens[i])
  {
  }

  lemma {:induction false} NoOpsKeep(tokens: seq<string>, target: string, a: nat, b: nat, m: Marks)
    requires a <= b <= |tokens|
    requires forall i | a <= i < b :: OpAt(tokens, i) == NoOp
    ensures RunRule(tokens, target, b, m) == RunRule(tokens, target, a, m)
  {
    if a < b { NoOpsKeep(tokens, target, a, b - 1, m); }
  }

  /** A rule whose only operation sets the candidate through an empty mask moves the candidate. */
  lemma EmptyMaskMovesCandidate(rule: seq<string>, at: nat, candidate: Bits)
    requires at < |rule|
    requires forall i | 0 <= i < |rule| && i != at :: OpAt(rule, i) == NoOp
    requires OpAt(rule, at) == Xor(MarkSpec(candidate, {})) && candidate != {}
    ensures !SameOn(RunRule(rule, "MARK", |rule|, Marks({}, {})), Marks({}, {}), candidate)
  {
    var m := Marks({}, {});
    NoOpsKeep(rule, "MARK", 0, at, m);
    NoOpsKeep(rule, "MARK", at + 1, |rule|, m);
    var bit :| bit in candidate;
    var after := ApplyOp(OpAt(rule, at), "MARK", m);
    assert bit in after.packet * candidate && bit !in m.packet * candidate;
  }

  lemma PlainTokens()
    ensures KindOf("-A") == KindOf("OUTPUT") == KindOf("MARK") == KindOf("1/0") == Other
    ensures KindOf("-j") == Jump && KindOf("--set-xmark") == SetXMark
  {
  }

  lemma OneOverZeroReads()
    ensures ParseMarkSpec("1/0") == Some(MarkSpec(BitsOf(1), {})) && 0 in BitsOf(1)
  {
    assert SplitOn("1/0", '/') == ["1", "0"] by {
      assert "1/0"[2..] == "0" && "1/0"[..1] == "1";
      assert IndexOf("1/0", '/') == 1 && IndexOf("0", '/') == 1;
    }
    assert ParseUnsigned("1") == Some(1) by { assert "1"[..0] == ""; assert DigitsValue("", 10) == Some(0); }
    assert ParseUnsigned("0") == Some(0) by { assert "0"[..0] == ""; assert DigitsValue("", 10) == Some(0); }
    ZeroHasNoBits();
    assert Odd(1, 0);
  }

  /** A concrete instance: `--set-xmark 1/0` against candidate mark 1. */
  lemma OneOverZeroMovesCandidate()
    ensures var rule := ["-A", "OUTPUT", "-j", "MARK", "--set-xmark", "1/0"];
            && RuleVerdict(rule, BitsOf(1)) == Clean
            && !SameOn(RunRule(rule, "MARK", |rule|, Marks({}, {})), Marks({}, {}), BitsOf(1))
  {
    hide TokenVerdict, OpAt, ParseMarkSpec, BitsOf, RunRule, KindOf, KnownMarkOption;
    OneOverZeroReads();
    PlainTokens();
    var rule := ["-A", "OUTPUT", "-j", "MARK", "--set-xmark", "1/0"];
    assert rule[4] == "--set-xmark" && rule[5] == "1/0";
    EmptyMaskIsClean(rule, 4, BitsOf(1));
    forall i | 0 <= i < 6 && i != 4
      ensures TokenVerdict(rule, i, BitsOf(1)) == Clean && OpAt(rule, i) == NoOp
    {
      PlainTokenIsClean(rule, i, BitsOf(1));
    }
    EmptyMaskMovesCandidate(rule, 4, BitsOf(1));
    CleanAtEveryToken(rule, |rule|, BitsOf(1));
  }

  lemma {:induction false} ZeroIsEven(shift: nat)
    ensures !Odd(0, shift)
  {
    if shift != 0 { ZeroIsEven(shift - 1); }
  }

  lemma ZeroHasNoBits()
    ensures BitsOf(0) == {}
  {
    forall i: nat ensures !Odd(0, i) { ZeroIsEven(i); }
  }
}
