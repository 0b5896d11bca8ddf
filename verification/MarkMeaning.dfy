/** What the mark audit accepts, on the words of a rule and the binary digits of the numbers in it. */
module MarkMeaning {
  import opened Common
  import opened Text
  import opened MarkAudit

  // ----- binary digits ---------------------------------------------------------------------------------

  function Pow2(n: nat): (p: nat)
    ensures p > 0
  {
    if n == 0 then 1 else 2 * Pow2(n - 1)
  }

  predicate HasBit(word: nat, i: nat) {
    word / Pow2(i) % 2 == 1
  }

  lemma MultipleIsLarge(k: int, d: int)
    requires d >= 0
    ensures k >= 1 ==> k * d >= d
    ensures k <= -1 ==> k * d <= -d
  {
    assert k * d == (k - 1) * d + d == (k + 1) * d - d;
  }

  lemma QuotientIs(n: nat, d: nat, q: nat, r: nat)
    requires r < d && n == q * d + r
    ensures n / d == q
  {
    var k := n / d - q;
    assert k * d == n / d * d - q * d == r - n % d;
    MultipleIsLarge(k, d);
  }

  lemma HalveFirst(n: nat, d: nat)
    requires d > 0
    ensures n / 2 / d == n / (2 * d)
  {
    var q, r := n / 2 / d, n / 2 % d;
    assert n / 2 == q * d + r;
    assert n == q * (2 * d) + (2 * r + n % 2);
    QuotientIs(n, 2 * d, q, 2 * r + n % 2);
  }

  lemma {:induction false} OddIsBit(n: nat, i: nat)
    ensures Odd(n, i) <==> HasBit(n, i)
  {
    if i != 0 {
      OddIsBit(n / 2, i - 1);
      HalveFirst(n, Pow2(i - 1));
    }
  }

  /** The set of bit positions of a word is the set of its binary digits that are one. */
  lemma BitsOfMeaning(word: nat, i: nat)
    ensures i in BitsOf(word) <==> i < 64 && HasBit(word, i)
  {
    OddIsBit(word, i);
  }

  lemma {:induction false} OnesAreOdd(n: nat, i: nat)
    requires i < n
    ensures Odd(Pow2(n) - 1, i)
  {
    if i != 0 {
      OnesAreOdd(n - 1, i - 1);
      assert (Pow2(n) - 1) / 2 == Pow2(n - 1) - 1;
    }
  }

  lemma FullMaskIsOnes()
    ensures Pow2(32) - 1 == IPV4_FULL_MASK
  {
    assert Pow2(8) == 256;
    assert Pow2(16) == 256 * Pow2(8);
    assert Pow2(24) == 256 * Pow2(16);
    assert Pow2(32) == 256 * Pow2(24);
  }

  /** A candidate is some bits of a 32-bit mark. */
  predicate Candidate(bits: Bits) {
    bits != {} && forall i | i in bits :: i < 32
  }

  lemma FullMaskMeets(candidate: Bits)
    requires Candidate(candidate)
    ensures BitsOf(IPV4_FULL_MASK) * candidate != {}
  {
    var i :| i in candidate;
    FullMaskIsOnes();
    OnesAreOdd(32, i);
    assert i in BitsOf(IPV4_FULL_MASK) * candidate;
  }

  lemma {:induction false} PowerIsOneBit(n: nat, i: nat)
    ensures Odd(Pow2(n), i) <==> i == n
  {
    if i != 0 {
      if n == 0 {
        ZeroIsEven(i - 1);
      } else {
        PowerIsOneBit(n - 1, i - 1);
        assert Pow2(n) / 2 == Pow2(n - 1);
      }
    }
  }

  lemma PowerBits(n: nat)
    requires n < 64
    ensures BitsOf(Pow2(n)) == {n}
  {
    forall i: nat ensures Odd(Pow2(n), i) <==> i == n { PowerIsOneBit(n, i); }
  }

  // ----- numbers ---------------------------------------------------------------------------------------

  /** Numbers are read as written: in decimal, or in hexadecimal after `0x` or `0X`, in either case. */
  lemma NumberReads(n: nat, digits: string)
    requires n < U64_LIMIT && (digits == LOWER_DIGITS || digits == UPPER_DIGITS)
    ensures ParseUnsigned(Decimal(n)) == Some(n)
    ensures ParseUnsigned("0x" + Hex(n, digits)) == ParseUnsigned("0X" + Hex(n, digits)) == Some(n)
  {
    hide Decimal, Hex, DigitsValue;
    DecimalIsDigits(n);
    DecimalRoundTrip(n, U64_LIMIT);
    assert |Decimal(n)| >= 2 ==> '0' <= Decimal(n)[1] <= '9';
    HexValue(n, digits);
    assert ("0x" + Hex(n, digits))[2..] == ("0X" + Hex(n, digits))[2..] == Hex(n, digits);
  }

  // ----- mark specs ------------------------------------------------------------------------------------

  /** The word is a number of at most 32 bits. */
  predicate Reads(word: string, value: nat) {
    ParseUnsigned(word) == Some(value) && value < Pow2(32)
  }

  ghost predicate Readable(word: string) {
    exists value :: Reads(word, value)
  }

  /** The number in `word` shares no binary digit with the candidate. */
  ghost predicate Avoids(word: string, candidate: Bits) {
    exists value :: Reads(word, value) && forall i | i in candidate :: !HasBit(value, i)
  }

  lemma ReadsExactly(word: string, value: nat)
    ensures Reads(word, value) <==> ParseUnsigned(word) == Some(value) && value <= IPV4_FULL_MASK
  {
    FullMaskIsOnes();
  }

  lemma MeetsExactly(value: nat, candidate: Bits)
    requires Candidate(candidate)
    ensures BitsOf(value) * candidate == {} <==> forall i | i in candidate :: !HasBit(value, i)
  {
    forall i: nat ensures i in BitsOf(value) <==> i < 64 && HasBit(value, i) { BitsOfMeaning(value, i); }
    assert forall i | i in candidate :: i in BitsOf(value) * candidate <==> i in BitsOf(value);
  }

  lemma SplitWhole(s: string)
    requires '/' !in s
    ensures SplitOn(s, '/') == [s]
  {
    assert IndexOf(s, '/') == |s|;
  }

  lemma SplitAtOne(a: string, b: string)
    requires '/' !in a && '/' !in b
    ensures SplitOn(a + "/" + b, '/') == [a, b]
  {
    var s := a + "/" + b;
    assert s[|a|] == '/' && forall k | 0 <= k < |a| :: s[k] == a[k];
    assert IndexOf(s, '/') == |a|;
    assert s[..|a|] == a && s[|a| + 1..] == b;
    SplitWhole(b);
  }

  /** A spec without a mask touches every candidate. */
  lemma BareSpecTouches(spec: string, candidate: Bits)
    requires '/' !in spec && Candidate(candidate)
    ensures MarkSpecTouches(spec, candidate) == if Readable(spec) then Some(true) else None
  {
    SplitWhole(spec);
    FullMaskMeets(candidate);
    forall value: nat ensures Reads(spec, value) <==> ParseUnsigned(spec) == Some(value) && value <= IPV4_FULL_MASK {
      ReadsExactly(spec, value);
    }
  }

  /** A spec with a mask touches exactly the candidates that share a bit with the mask. */
  lemma MaskedSpecTouches(value: string, mask: string, candidate: Bits)
    requires '/' !in value && '/' !in mask && Candidate(candidate)
    ensures MarkSpecTouches(value + "/" + mask, candidate) ==
      if Readable(value) && Readable(mask) then Some(!Avoids(mask, candidate)) else None
  {
    SplitAtOne(value, mask);
    forall n: nat ensures Reads(value, n) <==> ParseUnsigned(value) == Some(n) && n <= IPV4_FULL_MASK {
      ReadsExactly(value, n);
    }
    forall n: nat ensures Reads(mask, n) <==> ParseUnsigned(mask) == Some(n) && n <= IPV4_FULL_MASK {
      ReadsExactly(mask, n);
      MeetsExactly(n, candidate);
    }
    if Readable(mask) {
      MeetsExactly(ParseUnsigned(mask).value, candidate);
    }
  }

  // ----- the words of a rule -----------------------------------------------------------------------------

  /** The word at `i` takes the word after it. */
  predicate HasNext(rule: seq<string>, i: nat) {
    i + 1 < |rule|
  }

  /** The spec reads as a value and a mask that avoids the candidate; without a mask it never does. */
  ghost predicate SpecAvoids(spec: string, candidate: Bits) {
    exists value, mask :: '/' !in value && '/' !in mask && spec == value + "/" + mask
                          && Readable(value) && Avoids(mask, candidate)
  }

  /** The option occurs, and the word after its first occurrence is a number that avoids the candidate. */
  ghost predicate MaskAvoids(rule: seq<string>, option: string, candidate: Bits) {
    exists i | 0 <= i < |rule| :: rule[i] == option && (forall k | 0 <= k < i :: rule[k] != option)
                                  && HasNext(rule, i) && Avoids(rule[i + 1], candidate)
  }

  /** What the word at `i` must satisfy for the rule to leave the candidate alone. */
  ghost predicate Harmless(rule: seq<string>, i: nat, candidate: Bits)
    requires i < |rule|
  {
    var word := rule[i];
    if word in ["-j", "--jump", "-g", "--goto"] then HasNext(rule, i)
    else if word in ["--mark", "--set-mark", "--set-xmark"] then HasNext(rule, i) && SpecAvoids(rule[i + 1], candidate)
    else if word in ["--nfmask", "--ctmask"] then HasNext(rule, i) && Avoids(rule[i + 1], candidate)
    else if word in ["--restore-mark", "--save-mark"] then
      MaskAvoids(rule, "--nfmask", candidate) && MaskAvoids(rule, "--ctmask", candidate)
    else word !in ["--and-mark", "--or-mark", "--xor-mark"]
  }

  lemma MaskTokenAvoids(word: string, candidate: Bits)
    requires Candidate(candidate)
    ensures Avoids(word, candidate) <==> MaskToken(word).Some? && MaskToken(word).value * candidate == {}
  {
    forall n: nat ensures Reads(word, n) <==> ParseUnsigned(word) == Some(n) && n <= IPV4_FULL_MASK {
      ReadsExactly(word, n);
    }
    if ParseUnsigned(word).Some? { MeetsExactly(ParseUnsigned(word).value, candidate); }
  }

  lemma OptionMaskAvoids(rule: seq<string>, option: string, candidate: Bits)
    requires Candidate(candidate)
    ensures MaskAvoids(rule, option, candidate) <==> OptionMask(rule, option) * candidate == {}
  {
    hide Avoids, MaskToken;
    FullMaskMeets(candidate);
    var i := Position(rule, option);
    if i + 1 < |rule| { MaskTokenAvoids(rule[i + 1], candidate); }
    if MaskAvoids(rule, option, candidate) {
      var k :| 0 <= k < |rule| && rule[k] == option && (forall j | 0 <= j < k :: rule[j] != option)
               && HasNext(rule, k) && Avoids(rule[k + 1], candidate);
      assert k == i;
    }
  }

  lemma SplitTwice(s: string)
    ensures |SplitOn(s, '/')| == 2 ==>
      var parts := SplitOn(s, '/');
      '/' !in parts[0] && '/' !in parts[1] && s == parts[0] + "/" + parts[1]
    ensures |SplitOn(s, '/')| == 1 ==> '/' !in s
  {
    var i := IndexOf(s, '/');
    if i < |s| {
      var rest := s[i + 1..];
      assert s == s[..i] + "/" + rest;
      assert '/' !in s[..i];
      assert IndexOf(rest, '/') == |rest| ==> '/' !in rest;
    }
  }

  lemma SpecAvoidsExactly(spec: string, candidate: Bits)
    requires Candidate(candidate)
    ensures SpecAvoids(spec, candidate) <==> MarkSpecTouches(spec, candidate) == Some(false)
  {
    hide SplitOn, Avoids, Readable;
    SplitTwice(spec);
    var parts := SplitOn(spec, '/');
    if |parts| == 1 {
      BareSpecTouches(spec, candidate);
    } else if |parts| == 2 {
      MaskedSpecTouches(parts[0], parts[1], candidate);
      AvoidsIsReadable(parts[1], candidate);
    }
    forall value: string, mask: string
      | '/' !in value && '/' !in mask && spec == value + "/" + mask && Readable(value) && Avoids(mask, candidate)
      ensures MarkSpecTouches(spec, candidate) == Some(false)
    {
      MaskedSpecTouches(value, mask, candidate);
      AvoidsIsReadable(mask, candidate);
    }
  }

  lemma AvoidsIsReadable(word: string, candidate: Bits)
    ensures Avoids(word, candidate) ==> Readable(word)
  {
  }

  /** The audit passes a word exactly when it is harmless. */
  lemma WordCleanExactly(rule: seq<string>, i: nat, candidate: Bits)
    requires i < |rule| && Candidate(candidate)
    ensures TokenVerdict(rule, i, candidate) == Clean <==> Harmless(rule, i, candidate)
  {
    hide Avoids, SpecAvoids, MaskAvoids, MarkSpecTouches, MaskToken, OptionMask;
    if HasNext(rule, i) {
      SpecAvoidsExactly(rule[i + 1], candidate);
      MaskTokenAvoids(rule[i + 1], candidate);
    }
    OptionMaskAvoids(rule, "--nfmask", candidate);
    OptionMaskAvoids(rule, "--ctmask", candidate);
  }

  ghost predicate SpecReadable(spec: string) {
    || ('/' !in spec && Readable(spec))
    || exists value, mask :: '/' !in value && '/' !in mask && spec == value + "/" + mask
                             && Readable(value) && Readable(mask)
  }

  /** The word lacks the word it takes, or that word is no number or spec. */
  ghost predicate Unread(rule: seq<string>, i: nat)
    requires i < |rule|
  {
    var word := rule[i];
    if word in ["-j", "--jump", "-g", "--goto"] then !HasNext(rule, i)
    else if word in ["--mark", "--set-mark", "--set-xmark"] then !HasNext(rule, i) || !SpecReadable(rule[i + 1])
    else word in ["--nfmask", "--ctmask"] && (!HasNext(rule, i) || !Readable(rule[i + 1]))
  }

  lemma SpecReadableExactly(spec: string, candidate: Bits)
    requires Candidate(candidate)
    ensures SpecReadable(spec) <==> MarkSpecTouches(spec, candidate).Some?
  {
    hide SplitOn, Avoids, Readable;
    SplitTwice(spec);
    var parts := SplitOn(spec, '/');
    if |parts| == 1 {
      BareSpecTouches(spec, candidate);
    } else if |parts| == 2 {
      MaskedSpecTouches(parts[0], parts[1], candidate);
    }
    if '/' !in spec { BareSpecTouches(spec, candidate); }
    forall value: string, mask: string
      | '/' !in value && '/' !in mask && spec == value + "/" + mask && Readable(value) && Readable(mask)
      ensures MarkSpecTouches(spec, candidate).Some?
    {
      MaskedSpecTouches(value, mask, candidate);
    }
  }

  lemma MaskTokenReads(word: string)
    ensures Readable(word) <==> MaskToken(word).Some?
  {
    forall n: nat ensures Reads(word, n) <==> ParseUnsigned(word) == Some(n) && n <= IPV4_FULL_MASK {
      ReadsExactly(word, n);
    }
  }

  /** The audit calls a word ambiguous exactly when it cannot be read; any other fault is a collision. */
  lemma WordAmbiguousExactly(rule: seq<string>, i: nat, candidate: Bits)
    requires i < |rule| && Candidate(candidate)
    ensures TokenVerdict(rule, i, candidate) == Ambiguous <==> Unread(rule, i)
  {
    hide Readable, SpecReadable, MarkSpecTouches, MaskToken, OptionMask;
    if HasNext(rule, i) {
      SpecReadableExactly(rule[i + 1], candidate);
      MaskTokenReads(rule[i + 1]);
    }
  }

  /** A rule that sends packets to a mark target but has no mark option the audit knows. */
  ghost predicate Unexplained(rule: seq<string>) {
    && (exists i | 0 <= i < |rule| ::
          rule[i] in ["-j", "--jump", "-g", "--goto"] && HasNext(rule, i) && rule[i + 1] in ["MARK", "CONNMARK"])
    && (forall i | 0 <= i < |rule| ::
          rule[i] !in ["--mark", "--set-mark", "--set-xmark", "--nfmask", "--ctmask", "--restore-mark", "--save-mark"])
  }

  lemma UnexplainedExactly(rule: seq<string>)
    ensures OpaqueMarkTarget(rule) <==> Unexplained(rule)
  {
    assert forall i | 0 <= i < |rule| ::
      JumpsToMark(rule, i) <==>
      rule[i] in ["-j", "--jump", "-g", "--goto"] && HasNext(rule, i) && rule[i + 1] in ["MARK", "CONNMARK"];
  }

  /** The audit passes a rule exactly when every word is harmless and its mark target, if any, is explained. */
  lemma RuleCleanExactly(rule: seq<string>, candidate: Bits)
    requires Candidate(candidate)
    ensures RuleVerdict(rule, candidate) == Clean <==>
      (forall i | 0 <= i < |rule| :: Harmless(rule, i, candidate)) && !Unexplained(rule)
  {
    hide TokenVerdict, Harmless, OpaqueMarkTarget, Unexplained;
    CleanAtEveryToken(rule, |rule|, candidate);
    UnexplainedExactly(rule);
    forall i | 0 <= i < |rule| ensures TokenVerdict(rule, i, candidate) == Clean <==> Harmless(rule, i, candidate) {
      WordCleanExactly(rule, i, candidate);
    }
  }

  ghost predicate BareNumber(word: string) {
    '/' !in word && Readable(word)
  }

  /** Marks matched or set without a mask, and marks saved or restored without masks, collide with every candidate. */
  lemma BareMarkCollides(rule: seq<string>, i: nat, candidate: Bits)
    requires i < |rule| && Candidate(candidate)
    ensures rule[i] in ["--mark", "--set-mark", "--set-xmark"] && HasNext(rule, i) && BareNumber(rule[i + 1]) ==>
      TokenVerdict(rule, i, candidate) == Collision
    ensures rule[i] in ["--restore-mark", "--save-mark"] && ("--nfmask" !in rule || "--ctmask" !in rule) ==>
      TokenVerdict(rule, i, candidate) == Collision
  {
    hide Readable, MarkSpecTouches;
    FullMaskMeets(candidate);
    if HasNext(rule, i) && '/' !in rule[i + 1] { BareSpecTouches(rule[i + 1], candidate); }
  }
}
