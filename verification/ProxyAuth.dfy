/** Proxy authentication: constant-time comparison and the two wire forms of one credential. */
module ProxyAuth {
  import opened Common
  import opened Base64
  import opened Utf8

  // ----- constant-time comparison ---------------------------------------------------------------------

  function Xor(a: nat, b: nat): nat {
    if a == 0 && b == 0 then 0 else 2 * Xor(a / 2, b / 2) + (if a % 2 != b % 2 then 1 else 0)
  }

  function Or(a: nat, b: nat): nat {
    if a == 0 && b == 0 then 0 else 2 * Or(a / 2, b / 2) + (if a % 2 == 1 || b % 2 == 1 then 1 else 0)
  }

  lemma {:induction false} XorVanishes(a: nat, b: nat)
    ensures Xor(a, b) == 0 <==> a == b
  {
    if a != 0 || b != 0 { XorVanishes(a / 2, b / 2); }
  }

  lemma {:induction false} OrVanishes(a: nat, b: nat)
    ensures Or(a, b) == 0 <==> a == 0 && b == 0
  {
    if a != 0 || b != 0 { OrVanishes(a / 2, b / 2); }
  }

  function ByteOrZero(bytes: seq<Byte>, i: nat): nat {
    if i < |bytes| then bytes[i] else 0
  }

  /** Equality of byte strings of any lengths, without an early exit. */
  method ConstantTimeEq(expected: seq<Byte>, supplied: seq<Byte>) returns (equal: bool)
    ensures equal <==> expected == supplied
  {
    var difference := Xor(|expected|, |supplied|);
    XorVanishes(|expected|, |supplied|);
    var length := if |expected| < |supplied| then |supplied| else |expected|;
    for index := 0 to length
      invariant difference == 0 <==>
        |expected| == |supplied| && expected[..Min(index, |expected|)] == supplied[..Min(index, |supplied|)]
    {
      var left, right := ByteOrZero(expected, index), ByteOrZero(supplied, index);
      XorVanishes(left, right);
      OrVanishes(difference, Xor(left, right));
      difference := Or(difference, Xor(left, right));
      if |expected| == |supplied| {
        assert expected[..index + 1] == expected[..index] + [left];
        assert supplied[..index + 1] == supplied[..index] + [right];
      }
    }
    assert expected[..|expected|] == expected && supplied[..|supplied|] == supplied;
    return difference == 0;
  }

  function Min(a: nat, b: nat): nat {
    if a < b then a else b
  }

  // ----- the two wire forms -------------------------------------------------------------------------------

  const COLON: Byte := 58

  datatype Material = Material(username: seq<Byte>, password: seq<Byte>)

  /** What the Basic scheme of section 2 of RFC 7617 encodes. */
  function UserPass(m: Material): seq<Byte> {
    m.username + [COLON] + m.password
  }

  function BasicText(m: Material): string {
    "Basic " + Encoded(UserPass(m), false, true)
  }

  function BasicValue(m: Material): seq<Byte> {
    Ascii(BasicText(m))
  }

  lemma {:induction false} EncodedIsAscii(bytes: seq<Byte>)
    ensures IsAscii(Encoded(bytes, false, true))
  {
    if bytes != [] {
      var n := ChunkLength(bytes);
      EncodedIsAscii(bytes[n..]);
      LettersAreAscii(Sextets(bytes[..n]));
    }
  }

  lemma {:induction false} LettersAreAscii(values: seq<Sextet>)
    ensures IsAscii(Letters(values, false))
  {
    if values != [] { LettersAreAscii(values[1..]); }
  }

  lemma BasicTextIsAscii(m: Material)
    ensures IsAscii(BasicText(m))
  {
    EncodedIsAscii(UserPass(m));
  }

  /** Equal Basic values carry equal bytes before encoding. */
  lemma BasicDeterminesUserPass(left: Material, right: Material)
    ensures BasicValue(left) == BasicValue(right) <==> UserPass(left) == UserPass(right)
  {
    BasicTextIsAscii(left);
    BasicTextIsAscii(right);
    AsciiIsInjective(BasicText(left), BasicText(right));
    EncodingIsInjective(UserPass(left), UserPass(right), false, true);
    var l, r := Encoded(UserPass(left), false, true), Encoded(UserPass(right), false, true);
    assert ("Basic " + l)[6..] == l && ("Basic " + r)[6..] == r;
  }

  datatype Principal = Primary | Temporary

  datatype Admission = Admission(primary: Material, temporary: Option<Material>)

  method MatchesUsernamePassword(m: Material, username: seq<Byte>, password: seq<Byte>) returns (matches: bool)
    ensures matches <==> m == Material(username, password)
  {
    var user := ConstantTimeEq(m.username, username);
    var pass := ConstantTimeEq(m.password, password);
    return user && pass;
  }

  method ExpectedBasicAuthorization(m: Material) returns (value: seq<Byte>)
    ensures value == BasicValue(m)
  {
    var encoded := EncodeBase64(m.username + [COLON] + m.password, false, true);
    return Ascii("Basic " + encoded);
  }

  method MatchesHttpBasic(m: Material, supplied: seq<Byte>) returns (matches: bool)
    ensures matches <==> supplied == BasicValue(m)
  {
    var expected := ExpectedBasicAuthorization(m);
    matches := ConstantTimeEq(expected, supplied);
  }

  /** The principal of a username and password pair; `available` is the verdict on the temporary grant. */
  function PairPrincipal(a: Admission, available: bool, username: seq<Byte>, password: seq<Byte>): Option<Principal> {
    if a.primary == Material(username, password) then Some(Primary)
    else if a.temporary == Some(Material(username, password)) && available then Some(Temporary)
    else None
  }

  function BasicPrincipal(a: Admission, available: bool, supplied: seq<Byte>): Option<Principal> {
    if supplied == BasicValue(a.primary) then Some(Primary)
    else if a.temporary.Some? && supplied == BasicValue(a.temporary.value) && available then Some(Temporary)
    else None
  }

  method ClassifyUsernamePassword(a: Admission, available: bool, username: seq<Byte>, password: seq<Byte>)
    returns (principal: Option<Principal>)
    ensures principal == PairPrincipal(a, available, username, password)
  {
    var primary := MatchesUsernamePassword(a.primary, username, password);
    if primary { return Some(Primary); }
    if a.temporary.None? { return None; }
    var secondary := MatchesUsernamePassword(a.temporary.value, username, password);
    return if secondary && available then Some(Temporary) else None;
  }

  method ClassifyHttpBasic(a: Admission, available: bool, supplied: seq<Byte>) returns (principal: Option<Principal>)
    ensures principal == BasicPrincipal(a, available, supplied)
  {
    var primary := MatchesHttpBasic(a.primary, supplied);
    if primary { return Some(Primary); }
    if a.temporary.None? { return None; }
    var secondary := MatchesHttpBasic(a.temporary.value, supplied);
    return if secondary && available then Some(Temporary) else None;
  }

  // ----- when the two forms agree -------------------------------------------------------------------------

  predicate ColonFree(bytes: seq<Byte>) {
    COLON !in bytes
  }

  /** Both paths give a client that presents this pair the same principal. */
  predicate PathsAgree(a: Admission, available: bool, username: seq<Byte>, password: seq<Byte>) {
    BasicPrincipal(a, available, BasicValue(Material(username, password))) ==
      PairPrincipal(a, available, username, password)
  }

  lemma FirstColon(left: seq<Byte>, leftRest: seq<Byte>, right: seq<Byte>, rightRest: seq<Byte>)
    requires ColonFree(left) && ColonFree(right)
    ensures left + [COLON] + leftRest == right + [COLON] + rightRest <==> left == right && leftRest == rightRest
  {
    var l, r := left + [COLON] + leftRest, right + [COLON] + rightRest;
    if l == r {
      assert l[|left|] == COLON && r[|right|] == COLON;
      assert (forall i | 0 <= i < |left| :: l[i] != COLON) && forall i | 0 <= i < |right| :: r[i] != COLON;
      assert |left| == |right|;
      assert left == l[..|left|] && right == r[..|right|];
      assert leftRest == l[|left| + 1..] && rightRest == r[|right| + 1..];
    }
  }

  /** The pair a server reads out of a Basic value whose username holds a colon: cut at the first one. */
  function FirstCut(bytes: seq<Byte>): (cut: nat)
    ensures cut <= |bytes| && ColonFree(bytes[..cut]) && (cut < |bytes| ==> bytes[cut] == COLON)
  {
    if bytes == [] || bytes[0] == COLON then 0
    else
      var rest := FirstCut(bytes[1..]);
      assert bytes[..rest + 1] == [bytes[0]] + bytes[1..][..rest];
      rest + 1
  }

  function Recut(m: Material): (cut: Material)
    requires !ColonFree(m.username)
    ensures ColonFree(cut.username) && UserPass(cut) == UserPass(m) && cut.username != m.username
  {
    var i := FirstCut(m.username);
    assert m.username[..|m.username|] == m.username;
    var cut := Material(m.username[..i], m.username[i + 1..] + [COLON] + m.password);
    assert m.username == m.username[..i] + [COLON] + m.username[i + 1..];
    cut
  }

  /**
   What the pairs themselves decide: neither stored username holds a colon, except that the temporary one
   may if its Basic value is that of the primary.
   */
  predicate Unambiguous(a: Admission) {
    && ColonFree(a.primary.username)
    && (a.temporary.Some? && !ColonFree(a.temporary.value.username) ==> Recut(a.temporary.value) == a.primary)
  }

  lemma SamePairSameBasic(stored: Material, username: seq<Byte>, password: seq<Byte>)
    requires ColonFree(stored.username) && ColonFree(username)
    ensures BasicValue(stored) == BasicValue(Material(username, password)) <==> stored == Material(username, password)
  {
    BasicDeterminesUserPass(stored, Material(username, password));
    FirstColon(stored.username, stored.password, username, password);
  }

  lemma UnambiguousAgrees(a: Admission, available: bool, username: seq<Byte>, password: seq<Byte>)
    requires Unambiguous(a) && ColonFree(username)
    ensures PathsAgree(a, available, username, password)
  {
    SamePairSameBasic(a.primary, username, password);
    if a.temporary.Some? {
      var t := a.temporary.value;
      if ColonFree(t.username) {
        SamePairSameBasic(t, username, password);
      } else {
        BasicDeterminesUserPass(t, a.primary);
      }
    }
  }

  lemma RecutBreaksPrimary(a: Admission)
    requires !ColonFree(a.primary.username)
    ensures var cut := Recut(a.primary); !PathsAgree(a, true, cut.username, cut.password)
  {
    BasicDeterminesUserPass(a.primary, Recut(a.primary));
  }

  lemma RecutBreaksTemporary(a: Admission)
    requires ColonFree(a.primary.username) && a.temporary.Some? && !ColonFree(a.temporary.value.username)
    requires Recut(a.temporary.value) != a.primary
    ensures var cut := Recut(a.temporary.value); !PathsAgree(a, true, cut.username, cut.password)
  {
    var cut := Recut(a.temporary.value);
    BasicDeterminesUserPass(a.temporary.value, cut);
    SamePairSameBasic(a.primary, cut.username, cut.password);
  }

  /**
   The HTTP and the SOCKS path agree on every client with a colon-free username exactly when the
   admission is unambiguous.
   */
  lemma PathsAgreeExactly(a: Admission)
    ensures Unambiguous(a) <==>
      forall available: bool, username: seq<Byte>, password: seq<Byte> | ColonFree(username) ::
        PathsAgree(a, available, username, password)
  {
    if Unambiguous(a) {
      forall available: bool, username: seq<Byte>, password: seq<Byte> | ColonFree(username)
        ensures PathsAgree(a, available, username, password)
      {
        UnambiguousAgrees(a, available, username, password);
      }
    } else if !ColonFree(a.primary.username) {
      RecutBreaksPrimary(a);
    } else {
      RecutBreaksTemporary(a);
    }
  }

  // ----- when they agree on every client ---------------------------------------------------------------------

  predicate WithoutColon(m: Material) {
    ColonFree(m.username) && ColonFree(m.password)
  }

  /** Another pair with the same Basic value: the colon that separates is taken to be another one. */
  function Shifted(m: Material): (other: Material)
    requires !WithoutColon(m)
    ensures UserPass(other) == UserPass(m) && other != m
  {
    if !ColonFree(m.username) then Recut(m)
    else
      var i := FirstCut(m.password);
      assert m.password[..|m.password|] == m.password;
      assert m.password == m.password[..i] + [COLON] + m.password[i + 1..];
      Material(m.username + [COLON] + m.password[..i], m.password[i + 1..])
  }

  /** With its one colon in place, a Basic value has one reading. */
  lemma OneColonOneReading(stored: Material, other: Material)
    requires WithoutColon(stored)
    ensures UserPass(stored) == UserPass(other) <==> stored == other
  {
    if UserPass(stored) == UserPass(other) {
      var joined, n := UserPass(other), |other.username|;
      assert joined[n] == COLON;
      assert forall i | 0 <= i < |joined| && i != |stored.username| :: UserPass(stored)[i] != COLON;
      assert stored.username == joined[..n] && other.username == joined[..n];
      assert stored.password == joined[n + 1..] && other.password == joined[n + 1..];
    }
  }

  lemma ShiftBreaksPrimary(a: Admission)
    requires !WithoutColon(a.primary)
    ensures var other := Shifted(a.primary); !PathsAgree(a, true, other.username, other.password)
  {
    BasicDeterminesUserPass(a.primary, Shifted(a.primary));
  }

  lemma ShiftBreaksTemporary(a: Admission)
    requires WithoutColon(a.primary) && a.temporary.Some? && !WithoutColon(a.temporary.value)
    ensures var other := Shifted(a.temporary.value); !PathsAgree(a, true, other.username, other.password)
  {
    var other := Shifted(a.temporary.value);
    BasicDeterminesUserPass(a.temporary.value, other);
    BasicDeterminesUserPass(a.primary, other);
    OneColonOneReading(a.primary, other);
    OneColonOneReading(a.primary, a.temporary.value);
  }

  lemma WithoutColonAgrees(a: Admission, available: bool, username: seq<Byte>, password: seq<Byte>)
    requires WithoutColon(a.primary) && (a.temporary.Some? ==> WithoutColon(a.temporary.value))
    ensures PathsAgree(a, available, username, password)
  {
    var client := Material(username, password);
    BasicDeterminesUserPass(a.primary, client);
    OneColonOneReading(a.primary, client);
    if a.temporary.Some? {
      BasicDeterminesUserPass(a.temporary.value, client);
      OneColonOneReading(a.temporary.value, client);
    }
  }

  /** The two paths agree on every client whatever exactly when no stored username or password holds a colon. */
  lemma PathsAgreeOnEveryClient(a: Admission)
    ensures (WithoutColon(a.primary) && (a.temporary.Some? ==> WithoutColon(a.temporary.value))) <==>
      forall available: bool, username: seq<Byte>, password: seq<Byte> :: PathsAgree(a, available, username, password)
  {
    if !WithoutColon(a.primary) {
      ShiftBreaksPrimary(a);
    } else if a.temporary.Some? && !WithoutColon(a.temporary.value) {
      ShiftBreaksTemporary(a);
    } else {
      forall available: bool, username: seq<Byte>, password: seq<Byte>
        ensures PathsAgree(a, available, username, password)
      {
        WithoutColonAgrees(a, available, username, password);
      }
    }
  }

  // ----- what SOCKS5 can carry ---------------------------------------------------------------------------------

  /** Both parts have a length that one octet can state. */
  predicate Fits(m: Material) {
    1 <= |m.username| <= 255 && 1 <= |m.password| <= 255
  }

  /** Every stored pair fits; otherwise the SOCKS5 path refuses every client. */
  predicate Compatible(a: Admission) {
    Fits(a.primary) && (a.temporary.Some? ==> Fits(a.temporary.value))
  }

  /** The one client with a colon-free username whose Basic value is that of the stored pair. */
  function Reading(m: Material): (client: Material)
    ensures ColonFree(client.username) && UserPass(client) == UserPass(m)
  {
    if ColonFree(m.username) then m else Recut(m)
  }

  lemma BasicMeansReading(m: Material, client: Material)
    requires ColonFree(client.username)
    ensures BasicValue(client) == BasicValue(m) <==> client == Reading(m)
  {
    BasicDeterminesUserPass(client, m);
    FirstColon(client.username, client.password, Reading(m).username, Reading(m).password);
  }
}
