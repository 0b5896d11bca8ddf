/** The text rules of a CONNECT header: lines, words, field names and control characters. */
module HttpText {
  import opened Common
  import opened Text
  import opened HttpConnect

  // ----- lines ---------------------------------------------------------------------------------------------

  predicate BreaksAt(s: string, i: nat) {
    i + 1 < |s| && s[i] == '\r' && s[i + 1] == '\n'
  }

  predicate OneLineText(s: string) {
    forall i | 0 <= i < |s| :: !BreaksAt(s, i)
  }

  function JoinLines(lines: seq<string>): string
    requires lines != []
  {
    if |lines| == 1 then lines[0] else lines[0] + "\r\n" + JoinLines(lines[1..])
  }

  /** The lines give the text back, and none of them holds a line break. */
  lemma {:induction false} LinesRejoin(s: string)
    ensures JoinLines(SplitLines(s)) == s
    ensures forall i | 0 <= i < |SplitLines(s)| :: OneLineText(SplitLines(s)[i])
    decreases |s|
  {
    if |s| < 2 {
    } else if BreaksAt(s, 0) {
      LinesRejoin(s[2..]);
      var rest := SplitLines(s[2..]);
      assert ([""] + rest)[1..] == rest;
      assert s == "" + "\r\n" + s[2..];
    } else {
      LinesRejoin(s[1..]);
      var rest := SplitLines(s[1..]);
      var lines := [[s[0]] + rest[0]] + rest[1..];
      assert lines[1..] == rest[1..];
      FirstCharacter(s[0], rest);
      FirstLineIsWhole(s, rest[0]);
    }
  }

  lemma FirstCharacter(c: char, rest: seq<string>)
    requires rest != []
    ensures JoinLines([[c] + rest[0]] + rest[1..]) == [c] + JoinLines(rest)
  {
    var lines := [[c] + rest[0]] + rest[1..];
    assert lines[1..] == rest[1..];
    if |rest| > 1 {
      assert ([c] + rest[0]) + "\r\n" + JoinLines(rest[1..]) == [c] + (rest[0] + "\r\n" + JoinLines(rest[1..]));
    }
  }

  /** A first line starts the text, so it breaks where the text breaks. */
  lemma FirstLineIsWhole(s: string, first: string)
    requires |s| >= 2 && !BreaksAt(s, 0) && OneLineText(first) && first == SplitLines(s[1..])[0]
    requires JoinLines(SplitLines(s[1..])) == s[1..]
    ensures OneLineText([s[0]] + first)
  {
    var line := [s[0]] + first;
    assert first <= s[1..];
    forall i | 0 <= i < |line|
      ensures !BreaksAt(line, i)
    {
      if i > 0 {
        assert BreaksAt(line, i) ==> BreaksAt(first, i - 1);
      } else {
        assert |line| > 1 ==> line[1] == s[1];
      }
    }
  }

  /** Lines without breaks, joined, are split back. */
  lemma {:induction false} JoinedLinesSplit(lines: seq<string>)
    requires lines != [] && forall i | 0 <= i < |lines| :: OneLineText(lines[i])
    ensures SplitLines(JoinLines(lines)) == lines
    decreases |lines|, |lines[0]|
  {
    var s, first := JoinLines(lines), lines[0];
    if first == "" {
      if |lines| > 1 {
        JoinedLinesSplit(lines[1..]);
        assert s[2..] == JoinLines(lines[1..]);
        assert BreaksAt(s, 0);
      }
    } else {
      var shorter := [first[1..]] + lines[1..];
      assert shorter[1..] == lines[1..];
      assert OneLineText(first[1..]) by {
        forall i | 0 <= i < |first[1..]| ensures !BreaksAt(first[1..], i) { assert !BreaksAt(first, i + 1); }
      }
      FirstCharacter(first[0], shorter);
      assert [first[0]] + first[1..] == first && [[first[0]] + shorter[0]] + shorter[1..] == lines;
      JoinedLinesSplit(shorter);
      assert s == [first[0]] + JoinLines(shorter) && s[1..] == JoinLines(shorter);
      if |s| >= 2 {
        assert !BreaksAt(s, 0) by { assert !BreaksAt(first, 0); FirstPair(lines); }
      }
    }
  }

  lemma FirstPair(lines: seq<string>)
    requires lines != [] && lines[0] != ""
    ensures var s := JoinLines(lines);
      |s| >= 2 ==> s[1] == if |lines[0]| > 1 then lines[0][1] else '\r'
  {
  }

  // ----- characters ----------------------------------------------------------------------------------------

  predicate CapitalOf(upper: char, lower: char) {
    'A' <= upper <= 'Z' && lower as int == upper as int + 32
  }

  /** Names are the same when every letter is, up to ASCII case. */
  lemma SameIgnoringCaseExactly(left: string, right: string)
    ensures SameIgnoringCase(left, right) <==>
      && |left| == |right|
      && forall i | 0 <= i < |left| ::
           left[i] == right[i] || CapitalOf(left[i], right[i]) || CapitalOf(right[i], left[i])
  {
    forall i | 0 <= i < |left| && i < |right|
      ensures Lower(left[i]) == Lower(right[i]) <==>
        left[i] == right[i] || CapitalOf(left[i], right[i]) || CapitalOf(right[i], left[i])
    {
      LowerExactly(left[i], right[i]);
    }
  }

  lemma LowerExactly(a: char, b: char)
    ensures Lower(a) == Lower(b) <==> a == b || CapitalOf(a, b) || CapitalOf(b, a)
  {
    assert Lower(a) as int == (if 'A' <= a <= 'Z' then a as int + 32 else a as int);
    assert Lower(b) as int == (if 'A' <= b <= 'Z' then b as int + 32 else b as int);
  }

  /** Tab, line feed, form feed, carriage return and space separate words; everything below space and DEL is control. */
  lemma CharacterClasses(c: char)
    ensures AsciiSpace(c) <==> c as int in [9, 10, 12, 13, 32]
    ensures ControlChar(c) <==> c as int <= 31 || c as int == 127
  {
  }

  /** A field line is a name without white space, a colon, and a value. */
  lemma FieldLineExactly(line: string)
    ensures WellFormedLine(line) <==>
      exists name: string, value: string :: line == name + ":" + value && name != "" && FieldName(name)
  {
    var i := IndexOf(line, ':');
    if WellFormedLine(line) {
      var name, value := line[..i], line[i + 1..];
      forall k | 0 <= k < |name| ensures name[k] != ':' && name[k] as int !in [9, 10, 12, 13, 32] {
        CharacterClasses(name[k]);
      }
      assert line == name + ":" + value && name != "" && FieldName(name);
    }
    if name: string, value: string :| line == name + ":" + value && name != "" && FieldName(name) {
      assert line[|name|] == ':' && forall k | 0 <= k < |name| :: line[k] == name[k] != ':';
      assert i == |name| && line[..i] == name;
      forall k | 0 <= k < |name| ensures !AsciiSpace(name[k]) { CharacterClasses(name[k]); }
    }
  }

  predicate FieldName(name: string) {
    forall k | 0 <= k < |name| :: name[k] != ':' && name[k] as int !in [9, 10, 12, 13, 32]
  }

  /** The credential is named in any case, and what follows the colon is its trimmed value. */
  lemma AuthorizationExactly(name: string, value: string)
    requires FieldName(name) && name != ""
    ensures WellFormedLine(name + ":" + value) && FieldValue(name + ":" + value) == Trim(value)
    ensures IsAuthorization(name + ":" + value) <==> SameIgnoringCase(name, "Proxy-Authorization")
  {
    hide Trim;
    var line := name + ":" + value;
    FieldLineExactly(line);
    assert line[|name|] == ':' && forall k | 0 <= k < |name| :: line[k] == name[k] != ':';
    assert IndexOf(line, ':') == |name| && line[..|name|] == name && line[|name| + 1..] == value;
    assert WellFormedLine(line);
  }
}
