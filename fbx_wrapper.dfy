/** The bone-id name codec: a numeric PSO2 bone id carried through an FBX bone
    name. The current form is `(id)name` (the Aqua library's format); the form
    `name(id)`, written by older versions of the add-on, is still decoded.

    Both regular expressions end in `(.+(?:#.+(?:#.+)?)?)`, whose optional
    `#…` groups add nothing to what `.+` already matches: the name group is any
    non-empty string. On names without line breaks (`NoNewline`) `.` matches
    every character and `$` is the end of the string, so each pattern becomes
    an explicit matcher below, next to a declarative statement of the strings
    it accepts. */
module FbxWrapper {
  import opened Wrappers
  import opened Text

  /** The strings `BONE_PATTERN` accepts, with its two groups. */
  predicate PrefixForm(s: string, digits: string, name: string) {
    && s == "(" + digits + ")" + name
    && digits != [] && AllDigits(digits)
    && name != []
  }

  /** The strings `BONE_PATTERN_2` accepts, with its two groups. */
  predicate SuffixForm(s: string, name: string, digits: string) {
    && s == name + "(" + digits + ")"
    && digits != [] && AllDigits(digits)
    && name != []
  }

  /** `BONE_PATTERN.match(s)`: `^\((\d+)\)(.+…)$`, giving (group 1, group 2). */
  function MatchBonePattern(s: string): (m: Option<(string, string)>)
    requires NoNewline(s)
    ensures m.Some? ==> PrefixForm(s, m.value.0, m.value.1)
  {
    if |s| == 0 || s[0] != '(' then None
    else
      var n := DigitRun(s, 1);
      if 0 < n && n + 2 < |s| && s[n + 1] == ')' then
        CutAfterFirst(s, n + 1);
        Some((s[1..n + 1], s[n + 2..]))
      else None
  }

  /** `BONE_PATTERN_2.match(s)`: `^(.+…)\((\d+)\)$`, giving (group 1, group 2). */
  function MatchBonePattern2(s: string): (m: Option<(string, string)>)
    requires NoNewline(s)
    ensures m.Some? ==> SuffixForm(s, m.value.0, m.value.1)
  {
    if |s| == 0 || s[|s| - 1] != ')' then None
    else
      var n := DigitRunBefore(s, |s| - 1);
      if 0 < n && n + 2 < |s| && s[|s| - n - 2] == '(' then
        CutBeforeLast(s, |s| - n - 2);
        Some((s[..|s| - n - 2], s[|s| - n - 1..|s| - 1]))
      else None
  }

  /** Every string of the prefix form is matched, with exactly its groups. */
  lemma MatchBonePatternComplete(s: string, digits: string, name: string)
    requires NoNewline(s) && PrefixForm(s, digits, name)
    ensures MatchBonePattern(s) == Some((digits, name))
  {
    var n := |digits|;
    assert forall i :: 1 <= i < 1 + n ==> s[i] == digits[i - 1];
    assert s[1 + n] == ')';
    DigitRunIs(s, 1, n);
    assert s[1..n + 1] == digits;
    assert s[n + 2..] == name;
  }

  /** Every string of the suffix form is matched, with exactly its groups. */
  lemma MatchBonePattern2Complete(s: string, name: string, digits: string)
    requires NoNewline(s) && SuffixForm(s, name, digits)
    ensures MatchBonePattern2(s) == Some((name, digits))
  {
    var n := |digits|;
    var k := |name|;
    assert forall i :: k + 1 <= i < k + 1 + n ==> s[i] == digits[i - k - 1];
    assert s[k] == '(';
    DigitRunBeforeIs(s, |s| - 1, n);
    assert s[..|s| - n - 2] == name;
    assert s[|s| - n - 1..|s| - 1] == digits;
  }

  /** `split_bone_name`: the prefix pattern first, then the legacy suffix
      pattern; the digit group is read with `int()`. */
  function SplitBoneName(s: string): (r: Option<(string, nat)>)
    requires NoNewline(s)
  {
    match MatchBonePattern(s)
    case Some((digits, name)) => Some((name, Parse(digits)))
    case None =>
      match MatchBonePattern2(s)
      case Some((name, digits)) => Some((name, Parse(digits)))
      case None => None
  }

  /** `join_bone_name`: the f-string `({bone_id}){name}`. */
  function JoinBoneName(name: string, boneId: int): string {
    "(" + ShowInt(boneId) + ")" + name
  }

  /** A name matches `BONE_PATTERN` iff it has the prefix form. */
  lemma BonePatternMatchesIff(s: string)
    requires NoNewline(s)
    ensures MatchBonePattern(s).Some? <==> exists d, n :: PrefixForm(s, d, n)
  {
    if d, n :| PrefixForm(s, d, n) {
      MatchBonePatternComplete(s, d, n);
    }
  }

  /** A name matches `BONE_PATTERN_2` iff it has the suffix form. */
  lemma BonePattern2MatchesIff(s: string)
    requires NoNewline(s)
    ensures MatchBonePattern2(s).Some? <==> exists n, d :: SuffixForm(s, n, d)
  {
    if n, d :| SuffixForm(s, n, d) {
      MatchBonePattern2Complete(s, n, d);
    }
  }

  /** The prefix reading has priority: when `s` has the prefix form, it
      decides the result, whatever the suffix pattern would say. */
  lemma SplitPrefersPrefix(s: string, digits: string, name: string)
    requires NoNewline(s) && PrefixForm(s, digits, name)
    ensures SplitBoneName(s) == Some((name, Parse(digits)))
  {
    MatchBonePatternComplete(s, digits, name);
  }

  /** The legacy form is decoded when the prefix form does not apply. */
  lemma SplitFallsBackToSuffix(s: string, name: string, digits: string)
    requires NoNewline(s) && SuffixForm(s, name, digits)
    requires forall d, n :: !PrefixForm(s, d, n)
    ensures SplitBoneName(s) == Some((name, Parse(digits)))
  {
    MatchBonePattern2Complete(s, name, digits);
  }

  /** A name of neither form carries no bone id. */
  lemma SplitNoneIff(s: string)
    requires NoNewline(s)
    ensures SplitBoneName(s).None? <==>
              (forall d, n :: !PrefixForm(s, d, n)) && (forall n, d :: !SuffixForm(s, n, d))
  {
    BonePatternMatchesIff(s);
    BonePattern2MatchesIff(s);
  }

  /** A joined name has the prefix form, with the decimal id and the name. */
  lemma JoinHasPrefixForm(name: string, boneId: nat)
    requires name != []
    ensures PrefixForm(JoinBoneName(name, boneId), Show(boneId), name)
  {
  }

  /** Round trip: `split_bone_name(join_bone_name(name, id)) == (name, id)`. */
  lemma SplitJoin(name: string, boneId: nat)
    requires name != [] && NoNewline(name)
    ensures NoNewline(JoinBoneName(name, boneId))
    ensures SplitBoneName(JoinBoneName(name, boneId)) == Some((name, boneId))
  {
    var s := JoinBoneName(name, boneId);
    assert forall i :: 0 <= i < |s| ==> s[i] != '\n' by {
      forall i | 0 <= i < |s|
        ensures s[i] != '\n'
      {
        if 1 <= i < 1 + |Show(boneId)| {
          assert s[i] == Show(boneId)[i - 1];
        } else if i > 1 + |Show(boneId)| {
          assert s[i] == name[i - 2 - |Show(boneId)|];
        }
      }
    }
    SplitPrefersPrefix(s, Show(boneId), name);
    ParseShow(boneId);
  }

  /** Decoding the re-encoding of a decoded name gives the same pair back:
      `join_bone_name` always produces the canonical form of a split. */
  lemma SplitJoinSplit(s: string)
    requires NoNewline(s) && SplitBoneName(s).Some?
    ensures SplitBoneName(JoinBoneName(SplitBoneName(s).value.0, SplitBoneName(s).value.1))
            == SplitBoneName(s)
  {
    var (name, boneId) := SplitBoneName(s).value;
    assert name != [];
    assert NoNewline(name) by {
      if MatchBonePattern(s).Some? {
        var d := MatchBonePattern(s).value.0;
        assert forall i :: 0 <= i < |name| ==> name[i] == s[i + 2 + |d|];
      } else {
        assert forall i :: 0 <= i < |name| ==> name[i] == s[i];
      }
    }
    SplitJoin(name, boneId);
  }

  /** `"(1)a(2)"` matches both patterns; the prefix reading wins. */
  lemma ExampleBothForms()
    ensures SuffixForm("(1)a(2)", "(1)a", "2")
    ensures SplitBoneName("(1)a(2)") == Some(("a(2)", 1))
  {
    assert PrefixForm("(1)a(2)", "1", "a(2)");
    assert Parse("1") == 1;
    SplitPrefersPrefix("(1)a(2)", "1", "a(2)");
  }

  /** The legacy form with `#` segments keeps them in the name. */
  lemma ExampleLegacyForm()
    ensures SplitBoneName("Arm#s1#s2(12)") == Some(("Arm#s1#s2", 12))
  {
    assert MatchBonePattern("Arm#s1#s2(12)").None?;
    assert SuffixForm("Arm#s1#s2(12)", "Arm#s1#s2", "12");
    assert "12"[..1] == "1" && "1"[..0] == "";
    assert Parse("12") == 12;
    MatchBonePattern2Complete("Arm#s1#s2(12)", "Arm#s1#s2", "12");
  }

  /** The canonical form with `#` segments keeps them in the name. */
  lemma ExampleCanonicalForm()
    ensures SplitBoneName("(12)Arm#short1#short2") == Some(("Arm#short1#short2", 12))
  {
    assert PrefixForm("(12)Arm#short1#short2", "12", "Arm#short1#short2");
    assert Parse("12") == 12;
    SplitPrefersPrefix("(12)Arm#short1#short2", "12", "Arm#short1#short2");
  }

  /** Both patterns need at least one name character. */
  lemma ExampleNoName()
    ensures SplitBoneName("(5)") == None
    ensures SplitBoneName("Arm") == None
  {
  }

  /** The id is read as an integer, so split-then-join normalises it. */
  lemma ExampleLeadingZeros()
    ensures SplitBoneName("(007)a") == Some(("a", 7))
    ensures JoinBoneName("a", 7) == "(7)a"
  {
    assert PrefixForm("(007)a", "007", "a");
    assert "007"[..2] == "00" && "00"[..1] == "0" && "0"[..0] == "";
    assert Parse("007") == 7;
    SplitPrefersPrefix("(007)a", "007", "a");
  }
}
