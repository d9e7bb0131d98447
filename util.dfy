/** Blender's de-duplication suffix: when a name is taken, Blender appends
    `.001`, `.002`, …; `remove_blender_suffix` strips one such group. */
module Util {
  import opened Text

  /** `BLENDER_SUFFIX_RE` (`\.\d+$`) matches at index `i`: a `.` followed by
      one or more digits that run to the end of the name. */
  predicate BlenderSuffixAt(s: string, i: nat) {
    && i + 1 < |s|
    && s[i] == '.'
    && forall k :: i < k < |s| ==> IsDigit(s[k])
  }

  /** `remove_blender_suffix`: `BLENDER_SUFFIX_RE.sub("", name)`. */
  function RemoveBlenderSuffix(name: string): (r: string)
    requires NoNewline(name)
    ensures r <= name && NoNewline(r)
  {
    var n := DigitRunBefore(name, |name|);
    if 0 < n < |name| && name[|name| - n - 1] == '.' then name[..|name| - n - 1] else name
  }

  /** The pattern can match at one index at most: the `.` right before the
      final run of digits. */
  lemma BlenderSuffixAtDigitRun(s: string, i: nat)
    requires BlenderSuffixAt(s, i)
    ensures DigitRunBefore(s, |s|) == |s| - i - 1
  {
    DigitRunBeforeIs(s, |s|, |s| - i - 1);
  }

  /** A name ending in `.` and digits loses exactly that final group; any
      other name is returned unchanged. */
  lemma RemoveBlenderSuffixSpec(s: string)
    requires NoNewline(s)
    ensures forall i: nat :: BlenderSuffixAt(s, i) ==> RemoveBlenderSuffix(s) == s[..i]
    ensures (forall i: nat :: !BlenderSuffixAt(s, i)) ==> RemoveBlenderSuffix(s) == s
  {
    forall i: nat | BlenderSuffixAt(s, i)
      ensures RemoveBlenderSuffix(s) == s[..i]
    {
      BlenderSuffixAtDigitRun(s, i);
    }
    var n := DigitRunBefore(s, |s|);
    if 0 < n < |s| && s[|s| - n - 1] == '.' {
      assert BlenderSuffixAt(s, |s| - n - 1);
    }
  }

  /** One appended `.digits` group is removed again, whatever `name` ends in. */
  lemma RemoveAppendedSuffix(name: string, digits: string)
    requires NoNewline(name) && digits != [] && AllDigits(digits)
    ensures NoNewline(name + "." + digits)
    ensures RemoveBlenderSuffix(name + "." + digits) == name
  {
    var s := name + "." + digits;
    assert forall k :: |name| < k < |s| ==> s[k] == digits[k - |name| - 1];
    assert BlenderSuffixAt(s, |name|);
    RemoveBlenderSuffixSpec(s);
    assert s[..|name|] == name;
  }

  /** Only the last group goes, and a bare suffix leaves the empty name. */
  lemma ExampleSuffixes()
    ensures RemoveBlenderSuffix("a.1.2") == "a.1"
    ensures RemoveBlenderSuffix(".001") == ""
    ensures RemoveBlenderSuffix("Bone") == "Bone"
  {
    RemoveAppendedSuffix("a.1", "2");
    assert "a.1" + "." + "2" == "a.1.2";
    RemoveAppendedSuffix("", "001");
    assert "" + "." + "001" == ".001";
  }
}
