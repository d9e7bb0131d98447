/** Mesh-part ids carried in object names. Imported PSO2 meshes are named
    `mesh[N]_…#…#ID`, optionally followed by Blender's `.NNN` suffix; the
    trailing `ID` says which part of a costume the mesh is. The object's
    "Mesh Part" property reads that id from the name and writes it back. */
module Parts {
  import opened Wrappers
  import opened Text
  import Util

  /** `MeshId` (an `IntEnum`). */
  datatype MeshId =
    | Costume | BreastNeck | Front | Ornament1 | Back | Shoulder | Forearm
    | Legs | Ornament2 | HeadOrnament | CastBodyOrnament | CastLegsOrnament
    | CastArmsOrnament | OuterOrnament

  /** `int(mesh_id)`: the enum's integer values. */
  function MeshIdValue(m: MeshId): (v: nat)
    ensures v < 14
  {
    match m
    case Costume => 0
    case BreastNeck => 1
    case Front => 2
    case Ornament1 => 3
    case Back => 4
    case Shoulder => 5
    case Forearm => 6
    case Legs => 7
    case Ornament2 => 8
    case HeadOrnament => 9
    case CastBodyOrnament => 10
    case CastLegsOrnament => 11
    case CastArmsOrnament => 12
    case OuterOrnament => 13
  }

  /** `MeshId(n)`; `None` where Python raises `ValueError`. */
  function MeshIdOf(n: int): (r: Option<MeshId>)
    ensures r.Some? <==> 0 <= n < 14
    ensures r.Some? ==> MeshIdValue(r.value) == n
  {
    if n == 0 then Some(Costume)
    else if n == 1 then Some(BreastNeck)
    else if n == 2 then Some(Front)
    else if n == 3 then Some(Ornament1)
    else if n == 4 then Some(Back)
    else if n == 5 then Some(Shoulder)
    else if n == 6 then Some(Forearm)
    else if n == 7 then Some(Legs)
    else if n == 8 then Some(Ornament2)
    else if n == 9 then Some(HeadOrnament)
    else if n == 10 then Some(CastBodyOrnament)
    else if n == 11 then Some(CastLegsOrnament)
    else if n == 12 then Some(CastArmsOrnament)
    else if n == 13 then Some(OuterOrnament)
    else None
  }

  /** `MeshId(int(m)) == m`: the values are distinct, so the enum and its
      integers are in one-to-one correspondence. */
  lemma MeshIdOfValue(m: MeshId)
    ensures MeshIdOf(MeshIdValue(m)) == Some(m)
  {
    match m
    case Costume =>
    case BreastNeck =>
    case Front =>
    case Ornament1 =>
    case Back =>
    case Shoulder =>
    case Forearm =>
    case Legs =>
    case Ornament2 =>
    case HeadOrnament =>
    case CastBodyOrnament =>
    case CastLegsOrnament =>
    case CastArmsOrnament =>
    case OuterOrnament =>
  }

  /** `MESH_ID_NAMES`: the display name of each part. */
  const MeshIdNames: map<MeshId, string> := map[
    Costume := "None",
    BreastNeck := "Breast & Neck",
    Front := "Front",
    Ornament1 := "Basewear Ornament 1",
    Back := "Back",
    Shoulder := "Shoulder",
    Forearm := "Arms",
    Legs := "Legs",
    Ornament2 := "Basewear Ornament 2",
    HeadOrnament := "Head Ornament",
    CastBodyOrnament := "Cast Body Ornament",
    CastLegsOrnament := "Cast Legs Ornament",
    CastArmsOrnament := "Cast Arms Ornament",
    OuterOrnament := "Outerwear Ornament"
  ]

  /** Every `MeshId` has a display name. */
  lemma MeshIdNamesTotal(m: MeshId)
    ensures m in MeshIdNames && MeshIdNames[m] != []
  {
  }

  // ---------------------------------------------------------------------
  // get_mesh_id

  /** `mesh\[\d+\]_` matches at index `p`, wholly inside `s`. */
  predicate HeadAt(s: string, p: nat) {
    && p + 5 <= |s|
    && s[p..p + 5] == "mesh["
    && var n := DigitRun(s, p + 5);
       0 < n && p + n + 7 <= |s| && s[p + 5 + n] == ']' && s[p + 6 + n] == '_'
  }

  predicate ContainsHead(s: string) {
    exists p: nat | p <= |s| :: HeadAt(s, p)
  }

  /** The strings `MESH_ID_RE` (`mesh\[\d+\]_.*#.*#(\d+)$`) finds a match in,
      with the text before the match and the regex's pieces; `z` is group 1. */
  predicate MeshIdForm(s: string, a: string, d: string, x: string, y: string, z: string) {
    && s == a + "mesh[" + d + "]_" + x + "#" + y + "#" + z
    && d != [] && AllDigits(d)
    && z != [] && AllDigits(z)
  }

  /** `MESH_ID_RE.search(s)`, giving group 1. Since the digits of group 1 run
      to the end, they are everything after the last `#`; the match needs one
      more `#` before that, and `mesh[N]_` before the second-to-last `#`. */
  function SearchMeshId(s: string): (r: Option<string>)
    requires NoNewline(s)
    ensures r.Some? ==> r.value != [] && AllDigits(r.value)
  {
    match LastIndexOf(s, '#')
    case None => None
    case Some(k) =>
      var z := s[k + 1..];
      if z == [] || !AllDigits(z) then None
      else
        match LastIndexOf(s[..k], '#')
        case None => None
        case Some(j) => if ContainsHead(s[..j]) then Some(z) else None
  }

  lemma HashFreeTail(a: string, w: string)
    requires forall i :: 0 <= i < |w| ==> w[i] != '#'
    ensures (a + "#" + w)[|a|] == '#'
    ensures forall i :: |a| < i < |a + "#" + w| ==> (a + "#" + w)[i] != '#'
  {
  }

  /** A `#` followed only by characters other than `#` is the last one. */
  lemma LastHashBefore(a: string, w: string)
    requires forall i :: 0 <= i < |w| ==> w[i] != '#'
    ensures LastIndexOf(a + "#" + w, '#') == Some(|a|)
    ensures (a + "#" + w)[..|a|] == a
  {
    HashFreeTail(a, w);
    LastIndexOfIs(a + "#" + w, '#', |a|);
  }

  /** `mesh[d]_` is found at the end of `a` in any string that starts with
      `a + "mesh[" + d + "]_" + x`. */
  lemma HeadOfForm(h: string, a: string, d: string, x: string)
    requires d != [] && AllDigits(d)
    requires |a + "mesh[" + d + "]_" + x| <= |h|
    requires h[..|a + "mesh[" + d + "]_" + x|] == a + "mesh[" + d + "]_" + x
    ensures HeadAt(h, |a|)
  {
    var v := a + "mesh[" + d + "]_" + x;
    var p := |a|;
    assert forall i :: 0 <= i < |v| ==> h[i] == v[i];
    assert v[p..p + 5] == "mesh[";
    assert h[p..p + 5] == "mesh[";
    assert forall i :: p + 5 <= i < p + 5 + |d| ==> h[i] == d[i - p - 5];
    assert h[p + 5 + |d|] == ']' && h[p + 6 + |d|] == '_';
    DigitRunIs(h, p + 5, |d|);
  }

  /** The search finds every string of the regex's form, with its group 1. */
  lemma SearchMeshIdComplete(s: string, a: string, d: string, x: string, y: string, z: string)
    requires NoNewline(s) && MeshIdForm(s, a, d, x, y, z)
    ensures SearchMeshId(s) == Some(z)
  {
    var v := a + "mesh[" + d + "]_" + x;
    var u := v + "#" + y;
    LastHashBefore(u, z);
    var k := |u|;
    assert s[k + 1..] == z;
    assert u[|v|] == '#';
    var j := LastIndexOf(u, '#').value;
    assert |v| <= j;
    var h := u[..j];
    assert h[..|v|] == v;
    HeadOfForm(h, a, d, x);
    assert ContainsHead(h);
    assert s[..k] == u;
    assert s[..j] == h;
  }

  /** A prefix whose next slice is known grows by that slice. */
  lemma Extend(s: string, i: nat, j: nat, t: string, w: string)
    requires i <= j <= |s| && s[..i] == t && s[i..j] == w
    ensures s[..j] == t + w
  {
    PrefixExtend(s, i, j);
  }

  /** A prefix grows by the character that follows it. */
  lemma ExtendChar(s: string, i: nat, t: string, c: char)
    requires i < |s| && s[..i] == t && s[i] == c
    ensures s[..i + 1] == t + [c]
  {
    Extend(s, i, i + 1, t, [c]);
  }

  /** Cutting a string at the pieces of a `MESH_ID_RE` match. */
  lemma CutAtMatch(s: string, p: nat, n: nat, j: nat, k: nat)
    requires p + 7 + n <= j < k < |s|
    requires s[p..p + 5] == "mesh[" && s[p + 5 + n..p + 7 + n] == "]_"
    requires s[j] == '#' && s[k] == '#'
    ensures s == s[..p] + "mesh[" + s[p + 5..p + 5 + n] + "]_" + s[p + 7 + n..j]
                 + "#" + s[j + 1..k] + "#" + s[k + 1..]
  {
    var a, d, x, y, z := s[..p], s[p + 5..p + 5 + n], s[p + 7 + n..j], s[j + 1..k], s[k + 1..];
    Extend(s, p, p + 5, a, "mesh[");
    Extend(s, p + 5, p + 5 + n, a + "mesh[", d);
    Extend(s, p + 5 + n, p + 7 + n, a + "mesh[" + d, "]_");
    Extend(s, p + 7 + n, j, a + "mesh[" + d + "]_", x);
    ExtendChar(s, j, a + "mesh[" + d + "]_" + x, '#');
    Extend(s, j + 1, k, a + "mesh[" + d + "]_" + x + "#", y);
    ExtendChar(s, k, a + "mesh[" + d + "]_" + x + "#" + y, '#');
    Extend(s, k + 1, |s|, a + "mesh[" + d + "]_" + x + "#" + y + "#", z);
    assert s[..|s|] == s;
  }

  /** A head found in a prefix of `s` is there in `s` too. */
  lemma HeadInPrefix(s: string, j: nat, p: nat) returns (n: nat)
    requires j <= |s| && p <= j && HeadAt(s[..j], p)
    ensures 0 < n && p + 7 + n <= j
    ensures s[p..p + 5] == "mesh[" && s[p + 5 + n..p + 7 + n] == "]_"
    ensures AllDigits(s[p + 5..p + 5 + n])
  {
    var h := s[..j];
    n := DigitRun(h, p + 5);
    SliceOfPrefix(s, j, p, p + 5);
    SliceOfPrefix(s, j, p + 5 + n, p + 7 + n);
    SliceOfPrefix(s, j, p + 5, p + 5 + n);
    DigitRunSlice(h, p + 5);
  }

  /** Whatever the search finds is group 1 of a match of the regex's form. */
  lemma SearchMeshIdSound(s: string) returns (a: string, d: string, x: string, y: string)
    requires NoNewline(s) && SearchMeshId(s).Some?
    ensures MeshIdForm(s, a, d, x, y, SearchMeshId(s).value)
  {
    var k := LastIndexOf(s, '#').value;
    var j := LastIndexOf(s[..k], '#').value;
    var h := s[..j];
    assert ContainsHead(h);
    var p: nat :| p <= |h| && HeadAt(h, p);
    var n := HeadInPrefix(s, j, p);
    CutAtMatch(s, p, n, j, k);
    a, d, x, y := s[..p], s[p + 5..p + 5 + n], s[p + 7 + n..j], s[j + 1..k];
  }

  /** Why `get_mesh_id` did not raise: `MeshId(int(group 1))` failed. */
  datatype Error = ValueError(value: nat)

  /** `get_mesh_id`: strip one Blender suffix, search `MESH_ID_RE`, convert
      group 1 to a `MeshId`. No match gives `None`; an integer outside
      0..13 raises `ValueError`. */
  function GetMeshId(name: string): Result<Option<MeshId>, Error>
    requires NoNewline(name)
  {
    match SearchMeshId(Util.RemoveBlenderSuffix(name))
    case None => Success(None)
    case Some(z) =>
      match MeshIdOf(Parse(z))
      case Some(m) => Success(Some(m))
      case None => Failure(ValueError(Parse(z)))
  }

  /** When the un-suffixed name has the regex's form, the result is the
      integer after the last `#`, or a `ValueError` outside 0..13. */
  lemma GetMeshIdFound(name: string, a: string, d: string, x: string, y: string, z: string)
    requires NoNewline(name)
    requires MeshIdForm(Util.RemoveBlenderSuffix(name), a, d, x, y, z)
    ensures Parse(z) < 14 ==> GetMeshId(name).Success? && GetMeshId(name).value.Some?
                              && MeshIdValue(GetMeshId(name).value.value) == Parse(z)
    ensures Parse(z) >= 14 ==> GetMeshId(name) == Failure(ValueError(Parse(z)))
  {
    SearchMeshIdComplete(Util.RemoveBlenderSuffix(name), a, d, x, y, z);
  }

  /** Otherwise there is no mesh id. */
  lemma GetMeshIdNone(name: string)
    requires NoNewline(name)
    requires forall a, d, x, y, z :: !MeshIdForm(Util.RemoveBlenderSuffix(name), a, d, x, y, z)
    ensures GetMeshId(name) == Success(None)
  {
    var t := Util.RemoveBlenderSuffix(name);
    if SearchMeshId(t).Some? {
      var a, d, x, y := SearchMeshIdSound(t);
      assert MeshIdForm(t, a, d, x, y, SearchMeshId(t).value);
    }
  }

  /** Appending a Blender suffix to a name that has none does not change
      its id. */
  lemma GetMeshIdIgnoresSuffix(name: string, digits: string)
    requires NoNewline(name) && digits != [] && AllDigits(digits)
    requires forall i: nat :: !Util.BlenderSuffixAt(name, i)
    ensures NoNewline(name + "." + digits)
    ensures GetMeshId(name + "." + digits) == GetMeshId(name)
  {
    Util.RemoveAppendedSuffix(name, digits);
    Util.RemoveBlenderSuffixSpec(name);
  }

  /** The id after the last `#` of a name without suffix. */
  lemma ExampleSearch()
    ensures SearchMeshId("mesh[0]_a#b#3") == Some("3")
  {
    SearchMeshIdComplete("mesh[0]_a#b#3", "", "0", "a", "b", "3");
    assert "" + "mesh[" + "0" + "]_" + "a" + "#" + "b" + "#" + "3" == "mesh[0]_a#b#3";
  }

  /** `get_mesh_id` assembled from its three steps. */
  lemma GetMeshIdSteps(name: string, t: string, z: string, m: MeshId)
    requires NoNewline(name) && Util.RemoveBlenderSuffix(name) == t
    requires SearchMeshId(t) == Some(z) && MeshIdOf(Parse(z)) == Some(m)
    ensures GetMeshId(name) == Success(Some(m))
  {
  }

  /** Group 1 `3` is `MeshId.Ornament1`. */
  lemma ExampleIdDigit()
    ensures MeshIdOf(Parse("3")) == Some(Ornament1)
  {
    ParseDigit('3');
  }

  /** One Blender suffix is stripped before the search. */
  lemma ExampleOneSuffix()
    ensures GetMeshId("mesh[0]_a#b#3.001") == Success(Some(Ornament1))
  {
    Util.RemoveAppendedSuffix("mesh[0]_a#b#3", "001");
    assert "mesh[0]_a#b#3" + "." + "001" == "mesh[0]_a#b#3.001";
    ExampleSearch();
    ExampleIdDigit();
    GetMeshIdSteps("mesh[0]_a#b#3.001", "mesh[0]_a#b#3", "3", Ornament1);
  }

  /** A name whose text after the last `#` is not all digits has no match. */
  lemma SearchMeshIdNotDigits(a: string, w: string)
    requires NoNewline(a + "#" + w)
    requires forall i :: 0 <= i < |w| ==> w[i] != '#'
    requires !AllDigits(w)
    ensures SearchMeshId(a + "#" + w) == None
  {
    LastHashBefore(a, w);
    assert (a + "#" + w)[|a| + 1..] == w;
  }

  /** `get_mesh_id` when the search finds nothing. */
  lemma GetMeshIdNoMatch(name: string, t: string)
    requires NoNewline(name) && Util.RemoveBlenderSuffix(name) == t
    requires SearchMeshId(t) == None
    ensures GetMeshId(name) == Success(None)
  {
  }

  /** Only one suffix is stripped: a second one hides the id. */
  lemma ExampleTwoSuffixes()
    ensures GetMeshId("mesh[0]_a#b#3.001.002") == Success(None)
  {
    Util.RemoveAppendedSuffix("mesh[0]_a#b#3.001", "002");
    assert "mesh[0]_a#b#3.001" + "." + "002" == "mesh[0]_a#b#3.001.002";
    assert "mesh[0]_a#b" + "#" + "3.001" == "mesh[0]_a#b#3.001";
    assert !IsDigit("3.001"[1]);
    SearchMeshIdNotDigits("mesh[0]_a#b", "3.001");
    GetMeshIdNoMatch("mesh[0]_a#b#3.001.002", "mesh[0]_a#b#3.001");
  }

  // ---------------------------------------------------------------------
  // set_mesh_id

  /** What may follow the id digits for `MESH_ID_SUB_RE` to match:
      nothing, or a `.digits` suffix. */
  predicate IdSuffix(sfx: string) {
    sfx == [] || (|sfx| > 1 && sfx[0] == '.' && AllDigits(sfx[1..]))
  }

  /** The strings `MESH_ID_SUB_RE` (`(?<=#)\d+(?=(?:\.\d+)?$)`) matches in,
      split around the matched digits `d`. */
  predicate SubForm(s: string, p: string, d: string, sfx: string) {
    && s == p + "#" + d + sfx
    && d != [] && AllDigits(d)
    && IdSuffix(sfx)
  }

  /** The digits after a `#`, and what follows them, cut `s` in the form
      `MESH_ID_SUB_RE` needs, when they are present. */
  lemma SubFormAtHash(s: string, k: nat)
    requires k < |s| && s[k] == '#'
    requires 0 < DigitRun(s, k + 1) && IdSuffix(s[k + 1 + DigitRun(s, k + 1)..])
    ensures SubForm(s, s[..k], s[k + 1..k + 1 + DigitRun(s, k + 1)], s[k + 1 + DigitRun(s, k + 1)..])
  {
    CutAround(s, k, k + 1 + DigitRun(s, k + 1));
    DigitRunSlice(s, k + 1);
  }

  /** `MESH_ID_SUB_RE.search(s)`: the start and length of the matched digits.
      The digits are preceded by a `#` and followed by no `#`, so that `#`
      is the last one; only one match is possible. */
  function MatchMeshIdDigits(s: string): (r: Option<(nat, nat)>)
    requires NoNewline(s)
    ensures r.Some? ==> 0 < r.value.0 && r.value.0 + r.value.1 <= |s|
    ensures r.Some? ==> SubForm(s, s[..r.value.0 - 1], s[r.value.0..r.value.0 + r.value.1],
                                s[r.value.0 + r.value.1..])
  {
    match LastIndexOf(s, '#')
    case None => None
    case Some(k) =>
      var n := DigitRun(s, k + 1);
      var rest := s[k + 1 + n..];
      if 0 < n && IdSuffix(rest) then
        SubFormAtHash(s, k);
        Some((k + 1, n))
      else None
  }

  /** `MESH_ID_SUB_RE.sub(repl, s)`. */
  function SubMeshId(s: string, repl: string): string
    requires NoNewline(s)
  {
    match MatchMeshIdDigits(s)
    case None => s
    case Some((i, n)) => s[..i] + repl + s[i + n..]
  }

  /** The digits and what may follow them hold no `#`. */
  lemma NoHashAfter(d: string, sfx: string)
    requires AllDigits(d) && IdSuffix(sfx)
    ensures forall i :: 0 <= i < |d + sfx| ==> (d + sfx)[i] != '#'
  {
    var w := d + sfx;
    forall i | 0 <= i < |w|
      ensures w[i] != '#'
    {
      if i < |d| {
        assert w[i] == d[i];
      } else if i > |d| {
        assert w[i] == sfx[1..][i - |d| - 1];
      }
    }
  }

  /** The run of digits after the `#` is exactly `d`. */
  lemma DigitRunOfForm(p: string, d: string, sfx: string)
    requires d != [] && AllDigits(d) && IdSuffix(sfx)
    ensures DigitRun(p + "#" + d + sfx, |p| + 1) == |d|
  {
    var s := p + "#" + d + sfx;
    var k := |p|;
    assert s[k + 1..k + 1 + |d|] == d;
    assert forall i :: k + 1 <= i < k + 1 + |d| ==> IsDigit(s[i]) by {
      forall i | k + 1 <= i < k + 1 + |d|
        ensures IsDigit(s[i])
      {
        assert s[i] == d[i - k - 1];
      }
    }
    if sfx != [] {
      assert s[k + 1 + |d|] == '.';
    }
    DigitRunIs(s, k + 1, |d|);
  }

  /** Only the id digits are replaced; everything else, the suffix included,
      stays. */
  lemma SubMeshIdReplacesDigits(s: string, p: string, d: string, sfx: string, repl: string)
    requires NoNewline(s) && SubForm(s, p, d, sfx)
    ensures SubMeshId(s, repl) == p + "#" + repl + sfx
  {
    NoHashAfter(d, sfx);
    LastHashBefore(p, d + sfx);
    assert s == p + "#" + (d + sfx);
    DigitRunOfForm(p, d, sfx);
    var k := |p|;
    assert s[k + 1 + |d|..] == sfx;
    assert s[..k + 1] == p + "#";
  }

  /** Without such a digit run the name is unchanged. */
  lemma SubMeshIdUnchanged(s: string, repl: string)
    requires NoNewline(s)
    ensures (forall p, d, sfx :: !SubForm(s, p, d, sfx)) ==> SubMeshId(s, repl) == s
  {
    if MatchMeshIdDigits(s).Some? {
      var (i, n) := MatchMeshIdDigits(s).value;
      assert SubForm(s, s[..i - 1], s[i..i + n], s[i + n..]);
    }
  }

  /** `str(mesh_id)`: the decimal value (Python 3.11 `IntEnum`). */
  function MeshIdString(m: MeshId): (s: string)
    ensures s != [] && AllDigits(s) && NoNewline(s) && Parse(s) == MeshIdValue(m)
  {
    ParseShow(MeshIdValue(m));
    Show(MeshIdValue(m))
  }

  lemma NoNewlineConcat(a: string, b: string)
    requires NoNewline(a) && NoNewline(b)
    ensures NoNewline(a + b)
  {
    assert forall i :: |a| <= i < |a + b| ==> (a + b)[i] == b[i - |a|];
  }

  /** Replacing the group that `MESH_ID_RE` reads gives the same search
      result with the new digits. */
  lemma SearchMeshIdReplace(a: string, z: string, r: string)
    requires NoNewline(a + "#" + z) && SearchMeshId(a + "#" + z) == Some(z)
    requires NoNewline(a + "#" + r) && r != [] && AllDigits(r)
    ensures SearchMeshId(a + "#" + r) == Some(r)
  {
    var t, u := a + "#" + z, a + "#" + r;
    assert SearchMeshId(t).value == z;
    LastHashBefore(a, z);
    LastHashBefore(a, r);
    assert u[|a| + 1..] == r;
    assert t[|a| + 1..] == z;
    assert t[..|a|] == a && u[..|a|] == a;
    var j := LastIndexOf(a, '#').value;
    assert t[..j] == a[..j] == u[..j];
  }

  /** A name is its un-suffixed part followed by nothing or one `.digits`
      group. */
  lemma SuffixSplit(name: string) returns (sfx: string)
    requires NoNewline(name)
    ensures name == Util.RemoveBlenderSuffix(name) + sfx && IdSuffix(sfx)
  {
    var t := Util.RemoveBlenderSuffix(name);
    sfx := name[|t|..];
    var n := DigitRunBefore(name, |name|);
    if 0 < n < |name| && name[|name| - n - 1] == '.' {
      assert sfx[1..] == name[|name| - n..];
    }
    assert name == t + sfx;
  }

  /** A name the search accepts is its text up to the last `#`, the `#`, and
      group 1. */
  lemma SplitAtLastHash(t: string) returns (a: string)
    requires NoNewline(t) && SearchMeshId(t).Some?
    ensures t == a + "#" + SearchMeshId(t).value && NoNewline(a)
  {
    var k := LastIndexOf(t, '#').value;
    a := t[..k];
    assert t == a + "#" + t[k + 1..];
  }

  /** A name ending in `#` and digits has no Blender suffix. */
  lemma NoSuffixAfterId(a: string, r: string)
    requires r != [] && AllDigits(r)
    ensures forall i: nat :: !Util.BlenderSuffixAt(a + "#" + r, i)
  {
    var t := a + "#" + r;
    forall i: nat
      ensures !Util.BlenderSuffixAt(t, i)
    {
      if i < |a| {
        assert t[|a|] == '#';
      } else if |a| < i < |t| {
        assert t[i] == r[i - |a| - 1];
      }
    }
  }

  /** Stripping the suffix of the rewritten name leaves `a#r`. */
  lemma StripAfterId(a: string, r: string, sfx: string)
    requires NoNewline(a + "#" + r) && r != [] && AllDigits(r) && IdSuffix(sfx)
    ensures NoNewline(a + "#" + r + sfx)
    ensures Util.RemoveBlenderSuffix(a + "#" + r + sfx) == a + "#" + r
  {
    var t := a + "#" + r;
    if sfx == [] {
      NoSuffixAfterId(a, r);
      Util.RemoveBlenderSuffixSpec(t);
      assert t + sfx == t;
    } else {
      Util.RemoveAppendedSuffix(t, sfx[1..]);
      assert t + "." + sfx[1..] == t + sfx;
    }
  }

  /** Reading after writing: on a name that holds a mesh id (in range or
      not), `get_mesh_id` after `set_mesh_id(m)` gives `m`. */
  lemma GetAfterSet(name: string, m: MeshId)
    requires NoNewline(name) && SearchMeshId(Util.RemoveBlenderSuffix(name)).Some?
    ensures NoNewline(SubMeshId(name, MeshIdString(m)))
    ensures GetMeshId(SubMeshId(name, MeshIdString(m))) == Success(Some(m))
  {
    var t := Util.RemoveBlenderSuffix(name);
    var z := SearchMeshId(t).value;
    var sfx := SuffixSplit(name);
    var a := SplitAtLastHash(t);
    assert name == a + "#" + z + sfx;
    SubMeshIdReplacesDigits(name, a, z, sfx, MeshIdString(m));
    ReadRewritten(a, z, sfx, m);
  }

  /** The name `a#z` followed by a suffix, with `z` replaced by the digits
      of `m`, reads as `m`. */
  lemma ReadRewritten(a: string, z: string, sfx: string, m: MeshId)
    requires NoNewline(a) && NoNewline(a + "#" + z) && SearchMeshId(a + "#" + z) == Some(z)
    requires IdSuffix(sfx)
    ensures NoNewline(a + "#" + MeshIdString(m) + sfx)
    ensures GetMeshId(a + "#" + MeshIdString(m) + sfx) == Success(Some(m))
  {
    var r := MeshIdString(m);
    assert z != [] && AllDigits(z);
    NoNewlineConcat(a, "#");
    NoNewlineConcat(a + "#", r);
    StripAfterId(a, r, sfx);
    SearchMeshIdReplace(a, z, r);
    MeshIdOfValue(m);
    GetMeshIdSteps(a + "#" + r + sfx, a + "#" + r, r, m);
  }

  /** `bpy.types.ID` behind `obj.data`: only its name is used here. */
  class DataBlock {
    var name: string

    constructor (name: string)
      ensures this.name == name
    {
      this.name := name;
    }
  }

  /** `bpy.types.Object`: a name and an optional data-block. */
  class SceneObject {
    var name: string
    var data: DataBlock?

    constructor (name: string, data: DataBlock?)
      ensures this.name == name && this.data == data
    {
      this.name := name;
      this.data := data;
    }
  }

  /** `set_mesh_id`: both new names are computed from the object's current
      name; the data-block's name gets `<id>_mesh` in place of the digits. */
  method SetMeshId(obj: SceneObject, meshId: MeshId)
    requires NoNewline(obj.name)
    modifies obj, obj.data
    ensures obj.data == old(obj.data)
    ensures obj.name == SubMeshId(old(obj.name), MeshIdString(meshId))
    ensures obj.data != null ==>
              obj.data.name == SubMeshId(old(obj.name), MeshIdString(meshId) + "_mesh")
  {
    var newObjName := SubMeshId(obj.name, MeshIdString(meshId));
    var newMeshName := SubMeshId(obj.name, MeshIdString(meshId) + "_mesh");
    obj.name := newObjName;
    if obj.data != null {
      obj.data.name := newMeshName;
    }
  }
}
