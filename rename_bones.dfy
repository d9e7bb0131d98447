/** The two batch operators that move PSO2 bone ids between the names of
    armature bones and their `pso2_bone_id` custom property. Each one first
    collects its bones over every armature object of the scene, then checks
    the bones' current names for duplicates, and then either renames every
    collected bone or, when there is a duplicate, nothing at all. */
module RenameBones {
  import opened Wrappers
  import opened Text
  import FbxWrapper

  /** `bpy.types.Bone`: its name and its `pso2_bone_id` custom property,
      which is absent or an integer. */
  class Bone {
    var name: string
    var boneId: Option<int>

    constructor (name: string, boneId: Option<int>)
      ensures this.name == name && this.boneId == boneId
    {
      this.name := name;
      this.boneId := boneId;
    }
  }

  /** `obj.data` of an object in `bpy.data.objects`: an armature with its
      bones, or any other kind of data (or none). */
  datatype ObjectData = Armature(bones: seq<Bone>) | OtherData

  /** An operator's return value; `Cancelled` carries the duplicate names
      the operator reports. */
  datatype OperatorResult = Finished | Cancelled(duplicates: seq<string>)

  // ---------------------------------------------------------------------
  // Specification functions

  function ArmatureBones(d: ObjectData): seq<Bone> {
    match d
    case Armature(bones) => bones
    case OtherData => []
  }

  /** Every bone of an armature object. */
  function AllBones(objects: seq<ObjectData>): set<Bone> {
    set o, b | o in objects && b in ArmatureBones(o) :: b
  }

  /** `BONE_PATTERN.match(name)` succeeds. The patterns are only modelled
      on names without line breaks; any other name matches neither. */
  predicate MatchesBonePattern(name: string) {
    NoNewline(name) && FbxWrapper.MatchBonePattern(name).Some?
  }

  /** `BONE_PATTERN_2.match(name)` succeeds. */
  predicate MatchesBonePattern2(name: string) {
    NoNewline(name) && FbxWrapper.MatchBonePattern2(name).Some?
  }

  /** A bone name matches `BONE_PATTERN` or `BONE_PATTERN_2`. */
  predicate HasIdInName(name: string) {
    MatchesBonePattern(name) || MatchesBonePattern2(name)
  }

  /** The innermost loop of `_get_bones_with_ids_in_names`, over the pair
      (`BONE_PATTERN`, `BONE_PATTERN_2`): the bone once for each of the two
      patterns its name matches. */
  function IdNameEntries(b: Bone): seq<Bone>
    reads b
  {
    (if MatchesBonePattern(b.name) then [b] else [])
    + (if MatchesBonePattern2(b.name) then [b] else [])
  }

  /** The loop over one armature's bones in `_get_bones_with_ids_in_names`. */
  function WithIdsInNames(bones: seq<Bone>): seq<Bone>
    reads bones
  {
    if bones == [] then []
    else WithIdsInNames(bones[..|bones| - 1]) + IdNameEntries(bones[|bones| - 1])
  }

  /** What `_get_bones_with_ids_in_names` yields. */
  function BonesWithIdsInNames(objects: seq<ObjectData>): seq<Bone>
    reads AllBones(objects)
  {
    if objects == [] then []
    else
      var last := objects[|objects| - 1];
      assert forall b :: b in ArmatureBones(last) ==> b in AllBones(objects);
      BonesWithIdsInNames(objects[..|objects| - 1]) + WithIdsInNames(ArmatureBones(last))
  }

  /** The loop over one armature's bones in `_get_bones_with_id_props`. */
  function WithIdProps(bones: seq<Bone>): seq<Bone>
    reads bones
  {
    if bones == [] then []
    else
      var b := bones[|bones| - 1];
      WithIdProps(bones[..|bones| - 1]) + (if b.boneId.Some? then [b] else [])
  }

  /** What `_get_bones_with_id_props` yields: the bones holding
      `pso2_bone_id`, in order. */
  function BonesWithIdProps(objects: seq<ObjectData>): seq<Bone>
    reads AllBones(objects)
  {
    if objects == [] then []
    else
      var last := objects[|objects| - 1];
      assert forall b :: b in ArmatureBones(last) ==> b in AllBones(objects);
      BonesWithIdProps(objects[..|objects| - 1]) + WithIdProps(ArmatureBones(last))
  }

  /** The current names of a sequence of bones. */
  function NamesOf(bones: seq<Bone>): seq<string>
    reads bones
  {
    seq(|bones|, k requires 0 <= k < |bones| reads bones => bones[k].name)
  }

  /** What `_find_duplicate_bones` yields: each name that was already seen
      earlier in the sequence, once for every repetition. */
  function Duplicates(names: seq<string>): seq<string> {
    if names == [] then []
    else
      var last := names[|names| - 1];
      Duplicates(names[..|names| - 1]) + (if last in names[..|names| - 1] then [last] else [])
  }

  predicate Distinct(names: seq<string>) {
    forall i, j :: 0 <= i < j < |names| ==> names[i] != names[j]
  }

  // ---------------------------------------------------------------------
  // Properties of the specification functions

  /** A name occurring k times is reported k - 1 times; a name that does
      not occur is not reported. */
  lemma {:induction false} DuplicatesCount(names: seq<string>, x: string)
    ensures multiset(Duplicates(names))[x] == if x in names then multiset(names)[x] - 1 else 0
  {
    if names != [] {
      var p, y := names[..|names| - 1], names[|names| - 1];
      assert names == p + [y];
      DuplicatesCount(p, x);
    }
  }

  lemma DistinctSnoc(p: seq<string>, y: string)
    ensures Distinct(p + [y]) <==> Distinct(p) && y !in p
  {
    var s := p + [y];
    if Distinct(s) {
      forall i, j | 0 <= i < j < |p|
        ensures p[i] != p[j]
      {
        assert s[i] == p[i] && s[j] == p[j];
      }
      forall i | 0 <= i < |p|
        ensures p[i] != y
      {
        assert s[i] == p[i] && s[|p|] == y;
      }
    }
    if Distinct(p) && y !in p {
      forall i, j | 0 <= i < j < |s|
        ensures s[i] != s[j]
      {
        if j < |p| {
          assert s[i] == p[i] && s[j] == p[j];
        } else {
          assert s[i] == p[i];
        }
      }
    }
  }

  /** Nothing is reported exactly when the names are pairwise distinct. */
  lemma {:induction false} DuplicatesEmptyIff(names: seq<string>)
    ensures Duplicates(names) == [] <==> Distinct(names)
  {
    if names != [] {
      var p, y := names[..|names| - 1], names[|names| - 1];
      DuplicatesEmptyIff(p);
      assert names == p + [y];
      DistinctSnoc(p, y);
    }
  }

  /** Distinct names belong to distinct bones. */
  lemma DistinctBones(bones: seq<Bone>)
    requires Distinct(NamesOf(bones))
    ensures forall i, j :: 0 <= i < j < |bones| ==> bones[i] != bones[j]
  {
    var names := NamesOf(bones);
    forall i, j | 0 <= i < j < |bones|
      ensures bones[i] != bones[j]
    {
      assert names[i] == bones[i].name && names[j] == bones[j].name;
    }
  }

  /** The bones collected for one armature are its bones whose name
      matches a pattern. */
  lemma {:induction false} WithIdsInNamesMembers(bones: seq<Bone>)
    ensures forall b :: b in WithIdsInNames(bones) <==> b in bones && HasIdInName(b.name)
  {
    if bones != [] {
      WithIdsInNamesMembers(bones[..|bones| - 1]);
      assert bones == bones[..|bones| - 1] + [bones[|bones| - 1]];
    }
  }

  /** The rename operator collects the armature bones whose name matches a
      pattern, and only those. */
  lemma {:induction false} BonesWithIdsInNamesMembers(objects: seq<ObjectData>)
    ensures forall b :: b in BonesWithIdsInNames(objects) <==>
                          b in AllBones(objects) && HasIdInName(b.name)
  {
    if objects != [] {
      var p, o := objects[..|objects| - 1], objects[|objects| - 1];
      assert objects == p + [o];
      BonesWithIdsInNamesMembers(p);
      WithIdsInNamesMembers(ArmatureBones(o));
    }
  }

  lemma {:induction false} WithIdPropsMembers(bones: seq<Bone>)
    ensures forall b :: b in WithIdProps(bones) <==> b in bones && b.boneId.Some?
  {
    if bones != [] {
      WithIdPropsMembers(bones[..|bones| - 1]);
      assert bones == bones[..|bones| - 1] + [bones[|bones| - 1]];
    }
  }

  /** The restore operator collects the armature bones that hold the
      property, and only those. */
  lemma {:induction false} BonesWithIdPropsMembers(objects: seq<ObjectData>)
    ensures forall b :: b in BonesWithIdProps(objects) <==>
                          b in AllBones(objects) && b.boneId.Some?
  {
    if objects != [] {
      var p, o := objects[..|objects| - 1], objects[|objects| - 1];
      assert objects == p + [o];
      BonesWithIdPropsMembers(p);
      WithIdPropsMembers(ArmatureBones(o));
    }
  }

  /** `b` occupies two neighbouring entries of `s`. */
  predicate YieldedTwice(s: seq<Bone>, b: Bone) {
    exists i :: 0 <= i < |s| - 1 && s[i] == b && s[i + 1] == b
  }

  lemma YieldedTwiceConcat(s: seq<Bone>, t: seq<Bone>, b: Bone)
    requires YieldedTwice(s, b) || YieldedTwice(t, b)
    ensures YieldedTwice(s + t, b)
  {
    if YieldedTwice(s, b) {
      var i :| 0 <= i < |s| - 1 && s[i] == b && s[i + 1] == b;
      assert (s + t)[i] == s[i] && (s + t)[i + 1] == s[i + 1];
    } else {
      var i :| 0 <= i < |t| - 1 && t[i] == b && t[i + 1] == b;
      assert (s + t)[|s| + i] == t[i] && (s + t)[|s| + i + 1] == t[i + 1];
    }
  }

  lemma {:induction false} WithIdsInNamesRepeats(bones: seq<Bone>, k: nat)
    requires k < |bones| && MatchesBonePattern(bones[k].name) && MatchesBonePattern2(bones[k].name)
    ensures YieldedTwice(WithIdsInNames(bones), bones[k])
  {
    var p, b := bones[..|bones| - 1], bones[|bones| - 1];
    if k == |bones| - 1 {
      var e := IdNameEntries(b);
      assert e == [b, b];
      assert 0 <= 0 < |e| - 1 && e[0] == e[1];
      YieldedTwiceConcat(WithIdsInNames(p), IdNameEntries(b), bones[k]);
    } else {
      assert p[k] == bones[k];
      WithIdsInNamesRepeats(p, k);
      YieldedTwiceConcat(WithIdsInNames(p), IdNameEntries(b), bones[k]);
    }
  }

  lemma {:induction false} BonesWithIdsInNamesRepeats(objects: seq<ObjectData>, i: nat, k: nat)
    requires i < |objects| && k < |ArmatureBones(objects[i])|
    requires MatchesBonePattern(ArmatureBones(objects[i])[k].name)
    requires MatchesBonePattern2(ArmatureBones(objects[i])[k].name)
    ensures YieldedTwice(BonesWithIdsInNames(objects), ArmatureBones(objects[i])[k])
  {
    var p, o := objects[..|objects| - 1], objects[|objects| - 1];
    assert objects[i] in objects;
    if i == |objects| - 1 {
      WithIdsInNamesRepeats(ArmatureBones(o), k);
    } else {
      assert p[i] == objects[i];
      BonesWithIdsInNamesRepeats(p, i, k);
    }
    YieldedTwiceConcat(BonesWithIdsInNames(p), WithIdsInNames(ArmatureBones(o)), ArmatureBones(objects[i])[k]);
  }

  /** A bone whose name matches both patterns is collected twice, so the
      rename operator always reports it as a duplicate and cancels. */
  lemma BothPatternsReportDuplicate(objects: seq<ObjectData>, i: nat, k: nat)
    requires i < |objects| && k < |ArmatureBones(objects[i])|
    requires MatchesBonePattern(ArmatureBones(objects[i])[k].name)
    requires MatchesBonePattern2(ArmatureBones(objects[i])[k].name)
    ensures Duplicates(NamesOf(BonesWithIdsInNames(objects))) != []
  {
    var b := ArmatureBones(objects[i])[k];
    BonesWithIdsInNamesRepeats(objects, i, k);
    var s := BonesWithIdsInNames(objects);
    var j :| 0 <= j < |s| - 1 && s[j] == b && s[j + 1] == b;
    var names := NamesOf(s);
    assert names[j] == s[j].name && names[j + 1] == s[j + 1].name;
    DuplicatesEmptyIff(names);
  }

  /** A name in the canonical `(id)name` form survives rename-then-restore:
      the bare name and the id joined again give the original name. */
  lemma RestoreAfterRename(s: string, boneId: nat, name: string)
    requires NoNewline(s) && FbxWrapper.PrefixForm(s, Show(boneId), name)
    ensures FbxWrapper.SplitBoneName(s) == Some((name, boneId))
    ensures FbxWrapper.JoinBoneName(name, boneId) == s
  {
    FbxWrapper.SplitPrefersPrefix(s, Show(boneId), name);
    ParseShow(boneId);
  }

  /** A restored name carries its id again for the next rename, unless the
      id is negative: `(-5)name` matches neither pattern's digits. */
  lemma RenameAfterRestore(name: string, boneId: int)
    requires name != [] && NoNewline(name)
    ensures NoNewline(FbxWrapper.JoinBoneName(name, boneId))
    ensures boneId >= 0 ==>
              FbxWrapper.SplitBoneName(FbxWrapper.JoinBoneName(name, boneId)) == Some((name, boneId))
    ensures boneId < 0 ==>
              FbxWrapper.MatchBonePattern(FbxWrapper.JoinBoneName(name, boneId)).None?
  {
    var s := FbxWrapper.JoinBoneName(name, boneId);
    if boneId >= 0 {
      FbxWrapper.SplitJoin(name, boneId);
    } else {
      var t := ShowInt(boneId);
      assert s == "(" + t + ")" + name;
      assert forall i :: 0 <= i < |s| ==> s[i] != '\n' by {
        forall i | 0 <= i < |s|
          ensures s[i] != '\n'
        {
          if 1 <= i < 1 + |t| {
            assert s[i] == t[i - 1];
          } else if i > 1 + |t| {
            assert s[i] == name[i - 2 - |t|];
          }
        }
      }
      assert s[1] == '-';
    }
  }

  /** The current names `"(1)Arm"` and `"(2)Arm"` are distinct, so the
      check lets the rename through, although both bones become `"Arm"`. */
  lemma ExampleSameBareName()
    ensures Duplicates(["(1)Arm", "(2)Arm"]) == []
    ensures var s1, s2 := "(1)Arm", "(2)Arm";
            && NoNewline(s1) && NoNewline(s2)
            && FbxWrapper.SplitBoneName(s1) == Some(("Arm", 1))
            && FbxWrapper.SplitBoneName(s2) == Some(("Arm", 2))
  {
    DuplicatesEmptyIff(["(1)Arm", "(2)Arm"]);
    RestoreAfterRename("(1)Arm", 1, "Arm");
    RestoreAfterRename("(2)Arm", 2, "Arm");
  }

  // ---------------------------------------------------------------------
  // The generators

  /** `_get_bones_with_ids_in_names`. */
  method CollectBonesWithIdsInNames(objects: seq<ObjectData>) returns (bones: seq<Bone>)
    ensures bones == BonesWithIdsInNames(objects)
  {
    bones := [];
    var i := 0;
    while i < |objects|
      invariant 0 <= i <= |objects|
      invariant bones == BonesWithIdsInNames(objects[..i])
    {
      assert objects[..i + 1][..i] == objects[..i];
      // An object whose data is not an armature contributes no bones.
      var armatureBones := ArmatureBones(objects[i]);
      var found := [];
      var j := 0;
      while j < |armatureBones|
        invariant 0 <= j <= |armatureBones|
        invariant found == WithIdsInNames(armatureBones[..j])
      {
        var b := armatureBones[j];
        assert armatureBones[..j + 1][..j] == armatureBones[..j];
        // The loop over (BONE_PATTERN, BONE_PATTERN_2), unrolled.
        found := found + IdNameEntries(b);
        j := j + 1;
      }
      assert armatureBones[..j] == armatureBones;
      bones := bones + found;
      i := i + 1;
    }
    assert objects[..i] == objects;
  }

  /** `_get_bones_with_id_props`. */
  method CollectBonesWithIdProps(objects: seq<ObjectData>) returns (bones: seq<Bone>)
    ensures bones == BonesWithIdProps(objects)
  {
    bones := [];
    var i := 0;
    while i < |objects|
      invariant 0 <= i <= |objects|
      invariant bones == BonesWithIdProps(objects[..i])
    {
      assert objects[..i + 1][..i] == objects[..i];
      // An object whose data is not an armature contributes no bones.
      var armatureBones := ArmatureBones(objects[i]);
      var found := [];
      var j := 0;
      while j < |armatureBones|
        invariant 0 <= j <= |armatureBones|
        invariant found == WithIdProps(armatureBones[..j])
      {
        var b := armatureBones[j];
        assert armatureBones[..j + 1][..j] == armatureBones[..j];
        if b.boneId.Some? {
          found := found + [b];
        }
        j := j + 1;
      }
      assert armatureBones[..j] == armatureBones;
      bones := bones + found;
      i := i + 1;
    }
    assert objects[..i] == objects;
  }

  /** `_find_duplicate_bones`, with the set of names seen so far. */
  method FindDuplicateBones(bones: seq<Bone>) returns (dupes: seq<string>)
    ensures dupes == Duplicates(NamesOf(bones))
  {
    ghost var all := NamesOf(bones);
    var names: set<string> := {};
    dupes := [];
    var i := 0;
    while i < |bones|
      invariant 0 <= i <= |bones|
      invariant forall x :: x in names <==> x in all[..i]
      invariant dupes == Duplicates(all[..i])
    {
      var name := bones[i].name;
      assert all[..i + 1][..i] == all[..i];
      assert all[i] == name;
      if name in names {
        dupes := dupes + [name];
      }
      names := names + {name};
      i := i + 1;
    }
    assert all[..i] == all;
  }

  /** Once the duplicate check has passed, the collected bones are distinct
      bones of the scene, and each name comes apart. */
  lemma RenameReady(objects: seq<ObjectData>, bones: seq<Bone>)
    requires bones == BonesWithIdsInNames(objects) && Duplicates(NamesOf(bones)) == []
    ensures forall k :: 0 <= k < |bones| ==> bones[k] in AllBones(objects) && SplitName(bones[k].name).Some?
    ensures forall i, j :: 0 <= i < j < |bones| ==> bones[i] != bones[j]
  {
    BonesWithIdsInNamesMembers(objects);
    forall k | 0 <= k < |bones|
      ensures bones[k] in AllBones(objects) && SplitName(bones[k].name).Some?
    {
      assert bones[k] in bones;
    }
    DuplicatesEmptyIff(NamesOf(bones));
    DistinctBones(bones);
  }

  /** Once the duplicate check has passed, the collected bones are distinct
      and are exactly the bones of the scene that hold the property. */
  lemma RestoreReady(objects: seq<ObjectData>, bones: seq<Bone>)
    requires bones == BonesWithIdProps(objects) && Duplicates(NamesOf(bones)) == []
    ensures forall b :: b in AllBones(objects) ==> (b in bones <==> b.boneId.Some?)
    ensures forall k :: 0 <= k < |bones| ==> bones[k] in AllBones(objects)
    ensures forall i, j :: 0 <= i < j < |bones| ==> bones[i] != bones[j]
  {
    BonesWithIdPropsMembers(objects);
    forall k | 0 <= k < |bones|
      ensures bones[k] in AllBones(objects)
    {
      assert bones[k] in bones;
    }
    DuplicatesEmptyIff(NamesOf(bones));
    DistinctBones(bones);
  }

  // ---------------------------------------------------------------------
  // The operators

  /** `OBJECT_OT_pso2_rename_bones.poll`: available exactly when some bone
      of an armature has an id in its name. */
  method RenameBonesPoll(objects: seq<ObjectData>) returns (available: bool)
    ensures available <==> exists b :: b in AllBones(objects) && HasIdInName(b.name)
  {
    var bones := CollectBonesWithIdsInNames(objects);
    BonesWithIdsInNamesMembers(objects);
    available := |bones| > 0;
    if available {
      assert bones[0] in bones;
    } else {
      assert forall b :: b in AllBones(objects) && HasIdInName(b.name) ==> b in bones;
    }
  }

  /** `OBJECT_OT_pso2_restore_bones.poll`: available exactly when some bone
      of an armature holds the property. */
  method RestoreBonesPoll(objects: seq<ObjectData>) returns (available: bool)
    ensures available <==> exists b :: b in AllBones(objects) && b.boneId.Some?
  {
    var bones := CollectBonesWithIdProps(objects);
    BonesWithIdPropsMembers(objects);
    available := |bones| > 0;
    if available {
      assert bones[0] in bones;
    } else {
      assert forall b :: b in AllBones(objects) && b.boneId.Some? ==> b in bones;
    }
  }

  /** `OBJECT_OT_pso2_rename_bones.execute`: when the collected bones'
      current names are distinct, each collected bone gets the bare name
      and its id as the property; otherwise nothing changes and the
      duplicates are reported. Bones that are not collected never change. */
  method RenameBonesExecute(objects: seq<ObjectData>) returns (r: OperatorResult)
    modifies AllBones(objects)
    ensures r.Cancelled? <==> old(Duplicates(NamesOf(BonesWithIdsInNames(objects)))) != []
    ensures r.Cancelled? ==> r.duplicates == old(Duplicates(NamesOf(BonesWithIdsInNames(objects))))
    ensures forall b :: b in AllBones(objects) ==>
              if r.Finished? && b in old(BonesWithIdsInNames(objects)) then
                b.boneId.Some? && SplitName(old(b.name)) == Some((b.name, b.boneId.value))
              else
                b.name == old(b.name) && b.boneId == old(b.boneId)
  {
    var bones := CollectBonesWithIdsInNames(objects);
    var dupes := FindDuplicateBones(bones);
    // Neither call changes a bone, so the functions read the same state.
    assert forall b :: b in AllBones(objects) ==> b.name == old(b.name) && b.boneId == old(b.boneId);
    assert bones == BonesWithIdsInNames(objects) == old(BonesWithIdsInNames(objects));
    assert dupes == old(Duplicates(NamesOf(BonesWithIdsInNames(objects))));
    if dupes != [] {
      return Cancelled(dupes);
    }
    RenameReady(objects, bones);
    RenameEach(AllBones(objects), bones, SplitName);
    return Finished;
  }

  /** `split_bone_name` on any bone name; a name with a line break matches
      neither pattern here, as in the collector. */
  function SplitName(s: string): Option<(string, nat)> {
    if NoNewline(s) then FbxWrapper.SplitBoneName(s) else None
  }

  /** The loop of `OBJECT_OT_pso2_rename_bones.execute`, once the duplicate
      check has passed: `bones` are distinct bones of `all`. A bone whose
      name `split` takes apart gets the name and the id; any other bone is
      left alone. The name codec is a parameter, so that the loop is proved
      for any codec. */
  method RenameEach(ghost all: set<Bone>, bones: seq<Bone>, split: string -> Option<(string, nat)>)
    requires forall k :: 0 <= k < |bones| ==> bones[k] in all
    requires forall i, j :: 0 <= i < j < |bones| ==> bones[i] != bones[j]
    modifies all
    ensures forall b :: b in all ==>
              if b in bones && split(old(b.name)).Some? then
                b.boneId.Some? && split(old(b.name)) == Some((b.name, b.boneId.value))
              else
                b.name == old(b.name) && b.boneId == old(b.boneId)
  {
    var i := 0;
    while i < |bones|
      invariant 0 <= i <= |bones|
      invariant forall k :: i <= k < |bones| ==> bones[k].name == old(bones[k].name) && bones[k].boneId == old(bones[k].boneId)
      invariant forall k :: 0 <= k < i ==>
                  if split(old(bones[k].name)).Some? then
                    bones[k].boneId.Some? && split(old(bones[k].name)) == Some((bones[k].name, bones[k].boneId.value))
                  else
                    bones[k].name == old(bones[k].name) && bones[k].boneId == old(bones[k].boneId)
      invariant forall b :: b in all && b !in bones ==> b.name == old(b.name) && b.boneId == old(b.boneId)
    {
      var bone := bones[i];
      var parts := split(bone.name);
      if parts.Some? {
        bone.name := parts.value.0;
        bone.boneId := Some(parts.value.1);
      }
      i := i + 1;
    }
  }

  /** `OBJECT_OT_pso2_restore_bones.execute`: when the collected bones'
      current names are distinct, each bone holding the property gets the
      name `(id)name` and loses the property; otherwise nothing changes and
      the duplicates are reported. Other bones never change. */
  method RestoreBonesExecute(objects: seq<ObjectData>) returns (r: OperatorResult)
    modifies AllBones(objects)
    ensures r.Cancelled? <==> old(Duplicates(NamesOf(BonesWithIdProps(objects)))) != []
    ensures r.Cancelled? ==> r.duplicates == old(Duplicates(NamesOf(BonesWithIdProps(objects))))
    ensures forall b :: b in AllBones(objects) ==>
              if r.Finished? && old(b.boneId).Some? then
                b.name == FbxWrapper.JoinBoneName(old(b.name), old(b.boneId).value) && b.boneId == None
              else
                b.name == old(b.name) && b.boneId == old(b.boneId)
  {
    var bones := CollectBonesWithIdProps(objects);
    var dupes := FindDuplicateBones(bones);
    // Neither call changes a bone, so the functions read the same state.
    assert forall b :: b in AllBones(objects) ==> b.name == old(b.name) && b.boneId == old(b.boneId);
    assert bones == BonesWithIdProps(objects) == old(BonesWithIdProps(objects));
    assert dupes == old(Duplicates(NamesOf(BonesWithIdProps(objects))));
    if dupes != [] {
      return Cancelled(dupes);
    }
    RestoreReady(objects, bones);
    RestoreEach(AllBones(objects), bones, FbxWrapper.JoinBoneName);
    return Finished;
  }

  /** The loop of `OBJECT_OT_pso2_restore_bones.execute`, once the
      duplicate check has passed: `bones` are distinct and are exactly the
      bones of `all` that hold the property. The name codec is a
      parameter, so that the loop is proved for any codec. */
  method RestoreEach(ghost all: set<Bone>, bones: seq<Bone>, join: (string, int) -> string)
    requires forall b :: b in all ==> (b in bones <==> b.boneId.Some?)
    requires forall k :: 0 <= k < |bones| ==> bones[k] in all
    requires forall i, j :: 0 <= i < j < |bones| ==> bones[i] != bones[j]
    modifies all
    ensures forall b :: b in all ==>
              if old(b.boneId).Some? then
                b.name == join(old(b.name), old(b.boneId).value) && b.boneId == None
              else
                b.name == old(b.name) && b.boneId == old(b.boneId)
  {
    var i := 0;
    while i < |bones|
      invariant 0 <= i <= |bones|
      invariant forall k :: i <= k < |bones| ==> bones[k].name == old(bones[k].name) && bones[k].boneId == old(bones[k].boneId)
      invariant forall k :: 0 <= k < i ==>
                  && old(bones[k].boneId).Some?
                  && bones[k].name == join(old(bones[k].name), old(bones[k].boneId).value)
                  && bones[k].boneId == None
      invariant forall b :: b in all && b !in bones ==> b.name == old(b.name) && b.boneId == old(b.boneId)
    {
      var bone := bones[i];
      var boneId := bone.boneId.value;
      bone.name := join(bone.name, boneId);
      bone.boneId := None;
      i := i + 1;
    }
  }
}
