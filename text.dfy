/** String helpers used by the viewer: the substring test behind part-name
    matching, the base name kept from an imported file's name, and the
    file name an export is saved under. */
module Text {

  /** True when `part` occurs somewhere in `s`, as JavaScript's
      `String.prototype.includes` decides it (the empty string occurs
      everywhere). */
  predicate Contains(s: string, part: string)
    decreases |s|
  {
    if |part| <= |s| && s[..|part|] == part then true
    else if |part| >= |s| then false
    else Contains(s[1..], part)
  }

  /** The independent reading of `Contains`: some window of `s` equals `part`. */
  ghost predicate OccursAt(s: string, part: string, i: int)
  {
    0 <= i && i + |part| <= |s| && s[i..i + |part|] == part
  }

  lemma {:induction false} ContainsIff(s: string, part: string)
    ensures Contains(s, part) <==> exists i :: OccursAt(s, part, i)
    decreases |s|
  {
    if |part| <= |s| && s[..|part|] == part {
      assert OccursAt(s, part, 0);
    } else if |part| >= |s| {
      forall i | 0 <= i && i + |part| <= |s|
        ensures !OccursAt(s, part, i)
      {
        assert i == 0 && |part| == |s|;
      }
    } else {
      ContainsIff(s[1..], part);
      if Contains(s[1..], part) {
        var i :| OccursAt(s[1..], part, i);
        assert s[1..][i..i + |part|] == s[i + 1..i + 1 + |part|];
        assert OccursAt(s, part, i + 1);
      } else {
        forall i | 1 <= i && i + |part| <= |s|
          ensures OccursAt(s, part, i) ==> OccursAt(s[1..], part, i - 1)
        {
          assert s[1..][i - 1..i - 1 + |part|] == s[i..i + |part|];
        }
      }
    }
  }

  /** `file.name.split('.')[0]`: the text before the first '.', or the whole
      name when it has none. */
  function BaseName(fileName: string): (b: string)
    ensures '.' !in b
    ensures b <= fileName
    ensures |b| < |fileName| ==> fileName[|b|] == '.'
  {
    if fileName == [] || fileName[0] == '.' then []
    else [fileName[0]] + BaseName(fileName[1..])
  }

  /** The three properties of `BaseName` determine it: any prefix free of
      '.' that stops at a '.' or at the end is the base name. */
  lemma {:induction false} BaseNameUnique(fileName: string, b: string)
    requires '.' !in b && b <= fileName
    requires |b| < |fileName| ==> fileName[|b|] == '.'
    ensures b == BaseName(fileName)
  {
    if b != [] {
      assert b[0] == fileName[0];
      assert b[1..] <= fileName[1..];
      BaseNameUnique(fileName[1..], b[1..]);
    }
  }

  /** The name an export is saved under: the stored base name with the
      text container's extension appended. */
  function ExportFileName(base: string): (name: string)
    ensures base <= name && |name| == |base| + 5
  {
    base + ".gltf"
  }

  /** Importing an exported file gives back the base name it was exported
      under, as long as that base name has no '.' (which `BaseName`
      guarantees). */
  lemma {:induction false} ExportRoundTrip(base: string)
    requires '.' !in base
    ensures BaseName(ExportFileName(base)) == base
  {
    var name := ExportFileName(base);
    assert name[|base|] == '.';
    BaseNameUnique(name, base);
  }
}
