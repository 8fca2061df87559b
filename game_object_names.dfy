/** Removing the "(Clone)" marker that instantiation appends to an object's
    name. Only the name is modelled; the rest of a game object is not. */
module GameObjectNames {

  /** The marker searched for. */
  const CloneMarker: string := "(Clone)"

  /** `pattern` occurs in `s` starting at index `i`. */
  predicate OccursAt(s: string, pattern: string, i: int)
  {
    0 <= i && i + |pattern| <= |s| && s[i..i + |pattern|] == pattern
  }

  ghost predicate Contains(s: string, pattern: string)
  {
    exists i :: OccursAt(s, pattern, i)
  }

  /** Ordinal `IndexOf` from position `from`: the first index at or after
      `from` where `pattern` starts, or -1. */
  function IndexOfFrom(s: string, pattern: string, from: nat): (idx: int)
    requires from <= |s|
    ensures idx == -1 || (from <= idx && OccursAt(s, pattern, idx))
    ensures forall j :: from <= j && (idx == -1 || j < idx) ==> !OccursAt(s, pattern, j)
    decreases |s| - from
  {
    if from + |pattern| > |s| then -1
    else if s[from..from + |pattern|] == pattern then from
    else IndexOfFrom(s, pattern, from + 1)
  }

  /** `s.IndexOf(pattern, StringComparison.Ordinal)`: the first occurrence,
      or -1 exactly when there is none. */
  function IndexOf(s: string, pattern: string): (idx: int)
    ensures idx == -1 <==> !Contains(s, pattern)
    ensures idx != -1 ==> OccursAt(s, pattern, idx) && forall j :: 0 <= j < idx ==> !OccursAt(s, pattern, j)
  {
    IndexOfFrom(s, pattern, 0)
  }

  /** The name cut just before the first "(Clone)"; a name without the
      marker is returned unchanged. */
  function GetNameWithoutClone(name: string): (stripped: string)
    ensures !Contains(name, CloneMarker) ==> stripped == name
    ensures Contains(name, CloneMarker) ==> OccursAt(name, CloneMarker, |stripped|)
    ensures stripped == name[..|stripped|]
    ensures !Contains(stripped, CloneMarker)
  {
    var index := IndexOf(name, CloneMarker);
    if index == -1 then name
    else
      var stripped := name[..index];
      assert !Contains(stripped, CloneMarker) by {
        forall j | OccursAt(stripped, CloneMarker, j) ensures false {
          assert stripped[j..j + |CloneMarker|] == name[j..j + |CloneMarker|];
          assert OccursAt(name, CloneMarker, j);
        }
      }
      stripped
  }

  /** Stripping twice is stripping once. */
  lemma GetNameWithoutCloneIdempotent(name: string)
    ensures GetNameWithoutClone(GetNameWithoutClone(name)) == GetNameWithoutClone(name)
  {
  }

  /** A game object, reduced to its name. */
  class GameObject {
    var name: string

    constructor (name: string)
      ensures this.name == name
    {
      this.name := name;
    }
  }

  /** `StripCloneFromName`: replaces the object's name by the stripped name;
      nothing else changes. */
  method StripCloneFromName(gameObject: GameObject)
    modifies gameObject
    ensures gameObject.name == GetNameWithoutClone(old(gameObject.name))
  {
    gameObject.name := GetNameWithoutClone(gameObject.name);
  }
}
