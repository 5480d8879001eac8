// findBaseClassFile (src/extension.ts:84-93). The workspace search and the
// file reads are replaced by a given list of (path, content) pairs, in the
// order the search returned them.

module Locator {
  import opened Text
  import opened Options

  /** The text whose presence marks a file as declaring the base class. */
  function ClassMarker(name: string): string
  {
    "class " + name
  }

  predicate Declares(file: (string, string), name: string)
  {
    Contains(file.1, ClassMarker(name))
  }

  /** Index of the first file, in list order, whose content declares `name`. */
  function FirstDeclaring(files: seq<(string, string)>, name: string): (r: Option<nat>)
    ensures r.Some? ==> r.value < |files|
  {
    if files == [] then None
    else if Declares(files[0], name) then Some(0)
    else match FirstDeclaring(files[1..], name)
      case None => None
      case Some(k) => Some(k + 1)
  }

  /** FirstDeclaring finds a file exactly when one declares the name. */
  lemma {:induction false} FirstDeclaringNone(files: seq<(string, string)>, name: string)
    ensures FirstDeclaring(files, name).None? <==>
      forall k :: 0 <= k < |files| ==> !Declares(files[k], name)
  {
    if files != [] {
      FirstDeclaringNone(files[1..], name);
      if !Declares(files[0], name) && FirstDeclaring(files[1..], name).None? {
        forall k | 0 <= k < |files| ensures !Declares(files[k], name) {
          if k > 0 {
            assert files[k] == files[1..][k - 1];
          }
        }
      }
    }
  }

  /** The file it finds declares the name, and no earlier file does. */
  lemma {:induction false} FirstDeclaringFirst(files: seq<(string, string)>, name: string, k: nat)
    requires k < |files| && Declares(files[k], name)
    requires forall l :: 0 <= l < k ==> !Declares(files[l], name)
    ensures FirstDeclaring(files, name) == Some(k)
  {
    if k > 0 {
      forall l | 0 <= l < k - 1 ensures !Declares(files[1..][l], name) {
        assert files[1..][l] == files[l + 1];
      }
      FirstDeclaringFirst(files[1..], name, k - 1);
    }
  }

  /** findBaseClassFile: the path of the first file whose content contains
      "class " + name, or none. */
  method FindBaseClassFile(files: seq<(string, string)>, name: string) returns (r: Option<string>)
    ensures r.None? <==> FirstDeclaring(files, name).None?
    ensures r.Some? ==> r.value == files[FirstDeclaring(files, name).value].0
  {
    for k := 0 to |files|
      invariant forall l :: 0 <= l < k ==> !Declares(files[l], name)
    {
      if Contains(files[k].1, ClassMarker(name)) {
        FirstDeclaringFirst(files, name, k);
        return Some(files[k].0);
      }
    }
    FirstDeclaringNone(files, name);
    return None;
  }

  /** The search is a plain substring test: a longer class name that starts
      with the requested one is found first when its file comes first. */
  lemma PrefixNameFound()
    ensures FirstDeclaring([("a.dart", "class UserEntityBase {}"), ("b.dart", "class UserEntity {}")], "UserEntity")
      == Some(0)
  {
    var files := [("a.dart", "class UserEntityBase {}"), ("b.dart", "class UserEntity {}")];
    assert OccursAt(files[0].1, ClassMarker("UserEntity"), 0);
  }

  /** A mention inside a comment counts as well. */
  lemma CommentMentionFound()
    ensures FirstDeclaring([("a.dart", "// see class User\n"), ("b.dart", "class User {}")], "User") == Some(0)
  {
    var files := [("a.dart", "// see class User\n"), ("b.dart", "class User {}")];
    assert OccursAt(files[0].1, ClassMarker("User"), 7);
  }
}
