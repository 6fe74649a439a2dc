/** Core.Extension.ReflectionExtensions.GetName, as a function of the type's full name. */
module Reflection {

  /** String.LastIndexOf(c): the index of the last c in s, or -1. */
  function LastIndexOf(s: string, c: char): (index: int)
    ensures -1 <= index < |s|
    ensures index == -1 <==> c !in s
    ensures 0 <= index ==> s[index] == c && c !in s[index + 1..]
  {
    if s == [] then -1
    else if s[|s| - 1] == c then |s| - 1
    else
      var i := LastIndexOf(s[..|s| - 1], c);
      assert s == s[..|s| - 1] + [s[|s| - 1]];
      i
  }

  /**
   * ReflectionExtensions.GetName: the part of the full name after its last
   * '.', or the whole name when there is none.
   */
  function GetName(fullName: string): (name: string)
    ensures '.' !in name
    ensures |name| <= |fullName|
    ensures name == fullName[|fullName| - |name|..]
    ensures '.' !in fullName ==> name == fullName
    ensures '.' in fullName ==> |name| < |fullName| && fullName[|fullName| - |name| - 1] == '.'
  {
    var index := LastIndexOf(fullName, '.');
    if index != -1 then fullName[index + 1..] else fullName
  }
}
