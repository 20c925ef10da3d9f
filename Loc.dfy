/** Localised user-interface strings (class Loc): a lookup in the message
    bundle with a label derived from the key as fallback. */
module Loc {
  import opened JavaLang

  /** The bundle of localised messages, None when it could not be loaded. */
  type Bundle = Option<map<string, string>>

  /** `s.replace(from, to)` for characters. */
  function ReplaceChar(s: string, from: char, to: char): (r: string)
    ensures |r| == |s|
    ensures forall i :: 0 <= i < |s| ==> r[i] == if s[i] == from then to else s[i]
  {
    if s == [] then []
    else [if s[0] == from then to else s[0]] + ReplaceChar(s[1..], from, to)
  }

  /** getDefString: the first character upper-cased, every later '_' turned
      into a space. `substring(0, 1)` throws on an empty name. */
  function GetDefString(name: string): (r: string)
    requires |name| > 0
    ensures |r| == |name|
    ensures r[0] == UpperChar(name[0])
    ensures forall i :: 1 <= i < |name| ==> r[i] == if name[i] == '_' then ' ' else name[i]
  {
    ToUpperCase(name[..1]) + ReplaceChar(name[1..], '_', ' ')
  }

  predicate HasKey(bundle: Bundle, name: string)
  {
    bundle.Some? && name in bundle.value
  }

  /** get: the bundle's entry when the bundle exists and holds the key,
      otherwise the derived default label. */
  function Get(bundle: Bundle, name: string): (r: string)
    requires HasKey(bundle, name) || |name| > 0
    ensures HasKey(bundle, name) ==> r == bundle.value[name]
    ensures !HasKey(bundle, name) ==> |r| == |name| && r[0] == UpperChar(name[0])
    ensures !HasKey(bundle, name) ==>
      forall i :: 1 <= i < |name| ==> r[i] == if name[i] == '_' then ' ' else name[i]
  {
    if HasKey(bundle, name) then bundle.value[name] else GetDefString(name)
  }
}
