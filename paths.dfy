/**
 * File URLs as Foundation's `URL` treats them here: a sequence of parent
 * components and a last path component. Percent-encoding, relative URLs and
 * the special handling of names that start with a dot are not modelled; the
 * path extension of a name is whatever follows its last dot, provided that
 * dot is not the first character of the name.
 */
module Paths {
  datatype Url = Url(parent: seq<string>, last: string)

  /** `dir.appendingPathComponent(component)`. */
  function Appending(dir: Url, component: string): Url
  {
    Url(dir.parent + [dir.last], component)
  }

  /** `u.deletingLastPathComponent().appendingPathComponent(name)`. */
  function Sibling(u: Url, name: string): Url
  {
    Url(u.parent, name)
  }

  predicate HasNoDot(s: string)
  {
    forall i :: 0 <= i < |s| ==> s[i] != '.'
  }

  /** Index of the last '.' of `s`, or -1 when there is none. */
  function LastDot(s: string): (i: int)
    ensures -1 <= i < |s|
    ensures i >= 0 ==> s[i] == '.'
    ensures forall j :: i < j < |s| ==> s[j] != '.'
  {
    if s == [] then -1
    else if s[|s| - 1] == '.' then |s| - 1
    else LastDot(s[..|s| - 1])
  }

  /** The name without its path extension (`deletingPathExtension` on the last component). */
  function Stem(name: string): string
  {
    var i := LastDot(name);
    if i > 0 then name[..i] else name
  }

  /** `u.deletingPathExtension()`. */
  function DeletingPathExtension(u: Url): Url
  {
    Url(u.parent, Stem(u.last))
  }

  /** `u.appendingPathExtension(ext)`. */
  function AppendingPathExtension(u: Url, ext: string): Url
  {
    Url(u.parent, u.last + "." + ext)
  }

  /** `s.trimmingCharacters(in: CharacterSet(charactersIn: "."))`. */
  function TrimDots(s: string): string
  {
    TrimTrailingDots(TrimLeadingDots(s))
  }

  function TrimLeadingDots(s: string): string
  {
    if s != [] && s[0] == '.' then TrimLeadingDots(s[1..]) else s
  }

  function TrimTrailingDots(s: string): string
  {
    if s != [] && s[|s| - 1] == '.' then TrimTrailingDots(s[..|s| - 1]) else s
  }

  /** A name ending in ".ext", where ext has no dot, has its last dot right before ext. */
  lemma {:induction false} LastDotOfExtended(stem: string, ext: string)
    requires HasNoDot(ext)
    ensures LastDot(stem + "." + ext) == |stem|
  {
    if ext != [] {
      var s := stem + "." + ext;
      assert s[..|s| - 1] == stem + "." + ext[..|ext| - 1];
      LastDotOfExtended(stem, ext[..|ext| - 1]);
    } else {
      assert stem + "." + ext == stem + ".";
    }
  }

  /** Replacing the extension of a name that already ends in ".ext" gives back its stem. */
  lemma StemOfExtended(stem: string, ext: string)
    requires stem != [] && HasNoDot(ext)
    ensures Stem(stem + "." + ext) == stem
  {
    LastDotOfExtended(stem, ext);
    assert (stem + "." + ext)[..|stem|] == stem;
  }

  /** Stripping an extension never empties a non-empty name. */
  lemma StemNonEmpty(name: string)
    requires name != []
    ensures Stem(name) != []
  {
  }
}
