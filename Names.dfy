/**
 * File-name handling of the batch: the suffix and stem of a file name
 * (the rule of `pathlib.PurePath.suffix` and `.stem` on the last path
 * component), the case-insensitive extension test and the output name.
 */
module Names {

  /** `SUPPORTED_EXTENSIONS`: the input suffixes accepted, in lower case. */
  const Extensions: set<string> := {".jpg", ".jpeg", ".png"}

  /** The suffix every output name is given. */
  const OutputExtension: string := ".webp"

  /** Index of the last '.' in s, or -1 when there is none (`str.rfind`). */
  function LastDot(s: string): (i: int)
    ensures -1 <= i < |s|
    ensures i >= 0 ==> s[i] == '.'
    ensures forall k :: i < k < |s| ==> s[k] != '.'
  {
    if s == [] then -1
    else if s[|s| - 1] == '.' then |s| - 1
    else LastDot(s[..|s| - 1])
  }

  /**
   * A name has a suffix when its last dot is neither its first nor its last
   * character: ".png" and "photo." have none.
   */
  predicate HasSuffix(name: string)
  {
    0 < LastDot(name) < |name| - 1
  }

  /** The suffix, dot included, or "" when there is none. */
  function Suffix(name: string): (x: string)
    ensures HasSuffix(name) ==> |x| >= 2 && x[0] == '.' && '.' !in x[1..]
    ensures !HasSuffix(name) ==> x == ""
  {
    if HasSuffix(name) then name[LastDot(name)..] else ""
  }

  /** The name without its suffix. */
  function Stem(name: string): string
  {
    if HasSuffix(name) then name[..LastDot(name)] else name
  }

  /** Every name splits into its stem followed by its suffix, and a stem is never empty when the name is not. */
  lemma StemSuffixSplit(name: string)
    ensures Stem(name) + Suffix(name) == name
    ensures name != "" ==> Stem(name) != ""
  {
  }

  /** ASCII lower-casing of one character. */
  function LowerChar(c: char): (d: char)
    ensures 'A' <= c <= 'Z' ==> 'a' <= d <= 'z' && d as int == c as int + 32
    ensures !('A' <= c <= 'Z') ==> d == c
  {
    if 'A' <= c <= 'Z' then (c as int + 32) as char else c
  }

  /** ASCII lower-casing of a string, character by character. */
  function Lower(s: string): (r: string)
    ensures |r| == |s|
    ensures forall i :: 0 <= i < |s| ==> r[i] == LowerChar(s[i])
  {
    seq(|s|, i requires 0 <= i < |s| => LowerChar(s[i]))
  }

  /** `p.suffix.lower() in SUPPORTED_EXTENSIONS`. */
  predicate IsSupported(name: string)
  {
    Lower(Suffix(name)) in Extensions
  }

  /** `f"{stem}.webp"`: the output name of an input name. */
  function OutputName(name: string): string
  {
    Stem(name) + OutputExtension
  }

  /** An output name ends in ".webp" after the input's non-empty stem, and it replaces only the suffix. */
  lemma OutputNameShape(name: string)
    requires name != ""
    ensures var out := OutputName(name);
            && |out| > |OutputExtension|
            && out[|out| - |OutputExtension|..] == OutputExtension
            && out[..|out| - |OutputExtension|] + Suffix(name) == name
  {
    StemSuffixSplit(name);
    var out := OutputName(name);
    assert out[..|out| - |OutputExtension|] == Stem(name);
  }

  /** The name ends, ignoring case, with the extension, and something comes before it. */
  predicate EndsWithExtension(name: string, ext: string)
  {
    |ext| < |name| && Lower(name[|name| - |ext|..]) == ext
  }

  /** Facts about the three accepted extensions: a leading dot, no other dot, at least three characters. */
  lemma ExtensionShape(ext: string)
    requires ext in Extensions
    ensures |ext| >= 4 && ext[0] == '.'
    ensures forall k :: 0 < k < |ext| ==> ext[k] != '.' && !('A' <= ext[k] <= 'Z')
  {
  }

  /**
   * Without the pathlib wording: a name is supported exactly when it ends,
   * ignoring case, in one of the extensions with at least one character
   * before it.
   */
  lemma SupportedIffEndsWithExtension(name: string)
    ensures IsSupported(name) <==> exists ext :: ext in Extensions && EndsWithExtension(name, ext)
  {
    if IsSupported(name) {
      var ext := Lower(Suffix(name));
      ExtensionShape(ext);
      assert HasSuffix(name);
      assert name[|name| - |ext|..] == Suffix(name);
      assert EndsWithExtension(name, ext);
    }
    if ext :| ext in Extensions && EndsWithExtension(name, ext) {
      ExtensionShape(ext);
      var j := |name| - |ext|;
      var tail := name[j..];
      assert Lower(tail) == ext;
      assert name[j] == '.' by { assert LowerChar(tail[0]) == '.'; }
      forall k | j < k < |name|
        ensures name[k] != '.'
      {
        assert LowerChar(tail[k - j]) == ext[k - j];
      }
      var i := LastDot(name);
      assert i == j;
      assert Suffix(name) == tail;
    }
  }

  /** The output name of a supported input differs from it, since it ends in a different suffix. */
  lemma OutputNameDiffers(name: string)
    requires IsSupported(name)
    ensures OutputName(name) != name
  {
    StemSuffixSplit(name);
    var suffix := Suffix(name);
    var ext := Lower(suffix);
    ExtensionShape(ext);
    assert suffix[1] != OutputExtension[1] by {
      assert ext[1] == 'j' || ext[1] == 'p';
    }
    assert (Stem(name) + suffix)[|Stem(name)|..] == suffix;
  }
}
