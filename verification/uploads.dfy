/**
 * The upload filter: a file name is accepted when it has a dot and the text
 * after its last dot, lower-cased, is one of the allowed image extensions.
 */
module Uploads {
  import opened Models

  const AllowedExtensions: set<string> := {"png", "jpg", "jpeg", "gif", "webp"}

  /** ASCII lower-casing of one character. */
  function LowerChar(c: char): char
  {
    if 'A' <= c <= 'Z' then (c as int + 32) as char else c
  }

  /** ASCII lower-casing of a string, character by character. */
  function Lower(s: string): (r: string)
    ensures |r| == |s|
    ensures forall i :: 0 <= i < |s| ==> r[i] == LowerChar(s[i])
  {
    seq(|s|, i requires 0 <= i < |s| => LowerChar(s[i]))
  }

  /** The position of the last '.' in `s`, if any. */
  function LastDot(s: string): (k: Option<nat>)
    ensures k.None? ==> forall j :: 0 <= j < |s| ==> s[j] != '.'
    ensures k.Some? ==> k.value < |s| && s[k.value] == '.' && forall j :: k.value < j < |s| ==> s[j] != '.'
    decreases |s|
  {
    if s == [] then None
    else if s[|s| - 1] == '.' then Some(|s| - 1)
    else LastDot(s[..|s| - 1])
  }

  /** A name is accepted when it has a dot and the text after its last dot, lower-cased, is an allowed extension. */
  function AllowedFile(filename: string): (ok: bool)
    ensures ok ==> '.' in filename && |filename| >= 4
  {
    match LastDot(filename)
    case None => false
    case Some(k) => Lower(filename[k + 1..]) in AllowedExtensions
  }

  /** A name without a dot is always refused. */
  lemma NoDotRefused(filename: string)
    requires '.' !in filename
    ensures !AllowedFile(filename)
  {
  }

  /**
   * Splitting a name at its last dot: `stem + "." + ext` is accepted exactly
   * when `ext`, lower-cased, is an allowed extension, whatever the stem.
   */
  lemma AllowedFileOfParts(stem: string, ext: string)
    requires '.' !in ext
    ensures AllowedFile(stem + "." + ext) <==> Lower(ext) in AllowedExtensions
  {
    var name := stem + "." + ext;
    var k := LastDot(name);
    assert name[|stem|] == '.';
    assert k.Some?;
    assert forall j :: |stem| < j < |name| ==> name[j] == ext[j - |stem| - 1];
    assert k.value == |stem|;
    assert name[|stem| + 1..] == ext;
  }

  /** The check ignores letter case: lower-casing the whole name first does not change the verdict. */
  lemma AllowedFileIgnoresCase(filename: string)
    ensures AllowedFile(Lower(filename)) == AllowedFile(filename)
  {
    var low := Lower(filename);
    assert forall j :: 0 <= j < |filename| ==> (low[j] == '.' <==> filename[j] == '.');
    var k, k' := LastDot(filename), LastDot(low);
    if k.Some? {
      assert low[k.value] == '.';
      assert k'.Some? && k'.value >= k.value;
      assert filename[k'.value] == '.';
      assert k'.value == k.value;
      var e, e' := filename[k.value + 1..], low[k.value + 1..];
      assert Lower(e') == Lower(e) by {
        forall i | 0 <= i < |e| ensures Lower(e')[i] == Lower(e)[i] {
          assert e'[i] == LowerChar(e[i]);
        }
      }
    } else {
      assert k'.None?;
    }
  }
}
