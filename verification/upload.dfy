/**
  The upload gate: which file names the validator accepts, judged by the
  extension after the last dot, compared case-insensitively.
 */
module Upload {
  import opened Wrappers
  import opened Text

  const AllowedExtensions: set<string> := {"png", "pdf"}

  /** The text after the last '.' of `name`, if `name` has a dot. */
  function Extension(name: string): (e: Option<string>)
    ensures e.None? <==> '.' !in name
    ensures e.Some? ==> '.' !in e.value && |e.value| < |name|
    ensures e.Some? ==> name == name[..|name| - |e.value| - 1] + "." + e.value
  {
    match LastIndexOf(name, '.')
    case None => None
    case Some(i) =>
      assert name == name[..i] + "." + name[i + 1..];
      Some(name[i + 1..])
  }

  /** The name's last four characters: a dot and a three-letter extension. */
  predicate HasAllowedSuffix(name: string) {
    |name| >= 4 && name[|name| - 4] == '.' && Lower(name[|name| - 3..]) in AllowedExtensions
  }

  /** The name has a dot and its extension, lower-cased, is one of the allowed ones. */
  predicate ExtensionAllowed(name: string) {
    match Extension(name)
    case None => false
    case Some(e) => Lower(e) in AllowedExtensions
  }

  /**
    The upload gate: a name is accepted exactly when it ends in ".png" or
    ".pdf", in any mix of upper and lower case.
   */
  function AllowedFile(name: string): (ok: bool)
    ensures ok <==> HasAllowedSuffix(name)
  {
    ExtensionAllowedIffSuffix(name);
    ExtensionAllowed(name)
  }

  lemma ExtensionAllowedIffSuffix(name: string)
    ensures ExtensionAllowed(name) <==> HasAllowedSuffix(name)
  {
    if ExtensionAllowed(name) {
      AllowedFileHasSuffix(name);
    }
    if HasAllowedSuffix(name) {
      SuffixAllowed(name);
    }
  }

  lemma AllowedFileHasSuffix(name: string)
    requires ExtensionAllowed(name)
    ensures HasAllowedSuffix(name)
  {
    var n := |name|;
    var e := Extension(name).value;
    assert |Lower(e)| == 3;
    var head := name[..n - |e| - 1];
    assert name == head + "." + e;
    assert name[n - 4] == (head + "." + e)[|head|];
    assert name[n - 3..] == e;
  }

  lemma SuffixAllowed(name: string)
    requires HasAllowedSuffix(name)
    ensures ExtensionAllowed(name)
  {
    var n := |name|;
    var tail := name[n - 3..];
    assert '.' !in tail by {
      forall k | 0 <= k < 3
        ensures tail[k] != '.'
      {
        assert Lower(tail)[k] == LowerChar(tail[k]);
      }
    }
    LastIndexOfUnique(name, '.', n - 4);
    assert Extension(name) == Some(tail);
  }

  /** A name without a dot, the empty name among them, is refused. */
  lemma NoDotRefused(name: string)
    requires '.' !in name
    ensures !AllowedFile(name)
  {
  }

  /** Only the last dot counts: an earlier ".pdf" does not make "a.pdf.txt" acceptable. */
  lemma EarlierExtensionIgnored()
    ensures !AllowedFile("a.pdf.txt")
  {
    var name := "a.pdf.txt";
    assert name[|name| - 3..] == "txt";
    assert Lower("txt") == "txt";
  }

  /** Case does not matter: "a.txt.PDF" is accepted. */
  lemma UpperCaseExtensionAccepted()
    ensures AllowedFile("a.txt.PDF")
  {
    var name := "a.txt.PDF";
    assert name[|name| - 4] == '.';
    assert name[|name| - 3..] == "PDF";
    assert Lower("PDF") == "pdf";
  }
}
