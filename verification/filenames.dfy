/**
 * The file-name test of the candidate scan: a file is a candidate only when
 * its lower-cased name ends with one of the image extensions.
 */
module FileNames {

  /** The extensions accepted by the scan, in the order the source lists them. */
  const ImageExtensions: seq<string> := [".png", ".jpg", ".jpeg", ".webp"]

  /** ASCII lower-casing of one character; every other character is left alone. */
  function LowerChar(c: char): char {
    if 'A' <= c <= 'Z' then (c as int + ('a' as int - 'A' as int)) as char else c
  }

  /** `str.lower()` restricted to ASCII letters. */
  function Lower(s: string): (r: string)
    ensures |r| == |s|
    ensures forall i :: 0 <= i < |s| ==> r[i] == LowerChar(s[i])
  {
    if |s| == 0 then [] else [LowerChar(s[0])] + Lower(s[1..])
  }

  /** `s.endswith(suffix)`. */
  predicate EndsWith(s: string, suffix: string) {
    |suffix| <= |s| && s[|s| - |suffix|..] == suffix
  }

  /** The extension test of the scan: the lower-cased name ends with an image extension. */
  predicate IsImageName(name: string) {
    exists ext :: ext in ImageExtensions && EndsWith(Lower(name), ext)
  }

  /** Two names that differ only in the case of ASCII letters. */
  predicate SameIgnoringCase(a: string, b: string) {
    |a| == |b| && forall i :: 0 <= i < |a| ==> LowerChar(a[i]) == LowerChar(b[i])
  }

  /** Lower-casing is idempotent: its result has no ASCII capitals left. */
  lemma LowerIdempotent(s: string)
    ensures Lower(Lower(s)) == Lower(s)
  {
  }

  /** Lower-casing distributes over concatenation. */
  lemma LowerAppend(a: string, b: string)
    ensures Lower(a + b) == Lower(a) + Lower(b)
  {
  }

  /** Names agree up to ASCII case exactly when they lower-case to the same string. */
  lemma {:induction false} SameIgnoringCaseLower(a: string, b: string)
    ensures SameIgnoringCase(a, b) <==> Lower(a) == Lower(b)
  {
    if SameIgnoringCase(a, b) {
      assert forall i :: 0 <= i < |a| ==> Lower(a)[i] == Lower(b)[i];
    }
    if Lower(a) == Lower(b) {
      assert |a| == |Lower(a)| == |Lower(b)| == |b|;
      forall i | 0 <= i < |a|
        ensures LowerChar(a[i]) == LowerChar(b[i])
      {
        assert Lower(a)[i] == Lower(b)[i];
      }
    }
  }

  /** The extension test ignores case: names equal up to ASCII case get the same verdict. */
  lemma IsImageNameIgnoresCase(a: string, b: string)
    requires SameIgnoringCase(a, b)
    ensures IsImageName(a) <==> IsImageName(b)
  {
    SameIgnoringCaseLower(a, b);
  }

  /**
   * Only the tail of a name matters: a name accepted by the test is still
   * accepted with anything in front of it, which is what lets the scan judge
   * a joined path by its file name.
   */
  lemma IsImageNameSuffix(prefix: string, name: string)
    requires IsImageName(name)
    ensures IsImageName(prefix + name)
  {
    var ext :| ext in ImageExtensions && EndsWith(Lower(name), ext);
    LowerAppend(prefix, name);
    EndsWithAppend(Lower(prefix), Lower(name), ext);
  }

  /** A suffix of `b` is a suffix of `a + b`. */
  lemma EndsWithAppend(a: string, b: string, suffix: string)
    requires EndsWith(b, suffix)
    ensures EndsWith(a + b, suffix)
  {
    assert (a + b)[|a + b| - |suffix|..] == b[|b| - |suffix|..];
  }

  /** A path ending in an accepted file name is itself accepted. */
  lemma IsImageNameOfEnding(path: string, name: string)
    requires EndsWith(path, name)
    requires IsImageName(name)
    ensures IsImageName(path)
  {
    assert path == path[..|path| - |name|] + name;
    IsImageNameSuffix(path[..|path| - |name|], name);
  }

  /** A name whose last characters lower-case to an image extension is accepted. */
  lemma AcceptedByEnding(prefix: string, ending: string, ext: string)
    requires ext in ImageExtensions && Lower(ending) == ext
    ensures IsImageName(prefix + ending)
  {
    assert EndsWith(Lower(ending), ext);
    IsImageNameSuffix(prefix, ending);
  }

  /** An upper-case extension is accepted. */
  lemma AcceptsUpperCase()
    ensures IsImageName("PHOTO.JPG")
  {
    assert Lower(".JPG") == ".jpg";
    AcceptedByEnding("PHOTO", ".JPG", ".jpg");
    assert "PHOTO" + ".JPG" == "PHOTO.JPG";
  }

  /** A mixed-case extension is accepted. */
  lemma AcceptsMixedCase()
    ensures IsImageName("a.JpEg")
  {
    assert Lower(".JpEg") == ".jpeg";
    AcceptedByEnding("a", ".JpEg", ".jpeg");
    assert "a" + ".JpEg" == "a.JpEg";
  }

  /** A file named just by an extension, as a hidden file would be, is accepted. */
  lemma AcceptsBareExtension()
    ensures IsImageName(".webp")
  {
    assert Lower(".webp") == ".webp";
    assert EndsWith(".webp", ".webp");
  }

  /** An extension that is not the last one, or another extension, is rejected. */
  lemma RejectsOtherExtensions()
    ensures !IsImageName("photo.png.bak") && !IsImageName("photo.gif")
  {
    RejectedName("photo.png.bak");
    RejectedName("photo.gif");
  }

  /** The extension's letters without its dot, and the empty name, are rejected. */
  lemma RejectsWithoutDot()
    ensures !IsImageName("png") && !IsImageName("")
  {
    RejectedName("png");
    RejectedName("");
  }

  /** A name without capitals that ends with none of the extensions is rejected. */
  lemma RejectedName(name: string)
    requires forall i :: 0 <= i < |name| ==> !('A' <= name[i] <= 'Z')
    requires !EndsWith(name, ".png") && !EndsWith(name, ".jpg")
    requires !EndsWith(name, ".jpeg") && !EndsWith(name, ".webp")
    ensures !IsImageName(name)
  {
    assert Lower(name) == name;
  }
}
