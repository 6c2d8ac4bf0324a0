/**
 * Note file names: on disk every note carries the fixed ".txt" suffix, and the
 * dashboard displays it without (`removeExtension` / `addExtension`).
 */
module FileNames {

  const Suffix: string := ".txt"

  /** `fileName.endsWith(".txt")`. */
  predicate HasSuffix(s: string) {
    |Suffix| <= |s| && s[|s| - |Suffix|..] == Suffix
  }

  /** Drops the suffix when present; any other name is returned as it is. */
  function RemoveExtension(fileName: string): (r: string)
    ensures HasSuffix(fileName) ==> r + Suffix == fileName
    ensures !HasSuffix(fileName) ==> r == fileName
  {
    if HasSuffix(fileName) then fileName[..|fileName| - |Suffix|] else fileName
  }

  /** Appends the suffix unless the name already ends with it. */
  function AddExtension(fileName: string): (r: string)
    ensures HasSuffix(r)
    ensures HasSuffix(fileName) ==> r == fileName
    ensures !HasSuffix(fileName) ==> r == fileName + Suffix
  {
    if !HasSuffix(fileName) then fileName + Suffix else fileName
  }

  lemma AddExtensionIdempotent(f: string)
    ensures AddExtension(AddExtension(f)) == AddExtension(f)
  {
  }

  /** Stripping undoes adding for every name that did not already end in ".txt". */
  lemma RemoveAfterAdd(f: string)
    requires !HasSuffix(f)
    ensures RemoveExtension(AddExtension(f)) == f
  {
  }

  /** Two note files never share a display name. */
  lemma RemoveExtensionInjective(a: string, b: string)
    requires HasSuffix(a) && HasSuffix(b)
    requires RemoveExtension(a) == RemoveExtension(b)
    ensures a == b
  {
  }

  /**
   * A displayed name leads back to its file through `addExtension` exactly
   * when the file name ends in ".txt" once: for "x.txt.txt", displayed as
   * "x.txt", `addExtension` yields "x.txt", a different file.
   */
  lemma AddAfterRemove(n: string)
    ensures AddExtension(RemoveExtension(n)) == n <==> HasSuffix(n) && !HasSuffix(RemoveExtension(n))
  {
  }

  /** An example of `AddAfterRemove`: the note stored as "a.txt.txt" is addressed as "a.txt". */
  lemma DoubleSuffixAddressesOtherFile()
    ensures RemoveExtension("a.txt.txt") == "a.txt"
    ensures AddExtension(RemoveExtension("a.txt.txt")) == "a.txt"
  {
  }
}
