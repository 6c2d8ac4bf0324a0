/**
 * The dashboard's note list (`updateNoteList`): the vault's ".txt" files,
 * shown without the suffix, in ascending string order.
 */
module NoteList {
  import opened FileNames
  import opened StringOrder
  import opened Vaults

  /** The vault files the list filter accepts. */
  function NoteFiles(v: Vault): set<string> {
    set n | n in v && HasSuffix(n)
  }

  /** The display names of the accepted files. */
  function DisplayNames(v: Vault): set<string> {
    set n | n in v && HasSuffix(n) :: RemoveExtension(n)
  }

  function ListNotes(v: Vault): (r: seq<string>)
    ensures StrictlySorted(r)
    ensures forall d :: d in r <==> d in DisplayNames(v)
  {
    SortSet(DisplayNames(v))
  }

  /** Every ".txt" file is listed under its display name, and each listed name comes from such a file. */
  lemma ListNotesMembership(v: Vault, n: string)
    requires n in v
    ensures HasSuffix(n) ==> RemoveExtension(n) in ListNotes(v)
    ensures forall d :: d in ListNotes(v) ==> d + Suffix in v
  {
  }

  /** Exactly one entry per ".txt" file: the list is as long as the set of such files. */
  lemma ListNotesOnePerFile(v: Vault)
    ensures |ListNotes(v)| == |NoteFiles(v)|
  {
    DisplayNamesCount(NoteFiles(v));
    assert DisplayNames(v) == Displays(NoteFiles(v));
  }

  function Displays(files: set<string>): set<string> {
    set n | n in files :: RemoveExtension(n)
  }

  lemma {:induction false} DisplayNamesCount(files: set<string>)
    requires forall n :: n in files ==> HasSuffix(n)
    ensures |Displays(files)| == |files|
    decreases |files|
  {
    if files != {} {
      var x :| x in files;
      DisplayNamesCount(files - {x});
      assert Displays(files) == Displays(files - {x}) + {RemoveExtension(x)};
      assert RemoveExtension(x) !in Displays(files - {x});
    }
  }
}
