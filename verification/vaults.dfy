/**
 * The local vault directory as a map from file name to content, and the two
 * bulk updates the client makes to it: writing a server snapshot and deleting
 * a selection of notes.
 */
module Vaults {
  import opened Protocol
  import opened FileNames

  type Vault = map<string, string>

  /** The names a snapshot returns. */
  function Returned(files: seq<FileData>): set<string> {
    set i | 0 <= i < |files| :: files[i].fileName
  }

  /** Entry `i` is the last one of the snapshot carrying its name. */
  predicate LastOfName(files: seq<FileData>, i: int)
    requires 0 <= i < |files|
  {
    forall j :: i < j < |files| ==> files[j].fileName != files[i].fileName
  }

  /**
   * Writes every snapshot entry in order (`Files.writeString` per `FileData`):
   * returned names take the content of their last entry, other files stay.
   */
  function MergeSnapshot(v: Vault, files: seq<FileData>): (r: Vault)
    ensures r.Keys == v.Keys + Returned(files)
    ensures forall k :: k in v && k !in Returned(files) ==> r[k] == v[k]
    ensures forall i :: 0 <= i < |files| && LastOfName(files, i) ==> r[files[i].fileName] == files[i].content
    decreases |files|
  {
    if files == [] then v
    else
      var r := MergeSnapshot(v[files[0].fileName := files[0].content], files[1..]);
      assert Returned(files) == {files[0].fileName} + Returned(files[1..]) by {
        forall k | k in Returned(files)
          ensures k == files[0].fileName || k in Returned(files[1..])
        {
          var i :| 0 <= i < |files| && files[i].fileName == k;
          if i > 0 {
            assert files[1..][i - 1].fileName == k;
          }
        }
      }
      forall i | 0 <= i < |files| && LastOfName(files, i)
        ensures r[files[i].fileName] == files[i].content
      {
        if i == 0 {
          assert files[0].fileName !in Returned(files[1..]);
        } else {
          assert files[1..][i - 1] == files[i];
          assert LastOfName(files[1..], i - 1);
        }
      }
      r
  }

  /** The files a selection of display names addresses. */
  function Targets(selected: seq<string>): set<string> {
    set i | 0 <= i < |selected| :: AddExtension(selected[i])
  }

  /** Deletes `addExtension(s)` for each selected `s`, one after another; an absent file is no error. */
  function DeleteLocally(v: Vault, selected: seq<string>): (r: Vault)
    ensures forall k :: k in r <==> k in v && k !in Targets(selected)
    ensures forall k :: k in r ==> r[k] == v[k]
    decreases |selected|
  {
    if selected == [] then v
    else
      var r := DeleteLocally(v - {AddExtension(selected[0])}, selected[1..]);
      assert Targets(selected) == {AddExtension(selected[0])} + Targets(selected[1..]) by {
        forall k | k in Targets(selected)
          ensures k == AddExtension(selected[0]) || k in Targets(selected[1..])
        {
          var i :| 0 <= i < |selected| && AddExtension(selected[i]) == k;
          if i > 0 {
            assert AddExtension(selected[1..][i - 1]) == k;
          }
        }
      }
      r
  }

  /** Deleting the same selection a second time changes nothing. */
  lemma DeleteLocallyIdempotent(v: Vault, selected: seq<string>)
    ensures DeleteLocally(DeleteLocally(v, selected), selected) == DeleteLocally(v, selected)
  {
  }

  /** A snapshot of distinct names leaves the vault a superset of it, with the server's content. */
  lemma MergeSnapshotContainsServerSet(v: Vault, files: seq<FileData>)
    requires forall i, j :: 0 <= i < j < |files| ==> files[i].fileName != files[j].fileName
    ensures forall i :: 0 <= i < |files| ==> files[i].fileName in MergeSnapshot(v, files)
    ensures forall i :: 0 <= i < |files| ==> MergeSnapshot(v, files)[files[i].fileName] == files[i].content
  {
  }
}
