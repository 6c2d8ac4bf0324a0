# Jnote client core in Dafny

Jnote is a desktop note-taking client. Each user's notes live as `.txt` files in a local
vault directory `vault_<username>`. At login the client pulls a snapshot from the note
server. After that, every create, save and multi-delete is written locally first and then
sent to the server as one `FileOperation` message. This project models that core as pure
functions over an abstract client state:

- the persisted session (`Option<string>`, the `logged_in_user` preference);
- the vault directories on disk (`map<string, map<string, string>>`, folder to file name to content);
- the dashboard's note list;
- the append-only log of operations written to the server.

Modules, leaves first:

- `Wrappers`: `Option`, standing in for Java `null`.
- `FileNames`: the `.txt` suffix and the functions `removeExtension` and `addExtension`.
- `StringOrder`: Java's `String.compareTo` order, and sorting a finite set by it.
- `Protocol`: the operation kinds, the outgoing `Op`, the `Reply`, and the outcome of one round trip (`Exchange`).
- `Vaults`: a vault as a map, writing a snapshot into it, and deleting a selection from it.
- `NoteList`: the dashboard listing (`updateNoteList`).
- `Folder`: recursive `deleteFolder` over a directory tree. Its result is the sequence of `delete()` calls it issues.
- `App`: the client state machine. It covers startup and `checkSession`, login and registration field checks, `showDashboard`, `syncWithServer`, create, save, multi-delete and logout.

A round trip is an input. Its outcome is one of three:

- `WriteFailed`: the request was never written.
- `ReadFailed`: the request was written but no reply was read.
- `Answered(reply)`: a reply came back.

An operation appears in the log exactly when it was written. Local effects that the code
performs before the send always stand.

The model shows one quirk of the client. A vault file named `x.txt.txt` (which the create
dialog makes from the input `x.txt.txt.txt`) is listed as `x.txt`. Save and delete then
address `addExtension("x.txt") == "x.txt"`, which is a different file. The lemmas
`FileNames.AddAfterRemove` and `FileNames.DoubleSuffixAddressesOtherFile` state this. The
operations model the code as written.

Three behaviours of the client worth knowing; the model follows the code:

- A newly created note always gets empty content.
- No single-file `DELETE_FILE` is ever sent, because only the multi-delete button is wired.
- The note list is refreshed only where `updateNoteList` is called. After a save that writes a new file, the list stays stale. After a failed dashboard sync it stays empty.

## Model

| member | source | states |
|---|---|---|
| `FileNames.RemoveExtension` | App.java:44-49 | a name ending in ".txt" loses exactly that suffix (result + ".txt" is the name); any other name is returned unchanged |
| `FileNames.AddExtension` | App.java:51-56 | the result always ends in ".txt"; a name already ending in ".txt" is returned unchanged, any other gets ".txt" appended |
| `FileNames.AddExtensionIdempotent` | App.java:51-56 | adding the extension twice is the same as adding it once |
| `FileNames.RemoveAfterAdd` | App.java:44-56 | for a name not ending in ".txt", removing the extension after adding it gives the name back |
| `FileNames.RemoveExtensionInjective` | App.java:44-49 | two ".txt" file names with the same display name are the same file name |
| `FileNames.AddAfterRemove` | App.java:44-56 | adding the extension to a display name restores the file name if and only if the file name ends in ".txt" exactly once |
| `FileNames.DoubleSuffixAddressesOtherFile` | App.java:44-56 | the file "a.txt.txt" is displayed as "a.txt", and adding the extension to that gives "a.txt", not the original file |
| `StringOrder.LessIrreflexive` | App.java:257 | no string sorts before itself under `compareTo` order |
| `StringOrder.LessTransitive` | App.java:257 | `compareTo` order is transitive |
| `StringOrder.LessTrichotomy` | App.java:257 | any two distinct strings are ordered exactly one way |
| `StringOrder.LessMatchesCompareTo` | App.java:257 | `Less` is `compareTo < 0`: the first differing character decides, and when one string is a prefix of the other the shorter comes first |
| `StringOrder.SortSet` | App.java:257 | the result is strictly ascending and holds exactly the elements of the set, each once |
| `Protocol.Send` | App.java:294-296 | a request that could not be written leaves the log unchanged; otherwise the log gains exactly that request at its end |
| `Protocol.AcknowledgementReadsContentOnly` | App.java:299 | a reply acknowledges exactly when its content is "SUCCESS"; its kind and data are ignored, a null content is no acknowledgement, and a failed round trip never acknowledges |
| `Vaults.MergeSnapshot` | App.java:231-237 | after writing a snapshot, the vault's names are the old names plus the returned ones; each returned name holds the content of its last entry; every other file is unchanged |
| `Vaults.MergeSnapshotContainsServerSet` | App.java:231-237 | for a snapshot with distinct names, the vault afterwards holds every returned file with the server's content |
| `Vaults.DeleteLocally` | App.java:357-361 | afterwards the vault holds exactly the files it held that are not addExtension of a selected name, each with its old content |
| `Vaults.DeleteLocallyIdempotent` | App.java:357-361 | deleting the same selection twice is the same as deleting it once |
| `NoteList.ListNotes` | App.java:249-261 | the note list is strictly sorted and holds exactly the display names of the vault's ".txt" files |
| `NoteList.ListNotesMembership` | App.java:252-256 | every ".txt" file is listed under removeExtension of its name, and every listed name plus ".txt" is a vault file |
| `NoteList.ListNotesOnePerFile` | App.java:252-258 | the list has exactly as many entries as the vault has ".txt" files |
| `Folder.DeleteFolder` | App.java:394-408 | deleteFolder on a non-directory issues no delete; on a directory the last delete is the directory itself |
| `Folder.DeleteEntries` | App.java:397-405 | the loop over the listed entries only deletes paths strictly inside the folder |
| `Folder.DeleteEntry` | App.java:399-403 | one loop step deletes only paths under the entry's name, and the entry itself last |
| `Folder.DeleteFolderCoversTree` | App.java:394-408 | deleteFolder on a directory deletes exactly the paths of its tree, at every depth, including the directory itself |
| `Folder.DeleteFolderChildrenFirst` | App.java:394-408 | in a directory tree with distinct names per directory, each path is deleted before all of its ancestors and no path is deleted twice |
| `App.VaultFolder` | App.java:143 | the vault folder name is "vault_" followed by the username, so distinct users get distinct folders |
| `App.SyncWithServer` | App.java:224-247 | SYNC_REQUEST is logged once written; on a SYNC_RESPONSE each returned name takes its last returned content, all other local files stay, none is deleted, and the list is rebuilt; a null data list, another reply kind or a failed round trip leaves the vault unchanged |
| `App.SyncRequestOp` | App.java:226 | the SYNC_REQUEST carries the given username, an empty file name, a null content and no name list |
| `App.ShowDashboard` | App.java:137-146 | the session becomes the user; the folder vault_user is opened, created empty only when missing, so an existing vault's files are kept; other folders are untouched; the vault is then synced |
| `App.CheckSession` | App.java:68-75 | the dashboard is shown exactly when a session is stored, for that user; otherwise the login screen is shown and nothing else changes |
| `App.Startup` | App.java:39-41 | a freshly started client shows the dashboard exactly when a session was stored, and satisfies the dashboard invariant |
| `App.Login` | App.java:492-513 | empty fields or rejected credentials change nothing; accepted credentials open that user's dashboard |
| `App.Register` | App.java:627-658 | the dashboard opens if and only if all fields are filled, the passwords match and the name is free; otherwise nothing changes |
| `App.Trim` | App.java:314 | trimming yields the empty string exactly when every character is U+0020 or below; a non-empty result starts and ends with a character above U+0020 and is a piece of the input |
| `App.NewNoteFile` | App.java:315-319 | the file created for a typed name ends in ".txt"; a name typed without ".txt" gets it appended, a name typed with it once is kept |
| `App.CreatedNoteDisplaysAsTyped` | App.java:315-319 | a name typed without ".txt" is displayed, after creation, exactly as typed |
| `App.CreateNewFile` | App.java:312-344 | a cancelled or blank name, or an existing file, changes nothing and sends nothing; otherwise only that file is added, with content "", CREATE_FILE is logged with the session user, that name and "", and only a SUCCESS reply rebuilds the list, which then shows the note |
| `App.CreateAndSend` | App.java:321-335 | once the new file was created: only that file is added, with content ""; CREATE_FILE is logged once written; a SUCCESS reply rebuilds the list, which then shows the note, and any other outcome leaves the list as it was |
| `App.CreateOp` | App.java:325-326 | the CREATE_FILE carries the session user ("" when none), the file name and empty content, and no name list |
| `App.SaveNoteContent` | App.java:283-310 | with no selection nothing happens; otherwise addExtension(selected) maps to the text (create or replace), no other file changes, UPDATE_FILE with the same name and text is logged, and the list is not rebuilt |
| `App.UpdateOp` | App.java:294-295 | the UPDATE_FILE carries the session user ("" when none), the file name and the note's text, and no name list |
| `App.SaveIgnoresReply` | App.java:298-304 | the local write and the list do not depend on the reply or on a transport failure |
| `App.Addressed` | App.java:364-366 | the DELETE_MULTIPLE name list has the selection's length and order, each entry addExtension of the selected name |
| `App.DeleteMultipleOp` | App.java:368-370 | the DELETE_MULTIPLE carries the session user, an empty file name, a null content and the addressed names, each ending in ".txt" |
| `App.DeleteSelectedFiles` | App.java:346-383 | an empty or unconfirmed selection changes nothing; otherwise no selected file remains, all other files are unchanged, one DELETE_MULTIPLE with the addressed names is logged, and the list is rebuilt once a reply was read |
| `App.DeleteIgnoresReplyContent` | App.java:374-376 | two different replies to DELETE_MULTIPLE lead to the same client state |
| `App.DeleteStandsWithoutReply` | App.java:355-380 | the local deletions are the same whether or not a reply arrives |
| `App.DeleteSelectedTwice` | App.java:357-361 | repeating a confirmed multi-delete of the same selection leaves the vault as it was after the first |
| `App.Logout` | App.java:385-392 | the session is cleared, the login screen is shown, the open vault folder is gone, every other folder and the log are unchanged |
| `App.LogoutDeletesWholeVault` | App.java:394-408 | deleteFolder on a flat vault deletes every note and the folder itself, each once, the folder last |
| `App.LoginSnapshotScenario` | App.java:224-238 | logging in while the server returns {"a.txt": "hi"} leaves a.txt with "hi" in the vault and "a" in the list |
| `App.RelogRepopulatesVault` | App.java:385-392 | after logout, logging in as the same user rebuilds the vault from the snapshot alone: exactly the returned files, with the returned content |

## Left out

- The Swing UI is not modelled: layout, widgets, dialogs, selection events, button enabling, the text area, `loadNoteContent` and `enableEditing`. Dialog results, the selected notes and the confirmation are plain inputs.
- The JDBC lookups in `Login` and `Register` are oracles (`verify`, `taken`). A database error behaves like a rejected login or a taken name: nothing changes. The registration `INSERT` is assumed to succeed.
- The plain-text registration notice to the server (`notifyServer`) is not in the log. It goes over a separate one-shot socket and gets no reply.
- Socket setup and Java object serialization are abstracted as the `Exchange` input. A connection that failed at construction leaves `out` null, and the resulting `NullPointerException` is not modelled. Neither is a reply that is not a `FileOperation`, or whose data is not a file list.
- `FileOperation`, `FileData`, `OperationType` and the server are not part of this model. Only the fields the client sets or reads are represented, and no server behaviour is assumed.
- Local filesystem failures are not modelled: a failing `Files.writeString` part-way through a snapshot, a `delete()` that returns false, a failing `mkdir`, or names containing path separators. Every local operation is assumed to succeed, except that `createNewFile` refuses an existing file.
- A vault is modelled as flat files. Directories inside a vault appear only in the `Folder` tree used for `deleteFolder`.
- The `null` guards inside `removeExtension` and `addExtension` are not modelled, because every caller passes a non-null name.
- StringOrder.SortSet: orders by Dafny characters (Unicode scalar values), while Java compares UTF-16 code units. The two orders differ only between supplementary characters and characters from U+E000 to U+FFFF.
- Concurrency and timing are out of scope. The client is single-threaded and each call blocks until its round trip ends.
