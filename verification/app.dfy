/**
 * The note client as a state machine: the persisted session, the vault
 * directories on disk, the dashboard's note list, and the log of operations
 * written to the server. Every UI action is a pure transition; dialogs,
 * selections and server replies are its inputs.
 */
module App {
  import opened Wrappers
  import opened FileNames
  import opened Protocol
  import opened Vaults
  import opened NoteList
  import Folder

  datatype Screen = LoginScreen | Dashboard

  datatype Client = Client(
    screen: Screen,
    session: Option<string>,      // the `logged_in_user` preference
    folder: Option<string>,       // `notesFolder`, once a dashboard was shown
    disk: map<string, Vault>,     // vault directories in the working directory
    notes: seq<string>,           // the dashboard's note list model
    log: seq<Op>)                 // operations written to the server, oldest first

  const VaultPrefix: string := "vault_"

  function VaultFolder(username: string): (r: string)
    ensures |r| == |VaultPrefix| + |username|
    ensures r[..|VaultPrefix|] == VaultPrefix && r[|VaultPrefix|..] == username
  {
    VaultPrefix + username
  }

  /** On the dashboard the session names the user whose vault folder is open and present. */
  predicate Valid(c: Client) {
    c.screen == Dashboard ==>
      c.session.Some? && c.folder == Some(VaultFolder(c.session.value)) && VaultFolder(c.session.value) in c.disk
  }

  predicate OnDashboard(c: Client) {
    c.screen == Dashboard && c.folder.Some? && c.folder.value in c.disk
  }

  function CurrentVault(c: Client): Vault
    requires c.folder.Some? && c.folder.value in c.disk
  {
    c.disk[c.folder.value]
  }

  /** `prefs.get(SESSION_KEY, "")`: the username every mutation carries. */
  function SessionUser(c: Client): string {
    c.session.GetOr("")
  }

  /** Only the open vault may differ between `c` and `r`; screen, session and folder stay. */
  predicate OnlyVaultChanges(c: Client, r: Client)
    requires c.folder.Some?
  {
    && r.screen == c.screen && r.session == c.session && r.folder == c.folder
    && r.disk.Keys == c.disk.Keys
    && forall f :: f in c.disk && f != c.folder.value ==> r.disk[f] == c.disk[f]
  }

  /** `v'` agrees with `v` on every name outside `changed`, in presence and in content. */
  predicate AgreeOutside(v: Vault, v': Vault, changed: set<string>) {
    && (forall k :: k in v && k !in changed ==> k in v' && v'[k] == v[k])
    && (forall k :: k in v' && k !in changed ==> k in v)
  }

  /** The reply is a snapshot: the client writes it and refreshes the list. */
  predicate IsSnapshot(e: Exchange) {
    e.Answered? && e.reply.kind == SyncResponse
  }

  function SyncRequestOp(username: string): (op: Op)
    ensures WellShaped(op) && op.kind == SyncRequest && op.username == username
  {
    Op(SyncRequest, username, "", None, None)
  }

  /**
   * `syncWithServer`: sends SYNC_REQUEST; on a SYNC_RESPONSE writes every
   * returned file (remote content wins), never deletes a local file, and
   * refreshes the list. Any other reply, or a failed round trip, changes nothing locally.
   */
  function SyncWithServer(c: Client, username: string, e: Exchange): (r: Client)
    requires c.folder.Some? && c.folder.value in c.disk
    ensures OnlyVaultChanges(c, r)
    ensures r.log == Send(c.log, SyncRequestOp(username), e)
    ensures CurrentVault(c).Keys <= CurrentVault(r).Keys
    ensures !IsSnapshot(e) || e.reply.data.None? ==> r.disk == c.disk
    ensures !IsSnapshot(e) ==> r.notes == c.notes
    ensures IsSnapshot(e) ==> r.notes == ListNotes(CurrentVault(r))
    ensures IsSnapshot(e) && e.reply.data.Some? ==>
      var files := e.reply.data.value;
      && (forall i :: 0 <= i < |files| && LastOfName(files, i) ==>
           files[i].fileName in CurrentVault(r) && CurrentVault(r)[files[i].fileName] == files[i].content)
      && AgreeOutside(CurrentVault(c), CurrentVault(r), Returned(files))
  {
    var log := Send(c.log, SyncRequestOp(username), e);
    if IsSnapshot(e) then
      var v := CurrentVault(c);
      var v' := match e.reply.data
        case Some(files) => MergeSnapshot(v, files)
        case None => v;
      c.(disk := c.disk[c.folder.value := v'], notes := ListNotes(v'), log := log)
    else
      c.(log := log)
  }

  /**
   * `showDashboard`: persists the session, opens `vault_<username>` (creating
   * it empty only when missing), starts from an empty list and syncs.
   */
  function ShowDashboard(c: Client, username: string, e: Exchange): (r: Client)
    ensures r.screen == Dashboard && r.session == Some(username)
    ensures r.folder == Some(VaultFolder(username)) && VaultFolder(username) in r.disk
    ensures Valid(r)
    ensures r.disk.Keys == c.disk.Keys + {VaultFolder(username)}
    ensures forall f :: f in c.disk && f != VaultFolder(username) ==> r.disk[f] == c.disk[f]
    ensures VaultFolder(username) in c.disk ==> c.disk[VaultFolder(username)].Keys <= CurrentVault(r).Keys
    ensures VaultFolder(username) in c.disk && !IsSnapshot(e) ==> r.disk == c.disk
    ensures VaultFolder(username) !in c.disk && !IsSnapshot(e) ==> CurrentVault(r) == map[]
    ensures !IsSnapshot(e) ==> r.notes == []
    ensures r.log == Send(c.log, SyncRequestOp(username), e)
  {
    var folder := VaultFolder(username);
    var disk := if folder in c.disk then c.disk else c.disk[folder := map[]];
    var shown := c.(screen := Dashboard, session := Some(username), folder := Some(folder), disk := disk, notes := []);
    SyncWithServer(shown, username, e)
  }

  /** `checkSession`: a remembered user goes straight to the dashboard, anyone else to the login screen. */
  function CheckSession(c: Client, e: Exchange): (r: Client)
    ensures r.screen == Dashboard <==> c.session.Some?
    ensures c.session.Some? ==> r.session == c.session && r.folder == Some(VaultFolder(c.session.value))
    ensures c.session.None? ==> r == c.(screen := LoginScreen)
    ensures Valid(r)
  {
    match c.session
    case Some(username) => ShowDashboard(c, username, e)
    case None => c.(screen := LoginScreen)
  }

  /** The client as constructed from the stored preference and the directories on disk. */
  function Startup(stored: Option<string>, disk: map<string, Vault>, e: Exchange): (r: Client)
    ensures r.screen == Dashboard <==> stored.Some?
    ensures r.session == stored
    ensures stored.None? ==> r.log == [] && r.disk == disk
    ensures Valid(r)
  {
    CheckSession(Client(LoginScreen, stored, None, disk, [], []), e)
  }

  /**
   * The login button: empty fields are refused before the credential store is
   * asked; `verify` is that store. Success opens the dashboard.
   */
  function Login(c: Client, username: string, password: string, verify: (string, string) -> bool, e: Exchange): (r: Client)
    requires c.screen == LoginScreen
    ensures username == "" || password == "" || !verify(username, password) ==> r == c
    ensures username != "" && password != "" && verify(username, password) ==>
      r.screen == Dashboard && r.session == Some(username) && r.folder == Some(VaultFolder(username))
    ensures Valid(r)
  {
    if username == "" || password == "" then c
    else if verify(username, password) then ShowDashboard(c, username, e)
    else c
  }

  /**
   * The register button: every field must be filled, the two passwords must
   * match and the name must be free (`taken` is the credential store's lookup).
   */
  function Register(c: Client, username: string, password: string, confirm: string, taken: string -> bool, e: Exchange): (r: Client)
    requires c.screen == LoginScreen
    ensures r.screen == Dashboard <==> username != "" && password != "" && confirm != "" && password == confirm && !taken(username)
    ensures r.screen != Dashboard ==> r == c
    ensures r.screen == Dashboard ==> r.session == Some(username)
    ensures Valid(r)
  {
    if username == "" || password == "" || confirm == "" then c
    else if password != confirm then c
    else if taken(username) then c
    else ShowDashboard(c, username, e)
  }

  /** Every character is one that `String.trim()` removes (U+0020 or below). */
  predicate IsBlank(s: string) {
    forall i :: 0 <= i < |s| ==> s[i] <= ' '
  }

  /** `String.trim()`: drops every leading and every trailing character up to U+0020. */
  function Trim(s: string): (r: string)
    ensures |r| == 0 <==> IsBlank(s)
    ensures |r| > 0 ==> r[0] > ' ' && r[|r| - 1] > ' '
    ensures exists i :: 0 <= i <= |s| && r <= s[i..]
  {
    var t := TrimStart(s);
    var r := TrimEnd(t);
    assert r <= s[|s| - |t|..];
    r
  }

  function TrimStart(s: string): (r: string)
    ensures |r| <= |s| && r == s[|s| - |r|..]
    ensures forall i :: 0 <= i < |s| - |r| ==> s[i] <= ' '
    ensures |r| > 0 ==> r[0] > ' '
    decreases |s|
  {
    if |s| > 0 && s[0] <= ' ' then TrimStart(s[1..]) else s
  }

  function TrimEnd(s: string): (r: string)
    ensures |r| <= |s| && r == s[..|r|]
    ensures forall i :: |r| <= i < |s| ==> s[i] <= ' '
    ensures |r| > 0 ==> r[|r| - 1] > ' '
    decreases |s|
  {
    if |s| > 0 && s[|s| - 1] <= ' ' then TrimEnd(s[..|s| - 1]) else s
  }

  /** The file a typed name creates: any ".txt" the user added is dropped, then the suffix added. */
  function NewNoteFile(input: string): (r: string)
    ensures HasSuffix(r)
    ensures !HasSuffix(input) ==> r == input + Suffix
    ensures HasSuffix(input) && !HasSuffix(RemoveExtension(input)) ==> r == input
  {
    AddExtension(RemoveExtension(input))
  }

  function CreateOp(c: Client, file: string): (op: Op)
    ensures WellShaped(op) && op.kind == CreateFile
    ensures op.username == SessionUser(c) && op.fileName == file && op.content == Some("")
  {
    Op(CreateFile, SessionUser(c), file, Some(""), None)
  }

  /**
   * `createNewFile`: a cancelled or blank name does nothing; an existing file
   * is refused. Otherwise the empty file is created locally, then CREATE_FILE
   * is sent, and only a "SUCCESS" reply refreshes the list.
   */
  function CreateNewFile(c: Client, input: Option<string>, e: Exchange): (r: Client)
    requires OnDashboard(c)
    ensures input.None? || IsBlank(input.value) ==> r == c
    ensures input.Some? && NewNoteFile(input.value) in CurrentVault(c) ==> r == c
    ensures input.Some? && !IsBlank(input.value) && NewNoteFile(input.value) !in CurrentVault(c) ==>
      var file := NewNoteFile(input.value);
      && OnlyVaultChanges(c, r)
      && file in CurrentVault(r) && CurrentVault(r)[file] == ""
      && AgreeOutside(CurrentVault(c), CurrentVault(r), {file})
      && r.log == Send(c.log, CreateOp(c, file), e)
      && (Acknowledged(e) ==> RemoveExtension(file) in r.notes && r.notes == ListNotes(CurrentVault(r)))
      && (!Acknowledged(e) ==> r.notes == c.notes)
    ensures Valid(c) ==> Valid(r)
  {
    if input.None? || Trim(input.value) == "" then c
    else
      var file := NewNoteFile(input.value);
      if file in CurrentVault(c) then c
      else CreateAndSend(c, file, e)
  }

  /** The branch where `createNewFile()` returned true: the empty file exists, CREATE_FILE follows. */
  function CreateAndSend(c: Client, file: string, e: Exchange): (r: Client)
    requires OnDashboard(c) && HasSuffix(file) && file !in CurrentVault(c)
    ensures OnlyVaultChanges(c, r)
    ensures file in CurrentVault(r) && CurrentVault(r)[file] == ""
    ensures AgreeOutside(CurrentVault(c), CurrentVault(r), {file})
    ensures r.log == Send(c.log, CreateOp(c, file), e)
    ensures Acknowledged(e) ==> RemoveExtension(file) in r.notes
    ensures Acknowledged(e) ==> r.notes == ListNotes(CurrentVault(r))
    ensures !Acknowledged(e) ==> r.notes == c.notes
    ensures Valid(c) ==> Valid(r)
  {
    var v' := CurrentVault(c)[file := ""];
    var r := c.(disk := c.disk[c.folder.value := v'], log := Send(c.log, CreateOp(c, file), e));
    assert CurrentVault(r) == v';
    assert AgreeOutside(CurrentVault(c), v', {file});
    assert OnlyVaultChanges(c, r);
    if Acknowledged(e) then
      ListNotesMembership(v', file);
      r.(notes := ListNotes(v'))
    else r
  }

  function UpdateOp(c: Client, file: string, content: string): (op: Op)
    ensures WellShaped(op) && op.kind == UpdateFile
    ensures op.username == SessionUser(c) && op.fileName == file && op.content == Some(content)
  {
    Op(UpdateFile, SessionUser(c), file, Some(content), None)
  }

  /**
   * `saveNoteContent`: with a note selected, writes the text to
   * `addExtension(selected)` (create or replace), then sends UPDATE_FILE with
   * the same name and text. The reply decides nothing about the local file.
   */
  function SaveNoteContent(c: Client, selected: Option<string>, content: string, e: Exchange): (r: Client)
    requires OnDashboard(c)
    ensures selected.None? ==> r == c
    ensures selected.Some? ==>
      var file := AddExtension(selected.value);
      && OnlyVaultChanges(c, r)
      && file in CurrentVault(r) && CurrentVault(r)[file] == content
      && AgreeOutside(CurrentVault(c), CurrentVault(r), {file})
      && r.log == Send(c.log, UpdateOp(c, file, content), e)
      && r.notes == c.notes
    ensures Valid(c) ==> Valid(r)
  {
    match selected
    case None => c
    case Some(note) =>
      var file := AddExtension(note);
      var v' := CurrentVault(c)[file := content];
      c.(disk := c.disk[c.folder.value := v'], log := Send(c.log, UpdateOp(c, file, content), e))
  }

  /** The selection as the file names sent in DELETE_MULTIPLE, in selection order. */
  function Addressed(selected: seq<string>): (r: seq<string>)
    ensures |r| == |selected|
    ensures forall i :: 0 <= i < |selected| ==> r[i] == AddExtension(selected[i])
  {
    seq(|selected|, i requires 0 <= i < |selected| => AddExtension(selected[i]))
  }

  function DeleteMultipleOp(c: Client, selected: seq<string>): (op: Op)
    ensures WellShaped(op) && op.kind == DeleteMultiple && op.username == SessionUser(c)
    ensures op.fileNames.value == Addressed(selected)
    ensures forall i :: 0 <= i < |selected| ==> HasSuffix(op.fileNames.value[i])
  {
    Op(DeleteMultiple, SessionUser(c), "", None, Some(Addressed(selected)))
  }

  /**
   * `deleteSelectedFiles`: with a non-empty, confirmed selection, deletes each
   * selected file locally, sends one DELETE_MULTIPLE with all their names,
   * and refreshes the list once any reply was read, whatever it says.
   */
  function DeleteSelectedFiles(c: Client, selected: seq<string>, confirmed: bool, e: Exchange): (r: Client)
    requires OnDashboard(c)
    ensures selected == [] || !confirmed ==> r == c
    ensures selected != [] && confirmed ==>
      && OnlyVaultChanges(c, r)
      && (forall i :: 0 <= i < |selected| ==> AddExtension(selected[i]) !in CurrentVault(r))
      && AgreeOutside(CurrentVault(c), CurrentVault(r), Targets(selected))
      && r.log == Send(c.log, DeleteMultipleOp(c, selected), e)
      && (e.Answered? ==> r.notes == ListNotes(CurrentVault(r)))
      && (!e.Answered? ==> r.notes == c.notes)
    ensures Valid(c) ==> Valid(r)
  {
    if selected == [] || !confirmed then c
    else
      var v' := DeleteLocally(CurrentVault(c), selected);
      var r := c.(disk := c.disk[c.folder.value := v'], log := Send(c.log, DeleteMultipleOp(c, selected), e));
      if e.Answered? then r.(notes := ListNotes(v')) else r
  }

  /** `logout`: forgets the session and removes the open vault folder from disk. */
  function Logout(c: Client): (r: Client)
    requires c.screen == Dashboard && c.folder.Some?
    ensures r.screen == LoginScreen && r.session == None
    ensures c.folder.value !in r.disk
    ensures forall f :: f in c.disk && f != c.folder.value <==> f in r.disk
    ensures forall f :: f in r.disk ==> r.disk[f] == c.disk[f]
    ensures r.log == c.log
    ensures Valid(r)
  {
    c.(screen := LoginScreen, session := None, disk := c.disk - {c.folder.value})
  }

  /** A name typed without ".txt" is listed, after creation, exactly as typed. */
  lemma CreatedNoteDisplaysAsTyped(input: string)
    requires !HasSuffix(input)
    ensures RemoveExtension(NewNoteFile(input)) == input
  {
  }

  /** Saving writes the same local file whatever happens on the wire. */
  lemma SaveIgnoresReply(c: Client, selected: Option<string>, content: string, e1: Exchange, e2: Exchange)
    requires OnDashboard(c)
    ensures SaveNoteContent(c, selected, content, e1).disk == SaveNoteContent(c, selected, content, e2).disk
    ensures SaveNoteContent(c, selected, content, e1).notes == SaveNoteContent(c, selected, content, e2).notes
  {
  }

  /** The content of the reply to DELETE_MULTIPLE is never looked at. */
  lemma DeleteIgnoresReplyContent(c: Client, selected: seq<string>, confirmed: bool, r1: Reply, r2: Reply)
    requires OnDashboard(c)
    ensures DeleteSelectedFiles(c, selected, confirmed, Answered(r1)) == DeleteSelectedFiles(c, selected, confirmed, Answered(r2))
  {
  }

  /** Local deletion does not wait for the server: it stands even when no reply arrives. */
  lemma DeleteStandsWithoutReply(c: Client, selected: seq<string>, r1: Reply)
    requires OnDashboard(c)
    ensures DeleteSelectedFiles(c, selected, true, ReadFailed).disk == DeleteSelectedFiles(c, selected, true, Answered(r1)).disk
  {
  }

  /** Deleting the same selection again leaves the vault as it is. */
  lemma DeleteSelectedTwice(c: Client, selected: seq<string>, e1: Exchange, e2: Exchange)
    requires OnDashboard(c)
    ensures var once := DeleteSelectedFiles(c, selected, true, e1);
      OnDashboard(once) && DeleteSelectedFiles(once, selected, true, e2).disk == once.disk
  {
    var once := DeleteSelectedFiles(c, selected, true, e1);
    if selected != [] {
      var f := c.folder.value;
      var v1 := DeleteLocally(CurrentVault(c), selected);
      assert once.disk == c.disk[f := v1];
      DeleteLocallyIdempotent(CurrentVault(c), selected);
      assert DeleteLocally(v1, selected) == v1;
      var twice := DeleteSelectedFiles(once, selected, true, e2);
      assert twice.disk == once.disk[f := v1];
    }
  }

  /** A flat vault folder as a directory tree, its files in `listing` order. */
  function VaultTree(listing: seq<string>): (t: Folder.Node)
    ensures t.Dir? && |t.entries| == |listing|
    ensures forall i :: 0 <= i < |listing| ==> t.entries[i] == Folder.Entry(listing[i], Folder.File)
  {
    Folder.Dir(seq(|listing|, i requires 0 <= i < |listing| => Folder.Entry(listing[i], Folder.File)))
  }

  /**
   * What `logout`'s `deleteFolder(notesFolder)` does to a vault listed in any
   * order: every note and the folder itself are deleted, each once, and the
   * folder last, when it is already empty.
   */
  lemma LogoutDeletesWholeVault(v: Vault, listing: seq<string>)
    requires forall i, j :: 0 <= i < j < |listing| ==> listing[i] != listing[j]
    requires forall k :: k in v <==> k in listing
    ensures var ps := Folder.DeleteFolder(VaultTree(listing));
      && (forall p :: p in ps <==> p == [] || (|p| == 1 && p[0] in v))
      && Folder.Orderly(ps)
      && |ps| > 0 && ps[|ps| - 1] == []
  {
    var t := VaultTree(listing);
    assert Folder.WellFormed(t);
    Folder.DeleteFolderCoversTree(t);
    Folder.DeleteFolderChildrenFirst(t);
    forall p
      ensures Folder.Contains(t, p) <==> p == [] || (|p| == 1 && p[0] in v)
    {
      if p != [] && Folder.Contains(t, p) {
        var i :| 0 <= i < |t.entries| && t.entries[i].name == p[0] && Folder.Contains(t.entries[i].node, p[1..]);
        assert p[1..] == [];
      }
      if |p| == 1 && p[0] in v {
        var i :| 0 <= i < |listing| && listing[i] == p[0];
        assert t.entries[i].name == p[0] && Folder.Contains(t.entries[i].node, p[1..]);
      }
    }
  }

  /** Logging in while the server holds {"a.txt": "hi"} leaves note "a" with text "hi". */
  lemma LoginSnapshotScenario(c: Client, verify: (string, string) -> bool)
    requires c.screen == LoginScreen
    requires verify("U", "P")
    ensures var r := Login(c, "U", "P", verify, Answered(Reply(SyncResponse, None, Some([FileData("a.txt", "hi")]))));
      && OnDashboard(r)
      && "a.txt" in CurrentVault(r) && CurrentVault(r)["a.txt"] == "hi"
      && "a" in r.notes
  {
    var files := [FileData("a.txt", "hi")];
    var r := Login(c, "U", "P", verify, Answered(Reply(SyncResponse, None, Some(files))));
    assert LastOfName(files, 0);
    assert HasSuffix("a.txt") && RemoveExtension("a.txt") == "a" by {
      assert "a.txt"[..1] == "a";
    }
    ListNotesMembership(CurrentVault(r), "a.txt");
  }

  /** After logout, logging in again rebuilds the vault from the snapshot alone. */
  lemma RelogRepopulatesVault(c: Client, password: string, verify: (string, string) -> bool, files: seq<FileData>)
    requires Valid(c) && c.screen == Dashboard
    requires c.session.value != "" && password != "" && verify(c.session.value, password)
    requires forall i, j :: 0 <= i < j < |files| ==> files[i].fileName != files[j].fileName
    ensures var r := Login(Logout(c), c.session.value, password, verify, Answered(Reply(SyncResponse, None, Some(files))));
      && OnDashboard(r)
      && CurrentVault(r).Keys == Returned(files)
      && forall i :: 0 <= i < |files| ==> CurrentVault(r)[files[i].fileName] == files[i].content
  {
  }
}
