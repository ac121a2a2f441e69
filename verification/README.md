# backup-email, modelled in Dafny

backup-email copies the folders of an IMAP account into local mbox files. The
model covers its core, which has two generations:

- The **incremental sync** (`utils/`) handles each folder the server LISTs:
  - it parses the LIST line into a folder descriptor;
  - it skips folders whose special-use flags are excluded;
  - it compares the UIDVALIDITY/UIDNEXT pair the server reports on SELECT with the pair stored in the folder's JSON config;
  - only when the pair changed does it reconcile the folder's mbox with the server and then store the new pair.

  Reconciliation works as follows:
  - it indexes the mbox by Message-Id;
  - it walks the server's message list, confirming known identities and fetching unknown messages;
  - it removes every indexed record left unconfirmed;
  - finally it flushes the file.
- **`utils/imap_folder.py`** is an earlier variant of the same reconciliation. It has no config gate and uses one flat mbox file per folder.
- **`backup-email.py`** is the original full backup. It clears the folder's flat mbox and appends every message of the folder.

Everything is written as pure functions:
- A remote folder is a `Sync.Session`: the SEARCH reply, plus the replies a header fetch and a full fetch would give for each reference.
- The local files are a `Folder.Disk`, a map from paths to mbox contents and to config objects.
- An exception is a `Base.Result` value `Raised(message)`.

The modules are:

- `Base`: options, server replies, results, and `checkResponse`.
- `Text`: the Python string operations the code relies on, with Python's edge cases. These are `find`, negative-bound slicing, `split()`, `split(sep)`, `replace` and POSIX `os.path.join`.
- `MessageIds`: the `<…>` slice taken from a Message-Id header reply.
- `Archive`: `mailbox.mbox` as the code uses it.
  - An `add` is written to the file at once.
  - A `remove` or `clear` only marks records; the file is rewritten on `flush`.
  - `Contents` is what a flush writes; `Written` is the file before any flush.
- `Sync`: `utils/sync.py`, which covers index building, the add phase, the removal phase and the whole pass.
- `SyncAdd` and `SyncTheorems`: what the add phase and a whole pass over a file opened from disk guarantee.
- `Config`: `utils/config.py`.
- `FolderInfo`: the LIST-line parser shared by all three generations. The pattern `\((?P<flags>[\S ]*)\) (?P<delim>[\S]+) (?P<name>.+)` is modelled with `re.search`'s match preference: leftmost start, then greedy groups with backtracking. The module also holds the folder filter and the flat file name of the older variants.
- `Folder`: `utils/folder.py`, covering local paths, the SELECT gate and one folder's sync.
- `ImapFolder`: `utils/imap_folder.py`.
- `LegacyBackup`: `backup-email.py`.

## Model

| member | source | states |
|---|---|---|
| Base.CheckResponse | utils/imap.py:3-5 | raises exactly when the status is not "OK", with the message "Error calling <command>" |
| Text.Find | utils/sync.py:17-18 | `bytes.find` of one character: -1 exactly when it is absent, otherwise the position of its first occurrence |
| Text.PySlice | utils/sync.py:19 | Python slicing with bounds in range: they give the plain slice, and a stop at or before the start gives an empty result |
| Text.PySliceFromEnd | utils/sync.py:19 | a negative start or stop counts from the end, so `s[-1:]` is the last element and `s[1:-1]` drops the first and last; a bound beyond either end is clamped to it |
| Text.Split | utils/sync.py:53 | `split()`: every piece is a non-empty run without whitespace, and a string with no whitespace splits into itself |
| Text.SplitKeepsText | utils/sync.py:53 | `split()` drops only whitespace: the pieces written one after another are the input with its whitespace taken out |
| Text.SplitGaps | utils/sync.py:53 | the whitespace `split()` drops: runs of whitespace, non-empty between two pieces, that rebuild the input when put back around the pieces |
| Text.SplitOfGaps | utils/sync.py:53 | conversely, words laid out between such whitespace runs split back into exactly those words |
| Text.SplitJoin | utils/sync.py:53 | splitting words joined by single spaces gives the words back |
| Text.IndexOf | utils/folder.py:12 | `str.find` of a pattern: -1 exactly when it does not occur, otherwise its first occurrence |
| Text.SplitOn | utils/folder.py:12 | `split(sep)`: at least one piece, no piece contains the separator, and joining the pieces with it rebuilds the string |
| Text.SplitOnLeftmost | utils/folder.py:12 | `split(sep)` cuts at the leftmost occurrence first: one piece exactly when the separator is absent, and otherwise the first piece ends where the leftmost occurrence starts and the remaining pieces are the split of the text after it |
| Text.SplitOnFirst | utils/folder.py:12 | a name splits at the first occurrence of a one-character separator, the head followed by the split of the rest |
| Text.Replace | utils/imap_folder.py:28 | `str.replace`: a target that does not occur leaves the text as it is; a one-character target becomes the one-character replacement position by position; an empty target puts a one-character replacement before every character and at the end |
| Text.ReplaceRemovesChar | utils/imap_folder.py:28 | replacing a one-character target by text without it leaves no occurrence of the target |
| Text.PathJoin | utils/folder.py:13 | POSIX `os.path.join` of two parts: an absolute second part replaces the first; otherwise the second is appended, after one `/` unless the first is empty or already ends in `/` |
| Text.PathJoinAll | utils/folder.py:13 | `os.path.join(root, *parts)`: no parts give the root; components that neither start nor end in `/` joined onto a root not ending in `/` give the root, `/`, and the components separated by `/` |
| MessageIds.ExtractId | utils/sync.py:17-19 | the slice is no longer than the header, and is empty when the header has no `>` |
| MessageIds.BracketedToken | utils/sync.py:17-19 | with a `<` before the first `>`, the identity is the text from that `<` through the first `>`, bracketed, with no other `>` |
| MessageIds.MsgIdRoundTrip | utils/sync.py:16-19 | a header `prefix<token>suffix` with no bracket in the prefix and no `>` in the token yields `<token>` |
| MessageIds.LoneClosingBracket | utils/sync.py:17-19 | a header with no `<` whose only `>` is its last character yields ">", because the slice starts from index -1 |
| MessageIds.NoOpeningBracket | utils/sync.py:17-19 | a header with a `>` but no `<` yields ">" when its first `>` is its last character and "" otherwise, so every such header that still ends in a line break gets the identity "" |
| MessageIds.ClosingBeforeOpening | utils/sync.py:17-19 | a `>` before every `<` yields the empty identity |
| Archive.Open | utils/sync.py:59 | opening a file gives one live record per message, keyed 0, 1, … in file order, and changes nothing on disk |
| Archive.Add | utils/sync.py:40 | an added message gets the next key, earlier records are kept, and it is both appended to the file and included in what flush writes |
| Archive.Remove | utils/sync.py:48 | `remove` raises exactly when the key is absent or already removed; otherwise only that key disappears, and no message changes in the file until the flush |
| Archive.Clear | backup-email.py:42 | after `clear` no key is present and flush writes nothing, while the file is unchanged until the flush |
| Archive.FlushAfterOpen | utils/sync.py:59-63 | flushing a freshly opened file writes the same file back |
| Archive.FlushWithoutRemovals | utils/sync.py:63 | with no record removed, flush writes exactly what is already in the file |
| Sync.GetImapIds | utils/sync.py:50-55 | raises exactly when SEARCH fails; the references are non-empty tokens without whitespace |
| Sync.ImapIdsRoundTrip | utils/sync.py:50-55 | a SEARCH reply listing well-formed references space-separated is read back as exactly those references |
| Sync.GetMessageId | utils/sync.py:13-19 | raises exactly when the header fetch fails; otherwise returns the bracketed slice of the reply |
| Sync.CreateMsgsInfo | utils/sync.py:21-25 | the index has an entry exactly for each identity of a live record; every entry is unconfirmed and names the last record with its identity |
| Sync.IndexTracks | utils/sync.py:21-25 | a fresh index agrees with the archive: each entry names a live record, and no two entries name the same one |
| Sync.Step | utils/sync.py:29-41 | one reference stops the pass exactly when its header fetch fails or it is new and its full fetch fails. A known identity is only confirmed. A new one is appended under the next key and indexed as confirmed. Other entries are unchanged. |
| Sync.AddMissing | utils/sync.py:27-41 | completed or stopped, the add phase only appends live records, and it appends one per fetched reference |
| Sync.RemoveUnwanted | utils/sync.py:43-48 | every unconfirmed entry's record is removed. Confirmed entries' records stay when the index agrees with the archive. Records the index does not name are untouched. |
| Sync.SyncMailbox | utils/sync.py:57-64 | a failed SEARCH aborts with the archive untouched; any abort leaves the archive only extended |
| SyncAdd.AddedRecords | utils/sync.py:29-41 | after the add phase the archive is the old archive followed by one live record per fetched reference, holding its body, in fetch order |
| SyncAdd.AddedIndex | utils/sync.py:29-41 | the index afterwards holds the old identities and every remote identity. An entry is confirmed iff its identity is remote or was confirmed before. Old entries keep their record. New entries name appended records. Agreement with the archive is preserved. |
| SyncAdd.AddedFetches | utils/sync.py:32-40 | only listed references with an unindexed identity are fetched, no identity twice, and every unindexed remote identity is fetched |
| SyncAdd.StepFetches | utils/sync.py:32-40 | one step fetches its reference exactly when its identity is not indexed, and then indexes it |
| SyncAdd.HaltCause | utils/sync.py:31-37 | the add phase stops only at a reference whose header fetch or full fetch failed |
| SyncAdd.AllFetchesSucceed | utils/sync.py:31-37 | when every fetch succeeds the add phase completes |
| SyncAdd.NothingNewNothingFetched | utils/sync.py:32-33 | when every remote identity is already indexed, nothing is fetched and the archive is unchanged |
| SyncTheorems.OpenedIndex | utils/sync.py:21-25 | the index of an opened file has exactly the file's identities, none confirmed, and names record k exactly when no later record shares its identity |
| SyncTheorems.UnwantedAfterAdd | utils/sync.py:43-48 | the keys removed are exactly the file's records that the index names and whose identity the server does not list |
| SyncTheorems.SyncedRecords | utils/sync.py:57-63 | after a completed pass each old record keeps its place and survives iff a later record shadows it or the server lists its identity; the fetched messages follow, live, in fetch order |
| SyncTheorems.Convergence | utils/sync.py:57-63 | after a completed pass the index covers local and remote identities, and an indexed record is still present exactly when the server lists its identity |
| SyncTheorems.FetchedIdentities | utils/sync.py:32-40 | a pass fetches exactly the listed identities the file lacks, each once |
| SyncTheorems.FlushedFile | utils/sync.py:57-64 | the flushed file is the surviving old records in their old order, followed by the fetched messages in fetch order |
| SyncTheorems.EmptyRemotePurges | utils/sync.py:43-48 | an empty listing completes, fetches nothing and removes every record the index names, so only shadowed records remain |
| SyncTheorems.AllRepliesOk | utils/sync.py:57-64 | a pass completes whenever SEARCH and every header and full fetch succeed |
| SyncTheorems.AbortCause | utils/sync.py:57-64 | a pass aborts only if SEARCH failed or some listed message could not be fetched |
| SyncTheorems.AbortKeepsFile | utils/sync.py:40 | after an abort the file still starts with its old records, followed by what was appended; no removal is pending |
| SyncTheorems.ListingOrderIrrelevant | utils/sync.py:29-33 | listings with the same references give the same remote identities, whatever their order or repetition |
| SyncTheorems.RemoveInOrderAgrees | utils/sync.py:45-48 | the removal loop never raises on an index that agrees with the archive, and removes exactly the unconfirmed records, whatever the dictionary's iteration order |
| SyncTheorems.RemovalNeverRaises | utils/sync.py:43-48 | in a completed pass the removal loop, in any order over the index, succeeds and leaves the archive the pass reports |
| SyncTheorems.RemoteCoveredAfterSync | utils/sync.py:57-64 | if each fetched body carries the identity its header showed, every remote identity is in the flushed file |
| SyncTheorems.SecondPassFetchesNothing | utils/sync.py:57-64 | under the same assumption, a second pass over the flushed file against the same server fetches nothing |
| Config.ConfigPath | utils/config.py:22 | the config path ends with the config file name, and starts with the folder directory unless the name is absolute |
| Config.Load | utils/config.py:23-28 | no file gives the empty pair. A file loads exactly when both keys are there, with their values. A missing key raises KeyError. |
| Config.Open | utils/config.py:20-28 | the config is bound to the folder's config path, is empty when no file exists there, raises exactly when the stored object lacks a key, and otherwise holds the stored `uidNext` and `uidValidity` values |
| Config.ToJson | utils/config.py:35-37 | the stored object has exactly the keys `uidNext` and `uidValidity` |
| Config.Write | utils/config.py:35-37 | writing stores the pair at the config path so that it loads back, and no other file changes |
| Config.WriteThenLoad | utils/config.py:35-37 | a written pair loads back unchanged |
| Config.UpdateUids | utils/config.py:39-41 | the pair becomes the given values and the path is kept |
| FolderInfo.MatchTailSound | utils/folder_info.py:34-35 | the tail `\) delim name` matches at a position iff a match is reported there: the delimiter is the whole run of non-whitespace, and the name is the longest possible |
| FolderInfo.BestCloseSound | utils/folder_info.py:34-35 | from a `(`, backtracking picks the rightmost `)` inside the flags run after which the tail matches; with no such `)` there is no match from that `(` |
| FolderInfo.SearchFromSound | utils/folder_info.py:35 | the search from a position reports the leftmost match at or after it with the longest groups, or none when no match starts there or later |
| FolderInfo.Search | utils/folder_info.py:35 | a reported match has its `(` before its `)` and its groups inside the line |
| FolderInfo.SearchSound | utils/folder_info.py:34-35 | `re.search` reports a match of the pattern when the line holds one, and none otherwise |
| FolderInfo.SearchPreferred | utils/folder_info.py:34-35 | the reported match starts leftmost and, among matches starting there, has the longest groups in pattern order |
| FolderInfo.TrimQuote | utils/folder_info.py:45-48 | one pair of surrounding quotes is dropped, a lone `"` becomes empty, and anything else is kept |
| FolderInfo.TrimQuoted | utils/folder_info.py:45-48 | a quoted text trims back to the text |
| FolderInfo.Describe | utils/folder_info.py:32-43 | parsing raises AttributeError exactly when the search reports no match. Otherwise the descriptor is valid and has no local paths, and its flags are non-empty whitespace-free words. |
| FolderInfo.DescribeRaises | utils/folder_info.py:35-39 | parsing raises exactly when the pattern matches nowhere in the line |
| FolderInfo.DescribeMatch | utils/folder_info.py:34-43 | for the match of the pattern that `re.search` prefers (leftmost, then longest groups), the descriptor is that match's `Groups`: the flags are its flags group split on whitespace, and the delimiter and the name are its groups with quotes trimmed |
| FolderInfo.DescribeDelimiter | utils/folder_info.py:34-42 | the delimiter is a non-empty whitespace-free run of the line with at most its quotes dropped |
| FolderInfo.ParseRendered | utils/folder_info.py:32-43 | a LIST line built from well-formed flags, delimiter and name parses back to exactly those, with quotes trimmed |
| FolderInfo.DocumentedExample | utils/folder_info.py:33-43 | the documented line `(\HasChildren) "/" "folder_name"` parses to name `folder_name`, delimiter `/` and the one flag |
| FolderInfo.NoFlags | utils/folder_info.py:43 | an empty flag list `()` parses to no flags |
| FolderInfo.GreedyFlags | utils/folder_info.py:34-35 | the greedy flags group stretches to the last `)`: `() / x) y z` gives delimiter `y` and name `z` |
| FolderInfo.SetFileNames | utils/folder_info.py:50-53 | the local paths are recorded and the server-side fields are kept |
| FolderInfo.FlatMboxPath | utils/imap_folder.py:27-29 | the flat file lies directly under the root and ends in `.mbox`. A name without the delimiter is used as is. With a one-character delimiter the file name is the folder name with each delimiter turned into `_`, so a delimiter other than `_` no longer appears in it. Delimiters of other lengths are stated by `FolderInfo.FlatDelimiterReplaced`. |
| FolderInfo.FlatDelimiterReplaced | utils/imap_folder.py:28 | `name.replace(delim, '_')` for a delimiter of any length: each non-overlapping occurrence, found leftmost first, becomes `_`; an empty delimiter puts `_` before every character of the name and after the last one |
| FolderInfo.FlatNilDelimiter | utils/imap_folder.py:9-28 | a `NIL` delimiter, which the `delim` group takes unquoted, is cut out of a folder name that spells it: `UNILATERAL` is stored as `U_ATERAL.mbox` |
| FolderInfo.FlatNamesDistinct | utils/imap_folder.py:28-29 | when no folder name holds `_`, two folders with the same one-character delimiter share a flat file exactly when their names are equal |
| FolderInfo.FlatNamesCollide | utils/imap_folder.py:28-29 | with delimiter `/`, the folders `a/b` and `a_b` share one flat mbox file |
| Folder.SetFileFoldersNames | utils/folder.py:11-16 | an empty delimiter raises ValueError. Otherwise all but the last name component become directories under the root, the last names the `.mbox` and `.config` files, and the server-side fields are kept. |
| Folder.TwoLevelName | utils/folder.py:11-16 | `parent<d>child` keeps its files in `root/parent`, named after the child |
| Folder.DistinctFiles | utils/folder.py:13-15 | a folder's mbox file and config file are different paths |
| Folder.SelectFolder | utils/folder.py:18-30 | a failed SELECT raises before any comparison. The folder counts as changed iff either token differs. A change adopts the server's pair; otherwise the config is kept. |
| Folder.SyncFile | utils/sync.py:57-64 | a failed SEARCH raises before the mbox is opened and touches no file. Otherwise the file exists afterwards and no other file changes. A completed pass leaves what its flush writes; an aborted one leaves the old contents as a prefix. |
| Folder.SyncFolder | utils/folder.py:32-40 | an unchanged folder leaves every file alone. A changed one gets its mbox reconciled and then the new pair stored. Only the folder's mbox file can change among the mbox files, and a failed SEARCH changes none. A failure never stores the pair and leaves the old file contents as a prefix. On a changed pass only the folder's config file is added or replaced; every other config file is kept. |
| Folder.UnchangedFolderUntouched | utils/folder.py:25-30 | with matching tokens the folder's messages are never looked at and no file changes |
| Folder.SyncFolderIdempotent | utils/folder.py:32-40 | handling a folder again against the same server state reports no change and touches nothing |
| Folder.ProcessFolder | utils/folder.py:42-52 | an unparsable line raises and an excluded flag skips the folder; otherwise its paths are set and it is synced |
| ImapFolder.SyncFolder | utils/imap_folder.py:26-36 | only the flat mbox file can change, and a failed SEARCH changes nothing. Otherwise the file exists afterwards. It is the flushed pass when the pass completes; otherwise it keeps the old contents as a prefix. |
| ImapFolder.ProcessFolder | utils/imap_folder.py:39-48 | an unparsable line raises; a folder is skipped exactly when it carries an excluded flag; otherwise it is synced |
| ImapFolder.AlwaysReconciled | utils/imap_folder.py:26-48 | with no config gate, an included folder whose replies all succeed is always reconciled |
| LegacyBackup.RetrieveMessageIds | backup-email.py:33-38 | raises "Error calling retrieve mails" exactly when SEARCH fails; the references are non-empty tokens without whitespace |
| LegacyBackup.MessageIdsRoundTrip | backup-email.py:33-38 | a listing of well-formed references is read back as exactly those |
| LegacyBackup.FetchAll | backup-email.py:43-49 | every message is appended in order when all fetches succeed. Otherwise it stops at the first failing one, with exactly the earlier messages appended. |
| LegacyBackup.SaveMailbox | backup-email.py:40-51 | a completed save leaves exactly the folder's messages in order. An interrupted one leaves the old file followed by the messages fetched before the failure, because `clear` is only applied on close. |
| LegacyBackup.SaveFolder | backup-email.py:53-63 | only the flat mbox file can change; a failed SEARCH changes nothing; a completed save writes exactly the listed messages; an interrupted one leaves the old file followed by the messages of the first listed references, all fetched successfully, up to one whose fetch failed |
| LegacyBackup.ProcessFolder | backup-email.py:65-73 | an unparsable line raises; a folder is skipped exactly when it carries an excluded flag; otherwise it is backed up |
| LegacyBackup.BackupForgetsOldContent | backup-email.py:40-63 | two full backups of the same folder leave the same file, whatever it held before |

## Behaviour that departs from the tool's purpose

The model follows the code in each case below, although the code's comments and
the tool's purpose suggest something else.

- **Duplicate identities.** `_createMsgsInfo` keeps only the last record of each Message-Id (`utils/sync.py:23-24`). Earlier records with the same identity are never confirmed and never removed. A pass therefore does not collapse local duplicates, although a mirror of the server would hold one copy. Remote identities are always `Some`, so the last record without a Message-Id is always removed, while earlier ones are kept. See `SyncTheorems.SyncedRecords` and `Shadowed`.
- **Incomplete config.** A config file that lacks `uidNext` or `uidValidity` raises KeyError (`utils/config.py:26`) instead of counting as having no stored state.
- **Unparsable LIST line.** Such a line sets `valid = False` and then raises AttributeError on `groupdict()` (`utils/folder_info.py:36-39`), although the `valid` flag and the check at `utils/folder.py:45` are there to skip the folder. So every descriptor actually built is valid, and a bad line stops the run.
- **Identity resolution.** Identities are fetched one header at a time. The first failing fetch aborts the pass; it does not skip the message.
- **Missing brackets.** A header lacking `<` or `>` does not give "no identity". It gives a Python slice such as "" or ">". That is `Some(…)`, so it never matches a local record without a Message-Id. The fetched reply ends in a blank line (`utils/sync.py:16`), so a `>` is never its last character and a header with no `<` yields "" (`MessageIds.NoOpeningBracket`). All such messages then share one identity, and `_createMsgsInfo` keeps only the last of them.
- **Root directory read at import.** `utils/folder.py:9` reads `LOCAL_MBOX_FOLDER` when the module is imported (`backup_email.py:6`), before `main` calls `load_dotenv()` (`backup_email.py:13`). When the variable is set only in `.env`, `main` still creates the directory (`backup_email.py:20-21`), but the module's copy is `None`. `os.path.join` then raises TypeError for every folder (`utils/folder.py:13`). The model takes the root as a parameter, so it describes the case where the variable is already set in the process environment.
- **Greedy flags group.** `[\S ]*` can run past the first `)` (`FolderInfo.GreedyFlags`).
- **SELECT status.** `utils/imap_folder.py` and `backup-email.py` do not check the SELECT status.

## Left out

- Real IMAP traffic is not modelled. A folder's replies are data instead: SELECT's status and its UIDVALIDITY and UIDNEXT codes are the fields of `Folder.Server`; the SEARCH reply and the header and full fetch replies are the fields of `Sync.Session`; one LIST reply line is the `line` parameter of each `ProcessFolder`. LOGIN happens in `main`, which is left out.
- `mail.close()` (`utils/folder.py:39`, `utils/imap_folder.py:34`, `backup-email.py:62`) is not modelled: it only ends the selection on the server and changes no local file.
- The mbox byte format and Message-Id header parsing are not modelled. A stored message carries its header value as `messageId`.
- UTF-8 decoding of server bytes is not modelled. Text is already `string`, and `bytes.split()` is modelled by its whitespace set `ByteSpace`.
- Environment variables are not read. `LOCAL_MBOX_FOLDER` is the `root` parameter, which assumes the variable was set before `utils/folder.py` was imported (see "Root directory read at import").
- `Config._checkFolder` is left out (`utils/config.py:31-33`), as are the directory creation in `main`, `os.path.isfile` and `os.path.isdir`. A path is simply present or absent in `Disk`.
- The JSON encoding is left out: indentation, non-ASCII output, and non-string values.
- Logging and `print` are left out; they have no effect on the files.
- `main` (`backup-email.py:75-92`) and the entry script `backup_email.py` are left out. They log in and loop `processFolder` over the LIST reply, and each folder's handling is modelled on its own.
- The `existsInMBox` field of `MailSyncInfo` (`utils/sync.py:9`) is left out; nothing reads it.
- A missing mbox file reads as an empty one (`Folder.Stored`); the model does not tell an empty file from a missing one except by the presence of its path in `Disk`, which `mailbox.mbox` adds once SEARCH has succeeded.
- The exception message of an aborted pass is not kept by `Sync.SyncMailbox`, only the fact that it aborted.
- Python's buffering of appended messages is not modelled. An append is taken to reach the file at once.
- PySlice: its own contract covers bounds in range; the negative and clamped bounds that `msgId[l:r+1]` and `name[1:-1]` rely on are stated by `Text.PySliceFromEnd`, kept out of the function's contract so that every identity computed in a proof does not carry them.
- Split: its own contract says what each piece is; that no text other than whitespace is dropped, and where the pieces sit, are stated by `Text.SplitKeepsText`, `Text.SplitGaps` and `Text.SplitOfGaps`, kept apart for the same reason.
- Replace: the result is stated for a target that does not occur, for a one-character target with a one-character replacement, and for an empty target with a one-character replacement; for a longer target with the replacement `_`, the only use the program makes of it, the result is stated through `SplitOn` by `FolderInfo.FlatDelimiterReplaced`. A replacement other than one character is only the `split`/`join` definition, since the program always replaces by `_`.
- PathJoinAll: the result is stated for no parts and for components that neither start nor end in `/` on a root that does not end in `/`; empty or absolute components, which `os.path.join` also accepts, are only covered by the two-part `PathJoin`.
- SplitOn: its own contract says what the pieces are; that it cuts at the leftmost occurrence first is stated by `Text.SplitOnLeftmost`, kept apart because the folder-name proofs unfold `SplitOn` and do not need it.
- ExtractId: its own contract covers the header without `>`; the header with `>` but no `<` is stated by `MessageIds.NoOpeningBracket`, kept apart for the same reason as PySlice.
- FlatMboxPath: its own contract states the one-character delimiter; delimiters of other lengths, such as `NIL` or a quoted `\\` that `_trimQuote` does not unescape, are stated by `FolderInfo.FlatDelimiterReplaced`, kept apart so that the proofs about the files a pass writes do not carry them.
- FolderInfo.Excluded is a plain predicate for the `any(...)` filter and has no contract of its own.
