# Unzip bot core, modelled in Dafny

The bot takes ZIP archives from Telegram users, checks them against size and
count limits, and unpacks them into a per-user directory. It then reports the
written files, with videos and images listed separately. A JSON settings file
holds the list of channels a user must join, plus a few switches. A JSON users
file records everyone who has started the bot.

The project models three parts of that system.

- The archive pipeline of `utils/zip_handler.py`, in module `ZipHandler`:
  - the safety validator, a loop proved against a "first violating file" specification;
  - the extractor, which takes the basename and sanitises it, resolves collisions
    with the `base_k.ext` loop against the directory's existing names, writes, and
    files each path under video or image by its lower-cased extension.

  The archive is its entry listing (name, declared size, and how its data reads)
  or the failure to read one. The destination directory is the set of names it
  holds; it starts with `.` and `..`.
- The settings store of `utils/settings_manager.py`, in module `SettingsManager`:
  - loading with the defaults merged in;
  - adding, removing and toggling channels;
  - single settings and the maintenance flag.

  The file is an input value (missing, undecodable, or a decoded object). Every
  operation that saves returns the object it writes.
- The user registry of `utils/user_manager.py`, in module `UserManager`:
  insert-if-absent on a map keyed by the decimal spelling of the user id.

Supporting modules:

- `Text` models Python's `str(int)`, `lower`, `strip`, `replace(p, "")` and `isalnum`.
- `PosixPath` models `os.path.basename`, `splitext` and `join`.
- `Seqs` models order-preserving filtering, that is, list comprehensions with an `if`.
- `Optional` holds the option type.

The extension tables of `config.py:16-17` are the constants
`ZipHandler.VIDEO_EXTENSIONS` and `ZipHandler.IMAGE_EXTENSIONS`. The limits of
`utils/zip_handler.py:7-9` are `ZipHandler.MAX_FILES`, `ZipHandler.MAX_TOTAL_SIZE`
and `ZipHandler.MAX_SINGLE_FILE_SIZE`.

## Model

| member | source | states |
|---|---|---|
| Text.NatStr | utils/zip_handler.py:63 | `str(n)` for a count is a non-empty run of decimal digits, a single digit exactly when n < 10, ending in the digit n mod 10 |
| Text.NatStrInjective | utils/zip_handler.py:70 | different counters give different decimal spellings, so the `base_k` candidates differ |
| Text.IntStr | utils/user_manager.py:27 | `str(id)` starts with '-' exactly when the id is negative |
| Text.IntStrInjective | utils/user_manager.py:27 | different ids give different decimal spellings |
| Text.Lower | utils/settings_manager.py:49 | `lower` keeps the length and lower-cases each character |
| Text.Strip | utils/settings_manager.py:41 | `strip()` returns the slice of its input left after dropping white space at both ends, with no white space at either end |
| Text.RemoveAll | utils/settings_manager.py:41 | `replace(p, "")` never lengthens the text and only keeps characters it had |
| Text.RemoveAllLead | utils/settings_manager.py:41 | `replace(p, "")` removes an occurrence of `p` at the front and cleans the rest as if it stood alone |
| Text.RemoveAllChar | utils/settings_manager.py:41 | `replace("@", "")` leaves no '@' |
| PosixPath.LastIndex | utils/zip_handler.py:57 | `rfind` gives the last position holding the character, or -1 when there is none |
| PosixPath.Basename | utils/zip_handler.py:57 | `basename` is the suffix of the path after its last '/', and the whole name when it has none |
| PosixPath.SplitExt | utils/zip_handler.py:68 | `splitext` splits the name into a stem and an extension that concatenate back to it |
| PosixPath.LeadingDotsNoExt | utils/zip_handler.py:68 | a name made of leading dots followed by characters that are neither '.' nor '/' (such as `.mp4`) has no extension |
| PosixPath.ExtShape | utils/zip_handler.py:68 | an extension is empty or one dot followed by characters that are neither '.' nor '/' |
| PosixPath.JoinBasename | utils/zip_handler.py:65 | a name without '/' joined to a directory is the basename of the joined path |
| PosixPath.JoinInjective | utils/zip_handler.py:70 | different names joined to the same directory give different paths |
| Seqs.FilterMembers | utils/settings_manager.py:68 | a comprehension keeps exactly the elements its condition accepts |
| Seqs.FilterInOrder | utils/settings_manager.py:68 | a comprehension keeps the accepted elements in their original order: it picks them at strictly increasing positions, and picks a position exactly when its element is accepted |
| Seqs.FilterLength | utils/settings_manager.py:68-70 | the comprehension keeps the length exactly when no element is dropped |
| ZipHandler.CountStep | utils/zip_handler.py:17-31 | one step of the validator's loop: a directory changes nothing; a file is counted and summed, and either is the first violation or keeps the scan clean |
| ZipHandler.Message | utils/zip_handler.py:25-37 | the too-many-files message names the limit 100; the file-too-large message names the entry; the total-size and corrupt-archive refusals give their fixed texts ("Total uncompressed size too large (max: 100MB)", "Invalid or corrupted ZIP file"); an unexpected error's text is returned as is; the fixed messages are never empty |
| ZipHandler.MessagesDistinct | utils/zip_handler.py:25-35 | different refusals (including different oversized entries) give different messages |
| ZipHandler.CheckZipSafety | utils/zip_handler.py:11-37 | passes exactly when the archive lists and no file breaks a limit; otherwise it reports the first file that does, checking count, then that file's size, then the running total; an unparsable archive gives "Invalid or corrupted ZIP file" and another read error its own text |
| ZipHandler.WithinLimitsIff | utils/zip_handler.py:11-33 | no limit is broken exactly when there are at most 100 files, each declared at most 50 MiB, summing to at most 100 MiB |
| ZipHandler.DirectoriesIgnored | utils/zip_handler.py:18-22 | inserting a directory entry anywhere changes neither the counted files nor the verdict |
| ZipHandler.CountCheckedFirst | utils/zip_handler.py:21-25 | the 101st file is the first violation, and is reported as too many files, even when it is tiny |
| ZipHandler.Sanitize | utils/zip_handler.py:61 | keeps exactly the characters that are alphanumeric or one of `._- `, each occurrence once and in its original order, and leaves a name made only of those alone |
| ZipHandler.SafeCharsNoSeparator | utils/zip_handler.py:61 | a sanitised name holds neither '/' nor '\' |
| ZipHandler.SafeName | utils/zip_handler.py:57-63 | the pre-collision name is never empty and only holds safe characters (`file_<n>` when sanitising leaves nothing) |
| ZipHandler.ProbeInjective | utils/zip_handler.py:67-71 | the names the collision loop tries are pairwise different |
| ZipHandler.ProbeSafe | utils/zip_handler.py:67-71 | every tried name of a safe name is non-empty and safe |
| ZipHandler.ProbeKeepsExt | utils/zip_handler.py:68-70 | `base_k + ext` has the extension `ext` again |
| ZipHandler.ResolveName | utils/zip_handler.py:65-71 | the collision loop returns a name the directory does not hold: the sanitised name itself when it is free, and otherwise the first free `base_k + ext` |
| ZipHandler.NamedDistinct | utils/zip_handler.py:65-77 | the written names are pairwise distinct, and none was in the directory before |
| ZipHandler.NamedSafe | utils/zip_handler.py:57-71 | written names are non-empty, safe, free of '/' and '\', and never `.` or `..` |
| ZipHandler.Paths | utils/zip_handler.py:77 | the i-th extracted path is the i-th written name joined to the directory |
| ZipHandler.KindOfProbe | utils/zip_handler.py:79 | classifying the written name gives what classifying the sanitised name gives |
| ZipHandler.BucketMembers | utils/zip_handler.py:79-83 | a path is in a bucket exactly when it is the path of a written name of that kind |
| ZipHandler.BucketSizes | utils/zip_handler.py:79-83 | the two buckets together are no longer than the list of written files |
| ZipHandler.OutcomeInvariants | utils/zip_handler.py:85-92 | `total_files` is the number of extracted paths, one per written name; the paths are distinct and lie directly in the directory; no path is both video and image; every bucketed path is an extracted one |
| ZipHandler.BucketFilter | utils/zip_handler.py:77-83 | each bucket, built by the loop's appends, is the extracted-path list filtered by the kind of the path's basename |
| ZipHandler.BucketsInOrder | utils/zip_handler.py:77-92 | `video_files` and `image_files` hold exactly the extracted paths of their kind, in extraction order |
| ZipHandler.ExtractedInvariants | utils/zip_handler.py:51-92 | a successful extraction reports one distinct path per written file, each under a non-empty sanitised name that was not in the directory and is not `.` or `..`; the buckets are disjoint and list the paths of their kind in order |
| ZipHandler.WrittenNames | utils/zip_handler.py:57-71 | the written names are non-empty, safe, free of '/', new to the directory, not `.` or `..`, and pairwise distinct |
| ZipHandler.ExtractZip | utils/zip_handler.py:39-97 | a failed validation is returned with no directory created and nothing written; otherwise each extractable entry is written under the first free name, and the result is the success outcome exactly when every copy succeeds, or else the error of the first copy that fails (that file counted as written when its target file was created before the failure: corrupt data, or another error while copying) |
| ZipHandler.ProgressSkip | utils/zip_handler.py:54-59 | a directory entry or an entry with an empty basename leaves the loop's state unchanged |
| ZipHandler.ScannedWrite | utils/zip_handler.py:65-77 | writing an intact entry under its first free name keeps every written name following the naming rule |
| ZipHandler.ScannedBreak | utils/zip_handler.py:73-97 | a copy failure happens at the first broken extractable entry, with or without its own file created |
| ZipHandler.ListedWrite | utils/zip_handler.py:77-83 | appending a written file appends its path and files it under its kind |
| ZipHandler.ProgressDone | utils/zip_handler.py:85-92 | after the last entry every extractable entry was written and the reply is the success outcome |
| ZipHandler.NameFor | utils/zip_handler.py:57-71 | computes the pre-collision name and the first free name tried for it |
| ZipHandler.FileByKind | utils/zip_handler.py:79-83 | the path goes to the videos or the images by the lower-cased extension, video first |
| ZipHandler.WriteIntact | utils/zip_handler.py:73-83 | writing an intact entry keeps the extraction loop's invariant |
| ZipHandler.WriteEntry | utils/zip_handler.py:53-83 | one pass of the loop keeps the invariant, or stops at the first broken entry with its error |
| ZipHandler.WriteEntries | utils/zip_handler.py:51-97 | the extraction loop writes names by the naming rule, the i-th file's pre-collision name computed with i files already written, and succeeds exactly when every extractable entry is intact |
| SettingsManager.DefaultKeysListed | utils/settings_manager.py:7-16 | the loader visits exactly the keys of the defaults |
| SettingsManager.Loaded | utils/settings_manager.py:18-29 | the loaded object has every default key; stored keys keep their stored values; the other keys take the default values; a missing or undecodable file gives the defaults |
| SettingsManager.WithDefaultsStep | utils/settings_manager.py:23-25 | visiting one more default key adds it only when it is absent |
| SettingsManager.LoadSettings | utils/settings_manager.py:18-29 | the loop that fills in missing keys computes the loaded object |
| SettingsManager.LoadAfterSave | utils/settings_manager.py:18-34 | saving what was loaded and loading it again gives the same object |
| SettingsManager.LoadComplete | utils/settings_manager.py:18-29 | an object that has every default key loads back as itself |
| SettingsManager.ReloadAfterSet | utils/settings_manager.py:96-100 | a saved update loads back as the object that was saved |
| SettingsManager.LoadedIterable | utils/settings_manager.py:18-29 | when the stored "channels" value can be iterated (a list, or the empty string), so can the loaded one, and it is present |
| SettingsManager.LoadedChannels | utils/settings_manager.py:18-38 | when the stored "channels" value is a list, or there is none, the loaded object holds a channel list under "channels" |
| SettingsManager.AddName | utils/settings_manager.py:41 | `add_channel`'s cleaning leaves no '@' and no white space at either end |
| SettingsManager.AddNameDropsLink | utils/settings_manager.py:41 | `add_channel`'s cleaning strips a leading "https://t.me/": a name given as its link cleans to what the bare name cleans to (while `RefNameKeeps` shows the other two operations keep the link) |
| SettingsManager.RefName | utils/settings_manager.py:63 | the cleaning of `remove_channel`/`toggle_channel` leaves no '@' and no white space at either end |
| SettingsManager.RefNameKeeps | utils/settings_manager.py:63 | that cleaning leaves a trimmed name without '@' as it is, so "https://t.me/" is not removed there |
| SettingsManager.RefNameOfAddName | utils/settings_manager.py:41-63 | a name cleaned by `add_channel` is unchanged by the cleaning of the other two operations |
| SettingsManager.AddOutcome | utils/settings_manager.py:40-60 | success exactly when the cleaned name is non-empty and no channel has it ignoring case; the two refusals with their messages and nothing saved; on success the "added successfully" message and a saved object |
| SettingsManager.AddAppends | utils/settings_manager.py:52-60 | a successful add changes only "channels": the old records in order, then one required record titled by the title or else the name |
| SettingsManager.AddKeepsDistinct | utils/settings_manager.py:48-56 | adding keeps usernames distinct ignoring case |
| SettingsManager.Lookup | utils/settings_manager.py:48-50 | the duplicate loop finds a record exactly when some username matches ignoring case |
| SettingsManager.AddChannel | utils/settings_manager.py:40-60 | an input that cleans to nothing is refused as "Invalid channel username" before the file is read; otherwise `add_channel` on the settings file gives the add outcome for the cleaned name |
| SettingsManager.Without | utils/settings_manager.py:68 | the comprehension keeps exactly the non-matching records, in their order, and the length is unchanged exactly when none matched |
| SettingsManager.RemoveOutcome | utils/settings_manager.py:62-75 | success exactly when some record matches; otherwise "Channel not found" with nothing saved; on success the "removed" message and a saved object |
| SettingsManager.RemoveDrops | utils/settings_manager.py:67-75 | a successful remove changes only "channels", shortens it, and keeps exactly the old records that do not match, in their order |
| SettingsManager.RemoveChannel | utils/settings_manager.py:62-75 | `remove_channel` succeeds exactly when a loaded record matches the '@'-stripped name, and otherwise reports "Channel not found"; a stored empty string counts as no channels |
| SettingsManager.AddThenRemove | utils/settings_manager.py:40-75 | removing a name right after adding it restores the settings exactly |
| SettingsManager.AddThenRemoveChannel | utils/settings_manager.py:40-75 | through the file: a channel added from any input is removed again by its cleaned name, giving back the loaded settings |
| SettingsManager.FirstMatch | utils/settings_manager.py:82-83 | the position of the first matching record, or -1 exactly when none matches |
| SettingsManager.Flip | utils/settings_manager.py:84 | negates `required` on one record and changes nothing else |
| SettingsManager.FlipTwice | utils/settings_manager.py:84 | negating the same record twice gives the list back |
| SettingsManager.FirstMatchSameNames | utils/settings_manager.py:82-84 | the first match depends only on the usernames |
| SettingsManager.ToggleOutcome | utils/settings_manager.py:77-90 | success exactly when some record matches; otherwise "Channel not found" with nothing saved |
| SettingsManager.ToggleFlipsFirst | utils/settings_manager.py:82-88 | a successful toggle changes only the first matching record's `required`, and reports its new state as enabled or disabled |
| SettingsManager.ToggleKeepsDistinct | utils/settings_manager.py:82-85 | toggling keeps usernames distinct |
| SettingsManager.ToggleTwice | utils/settings_manager.py:77-90 | toggling the same name twice restores the settings exactly |
| SettingsManager.FindFirst | utils/settings_manager.py:82-83 | the search loop stops at the first matching record |
| SettingsManager.ToggleChannel | utils/settings_manager.py:77-90 | `toggle_channel` on the settings file gives the toggle outcome for its '@'-stripped input; a stored empty string counts as no channels |
| SettingsManager.GetSetting | utils/settings_manager.py:92-94 | a stored key gives its stored value; any other key gives the default, or nothing |
| SettingsManager.SetSetting | utils/settings_manager.py:96-100 | reports success and saves the loaded object with the key set to the value |
| SettingsManager.GetAfterSet | utils/settings_manager.py:92-100 | after a set, the key reads as the new value and every other key reads as before |
| SettingsManager.FlippedMaintenance | utils/settings_manager.py:102-104 | the saved object differs only in "maintenance_mode", which becomes the negation of its truth value |
| SettingsManager.ToggleMaintenance | utils/settings_manager.py:102-106 | returns the new mode, the negation of the old one, and saves the flipped object |
| SettingsManager.ToggleMaintenanceTwice | utils/settings_manager.py:102-106 | toggling twice restores the flag's truth value, and the settings exactly when the flag was a boolean |
| SettingsManager.IsMaintenanceMode | utils/settings_manager.py:108-109 | the loaded maintenance value, false when the file does not store one |
| UserManager.LoadUsers | utils/user_manager.py:8-15 | the stored object, or the empty object when the file is missing or undecodable |
| UserManager.IsNewUser | utils/user_manager.py:21-23 | everyone is new without a readable file; otherwise a user is new exactly when no key equals the user's key |
| UserManager.GetTotalUsers | utils/user_manager.py:43-45 | the number of stored keys, 0 without a readable file |
| UserManager.NewMeansNoRecord | utils/user_manager.py:21-41 | in a registry where every record is filed under its own id's key, a user is new exactly when no record carries the id |
| UserManager.RegisteredConsistent | utils/user_manager.py:25-41 | registering keeps every record filed under its own id's key |
| UserManager.KeyInjective | utils/user_manager.py:27 | different ids are filed under different keys |
| UserManager.NewRecord | utils/user_manager.py:32-38 | the newcomer's record carries the id and the registration time, with "" for absent names |
| UserManager.NobodyWithoutFile | utils/user_manager.py:8-15 | a missing or undecodable file loads as the empty map: everyone is new and the total is 0 |
| UserManager.Registered | utils/user_manager.py:25-41 | registering adds the user's key, keeps every existing record, stores the new record for a newcomer, and grows the map by one exactly for a newcomer |
| UserManager.RegisterUser | utils/user_manager.py:25-41 | reports new exactly when the key was absent; a known user gets the current total and nothing is saved; a newcomer is saved and the total counts them |
| UserManager.RegisteredNotNew | utils/user_manager.py:21-32 | after registering, the user is not new |
| UserManager.RegisterIdempotent | utils/user_manager.py:28-30 | registering the same user again changes nothing |
| UserManager.RegisterOthersUntouched | utils/user_manager.py:25-41 | registering one user leaves every other user's newness and record unchanged |
| UserManager.TwoNewcomers | utils/user_manager.py:25-45 | two different newcomers registered in turn are both known and add two to the total |

## Left out

- The byte level of archives is out of the model. ZIP parsing, `shutil.copyfileobj` and writing files are library code. Each entry instead carries an abstract `Payload` saying how its copy ends: intact, `BadZipFile` before or after the target file is created, or another error with its text.
- ZipHandler.ExtractZip: it assumes the archive lists the same way when it is opened a second time after validation. It models no failure of `os.makedirs` and no exception outside the copy step, and returns whether the directory was created rather than touching a file system.
- ZipHandler.IsDir: a directory entry is one whose name ends in '/', which is the zip library's rule; its other metadata is not modelled.
- ZipHandler.ExtractDir: the `%Y%m%d_%H%M%S` timestamp part of the directory name is a parameter (`token`), since it reads the clock. A reused directory is modelled by a non-empty set of existing names.
- `create_backup_zip` (utils/zip_handler.py:99-126) is not modelled: it walks the file system and writes an archive, which is I/O throughout.
- Text.IsAlnum, Text.Lower, Text.IsSpace: ASCII approximations of Python's Unicode `str.isalnum`, `str.lower` and `str.isspace`. Non-ASCII letters and digits are dropped by sanitising here, and non-ASCII case is not folded.
- JSON reading and writing (`save_settings`, `save_users`, `json.load`, `json.dump`) is not modelled. Files are input values and saved objects are results. Encoding, indentation, and a save that fails are left out.
- SettingsManager.SettingsFile, UserManager.UsersFile: a file that is not valid UTF-8 makes `json.load` raise `UnicodeDecodeError`, which the `except` clauses at utils/settings_manager.py:27 and utils/user_manager.py:13 do not catch, so `load_settings` and `load_users` raise; this is not modelled, and `Undecodable` stands only for a UTF-8 file that is not valid JSON.
- SettingsManager.Value: a settings value is null, a boolean, an integer, a string or a channel list. Floats, nested objects and other lists are not represented.
- SettingsManager.Channel: channel records are assumed to carry a string "username" and a boolean "required". The three channel operations read "username" and `toggle_channel` reads "required"; "title" is only written. The source raises a `KeyError` on a record lacking a field it reads, and raising is not modelled.
- SettingsManager.AddChannel: it requires a stored "channels" value to be a list only when the cleaned name is non-empty, because an empty name is refused before the file is read (utils/settings_manager.py:42-43). For any other stored value the source raises, and raising is not modelled.
- SettingsManager.RemoveChannel, SettingsManager.ToggleChannel: these require a stored "channels" value to be a list or the empty string, the values the source can iterate here without raising. For any other value the source raises, and raising is not modelled.
- SettingsManager.LoadSettings: a settings file holding JSON other than an object is not modelled. The loader then raises at utils/settings_manager.py:24-25, or returns a list or string that already contains every default key (`in` is membership on a list and a substring test on a string).
- SettingsManager.DEFAULT_SETTINGS is modelled as a constant. In the source, `DEFAULT_SETTINGS.copy()` is shallow, and the loader inserts the default channel list itself when a stored file lacks "channels". Appending or toggling a channel can then change the in-memory defaults for the rest of the process. That process-wide aliasing is not captured.
- Dictionary key order (the order keys are written back to JSON) is not modelled; settings and users are maps.
- `get_channels` (utils/settings_manager.py:36-38) has no member of its own. It returns the loaded "channels" value as it is; that agrees with `SettingsManager.ChannelsOf` of the loaded settings when the value is a list or the empty string (no channels). Any other stored value is returned unchanged by the source, and the model does not represent that.
- UserManager.LoadUsers: a users file holding JSON other than an object is not modelled. The registration time (`registered_at`) is the parameter `now`, because it reads the clock.
- `get_user_info_text` (utils/user_manager.py:47-60) is message formatting with a clock reading and is not modelled. `bot.py`, the handlers and `utils/channel_check.py` are not part of this model: they route Telegram updates and make network calls.
