# investigate.py — a verified model of the collect-and-publish rules

`investigate.py` gathers the system log from the secondary disks attached to
a host and publishes it to an Azure storage account. It lists `/dev`, keeps
the entries whose name starts with `sdc` and a digit, in ascending order,
creates `/mnt/<dev>` for each if it is missing, and runs `mount` on it unless
it is already a mount point (whether that mount works is not checked). It
then takes the first of those devices, in list order, for which
`/mnt/<dev>/var/log/messages` exists (whether or not that path is a mount
point) and gzips that file to `/tmp/messages_archive.txt.gz`.
Finally it creates a container named after the host if none exists and
uploads the archive as `messages-YYYYMMDD` unless a blob of that name is
already there.

This project models those decision rules in Dafny. The outside world is an
input or abstract state:

- the `/dev` listing is a `seq<string>`;
- existing paths and current mount points are sets, and issued `mount`
  commands are a log;
- the files on the mounted volumes are a set of paths;
- the storage account is a map from container name to its blob names,
  plus logs of created containers and uploads;
- the host name and the UTC date are parameters.

Modules:

| module | file | models |
|---|---|---|
| `Wrappers` | wrappers.dfy | `Option` (Python's `None`) and `Result` (a raised error) |
| `Text` | text.dfy | Python's string order and `sorted`; ASCII helpers |
| `PosixPath` | posix_path.dfy | `os.path.join` and the `/dev`, `/mnt` and log paths |
| `DeviceScanner` | device_scanner.dfy | `get_sdc_devices` |
| `MountManager` | mount_manager.dfy | `mount_sdc_devices`: a specification fold, lemmas, and the `Host` class |
| `ArtifactLocator` | artifact_locator.dfy | `find_messages`, `get_messages_archive_path`, `archive_messages` |
| `Naming` | naming.dfy | `get_subject_container_name` and the blob name of `upload_blob` |
| `Publisher` | publisher.dfy | `create_storage_container`, `upload_blob`: specification functions, lemmas, and the `StorageAccount` class |

The parts that change state in place are classes. `MountManager.Host` holds
the existing paths, the mount points and the mount log.
`Publisher.StorageAccount` holds the containers with their blobs and the
call logs. Each method's `ensures` equates the new state with a function of
the old one (`MountAll`, `CreateContainer`, `PutMessagesBlob`). The
properties are proved as lemmas about those functions.

Whether a `mount` command succeeds is outside the script. `MountSdcDevices`
therefore takes the set `takesEffect`: the targets that the external mount
service does turn into mount points. With `takesEffect = {}` no mount
succeeds and the mount table never changes. The model never assumes a
mount works.

Choices the code makes that the model keeps:

- `main` passes `find_messages`'s `None` on to `archive_messages`, whose
  `open(None)` raises; an absent log therefore stops the run.
  `ArchiveMessages` models this: an absent path is a `Failure`.
- The archive path is the fixed `/tmp/messages_archive.txt.gz`.
- The container name uses the whole host name with its dots removed.
- Only the `messages` log is collected.

## Model

| member | source | states |
|---|---|---|
| `Text.Sort` | investigate.py:27 | `sorted` returns an ascending arrangement of exactly its input (same multiset) |
| `Text.SortedUnique` | investigate.py:27 | two ascending sequences with the same elements are equal, so `sorted`'s result is fixed by its input |
| `Text.LessEqIsLexicographic` | investigate.py:27 | `LessEq`, the order `sorted` uses: `a <= b` exactly when `a` is a prefix of `b` or has the smaller code point where they first differ |
| `DeviceScanner.Matching` | investigate.py:27 | the comprehension keeps an entry exactly when it matches `sdc\d+` at its start, with the listing's multiplicity |
| `DeviceScanner.GetSdcDevices` | investigate.py:26-27 | every result matches the pattern, the result is ascending, and each name appears as often as it does in the listing if it matches and never otherwise |
| `DeviceScanner.GetSdcDevicesMembers` | investigate.py:26-27 | a name is returned if and only if it is in the listing and matches the pattern |
| `DeviceScanner.GetSdcDevicesNoDuplicates` | investigate.py:26-27 | a listing without repeated names gives devices without repeated names |
| `DeviceScanner.GetSdcDevicesCharacterised` | investigate.py:26-27 | any ascending sequence holding exactly the matching entries is the result |
| `DeviceScanner.GetSdcDevicesOrderIndependent` | investigate.py:26-27 | the order in which `os.listdir` returns the entries does not change the devices |
| `DeviceScanner.IsSdcDevice` | investigate.py:27 | `re.match(r'sdc\d+', d)` holds exactly when the name is `sdc`, a digit, then anything |
| `PosixPath.ComponentPaths` | investigate.py:32-47 | for a device name without `/`, the joined paths are `/dev/<dev>`, `/mnt/<dev>` and `/mnt/<dev>/var/log/messages` |
| `PosixPath.ComponentPathsInjective` | investigate.py:32-47 | distinct device names get distinct mount points and distinct log paths |
| `PosixPath.JoinLayout` | investigate.py:32-47 | `Join`, i.e. `os.path.join` (also at line 67): an absolute second part replaces the first; otherwise the result is the first part followed by the second, with a `/` just before the second when the first is non-empty, inserted exactly when the first part lacks a trailing `/` |
| `MountManager.MountAllCreatesMountPoints` | investigate.py:31-35 | afterwards `/mnt/<dev>` exists for every device; no other path is created |
| `MountManager.MountAllMounted` | investigate.py:37-39 | afterwards the mount points are the old ones plus each device's mount point whose mount takes effect |
| `MountManager.MountAllKeepsLog` | investigate.py:39 | the routine only appends to the log of mount commands |
| `MountManager.NewCallsAreForUnmounted` | investigate.py:37-39 | each mount command issued is `mount /dev/<dev> /mnt/<dev>` for a device whose mount point was not a mount point before the run |
| `MountManager.UnmountedGetCalls` | investigate.py:37-39 | each device whose mount point was not a mount point before the run gets a mount command for it |
| `MountManager.AlreadyMountedIsSkipped` | investigate.py:37-41 | if every device's mount point is already a mount point, no command is issued and the mount table is unchanged |
| `MountManager.SecondRunIsNoOp` | investigate.py:30-41 | once all mounts of a run have taken effect, a second run on the same devices changes nothing and issues no command |
| `MountManager.MountAllNoRepeatedTarget` | investigate.py:37-39 | when every mount takes effect, each command's target is a mount point afterwards and no target is repeated, even for a device list with repeats |
| `MountManager.MountAllDistinctTargets` | investigate.py:30-41 | for distinct device names, as `get_sdc_devices` returns, no mount point is the target of two commands in one run, whichever mounts take effect |
| `MountManager.MountOne` | investigate.py:31-41 | one iteration: `/mnt/<dev>` exists afterwards; if it was a mount point nothing else changes; otherwise the command `mount /dev/<dev> /mnt/<dev>` is appended and the path becomes a mount point exactly when that mount takes effect |
| `MountManager.MountAll` | investigate.py:30-41 | the loop only adds paths and mount points, mounts nothing outside `takesEffect`, and issues no more commands than there are devices |
| `MountManager.Host.MountSdcDevices` | investigate.py:30-41 | the loop leaves the host in the state `MountAll` describes, with every `/mnt/<dev>` existing |
| `ArtifactLocator.FirstWithMessages` | investigate.py:44-51 | absent if and only if no device has the log; otherwise the log path of a device that has it, with no earlier device having one |
| `ArtifactLocator.FindMessages` | investigate.py:44-51 | the search loop with its early return gives exactly the first-match result |
| `ArtifactLocator.SecondDeviceFound` | investigate.py:44-51 | with `[sdc1, sdc2]` and only `sdc2` holding the log, the log of `sdc2` is returned |
| `ArtifactLocator.ArchivePath` | investigate.py:66-67 | the archive path is the constant `/tmp/messages_archive.txt.gz` |
| `ArtifactLocator.ArchiveMessages` | investigate.py:54-58 | an absent path fails; a present one is compressed from that path into the archive path |
| `ArtifactLocator.ArchiveOfFoundMessages` | investigate.py:104-107 | in `main`'s sequence, archiving fails exactly when no device has the log, and otherwise reads an existing file into the archive path |
| `Naming.ContainerName` | investigate.py:61-63 | the name ends in `-files`, has no `_`, `.` or upper-case letter, and is `len(hostname) - count('.') + 6` long |
| `Naming.ContainerNameNormalizes` | investigate.py:61-63 | the name equals a one-character-at-a-time normalisation of the host name (drop `.`, `_` to `-`, lower-case) followed by `-files` |
| `Naming.RemoveChar` | investigate.py:63 | `replace('.', '')` removes every `.`, keeps only characters of the input and shortens it by the number of dots |
| `Naming.RemoveCharSingle` | investigate.py:63 | removing `c` from one character drops it if it is `c` and keeps it otherwise |
| `Naming.RemoveCharAppend` | investigate.py:63 | removal distributes over concatenation, so the kept characters stay in their order |
| `Naming.Lower` | investigate.py:63 | `lower()` keeps the length and lower-cases each character in place |
| `Naming.ReplaceChar` | investigate.py:63 | `replace('_', '-')` keeps the length and changes exactly the `_` positions to `-` |
| `Naming.BlobName` | investigate.py:83 | the blob name is `messages-` followed by eight decimal digits |
| `Naming.DigitsRoundTrip` | investigate.py:83 | zero-padded decimal formatting of a number that fits the width reads back as the number |
| `Naming.Digits` | investigate.py:83 | `%Y`, `%m`, `%d` print a field as exactly `width` decimal digits |
| `Naming.BlobNameRoundTrip` | investigate.py:83 | parsing the blob name gives back the year, month and day |
| `Naming.BlobNameInjective` | investigate.py:83 | different days give different blob names |
| `Publisher.CreateContainer` | investigate.py:70-79 | afterwards the host's container exists; if it was listed, nothing changes and nothing is created; otherwise it is created once, empty |
| `Publisher.CreateContainerIdempotent` | investigate.py:70-79 | a second `create_storage_container` changes nothing |
| `Publisher.StorageAccount.CreateStorageContainer` | investigate.py:70-79 | the account changes as `CreateContainer` says, and the container exists afterwards |
| `Publisher.PutMessagesBlob` | investigate.py:82-97 | missing container is an error; a listed blob name is skipped with nothing changed; otherwise the blob is added to the container only and one upload of the archive path is logged |
| `Publisher.UploadTwiceUploadsOnce` | investigate.py:82-97 | after an upload the blob is present, other containers are unchanged, and a second call on the same day uploads nothing |
| `Publisher.CreateThenUploadFindsContainer` | investigate.py:110-111 | after `create_storage_container`, `upload_blob` always finds the host's container |
| `Publisher.UploadSendsArchive` | investigate.py:91-95 | the uploaded file is the file `archive_messages` writes |
| `Publisher.ExistingBlobNotReuploaded` | investigate.py:83-97 | with `messages-20240101` already listed, the upload on 1 January 2024 is skipped |
| `Publisher.StorageAccount.UploadBlob` | investigate.py:82-97 | the account and the outcome are as `PutMessagesBlob` says |

## Left out

- `archive_messages`: the gzip byte copy through `gzip` and `shutil` (investigate.py:57-58) is not modelled. Only which file is read and which is written is modelled. An `IOError` on a log path that exists is not modelled either.
- `os.mkdir` failing (permission denied), a path that exists but is not a directory, and a missing `/mnt` are not modelled: creating `/mnt/<dev>` always succeeds in the model.
- `MountManager.Host.MountSdcDevices`: does not model what `mount` does to the OS. The set `takesEffect` says which mounts succeed, and the exit status of `subprocess.call` is ignored, as in the source.
- `DeviceScanner.GetSdcDevices`: `\d` is modelled as the ASCII digits `0`-`9`. Python also accepts other Unicode decimal digits, which do not occur in `/dev` names.
- `Naming.ContainerName`: lower-cases ASCII letters only. Python's `str.lower` on non-ASCII letters is not modelled, so "no upper-case letter" means no ASCII `A`-`Z`.
- `Naming.BlobName`: requires a year from 1000 to 9999. `strftime('%Y')` pads earlier years differently on different platforms. Days are bounded by 31, not checked against the month.
- `Publisher.PutMessagesBlob`: the `ContainerMissing` outcome stands for the exception `list_blobs` raises on an absent container. The other network and authentication failures of the storage client are not modelled.
- The `BlockBlobService` client, its credentials and its `core.usgovcloudapi.net` endpoint (investigate.py:109) are left out. Only container and blob names are modelled.
- `socket.gethostname()` and `dt.utcnow()` are parameters (the host name and a `Date`).
- `sys.argv` parsing, the `main` wiring (beyond `ArchiveOfFoundMessages` and `CreateThenUploadFindsContainer`) and `print` logging (investigate.py:100-115) are left out.
- Concurrency with other processes (mounting, or another run of the tool) is left out. The run is sequential.
