# AlDente installer, modelled in Dafny

The AlDente installer is a single Python script, `AlDente-Installer.py`. On macOS it runs five steps:

1. Download the AlDente disk image into the working directory.
2. Attach the image with `hdiutil` and find the mounted volume in the output of `hdiutil info`.
3. Replace `/Applications/AlDente.app` with the bundle from that volume.
4. Detach the volume.
5. Delete the downloaded image.

When a step fails, the rest are abandoned, with two exceptions:

- When the copy fails, the volume is still detached. The image is kept.
- A failed `hdiutil detach` is only reported: the image is deleted all the same after a successful copy.

The project has four modules:

- `Wrappers` (`wrappers.dfy`): the `Option` type, which stands for Python's `None`.
- `PyStr` (`pystr.dfy`): the three operations on Python `str` that the volume scan uses.
  - `splitlines()` is `SplitLines`.
  - `split()` with no argument is `Split`.
  - `pat in s` is `Contains`.
  - Each comes with an independent description or an inverse, and a lemma that ties the two together.
- `VolumeScan` (`volume_scan.dfy`): the scan inside `mount_dmg`.
  - `ScanLines` and `FindVolume` are a pure first-match search.
  - `ScanVolume` is the loop as the script writes it, proved equal to the pure search.
- `Installer` (`installer.dfy`): the pipeline, as the class `Machine`. Its state:
  - `fs`, a map from paths to file trees. `os.path.exists(p)` is `p in fs`.
  - `mounted`, the set of attached mount points.
  - `trace`, a ghost record of the external calls made.

Every outside outcome is a field of `Environment`, supplied by the caller:

- the HTTP transfer;
- the exit status of `hdiutil attach`;
- the stdout of `hdiutil info`;
- an I/O error inside `shutil.rmtree` or `shutil.copytree`;
- the exit status of `hdiutil detach`.

The calls one run makes are a pure function, `InstallEvents`. The lemmas about it state the ordering, at-most-once and never-if properties of `main`.

Three behaviours of the code are easy to overlook:

- After a successful `hdiutil attach`, the volume may not be found in the listing. Then `main` returns without a detach, so the image stays attached. `Installer.Machine.Install` states this in its second case.
- The file is opened before the body is streamed. A transfer that fails after that leaves the partly written file behind. `FetchOutcome.StreamFailed` models this.
- A successful run calls `hdiutil detach` once, on the volume path it found, but that detach may fail, and then the volume stays mounted. `AfterDetach` models this.

## Model

| member | source | states |
|---|---|---|
| PyStr.Split | AlDente-Installer.py:55 | `s.split()` with no argument: the maximal runs of non-whitespace characters in order, with no empty pieces (defines; its properties are the lemmas below) |
| PyStr.SplitWords | AlDente-Installer.py:55 | every piece of `split()` is non-empty and holds no whitespace character |
| PyStr.SplitEmptyIff | AlDente-Installer.py:55 | `split()` returns no pieces exactly when the string is all whitespace, in both directions |
| PyStr.LastWord | AlDente-Installer.py:55 | `split()[-1]`, defined only when there is a piece, is a non-empty whitespace-free token |
| PyStr.LastWordIsFinalRun | AlDente-Installer.py:55 | `split()[-1]` equals the independent definition: drop the trailing whitespace, then take the longest whitespace-free suffix |
| PyStr.SplitSpaced | AlDente-Installer.py:55 | `split()` inverts joining well-formed tokens with spaces: the tokens come back unchanged |
| PyStr.SplitLines | AlDente-Installer.py:53 | no line produced by `splitlines()` contains a line boundary |
| PyStr.SplitLinesTerminated | AlDente-Installer.py:53 | `splitlines()` inverts printing lines each followed by a newline |
| PyStr.Contains | AlDente-Installer.py:54 | `pat in s`: some position of `s` starts an occurrence of `pat` (defines) |
| PyStr.ContainsInSomeLine | AlDente-Installer.py:53-54 | a pattern without line boundaries occurs in the text exactly when it occurs in one of its `splitlines()` lines |
| VolumeScan.Matches | AlDente-Installer.py:54 | the test applied to each line: it contains `/Volumes/AlDente` or `/Volumes/AlDentePro` (defines) |
| VolumeScan.ProPatternRedundant | AlDente-Installer.py:54 | a line matches `"/Volumes/AlDente" in line or "/Volumes/AlDentePro" in line` exactly when it contains `/Volumes/AlDente` |
| VolumeScan.MatchHasWord | AlDente-Installer.py:54-55 | on a matching line `line.split()` is non-empty, so `[-1]` cannot raise IndexError |
| VolumeScan.ScanLines | AlDente-Installer.py:53-60 | the volume the scan returns is a non-empty whitespace-free token |
| VolumeScan.FindVolume | AlDente-Installer.py:52-60 | the same for the scan over the whole `hdiutil info` output |
| VolumeScan.ScanFindsFirstMatch | AlDente-Installer.py:53-57 | the scan returns the last token of the first matching line, whatever follows it |
| VolumeScan.ScanNoneIff | AlDente-Installer.py:53-60 | the scan returns None exactly when no line matches |
| VolumeScan.ScanIgnoresLaterLines | AlDente-Installer.py:53-57 | once a line has matched, lines appended after it cannot change the result |
| VolumeScan.FindVolumeNoneIff | AlDente-Installer.py:52-60 | no volume is found exactly when `/Volumes/AlDente` appears nowhere in the output |
| VolumeScan.FindVolumeOfRows | AlDente-Installer.py:52-57 | for a listing printed one row per line, the volume is the final non-whitespace run of the first row mentioning `/Volumes/AlDente` |
| VolumeScan.ScanVolume | AlDente-Installer.py:52-60 | the loop that returns at the first match computes exactly `FindVolume` |
| Installer.JoinPath | AlDente-Installer.py:18 | `os.path.join(a, b)` ends with `b`; it is `b` when `b` is absolute and otherwise extends `a` |
| Installer.InstallerPathsDistinct | AlDente-Installer.py:73-79 | the downloaded image is never the bundle on the volume and never the install destination |
| Installer.CopySucceeds | AlDente-Installer.py:73-91 | when `copy_aldente_app` returns True: the bundle is a directory, is not the destination, any old copy is a directory that `rmtree` removes, and `copytree` completes (defines) |
| Installer.CopyEvents | AlDente-Installer.py:73-85 | the calls of `copy_aldente_app`: none without a bundle, `rmtree` only when a copy exists, `copytree` only when no `rmtree` failed (defines) |
| Installer.CopyLeaves | AlDente-Installer.py:73-91 | what `/Applications/AlDente.app` holds after `copy_aldente_app`, branch by branch (defines) |
| Installer.CopyLeavesCases | AlDente-Installer.py:73-91 | a successful copy installs the bundle; without a bundle the old install stays; a failed copy leaves the old install, nothing, or what an interrupted `rmtree` or `copytree` left |
| Installer.Put | AlDente-Installer.py:82-85 | storing what a failed tree operation left behind changes that one path and no other |
| Installer.InstallEvents | AlDente-Installer.py:104-128 | the calls of one run of `main`, in order, for each outcome of the download, the mount and the copy (defines; its properties are the lemmas below) |
| Installer.MountEventsQuiet | AlDente-Installer.py:109-117 | the download and `mount_dmg` never detach, never delete a file and never touch `/Applications` |
| Installer.FinishEventsFacts | AlDente-Installer.py:119-128 | steps 3 to 5 call `hdiutil detach` exactly once and delete the image exactly when the copy succeeded, as their last call |
| Installer.DownloadComesFirst | AlDente-Installer.py:109-112 | every run starts with the download; after a failed download it is the only call: no attach, no listing, no detach, no delete and no change under `/Applications` |
| Installer.MountFailureStops | AlDente-Installer.py:114-117 | when attach fails or no volume is found: no detach, no delete, no change under `/Applications` |
| Installer.UnmountOnceIffMounted | AlDente-Installer.py:104-128 | `hdiutil detach` is called exactly once when a volume was found, on both the copy-failure and the success path, and never otherwise |
| Installer.RemoveOnlyAfterCopy | AlDente-Installer.py:119-128 | the image is deleted exactly when the copy succeeded, and then as the last call |
| Installer.SuccessfulRunCalls | AlDente-Installer.py:104-128 | a successful run calls, in order: download, attach, info, (rmtree of the old copy), copytree, detach, remove; a failed detach does not prevent the remove |
| Installer.NoBundleKeepsInstall | AlDente-Installer.py:74-76 | after a run whose volume has no `AlDente.app`, the old install is untouched and only the downloaded image is new |
| Installer.Machine.DownloadInstaller | AlDente-Installer.py:14-39 | returns the joined path exactly when the transfer succeeded; the file is written with the body; a partial file is left when streaming fails; nothing is written when the request fails |
| Installer.Machine.MountDmg | AlDente-Installer.py:41-64 | returns `FindVolume` of the listing when attach and info succeed, None otherwise; an attached image stays in the mount table; info is requested only after a successful attach |
| Installer.Machine.RemoveTree | AlDente-Installer.py:82 | `shutil.rmtree` removes a directory; on a missing path or a file it fails and changes nothing |
| Installer.Machine.CopyTree | AlDente-Installer.py:85 | `shutil.copytree` places the source tree at the target; it fails, changing nothing, unless the source is a directory and the target is absent |
| Installer.Machine.CopyAlDenteApp | AlDente-Installer.py:66-91 | succeeds exactly when `CopySucceeds`; the destination afterwards holds `CopyLeaves` (the bundle on success); without a bundle nothing changes; no path other than the destination ever changes |
| Installer.Machine.UnmountDmg | AlDente-Installer.py:93-103 | one detach call; the volume leaves the mount table only when detach succeeds |
| Installer.Machine.RemoveFile | AlDente-Installer.py:128 | the image path is removed and nothing else changes |
| Installer.Machine.FinishInstall | AlDente-Installer.py:119-128 | copy, then detach in either case, then delete the image only after a successful copy; the destination holds `CopyLeaves`; without a bundle no file changes; the resulting files and mount table |
| Installer.Machine.Install | AlDente-Installer.py:104-129 | the calls made are `InstallEvents`; the files and mount table after each of the four outcomes (download failed, mount failed, copy failed, success), including what the destination holds after a failed copy |
| Installer.Machine.RunScript | AlDente-Installer.py:131-136 | on a system other than Darwin nothing happens; on Darwin the run is `main`: the same calls, and the same files and mount table for each of its four outcomes |

## Left out

- HTTP details: the session, the User-Agent header, `raise_for_status` and the 8192-byte chunks. Only three outcomes of the transfer are modelled: a body, a failure before the file is opened, and a failure while streaming.
- An `OSError` from `open` or `write` in the download, and from `os.remove`. The script does not catch these, so they end the process. `Installer.Machine.RemoveFile` requires the image to exist as a file, which holds at its one call site.
- Running `hdiutil`: the exit status of each call and the stdout of `hdiutil info` are inputs. A missing `hdiutil` executable raises `FileNotFoundError`, which the script does not catch; the model leaves it out.
- `time.sleep(3)`. It has no logical content.
- How `subprocess` decodes stdout into text, and its universal-newline translation. The listing arrives as a string.
- Printing, and the emoji constants at the top of the script. They are output only.
- `os.uname()` and `os.getcwd()`. The system name and the working directory are inputs.
- The internals of `shutil.rmtree` and `shutil.copytree`: file-by-file copying, symbolic links and permissions. An I/O error in the middle of one of them is an input that names what is left at the target.
- Nested paths. A path below another lives inside that path's tree, not as a separate key of `fs`. The contents of the image are not derived from the downloaded bytes: the volume's files are whatever `fs` holds.
- Installer.Machine.UnmountDmg: a successful detach removes the mount point from `mounted` but does not remove the volume's files from `fs`.
