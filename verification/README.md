# Verified model of the Arches installer core

This project models, and proves properties of, the parts of the Arches installer that decide what
happens to disks and to configuration files:

* **Disks.** Descriptors become predicates, predicates select disks, a greedy resolver claims disks role
  by role, and an applier turns a layout into a sequence of wipe, partition, format, assemble and mount
  commands (`installer/arches_installer/core/disk_descriptor.py`, `disk_layout.py`, `disk.py`).
* **Hardware.** Quirk and machine matching, the reconcile loop over three configuration directories, and
  the boot-time rescan that skips the loop when a fingerprint is unchanged (`hardware.py`,
  `hardware_rescan.py`).
* **Modules and GPU stacks.** Validation, ordering and merging of modules, and GPU-stack resolution, which
  is written once in the installer and once in the build script (`module.py`, `gpu_stacks.py`,
  `template.py`, `scripts/iso-config.py`).
* **The Plasma panel writer**, which numbers containments and applets
  (`modules/kde/ansible/files/generate_appletsrc.py`).

Run `dafny verify dfyconfig.toml` to check everything.

## How the model is built

Code that computes a value is a function; code that changes things step by step is a method with loops,
proved equal to a specification function. Objects that the source updates in place are classes:
`CommandRunner.Runner` (the commands issued so far), `TargetRoot.Root` (configuration directories,
manifest and fingerprint of the installed system), `Appletsrc.IdAllocator` and `Appletsrc.AppletsrcWriter`.

*Commands that fail.* A program is a sequence of steps: one command, commands with a `finally` clean-up,
or an exception raised between commands. `Exec` runs a program against an arbitrary choice of failing
commands, so a statement about every `Exec` is one about every aborted run as well; `Never` is the choice in
which none fails. The appliers are methods that issue commands one at a time; each is proved to run exactly
its program and to return exactly its partition map, and the laws are proved about the programs.

*Safety of a run* is a set of rules on each command given the trace before it
(`DiskWorld.Allowed`): only assigned disks are named; the three wiping commands are issued once each, in
order; nothing is partitioned before every assigned disk is wiped; partition numbers count up by one; what
is formatted or assembled was created after the wipe, is listed once, and was never consumed before.

*File operations.* A reconcile is a list of `Unlink` and `Write` operations. `TargetRoot.Root.budget` is
the number of changes made before the process is stopped, so each run of the methods is a run stopped at
an arbitrary point, or a complete one. The laws of the reconcile loop hold for any way of marking files
(`HardwareFiles.Tagging`); `HardwareFiles.HEADER` is the installer's.

*Outcomes.* What the specification functions compute is stated a second time in terms of the inputs alone, without
naming them: what an installation has done to the disks (`InstallOutcome`, `LegacyOutcome`) and reports (`InstallReport`), which disks
a descriptor selects (`DescriptorMeaning`), which role is in force (`RoleOverrides`), what a rescan leaves
(`HardwareRescan.FullRun`), which sources apply (`SourceSelection`), what a deployed file reads (`DeployedTexts`), which
disks have drifted (`RolesDrift`), who wins an arbitration (`StackArbitration`), how lists are merged
(`ModuleMerging`) and what the panel file holds (`AppletsrcContents`).

*Parameters.* `glob` is `fnmatch`, an arbitrary predicate. `hash` is SHA-256 of the canonical JSON text,
taken to be injective and never empty. Detected disks, PCI ids, DMI fields, the driver profile before and
after `chwd -a`, and parsed TOML and JSON are arbitrary inputs.

## Where the code and its promises part

Each of these is a theorem below, with the exact condition or a witness.

* The resolver is greedy: it can reject a layout although another disjoint assignment exists
  (`GreedyCanMissAnAnswer`). `ResolvesExactly` gives the condition for success, and when it succeeds its
  answer is the only one.
* Descriptor tokens do not always commute: `nvme hdd` is an error and `hdd nvme` is not
  (`SpinningNvmeIsRejectedOnce`), of two transports the last one wins, and a zero size leaves bounds that
  depend on its place. `OrderIndependentExactly` gives the condition.
* A descriptor table with nothing but `size_max` is taken for an empty one and selects every fixed disk
  (`UpperBoundAloneIsIgnored`); one whose `device` is no path loses its other entries (`TableWithDevice`); and a
  removable disk is not selected by its own path (`DeviceSelectsExactly`).
* `apply_disk_layout_resolved` passes over swap in the second mount pass and `apply_disk_layout` does not,
  so on one disk they differ exactly when a swap partition has a mount point other than `/` and every size
  parses (`RefinesLegacyExactly`). The docstring of the former calls the
  latter a wrapper around it; it is separate code.
* `mirror_esp` loses the disk of an ESP whose disk name ends in `p`, such as `/dev/sdp` (`MirrorParseExact`,
  `MirrorParseLosesSdp`).
* A validated layout can still abort after the wipe: sizes are only parsed while partitioning, RAID 5 and 6
  have no btrfs profile, and a btrfs backend is only built for btrfs partitions. `CompletesExactly` says when
  an installation completes, `AbortsAfterTheWipe` that otherwise every assigned disk has been wiped by then;
  `UnparsedSizeWipes` and `BtrfsRaid5Wipes` are two layouts that the validator accepts. Such runs obey the
  safety rules too.
* A disk with no serial, World-Wide Name or by-id link is reported missing on every boot
  (`FreshInstallIsOkExactly`).
* `read_text` translates carriage returns, so a managed file that differs from the desired text only in
  them is left as it is (`ReconcileIsCanonicalExactly`), and a desired text with a carriage return is
  rewritten on every run (`RepeatIsIdleExactly`).
* A slug that leaves no trace in the 256 bytes that are read, such as an empty or a blank one
  (`RecognisedExactly`, `EmptySlugIsNotRecognised`), makes a file that no later run recognises (`OrphanIsRemovedExactly`).
* A rescan that is stopped half-way keeps the old fingerprint. If the old hardware comes back, the next
  boot takes the fast path on files that do not fit it (`InterruptionFoolsTheFastPath`). After one stopped
  run the fast path is right exactly when that run made no change (`FastPathAfterStoppedBootExactly`); after
  a series, exactly when each place was last given what the recorded hardware calls for
  (`FastPathAfterInterruptionExactly`). One complete run mends it (`CompleteRunRepairs`).
* With several templates, the build subtracts each template's losing llama.cpp variants from all of them
  (`TemplatesAgreeExactly`, `TemplatesCanDisagree`).

## Model

| member | source | states |
|---|---|---|
| PartitionNames.PartNameInjective | installer/arches_installer/core/disk.py:275-279 | two partition paths are equal only if both the whole disk and the number are |
| PartitionNames.DeviceOfPartName | installer/arches_installer/core/host_install.py:410-424 | the parser recovers the whole disk from every partition path |
| PartitionNames.MirrorParseExact | installer/arches_installer/core/disk_layout.py:1709-1715 | the inline parser recovers disk and number if and only if the disk uses the `p` separator or does not end in `p` |
| PartitionNames.MirrorParseLosesSdp | installer/arches_installer/core/disk_layout.py:1709-1715 | a disk for which it returns another disk |
| DiskDescriptor.ParseStringDescriptor | installer/arches_installer/core/disk_descriptor.py:251-317 | the token loop computes the criteria that folding the classified tokens gives, or fails where it fails |
| ResolutionLaws.MatchSpecExact | installer/arches_installer/core/disk_descriptor.py:491-517 | the result holds exactly the selected candidates, as often as they are listed, ordered by serial and path |
| DiskDescriptor.MatchDisks | installer/arches_installer/core/disk_descriptor.py:491-517 | the append-and-sort loop returns that list |
| DescriptorLaws.OrderIndependentExactly | installer/arches_installer/core/disk_descriptor.py:251-317 | all rearrangements of a token list parse alike, to criteria with the same meaning, if and only if the tokens are order free |
| DescriptorLaws.SpinningNvmeIsRejectedOnce | installer/arches_installer/core/disk_descriptor.py:285-305 | `nvme hdd` is rejected, `hdd nvme` asks for a spinning NVMe disk |
| DescriptorLaws.RearrangedDescriptorSelects | installer/arches_installer/core/disk_descriptor.py:251-317 | rearranging the words of an order-free descriptor never changes the disks it selects |
| DescriptorLaws.AddingTokenShrinks | installer/arches_installer/core/disk_descriptor.py:432-488 | a size, technology or free token added anywhere never lets another disk match |
| DescriptorLaws.FreeTokenMatchesOneAttribute | installer/arches_installer/core/disk_descriptor.py:386-429 | a plain token matches the joined corpus if and only if it is a substring of one normalised attribute |
| DescriptorMeaning.TextSelectsExactly | installer/arches_installer/core/disk_descriptor.py:251-488 | a text of words selects a disk if and only if it is fixed, has the last transport, the technology, a size within a tenth of each (positive) size, one of the vendors' names, and every other word in some attribute |
| DescriptorMeaning.WordsRead | installer/arches_installer/core/disk_descriptor.py:268-314 | exactly these words, in capitals or not, ask for a technology, a transport or a size |
| DescriptorMeaning.ReadingsAreDisjoint | installer/arches_installer/core/disk_descriptor.py:268-314 | no word has two readings, so the order of the tests does not matter |
| DescriptorMeaning.WholeSize | installer/arches_installer/core/disk_descriptor.py:185-218 | a whole number and a unit, with or without `i` and `b`, mean so many bytes |
| DescriptorMeaning.FractionSize | installer/arches_installer/core/disk_descriptor.py:185-218 | so does a decimal fraction, rounded down |
| DescriptorMeaning.DeviceSelectsExactly | installer/arches_installer/core/disk_descriptor.py:258-261 | a device path selects the disk of that path if and only if it is fixed |
| DescriptorMeaning.TableSelectsExactly | installer/arches_installer/core/disk_descriptor.py:320-488 | a table without a device selects a disk if and only if the disk meets each entry and is fixed or as removable as asked; one with an upper bound alone selects every fixed disk |
| DescriptorMeaning.TableWithDevice | installer/arches_installer/core/disk_descriptor.py:364-373 | of a table with a device path only the path and the mention of removability count; with other text there, only that text |
| DescriptorMeaning.UpperBoundAloneIsIgnored | installer/arches_installer/core/disk_descriptor.py:162-173 | a table with nothing but an upper bound selects every fixed disk |
| DiskLayout.ValidateLayout | installer/arches_installer/core/disk_layout.py:260-353 | the validator reports every fault of a layout and nothing else |
| DiskLayout.FindRepeats | installer/arches_installer/core/disk_layout.py:271-275 | the `seen` loop finds exactly the repeated names |
| DiskLayout.GroupByRole | installer/arches_installer/core/disk_layout.py:286-288 | each role gets the indices of exactly its partitions, in layout order, and roles come in order of first mention |
| DiskLayout.CheckFillRest | installer/arches_installer/core/disk_layout.py:286-298 | exactly the misplaced `*` partitions are reported |
| DiskLayout.RequiredForRole | installer/arches_installer/core/disk_layout.py:394-426 | the count is demanded by one of the role's partitions and no other demands more |
| DiskLayout.ComputeRequiredForRole | installer/arches_installer/core/disk_layout.py:412-426 | the loop computes that count |
| RoleResolution.ResolveDiskRoles | installer/arches_installer/core/disk_layout.py:643-759 | the claiming loop returns what folding the roles in name order gives, errors included |
| ResolutionLaws.ResolvesExactly | installer/arches_installer/core/disk_layout.py:685-759 | resolution succeeds if and only if every descriptor parses and each role is left exactly its number of disks that no earlier role accepts |
| ResolutionLaws.ResolvedShape | installer/arches_installer/core/disk_layout.py:737-759 | the result lists exactly the roles in name order, each with the disks left for it |
| ResolutionLaws.ResolutionIsUnique | installer/arches_installer/core/disk_layout.py:685-759 | after a success, any other disjoint choice of matching disks of the right sizes is the same choice |
| ResolutionLaws.GreedyCanMissAnAnswer | installer/arches_installer/core/disk_layout.py:685-759 | a validated layout and request with a disjoint assignment, for any two fixed disks of which one is `/dev/sda`, that the resolver nevertheless rejects |
| ResolutionLaws.ResolutionIgnoresEnumeration | installer/arches_installer/core/disk_descriptor.py:510-517 | permuting the detected disks gives the same ordered assignment |
| ResolutionLaws.ResolutionIgnoresNames | installer/arches_installer/core/disk_layout.py:685-752 | renaming the devices of disks with distinct serials gives the same disks in the same positions, for any descriptor without a device whose tokens are blind to kernel names |
| ResolutionLaws.PlainWordIsNameBlind | installer/arches_installer/core/disk_descriptor.py:386-429 | a plain word that occurs in neither the name nor the path of a disk is blind to them |
| RoleOverrides.EffectiveRoleExact | installer/arches_installer/core/disk_layout.py:429-455 | the role in force is the last of its name in the auto-install configuration, else in the machine profile, else in the layout; no other role is, but an implied one when the layout declares none |
| RoleOverrides.ImpliedRoleTakesFixedDisks | installer/arches_installer/core/disk_layout.py:447-453 | the implied role accepts exactly the disks that are not removable |
| RoleOverrides.DeviceInForceIsTaken | installer/arches_installer/core/disk_layout.py:643-759 | a role whose descriptor in force names a device is given exactly that device |
| RoleOverrides.AutoInstallDeviceWins | installer/arches_installer/core/disk_layout.py:429-455 | a device named by the auto-install configuration is what the role gets, whatever machine and layout say |
| RoleOverrides.RoleTakesWhatItNeeds | installer/arches_installer/core/disk_layout.py:394-426 | each role gets one disk, or as many as the largest array on it needs: 2, 3 or 4 by level |
| CommandRunner.RanThen | installer/arches_installer/core/disk_layout.py:1222-1460 | runs compose: a complete run followed by another is a run of the concatenated program, under the same failures |
| CommandRunner.Runner.IssueGuarded | installer/arches_installer/core/disk_layout.py:1070-1082 | a guarded body issues its clean-up whether or not a command fails |
| LayoutApply.CreatePartitionsForRole | installer/arches_installer/core/disk_layout.py:1155-1219 | it runs the creation program of one disk and keys the paths by layout index |
| LayoutApply.FormatPartition | installer/arches_installer/core/disk_layout.py:949-1047 | it runs the formatting program of the partition |
| LayoutApply.FormatMembers | installer/arches_installer/core/disk_layout.py:1317-1384 | it runs the formatting or assembling program of all members and returns the effective device |
| LayoutApply.CreateAndMountSubvolumes | installer/arches_installer/core/disk_layout.py:1050-1124 | it runs the subvolume program and returns all subvolume names |
| LayoutApply.MountRootFirst | installer/arches_installer/core/disk_layout.py:1414-1424 | the first pass mounts the first root partition and nothing else |
| LayoutApply.MountRest | installer/arches_installer/core/disk_layout.py:1426-1444 | the second pass runs the mount program of every other partition in layout order |
| LayoutAppliers.CollectDisks | installer/arches_installer/core/disk_layout.py:1266-1274 | every assigned disk is listed once, in assignment order |
| LayoutAppliers.CreateForRole | installer/arches_installer/core/disk_layout.py:1282-1288 | after a complete run the table holds the node of each of the role's partitions on each of its disks |
| LayoutAppliers.ApplyDiskLayoutResolved | installer/arches_installer/core/disk_layout.py:1222-1460 | under any failures it issues exactly a run of the general program, and when it returns, the general map |
| LayoutAppliers.ApplyDiskLayout | installer/arches_installer/core/disk_layout.py:1497-1656 | under any failures it issues exactly a run of the legacy program, and when it returns, the legacy map |
| DiskWorld.RunSafe | installer/arches_installer/core/disk_layout.py:1222-1460 | if the commands of a program keep to the rules, so does the trace of every run of it, aborted or not |
| ApplierSafety.EveryRunIsSafe | installer/arches_installer/core/disk_layout.py:1266-1384 | whatever fails, only assigned disks are named, each is wiped at most once, and nodes are consumed at most once, after they were made |
| ApplierSafety.CompleteRunsWipeAll | installer/arches_installer/core/disk_layout.py:1266-1276 | a complete run wipes every assigned disk |
| ApplierSafety.MembersDisjoint | installer/arches_installer/core/disk_layout.py:1317-1325 | no node is a member of two partitions |
| ApplierSafety.MembersDistinct | installer/arches_installer/core/disk_layout.py:1317-1325 | the members of one partition are different nodes |
| LegacyRefinement.ProgramsEqual | installer/arches_installer/core/disk_layout.py:1222-1656 | for a layout on one role, including homogeneous btrfs RAID, both appliers have the same program unless swap is mounted |
| LegacyRefinement.ReportsAgree | installer/arches_installer/core/disk_layout.py:1387-1460 | and they return the same esp, root, boot, home, root filesystem and subvolumes |
| LegacyRefinement.MountedSwapDiffers | installer/arches_installer/core/disk_layout.py:1429-1431 | with a mounted swap partition there are runs in which their commands differ |
| LegacyRefinement.RefinesLegacyExactly | installer/arches_installer/core/disk_layout.py:1222-1656 | on one disk without RAID they behave alike under all failures if and only if no swap partition is mounted other than at `/`, or some size does not parse |
| LayoutAborts.AbortsExactly | installer/arches_installer/core/disk_layout.py:1240-1384 | the general program raises if and only if nothing is assigned, a partition has no disk, its size does not parse, or its array has no backend |
| LayoutAborts.LegacyAbortsExactly | installer/arches_installer/core/disk_layout.py:1497-1656 | the legacy one raises if and only if some size does not parse, whatever its devices and RAID |
| LayoutAborts.CompletesExactly | installer/arches_installer/core/disk_layout.py:1222-1460 | on assigned disks a run without failing commands completes if and only if every size parses and every array can be built; otherwise no run completes |
| LayoutAborts.AbortsAfterTheWipe | installer/arches_installer/core/disk_layout.py:1266-1384 | if one cannot be made, the run without failures first issues all wipes of all assigned disks, and then stops |
| LayoutAborts.UnparsedSizeFormatsNothing | installer/arches_installer/core/disk_layout.py:1266-1290 | if a size does not parse, no run formats, assembles or mounts anything |
| LayoutAborts.UnparsedSizeWipes | installer/arches_installer/core/disk_layout.py:187-205 | a layout that the validator accepts whose run consists of the wipes alone |
| LayoutAborts.BtrfsRaid5Wipes | installer/arches_installer/core/disk_layout.py:1331-1341 | a btrfs array of level 5 is accepted, costs the disks their contents and is never built |
| InstallOutcome.CompleteRunInstalls | installer/arches_installer/core/disk_layout.py:1222-1460 | in every complete run each partition is made once on each of its disks, with its number, size, type and label, then formatted once with its own tool on each node, over all of them or on its array, then mounted once, or its subvolumes are, at its mount point, the root first; and nothing else is formatted |
| InstallOutcome.ResolvedRunInstalls | installer/arches_installer/core/disk_layout.py:643-1460 | so it is for every validated layout with declared roles, once resolved |
| LegacyOutcome.CompleteLegacyRunInstalls | installer/arches_installer/core/disk_layout.py:1497-1657 | in every complete run of the other applier, on whole disks of different names, each partition is made once on each disk, formatted on each (ESP), over all (btrfs RAID) or on the first, and the first disk's partitions are mounted once, swap included, the root first |
| LayoutLaws.NumberedDensely | installer/arches_installer/core/disk_layout.py:1155-1219 | in every run the partitions created on a disk are 1, 2, ... of its role in layout order, up to a size that does not parse; in a complete run all of them |
| LayoutLaws.FillIsLast | installer/arches_installer/core/disk_layout.py:286-298 | in a validated layout only the last partition on a disk takes the remaining space |
| LayoutLaws.ResolvedDisksAreDisjoint | installer/arches_installer/core/disk_layout.py:685-759 | resolution meets what the safety of the applier asks for: nonempty, distinct, disjoint lists of whole disks |
| LayoutLaws.ResolvedLayoutApplies | installer/arches_installer/core/disk_layout.py:1252-1264 | for a validated layout with declared roles, every partition's role is assigned |
| LayoutLaws.ResolvedInstallIsSafe | installer/arches_installer/core/disk_layout.py:643-1460 | resolving and then applying is safe in every run |
| LayoutLaws.ResolvedInstallCompletesExactly | installer/arches_installer/core/disk_layout.py:643-1460 | a validated layout with declared roles, once resolved, is installed by a run without failing commands if and only if every partition can be made; otherwise all assigned disks are wiped |
| LayoutLaws.RaidMembers | installer/arches_installer/core/disk_layout.py:394-426 | every RAID partition has at least its level's minimum of members, on different disks |
| LayoutLaws.SwapFollowsLayout | installer/arches_installer/core/disk_layout.py:1400-1401 | the map lists the swap partitions once each, in layout order |
| LayoutLaws.ExtraMountsFollowLayout | installer/arches_installer/core/disk_layout.py:1402-1412 | the map lists each mount outside the canonical ones once, in layout order |
| LayoutLaws.FieldsFollowLayout | installer/arches_installer/core/disk_layout.py:1387-1399 | root, home and ESP are the devices of the last partitions that claim them |
| LayoutLaws.EffectiveNodesDistinct | installer/arches_installer/core/disk_layout.py:1311-1384 | different partitions are reported under different devices |
| InstallReport.ReportDescribes | installer/arches_installer/core/disk_layout.py:1385-1460 | the map names, by the node or array each file system is on, the last root with its file system, the last home, the last ESP, the subvolumes of the first root, all swap partitions and all other mounts, and nothing else |
| RolesState.BuildTables | installer/arches_installer/core/disk_layout.py:591-596 | each table maps an identifier to the last candidate that has it |
| RolesState.ValidateDiskRoles | installer/arches_installer/core/disk_layout.py:570-640 | the report holds, role by role, exactly the missing identifiers, the relocations and the unaffected roles |
| RolesState.MissingMeansGone | installer/arches_installer/core/disk_layout.py:477-640 | after persisting, a role is missing if and only if one of its disks is gone, and exactly those disks' identifiers are listed |
| RolesState.RelocatedMeansMoved | installer/arches_installer/core/disk_layout.py:622-636 | with unique identifiers, exactly the old and new paths of the surviving disks that moved are listed |
| RolesState.OkMeansInPlace | installer/arches_installer/core/disk_layout.py:477-640 | with unique identifiers, a role is fine if and only if it has disks, none of them is gone and none has moved |
| RolesState.FreshInstallIsOkExactly | installer/arches_installer/core/disk_layout.py:477-640 | with all disks in place, a role is fine if and only if each of its disks has a stable identifier |
| RolesDrift.LiveAnswers | installer/arches_installer/core/disk_layout.py:590-620 | the disk found for a record is the last with its serial, else the last with its World-Wide Name, else the last with the first by-id link that any disk has |
| RolesDrift.MissingListsExactly | installer/arches_installer/core/disk_layout.py:606-632 | lost disks are listed by serial, else by World-Wide Name, else as unknown |
| RolesDrift.RelocatedExactly | installer/arches_installer/core/disk_layout.py:622-636 | whatever identifiers the disks share, exactly the recorded path and the path of the disk that answers are listed, where they differ |
| OwnershipTags.OwnerReadsBack | installer/arches_installer/core/hardware.py:551-581 | the owner of a tagged file reads back as the slug if and only if the slug is nonempty, trimmed, on one line and within the bytes read |
| OwnershipTags.TaggedIsManaged | installer/arches_installer/core/hardware.py:551-581 | a tagged file counts as managed if and only if its slug leaves a trace in the bytes read |
| OwnershipTags.RecognisedExactly | installer/arches_installer/core/hardware.py:567-581 | it leaves a trace if and only if a character of its first line, within the bytes read, is no white space |
| OwnershipTags.EmptySlugIsNotRecognised | installer/arches_installer/core/hardware.py:567-581 | an empty slug and a blank one leave none |
| OwnershipTags.ManagedExactly | installer/arches_installer/core/hardware.py:567-581 | any file is managed if and only if it starts with the header's prefix and a character after it, on that line and within the bytes read, is no white space |
| OwnershipTags.RetagReplacesExactly | installer/arches_installer/core/hardware.py:551-564 | tagging twice is tagging with the last slug if and only if the first slug has no newline but at its end |
| HardwareFiles.ResolveFiles | installer/arches_installer/core/hardware.py:584-613 | the nested loops build the map of desired files |
| HardwareFiles.LastSourceWins | installer/arches_installer/core/hardware.py:598-613 | each file comes from the last source that has it, the machine profile being last |
| HardwareFiles.HeaderRecognisesExactly | installer/arches_installer/core/hardware.py:551-581 | with the management header, a written file is recognised if and only if its slug leaves a trace in the bytes read |
| HardwareFiles.OpsExact | installer/arches_installer/core/hardware.py:711-759 | a reconcile performs exactly the removals of orphans and the writes of missing or outdated files |
| DeployedTexts.DesiredTextExact | installer/arches_installer/core/hardware.py:526-613 | the desired text is the companion file's if the value names one in less than 256 characters without newline or `=`, else the value, ending in exactly one newline; the last source that has the file gives it |
| DeployedTexts.NewlinesTranslate | installer/arches_installer/core/hardware.py:546 | reading turns each carriage return, with the line feed after it if there is one, into a line feed |
| DeployedTexts.DeployedFileReads | installer/arches_installer/core/hardware.py:551-767 | after a deployment, and after a reconcile where nothing was in its place, the file reads as its header line and that text, without blank lines around it |
| TargetRoot.Root.RemoveOrphans | installer/arches_installer/core/hardware.py:717-732 | step 1 performs exactly the removals, or a prefix of them if it is stopped |
| TargetRoot.Root.WriteDesired | installer/arches_installer/core/hardware.py:734-759 | step 2 performs exactly the writes, or a prefix of them if it is stopped |
| TargetRoot.Root.Reconcile | installer/arches_installer/core/hardware.py:680-761 | the whole pass performs exactly the operations of its specification, or a prefix, and reports them by category |
| TargetRoot.Root.Deploy | installer/arches_installer/core/hardware.py:625-677 | a deployment that does not raise leaves every desired file tagged and reports their names; one that raises at a directory, or is stopped, has made exactly the writes before that place |
| ReconcileLaws.ReconcileIsCanonicalExactly | installer/arches_installer/core/hardware.py:711-759 | a reconcile reaches the canonical state if and only if no managed file is a carriage-return variant of the desired one |
| ReconcileLaws.EveryStepSparesForeign | installer/arches_installer/core/hardware.py:711-759 | wherever it is stopped, every file and directory that is not managed is as it was |
| ReconcileLaws.HistoryIndependent | installer/arches_installer/core/hardware.py:680-761 | after any series of complete and stopped runs, a full run ends as if it had been the first |
| ReconcileLaws.AfterRunsAt | installer/arches_installer/core/hardware.py:711-759 | after any series of complete and stopped runs each place holds what the last run to reach it wanted there, or what was there at first |
| ReconcileLaws.RunsAreForgottenExactly | installer/arches_installer/core/hardware.py:680-761 | without conditions on directories or configurations, any series of complete and stopped runs is forgotten if and only if at each place a full run treats what was last brought as it would treat what was there at first |
| ReconcileLaws.ReplacedMeansNoneStays | installer/arches_installer/core/hardware.py:680-761 | on directories without carriage returns that means: no file brought last is unrecognised, or equal to the desired one but for carriage returns |
| ReconcileLaws.EarlierRunIsForgottenExactly | installer/arches_installer/core/hardware.py:680-761 | without conditions on the configurations, an earlier complete run is forgotten if and only if none of its files lingers: unrecognised, or equal to the desired one but for carriage returns |
| ReconcileLaws.RepeatChangesNothing | installer/arches_installer/core/hardware.py:734-759 | a second run leaves the directories as they are |
| ReconcileLaws.RepeatIsIdleExactly | installer/arches_installer/core/hardware.py:734-759 | and has nothing to do if and only if no recognised desired file holds a carriage return |
| ReconcileLaws.OrphanIsRemovedExactly | installer/arches_installer/core/hardware.py:717-732 | a file that a run brought is removed later if and only if its slug is recognised |
| ReconcileLaws.DeployThenReconcileExactly | installer/arches_installer/core/hardware.py:625-761 | reconciling what was just deployed changes nothing if and only if the root held no managed file of another name |
| ReconcileLaws.DeployThenIdleExactly | installer/arches_installer/core/hardware.py:625-761 | and reports nothing if and only if, besides, no recognised file holds a carriage return |
| HardwareMatching.SuggestMachine | installer/arches_installer/core/hardware.py:455-478 | the loop returns the first specific profile that matches, or failing that the first generic one |
| HardwareMatching.ResolveHardware | installer/arches_installer/core/hardware.py:481-517 | the loops collect the quirks that the specification does, in the same order |
| HardwareMatching.QuirkMapExact | installer/arches_installer/core/hardware.py:502-513 | a quirk is included if and only if it matched or the machine names it and it exists; each slug once |
| HardwareMatching.FingerprintCoversMatching | installer/arches_installer/core/hardware.py:770-793 | equal fingerprints mean equal resolved sources: matching reads nothing that is not hashed |
| HardwareMatching.PayloadsEqualExactly | installer/arches_installer/core/hardware.py:770-793 | two hashed payloads are equal if and only if PCI ids, vendor, product, chassis type and driver profile are |
| SourceSelection.QuirkMatchesExactly | installer/arches_installer/core/hardware.py:76-101 | a quirk matches if and only if it states something and all it states is so: one of its devices, some device of its vendor, the chassis |
| SourceSelection.SuggestedExact | installer/arches_installer/core/hardware.py:138-182 | the profile is the first that fits among those naming a vendor or product, else the first that fits by chassis alone, else none |
| SourceSelection.SourcesExact | installer/arches_installer/core/hardware.py:446-523 | what is deployed comes from exactly the quirks that fit, in catalog order, then those only the machine includes, in its order, then the machine profile |
| SourceSelection.MachineFileWins | installer/arches_installer/core/hardware.py:593-611 | a file of the machine profile is deployed with the profile's text, whatever the quirks say |
| HardwareRescan.RunRescan | installer/arches_installer/core/hardware_rescan.py:267-428 | forced, or on another or no fingerprint, with budget enough and not dry, it returns 0 after a full reconcile and records the hash of the hardware after chwd; dry, or unforced on an equal fingerprint, it changes nothing; and wherever it is stopped it leaves the state and code that the specification of a boot gives |
| HardwareRescan.BootDoesItsWork | installer/arches_installer/core/hardware_rescan.py:267-428 | a forced boot, or one on another or no fingerprint, unless dry or stopped, leaves every desired file unless something foreign is in its place, no other managed file, the manifest, and the hash of the hardware after chwd; any other boot changes nothing |
| HardwareRescan.FastPathIsSound | installer/arches_installer/core/hardware_rescan.py:276-428 | over every sequence of boots, a boot that takes the fast path finds the files as a full reconcile would leave them |
| HardwareRescan.FastPathAfterInterruptionExactly | installer/arches_installer/core/hardware_rescan.py:276-428 | after a series of interrupted runs, it does if and only if at each place they reached, what was brought there last is what the recorded hardware calls for, or is not recognised |
| HardwareRescan.FastPathAfterStoppedBootExactly | installer/arches_installer/core/hardware_rescan.py:276-428 | after one interrupted run on clean files, if and only if it was stopped before its first change or had none to make |
| HardwareRescan.CompleteRunRepairs | installer/arches_installer/core/hardware_rescan.py:361-428 | a complete run after interrupted ones on clean files leaves the files as if they had never been |
| HardwareRescan.CompleteRunRepairsExactly | installer/arches_installer/core/hardware_rescan.py:361-428 | on any files it leaves them settled, and as if the others had never been if and only if at each place it treats what they brought as it would treat what was there before |
| HardwareRescan.DryRunAgreesExactly | installer/arches_installer/core/hardware_rescan.py:329-359 | after a complete run, a dry run reports no difference if and only if that run left each desired file as one of ours: nothing foreign in its place, and its mark recognised |
| StaleFastPath.InterruptionFoolsTheFastPath | installer/arches_installer/core/hardware_rescan.py:298-301 | a system and an interrupted boot after which the fast path is taken on the wrong files |
| Deduplication.Deduplicate | installer/arches_installer/core/module.py:361-369 | the `seen` loop computes the list without repetitions |
| Deduplication.DedupExact | installer/arches_installer/core/module.py:361-369 | that list has the same elements, once each, in the order of their first occurrences |
| ModuleResolution.ResolveModules | installer/arches_installer/core/module.py:269-353 | it accepts exactly the acceptable selections, returns them in category and slug order, and otherwise names a fault that is there |
| ModuleResolution.SelectionOrderIsIrrelevant | installer/arches_installer/core/module.py:269-353 | reordered selections are rejected alike, or accepted in one and the same order |
| ModuleResolution.AcceptedIsClosed | installer/arches_installer/core/module.py:298-314 | an accepted result is exactly the selection and closed under requirements |
| ModuleResolution.AcceptedIsConflictFree | installer/arches_installer/core/module.py:316-341 | it has no conflict and at most one desktop |
| ModuleResolution.NeededCategoriesComeFirst | installer/arches_installer/core/module.py:325-353 | before each module stands one of every category it needs, transitively, and none of those stands after it |
| ModuleResolution.EverythingReachesBase | installer/arches_installer/core/module.py:40-46 | every category but the base one depends on it, directly or not |
| ModuleResolution.MergedInstall | installer/arches_installer/core/module.py:152-168 | the loop returns the deduplicated concatenation of each phase |
| ModuleResolution.MergedServices | installer/arches_installer/core/module.py:170-175 | and that of the services |
| ModuleResolution.MergedExact | installer/arches_installer/core/module.py:152-175 | merged packages of each phase and merged services are those of the modules, once each |
| ModuleResolution.MergeIgnoresSelectionOrder | installer/arches_installer/core/module.py:148-175 | merged packages, services and roles do not depend on the selection order |
| ModuleMerging.MergedInModuleOrder | installer/arches_installer/core/module.py:152-175 | in a merged list, what earlier modules bring comes first, and each module's own order is kept |
| ModuleMerging.RolesExact | installer/arches_installer/core/module.py:147-150 | the roles are the slugs of exactly the modules that have one, in module order |
| GpuStacks.EnvOverride | installer/arches_installer/core/gpu_stacks.py:107-122 | the loop computes the stacks in force |
| GpuStacks.ArbitrateLlamaCpp | installer/arches_installer/core/gpu_stacks.py:125-167 | it returns the winner's module and the specified exclusions |
| GpuStacks.ExcludedExact | installer/arches_installer/core/gpu_stacks.py:145-167 | exactly the modules of the losing variants are excluded, never the winner's |
| GpuStacks.ResolveGpuStacks | installer/arches_installer/core/gpu_stacks.py:170-236 | it fails exactly on an unknown stack, and else returns the specified resolution |
| GpuStacks.MergeSlugs | installer/arches_installer/core/template.py:133-143 | the two loops compute the effective modules |
| GpuStacks.EffectiveSlugsExact | installer/arches_installer/core/template.py:129-143 | they are what the template or a stack names, less the losing variants, once each |
| StackArbitration.LosersAreExcluded | installer/arches_installer/core/gpu_stacks.py:125-167 | excluded are exactly the modules of declared variants other than the winner, which is Vulkan or else the first declared |
| StackArbitration.WinnersModule | installer/arches_installer/core/gpu_stacks.py:145-167 | the winner's module is the one of its variant, and it is never excluded |
| StackArbitration.InstallsExactly | installer/arches_installer/core/template.py:125-143 | installed are exactly the modules that the template or a stack in force names and that do not lose, once each |
| StackArbitration.OverrideReads | installer/arches_installer/core/gpu_stacks.py:107-122 | names joined by commas and white space read back as these names, once each, and replace the template's |
| StackArbitration.BlankOverride | installer/arches_installer/core/gpu_stacks.py:113-115 | a blank variable leaves the template's |
| IsoConfig.ArbitrateModules | scripts/iso-config.py:88-129 | the script's own loops compute its exclusions |
| StackArbitration.BuildExcludesExactly | scripts/iso-config.py:88-129 | the script excludes exactly the modules that lose among the stacks it knows |
| IsoConfig.ArbitrationsAgree | scripts/iso-config.py:88-129 | both arbitrations exclude the same modules in the same order |
| IsoConfig.CollectBuildSlugs | scripts/iso-config.py:330-368 | the loops compute the set to build, before the master-script step |
| IsoConfig.OneTemplateAgrees | scripts/iso-config.py:330-368 | for one template with known stacks, build and installer agree on every module |
| IsoConfig.TemplatesAgreeExactly | scripts/iso-config.py:330-368 | for several, they agree if and only if no template keeps a module that another excludes |
| IsoConfig.OverriddenTemplatesAgree | scripts/iso-config.py:68-85 | with `ARCHES_GPU` set they always agree |
| IsoConfig.TemplatesCanDisagree | scripts/iso-config.py:368 | two templates for which they do not |
| Appletsrc.IdAllocator.Next | modules/kde/ansible/files/generate_appletsrc.py:58-61 | numbers are handed out one by one |
| Appletsrc.AppletsrcWriter.AddWidgets | modules/kde/ansible/files/generate_appletsrc.py:122-222 | the widget loop appends exactly the specified sections and returns the panel's applet numbers |
| Appletsrc.AppletsrcWriter.PatchSection | modules/kde/ansible/files/generate_appletsrc.py:224-228 | the first section with the header is changed, and nothing else |
| Appletsrc.AppletsrcWriter.Build | modules/kde/ansible/files/generate_appletsrc.py:76-249 | a build appends exactly the specified sections |
| AppletsrcLaws.RenderInjective | modules/kde/ansible/files/generate_appletsrc.py:78-222 | different headers are different texts |
| AppletsrcLaws.NothingIsReused | modules/kde/ansible/files/generate_appletsrc.py:76-249 | for every widget list no number is introduced twice and header texts are pairwise distinct |
| AppletsrcLaws.AppletOrderIsExact | modules/kde/ansible/files/generate_appletsrc.py:224-228 | `AppletOrder` is exactly the numbers of the panel's applet sections, in widget order |
| AppletsrcLaws.AppletOfWidgetThere | modules/kde/ansible/files/generate_appletsrc.py:200-211 | the k-th of them is an applet with the k-th widget's plugin |
| AppletsrcLaws.TrayReferencesExist | modules/kde/ansible/files/generate_appletsrc.py:130-163 | every `SystrayContainmentId` names a system-tray containment of the same file |
| AppletsrcContents.FrameExact | modules/kde/ansible/files/generate_appletsrc.py:76-237 | the file begins with the desktop and the panel containment and ends with the dialog, entry by entry |
| AppletsrcContents.PanelGroupExact | modules/kde/ansible/files/generate_appletsrc.py:113-249 | the panel's group holds the applet order and the geometry asked for, and nothing else |
| AppletsrcContents.WidgetHasApplet | modules/kde/ansible/files/generate_appletsrc.py:122-211 | the k-th number in the order is that of an applet of the k-th widget's plugin |
| AppletsrcContents.GroupsExact | modules/kde/ansible/files/generate_appletsrc.py:212-222 | the configuration groups in the file are exactly those of the widgets, verbatim, each under its own applet |
| AppletsrcContents.TraysComplete | modules/kde/ansible/files/generate_appletsrc.py:130-198 | every tray widget has its reference, its containment, its item list and an applet for each item |

## Left out

- Detection (lsblk, udev, sysfs, lspci, DMI) and TOML and JSON parsing: their results are inputs; JSON persistence is a faithful copy, up to the order of roles.
- pacstrap, keyring, chroot configuration, bootloader, snapper, first-boot scripts, user interface, networking, log files and argument parsing.
- What sgdisk, mkfs, mdadm and mount do beyond creating, formatting, assembling and mounting a node; directories made with `mkdir` and the temporary mount directory, which is identified with the node mounted on it.
- `setup_raid_mdadm`, `cleanup_mounts`, `validate_mounts`, `detect_mounts` and the human-readable sizes.
- The wording of error messages: errors are values, and the validator's are compared as sets. Text is ASCII, so that a character is a byte.
- DiskDescriptor.SizeWindow: the bounds of ten percent are exact integers where the source uses floating point.
- DiskLayout.LevelMinimum: RAID levels are the texts the validator accepts; `int("01")` and the like, which it rejects, are not modelled.
- LayoutPrograms.NonEmptyLists: the safety of the applier is stated for assignments without empty lists, which is what resolution gives.
- LayoutLaws.ResolvedLayoutApplies: stated for layouts that declare disks, since the validator does not compare roles when none is declared; the applier then raises before the first command.
- LegacyRefinement.RefinesLegacyExactly: stated for one disk and no RAID; with several disks `ProgramsEqual` gives one direction. The trace safety of the legacy applier with arbitrary extra devices is not stated.
- RolesState.RelocatedMeansMoved: needs that at most one live disk answers to each recorded one; `RelocatedExactly` does not.
- DescriptorMeaning.TextSelectsExactly: for size words that are not zero; a zero size leaves bounds that depend on its place (`OrderIndependentExactly`). A pattern and a vendor name of two words are compared with the joined attributes.
- DescriptorMeaning.FractionSize: exact where the source multiplies floating-point numbers.
- SourceSelection.SourcesExact: for quirks of different slugs, which are file names of one directory.
- RolesState.Record: model, size, transport and descriptor are recorded by the source and never read by the validation.
- ReconcileLaws.HistoryIndependent: needs that the files of earlier runs read back as written and are recognised; without that condition `RunsAreForgottenExactly` says when the past is forgotten.
- HardwareRescan.CompleteRunRepairs: needs clean files likewise; `CompleteRunRepairsExactly` does not.
- HardwareRescan.FastPathAfterStoppedBootExactly: stated for clean files; `FastPathAfterInterruptionExactly` covers the others.
- TargetRoot.Root.Deploy: when it raises or is stopped, the names it returns are not described. Unreadable files, symbolic links and write permissions are not modelled; an empty directory and a missing one are the same.
- HardwareRescan.RunRescan: whether the initramfs is rebuilt, the log, the status command and the disk-role report are left out; a fingerprint written by the installation itself is not a starting state.
- HardwareRescan.FastPathIsSound: others may change only files that are not managed and whose names no quirk or machine profile uses; quirk and profile files are fixed.
- IsoConfig.CollectBuildSlugs: the step that adds the llama.cpp master script and the filter on `build.sh` are not part of this model.
- ModuleResolution.ResolveModules: categories are the valid ones, which loading enforces; names, descriptions and the live-session settings are not modelled.
- Appletsrc.AppletsrcWriter.Build: location, alignment and hiding are numbers already looked up; a widget without a plugin, which raises, and writing the file are not modelled.
