# Proofs about the storage lab

The lab builds throwaway Proxmox nodes, runs storage tests on them and turns the results into
a verdict. This project models the decisions the lab itself takes between its calls to qemu,
ssh and the Proxmox tools, and proves what they keep. The outside world appears as parameters:
which step fails, what a guest or cluster answers, how long a call takes. Files are maps from
names to contents, time is a counter, and every theorem holds for all such worlds.

The main results, by what the lab promises:

- **A cached image holds what its name says** (`Images.dfy`, `ImageHistory.dfy`). Over every
  history of bakes and node builds, each stopped at any step, a variant image holds exactly the
  bakes its name spells, in order, if and only if no build it came from was killed before its
  machine had powered off, which nobody looks at. That bake.sh is the same for the same profile
  name is assumed. The conditions on profile names are exact families: each one left out has a
  lemma that shows the collision.
- **A lab comes up fresh, or keeps everything** (`Boot.dfy`, `BootThreads.dfy`,
  `BootGuests.dfy`, `Lab.dfy`, `Prepare.dfy`). Nodes boot in parallel threads, and guests that
  are up write meanwhile; every interleaving ends like booting one node after another, with
  exactly those writes added, and `BringUp` is proved against that serial account. `Prepare`
  goes from the profiles to what each running node shows.
- **A task id is found wherever pvesh puts it** (`Upid.dfy`, `ProxiedLog.dfy`, `Json.dfy`),
  **a quoted command arrives as it was** (`Quoting.dfy`), **every name resolves to its cluster
  address** (`Hosts.dfy`). The last promise is not always kept: `MemberResolves` and `AllSurvive`
  give, for every initial file and every member, the condition under which it is and no other.
- **A dead node takes no finished result with it, and the verdict means something**
  (`RunSuites.dfy`, `Report.dfy`): `VerdictOfARun` goes from test files on the node, and
  whatever results were there before, to the exit status of the report. A finished file's
  results stay; but a report that was cut off while it was fetched keeps them out of the summary.
- **Waiting, destroying and renaming against an unhelpful cluster** (`Waiting.dfy`,
  `Destroy.dfy`, `NodeRename.dfy`), **test disks, ports and storages that never collide**
  (`Devices.dfy`, `Nodes.dfy`, `Storages.dfy`, `EnvFile.dfy`), **moves that are whole or did
  not happen** (`Volumes.dfy`, `Payloads.dfy`).

`Text.dfy` holds strings as the host tools see them, `Wrappers.dfy` options and results.
`dafny verify dfyconfig.toml` checks everything.

Code that changes things step by step (the image store, a lab, the hosts file, results
collection, guest configs, the data guard) is a class whose methods keep the original's order
of steps, its branches and its failure points. Each method is proved against a function of the
old state, or against what it must leave, and the lemmas are about those.

Where the code does not do what its documentation says, the model follows the code:

- `README.md:181-184` says a whole run clears previous results. No code does, so an earlier
  run's results count, also in the place of a file that did not run: `RunSuites.LeftoversStay`,
  `RunSuites.OldResultsStandIn`.
- `labkit/remote/cluster-hosts.sh:4-9` says every name resolves to a cluster address. It need
  not when a comment sign follows an old name directly, or when the file does not end in a line
  feed: `Hosts.CommentedNameIsMissed`, `Hosts.MemberResolves`. A file that does not end in a line
  feed can also lose its last line, though it names no member: `Hosts.AllSurvive`,
  `Hosts.BackupLineIsLost`.
- `labkit/images.py:92-99` takes any node image it finds for a finished one:
  `Images.TornNodeImageIsServed`. `labkit/images.py:252-261` publishes a bake whose machine had
  to be killed while it was still running: `Images.CutOffBakeIsServed`.
- `labkit/run.py:187-188` says a loss is bounded to the file at hand. Its results are, but not
  the report over them: `RunSuites.CutReportHidesTheRest`.
- `labkit/images.py:179-181` says a node past its check has no guests. It may have containers:
  `NodeRename.ContainersStay`, `NodeRename.WhatPassingVouchesFor`.
- `labkit/nodes.py:40-50` says two labs can run on one host. For labs of up to ten nodes that
  holds exactly when their names do not hash to the same of forty offsets and at most one of
  them is a cluster, as all clusters are on one link: `Nodes.LabsShareAHost`,
  `Nodes.TwoClustersMeet`.
- `labkit/qemu.py:12-17` puts test disks at slot 0x13 and up. The code has the cluster network
  at 0x13 and disks from 0x14: `Devices.DevicesAreApart`.
- `suite/helpers/pve.py:82-88` wants the id out of any text. A text that starts with one is
  returned whole: `Upid.MarkedTextReturnedWhole`. A log that pvesh proxies is not stripped, as a
  streamed one is, so a line feed after the id comes along: `ProxiedLog.ProxiedIdKeepsItsLineFeed`.

## Model

| member | source | states |
|---|---|---|
| Images.KeyInjective | labkit/state.py:18-22 | different ordered bake lists, named as `prepare` names them, never share an image file |
| Images.NameSpellsBakes | labkit/run.py:75-80 | a variant name reads back as the ordered list of bakes it was made from |
| Images.BakesSpellName | labkit/run.py:75-80 | every variant string is the name of the list it reads back as: naming and reading are inverse both ways |
| Images.NodePathInjective | labkit/state.py:18-22 | every node of every variant has an image file of its own |
| Images.KeyIsNoOtherFile | labkit/state.py:18-22 | no variant image is any node image, temporary file or scratch overlay |
| Images.PlusInNameCollides | labkit/run.py:78 | a profile name holding `+` shares its image with a two-bake chain, for every such name |
| Images.BaseAsFirstNameCollides | labkit/run.py:78 | a first profile called `base` shares its image with the unbaked base |
| Images.NodeLikeNameCollides | labkit/state.py:18-22 | a profile name ending in `-node<n>` takes the file of some variant's node n |
| Images.ScratchContents | labkit/images.py:42-47 | what the flattened overlay holds is its backing image's contents plus its own layers, whatever scratch file was there before |
| Images.ImageStore.constructor | labkit/images.py:1-15 | a new store holds the base image and nothing else |
| Images.ImageStore.BakeProfile | labkit/images.py:189-262 | no bake.sh, missing base, cache hit and build are told apart; whatever step fails, the published image is the old one, none, or the base's contents plus this bake, and no build machine is left running; a machine that is killed before it has powered off is no failure, and its bake is published cut off |
| Images.ImageStore.RunBake | labkit/images.py:223-262 | a bake succeeds exactly if no step fails that is looked at, powering off is not; success publishes and removes both scratch files, any failure short of dying after the replace leaves the published file as it was |
| Images.ImageStore.BakeScratch | labkit/images.py:223-256 | up to killing the machine only the scratch overlay is touched; it starts from the base, never from an earlier scratch, and holds the bake, whole or cut off |
| Images.ImageStore.Flatten | labkit/images.py:42-47 | publication is all or nothing: a failed convert or replace touches only the temporary file |
| Images.ImageStore.NodeImage | labkit/images.py:79-149 | cached, missing-base and rebuilt cases; a rebuilt image is complete exactly when the build returned and neither machine was killed while running, and no other file is touched |
| Images.ImageStore.RebuildNode | labkit/images.py:96-149 | the two boots: a build returns exactly if no step fails that is looked at, and a machine killed while running leaves the image torn all the same |
| Images.ImageStore.BakeNext | labkit/run.py:76-80 | one turn of the chain keeps the store's promise, names the longer chain and says whether it is whole; from a store with its base it fails only if the bake does |
| Images.ImageStore.BakeChain | labkit/run.py:75-80 | the loop ends on the variant whose name spells exactly the baking profiles in order; its image is there, whole exactly if the longest part found in the store was and no machine of the rest was killed while running, and no node image was touched |
| Images.ImageStore.DeriveNodes | labkit/run.py:88-90 | one image a node; one found there is kept as it is, and one built now is complete exactly if neither of its machines was killed while running |
| Images.ImageStore.PrepareImages | labkit/run.py:75-90 | after a successful prepare the variant holds exactly its profiles' bakes in order, if and only if nothing it was built from was cut off; a store that kept its promise keeps it, also after a failed one |
| Images.BakeKeepsKeyed | labkit/images.py:189-262 | no bake, finished, stopped anywhere or cut off, makes any published image hold other bakes, or in another order, than its name spells |
| Images.BakeKeepsOthers | labkit/images.py:189-262 | a bake touches no variant but its own |
| Images.ChainGrows | labkit/run.py:75-80 | a chain one bake longer is whole exactly if it was whole and this bake's machine was not killed while running |
| Images.BakeKeepsNodes | labkit/images.py:189-262 | no bake touches a node image |
| Images.NodeKeepsKeyed | labkit/images.py:98-149 | no node build, finished or not, touches a variant image |
| ImageHistory.HistoryKeyed | labkit/images.py:79-262 | by induction over every sequence of builds: every variant on disk holds the bakes its name spells, each whole or cut off, and every node image lies over its variant |
| ImageHistory.VariantHolds | labkit/images.py:79-262 | over every history, what a variant holds layer by layer, from the sequence of builds alone |
| ImageHistory.EveryVariantHoldsItsBakes | labkit/images.py:1-15 | over every history of bakes and node builds failing at any step, a variant holds exactly the bakes of its name, in order, if and only if no build it came from was killed before its machine had stopped |
| ImageHistory.UncutIsClean | labkit/images.py:252-256 | so where every machine powers off in time, always |
| ImageHistory.NodeIsAsLastBuilt | labkit/images.py:92-149 | over every history, a node image is complete exactly if the last build that rewrote it returned with both machines powered off in time |
| ImageHistory.EveryNodeShowsItsBakes | labkit/images.py:7-10 | over every history, a node boots into exactly its profiles' bakes under its own identity if and only if both hold |
| Images.NodeShowsItsVariant | labkit/images.py:7-10 | a node image shows its variant's bakes under its own identity and nothing else, exactly if it is complete and the variant whole |
| Images.TornNodeImageIsServed | labkit/images.py:92-99 | a node build that stops while writing the identity is served by the next call as a finished image: publication is atomic for bakes only |
| Images.CutOffBakeIsServed | labkit/images.py:252-262 | a bake whose machine is killed while running is published as a success, though not whole, and served from then on |
| Boot.DirNameInjective | labkit/lab.py:84 | two nodes never share a working directory |
| Boot.DiskFileInjective | labkit/lab.py:103 | two disks never share a file |
| Boot.DisksKeep | labkit/lab.py:102-106 | providing disks changes no file that is there, wherever it stops |
| Boot.NewDisksAreBlank | labkit/lab.py:102-106 | whatever is new is a blank disk numbered 1 to N |
| Boot.AllDisksThere | labkit/lab.py:102-106 | a boot that comes up has every disk, attached in order |
| Boot.FreshBootIsPristine | labkit/lab.py:90-106 | without reuse, or over a bare directory, what comes up is an unwritten overlay over the node's image and blank disks 1..N, with no other disk file left |
| Boot.ReusingBootKeeps | labkit/lab.py:91-105 | with reuse no existing overlay or disk loses a byte, even when the boot fails |
| Boot.BootSucceeds | labkit/lab.py:83-119 | a boot comes up exactly when its image exists and nothing it must make, start or reach fails; faults on files that are already there do not matter |
| Boot.OthersUntouched | labkit/lab.py:83-123 | booting N nodes changes no directory or machine but theirs |
| Boot.EarlierBootsDoNotShow | labkit/lab.py:83-123 | a node's boot ends the same whatever nodes booted before it |
| Boot.EachAsIfAlone | labkit/lab.py:121-123 | after all boots each node's files and machine are those of booting it alone |
| Boot.AllMeansEach | labkit/lab.py:121-123 | all come up exactly when each comes up from the starting state |
| BootThreads.StepKeepsAhead | labkit/lab.py:83-119 | every single file operation of a boot thread leaves its eventual end unchanged |
| BootThreads.StepIsLocal | labkit/lab.py:84 | a step of one thread is invisible to every other thread |
| BootThreads.RunKeepsAhead | labkit/lab.py:121-123 | over every schedule each thread still has the end it started with |
| BootThreads.RunLeavesOthers | labkit/lab.py:121-123 | no schedule touches a directory that is not a wanted node's |
| BootThreads.EndsAsIfAlone | labkit/lab.py:121-123 | under every schedule each thread ends with the outcome, files and machine of a boot on its own |
| BootThreads.EveryInterleavingAgrees | labkit/lab.py:121-123 | every interleaving of the boot threads ends in exactly the files, machines and outcomes of booting one node after another |
| BootThreads.StepDescends | labkit/lab.py:83-119 | every step of a thread that has not ended brings its end nearer |
| BootThreads.EnoughTurnsStop | labkit/lab.py:121-123 | a thread given enough turns has ended, whatever the others did in between |
| BootGuests.TurnKeepsEnd | labkit/lab.py:83-119 | no step of a thread and no write of a running guest changes how a thread will end, writes still to come included |
| BootGuests.RunKeepsEnd | labkit/lab.py:121-123 | nor does any run of them |
| BootGuests.OtherDirs | labkit/lab.py:121-123 | a directory that is no wanted node's changes by its own guest's writes only |
| BootGuests.GuestsOnlyAdd | labkit/lab.py:121-123 | with guests writing while other nodes boot, every interleaving ends in the outcomes and machines of booting one node after another, and in its files with exactly what was written, in order, behind them |
| Lab.ResetIsBare | labkit/lab.py:176-181 | a reset leaves no overlay and no test disk in any node's directory |
| Lab.LabState.constructor | labkit/lab.py:56-64 | a lab that was never up has no files, machines or environment |
| Lab.LabState.Down | labkit/lab.py:166-181 | every machine stops; a reset drops overlays, disks, logs and the environment and nothing else, no reset drops nothing; a lab that does not exist is left so |
| Lab.LabState.GuestWrite | labkit/lab.py:106-109 | a running guest can change its own overlay and attached disks only |
| Lab.LabState.DropDisks | labkit/lab.py:95-97 | the overlay and every disk*.raw go, one at a time, and no other file |
| Lab.LabState.ProvideDisks | labkit/lab.py:101-106 | the disk loop does what the step-free account of a boot says, and attaches disks 1..N in order |
| Lab.LabState.ProvideSystem | labkit/lab.py:86-99 | so does the part before it: missing image, wipe, overlay |
| Lab.LabState.BootNode | labkit/lab.py:83-119 | the imperative boot of a node refines the account of its end, and writes in its own directory only |
| Lab.LabState.BootNodes | labkit/lab.py:121-123 | all nodes boot, also after one failed, and success means every one came up |
| Lab.LabState.PrepareEach | labkit/lab.py:79-81 | the image step succeeds exactly if every wanted node's image can be had |
| Lab.LabState.BringUp | labkit/lab.py:56-145 | already running, image failure, boot failure, no nodes and success are told apart; the environment is written exactly on success, from the values the lab was started with, and is gone if a running lab was reset and did not come back |
| Lab.WhatBootsLeave | labkit/lab.py:66-119 | from any earlier history: booted one after another, a node not reused or stopped for a fresh start has no old byte; with reuse and nothing running, no file loses any |
| Lab.WhatComesUp | labkit/lab.py:66-123 | the same for any order of the threads' steps and of writes by guests already up: exactly those writes, and nothing older, show on a fresh node; a reused one has all it had and them |
| Prepare.NodesShow | labkit/run.py:75-90 | each node that comes up fresh runs on blank disks and shows its profiles' bakes in order under its own identity, exactly if its image is complete and its variant whole |
| Prepare.RaiseLab | labkit/run.py:88-90 | the same through the derivation of the node images and the fresh start of the lab, which succeeds if no step fails |
| Prepare.Prepare | labkit/run.py:66-90 | prepare up to the running lab: whatever ran before, each node shows exactly the bakes asked for and its identity, if and only if nothing its variant or its image came from was cut off or, for the image, left unfinished; and it gets there if no step fails |
| Nodes.HostnameInjective | labkit/nodes.py:61-63 | nodes have different names |
| Nodes.PortsApart | labkit/nodes.py:118-125 | with room between their offsets labs never share an ssh or a gui port |
| Nodes.PortsDisjoint | labkit/nodes.py:118-125 | two labs of any size forward disjoint ports exactly if there is room between their offsets for the lower one's nodes |
| Nodes.RoomForTen | labkit/nodes.py:40-50 | for labs of up to ten nodes that is exactly if their offsets differ |
| Nodes.SegmentsDisjoint | labkit/lab.py:49-51 | the cluster links of two labs have no member in common exactly if one lab is no cluster |
| Nodes.BuildsAreApart | labkit/images.py:50-52 | a machine that builds an image is on no lab's link |
| Nodes.KindsApart | labkit/nodes.py:118-125 | an ssh port is never a gui port, and neither is ever the bake's port, whatever the lab and index |
| Nodes.LabsShareAHost | labkit/nodes.py:40-50 | two labs can share a host, with no port and no member of a cluster link in common, exactly if there is room between their offsets and at most one of them is a cluster |
| Nodes.TwoClustersMeet | labkit/lab.py:49-51 | `lab` and any other lab, two nodes each, do not |
| Nodes.PortsOfALab | labkit/nodes.py:118-125 | within a lab all forwards differ, none is the bake's, and up to ten nodes all are real ports |
| EnvFile.ReadEnv | labkit/lab.py:148-157 | the reading loop computes the entries of the lines that have an equals sign, later ones winning |
| EnvFile.ParseEntries | labkit/lab.py:152-156 | lines written from entries parse to those entries |
| EnvFile.EnvRoundTrip | labkit/lab.py:143-157 | a dictionary survives the file exactly when no key has an equals sign and nothing in it a line break |
| EnvFile.NodeKeyInjective | labkit/lab.py:137-142 | no two node entries share a key |
| EnvFile.ConnectionReaches | labkit/lab.py:160-163 | a later phase asking for node i gets node i's own port, and silently node 1's if the lab has no node i |
| Json.EncodedBodyReads | suite/helpers/pve.py:63-66 | every string, escaped by section 7 of RFC 8259, reads back as itself |
| Json.QuoteReads | suite/helpers/pve.py:63-66 | so does every quoted string through the whole reader |
| Json.NoRawControl | suite/helpers/pve.py:63-66 | a text with a raw control character inside, a line break say, is no JSON string |
| Upid.Read | suite/helpers/pve.py:58-101 | the code path from output to result: nothing, plain data, or the string the search finds |
| Upid.Search | suite/helpers/pve.py:88-101 | the search: whole text if marked, else the last line that is a quoted id, else the last token, else the text |
| Upid.TokensAreFound | suite/helpers/pve.py:19 | the pattern finds something exactly when a token occurs at all |
| Upid.TextYieldsUpid | suite/helpers/pve.py:88-101 | completeness: the result is a task id exactly when the text is marked, has a line that is one as JSON, or holds a token anywhere |
| Upid.TokensAfterStop | suite/helpers/pve.py:19 | what precedes a quote or white space and what follows it are searched independently |
| Upid.QuotedOnLastLine | suite/helpers/pve.py:91-97 | an id quoted on the last line comes out exactly, whatever the log before it says |
| Upid.SetOffInLog | suite/helpers/pve.py:98-100 | an id in a log comes out exactly, glued to a warning or set off, if no earlier token runs into it, no later one follows and no line is a quoted id |
| Upid.MarkedTextReturnedWhole | suite/helpers/pve.py:89-90 | a text that starts with an id yields that id exactly when there is nothing after it |
| Upid.SetOffInPlainLog | suite/helpers/pve.py:80-81 | in particular where no line starts with a quote |
| ProxiedLog.StripKeepsFinds | suite/helpers/pve.py:91-98 | white space at a text's ends changes neither the quoted lines nor the tokens found in it |
| ProxiedLog.SpaceAroundLog | suite/helpers/pve.py:88-101 | for every text: with and without the white space at its ends the same comes out exactly if there is none or an id is found, other than one the text starts with, which counts only alone and behind white space |
| ProxiedLog.ProxiedLogReadsTheSame | suite/helpers/pve.py:82-88 | a log sent as one JSON string, however escaped, gives the same as the log streamed, exactly under that condition if the log is no JSON itself; one that is a JSON string is decoded twice when streamed, and other JSON never gives the same |
| ProxiedLog.ProxiedLinesReadTheSame | suite/helpers/pve.py:82-88 | so for a log of several lines that is no other JSON only the white space at its ends counts |
| ProxiedLog.QuotedLogReadsTheSame | suite/helpers/pve.py:82-88 | and so it is for the log quoted with the fewest escapes |
| ProxiedLog.ProxiedIdKeepsItsLineFeed | suite/helpers/pve.py:88-90 | a proxied id and line feed comes out with the line feed, streamed without |
| Upid.StringsAreOneLine | suite/helpers/pve.py:63-70 | a log of several lines is never taken for a JSON string |
| Upid.OutputEndingInQuotedId | suite/helpers/pve.py:58-101 | the quoted id on the last line comes out of the whole output, not only of its text |
| Upid.BareId | suite/helpers/pve.py:58-90 | a bare id comes out as it is |
| Upid.TaskNodeOfUpid | suite/helpers/wait.py:48-49 | the node read from an id is the one written into it |
| Quoting.QuotedIsRead | suite/helpers/guest.py:36 | a quoted argument in front of any rest of the line is read as exactly that argument |
| Quoting.ListIsRead | suite/helpers/guest.py:36 | so is a quoted list, and what follows it is read as if it stood alone |
| Quoting.QuotingRoundTrip | suite/helpers/guest.py:36 | the shell gives back exactly the list, empty strings and single quotes included, exactly when no argument holds a NUL |
| Quoting.QuotedStart | suite/helpers/guest.py:36 | a quoted line starts with what a shell takes for an assignment or a reserved word exactly if its first argument is one, bare |
| Quoting.WrapRunsTheSame | suite/helpers/guest.py:24-38 | the same command runs on the guest's node exactly if that is local, or no argument holds a NUL and the first is no assignment or reserved word |
| Quoting.ScriptGetsItsArguments | labkit/ssh.py:107-119 | a pushed script is run with exactly the arguments given, also when there are none |
| Quoting.PytestLineIsRead | labkit/run.py:197-202 | whatever options a caller adds, the marker expression, quoted or bare, stays one word and the test file comes last |
| Quoting.BothMarkersAreSpelled | labkit/run.py:227-237 | which covers the expressions of both kinds of run |
| Hosts.HostsFile.constructor | labkit/remote/cluster-hosts.sh:15 | a file is its lines and whether the last one is ended |
| Hosts.HostsFile.Delete | labkit/remote/cluster-hosts.sh:15-17 | one sed: exactly the lines the pattern hits go, and the end of the file is ended unless its unended last line stayed |
| Hosts.HostsFile.Append | labkit/remote/cluster-hosts.sh:19 | lines appended to an unended file continue its last line |
| Hosts.HostsFile.DropDuplicates | labkit/remote/cluster-hosts.sh:20 | the first of equal lines stays, the rest go |
| Hosts.HostsFile.Rewrite | labkit/remote/cluster-hosts.sh:15-20 | the loop over names and the two steps after it together are the rewrite the lemmas below speak of |
| Hosts.KeptKeepsOrder | labkit/remote/cluster-hosts.sh:15-18 | lines that name no member and are no loopback entry stay, and stay in order |
| Hosts.DedupKeepsOrder | labkit/remote/cluster-hosts.sh:20 | what stays is in the order of first occurrence, each line once |
| Hosts.DedupHasTheSame | labkit/remote/cluster-hosts.sh:20 | dropping duplicates loses no line |
| Hosts.RewriteOfAnyFile | labkit/remote/cluster-hosts.sh:15-20 | any file becomes its kept lines without duplicates, then one entry a member, except that an unended last line that stays runs into the first entry |
| Hosts.SurvivorsAre | labkit/remote/cluster-hosts.sh:15-20 | a line that names no member survives exactly if it is in the file, not counting a last line that is run into |
| Hosts.AllSurvive | labkit/remote/cluster-hosts.sh:15-20 | every line that names no member survives exactly if the file ends clean or its last line is there a second time |
| Hosts.SurvivorsKeepOrder | labkit/remote/cluster-hosts.sh:15-20 | of any file, the survivors stand in the order of their first occurrence in it |
| Hosts.UnendedLineIsLost | labkit/remote/cluster-hosts.sh:19 | a file of one unended line that names no member loses it, whatever it says |
| Hosts.BackupLineIsLost | labkit/remote/cluster-hosts.sh:19 | `1.2.3.4 backup` is such a line |
| Hosts.EntryNames | labkit/remote/cluster-hosts.sh:17 | a name's pattern matches its own member's entry only: pve-node1 never takes pve-node10 |
| Hosts.EntryResolves | labkit/cluster.py:47-48 | an entry resolves its own member to its cluster address and no other name |
| Hosts.GluedEntryHidesNone | labkit/remote/cluster-hosts.sh:19 | to every other name a line says what it said, also after an entry ran into it |
| Hosts.MemberResolves | labkit/remote/cluster-hosts.sh:4-9 | for every file, ended or not, and every member: it resolves to its own cluster address exactly if no line that is left gives it another one first; for the first member of a file whose last line ran into its entry, exactly if that line gives it its address |
| Hosts.OnlyCommentedNamesEscape | labkit/remote/cluster-hosts.sh:17 | a line that gives a name an address is deleted unless a comment sign follows the name directly |
| Hosts.EveryMemberResolves | labkit/cluster.py:50-58 | without a name hidden by a comment, all members resolve to their own cluster addresses exactly if no line runs into the first entry, or one without a comment in which the address comes to stand first |
| Hosts.CommentedNameIsMissed | labkit/remote/cluster-hosts.sh:17 | with one it does not: the old address wins, for every address and name |
| Hosts.SecondRunChangesNothing | labkit/remote/cluster-hosts.sh:15-20 | a second run changes nothing exactly when no line ran into an entry the first time |
| Hosts.GluedEntryResolves | labkit/remote/cluster-hosts.sh:19 | an entry that runs into an unended line gives its member what that line gave it if it has a comment, and otherwise its own address exactly if that comes to stand first |
| Hosts.LabMembersAreMembers | labkit/cluster.py:46-48 | the names and addresses of any lab meet what the lemmas above ask |
| Report.ReadCase | tools/report.py:60-78 | the loop over a case's children gives its id, outcome, message and markers |
| Report.ReadMarkers | tools/report.py:73-76 | the last property called markers decides |
| Report.LastVerdictDecides | tools/report.py:67-72 | the last failure, error or skipped child decides the outcome, and a case without one passed |
| Report.Verdict | tools/report.py:92-116 | the two nested loops compute the counts and buckets of all cases, and the exit status |
| Report.WithCase | tools/report.py:98-116 | one case goes to exactly one bucket and one count |
| Report.FirstMatch | tools/report.py:99-101 | an entry is found exactly when some declaration matches |
| Report.VerdictMeaning | tools/report.py:166-169 | status 0 exactly when there are results, every failed case is declared and no passed one is |
| Report.SelectHas | tools/report.py:92-116 | each case is in the bucket it belongs to as often as it occurred, and in no other |
| Report.CountsAreConserved | tools/report.py:92-116 | passed, failed and skipped add up to the cases; unexpected and expected failures add up to failed |
| Report.MoreDeclarations | tools/report.py:99-101 | adding declarations never removes a stale case nor makes a new failure |
| Report.DeclarationOrder | tools/report.py:99-101 | order and repetition of declarations change no bucket |
| Report.OnlyTheCasesCount | tools/report.py:95-116 | neither the order of cases nor the file they came in changes the verdict |
| Report.MergeKeepsCases | tools/report.py:54-58 | merging shards to one result set a label loses and adds no case |
| Report.ShardsGiveTheSameVerdict | tools/report.py:54-58 | the verdict over file-sized shards is the verdict over one result set a label |
| RunSuites.LabelParsesBack | tools/report.py:55-58 | a label parses back from its results' file names exactly when it has no dot |
| RunSuites.FileNameInjective | labkit/run.py:212 | each test file of each suite has results of its own |
| RunSuites.DottedLabelsCollide | labkit/run.py:212 | labels with a dot can write the same file, for all such labels |
| RunSuites.FinishedIsPrefix | labkit/run.py:197-220 | the files that ran are a prefix, which stops short only at a call that took too long or right after a lost connection |
| RunSuites.Collector.constructor | labkit/run.py:163-170 | a run starts from whatever results are there, with status 0 |
| RunSuites.Collector.Collect | labkit/run.py:203-212 | a file's code other than 0 and 5 becomes the status; what could be fetched of its report, if anything, is written |
| RunSuites.Collector.One | labkit/run.py:179-220 | a suite's loop collects exactly the finished files' reports, and its status stays 0 exactly if each returned 0 or 5 |
| RunSuites.Collector.RunAll | labkit/run.py:172-239 | run_suites returns 0 exactly when nothing raised, shipping and copying tests included, and every file run returned 0 or 5; when it raises, what was collected by then is there |
| RunSuites.AllWellMeansEach | labkit/run.py:222-239 | all passes went well exactly when each did |
| RunSuites.ReportsAreKept | labkit/run.py:182-189 | whatever happens later in any suite, a finished file's report is there at the end |
| RunSuites.NothingElseIsCollected | labkit/run.py:210-212 | every new results file is the report of a finished test file |
| RunSuites.LeftoversStay | labkit/run.py:167-168 | results of an earlier run that this one does not replace are still there to be read |
| RunSuites.ReportOn | tools/report.py:95-116 | the report over the directory has a summary exactly if every results file parses, and its exit status is 1 if one does not |
| RunSuites.VerdictOfARun | labkit/run.py:163-239 | from node to verdict, whatever results were there before: the report's status is 0 exactly when there is a result, the report of every file that finished with one arrived whole and in it each failing case was declared and no passing one was, and the same holds of every earlier result this run did not replace |
| RunSuites.SummaryNeedsEveryFile | labkit/run.py:210-212 | there is a summary exactly if every report arrived whole, in this run or, where not replaced, in an earlier one |
| RunSuites.CutReportHidesTheRest | labkit/run.py:210-220 | a node lost while the second file's report is fetched leaves the first one's results in place and no summary of them, and the status is 1 though no case failed |
| RunSuites.VerdictOfAFirstRun | labkit/run.py:163-239 | so from an empty directory only what finished counts |
| RunSuites.OldResultsStandIn | labkit/run.py:214-220 | a test file that did not run passes for one that did if an earlier run left its results |
| Waiting.WaitFor | suite/helpers/wait.py:7-21 | returns exactly when some poll in time holds, and then right after the first; otherwise no poll held; at most ceil(timeout/interval) polls; the last error is kept |
| Waiting.WaitForNode | labkit/ssh.py:75-82 | a node is up exactly when some probe in time is answered, with the same bound |
| Waiting.WaitForTask | suite/helpers/wait.py:24-64 | success for no task, structures, or a task its own node called stopped with OK or WARNINGS; every other ending raises, exactly as the first deciding answer says, and as the request for a failed task's log does if it fails |
| Waiting.PollTask | suite/helpers/wait.py:50-64 | the polling loop: the first answer that is no running task's decides, and running out of time means there was none |
| Waiting.OnlyItsOwnNodeCounts | suite/helpers/wait.py:43-49 | two clusters that agree on the answers of the node in the id end the waiting alike, whatever else they say and wherever it is asked |
| Destroy.Cluster.constructor | suite/conftest.py:225-232 | a cluster starts with a guest, a list of what it will do, and no requests made |
| Destroy.Cluster.Status | suite/conftest.py:237-238 | a probe sees the guest as it is then, or fails |
| Destroy.Cluster.StopRound | suite/conftest.py:267-275 | a guest seen running is asked to stop once, one seen stopped is not asked; the round confirms only if its last look showed the guest stopped |
| Destroy.Cluster.AskStop | suite/conftest.py:248-249 | a request to stop halts the guest if obeyed, after whatever the cluster did first, and its error is independent of that |
| Destroy.Cluster.AskDelete | suite/conftest.py:287 | a delete takes the guest away if obeyed, also when it is reported as failed, and may fail to when it is reported as done |
| Destroy.Cluster.WaitStopped | suite/conftest.py:250-251 | a bounded wait that succeeds only right after a look that showed the guest stopped |
| Destroy.Cluster.ConfirmStopped | suite/conftest.py:267-275 | before any delete the guest was just seen stopped, or three rounds had failed |
| Destroy.Cluster.Destroy | suite/conftest.py:253-304 | against any cluster it ends after at most 3 stop rounds and 1 to 4 deletes, and returns exactly when the last look found no guest; a guest that was there went by one of those deletes, also by one reported as failed |
| NodeRename.UnderwayIsSafe | labkit/remote/node-identity.sh:28-33 | at every point of the move no VMID is in two places and no config is lost or changed |
| NodeRename.Pmxcfs.constructor | labkit/remote/node-identity.sh:28-33 | guest configs are files at places |
| NodeRename.Pmxcfs.MoveKind | labkit/remote/node-identity.sh:34-43 | a loop over the files of one kind moves all, or stops at a failed move with every config at one end of its own |
| NodeRename.Pmxcfs.Rename | labkit/remote/node-identity.sh:34-44 | the old directory is removed, as far as that works, only after every config was dealt with; a failed move exits before, with nothing lost; without one the rename completes |
| NodeRename.RenameConserves | labkit/remote/node-identity.sh:34-44 | the finished rename loses no config exactly when none finds another one in its place, which unique VMIDs rule out; then nothing is left under the old name even if the removal fails |
| NodeRename.ShedKind | labkit/remote/node-identity.sh:93-98 | a loop that ignores failures leaves exactly the guests it did not list or could not destroy |
| NodeRename.ShedAndVerify | labkit/images.py:176-185 | node 1 keeps every guest and passes exactly if its template is listed; any other passes exactly if no VM is listed |
| NodeRename.ContainersStay | labkit/images.py:179-181 | a host on which qm works and pct does not passes the check and has a guest left exactly if it had a container |
| NodeRename.WhatPassingVouchesFor | labkit/images.py:179-181 | passing means no guest is left, whatever the host does, exactly if the node had no container, given that the check could list VMs; if it may not have, exactly if the node had no guest |
| NodeRename.Personalise | labkit/remote/node-identity.sh:10-99 | rename, shedding and check together: node 1 keeps the template and every guest it had under its former name and passes exactly if qm lists; a failed move stops before anything is shed or checked |
| Storages.StorageList | suite/conftest.py:149-162 | the first line with the key decides, and no such line means no storage |
| Storages.StorageListRoundTrip | labkit/run.py:154-156 | the list written by prepare is read back exactly when each name is non-empty, without comma and line break, and the list has no white space at its ends |
| Storages.EachPairOnce | suite/conftest.py:173-186 | each ordered pair of different storages comes exactly once, and nothing else |
| Storages.PairCount | suite/conftest.py:183-184 | N storages give N*(N-1) round trips |
| Devices.AssignDisks | labkit/profiles.py:74-84 | the loop gives each profile the run of numbers after those before it |
| Devices.UsesItsRun | labkit/profiles.py:74-84 | a profile is told a disk exactly if the disk is in its own stretch |
| Devices.RunsAreDisjoint | labkit/profiles.py:75 | no disk goes to two profiles |
| Devices.RunsCoverTheDisks | labkit/profiles.py:74-84 | the disks handed out are exactly 1 to the total |
| Devices.AssignedDisksAreAttached | labkit/run.py:82-90 | every path a profile is told is that of a disk the lab attaches under that serial |
| Devices.NegativeDisksOverlap | labkit/profiles.py:83 | a negative DISKS can hand one disk to two other profiles |
| Devices.WhichCountsAreSafe | labkit/profiles.py:74-84 | for any counts: no disk goes to two profiles and each handed out is attached, exactly if no count is negative, or no disk is asked for, or just one is and no negative count comes before it |
| Devices.GetsItsRun | labkit/profiles.py:74-84 | what any counts make of the assignment, for distinct names |
| Devices.SameNameLosesDisks | labkit/profiles.py:79 | of two profiles of one name the first one's disks are lost |
| Devices.Argv | labkit/qemu.py:126-161 | the command line's loop emits the fixed devices, then one device a test disk |
| Devices.DevicesAreApart | labkit/qemu.py:29-33 | all device names and slots differ, and all fit the bus exactly up to twelve test disks |
| Volumes.VolumesFor | suite/helpers/volumes.py:25-33 | exactly the disk volumes filed under the VMID or named for it |
| Volumes.AssertRelocated | suite/helpers/volumes.py:36-62 | each of the three problems is reported exactly when it is there, so passing means all three hold |
| Volumes.AssertCleanRefusal | suite/tests/test_cross_storage.py:57-74 | passes exactly when config and volumes are still on the source and none on the destination |
| Volumes.MovedOrRefused | suite/helpers/volumes.py:36-62 | the two checks mirror each other, so no world passes both |
| Volumes.RoundTrip | suite/tests/test_cross_storage.py:81-109 | a passing round trip ends with config and volume on the source, none on the other storage and the data intact; a clean refusal and a failure are told apart exactly, a move that takes too long being a failure |
| Volumes.NameHasItsNumber | suite/helpers/volumes.py:31 | between the dashes of a canonical volume name the guest's own number is the only number |
| Volumes.BlockVolumeIsMatched | suite/helpers/volumes.py:31 | a canonical block volume matches exactly its own guest and those whose number the storage's name has between dashes |
| Volumes.FileVolumeIsMatched | suite/helpers/volumes.py:31 | so does one in a guest's directory |
| Volumes.PlainStorageTellsApart | suite/helpers/volumes.py:31 | on a storage without such a name both match exactly their own guest, whatever the digits |
| Volumes.LinkedCloneIsMatchedTwice | suite/helpers/volumes.py:31 | a linked clone's volume matches its own guest, the one it was cloned from, those the storage's name has, and no other |
| Payloads.SparseLayout | suite/helpers/payloads.py:46-57 | for every size from 1 MiB the three writes land at three places inside the file: its length stays, and 192 KiB are data |
| Payloads.EachFileIsRecorded | suite/helpers/data_guard.py:25-29 | every file seeded has an entry of its own, and other entries stay |
| Payloads.GuardSeesEachFile | suite/helpers/data_guard.py:37-44 | comparing what was recorded compares exactly the files seeded |
| Payloads.DataGuard.constructor | suite/helpers/data_guard.py:12-17 | a new guard has recorded nothing |
| Payloads.DataGuard.Seed | suite/helpers/data_guard.py:19-35 | the loop enters each file's sum and size under its own path |
| Payloads.DataGuard.Verify | suite/helpers/data_guard.py:37-44 | passes exactly when every recorded file has its sum |
| Payloads.DataGuard.VerifySparse | suite/helpers/data_guard.py:46-64 | passes exactly when no sparse file takes more than its budget, and always for other patterns |
| Payloads.InflationShows | suite/helpers/data_guard.py:59-60 | a fully inflated copy is over budget exactly when it is over 1 MiB and less than two thirds of it was allocated before |
| Payloads.SeededFilesAreGuarded | suite/helpers/data_guard.py:46-64 | of the sparse files the suite writes, inflation of those from 2 MiB on is noticed and of a 1 MiB one is not |

## Left out

- Images.Contents: qcow2 itself; an image is the list of finished steps a machine booted from it sees.
- Images.ImageStore.BakeProfile: what exactly a bake cut off while running lacks; it is told apart from a whole one. That bake.sh is fixed for a name is assumed.
- Images.ImageStore.NodeImage: what a forced rebuild does to a running lab's overlays on that image, and two builders at once; builds are serial as in the code. Build ports (25590 plus the index) can meet a lab's port and are not modelled.
- Images.ImageFile: one version string, and names without path separators.
- Lab.LabState.Down: process ids and pidfiles (`labkit/qemu.py:193-237`); a killed machine stops, and running means running in that directory. `plan.env` is not a file of the model.
- Lab.LabState.BringUp: which of several boot errors is raised; the boots in it run one after another, which `BootThreads.EveryInterleavingAgrees` and `BootGuests.GuestsOnlyAdd` show to be no loss.
- Nodes.PortOffset: CRC-32 is a parameter; only its range matters.
- Json.Loads: objects, arrays, numbers and literals are told by their first character and an arbitrary predicate; a lone surrogate reads as U+FFFD.
- Quoting.ShellWords: the words of a line only. A line with operators or expansions is refused; an assignment or a reserved word is a word like any other here, and `Quoting.Runs` tells them apart. Aliases are not modelled.
- Hosts.EntryNames: names and addresses as the lab makes them, so nothing in a name is special to sed; `IsName` and `IsAddress` say which.
- Hosts.Resolve: looking names up without regard to case, and DNS behind the file.
- Report.Matches: globbing is an arbitrary predicate; TOML and XML are read already.
- Report.Verdict: which declaration a finding cites, the markdown, and the usage error for a missing argument.
- RunSuites.Collector.One: sorting and splitting the `ls` listing; a listing that fails without raising is the same as no files. Results are the files report.py reads; others in the directory are not modelled. Whether a report on the node is this run's or one it did not replace is not told.
- Waiting.WaitFor: a clock that goes backwards; intervals are whole seconds, at least one.
- Destroy.Cluster.AskStop: the request and the wait for its task are one turn of the cluster.
- Destroy.Cluster.AskDelete: likewise.
- Destroy.Cluster.Status: an API error on the last look means that the guest is absent, as the code takes it; other errors raise.
- NodeRename.Pmxcfs.Rename: stopping and starting services, and the files of a directory that are no guest configs.
- NodeRename.Personalise: the part of the script and of the checks that concerns guests; the template is told by its place, not by its name.
- Prepare.Prepare: forming the cluster, copying suites and applying profiles. The node images are built before a running lab is stopped here, and after it in the code; neither sees the other.
- Payloads.Budget: the factor is the default 1.5, exact; rounding of larger floats.
- Volumes.RoundTrip: what starting a guest and reading its files takes; `intact` says how it ends.
- Devices.Argv: a device's name and slot only, not the other options.
- Storages.Print: a storage name with a single quote, which would end the shell's.
- `labkit/cluster.py` beyond the hosts file: `pvecm`, quorum and the cross-node check act on remote state only.
- `labkit/run.py` `Plan` and the shipping of suites, sources and profiles; `report` and `teardown` as phases.
- `suite/helpers/pve.py` `node` and `other_node`, and building pvesh's arguments.
- Profile files (`labkit/profiles.py:25-71`), which the profiles come from as parameters.
- Test bodies other than the storage round trip.
