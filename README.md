# VisualRpc presence loop, modelled in Dafny

VisualRpc is a Visual Studio extension that shows what the user is working on as
Discord "rich presence". Its package class, `RpcPackage`, starts an update
thread. The thread initializes the Discord client, then runs cycles until the
IDE asks to close, then shuts the client down. Each cycle rebuilds one
presence record from what Visual Studio shows and publishes it:

- `details`: "Working on " and the solution's file name without extension;
- `state`: "Editing " and the active document's name;
- `smallImageKey`: "file_" and the document's extension without its dot, but
  only when that key is on the whitelist `knownNames`;
- `largeImageKey`: "logo";
- `startTimestamp`: the session's start time.

The project has three modules:

- `DotNet` (`dotnet.dfy`) models the .NET Framework calls a cycle relies on,
  as pure functions on strings: `Path.GetFileName`, `Path.GetExtension`,
  `Path.GetFileNameWithoutExtension` and `String.Remove`. A thrown exception
  is an explicit `Outcome`.
- `PresenceCycle` (`presence_cycle.dfy`) models one cycle's record, as a
  function of a snapshot of the host and the epoch. It also models the
  whitelist and the exception raised for documents without an extension,
  which the cycle catches.
- `VisualRpc` (`visual_rpc.dfy`) models the package as a class. It has the
  `close` flag, the `epoch`, the mutable record `rpc`, and a ghost trace of
  the calls made into the Discord client.
  - `Refresh` rewrites the record field by field, in the order the source does.
  - `Cycle` is the body of the loop: callbacks, rebuild, publish.
  - `Pass` is one pass of the loop, followed by whatever the IDE thread
    does before the flag is tested again.
  - `UpdateLoop` is the `while (!close)` loop.
  - `RpcUpdate` is the whole thread body.

  The IDE thread is a schedule of `Tick`s. Before each test of the flag, a
  tick says whether `QueryClose` has been called by then, and which host
  snapshot the next cycle will see.

Path separators are `\`, `/` and `:`. These are .NET's directory, alternate
directory and volume separators, which `GetFileName` and `GetExtension` all
stop at.

Every key on the whitelist is lower case
(`PresenceCycle.KnownNamesAreLowerCase`). The code never lower-cases the
extension, so the match is exact and case-sensitive, and `Bar.CPP` gets no
icon (`PresenceCycle.UpperCaseExtensionGetsNoIcon`).

## Model

| member | source | states |
|---|---|---|
| DotNet.Remove | VSIXProject1/RpcPackage.cs:131 | `Remove(start, count)` throws `ArgumentOutOfRangeException` exactly when the range runs past the end. Otherwise it returns the string with those characters cut out: same prefix, and the suffix after the range. |
| DotNet.LastIndexOf | VSIXProject1/RpcPackage.cs:131 | Returns -1 or an index holding the character, with no occurrence after it. |
| DotNet.FileName | VSIXProject1/RpcPackage.cs:121 | `Path.GetFileName`: what follows the last separator. Its contract is stated by `DotNet.FileNameIsLastSegment` and `DotNet.FileNameAfterSeparator`. |
| DotNet.Extension | VSIXProject1/RpcPackage.cs:131 | `Path.GetExtension`: the file name from its last '.' on. Its contract is stated by `DotNet.ExtensionIsFromLastDot`. |
| DotNet.FileNameWithoutExtension | VSIXProject1/RpcPackage.cs:121 | `Path.GetFileNameWithoutExtension`: the file name up to its last '.'. Its contract is stated by `DotNet.StemIsUpToLastDot` and `DotNet.StemAndExtensionRebuildFileName`. |
| DotNet.FileNameStart | VSIXProject1/RpcPackage.cs:121 | The file name starts right after a separator, or at 0, and contains no separator. |
| DotNet.FileNameIsLastSegment | VSIXProject1/RpcPackage.cs:121 | `GetFileName` is the longest separator-free suffix of the path. |
| DotNet.ExtensionIsFromLastDot | VSIXProject1/RpcPackage.cs:131 | `GetExtension` is a suffix of the file name. It starts at the last '.' and has at least one more character. It is "" exactly when the name has no '.' or ends with one. |
| DotNet.StemIsUpToLastDot | VSIXProject1/RpcPackage.cs:121 | `GetFileNameWithoutExtension` is the file name cut just before its last '.', or the whole name when there is none. |
| DotNet.StemAndExtensionRebuildFileName | VSIXProject1/RpcPackage.cs:121-131 | Stem + extension gives back the file name. A trailing '.' belongs to neither. |
| DotNet.FileNameAfterSeparator | VSIXProject1/RpcPackage.cs:121 | A separator-free tail after the last separator is the file name. |
| DotNet.FileNameOfFileName | VSIXProject1/RpcPackage.cs:121-131 | Taking the file name is idempotent. Extension and stem can be read off the file name alone. |
| DotNet.FileNameAfterDirectory | VSIXProject1/RpcPackage.cs:121 | A directory prefix followed by a separator-free name has that name as its file name. |
| DotNet.PathRoundTrip | VSIXProject1/RpcPackage.cs:121-131 | Round trip: for `dir + stem + ext`, `GetFileName`, `GetExtension` and `GetFileNameWithoutExtension` give back `stem + ext`, `ext` and `stem`. The stem may hold dots of its own. |
| DotNet.ExtensionOfBareName | VSIXProject1/RpcPackage.cs:131 | The extension of a bare `stem + ext` is `ext`. |
| PresenceCycle.KnownNames | VSIXProject1/RpcPackage.cs:51-59 | The 36 icon keys of `knownNames`, in the source's order. `PresenceCycle.KnownNamesAreLowerCase` states that they are all lower case. |
| PresenceCycle.Listed | VSIXProject1/RpcPackage.cs:132 | `knownNames.Contains(imgKey)`: an exact, case-sensitive comparison. `PresenceCycle.ListedIsMembership` states that it holds exactly for the keys on the list. |
| PresenceCycle.ListedIsMembership | VSIXProject1/RpcPackage.cs:132 | The whitelist lookup succeeds exactly for the keys on the list. |
| PresenceCycle.Details | VSIXProject1/RpcPackage.cs:118-122 | `details` is non-empty exactly when a DTE and a solution with a non-empty FullName exist. It is then "Working on " followed by the solution's file name without extension. |
| PresenceCycle.State | VSIXProject1/RpcPackage.cs:124-130 | `state` is non-empty exactly when an active document could be read. It is then "Editing " followed by the document's name. |
| PresenceCycle.IconKey | VSIXProject1/RpcPackage.cs:131 | Deriving the candidate key throws exactly when the extension is empty. Otherwise the key is "file_" followed by the extension without its dot. |
| PresenceCycle.SmallImageKey | VSIXProject1/RpcPackage.cs:125-132 | `smallImageKey` is "" or a whitelisted key. It is non-empty exactly when a document is active, the key was derived without an exception and the key is whitelisted. In that case it is that key. |
| PresenceCycle.Presence | VSIXProject1/RpcPackage.cs:116-141 | Every record a cycle builds is publishable: logo, the session epoch, an absent or whitelisted icon, and an icon only next to an "Editing" line. The record depends only on the snapshot and the epoch, so nothing leaks from the previous cycle. |
| PresenceCycle.NoExtensionStillEditing | VSIXProject1/RpcPackage.cs:128-138 | A document with no '.' or a trailing '.' makes `Remove(0, 1)` throw. The "Editing" line written before the throw survives, and the catch leaves no icon. |
| PresenceCycle.KnownExtensionGetsIcon | VSIXProject1/RpcPackage.cs:131-132 | A document with extension ".ext" whose "file_ext" is whitelisted gets exactly that icon. |
| PresenceCycle.KnownNamesAreLowerCase | VSIXProject1/RpcPackage.cs:51-59 | Every whitelisted key consists of lower-case letters, digits and '_'. |
| PresenceCycle.UpperCaseKeyNotListed | VSIXProject1/RpcPackage.cs:132 | A key with an upper-case letter is never found by the lookup in a list of lower-case keys. |
| PresenceCycle.UpperCaseKeyFromExtension | VSIXProject1/RpcPackage.cs:131-132 | A key "file_" + ext[1..] built from an extension holding an upper-case letter is not on the whitelist. |
| PresenceCycle.UpperCaseKeyIsUnknown | VSIXProject1/RpcPackage.cs:51-59 | No key holding an upper-case letter is on the whitelist. |
| PresenceCycle.IconKeyCharAt | VSIXProject1/RpcPackage.cs:131 | The candidate key repeats the extension after "file_", character by character. |
| PresenceCycle.UpperCaseExtensionGetsNoIcon | VSIXProject1/RpcPackage.cs:131-132 | The match is case-sensitive: an extension with an upper-case letter never gets an icon. |
| PresenceCycle.WorkingOnSolution | VSIXProject1/RpcPackage.cs:119-122 | A solution file `dir + stem + ".sln"` gives "Working on " + stem (`C:\Projects\Foo.sln` gives "Working on Foo"). |
| PresenceCycle.CppKeyIsKnown | VSIXProject1/RpcPackage.cs:53 | "file_cpp" is whitelisted. |
| PresenceCycle.EditingCppFile | VSIXProject1/RpcPackage.cs:128-132 | A document `stem + ".cpp"` gets the "file_cpp" icon. |
| PresenceCycle.EditingUpperCaseCppFile | VSIXProject1/RpcPackage.cs:128-132 | A document `stem + ".CPP"` gets no icon. |
| VisualRpc.CycleCalls | VSIXProject1/RpcPackage.cs:112-145 | Every cycle makes exactly two calls. |
| VisualRpc.SessionCallsGrow | VSIXProject1/RpcPackage.cs:112-145 | One more cycle appends RunCallbacks then UpdatePresence of its record to a running session's trace. |
| VisualRpc.SessionCallsStop | VSIXProject1/RpcPackage.cs:147 | Stopping appends Shutdown to the running session's trace. |
| VisualRpc.CycleCallsAt | VSIXProject1/RpcPackage.cs:114-143 | Cycle k's calls sit at positions 2k and 2k+1: RunCallbacks, then the publish of record k. |
| VisualRpc.SessionCallAt | VSIXProject1/RpcPackage.cs:110-147 | Position i of a session trace, after the Initialize: RunCallbacks at odd i, the publish of record (i-1)/2 at even i. |
| VisualRpc.SessionInitializesFirst | VSIXProject1/RpcPackage.cs:110-147 | The first call initializes the client with the application id and auto-register, and no later call initializes it again. |
| VisualRpc.SessionRunsCallbacksBeforePublish | VSIXProject1/RpcPackage.cs:114-143 | Every publish directly follows a RunCallbacks. |
| VisualRpc.SessionShutsDownOnceAtEnd | VSIXProject1/RpcPackage.cs:112-147 | Shutdown occurs once, as the last call, and only in a stopped session. No publish follows it. |
| VisualRpc.SessionPublishesWellFormed | VSIXProject1/RpcPackage.cs:140-143 | A session whose records are publishable publishes only publishable records. |
| VisualRpc.PublishedFromGrow | VSIXProject1/RpcPackage.cs:112-145 | A cycle on one more snapshot publishes exactly that snapshot's record. |
| VisualRpc.StoppedSessionIsWellFormed | VSIXProject1/RpcPackage.cs:100-148 | A stopped session whose records come from its snapshots satisfies all four trace properties: initialized first, callbacks before each publish, one final Shutdown, only publishable records. |
| VisualRpc.CyclesRun | VSIXProject1/RpcPackage.cs:112 | The loop runs one cycle per tick before the first close request, and stops at that request. |
| VisualRpc.SampledUpTo | VSIXProject1/RpcPackage.cs:112-116 | The first n cycles sample, in order, the snapshots of the first n ticks. |
| VisualRpc.Sampled | VSIXProject1/RpcPackage.cs:112-116 | Cycle k samples the snapshot of tick k, for each cycle that runs. |
| VisualRpc.RepeatedCloseRequestIsIgnored | VSIXProject1/RpcPackage.cs:94-98 | Requesting close again, at or after the first request, leaves the cycles run and the snapshots sampled unchanged. |
| VisualRpc.RpcPackage.constructor | VSIXProject1/RpcPackage.cs:69-80 | A new package has the flag down and has made no call yet. |
| VisualRpc.RpcPackage.QueryClose | VSIXProject1/RpcPackage.cs:94-98 | Raises the close flag and changes nothing else. |
| VisualRpc.RpcPackage.Start | VSIXProject1/RpcPackage.cs:100-110 | A blank record, the epoch from the clock reading, and Initialize as the only call so far. |
| VisualRpc.RpcPackage.Refresh | VSIXProject1/RpcPackage.cs:116-141 | Rewriting the record in place, with the try/catch, leaves exactly `Presence(host, epoch)`, whatever the record held before. |
| VisualRpc.RpcPackage.Cycle | VSIXProject1/RpcPackage.cs:112-145 | One cycle appends RunCallbacks and then UpdatePresence of `Presence(host, epoch)` to the trace. The epoch and the flag are unchanged. |
| VisualRpc.RpcPackage.Finish | VSIXProject1/RpcPackage.cs:147 | After the loop, Shutdown is appended and the session is stopped. |
| VisualRpc.RpcPackage.Pass | VSIXProject1/RpcPackage.cs:112-145 | One pass of the loop cycles on tick i's snapshot and adds it to the sampled snapshots. Afterwards the flag is up exactly when tick i + 1 carries a close request. |
| VisualRpc.RpcPackage.UpdateLoop | VSIXProject1/RpcPackage.cs:112-145 | The loop runs exactly `CyclesRun(ticks)` cycles. Cycle k samples tick k's snapshot, and the loop exits with the flag up. |
| VisualRpc.RpcPackage.RpcUpdate | VSIXProject1/RpcPackage.cs:100-148 | Under any schedule with a close request, the thread ends stopped with the epoch fixed at the clock reading. Record k is `Presence` of tick k's snapshot, one per tick before the first close request. The trace is Initialize, the cycles, then one Shutdown, with all four ordering properties. |

## Left out

- The update thread, created in the constructor and paused by
  `Thread.Sleep(updateDelayMs)` (lines 78-79 and 144), is not modelled. The
  two threads are a sequential schedule of ticks, and the flag can only change
  between two tests of it.
- The unsynchronised, non-volatile sharing of `close` between threads (lines
  49, 96 and 112) is a data race and is not modelled. The model assumes every
  write is eventually seen; `RpcUpdate` requires that a close request comes.
- The `DiscordRpc` calls are foreign calls into a native library (lines 110,
  114, 143 and 147). They are modelled only as trace entries with their
  arguments. A failing `Initialize` is not modelled.
- The DTE automation service (line 116) is a `Snapshot` value. The snapshot
  does not model a document that closes between the `ActiveDocument` test and
  the two `.Name` reads. Nor does it model a COM exception from the solution
  reads on lines 119-121, which lie outside the try.
- `DateTimeOffset.Now` (line 108) is the parameter `now`. The 64-bit `long`
  of `epoch` is an unbounded `int`, since the unix time in seconds does not
  come near the limit.
- The unused `Stopwatch` and event handlers (lines 102 and 105-106) are left
  out.
- The registration attributes, `Initialize` (which calls into `ToggleRpc`, not
  part of this model) and `PackageGuidString` (lines 30-38, 64 and 88-92) are
  left out.
- `base.QueryClose` and its `canClose` result (line 97) belong to Visual
  Studio's package framework and are not modelled.
- `null` strings are not modelled. A new `RichPresence` starts with `null`
  fields, which the model writes as "", and every field the cycle publishes is
  overwritten first. FullName and Name are assumed non-null, as the host
  provides them.
- `Path.GetExtension` (line 131) and `Path.GetFileNameWithoutExtension` (line
  121, through `GetFileName`) throw `ArgumentException` on a path with invalid
  characters. Neither is modelled, since names from the host never hold such
  characters. At line 131 the catch would absorb the exception. At line 121,
  outside the try, it would end the update thread before `Shutdown`. `DotNet.Remove` takes `nat` arguments, so the negative-argument
  exception is not modelled; the cycle passes 0 and 1.
- `knownNames` is a `HashSet`, modelled as the list of its keys with an exact
  linear search (`PresenceCycle.Listed`). Only `Contains` is asked of it.
