# stretch_av playback core in Dafny

stretch_av is an Electron signage player. The main process opens one borderless window over
the bounding rectangle of all displays, and answers `getVideos` with the media files of a folder
under `videos/`. The renderer's `init` closure lists the folders, fills a hint overlay with one
key binding per folder, and plays the first folder in a loop. It uses two stacked containers:
the current one is shown while the next one is hidden. When a video is within three seconds of
its end, the next file is preloaded into the hidden container. When a video ends, or an image's
timer runs out, `doCrossfade` swaps the two containers and the next step starts. A digit key
switches folder, and left Shift, H, M and T toggle the debug overlay, the hint, mute and
always-on-top.

The model has eight modules, one per file:

- `Text` (text.dfy): the string and number primitives the code relies on. These are
  `split` on a character, the regular-expression split on runs of `/` and `\`, ASCII
  `toLowerCase`, `toString`, `padStart` and `parseInt`.
- `Assets` (assets.dfy): `isVideoFile`, `isImageFile`, `getFileName` and `formatTime`.
  `ParseClock` is a reader for clocks, used as the partner of `formatTime`.
- `Hint` (hint.dfy): the hint text as a function, and the `forEach` that builds it as a loop
  proved against that function.
- `Playback` (playback.dfy): the closure variables of the cycle as a `Session` value, with one
  function per operation on it. These are a `playNextMedia` step up to its `await`,
  `doCrossfade`, the preload in the `timeupdate` handler and `resetMediaContainers`. The module
  also holds the lemmas about runs of events.
- `Controls` (controls.dfy): the whole renderer state. It holds the keydown dispatch, the
  toggles, `loadFolderByIndex` and start-up.
- `Renderer` (renderer.dfy): the `init` closure as the class `VideoApp`. Its fields are the
  closure's `let` variables, and each handler is a method that updates them in place. Every
  method is proved to perform the matching `Playback`/`Controls` function on `State()`.
- `Displays` (displays.dfy): the bounding-box loop of `createWindow`.
- `MediaListing` (listing.dfy): the `getVideos` filter and path join.

Results proved about the code as written:

- The reuse branch of `playNextMedia` is dead. `nextPreloaded` is cleared just before
  `canReusePreloaded` reads it, so a preloaded video is always discarded and loaded again in the
  same container (`Playback.ReuseBranchUnreachable`). It follows that `waitForVideoEnd` is never
  called.
- A media completion left over from the folder played before a switch is taken for the new
  folder's own completion. An image's timer, for example, still runs after the switch. Its
  completion cross-fades and cuts the new folder's first file short
  (`Controls.StaleCompletionAdvancesNewFolder`). The code has no generation counter that would
  discard such a completion. The resumed old `playNextMedia` chain also stays alive beside the
  new one, so later completions from either chain advance the cycle. The model treats every
  completion as one `MediaDone` call and does not track chains (see the async line under
  "## Left out").
- Folders from the tenth on are listed in the hint with a key number of two or more digits,
  which no key press produces. The `key` of a digit key is one character, and `parseInt` of one
  character is at most 9, so those folders cannot be selected (`Controls.LateFolderUnreachable`).

Other behaviour of the code that the model keeps:

- A video or image `error` rejects the awaited promise and nothing catches it, so the cycle
  stops. `VideoApp.MediaFailed` therefore changes nothing.
- There is no separate prepare and reveal step. The preload starts the next video playing
  early in the hidden container.

## Model

| member | source | states |
|---|---|---|
| Assets.Classify | preload.js:72-80 | a path is a video exactly when its extension is one of the six video extensions, an image exactly when it is one of the five image extensions, unknown otherwise |
| Assets.ExtensionAfterLastDot | preload.js:74 | the extension has no '.', is the lower-cased path when the path has no '.', and otherwise the lower-cased text after a '.' with no '.' in it |
| Assets.NeverBoth | preload.js:72-80 | no path is both a video and an image |
| Assets.ExtensionIgnoresCase | preload.js:74 | lower-casing a path first does not change its extension |
| Assets.ExtensionOfTwoParts | preload.js:74 | a path made of two parts with no '.' in them, joined by a '.', has the second part, lower-cased, as its extension |
| Assets.ClassifyIgnoresCase | preload.js:72-80 | two paths equal up to letter case are classified alike |
| Assets.UpperAndLowerMp4AreVideos | preload.js:72-76 | `FILE.MP4` and `file.mp4` are both videos |
| Assets.GetFileNameAfterLastSeparator | preload.js:81-84 | the file name is a suffix of the path with no '/' or '\\', and it is the whole path or follows a separator |
| Assets.GetFileNameOfBareName | preload.js:81-84 | a path without separators is its own file name |
| Assets.FormatTime | preload.js:85-86 | a negative input gives "0:00" |
| Assets.FormatTimeReadsBack | preload.js:85-92 | for whole seconds t >= 0 the clock has two fields below an hour and three from an hour on; the first field has no leading zero and every later field is two digits below 60; read in base 60 the fields give t back |
| Assets.ParseClockRejectsPaddedMinutes | preload.js:90-91 | a clock with a zero-padded first field, such as `00:05`, is not read as a clock |
| Text.PadStart | preload.js:90-91 | `padStart` gives the requested width (or the original length), ends with the original text and is filled in front |
| Text.NatToStringDigits | preload.js:90-91 | `toString` of a natural is a non-empty string of digits that reads back as the number, one digit exactly below 10, two from 10 to 99 |
| Text.ParseInt | preload.js:412 | `parseInt` is NaN exactly when no digit follows the optional sign |
| Text.ParseIntReadsNatToString | preload.js:412 | `parseInt` reads back what `toString` writes for a natural |
| Hint.BuildHintText | preload.js:52-66 | the hint is the error text when the folder listing throws, the no-folders text for an empty list, and otherwise the header followed by one line per folder in order |
| Hint.HintListsEveryFolder | preload.js:57-61 | folder i gets the line binding key i + 1, after the lines of the folders before it and before those after it |
| Hint.LinesConcat | preload.js:57-61 | the lines of two folder lists in a row continue the key numbering |
| Playback.RolesAreBothContainers | preload.js:20-21 | the current and next roles are held by the two containers, one each |
| Playback.MountForKinds | preload.js:166-242 | after `playMediaInContainer` the container is empty exactly for a path that is neither a video nor an image, and otherwise holds an element of the path's kind (video exactly for a video file) for that path |
| Playback.PlayMediaReplacesOnly | preload.js:166-242 | playing a file replaces only what the chosen container holds; the other container and the rest of the session are unchanged |
| Playback.BeforePlay | preload.js:251-279 | after steps 2) to 7) the index is one past the wrapped index, the next index follows it with wrap-around, the preload flag is down, the current container is visible and the next hidden, and the file list, the roles, the preload path and the mounts are unchanged |
| Playback.Begin | preload.js:247-290 | with no files a step changes nothing; otherwise it plays the wrapped index in the current container, keeps what the next container holds, shows the current and hides the next, and leaves `currentIndex` in [1, n] with the next index after it |
| Playback.ReuseBranchUnreachable | preload.js:272-290 | `canReusePreloaded` is false whenever it is evaluated |
| Playback.Crossfade | preload.js:299-311 | the roles swap, the new current is shown and the new next hidden, and nothing else changes |
| Playback.CrossfadeTwice | preload.js:299-311 | two cross-fades give the roles back, and the whole state when the current container was the shown one |
| Playback.ResetClearsContainers | preload.js:339-360 | after a reset both containers are empty and hidden, A is current and B next, nothing is preloaded, files and indices are kept, and a second reset changes nothing |
| Playback.PreloadTouchesOnlyNext | preload.js:195-200 | a tick that does not fire changes nothing; a tick fires exactly when it raises the preload flag; it never touches the indices, the roles, the visibility or the current container |
| Playback.PreloadFiresAtMostOnce | preload.js:195-200 | along any series of ticks of one step the preload fires at most once, never once the flag is up, and ticks that do not fire leave the state as it was |
| Playback.PreloadLoadsNextPlayed | preload.js:195-200 | the preloaded path is the file the following step plays, and the container it was loaded into becomes current holding an element for the same file |
| Playback.PlayingAtStart | preload.js:247-290 | the first step from index 0 plays `files[0]` with the next index 1 mod n |
| Playback.PlayingAfterProgress | preload.js:187-200 | a progress tick leaves the file under way, its container and the indices where they were |
| Playback.PlayingAfterEnded | preload.js:286-296 | a cross-fade and the next step move from the k-th file to file k + 1 mod n in the other container |
| Playback.PlaysInListOrder | preload.js:247-311 | from index 0, after any series of progress ticks and k media ends, the step under way plays `files[k mod n]` from the container whose turn it is (alternating), shown while the other is hidden, with `currentIndex = k mod n + 1` and next index `(k + 1) mod n` |
| Controls.Dispatch | preload.js:394-416 | a key loads a folder exactly when its code is not one of the four toggle codes and `parseInt` reads the key as a number d from 1 to the number of folders, and it then loads folder d - 1 |
| Controls.DigitKeyLoadsFolder | preload.js:411-415 | a single digit key d loads folder d - 1 when d is from 1 to the number of folders and is ignored otherwise |
| Controls.HintedKeyLoadsFolder | preload.js:57-61 | for each of the first nine folders the hint shows the one-digit key number i + 1, and pressing that digit loads folder i |
| Controls.LateFolderUnreachable | preload.js:411-415 | from the tenth folder on the hint shows a key number of at least two digits, and no one-character key loads the folder |
| Controls.SelectFolderRewinds | preload.js:316-337 | an index outside the folder list changes nothing; a valid one selects the folder, keeps the flags and the hint, and rewinds the cycle. With an empty listing both containers end empty and hidden with A current; with a non-empty one the first file plays in container A |
| Controls.SelectedFolderPlaysInOrder | preload.js:316-337 | after a folder switch with files, any series of events plays the new listing in order starting from container A |
| Controls.StaleCompletionAdvancesNewFolder | preload.js:286-296 | a completion arriving after a folder switch cross-fades and starts the new folder's second step |
| Controls.ToggleFlipsOneFlag | preload.js:365-392 | each toggle flips exactly one of the four flags and nothing else, and pressing it twice restores the state |
| Controls.LaunchSelectsFirstFolder | preload.js:421-423 | start-up shows the hint for the folder reply with every flag off; with folders it selects and, when it has files, plays the first; without folders nothing plays |
| Renderer.VideoApp.constructor | preload.js:5-423 | `init` yields the start-up state for the folder reply and the first folder's listing |
| Renderer.VideoApp.SetVisible | preload.js:276-279 | the class-list update sets the visibility of the one container named and changes nothing else |
| Renderer.VideoApp.PlayMediaInContainer | preload.js:166-242 | performs `PlayMedia` on the session and changes nothing else |
| Renderer.VideoApp.SelectMode | preload.js:321-322 | records the selected index and its folder name, and changes nothing else |
| Renderer.VideoApp.AimAtFile | preload.js:251-265 | steps 2) to 4) wrap the index and pick the next one |
| Renderer.VideoApp.PrepareStep | preload.js:251-279 | steps 2) to 7) produce `BeforePlay` of the old session |
| Renderer.VideoApp.Start | preload.js:247-290 | `playNextMedia` up to its `await` performs `Begin` on the session |
| Renderer.VideoApp.DoCrossfade | preload.js:299-311 | the swap through a temporary performs `Crossfade` and keeps the roles distinct |
| Renderer.VideoApp.MediaDone | preload.js:286-296 | a media completion performs a cross-fade followed by the next step |
| Renderer.VideoApp.MediaFailed | preload.js:205-208 | a media error changes nothing, because the rejection is not caught and the cycle stops |
| Renderer.VideoApp.VideoProgress | preload.js:187-200 | a `timeupdate` tick performs `Preload` with the remaining seconds |
| Renderer.VideoApp.ClearContainer | preload.js:341-344 | one turn of the reset loop empties and hides one container |
| Renderer.VideoApp.ResetMediaContainers | preload.js:339-360 | performs `ResetContainers` and restores the roles |
| Renderer.VideoApp.RewindToFolder | preload.js:317-328 | the part of `loadFolderByIndex` before the cycle starts performs `Rewound` |
| Renderer.VideoApp.LoadFolderByIndex | preload.js:316-337 | performs `SelectFolder` for the index and the listing |
| Renderer.VideoApp.ToggleDebug | preload.js:365-370 | flips `debugVisible` only |
| Renderer.VideoApp.ToggleHint | preload.js:372-377 | flips `hintVisible` only |
| Renderer.VideoApp.ToggleMute | preload.js:379-383 | flips `isMuted` only |
| Renderer.VideoApp.ToggleAlwaysOnTop | preload.js:385-392 | flips `alwaysOnTopEnabled` only |
| Renderer.VideoApp.KeyDown | preload.js:394-416 | the handler performs the action `Dispatch` picks for the code and the key |
| Displays.BoundingBox | main.js:13-32 | there is no rectangle exactly when there is no display; otherwise the left, top, right and bottom edges are the least x, the least y, the greatest x + width and the greatest y + height over the displays, each reached by one of them; the rectangle contains every display and is at least as wide and as tall as each |
| MediaListing.ExtNameAfterLastDot | main.js:88 | `path.extname` of an entry is empty or is '.' followed by the text after the entry's last '.'; it is non-empty exactly when a '.' follows the first character and the entry is not ".." |
| MediaListing.ExtNameOfDotfile | main.js:88 | `.bashrc` has no extension |
| MediaListing.ExtNameOfDotDot | main.js:88 | `..` has no extension |
| MediaListing.ExtNameOfDottedNames | main.js:88 | `a.` has the extension `.` and `..mp4` the extension `.mp4` |
| MediaListing.JoinAll | main.js:91 | the answer has one path per kept entry, the folder path joined to it |
| MediaListing.FilterKeepsAccepted | main.js:86-90 | the kept entries are a subsequence of the listing, each accepted, and every accepted entry is kept |
| MediaListing.ListMediaIsFilteredListing | main.js:82-96 | each answered path is the folder path joined to an accepted entry, in directory order, and every accepted entry appears |
| MediaListing.MediaExtensionIsKnownKind | main.js:89 | each of the eleven accepted extensions is a dot before a video or an image extension of the renderer |
| MediaListing.ListedAreClassified | main.js:86-91 | every path the filter lets through is classified by the renderer as a video or an image, never unknown |
| MediaListing.ListMediaAllClassified | main.js:82-96 | every path of a `getVideos` answer is a video or an image for the renderer |

## Left out

- DOM work is not modelled: element creation, `classList`, `innerHTML`, the overlays' `display`,
  `showToast`, `updateDebug`, and the debug strings (`currentFileName`, `nextFileName`,
  `mediaType`, `resolution` and the time strings). A container is modelled only by whether it
  is visible and which element it holds.
- `setMutedForAllVideos` and the `muted` property of new video elements are not modelled;
  `isMuted` is kept as a flag only.
- Media decoding, the `ended`/`error` events and the timers are not modelled. A media end comes
  in as a `MediaDone` call, a failure as `MediaFailed` and a progress tick as `VideoProgress`
  with the remaining seconds as an integer. As a result `IMAGE_DISPLAY_TIME` and the unknown
  type's 3-second fallback do not appear.
- Promise and async interleaving is not modelled. `loadFolderByIndex` takes the answer of
  `getVideos` as a parameter and runs without a break, so the window during its `await` is left
  out. A key press could land there. A stale completion could land there too. It would then run
  a step on the old `files` from index 0, so a file of the old folder is shown after the switch.
  The new chain would then start at index 1 and skip the new folder's first file. Outside that
  window, a late completion from a superseded folder is simply a `MediaDone` call at any time.
- Foreign calls are not modelled: `ipcRenderer`, `ipcMain`, `fs.readdirSync`, `toMediaUrl`
  (`pathToFileURL`), `BrowserWindow`, `screen`, `autoUpdater`, `getModes` and the `app`
  lifecycle. The folder reply and the directory listing are parameters; `None` stands for a
  call that threw.
- The `!containerA || !containerB` early return is not modelled; both containers are assumed
  present.
- `waitForVideoEnd` is not modelled, because its only call site is unreachable.
- `resetDebug`, called for an empty folder, is defined nowhere in preload.js. The call throws
  after the state has changed, so the model ends the load there.
- The initial visibility of the two containers comes from index.html, which is not part of this
  model. It is taken as hidden.
- Assets.FormatTimeReadsBack: covers whole seconds only; floating-point input, `NaN` and
  `Math.floor` are not modelled.
- Text.Lower: lower-cases ASCII letters only; Unicode case mapping is not modelled.
- Text.ParseInt: the leading whitespace that `parseInt` skips is not modelled. The model reads
  the optional sign and the decimal digits after it.
- MediaListing.PathJoin: joins with '/' and does not normalise; the Windows `path` flavour is
  not modelled.
- MediaListing.ExtName: modelled on a bare directory entry (no '/').
- Displays.BoundingBox: with no displays the source builds a window from infinite
  coordinates; the model answers `None` instead.
