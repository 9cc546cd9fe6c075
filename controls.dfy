/** The renderer as a whole: the folder list and hint, the playback session, the four toggled
    flags, and the keyboard dispatch and folder loading that drive them. */
module Controls {
  import opened Text
  import opened Assets
  import opened Hint
  import opened Playback

  datatype Flags = Flags(debugVisible: bool, hintVisible: bool, isMuted: bool, alwaysOnTop: bool)

  /** Everything the renderer's closure keeps between events. */
  datatype App = App(
    modes: seq<string>,
    modeIndex: nat,
    folder: string,
    hint: string,
    session: Session,
    flags: Flags)

  /** What a key press asks for. */
  datatype Action = ToggleDebug | ToggleHint | ToggleMute | ToggleAlwaysOnTop | LoadFolder(index: int) | Ignore
  {
    predicate IsToggle()
    {
      !LoadFolder? && !Ignore?
    }
  }

  /** The keydown handler: the four codes first, then a key that reads as a folder number from 1
      to the number of folders. A key press loads a folder exactly when its code is none of the
      four and `parseInt` reads its key as such a number, and then it loads that number minus one. */
  function Dispatch(code: string, key: string, folderCount: nat): (a: Action)
    ensures a.LoadFolder? <==>
      code != "ShiftLeft" && code != "KeyH" && code != "KeyM" && code != "KeyT" &&
      ParseInt(key).Some? && 1 <= ParseInt(key).value <= folderCount
    ensures a.LoadFolder? ==> ParseInt(key) == Some(a.index + 1) && 0 <= a.index < folderCount
  {
    if code == "ShiftLeft" then ToggleDebug
    else if code == "KeyH" then ToggleHint
    else if code == "KeyM" then ToggleMute
    else if code == "KeyT" then ToggleAlwaysOnTop
    else
      var digit := ParseInt(key);
      if digit.Some? && digit.value >= 1 && digit.value <= folderCount then LoadFolder(digit.value - 1)
      else Ignore
  }

  predicate IsCommandCode(code: string)
  {
    code == "ShiftLeft" || code == "KeyH" || code == "KeyM" || code == "KeyT"
  }

  /** A single digit key from 1 up to the number of folders loads that folder; any other single
      character is ignored. */
  lemma DigitKeyLoadsFolder(code: string, c: char, folderCount: nat)
    requires !IsCommandCode(code)
    ensures Dispatch(code, [c], folderCount) ==
      if '1' <= c <= '9' && (c as int - '0' as int) <= folderCount then LoadFolder(c as int - '0' as int - 1)
      else Ignore
  {
    ParseIntOneChar(c);
  }

  /** For each of the first nine folders, the hint shows a one-digit key number, and pressing
      that digit loads the folder. */
  lemma HintedKeyLoadsFolder(modes: seq<string>, i: nat, code: string)
    requires i < |modes| && i < 9 && !IsCommandCode(code)
    ensures Lines(modes, 1) == Lines(modes[..i], 1) + (Line(i + 1, modes[i]) + Lines(modes[i + 1..], i + 2))
    ensures NatToString(i + 1) == [DigitChar(i + 1)]
    ensures Dispatch(code, [DigitChar(i + 1)], |modes|) == LoadFolder(i)
  {
    HintListsEveryFolder(modes, i);
    DigitKeyLoadsFolder(code, DigitChar(i + 1), |modes|);
  }

  /** From the tenth folder on, the hint shows a key number of two or more digits, and no key
      press (one character) loads the folder: such folders are listed but cannot be selected. */
  lemma LateFolderUnreachable(modes: seq<string>, i: nat, code: string, c: char)
    requires 9 <= i < |modes| && !IsCommandCode(code)
    ensures |NatToString(i + 1)| >= 2
    ensures Dispatch(code, [c], |modes|) != LoadFolder(i)
  {
    NatToStringDigits(i + 1);
    DigitKeyLoadsFolder(code, c, |modes|);
  }

  function Toggle(f: Flags, act: Action): Flags
  {
    match act
    case ToggleDebug => f.(debugVisible := !f.debugVisible)
    case ToggleHint => f.(hintVisible := !f.hintVisible)
    case ToggleMute => f.(isMuted := !f.isMuted)
    case ToggleAlwaysOnTop => f.(alwaysOnTop := !f.alwaysOnTop)
    case _ => f
  }

  /** How many of the four flags differ between `f` and `g`. */
  function FlagChanges(f: Flags, g: Flags): nat
  {
    (if f.debugVisible != g.debugVisible then 1 else 0) +
    (if f.hintVisible != g.hintVisible then 1 else 0) +
    (if f.isMuted != g.isMuted then 1 else 0) +
    (if f.alwaysOnTop != g.alwaysOnTop then 1 else 0)
  }

  /** `loadFolderByIndex(idx)` once `getVideos` has answered with `listing`: an index outside the
      folder list changes nothing; otherwise the containers are reset, the folder is selected,
      the cycle is rewound and given the listing, and when it is not empty the first step starts.
      An empty listing ends in the call to the undefined `resetDebug`, which throws after the
      state has changed. */
  function SelectFolder(a: App, idx: int, listing: seq<string>): App
  {
    if idx < 0 || idx >= |a.modes| then a
    else
      var r := Rewound(a, idx, listing);
      if |listing| == 0 then r else r.(session := Begin(r.session))
  }

  /** The part of `loadFolderByIndex` before the cycle starts: reset the containers, select the
      folder, rewind the cycle and give it the listing. */
  function Rewound(a: App, idx: int, listing: seq<string>): App
    requires 0 <= idx < |a.modes|
  {
    var cleared := ResetContainers(a.session).(currentIndex := 0, nextPreloaded := false, preloadedFilePath := "");
    a.(modeIndex := idx, folder := a.modes[idx], session := cleared.(files := listing))
  }

  /** An index outside the folder list changes nothing. A valid one selects that folder, keeps
      the flags, the hint and the folder list, and gives the cycle the listing: an empty listing
      leaves both containers empty and hidden with A current, the index at 0 and nothing
      preloaded; a non-empty one is playing its first file in container A, with B hidden. */
  lemma SelectFolderRewinds(a: App, idx: int, listing: seq<string>)
    ensures !(0 <= idx < |a.modes|) ==> SelectFolder(a, idx, listing) == a
    ensures 0 <= idx < |a.modes| ==>
      var r := SelectFolder(a, idx, listing);
      r.modes == a.modes && r.modeIndex == idx && r.folder == a.modes[idx] &&
      r.flags == a.flags && r.hint == a.hint && r.session.files == listing &&
      (listing == [] ==>
        r.session.current == ContainerA && r.session.currentIndex == 0 &&
        !r.session.nextPreloaded && r.session.preloadedFilePath == "" &&
        !r.session.visibleA && !r.session.visibleB &&
        r.session.mountA == Empty && r.session.mountB == Empty) &&
      (listing != [] ==>
        PlayingAt(r.session, listing, 0, ContainerA) && !r.session.nextPreloaded &&
        r.session.mountB == Empty)
  {
    if 0 <= idx < |a.modes| && listing != [] {
      var cleared := ResetContainers(a.session).(currentIndex := 0, nextPreloaded := false, preloadedFilePath := "");
      PlayingAtStart(cleared.(files := listing));
    }
  }

  /** After selecting a folder with a non-empty listing, any series of playback events keeps
      playing that listing in order: after `k` ends of media the file is `listing[k mod n]`. */
  lemma SelectedFolderPlaysInOrder(a: App, idx: int, listing: seq<string>, evs: seq<Event>)
    requires 0 <= idx < |a.modes| && listing != []
    ensures PlayingAt(Run(SelectFolder(a, idx, listing).session, evs), listing, EndedCount(evs), ContainerA)
  {
    var cleared := ResetContainers(a.session).(currentIndex := 0, nextPreloaded := false, preloadedFilePath := "");
    PlaysInListOrder(cleared.(files := listing), evs);
  }

  /** The media completion of the folder played before a switch (an image's timer, say) is not
      told apart from the new folder's: it cross-fades and starts the step after the new first
      file, so the new folder's first file is cut short. */
  lemma StaleCompletionAdvancesNewFolder(a: App, idx: int, listing: seq<string>)
    requires 0 <= idx < |a.modes| && listing != []
    ensures PlayingAt(Finish(SelectFolder(a, idx, listing).session), listing, 1, ContainerA)
  {
    SelectFolderRewinds(a, idx, listing);
    PlayingAfterEnded(SelectFolder(a, idx, listing).session, listing, 0, ContainerA);
  }

  /** The effect of an action; `listing` is what `getVideos` answers for a folder load. */
  function Apply(a: App, act: Action, listing: seq<string>): App
  {
    match act
    case LoadFolder(idx) => SelectFolder(a, idx, listing)
    case Ignore => a
    case _ => a.(flags := Toggle(a.flags, act))
  }

  /** Each toggle flips exactly one flag and nothing else, so pressing it twice restores the
      state. */
  lemma ToggleFlipsOneFlag(a: App, act: Action, listing: seq<string>)
    requires act.IsToggle()
    ensures var r := Apply(a, act, listing);
      r == a.(flags := r.flags) && FlagChanges(a.flags, r.flags) == 1 && Apply(r, act, listing) == a
  {
  }

  /** The closure state when `init` starts: nothing loaded, container A current. The initial
      visibility of the containers comes from the page; it is taken as hidden. */
  const InitialSession: Session :=
    Session([], 0, 0, false, "", ContainerA, false, false, Empty, Empty)

  const InitialFlags: Flags := Flags(false, false, false, false)

  /** The state after `init` has asked for the folder list: `None` is a `getModes` call that
      threw, which leaves the list empty and shows the error text. */
  function Initial(reply: Option<seq<string>>): App
  {
    var modes := if reply.Some? then reply.value else [];
    App(modes, 0, "", HintText(reply), InitialSession, InitialFlags)
  }

  /** The end of `init`: the first folder is loaded when there is one. */
  function Launch(reply: Option<seq<string>>, listing: seq<string>): App
  {
    var a := Initial(reply);
    if |a.modes| > 0 then SelectFolder(a, 0, listing) else a
  }

  /** Start-up shows the hint for the reply with every flag off; with at least one folder it
      selects the first and, when that folder has files, plays its first file in container A;
      without folders nothing plays. */
  lemma LaunchSelectsFirstFolder(reply: Option<seq<string>>, listing: seq<string>)
    ensures var a := Launch(reply, listing);
      a.hint == HintText(reply) && a.flags == InitialFlags &&
      (reply.Some? && |reply.value| > 0 ==>
        a.modes == reply.value && a.modeIndex == 0 && a.folder == reply.value[0] && a.session.files == listing &&
        (listing != [] ==> PlayingAt(a.session, listing, 0, ContainerA))) &&
      (reply.None? || reply.value == [] ==> a.modes == [] && a.session == InitialSession)
  {
    if reply.Some? && |reply.value| > 0 {
      SelectFolderRewinds(Initial(reply), 0, listing);
    }
  }
}
