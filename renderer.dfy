/** The renderer's `init` closure as an object: its `let` variables are the fields, and each
    handler is a method that updates them in place. Every method is specified by the pure
    transition it performs on `State()`, whose properties are proved in the Playback and
    Controls modules. */
module Renderer {
  import opened Text
  import opened Assets
  import opened Hint
  import opened Playback
  import opened Controls

  class VideoApp {
    var modes: seq<string>
    var currentModeIndex: nat
    var currentFolder: string
    var hintText: string
    var files: seq<string>
    var currentIndex: nat
    var nextFileIndex: nat
    var nextPreloaded: bool
    var preloadedFilePath: string
    var currentContainer: Container
    var nextContainer: Container
    var visibleA: bool
    var visibleB: bool
    var mountA: Mount
    var mountB: Mount
    var debugVisible: bool
    var hintVisible: bool
    var isMuted: bool
    var alwaysOnTopEnabled: bool

    /** The two role variables always name different containers. */
    predicate Valid()
      reads this
    {
      nextContainer == currentContainer.Other()
    }

    function SessionState(): Session
      reads this
    {
      Session(files, currentIndex, nextFileIndex, nextPreloaded, preloadedFilePath, currentContainer,
              visibleA, visibleB, mountA, mountB)
    }

    function State(): App
      reads this
    {
      App(modes, currentModeIndex, currentFolder, hintText, SessionState(),
          Flags(debugVisible, hintVisible, isMuted, alwaysOnTopEnabled))
    }

    /** `init`: fill the hint from the `getModes` reply (`None` when the call threw), then load
        the first folder, for which `getVideos` answers `listing`. */
    constructor (reply: Option<seq<string>>, listing: seq<string>)
      ensures Valid() && State() == Launch(reply, listing)
    {
      currentContainer, nextContainer := ContainerA, ContainerB;
      debugVisible, hintVisible, isMuted, alwaysOnTopEnabled := false, false, false, false;
      modes := [];
      currentModeIndex := 0;
      files := [];
      currentIndex, nextFileIndex := 0, 0;
      nextPreloaded, preloadedFilePath := false, "";
      currentFolder := "";
      visibleA, visibleB, mountA, mountB := false, false, Empty, Empty;
      if reply.Some? {
        modes := reply.value;
      }
      var text := BuildHintText(reply);
      hintText := text;
      new;
      if |modes| > 0 {
        LoadFolderByIndex(0, listing);
      }
    }

    method SetVisible(c: Container, v: bool)
      modifies this
      ensures SessionState() == old(SessionState()).(visibleA := if c == ContainerA then v else old(visibleA),
                                                     visibleB := if c == ContainerB then v else old(visibleB))
      ensures State() == old(State()).(session := SessionState())
      ensures nextContainer == old(nextContainer)
    {
      if c == ContainerA {
        visibleA := v;
      } else {
        visibleB := v;
      }
    }

    /** `playMediaInContainer(c, path)`: clear the container and append the element for `path`. */
    method PlayMediaInContainer(c: Container, filePath: string)
      modifies this
      ensures SessionState() == PlayMedia(old(SessionState()), c, filePath)
      ensures State() == old(State()).(session := SessionState())
      ensures nextContainer == old(nextContainer)
    {
      if c == ContainerA {
        mountA := MountFor(filePath);
      } else {
        mountB := MountFor(filePath);
      }
    }

    /** Steps 2) to 4) of `playNextMedia`. */
    method AimAtFile()
      requires |files| > 0
      modifies this
      ensures SessionState() == Aim(old(SessionState()))
      ensures State() == old(State()).(session := SessionState())
      ensures nextContainer == old(nextContainer)
    {
      if currentIndex >= |files| {
        currentIndex := 0;
      }
      var nextIdx := currentIndex + 1;
      if nextIdx >= |files| {
        nextIdx := 0;
      }
      nextFileIndex := nextIdx;
    }

    /** Steps 2) to 7) of `playNextMedia`: aim, advance, clear the preload flag, show the current
        container and hide the next. */
    method PrepareStep()
      requires Valid() && |files| > 0
      modifies this
      ensures Valid() && SessionState() == BeforePlay(old(SessionState()))
      ensures State() == old(State()).(session := SessionState())
    {
      AimAtFile();
      currentIndex := currentIndex + 1;
      nextPreloaded := false;
      SetVisible(currentContainer, true);
      SetVisible(nextContainer, false);
    }

    /** `playNextMedia` up to its `await`. */
    method Start()
      requires Valid()
      modifies this
      ensures Valid() && State() == old(State()).(session := Begin(old(SessionState())))
    {
      if |files| == 0 {
        return;
      }
      var filePath := files[if currentIndex >= |files| then 0 else currentIndex];
      PrepareStep();
      var current := if currentContainer == ContainerA then mountA else mountB;
      var canReusePreloaded := nextPreloaded && preloadedFilePath == filePath && current == Holding(filePath, Video);
      if !canReusePreloaded {
        PlayMediaInContainer(currentContainer, filePath);
      }
    }

    /** `doCrossfade` */
    method DoCrossfade()
      requires Valid()
      modifies this
      ensures Valid() && State() == old(State()).(session := Crossfade(old(SessionState())))
    {
      SetVisible(currentContainer, false);
      SetVisible(nextContainer, true);
      var temp := currentContainer;
      currentContainer := nextContainer;
      nextContainer := temp;
    }

    /** The awaited media is done (a video's `ended`, or the timer of an image or an unknown
        file): cross-fade, then the recursive `playNextMedia` runs up to its own `await`. */
    method MediaDone()
      requires Valid()
      modifies this
      ensures Valid() && State() == old(State()).(session := Finish(old(SessionState())))
    {
      DoCrossfade();
      Start();
    }

    /** The awaited media failed to load: the promise rejects, nothing catches it, and the chain
        of `playNextMedia` calls ends without another change. */
    method MediaFailed()
      requires Valid()
      ensures Valid() && State() == old(State())
    {
    }

    /** The preload part of a video's `timeupdate` handler, with `remaining` seconds left. */
    method VideoProgress(remaining: int)
      requires Valid()
      modifies this
      ensures Valid() && State() == old(State()).(session := Preload(old(SessionState()), remaining))
    {
      if !nextPreloaded && |files| > 1 && remaining <= CROSSFADE_TIME {
        nextPreloaded := true;
        preloadedFilePath := files[nextFileIndex % |files|];
        PlayMediaInContainer(nextContainer, preloadedFilePath);
      }
    }

    /** One turn of the `forEach` in `resetMediaContainers`. */
    method ClearContainer(c: Container)
      modifies this
      ensures SessionState() == Playback.ClearContainer(old(SessionState()), c)
      ensures State() == old(State()).(session := SessionState())
      ensures nextContainer == old(nextContainer)
    {
      if c == ContainerA {
        mountA, visibleA := Empty, false;
      } else {
        mountB, visibleB := Empty, false;
      }
    }

    /** `resetMediaContainers` */
    method ResetMediaContainers()
      modifies this
      ensures Valid() && State() == old(State()).(session := ResetContainers(old(SessionState())))
    {
      ClearContainer(ContainerA);
      ClearContainer(ContainerB);
      currentContainer := ContainerA;
      nextContainer := ContainerB;
      nextPreloaded := false;
      preloadedFilePath := "";
    }

    method SelectMode(idx: int)
      requires 0 <= idx < |modes|
      modifies this
      ensures State() == old(State()).(modeIndex := idx, folder := old(modes[idx]))
      ensures Valid() == old(Valid())
    {
      currentModeIndex := idx;
      currentFolder := modes[idx];
    }

    /** `loadFolderByIndex` up to the call to `getVideos`, and the assignment of its answer. */
    method RewindToFolder(idx: int, listing: seq<string>)
      requires Valid() && 0 <= idx < |modes|
      modifies this
      ensures Valid() && State() == Rewound(old(State()), idx, listing)
    {
      ResetMediaContainers();
      SelectMode(idx);
      currentIndex := 0;
      nextPreloaded := false;
      preloadedFilePath := "";
      files := listing;
    }

    /** `loadFolderByIndex(idx)`, with `listing` the answer of `getVideos` for the folder. */
    method LoadFolderByIndex(idx: int, listing: seq<string>)
      requires Valid()
      modifies this
      ensures Valid() && State() == SelectFolder(old(State()), idx, listing)
    {
      if idx < 0 || idx >= |modes| {
        return;
      }
      RewindToFolder(idx, listing);
      if |files| == 0 {
        return;
      }
      Start();
    }

    method ToggleDebug()
      modifies this
      ensures Valid() == old(Valid()) && State() == old(State()).(flags := Toggle(old(State()).flags, Action.ToggleDebug))
    {
      debugVisible := !debugVisible;
    }

    method ToggleHint()
      modifies this
      ensures Valid() == old(Valid()) && State() == old(State()).(flags := Toggle(old(State()).flags, Action.ToggleHint))
    {
      hintVisible := !hintVisible;
    }

    method ToggleMute()
      modifies this
      ensures Valid() == old(Valid()) && State() == old(State()).(flags := Toggle(old(State()).flags, Action.ToggleMute))
    {
      isMuted := !isMuted;
    }

    method ToggleAlwaysOnTop()
      modifies this
      ensures Valid() == old(Valid()) && State() == old(State()).(flags := Toggle(old(State()).flags, Action.ToggleAlwaysOnTop))
    {
      alwaysOnTopEnabled := !alwaysOnTopEnabled;
    }

    /** The keydown handler for a key with `code` and `key`; `listing` is what `getVideos` answers
        when the key loads a folder. */
    method KeyDown(code: string, key: string, listing: seq<string>)
      requires Valid()
      modifies this
      ensures Valid() && State() == Apply(old(State()), Dispatch(code, key, |old(modes)|), listing)
    {
      if code == "ShiftLeft" {
        ToggleDebug();
        return;
      }
      if code == "KeyH" {
        ToggleHint();
        return;
      }
      if code == "KeyM" {
        ToggleMute();
        return;
      }
      if code == "KeyT" {
        ToggleAlwaysOnTop();
        return;
      }
      var digit := ParseInt(key);
      if digit.Some? && digit.value >= 1 && digit.value <= |modes| {
        LoadFolderByIndex(digit.value - 1, listing);
      }
    }
  }
}
