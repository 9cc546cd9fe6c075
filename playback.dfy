/** The playback cycle of the renderer: the state `playNextMedia`, the preload trigger and
    `doCrossfade` share, and one pure function per operation on it. The class in renderer.dfy
    keeps this state in fields and its methods are specified by these functions. */
module Playback {
  import opened Text
  import opened Assets

  /** Seconds before the end of a video at which the next file is preloaded (`CROSSFADE_TIME`). */
  const CROSSFADE_TIME: int := 3

  datatype Container = ContainerA | ContainerB
  {
    function Other(): Container
    {
      if this == ContainerA then ContainerB else ContainerA
    }
  }

  /** What a container holds: nothing, or the element `playMediaInContainer` built for a path. */
  datatype Mount = Empty | Holding(path: string, kind: Kind)

  /** What `playMediaInContainer` leaves in a container after clearing it: a video or an image
      element for `path`; for an unknown kind it appends nothing. */
  function MountFor(path: string): Mount
  {
    var kind := Classify(path);
    if kind == Unknown then Empty else Holding(path, kind)
  }

  /** A container ends up empty exactly for a path that is neither a video nor an image, and
      otherwise holds an element of that path's kind for that path. */
  lemma MountForKinds(path: string)
    ensures MountFor(path).Empty? <==> !IsVideoFile(path) && !IsImageFile(path)
    ensures MountFor(path).Holding? ==>
      MountFor(path).path == path && MountFor(path).kind == Classify(path) &&
      (MountFor(path).kind == Video <==> IsVideoFile(path))
  {
  }

  /** The closure variables of the cycle, and what the two containers show and hold.
      `currentContainer` and `nextContainer` start as the two containers and are only ever
      swapped or reset to the two, so the next container is kept as the other one. */
  datatype Session = Session(
    files: seq<string>,
    currentIndex: nat,
    nextFileIndex: nat,
    nextPreloaded: bool,
    preloadedFilePath: string,
    current: Container,
    visibleA: bool,
    visibleB: bool,
    mountA: Mount,
    mountB: Mount)
  {
    function Visible(c: Container): bool
    {
      if c == ContainerA then visibleA else visibleB
    }

    function MountOf(c: Container): Mount
    {
      if c == ContainerA then mountA else mountB
    }

    /** `nextContainer` */
    function Next(): Container
    {
      current.Other()
    }

    function WithMount(c: Container, m: Mount): Session
    {
      if c == ContainerA then this.(mountA := m) else this.(mountB := m)
    }

    /** The current container is visible and the next one hidden. */
    predicate Shown()
    {
      Visible(current) && !Visible(Next())
    }

    /** The state right after a step has started: `currentIndex` already points past the file
        that plays, and `nextFileIndex` is the index that follows it, wrapping to 0. */
    predicate Cycling()
    {
      |files| > 0 && 1 <= currentIndex <= |files| &&
      nextFileIndex == if currentIndex == |files| then 0 else currentIndex
    }
  }

  /** The two roles are held by the two containers, one each. */
  lemma RolesAreBothContainers(s: Session)
    ensures {s.current, s.Next()} == {ContainerA, ContainerB}
  {
  }

  /** `playMediaInContainer(c, path)`: the container is cleared and gets the element for `path`. */
  function PlayMedia(s: Session, c: Container, path: string): Session
  {
    s.WithMount(c, MountFor(path))
  }

  /** Playing a file replaces what the chosen container holds and leaves the other container and
      every other part of the session as they were. */
  lemma PlayMediaReplacesOnly(s: Session, c: Container, path: string)
    ensures var r := PlayMedia(s, c, path);
      r.MountOf(c) == MountFor(path) && r.MountOf(c.Other()) == s.MountOf(c.Other()) &&
      r == s.(mountA := r.mountA, mountB := r.mountB)
  {
  }

  /** The `canReusePreloaded` test: the preload flag is up, it was for this file, and the current
      container holds a video for it. */
  predicate CanReusePreloaded(s: Session, filePath: string)
  {
    s.nextPreloaded && s.preloadedFilePath == filePath && s.MountOf(s.current) == Holding(filePath, Video)
  }

  /** The file a step plays: the one at `currentIndex`, or the first once the index has run off
      the end. */
  function PlayIndex(s: Session): nat
    requires |s.files| > 0
  {
    if s.currentIndex >= |s.files| then 0 else s.currentIndex
  }

  /** Steps 2) to 4) of `playNextMedia`: wrap the index and pick the index after it. */
  function Aim(s: Session): Session
    requires |s.files| > 0
  {
    var n := |s.files|;
    var ci := if s.currentIndex >= n then 0 else s.currentIndex;
    var nextIdx := if ci + 1 >= n then 0 else ci + 1;
    s.(currentIndex := ci, nextFileIndex := nextIdx)
  }

  /** The state in which `playNextMedia` evaluates `canReusePreloaded`: aimed, index advanced,
      preload flag cleared, current container shown and next hidden. */
  function BeforePlay(s: Session): (r: Session)
    requires |s.files| > 0
    ensures r.files == s.files && r.current == s.current
    ensures r.Cycling() && r.currentIndex == PlayIndex(s) + 1 && !r.nextPreloaded && r.Shown()
    ensures r.preloadedFilePath == s.preloadedFilePath && r.mountA == s.mountA && r.mountB == s.mountB
  {
    var t := Aim(s);
    t.(currentIndex := t.currentIndex + 1,
       nextPreloaded := false,
       visibleA := s.current == ContainerA,
       visibleB := s.current == ContainerB)
  }

  /** One `playNextMedia` step up to its `await`. With no files nothing happens. Otherwise the
      wrapped index is played in the current container, which becomes visible while the next is
      hidden and keeps what it holds; the indices satisfy `Cycling`; the preload flag is down. */
  function Begin(s: Session): (r: Session)
    ensures |s.files| == 0 ==> r == s
    ensures |s.files| > 0 ==>
      var i := PlayIndex(s);
      r.files == s.files && r.current == s.current &&
      r.Cycling() && r.currentIndex == i + 1 && !r.nextPreloaded && r.Shown() &&
      r.MountOf(r.current) == MountFor(s.files[i]) && r.MountOf(r.Next()) == s.MountOf(s.Next()) &&
      r.preloadedFilePath == s.preloadedFilePath
  {
    if |s.files| == 0 then s
    else
      var u := BeforePlay(s);
      var filePath := s.files[PlayIndex(s)];
      if CanReusePreloaded(u, filePath) then u else PlayMedia(u, u.current, filePath)
  }

  /** The reuse branch of `playNextMedia` is never taken: the preload flag is cleared before it is
      tested, so the current container is always cleared and refilled. */
  lemma ReuseBranchUnreachable(s: Session)
    requires |s.files| > 0
    ensures !CanReusePreloaded(BeforePlay(s), s.files[PlayIndex(s)])
  {
  }

  /** `doCrossfade`: hide the current container, show the next, swap the roles; nothing else
      changes. */
  function Crossfade(s: Session): (r: Session)
    ensures r.current == s.Next() && r.Next() == s.current && r.Shown()
    ensures r == s.(current := s.Next(), visibleA := r.visibleA, visibleB := r.visibleB)
  {
    s.(visibleA := s.current != ContainerA, visibleB := s.current != ContainerB, current := s.Next())
  }

  /** Two hand-offs give the roles back, and the whole state when it was shown as usual. */
  lemma {:induction false} CrossfadeTwice(s: Session)
    ensures Crossfade(Crossfade(s)).current == s.current
    ensures s.Shown() ==> Crossfade(Crossfade(s)) == s
  {
    var r := Crossfade(Crossfade(s));
    if s.Shown() {
      assert r.Visible(s.current) && !r.Visible(s.Next());
      assert r.visibleA == s.visibleA && r.visibleB == s.visibleB;
    }
  }

  /** One turn of the `forEach` in `resetMediaContainers`: the container is emptied and hidden. */
  function ClearContainer(s: Session, c: Container): Session
  {
    if c == ContainerA then s.(mountA := Empty, visibleA := false) else s.(mountB := Empty, visibleB := false)
  }

  /** `resetMediaContainers`: both containers emptied and hidden, container A current again, the
      preload flag and path cleared. */
  function ResetContainers(s: Session): Session
  {
    ClearContainer(ClearContainer(s, ContainerA), ContainerB).(
      current := ContainerA, nextPreloaded := false, preloadedFilePath := "")
  }

  /** After a reset nothing is shown or held, A is current and B next, nothing is preloaded, and
      the file list and both indices are untouched; resetting again changes nothing. */
  lemma ResetClearsContainers(s: Session)
    ensures var r := ResetContainers(s);
      r.current == ContainerA && r.Next() == ContainerB &&
      !r.Visible(ContainerA) && !r.Visible(ContainerB) &&
      r.MountOf(ContainerA) == Empty && r.MountOf(ContainerB) == Empty &&
      !r.nextPreloaded && r.preloadedFilePath == "" &&
      r.files == s.files && r.currentIndex == s.currentIndex && r.nextFileIndex == s.nextFileIndex &&
      ResetContainers(r) == r
  {
  }

  /** The completion of the awaited media: `doCrossfade`, then the next `playNextMedia` step. */
  function Finish(s: Session): Session
  {
    Begin(Crossfade(s))
  }

  /** The guard of the `timeupdate` handler for a video with `remaining` seconds left. */
  predicate PreloadFires(s: Session, remaining: int)
  {
    !s.nextPreloaded && |s.files| > 1 && remaining <= CROSSFADE_TIME
  }

  /** The `timeupdate` handler's preload: raise the flag, record the next file and start it in
      the next container. */
  function Preload(s: Session, remaining: int): Session
  {
    if PreloadFires(s, remaining) then
      var path := s.files[s.nextFileIndex % |s.files|];
      PlayMedia(s.(nextPreloaded := true, preloadedFilePath := path), s.Next(), path)
    else s
  }

  /** A progress tick changes nothing unless it fires; a firing tick raises the flag and touches
      only the preload fields and the next container, never the current one. */
  lemma PreloadTouchesOnlyNext(s: Session, remaining: int)
    ensures !PreloadFires(s, remaining) ==> Preload(s, remaining) == s
    ensures var r := Preload(s, remaining);
      r.files == s.files && r.currentIndex == s.currentIndex && r.nextFileIndex == s.nextFileIndex &&
      r.current == s.current && r.visibleA == s.visibleA && r.visibleB == s.visibleB &&
      r.MountOf(r.current) == s.MountOf(s.current)
    ensures PreloadFires(s, remaining) <==> !s.nextPreloaded && Preload(s, remaining).nextPreloaded
  {
  }

  /** The state after a series of progress ticks. */
  function Ticks(s: Session, rs: seq<int>): Session
    decreases |rs|
  {
    if rs == [] then s else Ticks(Preload(s, rs[0]), rs[1..])
  }

  /** How many ticks of the series fire the preload. */
  function FireCount(s: Session, rs: seq<int>): nat
    decreases |rs|
  {
    if rs == [] then 0
    else (if PreloadFires(s, rs[0]) then 1 else 0) + FireCount(Preload(s, rs[0]), rs[1..])
  }

  /** Within one step the preload fires at most once, not at all once the flag is up, and ticks
      that do not fire leave the state as it was. */
  lemma {:induction false} PreloadFiresAtMostOnce(s: Session, rs: seq<int>)
    decreases |rs|
    ensures FireCount(s, rs) <= 1
    ensures s.nextPreloaded ==> FireCount(s, rs) == 0
    ensures FireCount(s, rs) == 0 ==> Ticks(s, rs) == s
  {
    if rs != [] {
      var t := Preload(s, rs[0]);
      PreloadFiresAtMostOnce(t, rs[1..]);
      if PreloadFires(s, rs[0]) {
        assert t.nextPreloaded;
      } else {
        assert t == s;
      }
    }
  }

  /** Counting on by one, modulo `n`, wraps to 0 exactly at `n`. */
  lemma ModSucc(k: nat, n: nat)
    requires n > 0
    ensures (k + 1) % n == if k % n + 1 < n then k % n + 1 else 0
  {
    var q := k / n;
    assert k == q * n + k % n;
    if k % n + 1 < n {
      ModUnique(k + 1, n, q, k % n + 1);
    } else {
      assert k + 1 == (q + 1) * n;
      ModUnique(k + 1, n, q + 1, 0);
    }
  }

  /** The file the preload loads is the file the following step plays, and the container it was
      loaded into becomes the current one holding an element for the same file. */
  lemma PreloadLoadsNextPlayed(s: Session, remaining: int)
    requires s.Cycling() && PreloadFires(s, remaining)
    ensures var t := Preload(s, remaining); var u := Finish(t);
      t.preloadedFilePath == s.files[u.currentIndex - 1] &&
      u.current == s.Next() && u.MountOf(u.current) == t.MountOf(s.Next())
  {
    var n := |s.files|;
    var t := Preload(s, remaining);
    var c := Crossfade(t);
    assert c.currentIndex == s.currentIndex && c.files == s.files;
    ModUnique(s.nextFileIndex, n, 0, s.nextFileIndex);
    assert s.nextFileIndex == PlayIndex(c);
  }

  /** What can happen while a step plays: a progress tick of the playing video, or the end of
      the media (video ended, image or unknown timer ran out). */
  datatype Event = Progress(remaining: int) | Ended

  function Step(s: Session, e: Event): Session
  {
    match e
    case Progress(remaining) => Preload(s, remaining)
    case Ended => Finish(s)
  }

  /** The state after a series of events. */
  function Run(s: Session, evs: seq<Event>): Session
    decreases |evs|
  {
    if evs == [] then s else Step(Run(s, evs[..|evs| - 1]), Last(evs))
  }

  function EndedCount(evs: seq<Event>): nat
    decreases |evs|
  {
    if evs == [] then 0 else EndedCount(evs[..|evs| - 1]) + (if Last(evs) == Ended then 1 else 0)
  }

  /** The step under way is the one for the `k`-th end of media counted from a start at index
      0 with the current role in container `first`: it plays `files[k mod n]` from the container
      whose turn it is, shown while the other is hidden, with `currentIndex` one past it and the
      next index wrapping after it. */
  predicate PlayingAt(t: Session, files: seq<string>, k: nat, first: Container)
  {
    var n := |files|;
    n > 0 && t.files == files && t.Shown() &&
    t.currentIndex == k % n + 1 && t.nextFileIndex == (k + 1) % n &&
    t.MountOf(t.current) == MountFor(files[k % n]) &&
    t.current == (if k % 2 == 0 then first else first.Other())
  }

  lemma PlayingAtStart(s: Session)
    requires |s.files| > 0 && s.currentIndex == 0
    ensures PlayingAt(Begin(s), s.files, 0, s.current)
  {
    var n := |s.files|;
    ModUnique(0, n, 0, 0);
    ModSucc(0, n);
  }

  lemma PlayingAfterProgress(t: Session, files: seq<string>, k: nat, first: Container, remaining: int)
    requires PlayingAt(t, files, k, first)
    ensures PlayingAt(Preload(t, remaining), files, k, first)
  {
    PreloadTouchesOnlyNext(t, remaining);
  }

  /** The cross-fade that ends the k-th step hands over to the other container and aims the
      next step at file k + 1 mod n. */
  lemma CrossfadeAfterPlaying(t: Session, files: seq<string>, k: nat, first: Container)
    requires PlayingAt(t, files, k, first)
    ensures var c := Crossfade(t); var n := |files|;
      c.files == files && PlayIndex(c) == (k + 1) % n &&
      c.current == (if (k + 1) % 2 == 0 then first else first.Other())
  {
    var n := |files|;
    ModSucc(k, n);
    ModSucc(k, 2);
  }

  lemma PlayingAfterEnded(t: Session, files: seq<string>, k: nat, first: Container)
    requires PlayingAt(t, files, k, first)
    ensures PlayingAt(Finish(t), files, k + 1, first)
  {
    var n := |files|;
    var c := Crossfade(t);
    CrossfadeAfterPlaying(t, files, k, first);
    ModSucc(k + 1, n);
    var u := Begin(c);
    assert u.currentIndex == (k + 1) % n + 1;
    assert u.nextFileIndex == (k + 2) % n;
  }

  /** Playing a folder from index 0: after any series of events in which the media ended `k`
      times, the step under way plays `files[k mod n]` from the container whose turn it is, the
      next index is `(k + 1) mod n`, and the current container is visible and the other hidden. */
  lemma {:induction false} PlaysInListOrder(s: Session, evs: seq<Event>)
    requires |s.files| > 0 && s.currentIndex == 0
    ensures PlayingAt(Run(Begin(s), evs), s.files, EndedCount(evs), s.current)
    decreases |evs|
  {
    if evs == [] {
      PlayingAtStart(s);
    } else {
      var prev := evs[..|evs| - 1];
      PlaysInListOrder(s, prev);
      var t0 := Run(Begin(s), prev);
      match Last(evs)
      case Progress(remaining) =>
        PlayingAfterProgress(t0, s.files, EndedCount(prev), s.current, remaining);
      case Ended =>
        PlayingAfterEnded(t0, s.files, EndedCount(prev), s.current);
    }
  }
}
