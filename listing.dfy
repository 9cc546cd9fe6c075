/** The main process's `getVideos` handler: the entries of a folder whose extension is one of
    the media extensions, each joined to the folder path. */
module MediaListing {
  import opened Text
  import opened Assets

  /** The extensions `getVideos` accepts, with their dot. */
  const MEDIA_EXTENSIONS: seq<string> :=
    [".mp4", ".mov", ".webm", ".m4v", ".avi", ".mkv", ".jpg", ".jpeg", ".png", ".gif", ".bmp"]

  /** Node's `path.extname` of a directory entry (a name without '/'): from the last '.' to the
      end; empty when there is no '.', when the last '.' is the first character, and for "..". */
  function ExtName(name: string): string
  {
    if Lacks(name, '.') then ""
    else
      var after := Last(Split(name, '.'));
      SplitLast(name, '.');
      var dot := |name| - |after| - 1;
      if dot == 0 || (name[0] == '.' && dot == |name| - 1 && dot == 1) then ""
      else name[dot..]
  }

  /** The extension is empty or starts at the last '.' of the name: it is "." and the text after
      that last '.'. It is non-empty exactly when a '.' follows the first character and the name
      is not "..". */
  lemma ExtNameAfterLastDot(name: string)
    ensures ExtName(name) == "" || (!Lacks(name, '.') && ExtName(name) == "." + Last(Split(name, '.')))
    ensures Lacks(name, '.') ==> ExtName(name) == ""
    ensures ExtName(name) != "" <==> (exists k :: 0 < k < |name| && name[k] == '.') && name != ".."
  {
    if !Lacks(name, '.') {
      SplitLast(name, '.');
      var after := Last(Split(name, '.'));
      DotBeforeSuffix(name, after);
      LastDotIsLast(name, after);
    }
  }

  /** A dotfile has no extension. */
  lemma ExtNameOfDotfile()
    ensures ExtName(".bashrc") == ""
  {
    ExtNameAfterLastDot(".bashrc");
  }

  /** ".." has no extension. */
  lemma ExtNameOfDotDot()
    ensures ExtName("..") == ""
  {
  }

  /** A trailing dot is an extension of its own, and only the last dot of "..mp4" counts. */
  lemma ExtNameOfDottedNames()
    ensures ExtName("a.") == "." && ExtName("..mp4") == ".mp4"
  {
    assert "a." == "a" + ['.'] + "";
    SplitTwoFields("a", "", '.');
    assert "..mp4" == "" + ['.'] + "" + ['.'] + "mp4";
    SplitThreeFields("", "", "mp4", '.');
  }

  /** No '.' follows the one in front of a '.'-free suffix. */
  lemma LastDotIsLast(name: string, after: string)
    requires |after| < |name| && after == name[|name| - |after|..] && Lacks(after, '.')
    ensures forall k :: |name| - |after| - 1 < k < |name| ==> name[k] != '.'
  {
    var dot := |name| - |after| - 1;
    forall k | dot < k < |name|
      ensures name[k] != '.'
    {
      assert name[k] == after[k - dot - 1];
    }
  }

  lemma DotBeforeSuffix(name: string, after: string)
    requires |after| < |name| && after == name[|name| - |after|..] && name[|name| - |after| - 1] == '.'
    ensures name[|name| - |after| - 1..] == "." + after
  {
    var dot := |name| - |after| - 1;
    assert name[dot..] == [name[dot]] + name[dot + 1..];
  }

  /** The filter of `getVideos`: the lower-cased extension is one of the media extensions. */
  predicate Accepted(name: string)
  {
    Lower(ExtName(name)) in MEDIA_EXTENSIONS
  }

  function Filter(entries: seq<string>): seq<string>
  {
    if entries == [] then []
    else (if Accepted(entries[0]) then [entries[0]] else []) + Filter(entries[1..])
  }

  /** `path.join(folderPath, file)` for a folder path and a directory entry. */
  function PathJoin(dir: string, name: string): string
  {
    dir + "/" + name
  }

  function JoinAll(dir: string, names: seq<string>): (r: seq<string>)
    ensures |r| == |names| && forall i :: 0 <= i < |names| ==> r[i] == PathJoin(dir, names[i])
  {
    if names == [] then [] else [PathJoin(dir, names[0])] + JoinAll(dir, names[1..])
  }

  /** The reply of `getVideos` for the folder at `folderPath` whose directory listing is
      `entries`; `None` is a `readdirSync` that threw, answered with the empty list. */
  function ListMedia(folderPath: string, entries: Option<seq<string>>): seq<string>
  {
    match entries
    case None => []
    case Some(names) => JoinAll(folderPath, Filter(names))
  }

  /** `xs` is `ys` with some elements left out, the rest in their order. */
  predicate IsSubsequence(xs: seq<string>, ys: seq<string>)
    decreases |ys|
  {
    if xs == [] then true
    else if ys == [] then false
    else if xs[0] == ys[0] then IsSubsequence(xs[1..], ys[1..])
    else IsSubsequence(xs, ys[1..])
  }

  /** The filter keeps the accepted entries, all of them, in directory order. */
  lemma {:induction false} FilterKeepsAccepted(entries: seq<string>)
    ensures IsSubsequence(Filter(entries), entries)
    ensures forall i :: 0 <= i < |Filter(entries)| ==> Accepted(Filter(entries)[i])
    ensures forall i :: 0 <= i < |entries| && Accepted(entries[i]) ==> entries[i] in Filter(entries)
  {
    if entries != [] {
      var rest := Filter(entries[1..]);
      FilterKeepsAccepted(entries[1..]);
      var f := Filter(entries);
      if Accepted(entries[0]) {
        assert f == [entries[0]] + rest;
        assert f[1..] == rest;
      } else {
        assert f == rest;
      }
      forall i | 0 <= i < |entries| && Accepted(entries[i])
        ensures entries[i] in f
      {
        if i > 0 {
          assert entries[i] == entries[1..][i - 1];
        }
      }
    }
  }

  /** Every path `getVideos` answers is the folder path joined to an accepted entry, these
      entries come in directory order, and every accepted entry is among them. */
  lemma ListMediaIsFilteredListing(folderPath: string, names: seq<string>)
    ensures var r := ListMedia(folderPath, Some(names)); var kept := Filter(names);
      |r| == |kept| && IsSubsequence(kept, names) &&
      (forall i :: 0 <= i < |r| ==> r[i] == PathJoin(folderPath, kept[i]) && Accepted(kept[i])) &&
      (forall i :: 0 <= i < |names| && Accepted(names[i]) ==> PathJoin(folderPath, names[i]) in r)
  {
    FilterKeepsAccepted(names);
    var r := ListMedia(folderPath, Some(names));
    var kept := Filter(names);
    forall i | 0 <= i < |names| && Accepted(names[i])
      ensures PathJoin(folderPath, names[i]) in r
    {
      var j :| 0 <= j < |kept| && kept[j] == names[i];
      assert r[j] == PathJoin(folderPath, names[i]);
    }
  }

  lemma LowerDotted(y: string)
    ensures Lower("." + y) == "." + Lower(y)
  {
    assert forall i :: 0 <= i < |y| ==> ("." + y)[i + 1] == y[i];
  }

  /** A media extension is a dot before an extension `preload.js` plays as a video or an image. */
  lemma MediaExtensionIsKnownKind(y: string)
    requires "." + y in MEDIA_EXTENSIONS
    ensures y in VIDEO_EXTENSIONS || y in IMAGE_EXTENSIONS
  {
    var x := "." + y;
    assert y == x[1..];
    var j :| 0 <= j < |MEDIA_EXTENSIONS| && MEDIA_EXTENSIONS[j] == x;
    if j < 6 {
      assert MEDIA_EXTENSIONS[j][1..] == VIDEO_EXTENSIONS[j];
    } else {
      assert MEDIA_EXTENSIONS[j][1..] == IMAGE_EXTENSIONS[j - 6];
    }
  }

  /** Every path `getVideos` lets through is one `preload.js` plays as a video or an image, so
      the unknown-type branch of `playMediaInContainer` is never taken for a listed file. */
  lemma ListedAreClassified(folderPath: string, name: string)
    requires Accepted(name)
    ensures Classify(PathJoin(folderPath, name)) != Unknown
  {
    ExtNameAfterLastDot(name);
    var after := Last(Split(name, '.'));
    assert ExtName(name) == "." + after;
    LowerDotted(after);
    MediaExtensionIsKnownKind(Lower(after));
    assert PathJoin(folderPath, name) == (folderPath + "/") + name;
    SplitLastAppend(folderPath + "/", name, '.');
    assert Extension(PathJoin(folderPath, name)) == Lower(after);
  }

  /** All of an answer of `getVideos` plays as video or image. */
  lemma ListMediaAllClassified(folderPath: string, entries: Option<seq<string>>)
    ensures forall i :: 0 <= i < |ListMedia(folderPath, entries)| ==> Classify(ListMedia(folderPath, entries)[i]) != Unknown
  {
    if entries.Some? {
      var r := ListMedia(folderPath, entries);
      var kept := Filter(entries.value);
      ListMediaIsFilteredListing(folderPath, entries.value);
      forall i | 0 <= i < |r|
        ensures Classify(r[i]) != Unknown
      {
        ListedAreClassified(folderPath, kept[i]);
      }
    }
  }
}
