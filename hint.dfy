/** The hint overlay text built at start-up from the list of folders ("modes"). */
module Hint {
  import opened Text

  const HEADER: string := "Press [Shift] = toggle debug\n\n"
  const NO_FOLDERS: string := "No folders in /videos/."
  const LOAD_ERROR: string := "Error: could not load folder list!"

  /** The hint line that binds key number `key` to `folder`. */
  function Line(key: nat, folder: string): string
  {
    "Press [" + NatToString(key) + "] = " + folder + "\n"
  }

  /** The lines for `folders` in order, the first one bound to key number `key`. */
  function Lines(folders: seq<string>, key: nat): string
  {
    if folders == [] then "" else Line(key, folders[0]) + Lines(folders[1..], key + 1)
  }

  /** The hint text for the reply of the folder listing; `None` stands for a listing that threw. */
  function HintText(reply: Option<seq<string>>): string
  {
    match reply
    case None => LOAD_ERROR
    case Some(modes) => if |modes| == 0 then NO_FOLDERS else HEADER + Lines(modes, 1)
  }

  /** The lines of two lists of folders, one after the other, continue the key numbering. */
  lemma {:induction false} LinesConcat(xs: seq<string>, ys: seq<string>, key: nat)
    ensures Lines(xs + ys, key) == Lines(xs, key) + Lines(ys, key + |xs|)
  {
    if xs == [] {
      assert xs + ys == ys;
    } else {
      assert (xs + ys)[1..] == xs[1..] + ys;
      LinesConcat(xs[1..], ys, key + 1);
    }
  }

  lemma LinesOne(folder: string, key: nat)
    ensures Lines([folder], key) == Line(key, folder)
  {
    assert [folder][1..] == [];
  }

  /** The lines list every folder in order: folder `i` has the line that binds it to key number
      `i + 1`, after the lines of the folders before it and before those of the folders after it. */
  lemma HintListsEveryFolder(modes: seq<string>, i: nat)
    requires i < |modes|
    ensures Lines(modes, 1) == Lines(modes[..i], 1) + (Line(i + 1, modes[i]) + Lines(modes[i + 1..], i + 2))
  {
    var before, rest := modes[..i], modes[i..];
    assert modes == before + rest;
    LinesConcat(before, rest, 1);
    LinesFirst(rest, i + 1);
    assert rest[1..] == modes[i + 1..];
  }

  lemma LinesFirst(folders: seq<string>, key: nat)
    requires folders != []
    ensures Lines(folders, key) == Line(key, folders[0]) + Lines(folders[1..], key + 1)
  {
  }

  /** The start-up code that fills the hint overlay: the `forEach` over the folders appends one
      line per folder to the header. */
  method BuildHintText(reply: Option<seq<string>>) returns (text: string)
    ensures text == HintText(reply)
  {
    if reply.None? {
      text := LOAD_ERROR;
      return;
    }
    var modes := reply.value;
    if |modes| == 0 {
      text := NO_FOLDERS;
    } else {
      var hintText := HEADER;
      var idx := 0;
      while idx < |modes|
        invariant 0 <= idx <= |modes|
        invariant hintText == HEADER + Lines(modes[..idx], 1)
      {
        var keyNum := idx + 1;
        LinesConcat(modes[..idx], [modes[idx]], 1);
        LinesOne(modes[idx], keyNum);
        assert modes[..idx + 1] == modes[..idx] + [modes[idx]];
        hintText := hintText + Line(keyNum, modes[idx]);
        idx := idx + 1;
      }
      assert modes[..idx] == modes;
      text := hintText;
    }
  }
}
