/** The pure helpers of the renderer's player: classifying a path as video or image by its
    extension, taking the file name off a path, and rendering a number of seconds as a clock. */
module Assets {
  import opened Text

  const VIDEO_EXTENSIONS: seq<string> := ["mp4", "mov", "webm", "m4v", "avi", "mkv"]
  const IMAGE_EXTENSIONS: seq<string> := ["jpg", "jpeg", "png", "gif", "bmp"]

  /** `filePath.split('.').pop().toLowerCase()` */
  function Extension(path: string): string
  {
    Lower(Last(Split(path, '.')))
  }

  /** The extension is the lower-cased text after the last '.', or the whole lower-cased path
      when it has no '.'. */
  lemma ExtensionAfterLastDot(path: string)
    ensures Lacks(Extension(path), '.')
    ensures Lacks(path, '.') ==> Extension(path) == Lower(path)
    ensures !Lacks(path, '.') ==>
      exists k :: 0 <= k < |path| && path[k] == '.' && Extension(path) == Lower(path[k + 1..]) && Lacks(path[k + 1..], '.')
  {
    var last := Last(Split(path, '.'));
    SplitLast(path, '.');
    if !Lacks(path, '.') {
      var k := |path| - |last| - 1;
      assert path[k] == '.' && path[k + 1..] == last;
    }
  }

  predicate IsVideoFile(path: string)
  {
    Extension(path) in VIDEO_EXTENSIONS
  }

  predicate IsImageFile(path: string)
  {
    Extension(path) in IMAGE_EXTENSIONS
  }

  datatype Kind = Video | Image | Unknown

  /** The branch `playMediaInContainer` takes for a path: video first, then image, else unknown. */
  function Classify(path: string): (k: Kind)
    ensures k == Video <==> IsVideoFile(path)
    ensures k == Image <==> IsImageFile(path)
    ensures k == Unknown <==> !IsVideoFile(path) && !IsImageFile(path)
  {
    if IsVideoFile(path) then Video else if IsImageFile(path) then Image else Unknown
  }

  /** No path is both a video and an image. */
  lemma NeverBoth(path: string)
    ensures !(IsVideoFile(path) && IsImageFile(path))
  {
  }

  /** Lower-casing a path and splitting it on a character that is not a letter commute. */
  lemma {:induction false} SplitLastLower(p: string, sep: char)
    requires !('A' <= sep <= 'Z') && !('a' <= sep <= 'z')
    ensures Last(Split(Lower(p), sep)) == Lower(Last(Split(p, sep)))
  {
    if p != [] {
      var lp := Lower(p);
      assert lp[1..] == Lower(p[1..]);
      assert Lacks(p[1..], sep) <==> Lacks(lp[1..], sep) by {
        assert forall i :: 0 <= i < |p| - 1 ==> (p[1..][i] == sep <==> lp[1..][i] == sep);
      }
      if !Lacks(p[1..], sep) {
        SplitLastTail(p, sep);
        SplitLastTail(lp, sep);
        SplitLastLower(p[1..], sep);
      } else if p[0] == sep {
        assert Split(p, sep) == [[]] + Split(p[1..], sep);
        assert Split(lp, sep) == [[]] + Split(lp[1..], sep);
        SplitField(p[1..], sep);
        SplitField(lp[1..], sep);
      } else {
        assert Lacks(p, sep);
        assert Lacks(lp, sep);
        SplitField(p, sep);
        SplitField(lp, sep);
      }
    }
  }

  /** The extension of a path does not depend on the case of its letters. */
  lemma ExtensionIgnoresCase(p: string)
    ensures Extension(Lower(p)) == Extension(p)
  {
    SplitLastLower(p, '.');
    LowerIdempotent(Last(Split(p, '.')));
  }

  /** Two paths that agree once lower-cased are classified alike (`FILE.MP4` and `file.mp4`). */
  lemma ClassifyIgnoresCase(p: string, q: string)
    requires Lower(p) == Lower(q)
    ensures Classify(p) == Classify(q)
  {
    ExtensionIgnoresCase(p);
    ExtensionIgnoresCase(q);
  }

  /** A path made of two dot-free parts has the second part, lower-cased, as its extension. */
  lemma ExtensionOfTwoParts(name: string, ext: string)
    requires Lacks(name, '.') && Lacks(ext, '.')
    ensures Extension(name + ['.'] + ext) == Lower(ext)
  {
    SplitTwoFields(name, ext, '.');
  }

  lemma LowerMp4Extension()
    ensures Extension("file.mp4") == "mp4"
  {
    var name, ext := "file", "mp4";
    assert name + ['.'] + ext == "file.mp4";
    ExtensionOfTwoParts(name, ext);
    assert Lower(ext) == ext;
  }

  lemma LowerMp4IsVideo()
    ensures Classify("file.mp4") == Video
  {
    LowerMp4Extension();
    assert IsVideoFile("file.mp4");
  }

  lemma UpperAndLowerMp4AreVideos()
    ensures Classify("FILE.MP4") == Classify("file.mp4") == Video
  {
    assert Lower("FILE.MP4") == Lower("file.mp4");
    ClassifyIgnoresCase("FILE.MP4", "file.mp4");
    LowerMp4IsVideo();
  }

  /** `getFileName`: the last part of the path split on runs of '/' and '\'. */
  function GetFileName(path: string): string
  {
    Last(SplitPath(path))
  }

  /** The file name is the text after the last separator of the path: a suffix without
      separators that is the whole path or is preceded by a separator. */
  lemma GetFileNameAfterLastSeparator(path: string)
    ensures var name := GetFileName(path);
      |name| <= |path| && name == path[|path| - |name|..] && NoSeparator(name) &&
      (|name| < |path| ==> IsSeparator(path[|path| - |name| - 1]))
  {
    SplitPathLast(path);
  }

  /** A path without separators is its own file name. */
  lemma GetFileNameOfBareName(path: string)
    requires NoSeparator(path)
    ensures GetFileName(path) == path
  {
    GetFileNameAfterLastSeparator(path);
  }

  // ---------------------------------------------------------------------------
  // formatTime
  // ---------------------------------------------------------------------------

  /** `n.toString().padStart(2, '0')` */
  function Pad2(n: nat): string
  {
    PadStart(NatToString(n), 2, '0')
  }

  /** `formatTime` over whole seconds: "0:00" for a negative input, "m:ss" below an hour and
      "h:mm:ss" from an hour on. */
  function FormatTime(sec: int): (r: string)
    ensures sec < 0 ==> r == "0:00"
  {
    if sec < 0 then "0:00"
    else
      var h := sec / 3600;
      var m := (sec % 3600) / 60;
      var s := sec % 60;
      if h > 0 then NatToString(h) + ":" + Pad2(m) + ":" + Pad2(s)
      else NatToString(m) + ":" + Pad2(s)
  }

  /** The value of ':'-separated digit fields read in base 60. */
  function Sexagesimal(fields: seq<string>): nat
    requires forall i :: 0 <= i < |fields| ==> AllDigits(fields[i])
  {
    if fields == [] then 0 else Sexagesimal(fields[..|fields| - 1]) * 60 + DigitsValue(Last(fields))
  }

  /** Reads a clock back: two or three ':'-separated fields of digits, the first without a
      leading zero (unless it is "0"), each field after the first exactly two digits with a value
      below 60; the result is the number of seconds. */
  function ParseClock(t: string): Option<nat>
  {
    var fields := Split(t, ':');
    if (|fields| == 2 || |fields| == 3) &&
       (forall i :: 0 <= i < |fields| ==> |fields[i]| > 0 && AllDigits(fields[i])) &&
       (forall i :: 1 <= i < |fields| ==> |fields[i]| == 2 && DigitsValue(fields[i]) < 60) &&
       (fields[0][0] == '0' ==> |fields[0]| == 1)
    then Some(Sexagesimal(fields))
    else None
  }

  /** A zero-padded first field is not a clock `formatTime` writes. */
  lemma ParseClockRejectsPaddedMinutes()
    ensures ParseClock("00:05") == None
  {
    assert "00:05" == "00" + [':'] + "05";
    SplitTwoFields("00", "05", ':');
  }

  lemma Pad2Digits(n: nat)
    requires n < 100
    ensures |Pad2(n)| == 2 && AllDigits(Pad2(n)) && DigitsValue(Pad2(n)) == n
  {
    NatToStringDigits(n);
    var p := Pad2(n);
    if n < 10 {
      assert p == ['0', DigitChar(n)];
      assert p[..1] == ['0'];
      assert ['0'][..0] == [];
    }
  }

  lemma NoColonInDigits(s: string)
    requires AllDigits(s)
    ensures Lacks(s, ':')
  {
  }

  lemma {:induction false} SexagesimalTwo(a: string, b: string)
    requires AllDigits(a) && AllDigits(b)
    ensures Sexagesimal([a, b]) == DigitsValue(a) * 60 + DigitsValue(b)
  {
    assert [a, b][..1] == [a];
    assert [a][..0] == [];
    assert Sexagesimal([a]) == DigitsValue(a);
  }

  lemma {:induction false} SexagesimalThree(a: string, b: string, c: string)
    requires AllDigits(a) && AllDigits(b) && AllDigits(c)
    ensures Sexagesimal([a, b, c]) == (DigitsValue(a) * 60 + DigitsValue(b)) * 60 + DigitsValue(c)
  {
    assert [a, b, c][..2] == [a, b];
    SexagesimalTwo(a, b);
  }

  /** A clock of two fields that `ParseClock` accepts, read in base 60. */
  lemma ParseClockAcceptsTwo(t: string, a: string, b: string)
    requires Split(t, ':') == [a, b]
    requires |a| > 0 && AllDigits(a) && (a[0] == '0' ==> |a| == 1)
    requires |b| == 2 && AllDigits(b) && DigitsValue(b) < 60
    ensures ParseClock(t) == Some(Sexagesimal([a, b]))
  {
    var fields := [a, b];
    assert fields[0] == a && fields[1] == b;
  }

  /** A clock of three fields that `ParseClock` accepts, read in base 60. */
  lemma ParseClockAcceptsThree(t: string, a: string, b: string, c: string)
    requires Split(t, ':') == [a, b, c]
    requires |a| > 0 && AllDigits(a) && (a[0] == '0' ==> |a| == 1)
    requires |b| == 2 && AllDigits(b) && DigitsValue(b) < 60
    requires |c| == 2 && AllDigits(c) && DigitsValue(c) < 60
    ensures ParseClock(t) == Some(Sexagesimal([a, b, c]))
  {
    var fields := [a, b, c];
    assert fields[0] == a && fields[1] == b && fields[2] == c;
  }

  /** A clock of two digit fields, the second two digits below 60, reads back in base 60. */
  lemma TwoFieldClock(a: string, b: string, m: nat, s: nat, total: nat)
    requires |a| > 0 && AllDigits(a) && (a[0] == '0' ==> |a| == 1) && |b| == 2 && AllDigits(b) && s < 60
    requires DigitsValue(a) == m && DigitsValue(b) == s && total == m * 60 + s
    ensures |Split(a + ":" + b, ':')| == 2
    ensures ParseClock(a + ":" + b) == Some(total)
  {
    NoColonInDigits(a);
    NoColonInDigits(b);
    SplitTwoFields(a, b, ':');
    SexagesimalTwo(a, b);
    ParseClockAcceptsTwo(a + ":" + b, a, b);
  }

  /** A clock of three digit fields, the last two of two digits below 60, reads back in base 60. */
  lemma ThreeFieldClock(a: string, b: string, c: string, h: nat, m: nat, s: nat, total: nat)
    requires |a| > 0 && AllDigits(a) && (a[0] == '0' ==> |a| == 1) && |b| == 2 && AllDigits(b)
    requires |c| == 2 && AllDigits(c)
    requires DigitsValue(a) == h && DigitsValue(b) == m && DigitsValue(c) == s && m < 60 && s < 60
    requires total == (h * 60 + m) * 60 + s
    ensures |Split(a + ":" + b + ":" + c, ':')| == 3
    ensures ParseClock(a + ":" + b + ":" + c) == Some(total)
  {
    NoColonInDigits(a);
    NoColonInDigits(b);
    NoColonInDigits(c);
    SplitThreeFields(a, b, c, ':');
    SexagesimalThree(a, b, c);
    ParseClockAcceptsThree(a + ":" + b + ":" + c, a, b, c);
  }

  /** The hours, minutes and seconds `formatTime` computes make up the input, minutes and
      seconds below 60. */
  lemma ClockFields(sec: nat)
    ensures var h, m, s := sec / 3600, (sec % 3600) / 60, sec % 60;
      m < 60 && s < 60 && sec == (h * 60 + m) * 60 + s && (h > 0 <==> sec >= 3600)
  {
    var h, r := sec / 3600, sec % 3600;
    var m := r / 60;
    assert sec == h * 3600 + r;
    assert r == m * 60 + r % 60;
    assert sec == (h * 60 + m) * 60 + r % 60;
    ModUnique(sec, 60, h * 60 + m, r % 60);
    if h > 0 {
      MulAtLeast(h, 3600);
    }
  }

  /** `formatTime` writes "m:ss" below an hour and "h:mm:ss" from an hour on, with every field
      after the first padded to two digits and below 60, and reading the fields back in base 60
      gives the input. */
  lemma FormatTimeReadsBack(sec: nat)
    ensures |Split(FormatTime(sec), ':')| == if sec < 3600 then 2 else 3
    ensures ParseClock(FormatTime(sec)) == Some(sec)
  {
    if sec >= 3600 {
      HoursClockReadsBack(sec);
    } else {
      MinutesClockReadsBack(sec);
    }
  }

  lemma HoursClockReadsBack(sec: nat)
    requires sec >= 3600
    ensures |Split(FormatTime(sec), ':')| == 3 && ParseClock(FormatTime(sec)) == Some(sec)
  {
    var h, m, s := sec / 3600, (sec % 3600) / 60, sec % 60;
    ClockFields(sec);
    NatToStringDigits(h);
    Pad2Digits(m);
    Pad2Digits(s);
    ThreeFieldClock(NatToString(h), Pad2(m), Pad2(s), h, m, s, sec);
    assert FormatTime(sec) == NatToString(h) + ":" + Pad2(m) + ":" + Pad2(s);
  }

  lemma MinutesClockReadsBack(sec: nat)
    requires sec < 3600
    ensures |Split(FormatTime(sec), ':')| == 2 && ParseClock(FormatTime(sec)) == Some(sec)
  {
    var m, s := (sec % 3600) / 60, sec % 60;
    ClockFields(sec);
    NatToStringDigits(m);
    Pad2Digits(s);
    TwoFieldClock(NatToString(m), Pad2(s), m, s, sec);
    assert FormatTime(sec) == NatToString(m) + ":" + Pad2(s);
  }
}
