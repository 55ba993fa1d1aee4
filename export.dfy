/** Output naming and writing of sampled frames (src/export.py): the
    minute/second or frame-count label, the `frame_{index:06d}[_{label}].png`
    file name, the identity case of resizing, and the write itself. */
module Export {
  import opened Wrappers
  import opened Numeric
  import opened Decimal

  /** The `resize` argument: `None`, a number (a uniform scale factor) or a
      `(w, h)` pair. */
  datatype Resize = Original | Scale(factor: real) | Dimensions(width: int, height: int)

  /** A pixel buffer, kept opaque: what the decoder delivered, or what
      `cv2.resize` made of another image. */
  datatype Image = Decoded(pixels: seq<bv8>) | Resized(source: Image, how: Resize)

  /** A file-system path as its list of components; `folder / name` appends one. */
  datatype Path = Path(parts: seq<string>)

  /** `frame_num / fps` with `fps == 0` raises ZeroDivisionError. */
  datatype ExportError = ZeroDivision

  function Join(folder: Path, name: string): Path
  {
    Path(folder.parts + [name])
  }

  /** `resize_frame`: only `None` hands the frame back unchanged; the two other
      forms go to `cv2.resize`, whose result stays symbolic. */
  function ResizeFrame(frame: Image, resize: Resize): (r: Image)
    ensures r == frame <==> resize == Original
  {
    if resize == Original then frame
    else
      assert frame < Resized(frame, resize);
      Resized(frame, resize)
  }

  /** `_frame_label`: in `"seconds"` mode the exact time `frame_num / fps`
      split by the float operators `//` and `%` into whole minutes and
      seconds, rendered `{minutes}m{seconds:02d}s`; in any other mode
      `{frame_num}f`. */
  function FrameLabel(frameNum: int, fps: nat, mode: string): (r: Result<string, ExportError>)
    ensures r.Failure? <==> mode == "seconds" && fps == 0
  {
    if mode == "seconds" then
      if fps == 0 then Failure(ZeroDivision)
      else
        var totalSec := frameNum as real / fps as real;
        var minutes := Trunc(FloorDiv(totalSec, 60.0));
        var seconds := Trunc(Mod(totalSec, 60.0));
        Success(IntToString(minutes) + "m" + FormatPadded(seconds, 2) + "s")
    else
      Success(IntToString(frameNum) + "f")
  }

  /** `frame_{index:06d}_{label}.png` with a label, `frame_{index:06d}.png`
      without one. */
  function FileName(index: int, tag: Option<string>): string
  {
    var stem := "frame_" + FormatPadded(index, 6);
    match tag
    case Some(text) => stem + "_" + text + ".png"
    case None => stem + ".png"
  }

  /** The label `save_frame` puts in the name: there is one exactly when
      `frame_num`, `fps` and `mode` are all given, and computing it may fail. */
  function NameLabel(frameNum: Option<int>, fps: Option<nat>, mode: Option<string>)
    : (r: Result<Option<string>, ExportError>)
    ensures r.Failure? <==> frameNum.Some? && fps.Some? && mode == Some("seconds") && fps.value == 0
    ensures r.Success? ==> (r.value.Some? <==> frameNum.Some? && fps.Some? && mode.Some?)
  {
    if frameNum.Some? && fps.Some? && mode.Some? then
      match FrameLabel(frameNum.value, fps.value, mode.value)
      case Success(text) => Success(Some(text))
      case Failure(e) => Failure(e)
    else
      Success(None)
  }

  /** The file-name choice of `save_frame`. */
  function FrameFileName(index: int, frameNum: Option<int>, fps: Option<nat>, mode: Option<string>)
    : (r: Result<string, ExportError>)
    ensures r.Failure? <==> frameNum.Some? && fps.Some? && mode == Some("seconds") && fps.value == 0
  {
    match NameLabel(frameNum, fps, mode)
    case Success(tag) => Success(FileName(index, tag))
    case Failure(e) => Failure(e)
  }

  /** The integer field that follows `frame_` in an output file name. */
  function IndexField(name: string): string
    requires |name| >= 6
  {
    LeadingInt(name[6..])
  }

  /** The image files `cv2.imwrite` has written, by path. */
  class Disk {
    var files: map<Path, Image>

    /** `cv2.imwrite(path, image)`: creates or replaces one file. */
    method Write(path: Path, image: Image)
      modifies this
      ensures files == old(files)[path := image]
    {
      files := files[path := image];
    }
  }

  /** `save_frame`: resize, choose the name, write the image under `folder`
      and return the path written. */
  method SaveFrame(disk: Disk, frame: Image, folder: Path, index: int, resize: Resize,
                   frameNum: Option<int>, fps: Option<nat>, mode: Option<string>)
    returns (r: Result<Path, ExportError>)
    modifies disk
    ensures var name := FrameFileName(index, frameNum, fps, mode);
            && (r.Success? <==> name.Success?)
            && (r.Success? ==> r.value == Join(folder, name.value)
                               && disk.files == old(disk.files)[r.value := ResizeFrame(frame, resize)])
            && (r.Failure? ==> r.error == name.error && disk.files == old(disk.files))
  {
    var image := ResizeFrame(frame, resize);
    var name := FrameFileName(index, frameNum, fps, mode);
    if name.Failure? {
      return Failure(name.error);
    }
    var path := Join(folder, name.value);
    disk.Write(path, image);
    r := Success(path);
  }

  /** In seconds mode with a positive integer frame rate the label is the
      integer quotient `frame_num / fps` as unpadded minutes, `m`, exactly two
      digits of seconds below 60, and `s`. */
  lemma SecondsLabel(frameNum: int, fps: nat)
    requires fps > 0
    ensures var total := frameNum / fps;
            var seconds := total % 60;
            && seconds < 60
            && FrameLabel(frameNum, fps, "seconds")
               == Success(IntToString(total / 60) + "m" + [DigitChar(seconds / 10), DigitChar(seconds % 10)] + "s")
  {
    MinutesAndSeconds(frameNum, fps);
    TwoDigitField((frameNum / fps) % 60);
  }

  /** In any mode but `"seconds"` the label is the frame number, read back
      from the text before the trailing `f`. */
  lemma FramesLabel(frameNum: int, fps: nat, mode: string)
    requires mode != "seconds"
    ensures FrameLabel(frameNum, fps, mode).Success?
    ensures var text := FrameLabel(frameNum, fps, mode).value;
            && |text| >= 2 && text[|text| - 1] == 'f'
            && IsIntLiteral(text[..|text| - 1]) && ParseInt(text[..|text| - 1]) == frameNum
  {
    var text := FrameLabel(frameNum, fps, mode).value;
    assert text[..|text| - 1] == IntToString(frameNum);
    IntToStringRoundTrip(frameNum);
  }

  lemma SecondsLabelExamples()
    ensures FrameLabel(3600, 30, "seconds") == Success("2m00s")
    ensures FrameLabel(90, 30, "seconds") == Success("0m03s")
    ensures FrameLabel(240, 30, "seconds") == Success("0m08s")
  {
    SecondsLabelExample(3600, 30, 2, 0);
    SecondsLabelExample(90, 30, 0, 3);
    SecondsLabelExample(240, 30, 0, 8);
  }

  /** One seconds-mode label with a one-digit minute count. */
  lemma SecondsLabelExample(frameNum: nat, fps: nat, minutes: nat, seconds: nat)
    requires fps > 0 && minutes < 10 && seconds < 60
    requires frameNum / fps == 60 * minutes + seconds
    ensures FrameLabel(frameNum, fps, "seconds")
            == Success([DigitChar(minutes), 'm', DigitChar(seconds / 10), DigitChar(seconds % 10), 's'])
  {
    SecondsLabel(frameNum, fps);
    assert (frameNum / fps) / 60 == minutes;
    assert (frameNum / fps) % 60 == seconds;
    assert IntToString(minutes) == [DigitChar(minutes)];
    assert [DigitChar(minutes)] + "m" + [DigitChar(seconds / 10), DigitChar(seconds % 10)] + "s"
           == [DigitChar(minutes), 'm', DigitChar(seconds / 10), DigitChar(seconds % 10), 's'];
  }

  lemma FramesLabelExample()
    ensures FrameLabel(1424, 30, "frames") == Success("1424f")
  {
    assert IntToString(1424) == "1424" by {
      assert NatToDigits(1) == "1";
      assert NatToDigits(14) == "14";
      assert NatToDigits(142) == "142";
    }
    assert "frames" != "seconds";
    assert FrameLabel(1424, 30, "frames") == Success(IntToString(1424) + "f");
    assert "1424" + "f" == "1424f";
  }

  /** A file name is `frame_`, then the index field (the index padded to at
      least six characters, which reads back as the index), then `_` and the
      label exactly when there is one, then `.png`. */
  lemma FileNameLayout(index: int, tag: Option<string>)
    ensures var name := FileName(index, tag);
            var field := FormatPadded(index, 6);
            && |field| >= 6 && IsIntLiteral(field) && ParseInt(field) == index
            && |name| >= 6 + |field| + 4
            && name[..6] == "frame_" && IndexField(name) == field
            && name[|name| - 4..] == ".png"
            && (name[6 + |field|] == '_' <==> tag.Some?)
            && (tag.Some? ==> name[6 + |field| + 1..|name| - 4] == tag.value)
            && (tag.None? ==> |name| == 6 + |field| + 4)
  {
    var name := FileName(index, tag);
    var field := FormatPadded(index, 6);
    FormatPaddedLayout(index, 6);
    FormatPaddedRoundTrip(index, 6);
    match tag
    case Some(text) =>
      assert name == "frame_" + field + ("_" + text + ".png");
      NameAfterPrefix(name, field, "_" + text + ".png");
    case None =>
      assert name == "frame_" + field + ".png";
      NameAfterPrefix(name, field, ".png");
  }

  /** Reading a name `frame_{field}{rest}` apart again. */
  lemma NameAfterPrefix(name: string, field: string, rest: string)
    requires IsIntLiteral(field)
    requires |rest| >= 4 && !IsDigit(rest[0])
    requires name == "frame_" + field + rest
    ensures |name| == 6 + |field| + |rest|
    ensures name[..6] == "frame_" && IndexField(name) == field
    ensures name[6 + |field|] == rest[0]
    ensures |rest| >= 5 ==> name[6 + |field| + 1..|name| - 4] == rest[1..|rest| - 4]
    ensures name[|name| - 4..] == rest[|rest| - 4..]
  {
    assert name[6..] == field + rest;
    LeadingIntOfLiteral(field, rest);
  }

  /** Distinct indices give distinct file names, whatever the labels. */
  lemma DistinctIndicesDistinctNames(i: int, j: int, tag1: Option<string>, tag2: Option<string>)
    requires i != j
    ensures FileName(i, tag1) != FileName(j, tag2)
  {
    FileNameLayout(i, tag1);
    FileNameLayout(j, tag2);
  }

  /** The path `save_frame` returns lies directly inside `folder`. */
  lemma SavedPathInFolder(folder: Path, index: int, frameNum: Option<int>, fps: Option<nat>, mode: Option<string>)
    requires FrameFileName(index, frameNum, fps, mode).Success?
    ensures var p := Join(folder, FrameFileName(index, frameNum, fps, mode).value);
            && |p.parts| == |folder.parts| + 1
            && p.parts[..|folder.parts|] == folder.parts
            && '/' !in p.parts[|folder.parts|]
  {
    var tag := NameLabel(frameNum, fps, mode).value;
    if tag.Some? {
      LabelHasNoSeparator(frameNum.value, fps.value, mode.value);
    }
    FileNameHasNoSeparator(index, tag);
  }

  /** Labels are made of digits, `-`, `m`, `s` and `f`: never a path separator. */
  lemma LabelHasNoSeparator(frameNum: int, fps: nat, mode: string)
    requires FrameLabel(frameNum, fps, mode).Success?
    ensures '/' !in FrameLabel(frameNum, fps, mode).value
  {
    if mode == "seconds" {
      var totalSec := frameNum as real / fps as real;
      var minutes := Trunc(FloorDiv(totalSec, 60.0));
      var seconds := Trunc(Mod(totalSec, 60.0));
      assert '/' !in IntToString(minutes) by {
        IntToStringLayout(minutes);
        NumeralHasNoSeparator(IntToString(minutes));
      }
      assert '/' !in FormatPadded(seconds, 2) by {
        FormatPaddedLayout(seconds, 2);
        NumeralHasNoSeparator(FormatPadded(seconds, 2));
      }
      LabelTextWithoutSeparator(IntToString(minutes), FormatPadded(seconds, 2));
    } else {
      assert '/' !in IntToString(frameNum) by {
        IntToStringLayout(frameNum);
        NumeralHasNoSeparator(IntToString(frameNum));
      }
    }
  }

  /** A file name holds a path separator only if its label does. */
  lemma FileNameHasNoSeparator(index: int, tag: Option<string>)
    requires tag.Some? ==> '/' !in tag.value
    ensures '/' !in FileName(index, tag)
  {
    var field := FormatPadded(index, 6);
    assert '/' !in field by {
      FormatPaddedLayout(index, 6);
      NumeralHasNoSeparator(field);
    }
    NameWithoutSeparator(field, tag);
  }

  lemma LabelTextWithoutSeparator(minutes: string, seconds: string)
    requires '/' !in minutes && '/' !in seconds
    ensures '/' !in minutes + "m" + seconds + "s"
  {
  }

  lemma NameWithoutSeparator(field: string, tag: Option<string>)
    requires '/' !in field
    requires tag.Some? ==> '/' !in tag.value
    ensures '/' !in "frame_" + field + (if tag.Some? then "_" + tag.value + ".png" else ".png")
  {
  }

  lemma NumeralHasNoSeparator(s: string)
    requires IsNumeral(s)
    ensures '/' !in s
  {
    forall k | 0 <= k < |s|
      ensures s[k] != '/'
    {
      assert IsDigit(s[k]) || s[k] == '-';
    }
  }

  lemma UnlabelledNameExample()
    ensures FrameFileName(0, None, None, None) == Success("frame_000000.png")
  {
    assert FileName(0, None) == "frame_000000.png" by {
      SixDigitIndex(0);
      assert FormatPadded(0, 6) == "000000";
    }
  }

  /** An index of seven digits is not cut to six; a missing `fps` drops the label. */
  lemma WideIndexNameExample()
    ensures FrameFileName(1234567, Some(5), None, Some("seconds")) == Success("frame_1234567.png")
  {
    assert FileName(1234567, None) == "frame_1234567.png" by {
      assert NatToDigits(1234567) == "1234567" by {
        assert NatToDigits(12) == "12";
        assert NatToDigits(123) == "123";
        assert NatToDigits(1234) == "1234";
        assert NatToDigits(12345) == "12345";
        assert NatToDigits(123456) == "123456";
      }
      assert FormatPadded(1234567, 6) == "1234567";
    }
  }

  lemma SecondsNameExample()
    ensures FrameFileName(4, Some(240), Some(30), Some("seconds")) == Success("frame_000004_0m08s.png")
  {
    assert NameLabel(Some(240), Some(30), Some("seconds")) == Success(Some("0m08s")) by {
      SecondsLabelExample(240, 30, 0, 8);
      assert [DigitChar(0), 'm', DigitChar(0), DigitChar(8), 's'] == "0m08s";
    }
    OneDigitIndexName(4, "0m08s");
    assert "frame_00000" + [DigitChar(4)] + "_" + "0m08s" + ".png" == "frame_000004_0m08s.png";
  }

  lemma FramesNameExample()
    ensures FrameFileName(3, Some(1424), Some(30), Some("frames")) == Success("frame_000003_1424f.png")
  {
    assert NameLabel(Some(1424), Some(30), Some("frames")) == Success(Some("1424f")) by {
      FramesLabelExample();
    }
    OneDigitIndexName(3, "1424f");
    assert "frame_00000" + [DigitChar(3)] + "_" + "1424f" + ".png" == "frame_000003_1424f.png";
  }

  /** The labelled name of a one-digit index. */
  lemma OneDigitIndexName(d: nat, text: string)
    requires d < 10
    ensures FileName(d, Some(text)) == "frame_00000" + [DigitChar(d)] + "_" + text + ".png"
  {
    SixDigitIndex(d);
  }

  /** A one-digit index padded to six characters. */
  lemma SixDigitIndex(d: nat)
    requires d < 10
    ensures FormatPadded(d, 6) == ['0', '0', '0', '0', '0', DigitChar(d)]
  {
    assert NatToDigits(d) == [DigitChar(d)];
    assert Zeros(5) == "00000";
  }
}
