/** How the HDF5 output writer names the file it is about to write, and how it
    advances its output counter. */
module PHDF5Naming {
  import opened Decimal

  /** `SignalHandler::OutputSignal`: a regular time-based dump, a dump requested
      now, or the final dump at the end of the run. */
  datatype OutputSignal = None | Now | Final

  /** The file-name extension: restart files and plain output files differ. */
  function Extension(restart: bool): string
  {
    if restart then ".rhdf" else ".phdf"
  }

  /** Whether a dump is labelled with the output counter rather than a word:
      regular dumps always are, and final dumps unless `file_label_final` is set. */
  predicate Numbered(signal: OutputSignal, labelFinal: bool)
  {
    signal == None || (signal == Final && !labelFinal)
  }

  /** The part of the name between the file id and the extension. */
  function Middle(signal: OutputSignal, labelFinal: bool, number: int, width: int): string
  {
    if signal == Now then "now"
    else if signal == Final && labelFinal then "final"
    else Padded(number, width)
  }

  /** The whole file name. */
  function FileName(basename: string, fileId: string, middle: string, restart: bool): string
  {
    basename + "." + fileId + "." + middle + Extension(restart)
  }

  /** The writer's output parameters that naming depends on; `file_number` is
      the one that changes. */
  class PHDF5Output {
    const restart: bool
    const fileBasename: string
    const fileId: string
    const fileNumberWidth: int
    const fileLabelFinal: bool
    var fileNumber: int

    constructor (restart: bool, basename: string, fileId: string, number: int,
                 width: int, labelFinal: bool)
      ensures this.restart == restart && fileBasename == basename && this.fileId == fileId
      ensures fileNumber == number && fileNumberWidth == width && fileLabelFinal == labelFinal
    {
      this.restart := restart;
      fileBasename := basename;
      this.fileId := fileId;
      fileNumber := number;
      fileNumberWidth := width;
      fileLabelFinal := labelFinal;
    }

    /** The name of the next file for `signal`, assembled piece by piece. The name
        carries the counter as it was; only a regular dump then advances it. */
    method GenerateFilename(signal: OutputSignal) returns (filename: string)
      modifies this
      ensures filename == FileName(fileBasename, fileId,
                                   Middle(signal, fileLabelFinal, old(fileNumber), fileNumberWidth),
                                   restart)
      ensures fileNumber == if signal == None then old(fileNumber) + 1 else old(fileNumber)
    {
      filename := fileBasename;
      filename := filename + ".";
      filename := filename + fileId;
      filename := filename + ".";
      if signal == Now {
        filename := filename + "now";
      } else if signal == Final && fileLabelFinal {
        filename := filename + "final";
      } else {
        var fileNumberText := PadLeft(Signed(fileNumber), fileNumberWidth, '0');
        filename := filename + fileNumberText;
      }
      filename := filename + (if restart then ".rhdf" else ".phdf");
      if signal == None {
        fileNumber := fileNumber + 1;
      }
    }
  }

  /** A file name ends in ".rhdf" exactly for restart files, and in ".phdf" otherwise. */
  lemma ExtensionMarksRestart(basename: string, fileId: string, middle: string, restart: bool)
    ensures var name := FileName(basename, fileId, middle, restart);
      |name| >= 5 &&
      (name[|name| - 5..] == ".rhdf" <==> restart) &&
      (name[|name| - 5..] == ".phdf" <==> !restart)
  {
    var name := FileName(basename, fileId, middle, restart);
    assert name[|name| - 5..] == Extension(restart);
  }

  /** Within one output stream (same basename, id and kind), the name determines
      the middle part. */
  lemma FileNameDeterminesMiddle(basename: string, fileId: string, m1: string, m2: string,
                                 restart: bool)
    requires FileName(basename, fileId, m1, restart) == FileName(basename, fileId, m2, restart)
    ensures m1 == m2
  {
    var prefix := basename + "." + fileId + ".";
    var ext := Extension(restart);
    var a := FileName(basename, fileId, m1, restart);
    assert a == prefix + m1 + ext;
    assert a[|prefix|..|a| - |ext|] == m1;
    assert FileName(basename, fileId, m2, restart) == prefix + m2 + ext;
  }

  /** A numbered middle is the counter written in decimal, zero-filled to at least
      the configured width, and a non-negative counter reads back from it. */
  lemma NumberedMiddle(signal: OutputSignal, labelFinal: bool, number: int, width: int)
    requires Numbered(signal, labelFinal)
    ensures var m := Middle(signal, labelFinal, number, width);
      |m| >= width && m[|m| - |Signed(number)|..] == Signed(number) &&
      (number >= 0 ==> AllDigits(m) && Value(m) == number)
  {
    if number >= 0 {
      PaddedValue(number, width);
    }
  }

  /** Numbered dumps of one stream never share a name: different counter values
      give different files. */
  lemma NumberedNamesDistinct(basename: string, fileId: string, restart: bool,
                              signal: OutputSignal, labelFinal: bool, n: int, m: int, width: int)
    requires Numbered(signal, labelFinal) && n != m
    ensures FileName(basename, fileId, Middle(signal, labelFinal, n, width), restart)
         != FileName(basename, fileId, Middle(signal, labelFinal, m, width), restart)
  {
    if FileName(basename, fileId, Middle(signal, labelFinal, n, width), restart)
       == FileName(basename, fileId, Middle(signal, labelFinal, m, width), restart) {
      FileNameDeterminesMiddle(basename, fileId, Middle(signal, labelFinal, n, width),
                               Middle(signal, labelFinal, m, width), restart);
      PaddedInjective(n, m, width);
    }
  }

  /** A numbered dump never overwrites the "now" or the labelled "final" file. */
  lemma NumberedNotWord(basename: string, fileId: string, restart: bool, labelFinal: bool,
                        number: int, width: int, word: OutputSignal)
    requires !Numbered(word, labelFinal)
    ensures FileName(basename, fileId, Padded(number, width), restart)
         != FileName(basename, fileId, Middle(word, labelFinal, number, width), restart)
  {
    var p := Padded(number, width);
    var w := Middle(word, labelFinal, number, width);
    if FileName(basename, fileId, p, restart) == FileName(basename, fileId, w, restart) {
      FileNameDeterminesMiddle(basename, fileId, p, w, restart);
      assert p[|p| - 1] == w[|w| - 1];
      assert IsDigit(p[|p| - 1]) by {
        var t := Signed(number);
        assert p[|p| - 1] == t[|t| - 1];
        if number < 0 {
          assert t[|t| - 1] == t[1..][|t| - 2];
        }
      }
    }
  }
}
