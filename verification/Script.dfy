/** The lines that one complete sequence sends to the console, in order. */
module Script {
  import opened RunEvents
  import Base64

  function DataLines(lines: seq<string>): (sent: seq<Line>)
    ensures |sent| == |lines|
  {
    seq(|lines|, k requires 0 <= k < |lines| => Data(lines[k]))
  }

  function SourceLines(lines: seq<string>): (sent: seq<Line>)
    ensures |sent| == |lines|
  {
    seq(|lines|, k requires 0 <= k < |lines| => ReaderSource(lines[k]))
  }

  /** The image as a here-document, as it must be for the shell to decode it (Base64.ImageArrives). */
  function ImageLines(x: Job): seq<Line>
  {
    [HeredocBegin] + DataLines(Base64.Lines(Base64.Encode(x.image))) + [HeredocEnd]
  }

  function ReaderLines(x: Job): seq<Line>
  {
    [ReaderBegin] + SourceLines(x.readerSource) + [ReaderEnd]
  }

  const RESUME := [FatLoadImage, FatLoadTree, SetBootArgs, BootLinux]
  const LOGIN := [Credentials, EmptyLine]
  const LOAD := [SelectCard, RescanCard, LoadM4]
  const START_CORE := [CopyM4, BootAux]
  const COLLECT := [EchoBegin, RunReader, EchoEnd]

  /** The check of the storage, with or without an attempt to unmount. */
  function StorageLines(unmount: bool): seq<Line>
  {
    [FindRoot, GrepEmmc] + (if unmount then [UnmountEmmc] else []) + [GrepEmmc]
  }

  /** What is known of a file on the target: nothing, that it was there, or that it was sent and checked. */
  datatype Supply = Unknown | Present | Delivered

  function TransferLines(x: Job, there: bool): seq<Line>
  {
    [CheckSum] + if there then [] else ImageLines(x) + [CheckSum]
  }

  function InstallLines(x: Job, there: bool): seq<Line>
  {
    [CheckReader] + if there then [] else ReaderLines(x) + [CompileReader, MarkReader]
  }

  /** From the first prompt to the reboot. */
  function FirstHalf(x: Job, imageThere: bool, readerThere: bool, unmount: bool): seq<Line>
  {
    RESUME + LOGIN + StorageLines(unmount) + TransferLines(x, imageThere) + InstallLines(x, readerThere) + [Reboot]
  }

  /** From the second prompt to the result. */
  function SecondHalf(unmount: bool): seq<Line>
  {
    LOAD + START_CORE + RESUME + LOGIN + StorageLines(unmount) + COLLECT
  }

  /** A complete sequence, line by line. */
  function WholeScript(x: Job, imageThere: bool, readerThere: bool, unmountFirst: bool, unmountThen: bool): seq<Line>
  {
    ([FatLoadImage, FatLoadTree, SetBootArgs, BootLinux] + [Credentials, EmptyLine]
     + ([FindRoot, GrepEmmc] + (if unmountFirst then [UnmountEmmc] else []) + [GrepEmmc])
     + ([CheckSum]
        + if imageThere then []
          else [HeredocBegin] + DataLines(Base64.Lines(Base64.Encode(x.image))) + [HeredocEnd] + [CheckSum])
     + ([CheckReader]
        + if readerThere then []
          else [ReaderBegin] + SourceLines(x.readerSource) + [ReaderEnd] + [CompileReader, MarkReader])
     + [Reboot])
    + ([SelectCard, RescanCard, LoadM4] + [CopyM4, BootAux]
       + [FatLoadImage, FatLoadTree, SetBootArgs, BootLinux] + [Credentials, EmptyLine]
       + ([FindRoot, GrepEmmc] + (if unmountThen then [UnmountEmmc] else []) + [GrepEmmc])
       + [EchoBegin, RunReader, EchoEnd])
  }

  lemma HalvesMakeWhole(x: Job, imageThere: bool, readerThere: bool, unmountFirst: bool, unmountThen: bool)
    ensures FirstHalf(x, imageThere, readerThere, unmountFirst) + SecondHalf(unmountThen)
         == WholeScript(x, imageThere, readerThere, unmountFirst, unmountThen)
  {
  }

  predicate EndsIn(lines: seq<Line>, last: seq<Line>)
  {
    |last| <= |lines| && lines[|lines| - |last|..] == last
  }

  lemma Joins(a: seq<Line>, b: seq<Line>, c: seq<Line>)
    ensures a + b + c == a + (b + c)
  {
  }

  lemma Enclosed(a: seq<Line>, first: Line, b: seq<Line>, last: Line)
    ensures a + [first] + b + [last] == a + ([first] + b + [last])
  {
  }

  lemma OneByOne(a: seq<Line>, first: Line, next: Line)
    ensures a + [first] + [next] == a + [first, next]
  {
  }

  lemma ThreeByThree(a: seq<Line>, first: Line, next: Line, last: Line)
    ensures a + [first] + [next] + [last] == a + [first, next, last]
  {
  }

  lemma ThreeMore(a: seq<Line>, b: seq<Line>, c: seq<Line>, d: seq<Line>, e: seq<Line>)
    ensures a + b + c + d + e == a + (b + c + d + e)
  {
    Joins(a, b, c);
    Joins(a, b + c, d);
    Joins(a, b + c + d, e);
  }

  lemma DeliveredLast(before: seq<Line>, file: seq<Line>, last: Line)
    ensures before + file + [last] == before + (file + [last]) && EndsIn(before + file + [last], file + [last])
  {
    Joins(before, file, [last]);
  }

  /** The halves of the script as the parts of a sequence say them. */
  lemma FirstIsHalf(x: Job, imageThere: bool, readerThere: bool, unmount: bool)
    ensures [] + (RESUME + LOGIN + StorageLines(unmount) + TransferLines(x, imageThere) + InstallLines(x, readerThere))
            + [Reboot]
         == FirstHalf(x, imageThere, readerThere, unmount)
  {
    var first := RESUME + LOGIN + StorageLines(unmount) + TransferLines(x, imageThere) + InstallLines(x, readerThere);
    assert [] + first == first;
  }

  lemma SecondIsHalf(first: seq<Line>, unmount: bool)
    ensures first + (LOAD + START_CORE) + (RESUME + LOGIN) + StorageLines(unmount) + COLLECT
         == first + SecondHalf(unmount)
  {
    ThreeMore(first, LOAD + START_CORE, RESUME + LOGIN, StorageLines(unmount), COLLECT);
    Joins(LOAD + START_CORE, RESUME, LOGIN);
  }
}
