/** Everything that happens in a run of the VisionCB runner, as one sequence of events. */
module RunEvents {
  import opened Words
  import opened Outcomes
  import opened ConsoleText

  /** The lines that the runner sends to the console. */
  datatype Line =
    | FatLoadImage | FatLoadTree | SetBootArgs | BootLinux
    | Credentials | EmptyLine
    | FindRoot | GrepEmmc | UnmountEmmc
    | CheckSum | HeredocBegin | Data(text: string) | HeredocEnd
    | CheckReader | ReaderBegin | ReaderSource(text: string) | ReaderEnd | CompileReader | MarkReader
    | Reboot
    | SelectCard | RescanCard | LoadM4 | CopyM4 | BootAux
    | EchoBegin | RunReader | EchoEnd

  datatype Prompt = LoginPrompt | ShellPrompt | FatLoadDone | ChecksumShown | CompileDone | EndMarker

  /** What the on-target reader reports of the firmware's result. */
  datatype Report = Report(magic: string, version: int, state: int, resultCode: int, failures: int, counter: int)

  /** The reader's output: no result in it, a result, or a document that is not a result at all. */
  datatype Reading = Unreadable | Readable(report: Report) | Malformed

  /** The checks on the report. */
  predicate Accepted(r: Report)
  {
    && r.magic == "0x51424e31" && r.version == 1 && r.state == 2 && r.resultCode == 1 && r.failures == 0
    && r.counter > 0
  }

  /** What the runner asks of the world: an action, a lookup, or something to appear on the console. */
  datatype Request =
    | Power
    | HubPower
    | Lookup
    | Opening
    | Closing
    | Sending
    | Prompting
    | Waiting(prompt: Prompt)
    | Looking

  /** How the world responds: as hoped, possibly with some text; not in time or not at all; or by an
      exception of its own. */
  datatype Answer = Yes(text: string) | No | Crash

  /** The parts of a run that end in an exception or normally. */
  datatype Stage = Preparing | Probing | Linking | Sequencing | Releasing | Judging

  datatype Event =
    | Prepared(outcome: Outcome<()>)
    | Heard(request: Request, number: nat, answer: Answer)
    | RelayCycle
    | HubCycle
    | Deadline(clock: nat, read: nat)
    | OpenLink
    | CloseLink
    | Started
    | Clear
    | Sent(line: Line)
    | Nudge
    | AtUboot
    | Waited(prompt: Prompt, text: string)
    | Looked(text: string)
    | Read(text: string, reading: Reading)
    | Collected(report: Report)
    | Judged(accepted: bool)
    | Raised(stage: Stage, exception: Outcome<()>)

  /** What is put on the target and what is expected of the core: the addresses of the ELF file, the firmware
      image and its checksum, the source of the reader and its checksum. */
  datatype Job = Job(
    stack: string,
    pc: string,
    image: seq<Byte>,
    sha256: string,
    readerSource: seq<string>,
    readerSha: string
  )

  predicate StartsBoot(e: Event) { e == RelayCycle || e == Sent(Reboot) }

  predicate IsKirkstone(text: string) { Contains(text, EXPECTED_OS_MARKER) }

  predicate IsOnSd(text: string) { Contains(text, SD_ROOT_DEVICE) }

  predicate HasNoEmmc(text: string) { !ShowsEmmc(text) }

  predicate IsLoaded(text: string) { Contains(text, "bytes read") }

  predicate IsStarted(x: Job, text: string) { Confirms(text, x.stack, x.pc) }
}
