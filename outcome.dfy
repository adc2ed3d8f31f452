/** What one handled request leads to, and `serve_command` (main.c:307-332).
    The bytes `send_400`, `fake200` and `write_response` put on the socket,
    the shell run by `popen` and the file `writeToFile` creates are left to
    the environment; the model records which of them happens. */
module Outcomes {
  import opened CStrings
  import opened Decoding

  /** An access the C code makes outside the memory it owns: undefined
      behaviour, at which the model stops. */
  datatype FaultKind =
    | DecodeOverrun          // decodeHTML writes past the 200-byte command buffer
    | UnterminatedCommand    // the 200-byte command buffer holds no NUL for popen
    | FileNameOverrun        // the filename copy writes past fileName[50]
    | UnterminatedFileName   // fileName[50] holds no NUL for "%s"
    | NullDereference        // a strstr result of NULL is read through
    | ReadPastBuffer         // a scan reads past the end of the request buffer

  datatype Outcome =
    | Wait                              // nothing is sent; the client stays registered
    | Disconnected                      // recv returned less than 1: dropped silently
    | BadRequest                        // send_400, then the client is dropped
    | Fake200                           // fake200, then the client is dropped
    | RunCommand(command: string)       // popen(command) and write_response, then dropped
    | SpawnedThenBadRequest(command: string)  // popen(command) ran, then send_400
    | Upload(fileName: string, data: string)  // writeToFile, then fake200
    | Fault(fault: FaultKind)               // undefined behaviour: the model stops

  /** Outcomes after which the client's record has been dropped. */
  predicate Terminal(o: Outcome)
  {
    !(o.Wait? || o.Fault?)
  }

  /** A handler's outcome together with the request buffer it leaves behind
      (the handlers write NULs into the buffer in place). */
  datatype Handled = Handled(outcome: Outcome, after: seq<char>)

  /** MAX_CMD_BUF: the size of serve_command's decode buffer. */
  const MaxCmdBuf := 200

  /** What `serve_command(client, cmd)` does. The command is decoded into a
      zeroed 200-byte buffer and handed to `popen` (whose success is
      `spawns`) BEFORE the length guard `strlen(cmd) > 100` is tested. */
  function ServeOutcome(cmd: seq<char>, spawns: bool): (o: Outcome)
    ensures o.Fault? || o.BadRequest? || o.RunCommand? || o.SpawnedThenBadRequest?
    ensures o.RunCommand? || o.SpawnedThenBadRequest? ==> spawns && o.command == Decoded(cmd)
    ensures o.BadRequest? ==> !spawns
  {
    var command := Decoded(cmd);
    if |command| > MaxCmdBuf then Fault(DecodeOverrun)
    else if |command| == MaxCmdBuf then Fault(UnterminatedCommand)
    else if !spawns then BadRequest
    else if |cmd| > MaxCmdBuf / 2 then SpawnedThenBadRequest(command)
    else RunCommand(command)
  }

  /** `serve_command`: decode into a zeroed buffer, run it, then test the length. */
  method ServeCommand(cmd: seq<char>, spawns: bool) returns (o: Outcome)
    requires NUL !in cmd
    ensures o == ServeOutcome(cmd, spawns)
  {
    var p := new char[MaxCmdBuf](_ => NUL);
    var overrun := DecodeHTML(cmd, p);
    if overrun {
      return Fault(DecodeOverrun);
    }
    DecodedHasNoNul(cmd);
    StrAtIs(p[..], 0, |Decoded(cmd)|);
    var n := NulFrom(p[..], 0);
    if n == p.Length {
      return Fault(UnterminatedCommand);
    }
    var command := p[..n];
    if !spawns {
      return BadRequest;
    }
    if |cmd| > MaxCmdBuf / 2 {
      return SpawnedThenBadRequest(command);
    }
    return RunCommand(command);
  }

  /** The command runs, as decoded, exactly when it spawns and its undecoded
      text is at most 100 characters long. */
  lemma ServeRunsIff(cmd: seq<char>, spawns: bool)
    ensures ServeOutcome(cmd, spawns) == RunCommand(Decoded(cmd)) <==> spawns && |cmd| <= MaxCmdBuf / 2
    ensures ServeOutcome(cmd, spawns).RunCommand? ==> ServeOutcome(cmd, spawns).command == Decoded(cmd)
  {
  }

  /** A command of 101 characters or more whose decoding fits still reaches
      popen: the length guard only answers 400 after the subprocess started. */
  lemma LengthGuardAfterSpawn(cmd: seq<char>)
    requires |cmd| > MaxCmdBuf / 2 && |Decoded(cmd)| < MaxCmdBuf
    ensures ServeOutcome(cmd, true) == SpawnedThenBadRequest(Decoded(cmd))
  {
  }

  /** A command with no '%' and 200 or more characters decodes into 200 or more
      characters, so decodeHTML fills or overruns the buffer before the guard. */
  lemma LongCommandFaults(cmd: seq<char>, spawns: bool)
    requires |cmd| >= MaxCmdBuf && '%' !in cmd
    ensures ServeOutcome(cmd, spawns) == Fault(if |cmd| == MaxCmdBuf then UnterminatedCommand else DecodeOverrun)
  {
    DecodedKeepsLengthIff(cmd);
  }

  /** serve_command never leaves the client waiting. */
  lemma ServeIsTerminalOrFault(cmd: seq<char>, spawns: bool)
    ensures ServeOutcome(cmd, spawns) != Wait
    ensures ServeOutcome(cmd, spawns).Fault? <==> |Decoded(cmd)| >= MaxCmdBuf
  {
  }
}
