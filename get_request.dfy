/** What `handleGET` (main.c:356-375) does with a request buffer. Nothing
    happens until the C string holds the header terminator "\r\n\r\n"
    (section 2.1 of RFC 9112); its first byte is then overwritten with NUL.
    A request whose first 14 bytes are "GET /favicon.i" gets an empty 200.
    Any other request starting "GET /" takes its command from byte 14 on
    (`request + 6 + strlen("command=")`, with nothing checked in between) up
    to the first space, which is overwritten with NUL; no space means 400.
    Every other request gets 400. */
module GetRequests {
  import opened CStrings
  import opened Decoding
  import opened Outcomes

  const Terminator := "\r\n\r\n"
  /** The 14 bytes `strncmp("GET /favicon.ico", request, 14)` compares. */
  const FaviconPrefix := "GET /favicon.i"
  const GetPrefix := "GET /"
  /** `6 + strlen("command=")`: where the command is taken from. */
  const CommandStart := 14

  /** The effect of `handleGET` on a request buffer; `spawns` is whether
      `popen` succeeds. */
  function GetEffect(buf: seq<char>, spawns: bool): (h: Handled)
    requires |buf| > CommandStart
    ensures |h.after| == |buf|
  {
    var terminator := Find(StrAt(buf, 0), Terminator);
    if terminator.None? then Handled(Wait, buf)
    else
      var q := terminator.value;
      var b := buf[q := NUL];
      if b[..14] == FaviconPrefix then Handled(Fake200, b)
      else if b[..5] == GetPrefix then
        var endPath := Find(StrAt(b, CommandStart), " ");
        if endPath.None? then Handled(BadRequest, b)
        else
          var e := CommandStart + endPath.value;
          Handled(ServeOutcome(b[CommandStart..e], spawns), b[e := NUL])
      else Handled(BadRequest, b)
  }

  /** The client keeps waiting, with its buffer untouched, exactly as long as
      the request holds no header terminator. */
  lemma GetWaitsIff(buf: seq<char>, spawns: bool)
    requires |buf| > CommandStart
    ensures GetEffect(buf, spawns).outcome == Wait <==> Find(StrAt(buf, 0), Terminator) == None
    ensures GetEffect(buf, spawns).outcome == Wait ==> GetEffect(buf, spawns).after == buf
  {
    var terminator := Find(StrAt(buf, 0), Terminator);
    if terminator.Some? {
      var b := buf[terminator.value := NUL];
      var endPath := Find(StrAt(b, CommandStart), " ");
      if endPath.Some? {
        ServeIsTerminalOrFault(b[CommandStart..CommandStart + endPath.value], spawns);
      }
    }
  }

  /** Once the header is complete, a request that does not start "GET /"
      is answered 400, whatever its method. */
  lemma NonGetAnswered400(buf: seq<char>, spawns: bool)
    requires |buf| > CommandStart
    requires Find(StrAt(buf, 0), Terminator).Some?
    requires buf[..5] != GetPrefix
    ensures GetEffect(buf, spawns).outcome == BadRequest
  {
    var q := Find(StrAt(buf, 0), Terminator).value;
    var b := buf[q := NUL];
    if q < 5 {
      assert b[..5][q] == NUL;
    } else {
      assert b[..5] == buf[..5];
    }
    assert b[..14] != FaviconPrefix by {
      assert b[..14][..5] == b[..5];
    }
  }

  /** A complete request whose first 14 bytes are "GET /favicon.i" gets an
      empty 200, whatever follows them. */
  lemma FaviconAnswered200(buf: seq<char>, spawns: bool)
    requires |buf| > CommandStart
    requires buf[..14] == FaviconPrefix
    requires Find(StrAt(buf, 0), Terminator).Some?
    ensures GetEffect(buf, spawns).outcome == Fake200
  {
    var s := StrAt(buf, 0);
    var q := Find(s, Terminator).value;
    assert s[q] == '\r' by { assert s[q..q + 4][0] == s[q]; }
    assert buf[q := NUL][..14] == buf[..14];
  }

  /** In `line + rest`, where `line` holds no '\r', the first terminator lies in `rest`. */
  lemma TerminatorAfterLine(line: seq<char>, rest: seq<char>)
    requires '\r' !in line
    requires Find(rest, Terminator).Some?
    ensures Find(line + rest, Terminator).Some?
    ensures Find(line + rest, Terminator).value >= |line|
  {
    var s := line + rest;
    var r := Find(rest, Terminator).value;
    assert Occurs(s, Terminator, |line| + r) by {
      assert s[|line| + r..|line| + r + 4] == rest[r..r + 4];
    }
    FindFirst(s, Terminator);
    var q := Find(s, Terminator).value;
    assert s[q] == '\r' by { assert s[q..q + 4][0] == s[q]; }
  }

  /** The first space of `cmd + " " + tail` is the one after `cmd`. */
  lemma SpaceAfterCommand(cmd: seq<char>, tail: seq<char>)
    requires ' ' !in cmd
    ensures Find(cmd + " " + tail, " ") == Some(|cmd|)
  {
    var path := cmd + " " + tail;
    assert Occurs(path, " ", |cmd|) by {
      assert path[|cmd|..|cmd| + 1] == " ";
    }
    forall j | 0 <= j < |cmd| ensures !Occurs(path, " ", j) {
      assert path[j..j + 1][0] == cmd[j];
    }
    FindIs(path, " ", |cmd|);
  }

  /** Cutting the header at q, past the request line "GET /" + skip + cmd
      + " ", leaves the first 14 bytes in place and the C string at byte 14
      starting with cmd and the space. */
  lemma {:induction false} RequestLineCut(buf: seq<char>, line: seq<char>, skip: seq<char>, cmd: seq<char>, q: nat)
    requires line == GetPrefix + skip + cmd + " " && |skip| == 9
    requires |line| <= q < |StrAt(buf, 0)| && StrAt(buf, 0)[..|line|] == line
    ensures buf[q := NUL][..14] == GetPrefix + skip && buf[q := NUL][..5] == GetPrefix
    ensures StrAt(buf[q := NUL], CommandStart) == cmd + " " + StrAt(buf, 0)[|line|..q]
  {
    var s := StrAt(buf, 0);
    StrAtNoNul(buf, 0);
    var b := buf[q := NUL];
    assert b[..14] == s[..14] == line[..14];
    assert b[..5] == s[..5] == line[..5];
    StrAtIs(b, CommandStart, q);
    assert b[CommandStart..q] == s[CommandStart..q] by {
      assert forall j :: CommandStart <= j < q ==> b[j] == buf[j] == s[j];
    }
    assert s[CommandStart..q] == s[..|line|][CommandStart..] + s[|line|..q];
    assert line[CommandStart..] == cmd + " ";
  }

  /** A complete request starting "GET /", other than the favicon, in which
      no space follows byte 14 once the header is cut at its terminator is
      answered 400. */
  lemma {:induction false} NoSpaceAnswered400(buf: seq<char>, spawns: bool)
    requires |buf| > CommandStart
    requires Find(StrAt(buf, 0), Terminator).Some?
    requires buf[..5] == GetPrefix && buf[..14] != FaviconPrefix
    requires Find(StrAt(buf[Find(StrAt(buf, 0), Terminator).value := NUL], CommandStart), " ") == None
    ensures GetEffect(buf, spawns).outcome == BadRequest
  {
    var s := StrAt(buf, 0);
    var q := Find(s, Terminator).value;
    assert buf[q] == s[q] == '\r' by { assert s[q..q + 4][0] == s[q]; }
    assert forall j :: 0 <= j < 5 ==> buf[j] == buf[..5][j] != '\r';
    var b := buf[q := NUL];
    assert b[..5] == buf[..5];
    assert b[..14] != FaviconPrefix by {
      if q < 14 { assert b[..14][q] == NUL; } else { assert b[..14] == buf[..14]; }
    }
  }

  /** A complete request "GET /" + skip + cmd + " " + rest, with any nine
      bytes in skip, runs cmd: a request "GET /?command=ls HTTP/1.1"
      runs "ls", and so does "GET /xxxxxxxxxls HTTP/1.1", since the nine
      bytes are skipped without being compared with "?command=". */
  lemma GetRunsCommandAfterFixedSkip(buf: seq<char>, skip: seq<char>, cmd: seq<char>, rest: seq<char>, spawns: bool)
    requires |buf| > CommandStart
    requires StrAt(buf, 0) == GetPrefix + skip + cmd + " " + rest
    requires |skip| == 9 && GetPrefix + skip != FaviconPrefix
    requires '\r' !in skip && '\r' !in cmd && ' ' !in cmd
    requires Find(rest, Terminator).Some?
    ensures GetEffect(buf, spawns).outcome == ServeOutcome(cmd, spawns)
  {
    var s := StrAt(buf, 0);
    var line := GetPrefix + skip + cmd + " ";
    assert s == line + rest;
    assert '\r' !in line by {
      assert forall i :: 0 <= i < |line| ==> line[i] in GetPrefix || line[i] in skip || line[i] in cmd || line[i] == ' ';
    }
    TerminatorAfterLine(line, rest);
    var q := Find(s, Terminator).value;
    assert s[..|line|] == line;
    RequestLineCut(buf, line, skip, cmd, q);
    SpaceAfterCommand(cmd, s[|line|..q]);
    var b := buf[q := NUL];
    assert b[CommandStart..CommandStart + |cmd|] == cmd by {
      assert StrAt(b, CommandStart)[..|cmd|] == cmd;
    }
  }

  /** The header of "GET /\r\n\r\nabcdels x" ends right after "GET /". */
  lemma ShortGetTerminator(s: seq<char>)
    requires s == "GET /\r\n\r\nabcdels x"
    ensures Find(s, Terminator) == Some(5)
  {
    assert Occurs(s, Terminator, 5);
    forall j | 0 <= j < 5 ensures !Occurs(s, Terminator, j) {
      assert s[j..j + 4][0] == s[j];
    }
    FindIs(s, Terminator, 5);
  }

  /** With the terminator cut, byte 14 of "GET /\r\n\r\nabcdels x" starts "ls x". */
  lemma ShortGetPath(buf: seq<char>)
    requires |buf| > CommandStart
    requires StrAt(buf, 0) == "GET /\r\n\r\nabcdels x"
    ensures StrAt(buf[5 := NUL], CommandStart) == "ls x"
    ensures buf[5 := NUL][..14] != FaviconPrefix && buf[5 := NUL][..5] == GetPrefix
  {
    var s := StrAt(buf, 0);
    var b := buf[5 := NUL];
    assert b[..14][5] == NUL;
    assert b[..5] == s[..5];
    StrAtIs(b, CommandStart, 18);
    assert b[14..18] == s[14..18];
  }

  /** The 14-byte skip ignores where the request line ends: in the complete
      request "GET /\r\n\r\nabcdels x" it lands past the terminator, in the
      bytes after the header, and runs "ls". */
  lemma ShortGetRunsBytesAfterHeader(buf: seq<char>)
    requires |buf| > CommandStart
    requires StrAt(buf, 0) == "GET /\r\n\r\nabcdels x"
    ensures GetEffect(buf, true).outcome == RunCommand("ls")
  {
    ShortGetTerminator(StrAt(buf, 0));
    ShortGetPath(buf);
    var b := buf[5 := NUL];
    SpaceAfterCommand("ls", "x");
    assert "ls" + " " + "x" == "ls x";
    assert b[14..16] == "ls";
    assert Decoded("ls") == "ls";
  }
}
