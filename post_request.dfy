/** What `handlePOST` (main.c:390-429) does with a request buffer. Nothing
    happens until the C string holds "------WebKitFormBoundary". The
    filename is copied from 10 bytes past "filename=" (the `filename="`
    parameter of section 4.2 of RFC 7578) into `fileName[50]` up to the
    next '"' or NUL, with no bound. The data starts at the first '\n' at or
    after the next "Content-Type:" and is cut with a NUL at the last '\n' at
    or before index `strlen(head) - 2` of it. The upload is answered with an
    empty 200 whatever the write does. */
module PostRequests {
  import opened CStrings
  import opened Outcomes

  const Boundary := "------WebKitFormBoundary"
  const FileNameKey := "filename="
  /** `strlen("filename=\"")`: how far the copy starts past the key. */
  const FileNameSkip := 10
  /** The size of the `fileName` buffer. */
  const FileNameSize := 50
  const ContentTypeKey := "Content-Type:"

  /** The request buffer always ends with a NUL slot. */
  predicate Terminated(buf: seq<char>)
  {
    |buf| > 0 && buf[|buf| - 1] == NUL
  }

  /** Where the filename copy stops: the first NUL or '"' at or after i. */
  function NameEnd(s: seq<char>, i: nat): (k: nat)
    requires i <= |s|
    ensures i <= k <= |s|
    ensures k < |s| ==> s[k] == NUL || s[k] == '"'
    decreases |s| - i
  {
    if i == |s| || s[i] == NUL || s[i] == '"' then i else NameEnd(s, i + 1)
  }

  /** The copy passes no NUL and no '"' before it stops. */
  lemma {:induction false} NameEndSkips(s: seq<char>, i: nat)
    requires i <= |s|
    ensures forall j :: i <= j < NameEnd(s, i) ==> s[j] != NUL && s[j] != '"'
    decreases |s| - i
  {
    if i < |s| && s[i] != NUL && s[i] != '"' {
      NameEndSkips(s, i + 1);
    }
  }

  /** The first NUL or '"' from i on is where the copy stops. */
  lemma {:induction false} NameEndIs(s: seq<char>, i: nat, k: nat)
    requires i <= k <= |s|
    requires forall j :: i <= j < k ==> s[j] != NUL && s[j] != '"'
    requires k < |s| ==> s[k] == NUL || s[k] == '"'
    ensures NameEnd(s, i) == k
    decreases k - i
  {
    if i < k {
      NameEndIs(s, i + 1, k);
    }
  }

  /** Where `while (*p != '\n') p++` stops: the first '\n' at or after i,
      NULs included; None when the scan would run off the buffer. */
  function NewlineFrom(s: seq<char>, i: nat): (r: Option<nat>)
    requires i <= |s|
    ensures r.Some? ==> i <= r.value < |s| && s[r.value] == '\n'
    decreases |s| - i
  {
    if i == |s| then None
    else if s[i] == '\n' then Some(i)
    else NewlineFrom(s, i + 1)
  }

  /** The scan passes no '\n' before it stops, and runs off the buffer only
      when none is left. */
  lemma {:induction false} NewlineFromSkips(s: seq<char>, i: nat)
    requires i <= |s|
    ensures NewlineFrom(s, i).Some? ==> forall j :: i <= j < NewlineFrom(s, i).value ==> s[j] != '\n'
    ensures NewlineFrom(s, i).None? ==> forall j :: i <= j < |s| ==> s[j] != '\n'
    decreases |s| - i
  {
    if i < |s| && s[i] != '\n' {
      NewlineFromSkips(s, i + 1);
    }
  }

  /** The first '\n' from i on is where the scan stops. */
  lemma {:induction false} NewlineFromIs(s: seq<char>, i: nat, k: nat)
    requires i <= k < |s| && s[k] == '\n'
    requires forall j :: i <= j < k ==> s[j] != '\n'
    ensures NewlineFrom(s, i) == Some(k)
    decreases k - i
  {
    if i < k {
      NewlineFromIs(s, i + 1, k);
    }
  }

  /** Where the backward scan for `endReq` stops: the last '\n' in [lo, hi],
      or lo - 1 when there is none. */
  function LastNewline(s: seq<char>, lo: nat, hi: int): (k: int)
    requires lo - 1 <= hi < |s|
    ensures lo - 1 <= k <= hi
    ensures k >= lo ==> s[k] == '\n'
    decreases hi - lo + 1
  {
    if hi < lo || s[hi] == '\n' then hi else LastNewline(s, lo, hi - 1)
  }

  /** The backward scan passes no '\n' before it stops. */
  lemma {:induction false} LastNewlineSkips(s: seq<char>, lo: nat, hi: int)
    requires lo - 1 <= hi < |s|
    ensures forall j :: LastNewline(s, lo, hi) < j <= hi ==> s[j] != '\n'
    decreases hi - lo + 1
  {
    if lo <= hi && s[hi] != '\n' {
      LastNewlineSkips(s, lo, hi - 1);
    }
  }

  /** The last '\n' in [lo, hi] is where the backward scan stops. */
  lemma {:induction false} LastNewlineIs(s: seq<char>, lo: nat, hi: int, k: int)
    requires lo <= k <= hi < |s| && s[k] == '\n'
    requires forall j :: k < j <= hi ==> s[j] != '\n'
    ensures LastNewline(s, lo, hi) == k
    decreases hi - k
  {
    if k < hi {
      LastNewlineIs(s, lo, hi - 1, k);
    }
  }

  /** Where `handlePOST` stands once it has looked for its markers: stopped
      with an outcome, or ready to write the data at `head` under `fileName`. */
  datatype Located = Stopped(outcome: Outcome) | DataAt(fileName: string, head: nat)

  /** Find the boundary, then "filename=", and start the filename copy 10
      bytes past the key. */
  function Locate(buf: seq<char>): (l: Located)
    requires Terminated(buf)
    ensures l.DataAt? ==> l.head < |buf| && buf[l.head] == '\n'
  {
    var boundary := Find(StrAt(buf, 0), Boundary);
    if boundary.None? then Stopped(Wait)
    else
      var b := boundary.value;
      var key := Find(StrAt(buf, b), FileNameKey);
      if key.None? then Stopped(Fault(NullDereference))
      else
        var start := b + key.value + FileNameSkip;
        if start >= |buf| then Stopped(Fault(ReadPastBuffer))
        else LocateData(buf, start)
  }

  /** From the filename copy at `start` on: the name must fit `fileName[50]`
      with its NUL; the data starts at the first '\n' at or after the next
      "Content-Type:". */
  function LocateData(buf: seq<char>, start: nat): (l: Located)
    requires Terminated(buf) && start < |buf|
    ensures l.DataAt? ==> l.head < |buf| && buf[l.head] == '\n'
  {
    var end := NameEnd(buf, start);
    if end - start > FileNameSize then Stopped(Fault(FileNameOverrun))
    else if end - start == FileNameSize then Stopped(Fault(UnterminatedFileName))
    else
      var contentType := Find(StrAt(buf, end), ContentTypeKey);
      if contentType.None? then Stopped(Fault(NullDereference))
      else
        var newline := NewlineFrom(buf, end + contentType.value);
        if newline.None? then Stopped(Fault(ReadPastBuffer))
        else DataAt(buf[start..end], newline.value)
  }

  /** The request buffer after the data at `head` is cut with a NUL at the
      last '\n' at or before `head + strlen(head) - 2`. */
  function Cut(buf: seq<char>, head: nat): (after: seq<char>)
    requires head < |buf| && buf[head] == '\n'
    ensures |after| == |buf|
  {
    var endReq := LastNewline(buf, head, head + |StrAt(buf, head)| - 2);
    if endReq >= head then buf[endReq := NUL] else buf
  }

  /** The data at `head`, cut, is written under `fileName`. */
  function UploadEffect(buf: seq<char>, fileName: seq<char>, head: nat): (h: Handled)
    requires head < |buf| && buf[head] == '\n'
    ensures |h.after| == |buf|
    ensures h.outcome.Upload? && h.outcome.fileName == fileName
  {
    var after := Cut(buf, head);
    Handled(Upload(fileName, StrAt(after, head)), after)
  }

  /** The effect of `handlePOST` on a request buffer. */
  function PostEffect(buf: seq<char>): (h: Handled)
    requires Terminated(buf)
    ensures |h.after| == |buf|
  {
    match Locate(buf)
    case Stopped(o) => Handled(o, buf)
    case DataAt(fileName, head) => UploadEffect(buf, fileName, head)
  }

  /** Once the data is located, the handler's effect is the upload of it. */
  lemma {:induction false} PostUploads(buf: seq<char>, start: nat, fileName: seq<char>, head: nat, data: seq<char>)
    requires Terminated(buf) && start < |buf|
    requires Locate(buf) == LocateData(buf, start)
    requires LocateData(buf, start) == DataAt(fileName, head)
    requires head < |buf| && buf[head] == '\n' && StrAt(Cut(buf, head), head) == data
    ensures PostEffect(buf).outcome == Upload(fileName, data)
  {
  }

  /** The client keeps waiting, with its buffer untouched, exactly as long as
      the request holds no boundary marker; once it does, the handler never
      answers 400 and never waits again. */
  lemma PostWaitsIff(buf: seq<char>)
    requires Terminated(buf)
    ensures PostEffect(buf).outcome == Wait <==> Find(StrAt(buf, 0), Boundary) == None
    ensures PostEffect(buf).outcome == Wait ==> PostEffect(buf).after == buf
    ensures PostEffect(buf).outcome.Wait? || PostEffect(buf).outcome.Upload? || PostEffect(buf).outcome.Fault?
  {
  }

  /** A request that holds the boundary marker but no "filename=" after its
      first occurrence is never answered: `strstr` returns NULL and the
      handler dereferences it. */
  lemma {:induction false} MissingFileNameFaults(buf: seq<char>)
    requires Terminated(buf)
    requires Find(StrAt(buf, 0), Boundary).Some?
    requires Find(StrAt(buf, Find(StrAt(buf, 0), Boundary).value), FileNameKey).None?
    ensures PostEffect(buf).outcome == Fault(NullDereference)
  {
  }

  /** In particular, a request with the boundary marker and no "filename="
      anywhere faults. */
  lemma {:induction false} NoFileNameFaults(buf: seq<char>)
    requires Terminated(buf)
    requires Find(StrAt(buf, 0), Boundary).Some?
    requires Find(StrAt(buf, 0), FileNameKey).None?
    ensures PostEffect(buf).outcome == Fault(NullDereference)
  {
    var s := StrAt(buf, 0);
    var b := Find(s, Boundary).value;
    StrAtSuffix(buf, b);
    FindFirst(s, FileNameKey);
    var key := Find(StrAt(buf, b), FileNameKey);
    if key.Some? {
      var k := key.value;
      assert s[b + k..b + k + |FileNameKey|] == s[b..][k..k + |FileNameKey|];
      assert Occurs(s, FileNameKey, b + k);
    }
    MissingFileNameFaults(buf);
  }

  /** A filename of more than 50 bytes, with no '"' or NUL in it, makes the
      copy write past `fileName[50]`: nothing bounds the copy loop. */
  lemma LongFileNameOverruns(buf: seq<char>, start: nat, name: seq<char>)
    requires Terminated(buf) && start + |name| < |buf| && buf[start..start + |name|] == name
    requires |name| > FileNameSize && NUL !in name && '"' !in name
    ensures LocateData(buf, start) == Stopped(Fault(FileNameOverrun))
  {
  }

  /** The boundary found is the first one when none starts before it. */
  lemma {:induction false} BoundaryAt(buf: seq<char>, pre: seq<char>, rest: seq<char>)
    requires StrAt(buf, 0) == pre + Boundary + rest && NoneBefore(pre + Boundary, Boundary, |pre|)
    ensures Find(StrAt(buf, 0), Boundary) == Some(|pre|)
    ensures StrAt(buf, |pre|) == Boundary + rest
  {
    var s := StrAt(buf, 0);
    FindAfterFront(pre, Boundary, rest);
    StrAtSuffix(buf, |pre|);
    assert s[|pre|..] == Boundary + rest;
  }

  /** "filename=" found after the boundary is the first one when none
      starts between them. */
  lemma {:induction false} FileNameKeyAt(buf: seq<char>, b: nat, x: seq<char>, rest: seq<char>)
    requires b <= |buf| && StrAt(buf, b) == Boundary + x + FileNameKey + rest
    requires NoneBefore(Boundary + x + FileNameKey, FileNameKey, |Boundary| + |x|)
    ensures Find(StrAt(buf, b), FileNameKey) == Some(|Boundary| + |x|)
  {
    FindAfterFront(Boundary + x, FileNameKey, rest);
  }

  /** Where the filename copy starts in a request that carries the boundary
      and then `filename="`. */
  lemma {:induction false} FileNameStart(buf: seq<char>, pre: seq<char>, x: seq<char>, more: seq<char>,
                                         b: nat, off: nat, start: nat)
    requires StrAt(buf, 0) == pre + Boundary + x + FileNameKey + "\"" + more
    requires NoneBefore(pre + Boundary, Boundary, |pre|)
    requires NoneBefore(Boundary + x + FileNameKey, FileNameKey, |Boundary| + |x|)
    requires b == |pre| && off == |Boundary| + |x| && start == b + off + FileNameSkip
    ensures Find(StrAt(buf, 0), Boundary) == Some(b)
    ensures b <= |buf| && Find(StrAt(buf, b), FileNameKey) == Some(off)
    ensures start <= |buf| && StrAt(buf, start) == more
  {
    var rest := FileNameKey + "\"" + more;
    assert StrAt(buf, 0) == pre + Boundary + (x + rest);
    BoundaryAt(buf, pre, x + rest);
    assert StrAt(buf, |pre|) == Boundary + x + FileNameKey + ("\"" + more);
    FileNameKeyAt(buf, |pre|, x, "\"" + more);
    StrAtSuffix(buf, start);
    assert StrAt(buf, 0)[start..] == more;
  }

  /** "Content-Type:" found after the filename is the first one when no ':'
      stands between them. */
  lemma {:induction false} ContentTypeKeyAt(buf: seq<char>, e: nat, y: seq<char>, rest: seq<char>)
    requires e <= |buf| && StrAt(buf, e) == "\"" + (y + (ContentTypeKey + rest)) && ':' !in y
    ensures Find(StrAt(buf, e), ContentTypeKey) == Some(1 + |y|)
  {
    var s := StrAt(buf, e);
    assert s == ("\"" + y) + ContentTypeKey + rest;
    var k := 1 + |y|;
    assert s[k..k + |ContentTypeKey|] == ContentTypeKey;
    forall i | 12 <= i < k + 12 ensures s[i] != ':' {
      if i < k {
        assert s[i] == ("\"" + y)[i];
      } else {
        assert s[i] == ContentTypeKey[i - k];
      }
    }
    FindFirstByChar(s, ContentTypeKey, k, 12);
  }

  /** Dropping a known front of a C string leaves the C string that starts
      after it. */
  lemma {:induction false} StrAtDrop(buf: seq<char>, i: nat, front: seq<char>, rest: seq<char>, j: nat)
    requires i <= |buf| && StrAt(buf, i) == front + rest && j == i + |front|
    ensures j <= |buf| && StrAt(buf, j) == rest
  {
    var s := StrAt(buf, i);
    var k := i + |s|;
    StrAtNoNul(buf, i);
    assert forall j :: i + |front| <= j < k ==> buf[j] == s[j - i] == rest[j - i - |front|];
    StrAtIs(buf, i + |front|, k);
  }

  /** The filename copy stops at the '"' that closes the name. */
  lemma {:induction false} NameEndAt(buf: seq<char>, start: nat, name: seq<char>, rest: seq<char>)
    requires start <= |buf| && StrAt(buf, start) == name + "\"" + rest && '"' !in name
    ensures NameEnd(buf, start) == start + |name|
    ensures buf[start..start + |name|] == name
    ensures StrAt(buf, start + |name|) == "\"" + rest
  {
    var s := StrAt(buf, start);
    var end := start + |name|;
    assert buf[end] == s[|name|] == '"';
    assert forall j :: start <= j < end ==> buf[j] == s[j - start] == name[j - start];
    StrAtNoNul(buf, start);
    NameEndIs(buf, start, end);
    assert buf[start..end] == s[..|name|];
    StrAtDrop(buf, start, name, "\"" + rest, start + |name|);
  }

  /** The data starts at the '\n' that ends the "Content-Type:" line. */
  lemma {:induction false} NewlineAfterKey(buf: seq<char>, ct: nat, z: seq<char>, body: seq<char>)
    requires ct <= |buf| && StrAt(buf, ct) == ContentTypeKey + z + body
    requires '\n' !in z && |body| > 0 && body[0] == '\n'
    ensures NewlineFrom(buf, ct) == Some(ct + |ContentTypeKey| + |z|)
    ensures StrAt(buf, ct + |ContentTypeKey| + |z|) == body
  {
    var s := StrAt(buf, ct);
    var head := ct + |ContentTypeKey| + |z|;
    assert buf[head] == s[head - ct] == body[0];
    forall j | ct <= j < head ensures buf[j] != '\n' {
      assert buf[j] == s[j - ct];
      if j < ct + |ContentTypeKey| {
        assert s[j - ct] == ContentTypeKey[j - ct];
      } else {
        assert s[j - ct] == z[j - ct - |ContentTypeKey|];
      }
    }
    NewlineFromIs(buf, ct, head);
    assert s == (ContentTypeKey + z) + body;
    StrAtDrop(buf, ct, ContentTypeKey + z, body, ct + |ContentTypeKey| + |z|);
  }

  /** The handler reaches the filename copy once the boundary and the key
      are found and the copy would start inside the buffer. */
  lemma {:induction false} LocateIs(buf: seq<char>, b: nat, off: nat, start: nat)
    requires Terminated(buf)
    requires Find(StrAt(buf, 0), Boundary) == Some(b)
    requires b <= |buf| && Find(StrAt(buf, b), FileNameKey) == Some(off)
    requires start == b + off + FileNameSkip && start < |buf|
    ensures Locate(buf) == LocateData(buf, start)
  {
  }

  /** The filename copy reaches the data once the name is short enough and
      both the key and the newline are found. */
  lemma {:induction false} LocateDataIs(buf: seq<char>, start: nat, end: nat, off: nat, ct: nat, head: nat)
    requires Terminated(buf) && start < |buf|
    requires NameEnd(buf, start) == end && end - start < FileNameSize
    requires Find(StrAt(buf, end), ContentTypeKey) == Some(off)
    requires ct == end + off && ct <= |buf| && NewlineFrom(buf, ct) == Some(head)
    ensures LocateData(buf, start) == DataAt(buf[start..end], head)
  {
  }

  /** From the filename to the "Content-Type:" line: the name ends at its
      '"' and the next "Content-Type:" follows it. */
  lemma {:induction false} NameStage(buf: seq<char>, start: nat, name: seq<char>, y: seq<char>, rest: seq<char>,
                                     end: nat, ct: nat)
    requires Terminated(buf) && start < |buf|
    requires StrAt(buf, start) == name + "\"" + (y + (ContentTypeKey + rest))
    requires '"' !in name && ':' !in y
    requires end == start + |name| && ct == end + (1 + |y|)
    ensures NameEnd(buf, start) == end
    ensures buf[start..end] == name
    ensures end <= |buf| && Find(StrAt(buf, end), ContentTypeKey) == Some(1 + |y|)
    ensures ct <= |buf| && StrAt(buf, ct) == ContentTypeKey + rest
  {
    var tail := ContentTypeKey + rest;
    NameEndAt(buf, start, name, y + tail);
    ContentTypeKeyAt(buf, end, y, rest);
    Regroup("\"", y, tail);
    StrAtDrop(buf, end, "\"" + y, tail, ct);
  }

  /** From the "Content-Type:" line on: the data starts at the '\n' that ends
      it, and is cut before the '\n' of the closing line. */
  lemma {:induction false} DataStage(buf: seq<char>, ct: nat, z: seq<char>, content: seq<char>, closing: seq<char>,
                                     head: nat)
    requires Terminated(buf) && ct <= |buf|
    requires StrAt(buf, ct) == ContentTypeKey + (z + ("\n" + content + "\n" + closing + "\n"))
    requires '\n' !in z && '\n' !in closing
    requires head == ct + |ContentTypeKey| + |z|
    ensures NewlineFrom(buf, ct) == Some(head)
    ensures head < |buf| && buf[head] == '\n' && StrAt(Cut(buf, head), head) == "\n" + content
  {
    var body := "\n" + content + "\n" + closing + "\n";
    Regroup(ContentTypeKey, z, body);
    NewlineAfterKey(buf, ct, z, body);
    BodyCut(buf, head, content, closing);
  }

  /** The cut: the last '\n' at or before `strlen(head) - 2` is the one before
      the closing line. */
  lemma {:induction false} CutAt(buf: seq<char>, head: nat, content: seq<char>, closing: seq<char>, cut: nat)
    requires head < |buf| && buf[head] == '\n'
    requires StrAt(buf, head) == "\n" + content + "\n" + closing + "\n" && '\n' !in closing
    requires cut == head + 1 + |content|
    ensures cut < |buf| && Cut(buf, head) == buf[cut := NUL]
  {
    var body := StrAt(buf, head);
    var hi := head + |body| - 2;
    assert buf[cut] == body[1 + |content|] == '\n';
    forall j | cut < j <= hi ensures buf[j] != '\n' {
      assert buf[j] == body[j - head] == closing[j - cut - 1];
    }
    LastNewlineIs(buf, head, hi, cut);
  }

  /** So the data keeps everything between the '\n' at `head` and that one. */
  lemma {:induction false} BodyCut(buf: seq<char>, head: nat, content: seq<char>, closing: seq<char>)
    requires head < |buf| && buf[head] == '\n'
    requires StrAt(buf, head) == "\n" + content + "\n" + closing + "\n" && '\n' !in closing
    ensures StrAt(Cut(buf, head), head) == "\n" + content
  {
    var body := StrAt(buf, head);
    var cut := head + 1 + |content|;
    CutAt(buf, head, content, closing, cut);
    StrAtNoNul(buf, head);
    var after := buf[cut := NUL];
    assert forall j :: head <= j < cut ==> after[j] == body[j - head];
    StrAtIs(after, head, cut);
    assert after[head..cut] == body[..1 + |content|];
  }

  /** From the filename on, a well-formed part locates its data after the
      "Content-Type:" line and keeps it up to the '\n' before the closing
      line. */
  lemma {:induction false} DataFromName(buf: seq<char>, start: nat, name: seq<char>, y: seq<char>,
                                        z: seq<char>, content: seq<char>, closing: seq<char>, head: nat)
    requires Terminated(buf) && start < |buf|
    requires StrAt(buf, start) == name + "\"" + (y + (ContentTypeKey + (z + ("\n" + content + "\n" + closing + "\n"))))
    requires '"' !in name && ':' !in y && '\n' !in z && '\n' !in closing && |name| < FileNameSize
    requires head == start + |name| + (1 + |y|) + |ContentTypeKey| + |z|
    ensures LocateData(buf, start) == DataAt(name, head)
    ensures head < |buf| && buf[head] == '\n' && StrAt(Cut(buf, head), head) == "\n" + content
  {
    var end := start + |name|;
    var ct := end + (1 + |y|);
    NameStage(buf, start, name, y, z + ("\n" + content + "\n" + closing + "\n"), end, ct);
    DataStage(buf, ct, z, content, closing, head);
    LocateDataIs(buf, start, end, 1 + |y|, ct, head);
  }

  /** Past the boundary and the "filename=" key: the part from the filename
      on decides the upload. */
  lemma {:induction false} UploadFromKey(buf: seq<char>, b: nat, off: nat, start: nat, name: seq<char>, y: seq<char>,
                                         z: seq<char>, content: seq<char>, closing: seq<char>)
    requires Terminated(buf)
    requires Find(StrAt(buf, 0), Boundary) == Some(b)
    requires b <= |buf| && Find(StrAt(buf, b), FileNameKey) == Some(off)
    requires start == b + off + FileNameSkip && start <= |buf|
    requires StrAt(buf, start) == name + "\"" + (y + (ContentTypeKey + (z + ("\n" + content + "\n" + closing + "\n"))))
    requires '"' !in name && ':' !in y && '\n' !in z && '\n' !in closing && |name| < FileNameSize
    ensures PostEffect(buf).outcome == Upload(name, "\n" + content)
  {
    var head := start + |name| + (1 + |y|) + |ContentTypeKey| + |z|;
    LocateIs(buf, b, off, start);
    DataFromName(buf, start, name, y, z, content, closing, head);
    PostUploads(buf, start, name, head, "\n" + content);
  }

  /** A well-formed single-file upload: the written data is the '\n' that
      ends the Content-Type line followed by everything up to, not including,
      the '\n' before the closing boundary line. With content "\r\nhello\r"
      and closing "------WebKitFormBoundaryX--\r" the file holds
      "\n\r\nhello\r", not "hello": the fixed two-byte trim drops only the
      final "\r\n" of the request. */
  lemma {:induction false} UploadExtracted(buf: seq<char>, pre: seq<char>, x: seq<char>, name: seq<char>, y: seq<char>,
                        z: seq<char>, content: seq<char>, closing: seq<char>)
    requires Terminated(buf)
    requires StrAt(buf, 0) == pre + Boundary + x + FileNameKey + "\"" + name + "\"" + y
                              + ContentTypeKey + z + "\n" + content + "\n" + closing + "\n"
    requires NoneBefore(pre + Boundary, Boundary, |pre|)
    requires NoneBefore(Boundary + x + FileNameKey, FileNameKey, |Boundary| + |x|)
    requires ':' !in y && '\n' !in z && '\n' !in closing
    requires '"' !in name && |name| < FileNameSize
    ensures PostEffect(buf).outcome == Upload(name, "\n" + content)
  {
    var more := name + "\"" + (y + (ContentTypeKey + (z + ("\n" + content + "\n" + closing + "\n"))));
    assert StrAt(buf, 0) == pre + Boundary + x + FileNameKey + "\"" + more;
    var b := |pre|;
    var off := |Boundary| + |x|;
    var start := b + off + FileNameSkip;
    FileNameStart(buf, pre, x, more, b, off, start);
    UploadFromKey(buf, b, off, start, name, y, z, content, closing);
  }
}
