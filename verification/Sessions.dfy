/** A client's session process: src/server_core.c and the handlers of src/filetransfer.c, as far as
    logins, commands, transfers and descriptors go. */
module Sessions {
  import opened Bytes
  import opened CStrings
  import opened Tokenizer
  import opened CommandLine
  import opened Descriptors
  import opened CommandParser
  import opened PipelineWiring
  import opened Processes
  import opened Files
  import Credentials
  import Transfer
  import TransferLoops

  const MAX_LOGIN_ATTEMPTS := 3
  const MAX_USER_NAME := 256

  // ----- Login -----

  /** Two lines received from the client, as they stand in its read buffer. */
  datatype Attempt = Attempt(user: seq<char>, password: seq<char>)

  ghost predicate Received(a: Attempt) {
    Terminated(a.user, 0) && Terminated(a.password, 0)
  }

  /** What an attempt is compared as: 255 characters of each line. */
  function Claim(a: Attempt): Credentials.Credential {
    var kept := MAX_USER_NAME - 1;
    Credentials.Credential(Truncate(CStr(a.user, 0), kept), Truncate(CStr(a.password, 0), kept))
  }

  method AttemptLogin(t: Credentials.Table, a: Attempt) returns (userindex: int)
    requires t.Valid() && Received(a)
    ensures t.Valid() && t.Contents() == old(t.Contents())
    ensures Credentials.IsLeastMatch(t.Contents(), Claim(a), userindex)
  {
    var names := new char[2, MAX_USER_NAME];
    CopyToRow(names, 0, a.user, 0, MAX_USER_NAME - 1);
    ghost var username := Row(names, 0);
    CopyToRow(names, 1, a.password, 0, MAX_USER_NAME - 1);
    assert Row(names, 0) == username;
    userindex := t.VerifyUser(Row(names, 0), Row(names, 1));
  }

  /** None of the first n attempts matches. */
  ghost predicate Refused(cs: seq<Credentials.Credential>, attempts: seq<Attempt>, n: nat) {
    forall k :: 0 <= k < n && k < |attempts| ==> Claim(attempts[k]) !in cs
  }

  /** All attempts before the last were refused, and the last one decides the index. */
  ghost predicate LastDecides(cs: seq<Credentials.Credential>, attempts: seq<Attempt>, made: nat, userindex: int)
    requires 0 < made <= |attempts|
  {
    Refused(cs, attempts, made - 1) && Credentials.IsLeastMatch(cs, Claim(attempts[made - 1]), userindex)
  }

  lemma MatchDecides(cs: seq<Credentials.Credential>, c: Credentials.Credential, index: int)
    requires Credentials.IsLeastMatch(cs, c, index)
    ensures index >= 0 <==> c in cs
  {
  }

  /** One turn of the loop of `do_login`. */
  method NextAttempt(t: Credentials.Table, attempts: seq<Attempt>, made: nat) returns (userindex: int)
    requires t.Valid() && made < |attempts| && Received(attempts[made])
    requires Refused(t.Contents(), attempts, made)
    ensures t.Valid() && t.Contents() == old(t.Contents())
    ensures LastDecides(t.Contents(), attempts, made + 1, userindex)
    ensures userindex == -1 ==> Refused(t.Contents(), attempts, made + 1)
  {
    userindex := AttemptLogin(t, attempts[made]);
    MatchDecides(t.Contents(), Claim(attempts[made]), userindex);
  }

  /** `do_login`: at most three attempts, none after a success, and the index recorded is the least
      entry that the last attempt matches. */
  method DoLogin(t: Credentials.Table, attempts: seq<Attempt>) returns (userindex: int, made: nat)
    requires t.Valid() && |attempts| >= MAX_LOGIN_ATTEMPTS
    requires forall k :: 0 <= k < |attempts| ==> Received(attempts[k])
    ensures t.Valid() && 0 < made <= 3
    ensures LastDecides(t.Contents(), attempts, made, userindex)
    ensures userindex == -1 ==> made == MAX_LOGIN_ATTEMPTS && Refused(t.Contents(), attempts, made)
  {
    userindex, made := -1, 0;
    ghost var cs := t.Contents();
    while made < MAX_LOGIN_ATTEMPTS && userindex == -1
      invariant t.Valid() && t.Contents() == cs && made <= MAX_LOGIN_ATTEMPTS
      invariant userindex == -1 ==> Refused(cs, attempts, made)
      invariant made == 0 ==> userindex == -1
      invariant made > 0 ==> LastDecides(cs, attempts, made, userindex)
      decreases MAX_LOGIN_ATTEMPTS - made
    {
      userindex := NextAttempt(t, attempts, made);
      made := made + 1;
    }
  }

  // ----- Commands -----

  ghost predicate IsTransfer(r: Request) {
    CStr(r.line, 0) == "get" || CStr(r.line, 0) == "put"
  }

  /** The lengths on which the sender decides. */
  predicate Sendable(file: seq<Byte>) {
    |file| % Transfer.CHUNK != 0
  }

  /** The client's chunks arrive whole. */
  ghost predicate InChunks(file: seq<Byte>, pieces: seq<seq<Byte>>) {
    Transfer.Flat(pieces) == file && Transfer.Pieces(Transfer.Config(file, Transfer.CHUNK), 0, pieces)
  }

  /** A line from the client.  For a transfer: whether the file it names can be opened, the file's
      contents, and for `put` the pieces in which the client's chunks arrive and what the server's
      file of that name holds before, which is nothing when there is none.  For a pipeline: how many
      children the SIGCHLD handler collects before each wait. */
  datatype Request = Request(
    line: seq<char>, opens: bool, file: seq<Byte>, pieces: seq<seq<Byte>>, was: seq<Byte>, reaps: seq<nat>)

  /** Words that fit the rows and arrays of the parser. */
  ghost predicate Parsable(ws: seq<string>) {
    Fits(Commands(ws)) && forall k :: 0 <= k < |ws| ==> |ws[k]| < MAX_LINE_SIZE
  }

  ghost predicate Answerable(r: Request) {
    && Terminated(r.line, 0) && Parsable(FirstArgs(Words(CStr(r.line, 0))))
    && (IsTransfer(r) ==> Sendable(r.file))
    && (CStr(r.line, 0) == "put" ==> InChunks(r.file, r.pieces))
  }

  /** What a child hands to execve, and the descriptors it has then. */
  datatype Child = Child(argv: seq<string>, fds: Table)

  /** What a request led to: the bytes sent to the client, or for `put` what the server's file then
      holds; and the children run. */
  datatype Reply = Reply(data: seq<Byte>, ran: seq<Child>)

  /** `commandlist`: "put", "get", "del" and "help", each on a line. */
  const COMMAND_LIST: seq<Byte> :=
    [112, 117, 116, 10, 103, 101, 116, 10, 100, 101, 108, 10, 104, 101, 108, 112, 10]

  function CommandsOf(line: seq<char>): seq<Command> {
    Commands(FirstArgs(Words(CStr(line, 0))))
  }

  /** One child for each command, with the command's words, wired to its neighbours. */
  ghost predicate Ran(base: Table, sockfd: int, cmds: seq<Command>, ran: seq<Child>) {
    exists c: Config ::
      && c.Valid() && c.n == |cmds| == |ran| && c.base == base && c.sockfd == sockfd
      && forall i :: 0 <= i < |ran| ==> ran[i] == Child(cmds[i], Wired(c, i))
  }

  /** `get` sends exactly its file; `put` leaves the client's file over the beginning of the server's;
      `help` sends the list; a line that is no built-in runs its commands, and only such a line does. */
  ghost predicate Answered(base: Table, sockfd: int, r: Request, reply: Reply) {
    var line := CStr(r.line, 0);
    if line == "get" then reply.ran == [] && (r.opens ==> reply.data == r.file)
    else if line == "put" then reply.ran == [] && (r.opens ==> reply.data == Overlaid(r.was, r.file))
    else if line == "help" then reply.ran == [] && reply.data == COMMAND_LIST
    else if line == "exit" then reply.ran == []
    else Ran(base, sockfd, CommandsOf(r.line), reply.ran)
  }

  /** The process is there for the next request: a file could be opened, and no child of a pipeline was
      collected before it was waited for. */
  predicate Survives(r: Request) {
    var line := CStr(r.line, 0);
    if line == "get" || line == "put" then r.opens
    else if line == "help" then true
    else if line == "exit" then false
    else Idle(r.reaps, |CommandsOf(r.line)|)
  }

  /** After `put` the server's file is the client's if and only if it was no longer before. */
  lemma PutStoresIff(base: Table, sockfd: int, r: Request, reply: Reply)
    requires CStr(r.line, 0) == "put" && r.opens && Answered(base, sockfd, r, reply)
    ensures reply.data == r.file <==> |r.was| <= |r.file|
  {
    OverlaidIff(r.was, r.file);
  }

  ghost predicate AllAnswerable(requests: seq<Request>) {
    forall k :: 0 <= k < |requests| ==> Answerable(requests[k])
  }

  /** Request by request: each was answered, all but the last were survived, and `alive` says whether
      the last was. */
  ghost predicate Served(base: Table, sockfd: int, requests: seq<Request>, replies: seq<Reply>, alive: bool) {
    && |replies| <= |requests|
    && (forall k :: 0 <= k < |replies| ==> Answered(base, sockfd, requests[k], replies[k]))
    && (forall k :: 0 <= k < |replies| - 1 ==> Survives(requests[k]))
    && (alive <==> replies == [] || Survives(requests[|replies| - 1]))
  }

  lemma OneMoreServed(base: Table, sockfd: int, requests: seq<Request>, replies: seq<Reply>, reply: Reply)
    requires Served(base, sockfd, requests, replies, true) && |replies| < |requests|
    requires Answered(base, sockfd, requests[|replies|], reply)
    ensures Served(base, sockfd, requests, replies + [reply], Survives(requests[|replies|]))
  {
    var all := replies + [reply];
    assert forall k :: 0 <= k < |replies| ==> all[k] == replies[k];
  }

  /** Row i of the array points to the words of the i-th command, and a NULL follows. */
  ghost predicate Points(args: array2<int>, ws: seq<string>, cmds: seq<Command>)
    requires args.Length0 == args.Length1 == MAX_NUM_ARGS
    reads args
  {
    && Fits(cmds)
    && (forall i, j :: 0 <= i < |cmds| && 0 <= j < |cmds[i]| ==>
          0 <= args[i, j] < |ws| && ws[args[i, j]] == cmds[i][j])
    && forall i :: 0 <= i < |cmds| ==> args[i, |cmds[i]|] == NULL
  }

  /** A line as it stands in the zeroed read buffer. */
  method LineBuffer(text: string) returns (buf: array<char>)
    requires NUL !in text
    ensures fresh(buf) && Text(buf[..], 0, text)
  {
    buf := new char[|text| + 2](i => if 0 <= i < |text| then text[i] else NUL);
    CStrIs(buf[..], 0, text);
  }

  class Session {
    const p: Process
    const sockfd: int
    const buf: array<Byte>
    /** The static cursor of `mystrtok`, and `argv_alloc`. */
    const lx: Lexer
    const alloc: array2<char>
    var readfd: int
    var writefd: int

    predicate Shape() {
      buf.Length == Transfer.CHUNK + 1 && alloc.Length0 == MAX_NUM_ARGS && alloc.Length1 == MAX_LINE_SIZE
    }

    /** `initiostruct` for the session. */
    constructor (p: Process, sockfd: int)
      ensures this.p == p && this.sockfd == sockfd && readfd == STDOUT && writefd == STDOUT
      ensures fresh(buf) && fresh(lx) && fresh(alloc) && Shape()
    {
      this.p, this.sockfd := p, sockfd;
      readfd, writefd := STDOUT, STDOUT;
      buf := new Byte[Transfer.CHUNK + 1];
      lx := new Lexer();
      alloc := new char[MAX_NUM_ARGS, MAX_LINE_SIZE]((_, _) => NUL);
    }

    /** The state at a prompt: no child is left, and the socket and standard descriptors are in place. */
    ghost predicate AtPrompt()
      reads this, p
    {
      p.alive && p.children == 0 && Usable(p.fds, sockfd) && Shape()
    }

    /** `open`: the lowest free descriptor, or the end of the process. */
    method OpenFileFd(opens: bool) returns (fd: int)
      requires p.alive
      modifies p`fds, p`alive
      ensures p.alive == opens
      ensures if opens then fd !in old(p.fds) && p.fds == old(p.fds)[fd := OpenFile] else p.fds == old(p.fds)
    {
      if !opens {
        p.alive := false;
        return -1;
      }
      fd := p.LowestFree();
      p.fds := p.fds[fd := OpenFile];
    }

    method CloseReadFdRestoreOldFd(oldfd: int)
      modifies this`readfd, p`fds
      ensures p.fds == old(p.fds) - {old(readfd)} && readfd == oldfd
    {
      p.fds := p.fds - {readfd};
      readfd := oldfd;
    }

    method CloseWriteFdRestoreOldFd(oldfd: int)
      modifies this`writefd, p`fds
      ensures p.fds == old(p.fds) - {old(writefd)} && writefd == oldfd
    {
      p.fds := p.fds - {writefd};
      writefd := oldfd;
    }

    /** `serverhandleget`: the client is sent exactly the file. */
    method ServerHandleGet(opens: bool, file: seq<Byte>) returns (moved: seq<Byte>)
      requires AtPrompt() && Sendable(file)
      modifies this`readfd, p`fds, p`alive, buf
      ensures p.fds == old(p.fds) && readfd == old(readfd) && p.alive == opens
      ensures opens ==> moved == file
    {
      moved := [];
      var oldfd := readfd;
      var fd := OpenFileFd(opens);
      if !p.alive { return; }
      readfd := fd;
      var sock := new TransferLoops.Sock([]);
      var f := new TransferLoops.File(file);
      var rounds := TransferLoops.SendFileToSocket(sock, buf, f);
      moved := sock.sent;
      CloseReadFdRestoreOldFd(oldfd);
    }

    /** `serverhandleput`: the file is opened without being truncated, so the client's bytes replace
        its beginning, and it ends up as the client's exactly when it was no longer before. */
    method ServerHandlePut(opens: bool, was: seq<Byte>, pieces: seq<seq<Byte>>, ghost file: seq<Byte>)
      returns (stored: seq<Byte>)
      requires AtPrompt() && Sendable(file) && InChunks(file, pieces)
      modifies this`writefd, p`fds, p`alive, buf
      ensures p.fds == old(p.fds) && writefd == old(writefd) && p.alive == opens
      ensures opens ==> stored == Overlaid(was, file) && (stored == file <==> |was| <= |file|)
    {
      stored := was;
      var oldfd := writefd;
      var fd := OpenFileFd(opens);
      if !p.alive { return; }
      writefd := fd;
      var sock := new TransferLoops.Sock(pieces);
      var f := new TransferLoops.File(was);
      TransferLoops.ReadBytesFromSocket(sock, buf, f, Transfer.Config(file, Transfer.CHUNK));
      stored := f.contents;
      OverlaidIff(was, file);
      CloseWriteFdRestoreOldFd(oldfd);
    }

    method Is(line: seq<char>, word: string) returns (b: bool)
      requires Terminated(line, 0) && NUL !in word
      ensures b <==> CStr(line, 0) == word
    {
      var m := word + [NUL];
      CStrIs(m, 0, word);
      assert m[|word|] == NUL;
      var r := MyStrCmp(line, 0, m, 0);
      b := r == 0;
    }

    /** `serverhandlehelp`: the list goes to the client. */
    method ServerHandleHelp() returns (sent: seq<Byte>)
      ensures sent == COMMAND_LIST
    {
      var sock := new TransferLoops.Sock([]);
      var list := new Byte[|COMMAND_LIST|](i requires 0 <= i < |COMMAND_LIST| => COMMAND_LIST[i]);
      assert list[0..|COMMAND_LIST|] == COMMAND_LIST;
      var n := TransferLoops.MySckWrite(sock, list, 0, |COMMAND_LIST|);
      sent := sock.sent;
    }

    /** The rows of `argv_alloc` hold these words. */
    ghost predicate Rows(ws: seq<string>)
      requires Shape()
      reads alloc
    {
      |ws| <= MAX_NUM_ARGS && forall k :: 0 <= k < |ws| ==> RowStr(alloc, k) == ws[k]
    }

    /** `runcommand`: the line is parsed into the pipeline array, and child i is forked for the i-th
        command of the line and wired to its neighbours. */
    method RunCommand(line: seq<char>, reaps: seq<nat>)
      returns (kids: seq<Process>, args: array2<int>, fd: array2<int>)
      requires AtPrompt() && Terminated(line, 0) && Parsable(FirstArgs(Words(CStr(line, 0))))
      modifies p, lx, alloc
      ensures p.fds == old(p.fds) && p.children == 0 && (p.alive <==> Idle(reaps, |CommandsOf(line)|))
      ensures args.Length0 == args.Length1 == MAX_NUM_ARGS && fd.Length1 == FDLEN
      ensures |kids| == fd.Length0 == |CommandsOf(line)|
      ensures Points(args, FirstArgs(Words(CStr(line, 0))), CommandsOf(line))
      ensures Rows(FirstArgs(Words(CStr(line, 0))))
      ensures var c := Config(fd.Length0, old(p.fds), sockfd, Flat(fd));
              c.Valid() && forall i :: 0 <= i < |kids| ==> kids[i].alive && kids[i].fds == Wired(c, i)
    {
      var text := CStr(line, 0);
      var readbuf := LineBuffer(text);
      args := new int[MAX_NUM_ARGS, MAX_NUM_ARGS]((_, _) => NULL);
      var argcs := new int[MAX_NUM_ARGS](_ => 0);
      var npipes := BuildPipeline(lx, alloc, args, argcs, readbuf, text);
      fd := new int[npipes, FDLEN]((_, _) => -1);
      kids := RunPipeline(p, fd, sockfd, reaps);
    }

    /** The argument vector of child i: the rows pointed to, up to the NULL. */
    method ArgvOf(args: array2<int>, i: nat, ghost ws: seq<string>, ghost cmds: seq<Command>)
      returns (argv: seq<string>)
      requires Shape() && Rows(ws) && args.Length0 == args.Length1 == MAX_NUM_ARGS
      requires Points(args, ws, cmds) && i < |cmds|
      ensures argv == cmds[i]
    {
      argv := [];
      var j := 0;
      while args[i, j] != NULL
        invariant 0 <= j <= |cmds[i]| && argv == cmds[i][..j]
        decreases |cmds[i]| - j
      {
        argv := argv + [RowStr(alloc, args[i, j])];
        j := j + 1;
      }
    }

    /** `execve` in every child. */
    method Execs(kids: seq<Process>, args: array2<int>, ghost ws: seq<string>, ghost cmds: seq<Command>,
                 ghost c: Config)
      returns (ran: seq<Child>)
      requires Shape() && Rows(ws) && args.Length0 == args.Length1 == MAX_NUM_ARGS
      requires Points(args, ws, cmds) && c.Valid() && |kids| == |cmds| == c.n
      requires forall i :: 0 <= i < |kids| ==> kids[i].fds == Wired(c, i)
      ensures Ran(c.base, c.sockfd, cmds, ran)
    {
      ran := [];
      for i := 0 to |kids|
        invariant |ran| == i && forall k :: 0 <= k < i ==> ran[k] == Child(cmds[k], Wired(c, k))
      {
        var argv := ArgvOf(args, i, ws, cmds);
        ran := ran + [Child(argv, kids[i].fds)];
      }
    }

    /** `runcommand`, with what its children hand to execve. */
    method RunLine(line: seq<char>, reaps: seq<nat>) returns (ran: seq<Child>)
      requires AtPrompt() && Terminated(line, 0) && Parsable(FirstArgs(Words(CStr(line, 0))))
      modifies p, lx, alloc
      ensures p.fds == old(p.fds) && p.children == 0 && (p.alive <==> Idle(reaps, |CommandsOf(line)|))
      ensures Ran(old(p.fds), sockfd, CommandsOf(line), ran)
    {
      ghost var base := p.fds;
      var kids, args, fd := RunCommand(line, reaps);
      ghost var c := Config(fd.Length0, base, sockfd, Flat(fd));
      ran := Execs(kids, args, FirstArgs(Words(CStr(line, 0))), CommandsOf(line), c);
    }

    /** `runfiletransfer`, and `runcommand` for a line that is none of its commands. */
    method Run(r: Request) returns (reply: Reply)
      requires AtPrompt() && Answerable(r)
      modifies this`readfd, this`writefd, p, buf, lx, alloc
      ensures p.fds == old(p.fds) && readfd == old(readfd) && writefd == old(writefd)
      ensures p.children == 0 && Answered(old(p.fds), sockfd, r, reply)
      ensures p.alive <==> Survives(r)
    {
      reply := Reply([], []);
      var get := Is(r.line, "get");
      if get {
        var moved := ServerHandleGet(r.opens, r.file);
        return reply.(data := moved);
      }
      var put := Is(r.line, "put");
      if put {
        var stored := ServerHandlePut(r.opens, r.was, r.pieces, r.file);
        return reply.(data := stored);
      }
      var help := Is(r.line, "help");
      if help {
        var sent := ServerHandleHelp();
        return reply.(data := sent);
      }
      var exit := Is(r.line, "exit");
      if exit {
        p.alive := false;
        return;
      }
      var ran := RunLine(r.line, r.reaps);
      return reply.(ran := ran);
    }

    /** One turn of the loop of `handleclient`. */
    method ServeNext(requests: seq<Request>, replies: seq<Reply>) returns (replies': seq<Reply>)
      requires AtPrompt() && AllAnswerable(requests) && |replies| < |requests|
      requires Served(p.fds, sockfd, requests, replies, true)
      modifies this`readfd, this`writefd, p, buf, lx, alloc
      ensures p.fds == old(p.fds) && readfd == old(readfd) && writefd == old(writefd)
      ensures |replies'| == |replies| + 1 && (p.alive ==> AtPrompt())
      ensures Served(old(p.fds), sockfd, requests, replies', p.alive)
    {
      var reply := Run(requests[|replies|]);
      OneMoreServed(old(p.fds), sockfd, requests, replies, reply);
      replies' := replies + [reply];
    }

    /** The loop of `handleclient`: every request is answered, in order, until one ends the process;
        then or after the last the descriptors, `readfd` and `writefd` are those of the start, and a
        process that is left is back at a prompt without a child. */
    method HandleClient(requests: seq<Request>) returns (replies: seq<Reply>)
      requires AtPrompt() && AllAnswerable(requests)
      modifies this`readfd, this`writefd, p, buf, lx, alloc
      ensures p.fds == old(p.fds) && readfd == old(readfd) && writefd == old(writefd)
      ensures Served(old(p.fds), sockfd, requests, replies, p.alive)
      ensures p.alive ==> AtPrompt() && |replies| == |requests|
    {
      replies := [];
      while |replies| < |requests|
        invariant AtPrompt()
        invariant p.fds == old(p.fds) && readfd == old(readfd) && writefd == old(writefd)
        invariant Served(old(p.fds), sockfd, requests, replies, true)
        decreases |requests| - |replies|
      {
        replies := ServeNext(requests, replies);
        if !p.alive { return; }
      }
    }

    /** Serving commands leaves the table of credentials alone. */
    method ServeBeside(t: Credentials.Table, requests: seq<Request>) returns (replies: seq<Reply>)
      requires t.Valid() && AtPrompt() && AllAnswerable(requests)
      requires t as object != this && t as object != p
      modifies this`readfd, this`writefd, p, buf, lx, alloc
      ensures t.Valid() && t.Contents() == old(t.Contents())
      ensures p.fds == old(p.fds) && readfd == old(readfd) && writefd == old(writefd)
      ensures Served(old(p.fds), sockfd, requests, replies, p.alive)
      ensures p.alive ==> |replies| == |requests|
    {
      replies := HandleClient(requests);
    }

    /** A whole session: commands are served if and only if some attempt matches the table. */
    method Serve(t: Credentials.Table, attempts: seq<Attempt>, requests: seq<Request>)
      returns (userindex: int, made: nat, replies: seq<Reply>)
      requires t.Valid() && |attempts| >= MAX_LOGIN_ATTEMPTS && AtPrompt()
      requires forall k :: 0 <= k < |attempts| ==> Received(attempts[k])
      requires AllAnswerable(requests)
      requires t as object != this && t as object != p
      modifies this`readfd, this`writefd, p, buf, lx, alloc
      ensures t.Valid() && 0 < made <= 3
      ensures LastDecides(t.Contents(), attempts, made, userindex)
      ensures userindex == -1 ==> made == MAX_LOGIN_ATTEMPTS && replies == [] && p.alive
      ensures userindex >= 0 ==> Served(old(p.fds), sockfd, requests, replies, p.alive)
      ensures userindex >= 0 && p.alive ==> |replies| == |requests|
      ensures p.fds == old(p.fds) && readfd == old(readfd) && writefd == old(writefd)
    {
      userindex, made := DoLogin(t, attempts);
      replies := [];
      var runflag := userindex != -1;
      if runflag {
        replies := ServeBeside(t, requests);
      }
    }
  }
}
