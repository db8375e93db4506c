/** The connection object: its fields as the code updates them, method by method, each one carrying
    out the step of the same name in OutputStream. */
module Connection {
  import opened Strings
  import opened Buffer
  import opened OutputStream

  class Connection {
    var fd: int
    var state: State
    var keepAlive: bool
    const output: Buffer

    var sendingFile: bool
    var fileFd: int
    var file: string          // what fileFd refers to
    var fileOffset: nat
    var bytesToSend: nat
    var fileSent: nat

    var wantWrite: bool       // the interest registered with the event loop
    ghost var wire: string
    ghost var stream: string
    ghost var events: seq<Event>
    var crashed: bool         // an exception has left the event loop

    ghost predicate Valid()
      reads this`fd, this`sendingFile, this`fileFd, output
    {
      output.Valid() && fd >= -1 && (sendingFile <==> fileFd >= 0)
    }

    ghost function CurrentJob(): Option<Job>
      reads this`sendingFile, this`file, this`fileOffset, this`bytesToSend, this`fileSent
    {
      if sendingFile then Some(Job(file, fileOffset, bytesToSend, fileSent)) else None
    }

    /** The abstract value. */
    ghost function Abs(): Out
      requires Valid()
      reads this, output, output.data
    {
      Out(fd >= 0, state, keepAlive, wire, output.Contents(), CurrentJob(), wantWrite, events, crashed, stream)
    }

    constructor (fd: int, initialSize: nat)
      requires fd >= 0
      ensures Valid() && Abs() == FRESH && fresh(output) && fresh(output.data)
    {
      output := new Buffer(initialSize);
      this.fd, state, keepAlive := fd, ReadingRequest, false;
      sendingFile, fileFd, file, fileOffset, bytesToSend, fileSent := false, -1, "", 0, 0, 0;
      wantWrite := false;
      wire, stream, events, crashed := "", "", [], false;
    }

    method ModFd(write: bool)
      requires Valid()
      modifies this`wantWrite, this`crashed
      ensures Valid() && Abs() == OutputStream.ModFd(old(Abs()), write)
    {
      if fd >= 0 {
        wantWrite := write;
      } else {
        crashed := true;
      }
    }

    // ---- closing ----

    method HandleClose()
      requires Valid()
      modifies this
      ensures Valid() && Abs() == OutputStream.HandleClose(old(Abs()))
      decreases if state == Closing then 2 else 6
    {
      if fd < 0 { return; }
      if sendingFile {
        OnWriteComplete();
      }
      RemoveFd();
    }

    /** Removes the descriptor from the loop, which throws if it is gone; then closes the file and
        tells the owner. */
    method RemoveFd()
      requires Valid()
      modifies this
      ensures Valid() && Abs() == Teardown(old(Abs()))
    {
      if fd < 0 {
        crashed := true;
        return;
      }
      stream := stream + Delivered(CurrentJob());
      fd := -1;
      wantWrite := false;
      if fileFd >= 0 {
        fileFd := -1;
        sendingFile := false;
      }
      events := events + [Closed];
    }

    method OnWriteComplete()
      requires Valid()
      modifies this
      ensures Valid() && Abs() == OutputStream.OnWriteComplete(old(Abs()))
      decreases if state == Closing then 1 else 5
    {
      events := events + [WriteComplete];
      if state == SendingResponse {
        if keepAlive {
          state := ReadingRequest;
        } else {
          Close();
        }
      }
    }

    method Close()
      requires Valid()
      modifies this
      ensures Valid() && Abs() == OutputStream.Close(old(Abs()))
      decreases 4
    {
      state := Closing;
      if output.Readable() == 0 {
        ForceClose();
      }
    }

    method ForceClose()
      requires Valid()
      modifies this
      ensures Valid() && Abs() == OutputStream.ForceClose(old(Abs()))
      decreases if state == Closing then 3 else 7
    {
      HandleClose();
    }

    // ---- sending ----

    method Send(bytes: string, io: Io)
      requires Valid()
      modifies this, output, output.data
      ensures Valid() && Abs() == OutputStream.Send(old(Abs()), bytes, io)
      ensures output.data == old(output.data) || fresh(output.data)
    {
      hide OutputStream.HandleClose, Buffered;
      if state != ReadingRequest && state != Processing && state != SendingResponse { return; }
      var data := bytes;
      if output.Readable() == 0 {
        if fd < 0 || io.Interrupted? || io.Failed? {
          if fd < 0 { ClosedStaysClosed(Abs()); }
          HandleClose();
          return;
        }
        if io.Wrote? {
          var n := Min(io.n, |data|);
          wire, stream := wire + data[..n], stream + data[..n];
          data := data[n..];
        }
      }
      Enqueue(data);
    }

    /** Buffers what the kernel did not take and asks to be told when it would take more. */
    method Enqueue(data: string)
      requires Valid()
      modifies this, output, output.data
      ensures Valid() && Abs() == Buffered(old(Abs()), data)
      ensures output.data == old(output.data) || fresh(output.data)
    {
      output.Append(data);
      stream := stream + data;
      if output.Readable() > 0 {
        ModFd(true);
      }
    }

    method SendFile(fileFd: int, content: string, fileSize: nat, offset: nat, length: nat)
      requires Valid() && fileFd >= 0 && (length == 0 ==> offset <= fileSize)
      modifies this
      ensures Valid() && Abs() == OutputStream.SendFile(old(Abs()), content, fileSize, offset, length)
    {
      if sendingFile { return; }
      sendingFile := true;
      this.fileFd := fileFd;
      file, fileOffset := content, offset;
      bytesToSend := if length == 0 then fileSize - offset else length;
      fileSent := 0;
      assert Abs() == old(Abs()).(job := Some(Job(content, offset, bytesToSend, 0)));
      ModFd(true);
    }

    // ---- writability ----

    /** One write of the output buffer. */
    method WritePending(io: Io) returns (goOn: bool)
      requires Valid()
      modifies this, output`reader
      ensures Valid() && (Abs(), goOn) == OutputStream.WritePending(old(Abs()), io)
      ensures goOn ==> output.Readable() <= old(output.Readable()) && sendingFile == old(sendingFile)
    {
      hide OutputStream.HandleClose;
      if fd < 0 || !io.Wrote? {
        if fd < 0 { ClosedStaysClosed(Abs()); }
        if fd < 0 || !io.Again? { HandleClose(); }
        return false;
      }
      var sent := output.WriteToFd(Min(io.n, output.Readable()));
      wire := wire + sent;
      return true;
    }

    /** The loop that empties the output buffer. */
    method Drain(schedule: seq<Io>) returns (goOn: bool)
      requires Valid()
      modifies this, output`reader
      ensures Valid() && (Abs(), goOn) == OutputStream.Drain(old(Abs()), schedule)
    {
      hide OutputStream.WritePending;
      var answers := schedule;
      while output.Readable() > 0
        invariant Valid()
        invariant OutputStream.Drain(Abs(), answers) == OutputStream.Drain(old(Abs()), schedule)
        decreases output.Readable()
      {
        var before := output.Readable();
        goOn := WritePending(Next(answers));
        if !goOn { return; }
        if output.Readable() == before { return; }
        answers := Rest(answers);
      }
      return true;
    }

    /** sendfile until everything due is out, the kernel is full, or the file is at its end. */
    method Transfer(schedule: seq<Io>) returns (done: bool)
      requires Valid() && sendingFile
      modifies this
      ensures Valid() && (Abs(), done) == OutputStream.Transfer(old(Abs()), schedule)
    {
      hide OutputStream.HandleClose;
      var answers := schedule;
      while fileSent < bytesToSend
        invariant Valid() && sendingFile
        invariant OutputStream.Transfer(Abs(), answers) == OutputStream.Transfer(old(Abs()), schedule)
        decreases |answers|
      {
        if answers == [] { return false; }
        var offset := fileOffset + fileSent;
        var remaining := bytesToSend - fileSent;
        match answers[0] {
          case Wrote(asked) =>
            var n := Min(asked, Min(remaining, if offset < |file| then |file| - offset else 0));
            if n == 0 { return true; }
            wire := wire + file[offset..offset + n];
            fileSent := fileSent + n;
          case Again => return false;
          case Interrupted =>
          case Failed =>
            HandleClose();
            return false;
        }
        answers := answers[1..];
      }
      return true;
    }

    method HandleWrite(schedule: seq<Io>)
      requires Valid()
      modifies this, output`reader
      ensures Valid() && Abs() == OutputStream.HandleWrite(old(Abs()), schedule)
    {
      hide OutputStream.HandleClose, OutputStream.WritePending, OutputStream.Transfer, OutputStream.Drain,
           OutputStream.OnWriteComplete;
      if sendingFile {
        var answers := schedule;
        if output.Readable() > 0 {
          var goOn := WritePending(Next(answers));
          if !goOn { return; }
          answers := Rest(answers);
        }
        if output.Readable() > 0 { return; }
        var done := Transfer(answers);
        if done && sendingFile && fileSent >= bytesToSend {
          stream := stream + Delivered(CurrentJob());
          fileFd := -1;
          sendingFile := false;
          Complete();
        }
        return;
      }
      var goOn := Drain(schedule);
      if goOn && output.Readable() == 0 {
        Complete();
      }
    }

    /** Nothing is left to write: stop watching for writability, run the callback, and close if the
        connection was only waiting for this. */
    method Complete()
      requires Valid()
      modifies this
      ensures Valid() && Abs() == Completed(old(Abs()))
    {
      hide OutputStream.HandleClose, OutputStream.OnWriteComplete;
      if fd < 0 {
        ModFd(false);
        return;
      }
      ModFd(false);
      OnWriteComplete();
      if state == Closing {
        HandleClose();
      }
    }
  }
}
