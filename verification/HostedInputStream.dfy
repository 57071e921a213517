// The frontend's `InputStream` for a regular file, as the object whose callbacks update its
// fields and reuse its buffer. Each callback is the step of the protocol it stands for, and
// the object keeps its own account of what it has put on the wire.
module HostedInputStream {
  import opened StreamDelivery
  import opened StreamProtocol

  lemma ReadKeeps(f: Front, log: seq<Call>, file: seq<Byte>, n: nat)
    requires FrontInv(f, log, file) && CanRead(f, file, n)
    ensures FrontInv(Read(f, file, n), log, file)
    ensures n > 0 && f.outq == [] && f.held == [] && Read(f, file, n).count == f.count
  {
    hide Cuts, Ended;
    ReadOwned(f, file, n);
  }

  lemma Transmitted(f: Front, log: seq<Call>, file: seq<Byte>)
    requires FrontInv(f, log, file) && CanTransmit(f)
    ensures var call := ToCall(Message(f));
            && FrontInv(Transmit(f), log + [call], file) && Faithful(log + [call], file)
            && (f.outq[0].Eof? ==> Message(f) == Data([], 0))
            && call == if f.outq[0].Chunk? then Got(file[f.count..f.pos], |file| - f.pos) else GotEof
  {
    hide FrontInv, Faithful, Message, Transmit, ToCall;
    TransmitKeeps(f, log, file);
    LogFaithful(Transmit(f), log + [ToCall(Message(f))], file);
  }

  class InputStream {
    const file: seq<Byte>       // what the file descriptor reads
    const len: nat
    const buffer: array<Byte>
    var doRead: bool
    var count: nat
    var pos: nat                // offset of the file descriptor
    var spawned: nat            // read events waiting in the event manager
    var header: nat             // `avail` in the one shared DATA header
    var outq: seq<Out>          // messages queued by the messenger
    var held: seq<nat>          // sizes of transmitted buffers not yet disposed of
    ghost var log: seq<Call>    // what the messages sent so far mean to the other node
    ghost var careful: bool     // no start has come while a read from before a stop was under way

    ghost function View(): Front
      reads this, buffer
    {
      Front(doRead, count, pos, spawned, buffer[..], header, outq, held)
    }

    ghost predicate Valid()
      reads this, buffer
    {
      && len == |file| && buffer.Length == BUFFER_SIZE
      && (careful ==> FrontInv(View(), log, file))
    }

    constructor (file: seq<Byte>)
      ensures Valid() && fresh(buffer) && this.file == file && careful && log == []
      ensures StreamProtocol.Init(System(false, [], View(), [], []))
    {
      this.file, len := file, |file|;
      buffer := new Byte[BUFFER_SIZE];
      doRead, count, pos, spawned, header, outq, held := false, 0, 0, 0, 0, [], [];
      log, careful := [], true;
      new;
      InitInv(System(false, [], View(), [], []), file);
    }

    method Consume(item: Out, avail: nat)
      modifies this`header, this`outq
      ensures View() == StreamProtocol.Consume(old(View()), item, avail)
    {
      header := avail;
      outq := outq + [item];
    }

    method AsyncReadSome()
      modifies this`spawned
      ensures View() == ReadSome(old(View()), len)
    {
      if !doRead {
        return;
      }
      if count < len {
        spawned := spawned + 1;
      }
    }

    method AsyncReadStart()
      requires Valid()
      modifies this`doRead, this`spawned, this`careful
      ensures Valid() && View() == ReadStart(old(View()), len)
      ensures doRead && spawned == old(spawned) + if !old(doRead) && count < len then 1 else 0
      ensures careful == (old(careful) && (old(doRead) || UnderWay(old(View())) == 0))
    {
      if doRead {
        return;
      }
      ghost var before := View();
      careful := careful && UnderWay(View()) == 0;
      doRead := true;
      AsyncReadSome();
      if careful { HandleOwned(before, file, true); }
    }

    method AsyncReadStop()
      requires Valid()
      modifies this`doRead
      ensures Valid() && View() == ReadStop(old(View())) && !doRead
    {
      if !doRead {
        return;
      }
      ghost var before := View();
      doRead := false;
      if careful { HandleOwned(before, file, false); }
    }

    /** The disposal given to a buffer of `n` bytes. */
    method Dispose(n: nat)
      modifies this`count, this`spawned, this`header, this`outq
      ensures View() == StreamProtocol.Dispose(old(View()), n, len)
    {
      count := count + n;
      if count == len {
        Consume(Eof, 0);
      } else if doRead {
        AsyncReadSome();
      }
    }

    /** `read` stores the next `n` bytes of the file at the front of the buffer. */
    method ReadFile(n: nat)
      requires n <= buffer.Length && pos + n <= |file|
      modifies this`pos, buffer
      ensures pos == old(pos) + n && buffer[..] == Overwritten(old(buffer[..]), file[old(pos)..pos])
    {
      forall i | 0 <= i < n {
        buffer[i] := file[pos + i];
      }
      pos := pos + n;
    }

    /** A spawned event: `read` stores `n` bytes, which go to the consumer unless `n` is 0.
        That happens only after a start that was not careful. */
    method RunReadEvent(n: nat)
      requires Valid() && CanRead(View(), file, n)
      modifies this`count, this`pos, this`spawned, this`header, this`outq, buffer
      ensures Valid() && View() == Read(old(View()), file, n)
      ensures careful ==> n > 0 && old(outq) == [] && old(held) == [] && count == old(count)
    {
      ghost var before := View();
      hide FrontInv, Overwritten;
      spawned := spawned - 1;
      ReadFile(n);
      if n > 0 {
        Consume(Chunk(n), len - (count + n));
      } else {
        Dispose(0);
      }
      assert View() == Read(before, file, n);
      hide Read;
      if careful { ReadKeeps(before, log, file, n); }
    }

    /** The messenger puts the next message on the wire, reading the buffer and the header now.
        Without a careless start that is the piece of the file that was read last, with the
        number of bytes behind it, or the one end of file. */
    method TransmitNext() returns (d: Data)
      requires Valid() && CanTransmit(View())
      modifies this`outq, this`held, this`log
      ensures Valid() && View() == Transmit(old(View()))
      ensures d == Message(old(View())) && log == old(log) + [ToCall(d)]
      ensures careful ==> ToCall(d) == if old(outq[0]).Chunk? then Got(file[count..pos], len - pos) else GotEof
      ensures careful && old(outq[0]).Eof? ==> d == Data([], 0)
      ensures careful ==> Faithful(log, file)
    {
      ghost var before := View();
      hide FrontInv, Faithful;
      match outq[0] {
        case Chunk(n) =>
          d := Data(buffer[..n], header);
          held := held + [n];
        case Eof =>
          d := Data([], header);
      }
      outq := outq[1..];
      assert d == Message(before) && View() == Transmit(before);
      if careful { Transmitted(before, log, file); }
      hide ToCall, Message, Transmit;
      log := log + [ToCall(d)];
    }

    /** The messenger lets go of the oldest transmitted buffer. */
    method ReleaseNext()
      requires Valid() && held != []
      modifies this`count, this`spawned, this`header, this`outq, this`held
      ensures Valid() && View() == Release(old(View()), len)
      ensures careful ==> count > old(count)
    {
      ghost var before := View();
      var n := held[0];
      held := held[1..];
      Dispose(n);
      if careful { DisposeOwned(before, n, file); }
    }

    /** A read and the message that its chunk becomes. */
    method ReadAndSend(n: nat) returns (d: Data)
      requires Valid() && careful && spawned > 0 && outq == [] && held == []
      requires 0 < n <= BUFFER_SIZE && pos + n <= |file|
      modifies this`count, this`pos, this`spawned, this`header, this`outq, this`held, this`log, buffer
      ensures Valid() && outq == [] && held == [n] && log == old(log) + [ToCall(d)]
      ensures count == old(count) && spawned == old(spawned) - 1
    {
      assert CanRead(View(), file, n);
      hide FrontInv, CanRead, Faithful;
      RunReadEvent(n);
      d := TransmitNext();
    }

    /** A reading stream that nobody stops: one read, its message, its release, and the
        message of the end of the file if that was its last piece. */
    method OneRead(n: nat) returns (calls: seq<Call>)
      requires Valid() && careful && doRead && spawned > 0 && outq == [] && held == []
      requires 0 < n <= BUFFER_SIZE && pos + n <= |file|
      modifies this`count, this`pos, this`spawned, this`header, this`outq, this`held, this`log, buffer
      ensures Valid() && outq == [] && held == []
      ensures old(count) < count <= |file| && log == old(log) + calls
    {
      hide FrontInv, Faithful, Message, ToCall;
      var d := ReadAndSend(n);
      calls := [ToCall(d)];
      ReleaseNext();
      if outq != [] {
        d := TransmitNext();
        calls := calls + [ToCall(d)];
      }
      InBounds();
    }

    lemma InBounds()
      requires Valid() && careful
      ensures count <= pos <= |file|
      ensures doRead && outq == [] && held == [] ==> (spawned > 0 <==> count < |file|)
    {
    }
  }

  /** A stream that is started and left alone reads its file to the end: whatever sizes the
      reads have, the messages are the whole file and one end of file. */
  method ReadToEnd(file: seq<Byte>, sizes: nat -> nat) returns (calls: seq<Call>)
    requires forall at: nat :: at < |file| ==> 0 < sizes(at) <= BUFFER_SIZE && at + sizes(at) <= |file|
    ensures Faithful(calls, file)
    ensures if file == [] then calls == [] else Ended(calls, file) && Bytes(calls) == file
  {
    hide Faithful, Ended, Cuts;
    var stream := new InputStream(file);
    stream.AsyncReadStart();
    calls := [];
    while stream.spawned > 0
      invariant stream.Valid() && stream.careful && stream.doRead && stream.file == file
      invariant fresh(stream) && fresh(stream.buffer)
      invariant stream.outq == [] && stream.held == [] && calls == stream.log
      decreases |file| - stream.count
    {
      stream.InBounds();
      assert stream.pos == stream.count;
      var more := stream.OneRead(sizes(stream.pos));
      calls := calls + more;
    }
    stream.InBounds();
    LogFaithful(stream.View(), stream.log, file);
    if file == [] { CutsNone(calls, file); }
  }

  lemma CutsNone(calls: seq<Call>, file: seq<Byte>)
    requires Cuts(calls, file, 0)
    ensures calls == []
  {
  }
}
