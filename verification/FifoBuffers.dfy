// A bounded queue of bytes between one writer and one reader, each of which may block.  A step is
// what one of them does between taking the lock and sleeping or returning.
module FifoBuffers {
  type Byte = x: int | 0 <= x < 256

  const DEFAULT_MAX_SIZE := 131072

  datatype Status = Success | NetworkError | TimedOut

  // A call that is not under way, one that has or is about to take the lock (`left` is what
  // remains to be done), and one that sleeps and has not been notified.
  datatype Phase<T> = Out | Awake(left: T) | Asleep(left: T)

  datatype Fifo = Fifo(
    storage: seq<Byte>, maxSize: nat, readerClosed: bool, writerClosed: bool,
    writer: Phase<seq<Byte>>, reader: Phase<nat>,
    accepted: seq<Byte>, returned: seq<Byte>)
  {
    predicate IsEmpty() { storage == [] }
    predicate IsFull() { |storage| == maxSize }
  }

  function Fresh(maxSize: nat): Fifo { Fifo([], maxSize, false, false, Out, Out, [], []) }

  datatype Event =
    | BeginWrite(data: seq<Byte>)
    | GoOnWriting
    | WriteTimesOut
    | BeginRead(count: nat)
    | GoOnReading
    | ReadTimesOut
    | Close(read: bool, write: bool)

  predicate Enabled(f: Fifo, e: Event) {
    match e
    case BeginWrite(_) => f.writer.Out?
    case GoOnWriting => !f.writer.Out? // an unnotified sleeper may wake up too
    case WriteTimesOut => !f.writer.Out?
    case BeginRead(_) => f.reader.Out?
    case GoOnReading => !f.reader.Out?
    case ReadTimesOut => !f.reader.Out?
    case Close(_, _) => true
  }

  function Min(a: nat, b: nat): nat { if a < b then a else b }

  function Notified<T>(p: Phase<T>): Phase<T> { if p.Asleep? then Awake(p.left) else p }

  // The tests of Write before it takes the lock.
  function BegunWrite(f: Fifo, data: seq<Byte>): Fifo {
    if f.writerClosed || data == [] then f else f.(writer := Awake(data))
  }

  function BegunRead(f: Fifo, count: nat): Fifo {
    if f.readerClosed || count == 0 then f else f.(reader := Awake(count))
  }

  // Write with the lock, `data` being what is left, to its end or its next sleep: put in what
  // fits and wake the reader; with more to write on a full buffer, sleep unless nobody reads.
  function Written(f: Fifo, data: seq<Byte>): Fifo
    requires |f.storage| <= f.maxSize
  {
    var now := Min(|data|, f.maxSize - |f.storage|);
    f.(storage := f.storage + data[..now], accepted := f.accepted + data[..now],
       reader := if now == 0 then f.reader else Notified(f.reader),
       writer := if now == |data| || f.readerClosed then Out else Asleep(data[now..]))
  }

  // Read with the lock: take out what there is and wake the writer; with more to read on an empty
  // buffer, sleep unless the writer has closed.
  function ReadOn(f: Fifo, count: nat): Fifo {
    var now := Min(count, |f.storage|);
    f.(storage := f.storage[now..], returned := f.returned + f.storage[..now],
       writer := if now == 0 then f.writer else Notified(f.writer),
       reader := if now == count || f.writerClosed then Out else Asleep(count - now))
  }

  function Closed(f: Fifo, read: bool, write: bool): Fifo {
    var g := if read then f.(readerClosed := true, writer := Notified(f.writer)) else f;
    if write then g.(writerClosed := true, reader := Notified(g.reader)) else g
  }

  function After(f: Fifo, e: Event): Fifo
    requires |f.storage| <= f.maxSize && Enabled(f, e)
  {
    match e
    case BeginWrite(data) => BegunWrite(f, data)
    case GoOnWriting => Written(f, f.writer.left)
    case WriteTimesOut => f.(writer := Out)
    case BeginRead(count) => BegunRead(f, count)
    case GoOnReading => ReadOn(f, f.reader.left)
    case ReadTimesOut => f.(reader := Out)
    case Close(read, write) => Closed(f, read, write)
  }

  // ---------------------------------------------------------------------------
  // What every step keeps

  ghost predicate Sound(f: Fifo) {
    && f.accepted == f.returned + f.storage
    && |f.storage| <= f.maxSize
    && (f.reader.Asleep? ==> f.IsEmpty() && !f.writerClosed)
    && (f.writer.Asleep? ==> f.IsFull() && !f.readerClosed)
    && (!f.writer.Out? ==> f.writer.left != []) && (!f.reader.Out? ==> f.reader.left > 0)
  }

  lemma {:induction false} StepIsSound(f: Fifo, e: Event)
    requires Sound(f) && Enabled(f, e)
    ensures Sound(After(f, e)) && After(f, e).maxSize == f.maxSize
  {
    match e
    case GoOnWriting =>
      var data := f.writer.left;
      var now := Min(|data|, f.maxSize - |f.storage|);
      assert f.returned + f.storage + data[..now] == f.returned + (f.storage + data[..now]);
    case GoOnReading =>
      var now := Min(f.reader.left, |f.storage|);
      assert f.returned + f.storage[..now] + f.storage[now..] == f.returned + f.storage;
    case _ =>
  }

  function Run(f: Fifo, es: seq<Event>): Fifo
    requires Runs(f, es)
    decreases |es|
  {
    if es == [] then f else Run(After(f, es[0]), es[1..])
  }

  predicate Runs(f: Fifo, es: seq<Event>)
    decreases |es|
  {
    es == [] || (|f.storage| <= f.maxSize && Enabled(f, es[0]) && Runs(After(f, es[0]), es[1..]))
  }

  // In every run: bytes accepted are bytes returned followed by bytes stored, the store is never
  // overfull, who sleeps unnotified has a reason to, who is under way has something left to do, and the
  // two never both sleep.
  lemma {:induction false} RunIsSound(f: Fifo, es: seq<Event>)
    requires Sound(f) && Runs(f, es)
    ensures Sound(Run(f, es)) && Run(f, es).maxSize == f.maxSize
    ensures f.maxSize > 0 ==> !(Run(f, es).reader.Asleep? && Run(f, es).writer.Asleep?)
    decreases |es|
  {
    if es != [] {
      StepIsSound(f, es[0]);
      RunIsSound(After(f, es[0]), es[1..]);
    }
  }

  // With no room at all, any write and any read sleep together.
  lemma {:induction false} NoRoomDeadlocks(data: seq<Byte>, count: nat)
    requires data != [] && count > 0
    ensures var f := After(After(After(After(Fresh(0), BeginWrite(data)), GoOnWriting), BeginRead(count)), GoOnReading);
            f.reader.Asleep? && f.writer.Asleep?
  {
    var f := After(After(Fresh(0), BeginWrite(data)), GoOnWriting);
    assert f.writer == Asleep(data);
  }

  // ---------------------------------------------------------------------------
  // What the calls promise

  // The data of the Write calls that get past their first tests.
  function Offered(f: Fifo, es: seq<Event>): seq<Byte>
    requires Runs(f, es)
    decreases |es|
  {
    if es == [] then []
    else (if es[0].BeginWrite? && !f.writerClosed then es[0].data else []) + Offered(After(f, es[0]), es[1..])
  }

  function Left(p: Phase<seq<Byte>>): seq<Byte> { if p.Out? then [] else p.left }

  // As long as nobody closes the reading end and no Write times out, every byte offered is read,
  // stored or about to be written, in the order of the calls.
  lemma {:induction false} NothingIsLost(f: Fifo, es: seq<Event>)
    requires Sound(f) && Runs(f, es) && !f.readerClosed
    requires forall e :: e in es ==> !e.WriteTimesOut? && !(e.Close? && e.read)
    ensures var g := Run(f, es);
            g.returned + g.storage + Left(g.writer) == f.returned + f.storage + Left(f.writer) + Offered(f, es)
    decreases |es|
  {
    if es != [] {
      var g := After(f, es[0]);
      var begun := if es[0].BeginWrite? && !f.writerClosed then es[0].data else [];
      StepIsSound(f, es[0]);
      StepOffers(f, es[0]);
      NothingIsLost(g, es[1..]);
      assert g.accepted + Left(g.writer) + Offered(g, es[1..])
          == f.accepted + Left(f.writer) + (begun + Offered(g, es[1..]));
    }
  }

  lemma {:induction false} StepOffers(f: Fifo, e: Event)
    requires Sound(f) && Enabled(f, e) && !f.readerClosed && !e.WriteTimesOut? && !(e.Close? && e.read)
    ensures !After(f, e).readerClosed
    ensures After(f, e).accepted + Left(After(f, e).writer)
            == f.accepted + Left(f.writer) + if e.BeginWrite? && !f.writerClosed then e.data else []
  {
    if e.GoOnWriting? {
      var data := f.writer.left;
      var now := Min(|data|, f.maxSize - |f.storage|);
      assert data == data[..now] + data[now..];
      assert f.accepted + data[..now] + data[now..] == f.accepted + data;
    }
  }

  // What a call to Read has still to return.
  function ToRead(f: Fifo): nat { if f.reader.Out? then 0 else f.reader.left }

  // From a Read that gets past its first tests until it returns.
  predicate OneRead(f: Fifo, es: seq<Event>)
    requires Runs(f, es)
    decreases |es|
  {
    es == [] || (!f.reader.Out? && OneRead(After(f, es[0]), es[1..]))
  }

  // While a Read is under way, what it has returned and what it has to return are together what it
  // was asked for; when it ends they still are, or it timed out, or the writer has closed and
  // nothing is left.
  lemma {:induction false} ReadIsBounded(f: Fifo, es: seq<Event>)
    requires Sound(f) && Runs(f, es) && OneRead(f, es)
    ensures var g := Run(f, es);
            && f.returned <= g.returned
            && |g.returned| - |f.returned| + ToRead(g) <= ToRead(f)
            && (!g.reader.Out? ==> |g.returned| - |f.returned| + ToRead(g) == ToRead(f))
            && (g.reader.Out? && |g.returned| - |f.returned| < ToRead(f) ==>
                  es[|es| - 1] == ReadTimesOut || (g.writerClosed && g.IsEmpty()))
    decreases |es|
  {
    if es != [] {
      StepIsSound(f, es[0]);
      StepReads(f, es[0]);
      if es[1..] != [] {
        assert es[1..][|es| - 2] == es[|es| - 1];
      }
      ReadIsBounded(After(f, es[0]), es[1..]);
    }
  }

  lemma {:induction false} StepReads(f: Fifo, e: Event)
    requires Sound(f) && Enabled(f, e) && !f.reader.Out?
    ensures var g := After(f, e);
            && f.returned <= g.returned
            && |g.returned| - |f.returned| + ToRead(g) <= ToRead(f)
            && (!g.reader.Out? ==> |g.returned| - |f.returned| + ToRead(g) == ToRead(f))
            && (g.reader.Out? && |g.returned| - |f.returned| < ToRead(f) ==>
                  e == ReadTimesOut || (g.writerClosed && g.IsEmpty()))
  {
  }

  // So a Read of count bytes returns the next count bytes; fewer only if it times out or the writer
  // has closed and left no more.
  lemma {:induction false} ReadReturnsCount(f: Fifo, count: nat, es: seq<Event>)
    requires Sound(f) && f.reader.Out? && !f.readerClosed && count > 0
    requires Runs(After(f, BeginRead(count)), es) && OneRead(After(f, BeginRead(count)), es)
    ensures var g := Run(After(f, BeginRead(count)), es);
            && f.returned <= g.returned
            && var data := g.returned[|f.returned|..];
            && |data| <= count && f.returned + data + g.storage == g.accepted
            && (g.reader.Out? && |data| < count ==> es[|es| - 1] == ReadTimesOut || (g.writerClosed && g.IsEmpty()))
  {
    var h := After(f, BeginRead(count));
    StepIsSound(f, BeginRead(count));
    ReadIsBounded(h, es);
    RunIsSound(h, es);
    var g := Run(h, es);
    assert g.returned == f.returned + g.returned[|f.returned|..];
  }

  // From a Write that gets past its first tests until it returns.
  predicate OneWrite(f: Fifo, es: seq<Event>)
    requires Runs(f, es)
    decreases |es|
  {
    es == [] || (!f.writer.Out? && OneWrite(After(f, es[0]), es[1..]))
  }

  // The first n bytes that were left to write in f are in, and the others are what is left in g.
  ghost predicate Wrote(f: Fifo, g: Fifo, n: nat) {
    && !f.writer.Out? && n <= |f.writer.left| && g.accepted == f.accepted + f.writer.left[..n]
    && (!g.writer.Out? ==> g.writer.left == f.writer.left[n..])
  }

  // While a Write is under way, what it has put in and what it has left are together its data, in
  // order; when it ends all is in, or it timed out, or the reader has closed.
  lemma {:induction false} WriteIsInOrder(f: Fifo, es: seq<Event>) returns (n: nat)
    requires Sound(f) && Runs(f, es) && OneWrite(f, es) && !f.writer.Out?
    ensures var g := Run(f, es);
            && Wrote(f, g, n)
            && (g.writer.Out? && n < |f.writer.left| ==> es[|es| - 1] == WriteTimesOut || g.readerClosed)
    decreases |es|
  {
    hide Sound, After, Enabled, Wrote;
    n := 0;
    if es == [] {
      NothingWritten(f);
    } else {
      var g := After(f, es[0]);
      StepIsSound(f, es[0]);
      n := StepWrites(f, es[0]);
      if g.writer.Out? {
        assert es[1..] == [];
      } else {
        var m := WriteIsInOrder(g, es[1..]);
        WroteOn(f, g, Run(f, es), n, m);
        assert es[1..] != [] ==> es[1..][|es| - 2] == es[|es| - 1];
        n := n + m;
      }
    }
  }

  lemma {:induction false} NothingWritten(f: Fifo)
    requires !f.writer.Out?
    ensures Wrote(f, f, 0)
  {
    assert f.accepted + [] == f.accepted;
  }

  lemma {:induction false} WroteOn(f: Fifo, g: Fifo, h: Fifo, n: nat, m: nat)
    requires Wrote(f, g, n) && Wrote(g, h, m)
    ensures |g.writer.left| == |f.writer.left| - n && Wrote(f, h, n + m)
  {
    var data := f.writer.left;
    assert data[..n] + data[n..][..m] == data[..n + m] && data[n..][m..] == data[n + m..];
  }

  lemma {:induction false} StepWrites(f: Fifo, e: Event) returns (n: nat)
    requires Sound(f) && Enabled(f, e) && !f.writer.Out?
    ensures var g := After(f, e);
            Wrote(f, g, n) && (g.writer.Out? && n < |f.writer.left| ==> e == WriteTimesOut || g.readerClosed)
  {
    n := |After(f, e).accepted| - |f.accepted|;
  }

  // An end is closed by Close alone, and for good.
  lemma {:induction false} StepCloses(f: Fifo, e: Event)
    requires Sound(f) && Enabled(f, e)
    ensures After(f, e).readerClosed <==> f.readerClosed || (e.Close? && e.read)
    ensures After(f, e).writerClosed <==> f.writerClosed || (e.Close? && e.write)
  {
  }

  // From then on whoever is not under way at that end neither begins nor gets anything through.
  lemma {:induction false} ClosedForGood(f: Fifo, es: seq<Event>)
    requires Sound(f) && Runs(f, es)
    ensures f.readerClosed ==> Run(f, es).readerClosed
    ensures f.readerClosed && f.reader.Out? ==> Run(f, es).reader.Out? && Run(f, es).returned == f.returned
    ensures f.writerClosed ==> Run(f, es).writerClosed
    ensures f.writerClosed && f.writer.Out? ==> Run(f, es).writer.Out? && Run(f, es).accepted == f.accepted
    decreases |es|
  {
    if es != [] {
      StepIsSound(f, es[0]);
      StepCloses(f, es[0]);
      ClosedForGood(After(f, es[0]), es[1..]);
    }
  }

  // A store without room stays empty.
  lemma {:induction false} NoRoomNoBytes(f: Fifo, es: seq<Event>)
    requires Sound(f) && Runs(f, es) && f.maxSize == 0
    ensures Run(f, es).accepted == f.accepted
    decreases |es|
  {
    if es != [] {
      StepIsSound(f, es[0]);
      NoRoomNoBytes(After(f, es[0]), es[1..]);
    }
  }

  // A writer under way, whether its end is closed or not, adds to an empty store as soon as it goes on.
  lemma {:induction false} LateBytes(f: Fifo)
    requires Sound(f) && !f.writer.Out? && f.IsEmpty() && f.maxSize > 0
    ensures Enabled(f, GoOnWriting) && |After(f, GoOnWriting).accepted| > |f.accepted|
  {
    assert Min(|f.writer.left|, f.maxSize) > 0;
  }

  // What a read tells its caller when it returns short: every byte there will ever be was returned.
  ghost predicate HasHadEveryByte(f: Fifo) {
    forall es | Runs(f, es) :: Run(f, es).accepted == f.returned
  }

  // A read returns short on an empty store with the writer closed.  What it tells is then true
  // exactly if no Write is under way, or there is no room for it to write to.
  lemma {:induction false} EndIsTheEnd(f: Fifo)
    requires Sound(f) && f.writerClosed && f.IsEmpty()
    ensures HasHadEveryByte(f) <==> f.writer.Out? || f.maxSize == 0
  {
    assert f.accepted == f.returned;
    if f.writer.Out? || f.maxSize == 0 {
      forall es | Runs(f, es)
        ensures Run(f, es).accepted == f.returned
      {
        if f.writer.Out? {
          ClosedForGood(f, es);
        } else {
          NoRoomNoBytes(f, es);
        }
      }
    } else {
      LateBytes(f);
      var es := [GoOnWriting];
      assert es[1..] == [];
      assert Runs(f, es) && Run(f, es) == After(f, GoOnWriting);
    }
  }

  // The case in which it is not comes about with any room and any data: the writing end is closed
  // from outside while a Write is under way, and the reader comes first.
  lemma {:induction false} EndCanBeWrong(maxSize: nat, data: seq<Byte>, count: nat)
    requires maxSize > 0 && data != [] && count > 0
    ensures var f := After(After(After(Fresh(maxSize), BeginWrite(data)), Close(false, true)), BeginRead(count));
            Sound(f) && After(f, GoOnReading).reader.Out? && After(f, GoOnReading).returned == []
            && !HasHadEveryByte(After(f, GoOnReading))
  {
    var f0 := After(Fresh(maxSize), BeginWrite(data));
    var f := After(After(f0, Close(false, true)), BeginRead(count));
    assert f.writer == Awake(data) && f.reader == Awake(count);
    var g := After(f, GoOnReading);
    StepIsSound(f, GoOnReading);
    assert g == f.(reader := Out);
    EndIsTheEnd(g);
  }

  // ---------------------------------------------------------------------------
  // The buffer itself

  lemma {:induction false} NeverOverfull(f: Fifo)
    requires Sound(f)
    ensures |f.storage| <= f.maxSize && (!f.writer.Out? ==> f.writer.left != [])
  {
  }

  class FifoBuffer {
    const maxSize: nat
    var storage: seq<Byte>
    var readerClosed: bool
    var writerClosed: bool
    ghost var writer: Phase<seq<Byte>>
    ghost var reader: Phase<nat>
    ghost var accepted: seq<Byte>
    ghost var returned: seq<Byte>

    ghost function Now(): Fifo
      reads this
    {
      Fifo(storage, maxSize, readerClosed, writerClosed, writer, reader, accepted, returned)
    }

    constructor (maxSize: nat := DEFAULT_MAX_SIZE)
      ensures Now() == Fresh(maxSize) && Sound(Now())
    {
      this.maxSize := maxSize;
      storage, readerClosed, writerClosed := [], false, false;
      writer, reader, accepted, returned := Out, Out, [], [];
    }

    // The start of Write: `done` if it returns at once.
    method BeginWrite(data: seq<Byte>) returns (done: bool, er: Status)
      requires Sound(Now()) && writer.Out?
      modifies this`writer
      ensures Now() == After(old(Now()), Event.BeginWrite(data)) && Sound(Now())
      ensures done <==> writer.Out?
      ensures done ==> er == if writerClosed then NetworkError else Success
    {
      if writerClosed {
        return true, NetworkError;
      }
      if data == [] {
        return true, Success;
      }
      writer := Awake(data);
      return false, Success;
    }

    // Write with the lock, `left` being still to be written; up to the return or the next sleep.
    method GoOnWriting(left: seq<Byte>) returns (done: bool, er: Status, written: nat)
      requires Sound(Now()) && !writer.Out? && writer.left == left
      modifies this`storage, this`writer, this`reader, this`accepted
      ensures Now() == After(old(Now()), Event.GoOnWriting) && Sound(Now())
      ensures done <==> writer.Out?
      ensures written <= |left| && accepted == old(accepted) + left[..written]
      ensures !done ==> writer == Asleep(left[written..])
      ensures done ==> er == if written == |left| then Success else NetworkError
      ensures done && er == NetworkError ==> readerClosed
    {
      hide Sound, Enabled;
      ghost var f := Now();
      NeverOverfull(f);
      StepIsSound(f, Event.GoOnWriting);
      done, er, written := true, Success, 0;
      while written < |left|
        invariant written == 0 || written == Min(|left|, maxSize - |f.storage|)
        invariant Now() == f.(storage := f.storage + left[..written], accepted := f.accepted + left[..written],
                              reader := if written == 0 then f.reader else Notified(f.reader))
      {
        if |storage| == maxSize {
          if readerClosed {
            writer := Out;
            return true, NetworkError, written;
          }
          writer := Asleep(left[written..]);
          return false, Success, written;
        }
        var now := Min(|left| - written, maxSize - |storage|);
        assert written == 0 && left[0..now] == left[..now];
        storage := storage + left[written..written + now];
        accepted := accepted + left[written..written + now];
        reader := Notified(reader);
        written := written + now;
      }
      writer := Out;
    }

    // The sleep of Write runs out, whether or not it was notified meanwhile.
    method WriteTimesOut() returns (er: Status)
      requires Sound(Now()) && !writer.Out?
      modifies this`writer
      ensures Now() == After(old(Now()), Event.WriteTimesOut) && Sound(Now()) && er == TimedOut
    {
      writer := Out;
      er := TimedOut;
    }

    method ReadTimesOut() returns (er: Status)
      requires Sound(Now()) && !reader.Out?
      modifies this`reader
      ensures Now() == After(old(Now()), Event.ReadTimesOut) && Sound(Now()) && er == TimedOut
    {
      reader := Out;
      er := TimedOut;
    }

    method BeginRead(count: nat) returns (done: bool, er: Status)
      requires Sound(Now()) && reader.Out?
      modifies this`reader
      ensures Now() == After(old(Now()), Event.BeginRead(count)) && Sound(Now())
      ensures done <==> reader.Out?
      ensures done ==> er == if readerClosed then NetworkError else Success
    {
      if readerClosed {
        return true, NetworkError;
      }
      if count == 0 {
        return true, Success;
      }
      reader := Awake(count);
      return false, Success;
    }

    // Read with the lock, `left` bytes being still to be read.
    method GoOnReading(left: nat) returns (done: bool, data: seq<Byte>)
      requires Sound(Now()) && !reader.Out? && reader.left == left
      modifies this`storage, this`writer, this`reader, this`returned
      ensures Now() == After(old(Now()), Event.GoOnReading) && Sound(Now())
      ensures done <==> reader.Out?
      ensures data == old(storage)[..Min(left, |old(storage)|)] && returned == old(returned) + data
      ensures !done ==> reader == Asleep(left - |data|)
      ensures done && |data| < left ==> writerClosed && storage == [] && returned == accepted
      ensures done && |data| < left ==> (HasHadEveryByte(Now()) <==> writer.Out? || maxSize == 0)
    {
      ghost var f := Now();
      StepIsSound(f, Event.GoOnReading);
      done, data := true, [];
      while |data| < left
        invariant |data| == 0 || |data| == Min(left, |f.storage|)
        invariant data == f.storage[..|data|]
        invariant Now() == f.(storage := f.storage[|data|..], returned := f.returned + data,
                              writer := if data == [] then f.writer else Notified(f.writer))
      {
        if storage == [] {
          if writerClosed {
            reader := Out;
            EndIsTheEnd(Now());
            return true, data;
          }
          reader := Asleep(left - |data|);
          return false, data;
        }
        var now := Min(left - |data|, |storage|);
        data := data + storage[..now];
        returned := returned + storage[..now];
        storage := storage[now..];
        writer := Notified(writer);
      }
      reader := Out;
    }

    method Close(read: bool, write: bool)
      requires Sound(Now())
      modifies this`readerClosed, this`writerClosed, this`writer, this`reader
      ensures Now() == After(old(Now()), Event.Close(read, write)) && Sound(Now())
    {
      if read {
        readerClosed := true;
        writer := Notified(writer);
      }
      if write {
        writerClosed := true;
        reader := Notified(reader);
      }
    }

    method IsClosed(read: bool, write: bool) returns (closed: bool)
      requires read || write
      ensures closed <==> (read ==> readerClosed) && (write ==> writerClosed)
    {
      if read && write {
        closed := readerClosed && writerClosed;
      } else if read {
        closed := readerClosed;
      } else {
        closed := writerClosed;
      }
    }
  }
}
