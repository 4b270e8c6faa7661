// A growable buffer, optionally with a copy to go back to.
module MemBlocks {
  type Byte = x: int | 0 <= x < 256

  const MEMBLOCK_SIZE := 8192

  datatype Status = Success | NotEnoughMemory

  // ---------------------------------------------------------------------------
  // What it stands for: a sequence of bytes and the one last committed.  A Revert that runs out of
  // memory loses the first (it is no longer `held`), a Commit the second (no longer `kept`).

  datatype Block = Block(data: seq<Byte>, saved: seq<Byte>, transacted: bool, held: bool := true, kept: bool := true)

  function Zeros(n: nat): (z: seq<Byte>)
    ensures |z| == n && forall i :: 0 <= i < n ==> z[i] == 0
  {
    seq(n, i => 0)
  }

  // Cut down or filled up with zeros to n bytes.
  function Resized(s: seq<Byte>, n: nat): (t: seq<Byte>)
    ensures |t| == n
  {
    if n <= |s| then s[..n] else s + Zeros(n - |s|)
  }

  function Max(a: nat, b: nat): nat { if a < b then b else a }

  function Overwritten(s: seq<Byte>, pos: nat, bytes: seq<Byte>): seq<Byte> {
    var t := Resized(s, Max(|s|, pos + |bytes|));
    t[..pos] + bytes + t[pos + |bytes|..]
  }

  datatype Op = Write(pos: nat, bytes: seq<Byte>) | SetSize(size: nat) | Commit | Revert

  function Apply(b: Block, op: Op): Block {
    match op
    case Write(pos, bytes) => b.(data := Overwritten(b.data, pos, bytes))
    case SetSize(size) => b.(data := Resized(b.data, size))
    case Commit => if b.transacted then b.(saved := b.data, kept := true) else b
    case Revert => if b.transacted then b.(data := b.saved, held := true) else b
  }

  // What a call can do without reading a buffer that is gone.
  predicate Usable(b: Block, op: Op) {
    match op
    case Commit => b.transacted ==> b.held
    case Revert => b.transacted ==> b.kept
    case _ => b.held
  }

  // A call that came back, with or without success.
  datatype Attempt = Attempt(op: Op, er: Status)

  function After(b: Block, a: Attempt): Block {
    if a.er == Success then Apply(b, a.op)
    else match a.op
      case Commit => b.(kept := false)
      case Revert => b.(held := false)
      case _ => b
  }

  predicate Runs(b: Block, attempts: seq<Attempt>)
    decreases |attempts|
  {
    attempts == []
    || (Usable(b, attempts[0].op) && (attempts[0].er == Success || b.transacted || !NoOp(attempts[0].op))
        && Runs(After(b, attempts[0]), attempts[1..]))
  }

  // What does nothing without STGM_TRANSACTED.
  predicate NoOp(op: Op) { op.Commit? || op.Revert? }

  function Run(b: Block, attempts: seq<Attempt>): Block
    decreases |attempts|
  {
    if attempts == [] then b else Run(After(b, attempts[0]), attempts[1..])
  }

  // Write and SetSize that run out of memory might as well not have been called.
  function Done(attempts: seq<Attempt>): seq<Attempt>
    decreases |attempts|
  {
    if attempts == [] then []
    else (if attempts[0].er == Success || NoOp(attempts[0].op) then [attempts[0]] else []) + Done(attempts[1..])
  }

  lemma {:induction false} FailedWritesDoNothing(b: Block, attempts: seq<Attempt>)
    ensures Run(b, Done(attempts)) == Run(b, attempts)
    decreases |attempts|
  {
    if attempts != [] {
      var a, rest := attempts[0], attempts[1..];
      FailedWritesDoNothing(After(b, a), rest);
      if a.er == Success || NoOp(a.op) {
        assert Done(attempts)[0] == a && Done(attempts)[1..] == Done(rest);
      } else {
        assert Done(attempts) == Done(rest) && After(b, a) == b;
      }
    }
  }

  function Created(bytes: seq<Byte>, transacted: bool): Block {
    Block(bytes, if transacted then bytes else [], transacted)
  }

  // ---------------------------------------------------------------------------
  // What that means

  // A write puts its bytes in place, leaves the others, and fills the gap to its start with zeros.
  lemma {:induction false} OverwrittenAt(s: seq<Byte>, pos: nat, bytes: seq<Byte>, i: nat)
    ensures |Overwritten(s, pos, bytes)| == Max(|s|, pos + |bytes|)
    ensures i < |Overwritten(s, pos, bytes)| ==>
              Overwritten(s, pos, bytes)[i] ==
                if pos <= i < pos + |bytes| then bytes[i - pos] else if i < |s| then s[i] else 0
    ensures Overwritten(s, pos, bytes)[pos..pos + |bytes|] == bytes
  {
  }

  // A new size keeps the bytes that still fit, and fills up with zeros.
  lemma {:induction false} ResizedAt(s: seq<Byte>, n: nat, i: nat)
    ensures |Resized(s, n)| == n
    ensures i < n ==> Resized(s, n)[i] == if i < |s| then s[i] else 0
  {
  }

  // The saved copy only changes by Commit, whatever else fails.
  lemma {:induction false} SavedUntilCommit(b: Block, attempts: seq<Attempt>)
    requires forall a :: a in attempts ==> !a.op.Commit?
    ensures var c := Run(b, attempts); c.saved == b.saved && c.kept == b.kept && c.transacted == b.transacted
    decreases |attempts|
  {
    if attempts != [] {
      SavedUntilCommit(After(b, attempts[0]), attempts[1..]);
    }
  }

  lemma {:induction false} RunAppend(b: Block, attempts: seq<Attempt>, more: seq<Attempt>)
    ensures Run(b, attempts + more) == Run(Run(b, attempts), more)
    decreases |attempts|
  {
    if attempts == [] {
      assert attempts + more == more;
    } else {
      assert (attempts + more)[1..] == attempts[1..] + more;
      RunAppend(After(b, attempts[0]), attempts[1..], more);
    }
  }

  // Whatever is tried after it, Reverts without memory included, Revert goes back to the last
  // Commit, or to the creation if there was none; without STGM_TRANSACTED both do nothing.
  lemma {:induction false} RevertRestores(b: Block, attempts: seq<Attempt>)
    requires forall a :: a in attempts ==> !a.op.Commit?
    ensures var commit, revert := Attempt(Commit, Success), Attempt(Revert, Success);
            && (b.transacted && b.held ==> Run(b, [commit] + attempts + [revert]) == Block(b.data, b.data, true))
            && (b.transacted && b.held && b.saved == b.data ==> Run(b, attempts + [revert]) == b)
            && (!b.transacted ==> Run(b, attempts + [revert]) == Run(b, attempts))
  {
    var commit, revert := Attempt(Commit, Success), Attempt(Revert, Success);
    var c := After(b, commit);
    SavedUntilCommit(c, attempts);
    SavedUntilCommit(b, attempts);
    RunAppend(b, attempts, [revert]);
    RunAppend(c, attempts, [revert]);
    assert ([commit] + attempts + [revert])[1..] == attempts + [revert];
    assert Run(Run(b, attempts), [revert]) == Apply(Run(b, attempts), Revert);
    assert Run(Run(c, attempts), [revert]) == Apply(Run(c, attempts), Revert);
  }

  // So a block created with STGM_TRANSACTED goes back to what it was created with.
  lemma {:induction false} RevertsToCreation(bytes: seq<Byte>, attempts: seq<Attempt>)
    requires forall a :: a in attempts ==> !a.op.Commit?
    ensures Run(Created(bytes, true), attempts + [Attempt(Revert, Success)]).data == bytes
  {
    RevertRestores(Created(bytes, true), attempts);
  }

  // ---------------------------------------------------------------------------
  // The buffer itself.  `memory` says whether the allocation of a call succeeds.

  class MemBlock {
    const transacted: bool
    var current: array?<Byte>
    var original: array?<Byte>
    var cbCurrent: nat
    var cbOriginal: nat
    var cbTotal: nat

    // The allocation is there; it holds the data, and zeros after it.
    ghost predicate Valid()
      reads this, current
    {
      && cbCurrent <= cbTotal == (if current == null then 0 else current.Length)
      && (current != null ==> forall i :: cbCurrent <= i < cbTotal ==> current[i] == 0)
    }

    // The copy to go back to is there.
    ghost predicate Saved()
      reads this, original
    {
      && cbOriginal == (if original == null then 0 else original.Length)
      && (original != null ==> original != current)
    }

    // It stands for b, in what b still holds and keeps.
    ghost predicate Is(b: Block)
      reads this, current, original
    {
      && b.transacted == transacted
      && (b.held ==> Valid() && Data() == b.data)
      && (b.kept ==> Saved() && Kept() == b.saved)
    }

    ghost function Kept(): seq<Byte>
      requires Saved()
      reads this, current, original
    {
      if original == null then [] else original[..]
    }

    ghost function Data(): seq<Byte>
      requires Valid()
      reads this, current
    {
      if current == null then [] else current[..cbCurrent]
    }

    constructor (bytes: seq<Byte>, transacted: bool)
      ensures Is(Created(bytes, transacted)) && this.transacted == transacted
      ensures Valid() && Data() == bytes && Saved() && Kept() == if transacted then bytes else []
      ensures (current == null || fresh(current)) && (original == null || fresh(original))
    {
      this.transacted := transacted;
      cbTotal, cbCurrent, cbOriginal := |bytes|, |bytes|, 0;
      current, original := null, null;
      new;
      if |bytes| == 0 {
        return;
      }
      current := Copy(bytes);
      if !transacted {
        return;
      }
      cbOriginal := |bytes|;
      original := Copy(bytes);
    }

    static method Copy(bytes: seq<Byte>) returns (a: array<Byte>)
      ensures fresh(a) && a[..] == bytes
    {
      a := new Byte[|bytes|](i requires 0 <= i < |bytes| => bytes[i]);
    }

    // realloc: the old bytes as far as they fit, then anything.
    method Realloc(size: nat) returns (a: array<Byte>)
      requires Valid()
      ensures fresh(a) && a.Length == size
      ensures forall i :: 0 <= i < cbTotal && i < size ==> a[i] == current[i]
    {
      a := new Byte[size];
      for i := 0 to size
        modifies a
        invariant forall k :: 0 <= k < i && k < cbTotal ==> a[k] == current[k]
      {
        if i < cbTotal {
          a[i] := current[i];
        }
      }
    }

    static method ZeroFill(a: array<Byte>, start: nat)
      modifies a
      ensures forall i :: 0 <= i < a.Length ==> a[i] == if i < start then old(a[i]) else 0
    {
      var i := start;
      while i < a.Length
        invariant start <= i
        invariant forall k :: 0 <= k < a.Length ==> a[k] == if start <= k < i then 0 else old(a[k])
      {
        a[i] := 0;
        i := i + 1;
      }
    }

    method ReadAt(pos: nat, len: nat) returns (bytes: seq<Byte>)
      requires Valid() && pos <= cbCurrent
      ensures bytes == Data()[pos..if pos + len < |Data()| then pos + len else |Data()|]
    {
      var toRead := cbCurrent - pos;
      toRead := if len < toRead then len else toRead;
      bytes := if current == null then [] else current[pos..pos + toRead];
      assert current != null ==> current[..cbCurrent][pos..pos + toRead] == bytes;
    }

    // Make room for dsize bytes: at least 8k more than there is.
    method Grow(dsize: nat, memory: bool) returns (er: Status)
      requires Valid()
      modifies this`current, this`cbTotal
      ensures Valid() && Data() == old(Data()) && (current == old(current) || fresh(current))
      ensures er == Success ==> dsize <= cbTotal
      ensures cbTotal == old(cbTotal)
              + if er == Success && old(cbTotal) < dsize then (dsize / 8192 + 1) * 8192 else 0
      ensures er == NotEnoughMemory <==> old(cbTotal) < dsize && !memory
    {
      if cbTotal < dsize {
        var newSize := cbTotal + (dsize / MEMBLOCK_SIZE + 1) * MEMBLOCK_SIZE;
        if !memory {
          return NotEnoughMemory;
        }
        var grown := Realloc(newSize);
        ZeroFill(grown, cbTotal);
        current := grown;
        cbTotal := newSize;
      }
      er := Success;
    }

    method WriteAt(pos: nat, bytes: seq<Byte>, memory: bool) returns (er: Status)
      requires Valid()
      modifies this`current, this`cbCurrent, this`cbTotal, current
      ensures Valid() && (current == old(current) || fresh(current))
      ensures Data() == if er == Success then Overwritten(old(Data()), pos, bytes) else old(Data())
      ensures er == NotEnoughMemory <==> old(cbTotal) < pos + |bytes| && !memory
      ensures old(Saved()) ==> Saved() && Kept() == old(Kept())
    {
      hide Overwritten;
      ghost var data := Data();
      var dsize := pos + |bytes|;
      er := Grow(dsize, memory);
      if er != Success {
        return;
      }
      if dsize > cbCurrent {
        cbCurrent := dsize;
      }
      if current != null {
        CopyIn(current, pos, bytes);
      }
      OverwrittenAt(data, pos, bytes, 0);
      forall i | 0 <= i < |Data()|
        ensures Data()[i] == Overwritten(data, pos, bytes)[i]
      {
        OverwrittenAt(data, pos, bytes, i);
      }
      assert Data() == Overwritten(data, pos, bytes);
    }

    static method CopyIn(a: array<Byte>, pos: nat, bytes: seq<Byte>)
      requires pos + |bytes| <= a.Length
      modifies a
      ensures forall k :: 0 <= k < a.Length ==> a[k] == if pos <= k < pos + |bytes| then bytes[k - pos] else old(a[k])
    {
      for i := 0 to |bytes|
        invariant forall k :: 0 <= k < a.Length ==> a[k] == if pos <= k < pos + i then bytes[k - pos] else old(a[k])
      {
        a[pos + i] := bytes[i];
      }
    }

    method SetSize(size: nat, memory: bool) returns (er: Status)
      requires Valid()
      modifies this`current, this`cbCurrent, this`cbTotal
      ensures Valid() && (current == old(current) || current == null || fresh(current))
      ensures Data() == if er == Success then Resized(old(Data()), size) else old(Data())
      ensures er == Success ==> cbTotal == size
      ensures er == NotEnoughMemory <==> !memory && size != 0
      ensures old(Saved()) ==> Saved() && Kept() == old(Kept())
    {
      if size == 0 {
        current, cbCurrent, cbTotal := null, 0, 0;
        assert Data() == Resized(old(Data()), 0);
        return Success;
      }
      if !memory {
        return NotEnoughMemory;
      }
      var resized := Realloc(size);
      if size > cbCurrent {
        ZeroFill(resized, cbCurrent);
      }
      current, cbCurrent, cbTotal := resized, size, size;
      assert Data() == Resized(old(Data()), size);
      er := Success;
    }

    // The old copy goes first, so it is lost if there is no memory for the new one.
    method Commit(memory: bool) returns (er: Status)
      requires transacted ==> Valid()
      modifies this`original, this`cbOriginal
      ensures original == old(original) || original == null || fresh(original)
      ensures !transacted ==> er == Success && original == old(original) && cbOriginal == old(cbOriginal)
      ensures transacted && er == Success ==> Saved() && Kept() == Data()
      ensures er == NotEnoughMemory <==> transacted && !memory
      ensures er == NotEnoughMemory ==> original == null && (Saved() <==> old(cbOriginal) == 0)
    {
      if !transacted {
        return Success;
      }
      original := null;
      if !memory {
        return NotEnoughMemory;
      }
      original := Copy(if current == null then [] else current[..cbCurrent]);
      cbOriginal := cbCurrent;
      er := Success;
    }

    // The content goes first, so it is lost if there is no memory for the old one.  Trying again
    // needs nothing but the copy.
    method Revert(memory: bool) returns (er: Status)
      requires transacted ==> Saved()
      modifies this`current, this`cbCurrent, this`cbTotal
      ensures current == old(current) || current == null || fresh(current)
      ensures !transacted ==>
                er == Success && current == old(current) && cbCurrent == old(cbCurrent) && cbTotal == old(cbTotal)
      ensures transacted && er == Success ==> Valid() && Data() == Kept()
      ensures transacted ==> Saved() && Kept() == old(Kept())
      ensures er == NotEnoughMemory <==> transacted && !memory
      ensures er == NotEnoughMemory ==> current == null && (Valid() <==> old(cbCurrent) == 0 && old(cbTotal) == 0)
    {
      if !transacted {
        return Success;
      }
      current := null;
      if !memory {
        return NotEnoughMemory;
      }
      current := Copy(if original == null then [] else original[..cbOriginal]);
      cbCurrent, cbTotal := cbOriginal, cbOriginal;
      er := Success;
    }

    method GetSize() returns (size: nat)
      requires Valid()
      ensures size == |Data()|
    {
      size := cbCurrent;
    }
  }

  datatype Call = Call(op: Op, memory: bool)

  // A run of calls on a buffer, any of which may run out of memory, is the run on the plain bytes.
  // A call that would need what an earlier one lost is passed over.
  method Perform(block: MemBlock, calls: seq<Call>, ghost start: Block) returns (attempts: seq<Attempt>)
    requires block.Is(start) && start.held && start.kept
    modifies block, block.current
    ensures Runs(start, attempts) && block.Is(Run(start, attempts))
    ensures (forall c :: c in calls ==> c.memory) ==>
              |attempts| == |calls| && forall i :: 0 <= i < |calls| ==> attempts[i] == Attempt(calls[i].op, Success)
  {
    hide After, Run, Runs, MemBlock.Valid, MemBlock.Saved, MemBlock.Data, MemBlock.Kept;
    NothingRun(start);
    attempts := [];
    var held, kept := true, true;
    ghost var b := start;
    for i := 0 to |calls|
      invariant block.Is(b) && b == Run(start, attempts) && Runs(start, attempts)
      invariant held == b.held && kept == b.kept
      invariant block.current == old(block.current) || block.current == null || fresh(block.current)
      invariant (forall c :: c in calls ==> c.memory) ==>
                  && held && kept && |attempts| == i
                  && forall k :: 0 <= k < i ==> attempts[k] == Attempt(calls[k].op, Success)
    {
      assert calls[i] in calls;
      var op := calls[i].op;
      if block.transacted && (if op.Revert? then !kept else if op.Commit? then !held else false) {
        continue;
      }
      if !NoOp(op) && !held {
        continue;
      }
      var er := PerformOne(block, calls[i], b);
      RunsOneMore(start, attempts, Attempt(op, er));
      AfterFlags(b, Attempt(op, er));
      attempts := attempts + [Attempt(op, er)];
      b := After(b, Attempt(op, er));
      if block.transacted {
        kept := if op.Commit? then er == Success else kept;
        held := if op.Revert? then er == Success else held;
      }
    }
  }

  lemma {:induction false} NothingRun(b: Block)
    ensures Runs(b, []) && Run(b, []) == b
  {
  }

  lemma {:induction false} AfterFlags(b: Block, a: Attempt)
    requires a.er == Success || b.transacted || !NoOp(a.op)
    ensures var c := After(b, a);
            && c.transacted == b.transacted
            && c.held == (if b.transacted && a.op.Revert? then a.er == Success else b.held)
            && c.kept == (if b.transacted && a.op.Commit? then a.er == Success else b.kept)
  {
  }

  method PerformOne(block: MemBlock, call: Call, ghost b: Block) returns (er: Status)
    requires block.Is(b) && Usable(b, call.op)
    modifies block, block.current
    ensures block.Is(After(b, Attempt(call.op, er)))
    ensures er != Success ==> !call.memory && (b.transacted || !NoOp(call.op))
    ensures block.current == old(block.current) || block.current == null || fresh(block.current)
  {
    hide Overwritten, Resized;
    match call.op {
      case Write(pos, bytes) => er := block.WriteAt(pos, bytes, call.memory);
      case SetSize(size) => er := block.SetSize(size, call.memory);
      case Commit => er := block.Commit(call.memory);
      case Revert => er := block.Revert(call.memory);
    }
  }

  lemma {:induction false} RunsOneMore(b: Block, attempts: seq<Attempt>, a: Attempt)
    requires Runs(b, attempts) && Usable(Run(b, attempts), a.op)
    requires a.er == Success || Run(b, attempts).transacted || !NoOp(a.op)
    ensures Runs(b, attempts + [a]) && Run(b, attempts + [a]) == After(Run(b, attempts), a)
    decreases |attempts|
  {
    if attempts == [] {
      assert [a][1..] == [] && attempts + [a] == [a];
    } else {
      assert (attempts + [a])[0] == attempts[0] && (attempts + [a])[1..] == attempts[1..] + [a];
      RunsOneMore(After(b, attempts[0]), attempts[1..], a);
    }
  }
}
