/** `basic_pipebuf<char>`: a put area flushed by partial writes and a get area refilled by reads of any
    size, both in place. */
module PipeBuf {
  import opened Wrappers

  /** The pipe's answer to a write of n > 0 characters: it takes between 1 and n of them, or throws. */
  datatype WriteResult = Takes(n: nat) | Throws

  /** The pipe's answer to a read: some characters (none at end-of-file), or an exception. */
  datatype ReadResult = Delivers(chunk: seq<char>) | ReadThrows

  function Taken(offered: nat, n: nat): (k: nat)
    requires offered > 0
    ensures 1 <= k <= offered
  {
    if n == 0 then 1 else if n > offered then offered else n
  }

  /** How many of the pending characters one flush of an open buffer leaves behind. */
  function LeftBehind(pending: nat, w: WriteResult): nat {
    if pending == 0 || w.Throws? then pending else pending - Taken(pending, w.n)
  }

  class PipeBuffer {
    var isOpen: bool
    const write: array<char>
    /** `pptr() - pbase()`; `pbase()` is the start of `write`, `epptr()` its end. */
    var pptr: nat
    const read: array<char>
    /** `gptr()` and `egptr()` as offsets into `read`. */
    var gptr: nat
    var egptr: nat
    /** What the pipe has taken, what it has delivered, and what the reader has consumed. */
    ghost var sent: seq<char>
    ghost var delivered: seq<char>
    ghost var consumed: seq<char>

    ghost predicate Valid()
      reads this, read
    {
      && write != read && write.Length == read.Length > 128
      && pptr <= write.Length
      && gptr <= egptr < read.Length
      && delivered == consumed + read[gptr..egptr]
    }

    function Pending(): seq<char>
      requires pptr <= write.Length
      reads this`pptr, write
    {
      write[..pptr]
    }

    function Available(): seq<char>
      requires gptr <= egptr <= read.Length
      reads this`gptr, this`egptr, read
    {
      read[gptr..egptr]
    }

    constructor (size: nat)
      requires size > 128
      ensures Valid() && isOpen && write.Length == size && fresh(write) && fresh(read)
      ensures Pending() == [] && Available() == [] && sent == delivered == consumed == []
      ensures egptr == 128
    {
      isOpen, pptr, gptr, egptr := true, 0, 128, 128;
      write, read := new char[size], new char[size];
      sent, delivered, consumed := [], [], [];
    }

    // ---- put area -------------------------------------------------------------------------------

    /** `std::move(base + wrt, base + diff, base)`: an overlapping shift to the front. */
    method ShiftDown(wrt: nat, diff: nat)
      requires wrt <= diff <= write.Length
      modifies write
      ensures write[..diff - wrt] == old(write[wrt..diff])
    {
      for j := 0 to diff - wrt
        invariant forall k :: 0 <= k < j ==> write[k] == old(write[k + wrt])
        invariant forall k :: j <= k < write.Length ==> write[k] == old(write[k])
      {
        write[j] := write[j + wrt];
      }
    }

    static lemma Kept(sent: seq<char>, pending: seq<char>, wrt: nat, left: seq<char>)
      requires wrt <= |pending| && left == pending[wrt..]
      ensures (sent + pending[..wrt]) + left == sent + pending
    {
      assert pending == pending[..wrt] + left;
      Associate(sent, pending[..wrt], left);
    }

    /** The pipe has taken `wrt` of the pending characters; the rest moves to the front. */
    method Take(wrt: nat)
      requires Valid() && wrt <= pptr
      modifies this`pptr, this`sent, write
      ensures Valid() && pptr == old(pptr) - wrt
      ensures sent + Pending() == old(sent + Pending()) && old(sent) <= sent
    {
      ghost var pending, before := Pending(), sent;
      var diff := pptr;
      sent := sent + write[..wrt];
      if wrt < diff {
        ShiftDown(wrt, diff);
      }
      pptr := pptr - wrt;
      Kept(before, pending, wrt, write[..pptr]);
    }

    /** `_write_impl`: one write of everything pending; what the pipe did not take moves to the front. */
    method WriteImpl(w: WriteResult) returns (ok: bool, threw: bool)
      requires Valid()
      modifies this`pptr, this`sent, write
      ensures Valid()
      ensures sent + Pending() == old(sent + Pending()) && old(sent) <= sent
      ensures ok == (isOpen && !threw)
      ensures ok && old(pptr) > 0 ==> pptr < old(pptr)
      ensures !ok || old(pptr) == 0 ==> pptr == old(pptr) && sent == old(sent)
      ensures threw <==> isOpen && old(pptr) > 0 && w.Throws?
      ensures isOpen && w.Takes? && old(pptr) > 0 ==> pptr == old(pptr) - Taken(old(pptr), w.n)
    {
      if !isOpen {
        return false, false;
      }
      if pptr == 0 {
        return true, false;
      }
      if w.Throws? {
        return false, true;
      }
      Take(Taken(pptr, w.n));
      return true, false;
    }

    /** `*pptr() = ch; pbump(1);` */
    method Store(ch: char)
      requires Valid() && pptr < write.Length
      modifies this`pptr, write
      ensures Valid() && pptr == old(pptr) + 1 && Pending() == old(Pending()) + [ch]
    {
      write[pptr] := ch;
      pptr := pptr + 1;
    }

    /** `overflow`; `None` is `eof`. The character joins the pending ones exactly if it is returned, or if
        there was room for it and the write that followed threw. `eof` writes what is pending, a character
        is stored and then written with the rest, and a full put area is written before the character is
        stored. */
    method Overflow(ch: Option<char>, w: WriteResult) returns (r: Option<char>, threw: bool)
      requires Valid()
      modifies this`pptr, this`sent, write
      ensures Valid() && old(sent) <= sent
      ensures var stored := ch.Some? && isOpen && (!threw || old(pptr) < write.Length);
              && sent + Pending() == old(sent + Pending()) + (if stored then [ch.value] else [])
              && r == if stored && !threw then ch else None
      ensures threw <==> isOpen && w.Throws? && (ch.Some? || old(pptr) > 0)
      ensures pptr == if !isOpen then old(pptr)
                      else if ch.None? then LeftBehind(old(pptr), w)
                      else if old(pptr) < write.Length then LeftBehind(old(pptr) + 1, w)
                      else LeftBehind(old(pptr), w) + (if threw then 0 else 1)
    {
      threw := false;
      r := None;
      if isOpen && ch.Some? {
        if pptr == write.Length {
          var wr;
          wr, threw := WriteImpl(w);
          if wr {
            Store(ch.value);
            assert sent + Pending() == old(sent + Pending()) + [ch.value];
            r := ch;
          }
        } else {
          Store(ch.value);
          assert sent + Pending() == old(sent + Pending()) + [ch.value];
          var wr;
          wr, threw := WriteImpl(w);
          if wr {
            r := ch;
          }
        }
      } else if ch.None? {
        var result;
        result, threw := Sync(w);
      }
    }

    /** `sync`: 0, or -1 when the pipe is closed. One write that throws gives no result. */
    method Sync(w: WriteResult) returns (r: int, threw: bool)
      requires Valid()
      modifies this`pptr, this`sent, write
      ensures Valid() && old(sent) <= sent && sent + Pending() == old(sent + Pending())
      ensures threw <==> isOpen && old(pptr) > 0 && w.Throws?
      ensures !threw ==> r == if isOpen then 0 else -1
      ensures pptr == if isOpen then LeftBehind(old(pptr), w) else old(pptr)
    {
      var ok;
      ok, threw := WriteImpl(w);
      r := if ok then 0 else -1;
    }

    /** The library's `sputc`: into the put area while there is room, through `overflow` after that. */
    method Put(ch: char, w: WriteResult) returns (r: Option<char>, threw: bool)
      requires Valid()
      modifies this`pptr, this`sent, write
      ensures Valid() && old(sent) <= sent
      ensures sent + Pending() == old(sent + Pending()) + (if r.Some? then [ch] else [])
      ensures r == None || r == Some(ch)
      ensures isOpen && !threw ==> r == Some(ch)
      ensures threw <==> old(pptr) == write.Length && isOpen && w.Throws?
      ensures old(pptr) < write.Length ==> pptr == old(pptr) + 1 && sent == old(sent)
    {
      if pptr < write.Length {
        Store(ch);
        return Some(ch), false;
      }
      r, threw := Overflow(Some(ch), w);
    }

    /** `close` flushes with a single write, so characters are lost exactly when the pipe does not take all
        of them at once (or throws). */
    method Close(w: WriteResult) returns (closed: bool, threw: bool)
      requires Valid()
      modifies this`isOpen, this`pptr, this`sent, write
      ensures Valid() && !isOpen && closed == old(isOpen)
      ensures old(isOpen) ==>
                && sent + Pending() == old(sent + Pending())
                && |Pending()| == LeftBehind(old(pptr), w)
                && (Pending() == [] <==>
                      old(pptr) == 0 || (w.Takes? && Taken(old(pptr), w.n) == old(pptr)))
    {
      if !isOpen {
        return false, false;
      }
      var result;
      result, threw := Sync(w);
      isOpen := false;
      closed := true;
    }

    // ---- get area -------------------------------------------------------------------------------

    /** The pipe's part of a read: it stores what it delivers. */
    method Receive(chunk: seq<char>, at: nat)
      requires at + |chunk| <= read.Length
      modifies read
      ensures read[at..at + |chunk|] == chunk
    {
      for j := 0 to |chunk|
        invariant forall k :: 0 <= k < j ==> read[at + k] == chunk[k]
      {
        read[at + j] := chunk[j];
      }
    }

    /** `underflow`, called as the library does: with an empty get area. `asked` is the length of the read, all
        that is left behind the get area or, when it is at the end, behind the first ten cells. */
    method Underflow(p: ReadResult) returns (r: Option<char>, threw: bool, asked: nat)
      requires Valid() && gptr == egptr
      modifies this`gptr, this`egptr, this`delivered, read
      ensures Valid()
      ensures isOpen ==>
                asked == read.Length - 1 - (if old(egptr) == read.Length - 1 then 10 else old(egptr)) > 0
      ensures consumed == old(consumed)
      ensures var got := if isOpen && p.Delivers? then p.chunk[..Min(asked, |p.chunk|)] else [];
              && delivered == old(delivered) + got && Available() == got
              && r == (if got == [] then None else Some(got[0]))
      ensures threw <==> isOpen && p.ReadThrows?
    {
      if !isOpen {
        return None, false, 0;
      }
      if egptr == read.Length - 1 {
        gptr, egptr := 10, 10;
      }
      var len := read.Length - 1 - egptr;
      if p.ReadThrows? {
        return None, true, len;
      }
      var res := Min(len, |p.chunk|);
      if res == 0 {
        return None, false, len;
      }
      Receive(p.chunk[..res], egptr);
      egptr := egptr + res;
      assert read[gptr..egptr] == p.chunk[..res];
      delivered := delivered + p.chunk[..res];
      r, threw, asked := Some(read[gptr]), false, len;
    }

    /** The library's `sbumpc` on a non-empty get area. */
    method Bump() returns (c: char)
      requires Valid() && Available() != []
      modifies this`gptr, this`consumed
      ensures Valid() && delivered == old(delivered)
      ensures consumed == old(consumed) + [c] && [c] + Available() == old(Available())
    {
      c := read[gptr];
      gptr := gptr + 1;
      consumed := consumed + [c];
    }
  }

  /** What `close` may lose: with `pending` characters, for some answer that throws nothing it leaves any number
      of them from none to all but one, and so it surely flushes exactly when there is at most one. */
  lemma CloseLoses(pending: nat, left: nat)
    ensures (exists w: WriteResult :: w.Takes? && LeftBehind(pending, w) == left) <==> left == 0 || left < pending
    ensures (forall w: WriteResult :: w.Takes? ==> LeftBehind(pending, w) == 0) <==> pending <= 1
  {
    if left == 0 {
      assert LeftBehind(pending, Takes(pending)) == 0;
    } else if left < pending {
      assert LeftBehind(pending, Takes(pending - left)) == left;
    }
    if pending > 1 {
      assert LeftBehind(pending, Takes(1)) == pending - 1;
    }
  }

  // ---- whole sessions -----------------------------------------------------------------------------

  datatype WriteCall = PutChar(ch: char) | OverflowChar(ch: char) | OverflowEof | SyncCall

  /** The character a call carries, if any. */
  function Carried(call: WriteCall): seq<char> {
    if call.PutChar? || call.OverflowChar? then [call.ch] else []
  }

  function Characters(calls: seq<WriteCall>): seq<char> {
    if calls == [] then [] else Characters(calls[..|calls| - 1]) + Carried(calls[|calls| - 1])
  }

  method Perform(b: PipeBuffer, call: WriteCall, w: WriteResult) returns (accepted: seq<char>)
    requires b.Valid()
    modifies b`pptr, b`sent, b.write
    ensures b.Valid() && old(b.sent) <= b.sent
    ensures b.sent + b.Pending() == old(b.sent + b.Pending()) + accepted
    ensures accepted == [] || accepted == Carried(call)
    ensures b.isOpen && w.Takes? ==> accepted == Carried(call)
  {
    var r: Option<char>, threw := None, false;
    match call {
      case PutChar(ch) => r, threw := b.Put(ch, w);
      case OverflowChar(ch) =>
        var room := b.pptr < b.write.Length;
        r, threw := b.Overflow(Some(ch), w);
        if threw && room {
          r := Some(ch);
        }
      case OverflowEof => r, threw := b.Overflow(None, w);
      case SyncCall =>
        var result;
        result, threw := b.Sync(w);
    }
    accepted := if r.Some? then [r.value] else [];
  }

  /** For every sequence of calls and every way the pipe splits the writes: what was taken followed by what
      is pending is what was accepted, in order, and nothing taken is ever taken back. An open pipe
      that does not throw accepts every character. */
  method WriteSession(b: PipeBuffer, calls: seq<WriteCall>, ws: seq<WriteResult>) returns (accepted: seq<char>)
    requires b.Valid() && |ws| == |calls|
    modifies b`pptr, b`sent, b.write
    ensures b.Valid() && old(b.sent) <= b.sent
    ensures b.sent + b.Pending() == old(b.sent + b.Pending()) + accepted
    ensures b.isOpen && (forall i :: 0 <= i < |ws| ==> ws[i].Takes?) ==> accepted == Characters(calls)
  {
    accepted := [];
    for i := 0 to |calls|
      invariant b.Valid() && old(b.sent) <= b.sent
      invariant b.sent + b.Pending() == old(b.sent + b.Pending()) + accepted
      invariant b.isOpen && (forall k :: 0 <= k < i ==> ws[k].Takes?) ==> accepted == Characters(calls[..i])
    {
      assert calls[..i + 1][..i] == calls[..i];
      var more := Perform(b, calls[i], ws[i]);
      accepted := accepted + more;
    }
    assert calls[..|calls|] == calls;
  }

  /** For every way the pipe chops its data, a reader that consumes what `underflow` gives it ends up with
      exactly what was delivered, in order. */
  method ReadSession(b: PipeBuffer, ps: seq<ReadResult>) returns (text: seq<char>)
    requires b.Valid() && b.Available() == []
    modifies b, b.read
    ensures b.Valid() && b.Available() == []
    ensures b.delivered == old(b.delivered) + text && b.consumed == old(b.consumed) + text
  {
    text := [];
    for i := 0 to |ps|
      invariant b.Valid() && b.Available() == []
      invariant b.delivered == old(b.delivered) + text && b.consumed == old(b.consumed) + text
    {
      var r, threw, asked := b.Underflow(ps[i]);
      var more := Drain(b);
      Associate(old(b.delivered), text, more);
      Associate(old(b.consumed), text, more);
      text := text + more;
    }
  }

  /** Consumes the whole get area. */
  method Drain(b: PipeBuffer) returns (text: seq<char>)
    requires b.Valid()
    modifies b`gptr, b`consumed
    ensures b.Valid() && b.Available() == [] && b.delivered == old(b.delivered)
    ensures text == old(b.Available()) && b.consumed == old(b.consumed) + text
  {
    text := [];
    while b.gptr < b.egptr
      invariant b.Valid() && b.delivered == old(b.delivered) && b.egptr == old(b.egptr)
      invariant text + b.Available() == old(b.Available())
      invariant b.consumed == old(b.consumed) + text
      decreases b.egptr - b.gptr
    {
      ghost var done, rest := text, b.Available();
      var c := b.Bump();
      text := text + [c];
      Associate(done, [c], b.Available());
      Associate(old(b.consumed), done, [c]);
    }
  }
}
