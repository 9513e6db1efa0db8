/** The device under a connection and the two 2048-byte buffers over it (src/io.c, src/trfb.h). */
module BufferedIo {
  import opened Words

  const BUFSIZ := 2048
  const EOF := 0xffff

  // ---------------------------------------------------------------------------------------
  // The device
  // ---------------------------------------------------------------------------------------

  /** What one call of the device does. A chunk moves between 1 byte and everything asked for. */
  datatype Response = Chunk(n: nat) | Timeout | Failure

  /**
   * A device that behaves as its contract says and otherwise as it likes: the scripts fix, call
   * by call, how it answers; a script that has run out is a closed connection.
   */
  class Device {
    var inbox: seq<byte>
    var recvs: seq<Response>
    var outbox: seq<byte>
    var sends: seq<Response>
    /** A call has failed; set by every failing call and by nothing else. */
    ghost var broken: bool

    constructor (inbox: seq<byte>, recvs: seq<Response>, sends: seq<Response>)
      ensures this.inbox == inbox && this.recvs == recvs && this.sends == sends && outbox == [] && !broken
    {
      this.inbox, this.recvs, this.sends, outbox := inbox, recvs, sends, [];
      broken := false;
    }

    method Recv(buf: array<byte>) returns (l: int)
      modifies this`inbox, this`recvs, this`broken, buf
      ensures l == Received(old(recvs), |old(inbox)|, buf.Length) && broken == (old(broken) || l == -1)
      ensures recvs == if old(recvs) == [] then [] else old(recvs)[1..]
      ensures l <= 0 ==> inbox == old(inbox)
      ensures l > 0 ==> old(inbox) == buf[..l] + inbox
      ensures buf[if l > 0 then l else 0..] == old(buf[..])[if l > 0 then l else 0..]
    {
      if recvs == [] {
        broken := true;
        return -1;
      }
      var r := recvs[0];
      recvs := recvs[1..];
      if r.Timeout? {
        return 0;
      }
      if r.Failure? || inbox == [] || buf.Length == 0 {
        broken := true;
        return -1;
      }
      var n := Clamp(r.n, if |inbox| < buf.Length then |inbox| else buf.Length);
      forall k | 0 <= k < n {
        buf[k] := inbox[k];
      }
      assert inbox == inbox[..n] + inbox[n..];
      inbox := inbox[n..];
      l := n;
    }

    method Send(buf: array<byte>, len: nat) returns (l: int)
      requires 0 < len <= buf.Length
      modifies this`outbox, this`sends, this`broken
      ensures l == Sent(old(sends), len) && broken == (old(broken) || l == -1)
      ensures sends == if old(sends) == [] then [] else old(sends)[1..]
      ensures outbox == old(outbox) + buf[..if l > 0 then l else 0]
    {
      if sends == [] {
        broken := true;
        return -1;
      }
      var r := sends[0];
      sends := sends[1..];
      if r.Timeout? {
        return 0;
      }
      if r.Failure? {
        broken := true;
        return -1;
      }
      l := Clamp(r.n, len);
      outbox := outbox + buf[..l];
    }
  }

  function Clamp(n: nat, len: nat): (m: nat)
    requires len > 0
    ensures 1 <= m <= len && (1 <= n <= len ==> m == n)
  {
    if n < 1 then 1 else if n > len then len else n
  }

  /** The answer of a device with this script to a request for up to `room` of `available` bytes. */
  function Received(recvs: seq<Response>, available: nat, room: nat): (l: int)
    ensures -1 <= l <= room
    ensures l == 0 <==> recvs != [] && recvs[0].Timeout?
    ensures l == -1 <==> recvs == [] || recvs[0].Failure? || (recvs[0].Chunk? && (available == 0 || room == 0))
    ensures recvs != [] && recvs[0].Chunk? && 1 <= recvs[0].n <= available && recvs[0].n <= room ==> l == recvs[0].n
  {
    if recvs == [] || recvs[0].Failure? then -1
    else if recvs[0].Timeout? then 0
    else if available == 0 || room == 0 then -1
    else Clamp(recvs[0].n, if available < room then available else room)
  }

  /** The answer of a device with this script to a request to send `len` bytes. */
  function Sent(sends: seq<Response>, len: nat): (l: int)
    requires len > 0
    ensures -1 <= l <= len
    ensures l == 0 <==> sends != [] && sends[0].Timeout?
    ensures l == -1 <==> sends == [] || sends[0].Failure?
    ensures sends != [] && sends[0].Chunk? && 1 <= sends[0].n <= len ==> l == sends[0].n
  {
    if sends == [] || sends[0].Failure? then -1
    else if sends[0].Timeout? then 0
    else Clamp(sends[0].n, len)
  }

  /** The device never takes part of what it is given. */
  predicate WholeSends(sends: seq<Response>) {
    forall r | r in sends && r.Chunk? :: r.n >= BUFSIZ
  }

  /** A device that is offered something answers 0 only for a timeout. */
  lemma TimeoutOnly(sends: seq<Response>, len: nat)
    requires len > 0
    ensures Sent(sends, len) == 0 <==> sends != [] && sends[0].Timeout?
    ensures sends == [] ==> Sent(sends, len) < 0
  {
  }

  /** `left` is what a script has become. */
  predicate Remains(left: seq<Response>, script: seq<Response>) {
    |left| <= |script| && left == script[|script| - |left|..]
  }

  /** The last answer given was a timeout. */
  predicate TimedOut(left: seq<Response>, script: seq<Response>) {
    |left| < |script| && script[|script| - |left| - 1].Timeout?
  }

  lemma NoAnswer(script: seq<Response>)
    ensures Remains(script, script) && !TimedOut(script, script)
  {
  }

  lemma OneAnswer(left: seq<Response>, script: seq<Response>)
    requires Remains(left, script) && left != []
    ensures Remains(left[1..], script)
    ensures TimedOut(left[1..], script) <==> left[0].Timeout?
  {
  }

  // ---------------------------------------------------------------------------------------
  // What is left in the write buffer after a partial send
  // ---------------------------------------------------------------------------------------

  /**
   * The source moves the front of the buffer up by `n`; moving the remainder down to the front
   * is what a partial send needs.
   */
  datatype Shift = AsWritten | Down

  function Remainder(shift: Shift, pending: seq<byte>, n: nat): (r: seq<byte>)
    requires n <= |pending|
    ensures |r| == |pending| - n
  {
    match shift
    case Down => pending[n..]
    case AsWritten =>
      seq(|pending| - n, k requires 0 <= k < |pending| - n => if k < n then pending[k] else pending[k - n])
  }

  predicate HasPeriod(s: seq<byte>, n: nat) {
    forall k | 0 <= k < |s| - n :: s[k + n] == s[k]
  }

  /** The source's move is right exactly when the bytes repeat with the length of what was sent. */
  lemma {:induction false} PartialSendExact(pending: seq<byte>, n: nat)
    requires 0 < n <= |pending|
    ensures Remainder(AsWritten, pending, n) == Remainder(Down, pending, n) <==> HasPeriod(pending, n)
  {
    var moved, due := Remainder(AsWritten, pending, n), Remainder(Down, pending, n);
    if HasPeriod(pending, n) {
      forall k | 0 <= k < |due|
        ensures moved[k] == due[k]
      {
        assert due[k] == pending[k + n] == pending[k];
        if k >= n {
          assert pending[(k - n) + n] == pending[k - n];
        }
      }
      assert moved == due;
    }
    if moved == due {
      forall k | 0 <= k < |due|
        ensures pending[k + n] == pending[k]
      {
        PeriodFrom(pending, n, k);
      }
    }
  }

  lemma {:induction false} PeriodFrom(pending: seq<byte>, n: nat, k: nat)
    requires 0 < n <= |pending| && k < |pending| - n
    requires Remainder(AsWritten, pending, n) == Remainder(Down, pending, n)
    ensures pending[k + n] == pending[k]
    decreases k
  {
    assert Remainder(AsWritten, pending, n)[k] == Remainder(Down, pending, n)[k] == pending[k + n];
    if k >= n {
      PeriodFrom(pending, n, k - n);
    }
  }

  /** Two different bytes and a send that takes one of them: the source repeats the first. */
  lemma PartialSendCounterexample()
    ensures Remainder(AsWritten, [1, 2], 1) == [1]
    ensures Remainder(Down, [1, 2], 1) == [2]
  {
  }

  /** A partial send after which the move keeps the wrong bytes. */
  predicate Harms(shift: Shift, pending: seq<byte>, n: int) {
    0 < n <= |pending| && shift == AsWritten && !HasPeriod(pending, n)
  }

  /** What was sent and what the move keeps are all that was pending exactly if it does no harm. */
  lemma KeptExact(shift: Shift, pending: seq<byte>, n: nat)
    requires 0 < n <= |pending|
    ensures pending[..n] + Remainder(shift, pending, n) == pending <==> !Harms(shift, pending, n)
  {
    hide HasPeriod;
    var kept := Remainder(shift, pending, n);
    assert pending == pending[..n] + pending[n..];
    if pending[..n] + kept == pending {
      assert kept == (pending[..n] + kept)[n..];
    }
    if shift == AsWritten {
      PartialSendExact(pending, n);
    }
  }

  /** A device that takes all or nothing gives no occasion for harm. */
  lemma WholeIsHarmless(shift: Shift, sends: seq<Response>, pending: seq<byte>)
    requires 0 < |pending| <= BUFSIZ && WholeSends(sends)
    ensures !Harms(shift, pending, Sent(sends, |pending|))
  {
    var n := Sent(sends, |pending|);
    if n > 0 {
      assert sends[0] in sends;
      assert n == |pending|;
    }
  }

  /** What one send of the pending bytes does to what is on its way. */
  lemma PushFacts(shift: Shift, sends: seq<Response>, pending: seq<byte>, out: seq<byte>)
    requires 0 < |pending| <= BUFSIZ
    ensures var n := Sent(sends, |pending|);
            && (n <= 0 || shift == Down || WholeSends(sends) ==> !Harms(shift, pending, n))
            && (n > 0 ==> ((out + pending[..n]) + Remainder(shift, pending, n) == out + pending
              <==> !Harms(shift, pending, n)))
    ensures WholeSends(sends) && sends != [] ==> WholeSends(sends[1..])
  {
    var n := Sent(sends, |pending|);
    if n > 0 {
      var sent := pending[..n] + Remainder(shift, pending, n);
      KeptExact(shift, pending, n);
      assert (out + pending[..n]) + Remainder(shift, pending, n) == out + sent;
      if out + sent == out + pending {
        assert sent == (out + sent)[|out|..] && pending == (out + pending)[|out|..];
      }
    }
    if WholeSends(sends) {
      WholeIsHarmless(shift, sends, pending);
    }
  }

  lemma Assoc(a: seq<byte>, b: seq<byte>, c: seq<byte>)
    ensures (a + b) + c == a + (b + c)
  {
  }

  lemma Joined(s: array<byte>, a: nat, b: nat, c: nat)
    requires a <= b <= c <= s.Length
    ensures s[a..c] == s[a..b] + s[b..c]
  {
  }

  // ---------------------------------------------------------------------------------------
  // The buffers
  // ---------------------------------------------------------------------------------------

  class Io {
    const device: Device
    const shift: Shift
    const rbuf: array<byte>
    const wbuf: array<byte>
    var rpos: nat
    var rlen: nat
    var wlen: nat
    /** Every byte ever accepted for the peer, in order. */
    ghost var accepted: seq<byte>
    /** A move has done harm; set by such a move and by nothing else. */
    ghost var garbled: bool
    /** No move can: moves are repaired, or the device takes all or nothing. */
    ghost const lossless: bool

    ghost predicate Shaped()
      reads this
    {
      && rbuf.Length == BUFSIZ && wbuf.Length == BUFSIZ && rbuf != wbuf
      && rpos <= rlen <= BUFSIZ && wlen <= BUFSIZ
    }

    /** Unless a move has done harm, what was sent and what is buffered is what was accepted. */
    ghost predicate Valid()
      reads this, wbuf, device
      ensures Valid() ==> Shaped()
    {
      && Shaped()
      && |Outgoing()| == |accepted|
      && (!garbled ==> Outgoing() == accepted)
      && (lossless ==> !garbled && (shift == Down || WholeSends(device.sends)))
    }

    /** What the peer has got, then what is buffered for it. */
    ghost function Outgoing(): seq<byte>
      requires wlen <= wbuf.Length
      reads this, wbuf, device
    {
      device.outbox + wbuf[..wlen]
    }

    /** Everything the peer has sent, or will send, that has not been handed out. */
    ghost function Unread(): seq<byte>
      requires Shaped()
      reads this, rbuf, device
    {
      rbuf[rpos..rlen] + device.inbox
    }

    constructor (device: Device, shift: Shift)
      requires device.outbox == []
      ensures Valid() && fresh(rbuf) && fresh(wbuf)
      ensures this.device == device && this.shift == shift
      ensures lossless <==> shift == Down || WholeSends(device.sends)
      ensures rpos == rlen == wlen == 0 && accepted == [] && !garbled
      ensures rbuf.Length == 2048 && wbuf.Length == 2048
    {
      this.device, this.shift := device, shift;
      rbuf := new byte[BUFSIZ](_ => 0);
      wbuf := new byte[BUFSIZ](_ => 0);
      rpos, rlen, wlen := 0, 0, 0;
      accepted, garbled := [], false;
      lossless := shift == Down || WholeSends(device.sends);
    }

    /** Hand out up to `len` bytes; ask the device only when the buffer is used up. */
    method Read(buf: array<byte>, off: nat, len: int) returns (l: int)
      requires Valid() && buf != rbuf && buf != wbuf && (len >= 0 ==> off + len <= buf.Length)
      modifies this`rpos, this`rlen, rbuf, device`inbox, device`recvs, device`broken, buf
      ensures Valid() && -1 <= l && (l == -1 || l <= len) && (len < 0 ==> l == -1)
      ensures l == -1 ==> Unread() == old(Unread()) && buf[..] == old(buf[..])
      ensures l >= 0 ==> old(Unread()) == buf[off..off + l] + Unread()
      ensures l >= 0 ==> buf[..off] == old(buf[..off]) && buf[off + l..] == old(buf[off + l..])
      ensures |device.recvs| <= |old(device.recvs)|
      ensures l == 0 && len > 0 ==> |device.recvs| < |old(device.recvs)|
      ensures old(rpos < rlen) ==> device.recvs == old(device.recvs)
      ensures 0 <= l < len ==> rpos == rlen
      ensures device.broken == (old(device.broken) || (len >= 0 && l == -1))
    {
      if len < 0 {
        return -1;
      }
      if rpos >= rlen {
        l := Fill();
        if l <= 0 {
          return;
        }
      }
      l := Take(buf, off, len);
    }

    /** Ask the device for more once everything buffered has been handed out. */
    method Fill() returns (l: int)
      requires Valid() && rpos >= rlen
      modifies this`rpos, this`rlen, rbuf, device`inbox, device`recvs, device`broken
      ensures Valid() && -1 <= l && Unread() == old(Unread())
      ensures |device.recvs| <= |old(device.recvs)| && (l == 0 ==> |device.recvs| < |old(device.recvs)|)
      ensures l > 0 ==> rpos < rlen
      ensures l <= 0 ==> rpos == old(rpos) && rlen == old(rlen)
      ensures device.broken == (old(device.broken) || l == -1)
    {
      l := device.Recv(rbuf);
      if l > 0 {
        rpos, rlen := 0, l;
      }
    }

    /** Hand out what is buffered, up to `len` bytes. */
    method Take(buf: array<byte>, off: nat, len: nat) returns (l: nat)
      requires Valid() && buf != rbuf && buf != wbuf && off + len <= buf.Length
      modifies this`rpos, this`rlen, buf
      ensures Valid() && l <= len && (l == 0 <==> len == 0 || old(rpos == rlen)) && (l < len ==> rpos == rlen)
      ensures old(Unread()) == buf[off..off + l] + Unread()
      ensures buf[..off] == old(buf[..off]) && buf[off + l..] == old(buf[off + l..])
    {
      l := rlen - rpos;
      if l > len {
        l := len;
      }
      CopyOut(buf, off, l);
      assert Unread() == rbuf[rpos..rpos + l] + (rbuf[rpos + l..rlen] + device.inbox);
      rpos := rpos + l;
      if rpos == rlen {
        rpos, rlen := 0, 0;
      }
    }

    /** The block copy to the caller's buffer. */
    method CopyOut(buf: array<byte>, off: nat, l: nat)
      requires Shaped() && buf != rbuf && off + l <= buf.Length && rpos + l <= rlen
      modifies buf
      ensures buf[off..off + l] == rbuf[rpos..rpos + l]
      ensures buf[..off] == old(buf[..off]) && buf[off + l..] == old(buf[off + l..])
    {
      var from := rpos;
      ghost var source := rbuf[from..from + l];
      forall k | off <= k < off + l {
        buf[k] := rbuf[from + (k - off)];
      }
      ghost var target := buf[off..off + l];
      forall k | 0 <= k < l
        ensures target[k] == source[k]
      {
        assert buf[off + k] == rbuf[from + k];
      }
      assert target == source;
    }

    /** Offer the buffer to the device once. Timeouts and an empty buffer both give 0. */
    method Flush() returns (r: int)
      requires Valid()
      modifies this`wlen, this`accepted, this`garbled, wbuf, device`outbox, device`sends, device`broken
      ensures Valid()
      ensures device.broken == (old(device.broken) || r == -1) && -1 <= r
      ensures old(wlen) == 0 ==> r == 0 && wlen == 0
      ensures old(wlen) == 0 ==> device.sends == old(device.sends) && device.outbox == old(device.outbox)
      ensures old(wlen) > 0 ==>
                var pending, n := old(wbuf[..wlen]), Sent(old(device.sends), old(wlen));
                && (n < 0 ==> r == -1 && wbuf[..wlen] == pending && device.outbox == old(device.outbox))
                && (n == 0 ==> r == 0 && wbuf[..wlen] == pending && device.outbox == old(device.outbox))
                && (n > 0 ==> r == wlen && wbuf[..wlen] == Remainder(shift, pending, n)
                              && device.outbox == old(device.outbox) + pending[..n])
                && device.sends == if old(device.sends) == [] then [] else old(device.sends)[1..]
      ensures accepted == old(accepted)
      ensures garbled == (old(garbled) || FlushHarms(old(wbuf[..wlen]), old(device.sends)))
      ensures Outgoing() == old(Outgoing()) <==> !FlushHarms(old(wbuf[..wlen]), old(device.sends))
    {
      if wlen == 0 {
        return 0;
      }
      hide Remainder, WholeSends, Harms, Sent;
      r := Push();
    }

    method Push() returns (r: int)
      requires Valid() && wlen > 0
      modifies this`wlen, this`accepted, this`garbled, wbuf, device`outbox, device`sends, device`broken
      ensures Valid()
      ensures device.broken == (old(device.broken) || r == -1) && -1 <= r
      ensures device.sends == if old(device.sends) == [] then [] else old(device.sends)[1..]
      ensures var pending, n := old(wbuf[..wlen]), Sent(old(device.sends), old(wlen));
              && (n <= 0 ==> r == n && wlen == old(wlen) && wbuf[..wlen] == pending)
              && (n <= 0 ==> device.outbox == old(device.outbox))
              && (n > 0 ==> r == wlen && wbuf[..wlen] == Remainder(shift, pending, n)
                            && device.outbox == old(device.outbox) + pending[..n])
      ensures accepted == old(accepted)
      ensures garbled == (old(garbled) || Harms(shift, old(wbuf[..wlen]), Sent(old(device.sends), old(wlen))))
      ensures Outgoing() == old(Outgoing()) <==> !Harms(shift, old(wbuf[..wlen]), Sent(old(device.sends), old(wlen)))
    {
      hide Remainder, WholeSends, Harms, Sent;
      ghost var pending, out := wbuf[..wlen], device.outbox;
      PushFacts(shift, device.sends, pending, out);
      r := device.Send(wbuf, wlen);
      if r > 0 {
        garbled := garbled || Harms(shift, pending, r);
        Forget(r);
        r := wlen;
      }
    }

    /** Flushing `pending` to a device with this script does harm. */
    ghost predicate FlushHarms(pending: seq<byte>, sends: seq<Response>) {
      pending != [] && Harms(shift, pending, Sent(sends, |pending|))
    }

    /** Drop the `n` bytes that were sent and move the others to the front. */
    method Forget(n: nat)
      requires Shaped() && n <= wlen
      modifies this`wlen, wbuf
      ensures Shaped() && wlen == old(wlen) - n
      ensures wbuf[..wlen] == Remainder(shift, old(wbuf[..wlen]), n)
    {
      if n < wlen {
        var rest := wlen - n;
        MoveRest(n, rest);
        wlen := rest;
      } else {
        wlen := 0;
      }
    }

    /** memmove of the bytes that are still due, with the source's arguments or the other way. */
    method MoveRest(n: nat, rest: nat)
      requires Shaped() && n + rest <= BUFSIZ
      modifies wbuf
      ensures wbuf[..rest] == Remainder(shift, old(wbuf[..n + rest]), n)
    {
      ghost var pending := wbuf[..n + rest];
      match shift
      case Down =>
        forall k | 0 <= k < rest {
          wbuf[k] := wbuf[k + n];
        }
      case AsWritten =>
        forall k | n <= k < n + rest {
          wbuf[k] := wbuf[k - n];
        }
    }

    /**
     * Accept a prefix of `len` bytes. On an error a prefix may have been accepted all the same;
     * `took` is its length.
     */
    method Write(buf: array<byte>, off: nat, len: int) returns (l: int, ghost took: nat)
      requires Valid() && buf != wbuf && (len >= 0 ==> off + len <= buf.Length)
      modifies this`wlen, this`accepted, this`garbled, wbuf, device`outbox, device`sends, device`broken
      ensures Valid() && -1 <= l && (l == -1 || l == took <= len) && (len < 0 ==> l == -1 && took == 0)
      ensures len >= 0 ==> took <= len
      ensures l == -1 && len > 0 ==> took < len
      ensures accepted == old(accepted) + if len >= 0 then buf[off..off + took] else []
      ensures garbled == (old(garbled) || (len >= 0
              && WriteHarms(old(wbuf[..wlen]), buf[off..off + len], old(device.sends))))
      ensures |device.sends| <= |old(device.sends)|
      ensures l == 0 && len > 0 ==> |device.sends| < |old(device.sends)|
      ensures 0 <= l < len ==> wlen == BUFSIZ
      ensures device.broken == (old(device.broken) || (len >= 0 && l == -1))
    {
      if len < 0 {
        return -1, 0;
      }
      l, took := Offer(buf, off, len);
    }

    /** Writing does harm if it has to flush, and the flush of the full buffer does. */
    ghost predicate WriteHarms(pending: seq<byte>, data: seq<byte>, sends: seq<Response>)
      requires |pending| <= BUFSIZ
    {
      var room := BUFSIZ - |pending|;
      && |data| >= room && !(|data| == room > 0)
      && FlushHarms(pending + data[..room], sends)
    }

    method Offer(buf: array<byte>, off: nat, len: nat) returns (l: int, ghost took: nat)
      requires Valid() && buf != wbuf && off + len <= buf.Length
      modifies this`wlen, this`accepted, this`garbled, wbuf, device`outbox, device`sends, device`broken
      ensures Valid() && took <= len && (l == took || (l == -1 && (len > 0 ==> took < len)))
      ensures accepted == old(accepted) + buf[off..off + took]
      ensures garbled == (old(garbled) || WriteHarms(old(wbuf[..wlen]), buf[off..off + len], old(device.sends)))
      ensures |device.sends| <= |old(device.sends)|
      ensures l == 0 && len > 0 ==> |device.sends| < |old(device.sends)|
      ensures 0 <= l < len ==> wlen == BUFSIZ
      ensures device.broken == (old(device.broken) || l == -1)
    {
      hide FlushHarms, WriteHarms, Valid;
      ghost var pending, data := wbuf[..wlen], buf[off..off + len];
      WriteFlushes(pending, data, device.sends);
      var pos := 0;
      if wlen < BUFSIZ {
        pos := Append(buf, off, len);
        if pos == len {
          return len, len;
        }
      }
      took := pos;
      assert data[..pos] == buf[off..off + pos];
      assert wbuf[..wlen] == pending + data[..pos];
      var more := FlushAndAppend(buf, off + pos, len - pos);
      if more < 0 {
        return -1, took;
      }
      Joined(buf, off, off + pos, off + pos + more);
      Assoc(old(accepted), buf[off..off + pos], buf[off + pos..off + pos + more]);
      l := pos + more;
      took := l;
    }

    /** Writing flushes if the buffer is full, or does not take all. */
    lemma WriteFlushes(pending: seq<byte>, data: seq<byte>, sends: seq<Response>)
      requires |pending| <= BUFSIZ
      ensures var room := BUFSIZ - |pending|;
              if room > 0 && |data| <= room then !WriteHarms(pending, data, sends)
              else WriteHarms(pending, data, sends) <==> FlushHarms(pending + data[..room], sends)
    {
      hide FlushHarms;
    }

    method FlushAndAppend(buf: array<byte>, off: nat, len: nat) returns (l: int)
      requires Valid() && buf != wbuf && off + len <= buf.Length
      requires wlen > 0
      modifies this`wlen, this`accepted, this`garbled, wbuf, device`outbox, device`sends, device`broken
      ensures Valid() && -1 <= l <= len
      ensures accepted == old(accepted) + buf[off..if l >= 0 then off + l else off]
      ensures garbled == (old(garbled) || FlushHarms(old(wbuf[..wlen]), old(device.sends)))
      ensures |device.sends| <= |old(device.sends)|
      ensures l == 0 && len > 0 ==> |device.sends| < |old(device.sends)|
      ensures 0 <= l < len ==> wlen == BUFSIZ
      ensures device.broken == (old(device.broken) || l == -1)
    {
      hide FlushHarms, Outgoing, WholeSends, Remainder, Sent;
      TimeoutOnly(device.sends, wlen);
      var r := Flush();
      if r < 0 {
        return -1;
      }
      l := 0;
      if wlen < BUFSIZ {
        l := Append(buf, off, len);
      }
    }

    /** Copy what fits behind the buffered bytes. */
    method Append(buf: array<byte>, off: nat, len: nat) returns (l: nat)
      requires Valid() && buf != wbuf && off + len <= buf.Length
      modifies this`wlen, this`accepted, wbuf
      ensures Valid() && l == if len < BUFSIZ - old(wlen) then len else BUFSIZ - old(wlen)
      ensures wlen == old(wlen) + l && wbuf[..wlen] == old(wbuf[..wlen]) + buf[off..off + l]
      ensures accepted == old(accepted) + buf[off..off + l]
    {
      l := BUFSIZ - wlen;
      if l > len {
        l := len;
      }
      var at := wlen;
      forall k | at <= k < at + l {
        wbuf[k] := buf[off + (k - at)];
      }
      ghost var more := buf[off..off + l];
      assert wbuf[..at + l] == old(wbuf[..wlen]) + more;
      Assoc(device.outbox, old(wbuf[..wlen]), more);
      wlen := wlen + l;
      accepted := accepted + more;
    }

    /** One byte, or EOF on a timeout or an error. */
    method Fgetc() returns (c: int)
      requires Valid()
      modifies this`rpos, this`rlen, rbuf, device`inbox, device`recvs, device`broken
      ensures Valid() && (0 <= c < 256 || c == EOF == 0xffff)
      ensures c == EOF ==> Unread() == old(Unread()) && (device.broken || |device.recvs| < |old(device.recvs)|)
      ensures c != EOF ==> old(Unread()) == [c as byte] + Unread()
    {
      var cell := new byte[1];
      var r := Read(cell, 0, 1);
      c := EOF;
      if r == 1 {
        c := cell[0] as int;
        assert cell[0..1] == [c as byte];
      }
    }

    /** The macro in front of Fgetc: it advances and never resets the positions. */
    method Getc() returns (c: int)
      requires Valid()
      modifies this`rpos, this`rlen, rbuf, device`inbox, device`recvs, device`broken
      ensures Valid() && (0 <= c < 256 || c == EOF == 0xffff)
      ensures c == EOF ==> Unread() == old(Unread()) && (device.broken || |device.recvs| < |old(device.recvs)|)
      ensures c != EOF ==> old(Unread()) == [c as byte] + Unread()
    {
      if rpos < rlen {
        c := rbuf[rpos] as int;
        rpos := rpos + 1;
      } else {
        c := Fgetc();
      }
    }

    method Fputc(c: byte) returns (r: int)
      requires Valid()
      modifies this`wlen, this`accepted, this`garbled, wbuf, device`outbox, device`sends, device`broken
      ensures Valid() && (r == 1 || r == EOF == 0xffff)
      ensures accepted == if r == EOF then old(accepted) else old(accepted) + [c]
      ensures garbled == (old(garbled) || (old(wlen) == BUFSIZ && FlushHarms(old(wbuf[..wlen]), old(device.sends))))
      ensures r == EOF ==> device.broken || |device.sends| < |old(device.sends)|
    {
      var cell := new byte[1](_ => c);
      ghost var took;
      var l;
      l, took := Write(cell, 0, 1);
      r := if l == 1 then 1 else EOF;
      assert cell[0..1] == [c];
      assert cell[0..0] == [];
      assert old(wbuf[..wlen]) + cell[0..1][..0] == old(wbuf[..wlen]);
    }

    /** The macro in front of Fputc: on the short way its value is the byte itself. */
    method Putc(c: byte) returns (r: int)
      requires Valid()
      modifies this`wlen, this`accepted, this`garbled, wbuf, device`outbox, device`sends, device`broken
      ensures Valid() && (r == EOF == 0xffff || 0 <= r < 256)
      ensures r == EOF ==> device.broken || |device.sends| < |old(device.sends)|
      ensures accepted == if r == EOF then old(accepted) else old(accepted) + [c]
      ensures garbled == (old(garbled) || (old(wlen) == BUFSIZ && FlushHarms(old(wbuf[..wlen]), old(device.sends))))
    {
      if wlen < BUFSIZ {
        wbuf[wlen] := c;
        assert wbuf[..wlen + 1] == old(wbuf[..wlen]) + [c];
        Assoc(device.outbox, old(wbuf[..wlen]), [c]);
        wlen := wlen + 1;
        accepted := accepted + [c];
        r := c as int;
      } else {
        r := Fputc(c);
      }
    }
  }
}
