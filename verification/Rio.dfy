/** The buffered reader of csapp.c against the raw stream behind it: whatever the pattern of
    short reads and interruptions, the bytes and the outcome are the stream's. */
module Rio {
  import opened ByteTypes

  const RIO_BUFSIZE := 8192
  const NEWLINE: Byte := 10

  /** What a read of the descriptor can bring; when there are no more events it is at its end. */
  datatype Event = Data(bytes: Bytes) | Interrupted | EndOfFile | Failure

  datatype End = AtEof | AtError

  /** The bytes that come before the next end of file or error. */
  function Flow(script: seq<Event>): Bytes {
    if script == [] then []
    else
      match script[0]
      case Data(d) => d + Flow(script[1..])
      case Interrupted => Flow(script[1..])
      case _ => []
  }

  /** Which of the two it is. */
  function EndOf(script: seq<Event>): End {
    if script == [] then AtEof
    else
      match script[0]
      case EndOfFile => AtEof
      case Failure => AtError
      case _ => EndOf(script[1..])
  }

  /** What comes behind it. */
  function Behind(script: seq<Event>): seq<Event> {
    if script == [] then []
    else if script[0].EndOfFile? || script[0].Failure? then script[1..]
    else Behind(script[1..])
  }

  ghost predicate ScriptOk(script: seq<Event>) {
    forall i :: 0 <= i < |script| && script[i].Data? ==> script[i].bytes != []
  }

  lemma Shorter(script: seq<Event>)
    requires ScriptOk(script) && script != []
    ensures ScriptOk(script[1..])
  {}

  /** Taking the first n bytes of the data at the front. */
  lemma PartOfData(d: Bytes, rest: seq<Event>, n: nat)
    requires n < |d|
    ensures Flow([Data(d)] + rest) == d[..n] + Flow([Data(d[n..])] + rest)
    ensures EndOf([Data(d[n..])] + rest) == EndOf([Data(d)] + rest) &&
            Behind([Data(d[n..])] + rest) == Behind([Data(d)] + rest)
  {
    var a, b := [Data(d)] + rest, [Data(d[n..])] + rest;
    assert a[1..] == rest && b[1..] == rest;
    assert d == d[..n] + d[n..];
  }

  /** An open descriptor. */
  class Descriptor {
    var script: seq<Event>
    var interrupted: bool            // errno == EINTR

    constructor (script: seq<Event>)
      ensures this.script == script
    {
      this.script, interrupted := script, false;
    }

    /** read: at most size bytes of what is there; 0 at the end of the file, -1 on an error. */
    method Read(buf: array<Byte>, size: nat) returns (n: int)
      requires ScriptOk(script) && 0 < size <= buf.Length
      modifies this, buf
      ensures ScriptOk(script)
      ensures n > 0 ==> n <= size && Flow(old(script)) == buf[..n] + Flow(script) &&
                        EndOf(script) == EndOf(old(script)) && Behind(script) == Behind(old(script))
      ensures n == 0 ==> Flow(old(script)) == [] && EndOf(old(script)) == AtEof && script == Behind(old(script))
      ensures n < 0 && interrupted ==>
        |script| < |old(script)| && Flow(script) == Flow(old(script)) && EndOf(script) == EndOf(old(script)) &&
        Behind(script) == Behind(old(script))
      ensures n < 0 && !interrupted ==>
        Flow(old(script)) == [] && EndOf(old(script)) == AtError && script == Behind(old(script))
    {
      interrupted := false;
      if script == [] {
        return 0;
      }
      Shorter(script);
      ghost var script0 := script;
      match script[0]
      case Interrupted =>
        interrupted := true;
        script := script[1..];
        n := -1;
      case EndOfFile =>
        script := script[1..];
        n := 0;
      case Failure =>
        script := script[1..];
        n := -1;
      case Data(d) =>
        n := if |d| < size then |d| else size;
        for i := 0 to n
          modifies buf
          invariant buf[..i] == d[..i]
        {
          buf[i] := d[i];
        }
        assert script0 == [Data(d)] + script0[1..];
        if n < |d| {
          PartOfData(d, script[1..], n);
          script := [Data(d[n..])] + script[1..];
        } else {
          assert d[..n] == d;
          script := script[1..];
        }
    }
  }

  class Reader {
    const fd: Descriptor
    const buf: array<Byte>           // rio_buf
    var cnt: int                     // rio_cnt
    var bufptr: nat                  // rio_bufptr, as an index

    ghost predicate Valid()
      reads this, fd
    {
      buf.Length == RIO_BUFSIZE && ScriptOk(fd.script) && (cnt > 0 ==> bufptr + cnt <= RIO_BUFSIZE)
    }

    /** The unread bytes in the internal buffer. */
    ghost function Unread(): Bytes
      reads this, fd, buf
      requires Valid()
    {
      if cnt > 0 then buf[bufptr..bufptr + cnt] else []
    }

    /** Everything still to be delivered before the stream's next end. */
    ghost function Rest(): Bytes
      reads this, fd, buf
      requires Valid()
    {
      Unread() + Flow(fd.script)
    }

    /** The stream still has rest to deliver before an end of this kind. */
    ghost predicate Has(rest: Bytes, end: End, behind: seq<Event>)
      reads this, fd, buf
    {
      Valid() && Rest() == rest && EndOf(fd.script) == end && Behind(fd.script) == behind
    }

    /** The end has been met. */
    ghost predicate Past(behind: seq<Event>)
      reads this, fd, buf
    {
      Valid() && fd.script == behind && Unread() == []
    }

    /** rio_readinitb. */
    constructor (fd: Descriptor)
      requires ScriptOk(fd.script)
      ensures Valid() && Rest() == Flow(fd.script) && fresh(buf) && this.fd == fd
    {
      this.fd := fd;
      buf := new Byte[RIO_BUFSIZE](_ => 0);
      cnt, bufptr := 0, 0;
    }

    /** The refill loop of rio_read: r is 0 at the end of the file, -1 on an error, and 1 when
        there are bytes in the buffer. */
    method Refill() returns (r: int)
      requires Valid()
      modifies this, fd, buf
      ensures Valid() && -1 <= r <= 1
      ensures old(cnt) > 0 ==> r == 1 && fd.script == old(fd.script)
      ensures r == 1 ==> cnt > 0 && old(Rest()) != [] && Has(old(Rest()), EndOf(old(fd.script)), Behind(old(fd.script)))
      ensures r == 0 ==> old(Rest()) == [] && EndOf(old(fd.script)) == AtEof && Past(Behind(old(fd.script)))
      ensures r == -1 ==> old(Rest()) == [] && EndOf(old(fd.script)) == AtError && Past(Behind(old(fd.script)))
    {
      while cnt <= 0
        invariant Valid() && Rest() == old(Rest()) && (cnt > 0 ==> bufptr == 0 || cnt == old(cnt))
        invariant old(cnt) > 0 ==> cnt > 0 && fd.script == old(fd.script)
        invariant EndOf(fd.script) == EndOf(old(fd.script)) && Behind(fd.script) == Behind(old(fd.script))
        decreases if cnt > 0 then 0 else |fd.script| + 1
      {
        cnt := fd.Read(buf, RIO_BUFSIZE);
        if cnt < 0 {
          if !fd.interrupted {
            return -1;
          }
        } else if cnt == 0 {
          return 0;
        } else {
          bufptr := 0;
        }
      }
      r := 1;
    }

    /** rio_read: the next bytes of the stream, at least one if any is wanted, or its end. */
    method Read(usrbuf: array<Byte>, at: nat, n: nat) returns (r: int)
      requires Valid() && at + n <= usrbuf.Length && usrbuf != buf
      modifies this, fd, buf, usrbuf
      ensures Valid() && -1 <= r <= n
      ensures r >= 0 && old(Rest()) != [] ==>
        (n > 0 ==> r > 0) && r <= |old(Rest())| && Has(old(Rest())[r..], EndOf(old(fd.script)),
        Behind(old(fd.script))) &&
        usrbuf[..at + r] == old(usrbuf[..at]) + old(Rest())[..r]
      ensures r >= 0 && old(Rest()) != [] ==> r == n || Unread() == []
      ensures old(cnt) > 0 ==> fd.script == old(fd.script)
      ensures r < 0 ==> old(Rest()) == []
      ensures old(Rest()) == [] ==>
        r == (if EndOf(old(fd.script)) == AtEof then 0 else -1) && Past(Behind(old(fd.script))) &&
        usrbuf[..] == old(usrbuf[..])
    {
      var refilled := Refill();
      if refilled != 1 {
        return refilled;
      }
      r := TakeBuffered(usrbuf, at, n);
    }

    /** rio_read's memcpy: min (n, rio_cnt) bytes out of the internal buffer. */
    method TakeBuffered(usrbuf: array<Byte>, at: nat, n: nat) returns (r: nat)
      requires Valid() && cnt > 0 && at + n <= usrbuf.Length && usrbuf != buf
      modifies this, usrbuf
      ensures Valid() && r <= n && (n > 0 ==> r > 0) && r <= |old(Rest())| &&
              Has(old(Rest())[r..], EndOf(old(fd.script)), Behind(old(fd.script)))
      ensures usrbuf[..at + r] == old(usrbuf[..at]) + old(Rest())[..r]
      ensures r == n || Unread() == []
    {
      r := if cnt < n then cnt else n;
      ghost var unread, flow, b, p, c := Unread(), Flow(fd.script), buf[..], bufptr, cnt;
      var chunk := buf[bufptr..bufptr + r];
      assert chunk == unread[..r];
      CopyTo(usrbuf, at, chunk);
      bufptr := bufptr + r;
      cnt := cnt - r;
      hide Flow, EndOf, Behind;
      TakeFront(unread, flow, r);
      assert buf[..] == b;
      SliceOfSlice(b, p, c, r);
      assert Unread() == unread[r..];
    }

    /** rio_readnb: the next n bytes of the stream, all that is left before the end of the
        file, or -1 when an error comes first. */
    method ReadN(usrbuf: array<Byte>, n: nat) returns (r: int)
      requires Valid() && n <= usrbuf.Length && usrbuf != buf
      modifies this, fd, buf, usrbuf
      ensures Valid()
      ensures n <= |old(Rest())| ==>
              r == n && n <= |old(Rest())| && Has(old(Rest())[n..], EndOf(old(fd.script)), Behind(old(fd.script)))
      ensures n > |old(Rest())| ==> r == if EndOf(old(fd.script)) == AtEof then |old(Rest())| else -1
      ensures n > |old(Rest())| ==> Past(Behind(old(fd.script)))
      ensures r >= 0 ==> r <= usrbuf.Length && r <= |old(Rest())| && usrbuf[..r] == old(Rest())[..r]
    {
      ghost var rest, end, behind := Rest(), EndOf(fd.script), Behind(fd.script);
      ghost var left := rest;
      var done, nread := 0, 1;
      assert Has(left, end, behind) && Prefix(usrbuf[..], rest, 0) && IsRest(rest, 0, left);
      hide Has, Past, Prefix;
      while done < n && nread > 0
        invariant 0 <= done <= n && nread >= -1 && Prefix(usrbuf[..], rest, done) && IsRest(rest, done, left)
        invariant nread > 0 ==> Has(left, end, behind)
        invariant nread <= 0 ==>
                  done < n && left == [] && end == (if nread == 0 then AtEof else AtError) && Past(behind)
        decreases n - done, nread
      {
        nread := ReadSome(usrbuf, done, n - done, rest, left, end, behind);
        if nread > 0 {
          StillRest(rest, done, left, nread);
          done, left := done + nread, left[nread..];
        }
      }
      ReadDone(usrbuf[..], rest, done, left, end, behind, nread);
      if nread < 0 {
        return -1;
      }
      r := done;
    }

    lemma ReadDone(b: Bytes, rest: Bytes, done: nat, left: Bytes, end: End, behind: seq<Event>, nread: int)
      requires Prefix(b, rest, done) && IsRest(rest, done, left) && nread >= -1
      requires nread > 0 ==> Has(left, end, behind)
      requires nread <= 0 ==> left == [] && Past(behind)
      ensures Valid() && done <= |b| && done <= |rest| && b[..done] == rest[..done]
      ensures nread > 0 ==> Rest() == rest[done..] && EndOf(fd.script) == end && Behind(fd.script) == behind
      ensures nread <= 0 ==> done == |rest| && fd.script == behind && Unread() == []
    {}

    /** rio_read of up to n bytes behind the first at. */
    method ReadSome(usrbuf: array<Byte>, at: nat, n: nat, ghost rest: Bytes, ghost left: Bytes, ghost end: End,
                    ghost behind: seq<Event>)
      returns (r: int)
      requires Has(left, end, behind) && 0 < n && at + n <= usrbuf.Length && usrbuf != buf
      requires IsRest(rest, at, left) && Prefix(usrbuf[..], rest, at)
      modifies this, fd, buf, usrbuf
      ensures -1 <= r <= n
      ensures r > 0 ==> r <= |left| && Has(left[r..], end, behind) && Prefix(usrbuf[..], rest, at + r)
      ensures r == 0 ==> left == [] && end == AtEof && Past(behind)
      ensures r == -1 ==> left == [] && end == AtError && Past(behind)
      ensures r <= 0 ==> Prefix(usrbuf[..], rest, at)
    {
      ghost var b0 := usrbuf[..at];
      r := Read(usrbuf, at, n);
      hide Flow, EndOf, Behind;
      if r > 0 {
        PrefixMore(usrbuf[..], b0, rest, at, left, r);
      }
    }

    /** rio_readlineb: the bytes up to the first newline, or maxlen - 1 of them, or all that is
        left before the end of the file, with a null byte behind them; -1 when an error comes
        first. */
    method ReadLine(usrbuf: array<Byte>, maxlen: nat) returns (r: int)
      requires Valid() && maxlen <= usrbuf.Length && 0 < usrbuf.Length && usrbuf != buf
      modifies this, fd, buf, usrbuf
      ensures Valid()
      ensures var rest, max := old(Rest()), if maxlen == 0 then 0 else maxlen - 1;
              var k := Line(rest, max);
              if Complete(rest, k, max)
                  then r == k && k <= |old(Rest())| && Has(old(Rest())[k..], EndOf(old(fd.script)),
                  Behind(old(fd.script)))
              else r == (if EndOf(old(fd.script)) == AtEof then k else -1) && Past(Behind(old(fd.script)))
      ensures 0 <= r ==> r < usrbuf.Length && r <= |old(Rest())| && usrbuf[..r] == old(Rest())[..r]
      ensures 0 < r || (r == 0 && maxlen <= 1) ==> r < usrbuf.Length && usrbuf[r] == 0
    {
      ghost var rest := Rest();
      var at, rc := FillLine(usrbuf, maxlen, rest, EndOf(fd.script), Behind(fd.script));
      LineDone(usrbuf[..], rest, EndOf(old(fd.script)), Behind(old(fd.script)), at, if maxlen == 0 then 0
          else maxlen - 1, rc);
      hide *;
      if rc < 0 {
        return -1;
      }
      if rc == 0 && at == 0 {
        return 0;
      }
      usrbuf[at] := 0;
      r := at;
    }

    /** rio_read of one byte into a local variable. */
    method ReadByte(ghost rest: Bytes, ghost end: End, ghost behind: seq<Event>) returns (rc: int, c: Byte)
      requires Has(rest, end, behind)
      modifies this, fd, buf
      ensures -1 <= rc <= 1
      ensures rc == 1 ==> rest != [] && c == rest[0] && Has(rest[1..], end, behind)
      ensures rc == 0 ==> rest == [] && end == AtEof && Past(behind)
      ensures rc == -1 ==> rest == [] && end == AtError && Past(behind)
    {
      var one := new Byte[1](_ => 0);
      hide Flow, EndOf, Behind;
      rc := Read(one, 0, 1);
      assert one[..1] == [one[0]] && one[..0] == [];
      c := one[0];
    }

    /** The loop of rio_readlineb: at bytes of the line, and how the last read went. */
    method FillLine(usrbuf: array<Byte>, maxlen: nat, ghost rest: Bytes, ghost end: End, ghost behind: seq<Event>)
      returns (at: nat, rc: int)
      requires Has(rest, end, behind) && maxlen <= usrbuf.Length && 0 < usrbuf.Length && usrbuf != buf
      modifies this, fd, buf, usrbuf
      ensures -1 <= rc <= 1 && at < usrbuf.Length && Outcome(rest, end, behind, at, if maxlen == 0 then 0
              else maxlen - 1, rc)
      ensures Prefix(usrbuf[..], rest, at)
    {
      at, rc := 0, 1;
      var max := if maxlen == 0 then 0 else maxlen - 1;
      ghost var left := rest;
      var newline := false;
      LineStart(rest, max, usrbuf[..]);
      hide *;
      while at < max && rc == 1 && !newline
        invariant at <= max && -1 <= rc <= 1 && Prefix(usrbuf[..], rest, at)
        invariant rc == 1 && !newline ==> LineSoFar(rest, at, left, max) && Has(left, end, behind)
        invariant rc != 1 || newline ==> Outcome(rest, end, behind, at, max, rc)
        decreases max - at, rc
      {
        rc, newline := LineByte(usrbuf, at, max, rest, left, end, behind);
        if rc == 1 {
          at, left := at + 1, left[1..];
        }
      }
      if rc == 1 && !newline {
        Finished(rest, at, left, end, behind);
      }
    }

    /** One turn of the loop. */
    method LineByte(usrbuf: array<Byte>, at: nat, max: nat, ghost rest: Bytes, ghost left: Bytes, ghost end: End,
                    ghost behind: seq<Event>)
      returns (rc: int, newline: bool)
      requires LineSoFar(rest, at, left, max) && Has(left, end, behind) && at < max < usrbuf.Length && usrbuf != buf
      requires Prefix(usrbuf[..], rest, at)
      modifies this, fd, buf, usrbuf
      ensures -1 <= rc <= 1 && (rc == 1 ==> left != [])
      ensures Prefix(usrbuf[..], rest, if rc == 1 then at + 1 else at)
      ensures rc == 1 && !newline ==> LineSoFar(rest, at + 1, left[1..], max) && Has(left[1..], end, behind)
      ensures rc == 1 && newline ==> Outcome(rest, end, behind, at + 1, max, 1)
      ensures rc != 1 ==> Outcome(rest, end, behind, at, max, rc)
    {
      LineStop(rest, at, left, max);
      var c;
      rc, c := ReadByte(left, end, behind);
      newline := false;
      if rc == 1 {
        LineNext(rest, at, left, max);
        usrbuf[at] := c;
        newline := c == NEWLINE;
      }
      hide Line, Has, Past;
    }

    /** at bytes of the line are there, and it is complete or the stream has met its end. */
    ghost predicate Outcome(rest: Bytes, end: End, behind: seq<Event>, at: nat, max: nat, rc: int)
      reads this, fd, buf
    {
      at == Line(rest, max) && (rc == 1 <==> Complete(rest, at, max)) &&
      if rc == 1 then Has(rest[at..], end, behind) else end == (if rc == 0 then AtEof else AtError) && Past(behind)
    }

    lemma LineDone(b: Bytes, rest: Bytes, end: End, behind: seq<Event>, at: nat, max: nat, rc: int)
      requires Outcome(rest, end, behind, at, max, rc) && Prefix(b, rest, at) && -1 <= rc <= 1
      ensures Valid() && at == Line(rest, max) && at <= |b| && at <= |rest| && b[..at] == rest[..at]
      ensures rc == 1 <==> Complete(rest, at, max)
      ensures if rc == 1 then Has(rest[at..], end, behind)
              else end == (if rc == 0 then AtEof else AtError) && Past(behind)
    {}

    lemma Finished(rest: Bytes, max: nat, left: Bytes, end: End, behind: seq<Event>)
      requires LineSoFar(rest, max, left, max) && Has(left, end, behind)
      ensures Outcome(rest, end, behind, max, max, 1)
    {}
  }

  ghost predicate IsRest(rest: Bytes, at: nat, left: Bytes) {
    at <= |rest| && left == rest[at..]
  }

  lemma StillRest(rest: Bytes, at: nat, left: Bytes, n: nat)
    requires IsRest(rest, at, left) && n <= |left|
    ensures IsRest(rest, at + n, left[n..])
  {}

  lemma PrefixMore(b: Bytes, b0: Bytes, rest: Bytes, at: nat, left: Bytes, n: nat)
    requires IsRest(rest, at, left) && n <= |left| && at + n <= |b| && b[..at + n] == b0 + left[..n] && |b0| == at
    requires Prefix(b0, rest, at)
    ensures Prefix(b, rest, at + n)
  {
    forall k | 0 <= k < at + n
      ensures b[k] == rest[k]
    {
      assert b[k] == b[..at + n][k];
    }
  }

  /** The first n bytes are the same. */
  ghost predicate Prefix(a: Bytes, b: Bytes, n: nat) {
    n <= |a| && n <= |b| && forall k :: 0 <= k < n ==> a[k] == b[k]
  }

  /** After at bytes the line goes on, with left in front of it. */
  ghost predicate LineSoFar(rest: Bytes, at: nat, left: Bytes, max: nat) {
    at <= |rest| && at <= max && left == rest[at..] && Line(rest, max) == at + Line(left, max - at) &&
    (at > 0 ==> rest[at - 1] != NEWLINE)
  }

  lemma LineStart(rest: Bytes, max: nat, b: Bytes)
    ensures LineSoFar(rest, 0, rest, max) && Prefix(b, rest, 0)
  {}

  lemma LineNext(rest: Bytes, at: nat, left: Bytes, max: nat)
    requires LineSoFar(rest, at, left, max) && at < max && left != []
    ensures at < |rest| && left[0] == rest[at]
    ensures if rest[at] == 10
            then Line(rest, max) == at + 1 && Complete(rest, at + 1, max) && left[1..] == rest[at + 1..]
            else LineSoFar(rest, at + 1, left[1..], max)
  {
    assert left[1..] == rest[at + 1..];
  }

  lemma LineStop(rest: Bytes, at: nat, left: Bytes, max: nat)
    requires LineSoFar(rest, at, left, max) && at < max
    ensures left == [] ==> Line(rest, max) == at && !Complete(rest, at, max)
  {}

  /** How many bytes of the stream a line of at most max bytes takes. */
  function Line(rest: Bytes, max: nat): (k: nat)
    ensures k <= max && k <= |rest|
  {
    if max == 0 || rest == [] then 0 else if rest[0] == NEWLINE then 1 else 1 + Line(rest[1..], max - 1)
  }

  /** The line was not cut short by the end of the stream. */
  predicate Complete(rest: Bytes, k: nat, max: nat) {
    k == max || (0 < k <= |rest| && rest[k - 1] == NEWLINE)
  }

  /** A line is what comes before and including the first newline, up to its length. */
  lemma {:induction false} LineEndsAtNewline(rest: Bytes, max: nat)
    ensures var k := Line(rest, max);
            (forall i :: 0 <= i < k - 1 ==> rest[i] != NEWLINE) &&
            (k < max && k < |rest| ==> k > 0 && rest[k - 1] == NEWLINE)
  {
    if max > 0 && rest != [] && rest[0] != NEWLINE {
      LineEndsAtNewline(rest[1..], max - 1);
      assert forall i :: 0 < i < |rest| ==> rest[i] == rest[1..][i - 1];
    }
  }

  lemma TakeFront(a: Bytes, b: Bytes, n: nat)
    requires n <= |a|
    ensures (a + b)[..n] == a[..n] && (a + b)[n..] == a[n..] + b
  {}

  lemma SliceOfSlice(b: Bytes, p: nat, c: nat, n: nat)
    requires p + c <= |b| && n <= c
    ensures b[p..p + c][n..] == b[p + n..p + c]
  {}
}
