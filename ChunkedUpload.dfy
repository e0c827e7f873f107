/**
  The resumable upload of `OneDriveConnector.post_file`: an upload session is
  created, then the file is sent in PUT requests of at most ten mebibytes, each
  with a `Content-Range: bytes first-last/complete` header (section 14.4 of
  RFC 9110), and the cursor moves according to the status of each reply.

  The network is replaced by its answers: the status of the session request
  and a finite script of PUT replies. The file is its content, a byte sequence;
  the read position of the open file is a number that only moves forward.
 */
module ChunkedUpload {
  import opened Text

  /** The fixed chunk size of `post_file`, 10 MiB. */
  const ChunkSize: nat := 10485760

  /**
    How a call ended, as its Python caller sees it. `Pending` is the model's
    own: the reply script ran out while `post_file` would still be sending.
   */
  datatype Outcome = ReturnsTrue | ReturnsFalse | ReturnsNone | Raises | Pending {
    /** Python truthiness of the returned value (`None` is falsy). */
    predicate Truthy() {
      this == ReturnsTrue
    }
  }

  /** A reply to one PUT: its status and, for 202, the `nextExpectedRanges` strings of its JSON body. */
  datatype Reply = Reply(status: int, nextExpectedRanges: seq<string>)

  /** The byte range of a `Content-Range` header: `bytes first-last/complete`. */
  datatype ByteRange = ByteRange(first: nat, last: nat, complete: nat)

  /** One PUT of the upload: its `Content-Length`, its `Content-Range` and the bytes of its body. */
  datatype Put = Put(contentLength: nat, range: ByteRange, body: seq<bv8>)

  /** The PUTs sent, in order, and how the call ended. */
  datatype Trace = Trace(puts: seq<Put>, outcome: Outcome)

  /** The `Content-Range` header value, `bytes {start}-{end}/{file_size}`. */
  function ContentRange(r: ByteRange): string {
    "bytes " + NatToString(r.first) + "-" + NatToString(r.last) + "/" + NatToString(r.complete)
  }

  /** Reads a `Content-Range` header value of the form `bytes first-last/complete`. */
  function ParseContentRange(h: string): Option<ByteRange> {
    if |h| < 6 || h[..6] != "bytes " then None
    else
      var slash := Split(h[6..], '/');
      if |slash| != 2 then None
      else
        var dash := Split(slash[0], '-');
        if |dash| != 2 then None
        else
          match (ParseNat(dash[0]), ParseNat(dash[1]), ParseNat(slash[1]))
          case (Some(first), Some(last), Some(complete)) => Some(ByteRange(first, last, complete))
          case _ => None
  }

  /** Every header this upload sends can be read back into the range it was made from. */
  lemma ContentRangeRoundTrip(r: ByteRange)
    ensures ParseContentRange(ContentRange(r)) == Some(r)
  {
    var a, b, c := NatToString(r.first), NatToString(r.last), NatToString(r.complete);
    var h := ContentRange(r);
    assert h[..6] == "bytes ";
    assert h[6..] == (a + "-" + b) + ['/'] + c;
    DigitsExclude(a, '/');
    DigitsExclude(b, '/');
    DigitsExclude(c, '/');
    DigitsExclude(a, '-');
    DigitsExclude(b, '-');
    assert '/' !in a + "-" + b;
    SplitAtFirstSeparator(a + "-" + b, '/', c);
    SplitWithoutSeparator(c, '/');
    SplitAtFirstSeparator(a, '-', b);
    SplitWithoutSeparator(b, '-');
    ParseNatToString(r.first);
    ParseNatToString(r.last);
    ParseNatToString(r.complete);
  }

  /** A range that section 14.4 of RFC 9110 calls satisfiable for a representation of `size` bytes. */
  predicate Satisfiable(r: ByteRange, size: nat) {
    r.first <= r.last < r.complete == size
  }

  /** The end of the chunk that starts at `start`: `min(start + chunk_size - 1, file_size - 1)`. */
  function NextEnd(start: nat, size: nat): (last: int)
    ensures start < size ==>
      start <= last < size && last - start + 1 == if start + ChunkSize <= size then ChunkSize else size - start
  {
    if start + ChunkSize - 1 < size then start + ChunkSize - 1 else size - 1
  }

  /** `f.read(n)` on a file whose read position is `pos`: at most `n` bytes, fewer at the end. */
  function Read(data: seq<bv8>, pos: nat, n: nat): (chunk: seq<bv8>)
    requires pos <= |data|
    ensures |chunk| == if pos + n <= |data| then n else |data| - pos
  {
    if pos + n <= |data| then data[pos..pos + n] else data[pos..]
  }

  /**
    `response.status_code / 100 == 5`. Python's `/` is true division, so the
    test holds for 500 alone, not for every 5xx status.
   */
  function IsServerError(status: int): (r: bool)
    ensures r <==> status == 500
  {
    (status as real) / 100.0 == 5.0
  }

  /**
    `int(ranges[0].split('-')[1])`: the field after the first `-` of the first
    expected range, read as a decimal. `None` where Python raises (no range,
    no `-`, or a field that is not a number, as in the open range `"26-"`).
   */
  function UpperField(ranges: seq<string>): (upper: Option<nat>)
    ensures upper.Some? ==> |ranges| > 0 && Count('-', ranges[0]) >= 1
  {
    if |ranges| == 0 then None
    else
      var fields := Split(ranges[0], '-');
      SplitCount(ranges[0], '-');
      if |fields| < 2 then None else ParseNat(fields[1])
  }

  /** The text of a closed range `a-b`, as the server reports it. */
  function RangeText(a: nat, b: nat): string {
    NatToString(a) + "-" + NatToString(b)
  }

  /** For a closed range `a-b` the cursor reads the upper bound `b`. */
  lemma UpperFieldOfClosedRange(a: nat, b: nat, more: seq<string>)
    ensures UpperField([RangeText(a, b)] + more) == Some(b)
  {
    DigitsExclude(NatToString(a), '-');
    DigitsExclude(NatToString(b), '-');
    SplitAtFirstSeparator(NatToString(a), '-', NatToString(b));
    SplitWithoutSeparator(NatToString(b), '-');
    ParseNatToString(b);
  }

  /** For an open range `a-` the upper field is empty and `int('')` raises. */
  lemma UpperFieldOfOpenRange(a: nat, more: seq<string>)
    ensures UpperField([NatToString(a) + "-"] + more) == None
  {
    DigitsExclude(NatToString(a), '-');
    SplitAtFirstSeparator(NatToString(a), '-', "");
    assert Split("", '-') == [""];
    assert ([NatToString(a) + "-"] + more)[0] == NatToString(a) + "-" + "";
  }

  /** `prefix` sent before the trace `t`. */
  function Then(prefix: seq<Put>, t: Trace): Trace {
    Trace(prefix + t.puts, t.outcome)
  }

  /** The PUT sent from cursor `start` when the file's read position is `pos`. */
  function NextPut(data: seq<bv8>, start: nat, pos: nat): Put
    requires start < |data| && pos <= |data|
  {
    var last := NextEnd(start, |data|);
    var dataLen := last - start + 1;
    Put(dataLen, ByteRange(start, last, |data|), Read(data, pos, dataLen))
  }

  /**
    The chunk loop from cursor `start`, with the file's read position at `pos`.
    The loop's `end` is always `NextEnd(start, |data|)`, so it is not carried.
   */
  function SendFrom(data: seq<bv8>, start: nat, pos: nat, replies: seq<Reply>): (t: Trace)
    requires pos <= |data|
    ensures |t.puts| <= |replies|
    decreases |replies|, 1
  {
    if start >= |data| then Trace([], ReturnsNone)
    else if replies == [] then Trace([], Pending)
    else
      var put := NextPut(data, start, pos);
      Then([put], React(data, start, pos + |put.body|, replies[0], replies[1..]))
  }

  /** What the loop does with `reply` to the PUT from `start`; `pos` is the read position after that PUT. */
  function React(data: seq<bv8>, start: nat, pos: nat, reply: Reply, replies: seq<Reply>): (t: Trace)
    requires pos <= |data|
    ensures |t.puts| <= |replies|
    ensures t.outcome == ReturnsNone ==> reply.status == 202 || reply.status == 500
    decreases |replies| + 1, 0
  {
    if reply.status == 202 then
      match UpperField(reply.nextExpectedRanges)
      case None => Trace([], Raises)
      case Some(upper) => SendFrom(data, upper + 1, pos, replies)
    else if reply.status == 201 then Trace([], ReturnsTrue)
    else if IsServerError(reply.status) then SendFrom(data, start, pos, replies)
    else if reply.status == 200 then Trace([], ReturnsTrue)
    else Trace([], ReturnsFalse)
  }

  /** `post_file` as a whole: no PUT unless the session request answered 200. */
  function Transfer(data: seq<bv8>, sessionStatus: int, replies: seq<Reply>): (t: Trace)
    ensures |t.puts| <= |replies|
    ensures sessionStatus != 200 ==> t.puts == [] && !t.outcome.Truthy()
  {
    if sessionStatus != 200 then Trace([], ReturnsFalse) else SendFrom(data, 0, 0, replies)
  }

  /** The cursor the loop goes on from after `reply` to the PUT from `start`; `None` when the loop ends. */
  function Resume(reply: Reply, start: nat): Option<nat> {
    if reply.status == 202 && UpperField(reply.nextExpectedRanges).Some? then
      Some(UpperField(reply.nextExpectedRanges).value + 1)
    else if reply.status == 500 then Some(start)
    else None
  }

  lemma SendFromOnReply(data: seq<bv8>, start: nat, pos: nat, reply: Reply, replies: seq<Reply>)
    requires start < |data| && pos <= |data|
    ensures var put := NextPut(data, start, pos);
      SendFrom(data, start, pos, [reply] + replies) == Then([put], React(data, start, pos + |put.body|, reply, replies))
  {
    assert ([reply] + replies)[0] == reply && ([reply] + replies)[1..] == replies;
  }

  lemma ReactResumes(data: seq<bv8>, start: nat, pos: nat, reply: Reply, replies: seq<Reply>)
    requires pos <= |data|
    ensures Resume(reply, start).Some? ==>
      React(data, start, pos, reply, replies) == SendFrom(data, Resume(reply, start).value, pos, replies)
    ensures Resume(reply, start).None? ==> React(data, start, pos, reply, replies).puts == []
  {
  }

  /** A PUT as `post_file` builds it: a satisfiable range, `Content-Length` its length, at most one chunk. */
  predicate WellFormed(p: Put, size: nat) {
    Satisfiable(p.range, size) &&
    p.contentLength == p.range.last - p.range.first + 1 <= ChunkSize &&
    p.range.last == NextEnd(p.range.first, size)
  }

  /** Every PUT the loop sends stays inside the file and inside one chunk. */
  lemma {:induction false} SendFromWellFormed(data: seq<bv8>, start: nat, pos: nat, replies: seq<Reply>)
    requires pos <= |data|
    ensures var t := SendFrom(data, start, pos, replies);
      forall k | 0 <= k < |t.puts| :: WellFormed(t.puts[k], |data|)
    decreases |replies|
  {
    if start < |data| && replies != [] {
      var put := NextPut(data, start, pos);
      var pos' := pos + |put.body|;
      var next := Resume(replies[0], start);
      var rest := React(data, start, pos', replies[0], replies[1..]);
      ReactResumes(data, start, pos', replies[0], replies[1..]);
      if next.Some? {
        SendFromWellFormed(data, next.value, pos', replies[1..]);
      }
      var t := SendFrom(data, start, pos, replies);
      assert t.puts == [put] + rest.puts;
      forall k | 0 <= k < |t.puts| ensures WellFormed(t.puts[k], |data|) {
        if k > 0 {
          assert t.puts[k] == rest.puts[k - 1];
        }
      }
    }
  }

  /** The bytes sent, all bodies in order. */
  function Sent(puts: seq<Put>): seq<bv8> {
    if puts == [] then [] else puts[0].body + Sent(puts[1..])
  }

  /** `p` carries what `f.read(p.contentLength)` returns when the read position is `at`. */
  predicate ReadAt(data: seq<bv8>, at: nat, p: Put) {
    at <= |data| && p.body == Read(data, at, p.contentLength)
  }

  /**
    Each PUT carries what `f.read` returns at the read position the PUTs
    before it left, the first reading at `pos`.
   */
  predicate ReadsOn(data: seq<bv8>, pos: nat, puts: seq<Put>)
    decreases |puts|
  {
    if puts == [] then pos <= |data|
    else ReadAt(data, pos, puts[0]) && ReadsOn(data, pos + |puts[0].body|, puts[1..])
  }

  /** Bodies read one after the other add up to one contiguous stretch of the file. */
  lemma {:induction false} ReadsOnSent(data: seq<bv8>, pos: nat, puts: seq<Put>)
    requires ReadsOn(data, pos, puts)
    ensures pos + |Sent(puts)| <= |data| && Sent(puts) == data[pos..pos + |Sent(puts)|]
    decreases |puts|
  {
    if puts != [] {
      var next := pos + |puts[0].body|;
      assert puts[0].body == data[pos..next];
      ReadsOnSent(data, next, puts[1..]);
      assert data[pos..next + |Sent(puts[1..])|] == data[pos..next] + data[next..next + |Sent(puts[1..])|];
    }
  }

  /** The `k`-th of the PUTs reads where the bodies before it end. */
  lemma {:induction false} ReadsOnReadAt(data: seq<bv8>, pos: nat, puts: seq<Put>, k: nat)
    requires ReadsOn(data, pos, puts) && k < |puts|
    ensures ReadAt(data, pos + |Sent(puts[..k])|, puts[k])
    decreases k
  {
    if k == 0 {
      assert puts[..k] == [];
    } else {
      ReadsOnReadAt(data, pos + |puts[0].body|, puts[1..], k - 1);
      assert puts[..k][0] == puts[0] && puts[..k][1..] == puts[1..][..k - 1];
    }
  }

  lemma {:induction false} SendFromReadsOn(data: seq<bv8>, start: nat, pos: nat, replies: seq<Reply>)
    requires pos <= |data|
    ensures ReadsOn(data, pos, SendFrom(data, start, pos, replies).puts)
    decreases |replies|
  {
    if start < |data| && replies != [] {
      var put := NextPut(data, start, pos);
      var pos' := pos + |put.body|;
      var next := Resume(replies[0], start);
      var rest := React(data, start, pos', replies[0], replies[1..]);
      ReactResumes(data, start, pos', replies[0], replies[1..]);
      var t := SendFrom(data, start, pos, replies);
      assert t.puts == [put] + rest.puts && t.puts[1..] == rest.puts;
      if next.Some? {
        SendFromReadsOn(data, next.value, pos', replies[1..]);
      }
    }
  }

  /** The bytes sent are the file read once, front to back, from the read position `pos`. */
  lemma SendFromSendsConsecutiveBytes(data: seq<bv8>, start: nat, pos: nat, replies: seq<Reply>)
    requires pos <= |data|
    ensures var t := SendFrom(data, start, pos, replies);
      pos + |Sent(t.puts)| <= |data| && Sent(t.puts) == data[pos..pos + |Sent(t.puts)|]
  {
    SendFromReadsOn(data, start, pos, replies);
    ReadsOnSent(data, pos, SendFrom(data, start, pos, replies).puts);
  }

  /**
    The `k`-th PUT carries the next `Content-Length` bytes from the file's read
    position, which every earlier PUT advanced, a retried one and one after a
    202 that moved the cursor elsewhere included.
   */
  lemma SendFromReadsOnward(data: seq<bv8>, start: nat, pos: nat, replies: seq<Reply>, k: nat)
    requires pos <= |data|
    requires k < |SendFrom(data, start, pos, replies).puts|
    ensures var t := SendFrom(data, start, pos, replies);
      ReadAt(data, pos + |Sent(t.puts[..k])|, t.puts[k])
  {
    SendFromReadsOn(data, start, pos, replies);
    ReadsOnReadAt(data, pos, SendFrom(data, start, pos, replies).puts, k);
  }

  /**
    How a reply steers the cursor: only 202 and 500 lead to another PUT; after
    a 202 the next PUT starts one past the upper field of the first expected
    range, after a 500 the same range is sent again.
   */
  lemma {:induction false} SendFromSteering(data: seq<bv8>, start: nat, pos: nat, replies: seq<Reply>, k: nat)
    requires pos <= |data|
    requires k + 1 < |SendFrom(data, start, pos, replies).puts|
    ensures var t := SendFrom(data, start, pos, replies);
      Resume(replies[k], t.puts[k].range.first) == Some(t.puts[k + 1].range.first)
    ensures var t := SendFrom(data, start, pos, replies);
      replies[k].status == 202 || replies[k].status == 500
    ensures var t := SendFrom(data, start, pos, replies);
      replies[k].status == 500 ==> t.puts[k + 1].range == t.puts[k].range
    decreases |replies|
  {
    var put := NextPut(data, start, pos);
    var pos' := pos + |put.body|;
    var next := Resume(replies[0], start);
    var rest := React(data, start, pos', replies[0], replies[1..]);
    ReactResumes(data, start, pos', replies[0], replies[1..]);
    var t := SendFrom(data, start, pos, replies);
    assert t.puts == [put] + rest.puts;
    assert next.Some?;
    if k == 0 {
      assert rest.puts[0] == NextPut(data, next.value, pos');
    } else {
      SendFromSteering(data, next.value, pos', replies[1..], k - 1);
      assert replies[1..][k - 1] == replies[k];
    }
  }

  /** How the loop ends on a reply that does not send it on (see `Resume`). */
  function Stop(reply: Reply): Outcome {
    if reply.status == 202 then Raises
    else if reply.status == 201 || reply.status == 200 then ReturnsTrue
    else ReturnsFalse
  }

  /**
    The last PUT's reply decides the result: when it does not send the loop on,
    the result is `Stop` of it; when it does, the loop ended because the cursor
    passed the end of the file, or the replies ran out.
   */
  lemma {:induction false} SendFromLast(data: seq<bv8>, start: nat, pos: nat, replies: seq<Reply>)
    requires pos <= |data|
    ensures var t := SendFrom(data, start, pos, replies); var n := |t.puts|;
      if n == 0 then
        (start >= |data| && t.outcome == ReturnsNone) || (start < |data| && replies == [] && t.outcome == Pending)
      else
        var r := Resume(replies[n - 1], t.puts[n - 1].range.first);
        && (r.None? ==> t.outcome == Stop(replies[n - 1]))
        && (r.Some? ==> (t.outcome == ReturnsNone && r.value >= |data|) || (t.outcome == Pending && n == |replies|))
    decreases |replies|
  {
    if start < |data| && replies != [] {
      var put := NextPut(data, start, pos);
      var pos' := pos + |put.body|;
      var next := Resume(replies[0], start);
      SendFromCons(data, start, pos, replies);
      if next.Some? {
        SendFromLast(data, next.value, pos', replies[1..]);
        var t := SendFrom(data, start, pos, replies);
        var rest := SendFrom(data, next.value, pos', replies[1..]);
        assert t.puts == [put] + rest.puts && t.outcome == rest.outcome;
        var m := |rest.puts|;
        if m > 0 {
          assert replies[m] == replies[1..][m - 1] && t.puts[m] == rest.puts[m - 1];
        }
      }
    }
  }


  /**
    The result of the loop, read off the reply to its last PUT: True exactly
    when it is 200 or 201; a raise exactly when it is a 202 whose range cannot
    be read; False exactly when it is none of 200, 201, 202 and 500. None only
    when the cursor has passed the end of the file.
   */
  lemma SendFromOutcome(data: seq<bv8>, start: nat, pos: nat, replies: seq<Reply>)
    requires pos <= |data|
    ensures var t := SendFrom(data, start, pos, replies); var n := |t.puts|;
      t.outcome == ReturnsTrue <==> n > 0 && replies[n - 1].status in {200, 201}
    ensures var t := SendFrom(data, start, pos, replies); var n := |t.puts|;
      t.outcome == Raises <==> n > 0 && replies[n - 1].status == 202 && UpperField(replies[n - 1].nextExpectedRanges).None?
    ensures var t := SendFrom(data, start, pos, replies); var n := |t.puts|;
      t.outcome == ReturnsFalse <==> n > 0 && replies[n - 1].status !in {200, 201, 202, 500}
    ensures var t := SendFrom(data, start, pos, replies); var n := |t.puts|;
      t.outcome == ReturnsNone ==>
        if n == 0 then start >= |data|
        else Resume(replies[n - 1], t.puts[n - 1].range.first).Some? &&
             Resume(replies[n - 1], t.puts[n - 1].range.first).value >= |data|
    ensures var t := SendFrom(data, start, pos, replies);
      t.outcome == Pending ==> |t.puts| == |replies|
  {
    SendFromLast(data, start, pos, replies);
  }

  /**
    The start of an upload: nothing is sent unless the session request
    answered 200; an empty file sends nothing and returns None; otherwise the
    first PUT is `bytes 0-min(chunk_size-1, size-1)/size` carrying the first
    bytes of the file.
   */
  lemma TransferStart(data: seq<bv8>, sessionStatus: int, replies: seq<Reply>)
    ensures sessionStatus != 200 ==> Transfer(data, sessionStatus, replies) == Trace([], ReturnsFalse)
    ensures sessionStatus == 200 && |data| == 0 ==> Transfer(data, sessionStatus, replies) == Trace([], ReturnsNone)
    ensures sessionStatus == 200 && |data| > 0 && replies != [] ==>
      var n := if ChunkSize < |data| then ChunkSize else |data|;
      var t := Transfer(data, sessionStatus, replies);
      |t.puts| > 0 && t.puts[0] == Put(n, ByteRange(0, n - 1, |data|), data[..n])
  {
  }

  /**
    A 201 or 200 to any PUT ends the upload with True right after that PUT,
    whatever replies would have followed.
   */
  lemma ChunkAccepted(data: seq<bv8>, start: nat, pos: nat, status: int, ranges: seq<string>, rest: seq<Reply>)
    requires start < |data| && pos <= |data|
    requires status == 201 || status == 200
    ensures SendFrom(data, start, pos, [Reply(status, ranges)] + rest) ==
      Trace([NextPut(data, start, pos)], ReturnsTrue)
  {
    SendFromOnReply(data, start, pos, Reply(status, ranges), rest);
  }

  /**
    A 200 or 201 to the first PUT ends the upload with True after that one
    PUT, whatever the size of the file.
   */
  lemma AcceptedAtOnce(data: seq<bv8>, replies: seq<Reply>)
    requires |data| > 0 && |replies| > 0 && replies[0].status in {200, 201}
    ensures Transfer(data, 200, replies) == Trace([NextPut(data, 0, 0)], ReturnsTrue)
  {
    SendFromOnReply(data, 0, 0, replies[0], replies[1..]);
    assert replies == [replies[0]] + replies[1..];
  }

  lemma ChunkAcceptedUpTo(data: seq<bv8>, start: nat, ranges: seq<string>, replies: seq<Reply>)
    requires start < |data| && start + ChunkSize <= |data|
    requires UpperField(ranges).Some?
    ensures SendFrom(data, start, start, [Reply(202, ranges)] + replies) ==
      Then([NextPut(data, start, start)], SendFrom(data, UpperField(ranges).value + 1, start + ChunkSize, replies))
  {
    assert |NextPut(data, start, start).body| == ChunkSize;
    SendFromOnReply(data, start, start, Reply(202, ranges), replies);
    ReactResumes(data, start, start + ChunkSize, Reply(202, ranges), replies);
  }

  /**
    A 24 MiB file whose first two chunks are each answered 202 with a first
    expected range whose upper field is the last byte received (a closed
    range `a-b`, see `UpperFieldOfClosedRange`): three PUTs, the last one the
    4 MiB tail, and True on the final 201.
   */
  lemma ThreeChunkUpload(data: seq<bv8>, r0: seq<string>, r1: seq<string>)
    requires |data| == 25165824
    requires UpperField(r0) == Some(10485759) && UpperField(r1) == Some(20971519)
    ensures var t := Transfer(data, 200, [Reply(202, r0), Reply(202, r1), Reply(201, [])]);
      && |t.puts| == 3
      && t.puts[0].range == ByteRange(0, 10485759, 25165824)
      && t.puts[1].range == ByteRange(10485760, 20971519, 25165824)
      && t.puts[2].range == ByteRange(20971520, 25165823, 25165824)
      && t.puts[2].contentLength == 4194304
      && t.outcome == ReturnsTrue
  {
    var last := [Reply(201, [])];
    var replies := [Reply(202, r0)] + ([Reply(202, r1)] + last);
    assert replies == [Reply(202, r0), Reply(202, r1), Reply(201, [])];
    ChunkAccepted(data, 20971520, 20971520, 201, [], []);
    ChunkAcceptedUpTo(data, 10485760, r1, last);
    ChunkAcceptedUpTo(data, 0, r0, [Reply(202, r1)] + last);
    var t := SendFrom(data, 0, 0, replies);
    assert t == Trace([NextPut(data, 0, 0), NextPut(data, 10485760, 10485760), NextPut(data, 20971520, 20971520)], ReturnsTrue);
  }

  /** A 202 whose first expected range is open, `a-`, makes `int('')` raise after the first PUT. */
  lemma OpenRangeRaises(data: seq<bv8>, a: nat)
    requires |data| > 0
    ensures var t := Transfer(data, 200, [Reply(202, [NatToString(a) + "-"])]);
      |t.puts| == 1 && t.outcome == Raises
  {
    var ranges := [NatToString(a) + "-"];
    UpperFieldOfOpenRange(a, []);
    assert ranges + [] == ranges;
    assert UpperField(ranges) == None;
    var replies := [Reply(202, ranges)];
    var put := NextPut(data, 0, 0);
    assert React(data, 0, |put.body|, replies[0], replies[1..]) == Trace([], Raises);
  }

  /**
    A 202 naming the closed range that remains, `a-(size-1)`, moves the cursor
    past the end of the file: the loop ends after one PUT and `post_file`
    returns None, however much of the file is still unsent.
   */
  lemma RemainingRangeEndsLoop(data: seq<bv8>, a: nat, rest: seq<Reply>)
    requires |data| > 0
    ensures Transfer(data, 200, [Reply(202, [RangeText(a, |data| - 1)])] + rest) ==
      Trace([NextPut(data, 0, 0)], ReturnsNone)
  {
    UpperFieldOfClosedRange(a, |data| - 1, []);
    assert [RangeText(a, |data| - 1)] + [] == [RangeText(a, |data| - 1)];
    SendFromOnReply(data, 0, 0, Reply(202, [RangeText(a, |data| - 1)]), rest);
    ReactResumes(data, 0, |NextPut(data, 0, 0).body|, Reply(202, [RangeText(a, |data| - 1)]), rest);
  }

  /**
    A 24 MiB file whose first chunk is answered 202 with the range the server
    still expects, `10485760-25165823`: one PUT, then None, with the last
    14 MiB never sent.
   */
  lemma TwentyFourMiBStopsEarly(data: seq<bv8>, rest: seq<Reply>)
    requires |data| == 25165824
    ensures var t := Transfer(data, 200, [Reply(202, [RangeText(10485760, 25165823)])] + rest);
      && t.puts == [NextPut(data, 0, 0)] && t.outcome == ReturnsNone
      && t.puts[0].range == ByteRange(0, 10485759, 25165824)
      && |Sent(t.puts)| == 10485760
  {
    RemainingRangeEndsLoop(data, 10485760, rest);
    var t := Transfer(data, 200, [Reply(202, [RangeText(10485760, 25165823)])] + rest);
    assert Sent(t.puts) == t.puts[0].body + Sent([]);
  }

  /**
    A 503 is not retried (only 500 is): the upload returns False at once
    although a 201 would have followed.
   */
  lemma Status503Fails(data: seq<bv8>)
    requires |data| > 0
    ensures var t := Transfer(data, 200, [Reply(503, []), Reply(503, []), Reply(201, [])]);
      |t.puts| == 1 && t.outcome == ReturnsFalse
  {
  }

  /**
    A 500 re-sends the same range but not the same bytes: for a file of one
    chunk, the retry after two 500s carries an empty body, since the read
    position is already at the end of the file.
   */
  lemma RetryAfter500(data: seq<bv8>)
    requires 0 < |data| <= ChunkSize
    ensures var t := Transfer(data, 200, [Reply(500, []), Reply(500, []), Reply(201, [])]);
      && |t.puts| == 3 && t.outcome == ReturnsTrue
      && t.puts[0].range == t.puts[1].range == t.puts[2].range == ByteRange(0, |data| - 1, |data|)
      && t.puts[0].body == data && t.puts[1].body == [] && t.puts[2].body == []
  {
    var replies := [Reply(500, []), Reply(500, []), Reply(201, [])];
    assert replies[1..][1..] == [Reply(201, [])];
    assert replies[1..][1..][1..] == [];
  }

  /** One turn of the specification: the PUT from `start`, then whatever `Continue` makes of its reply. */
  lemma SendFromCons(data: seq<bv8>, start: nat, pos: nat, replies: seq<Reply>)
    requires start < |data| && pos <= |data| && replies != []
    ensures var put := NextPut(data, start, pos);
      SendFrom(data, start, pos, replies)
      == Then([put], Continue(data, Resume(replies[0], start), pos + |put.body|, replies[1..], Stop(replies[0])))
  {
    var put := NextPut(data, start, pos);
    ReactByResume(data, start, pos + |put.body|, replies[0], replies[1..]);
  }

  /** What the loop does after `reply`: go on from the cursor `Resume` gives, or end as `Stop` says. */
  lemma ReactByResume(data: seq<bv8>, start: nat, pos: nat, reply: Reply, replies: seq<Reply>)
    requires pos <= |data|
    ensures React(data, start, pos, reply, replies) ==
      if Resume(reply, start).Some? then SendFrom(data, Resume(reply, start).value, pos, replies)
      else Trace([], Stop(reply))
  {
  }

  /**
    The status dispatch after one PUT: the cursor the loop goes on from, or,
    when it does not go on, what `post_file` ends with.
   */
  method OnReply(reply: Reply, start: nat) returns (resume: Option<nat>, ending: Outcome)
    ensures resume == Resume(reply, start)
    ensures resume.None? ==> ending == Stop(reply)
  {
    ending := ReturnsNone;
    if reply.status == 202 {
      var upper := UpperField(reply.nextExpectedRanges);
      if upper.None? {
        return None, Raises;
      }
      resume := Some(upper.value + 1);
    } else if reply.status == 201 {
      return None, ReturnsTrue;
    } else if IsServerError(reply.status) {
      // `post_file` sleeps two seconds, then sends the same range again
      resume := Some(start);
    } else if reply.status == 200 {
      return None, ReturnsTrue;
    } else {
      return None, ReturnsFalse;
    }
  }

  /** How the specification goes on after one PUT: from the next cursor, or not at all. */
  function Continue(data: seq<bv8>, resume: Option<nat>, pos: nat, replies: seq<Reply>, ending: Outcome): Trace
    requires pos <= |data|
  {
    if resume.Some? then SendFrom(data, resume.value, pos, replies) else Trace([], ending)
  }

  /**
    One turn of the loop of `post_file`: read the next chunk at the file's
    read position, PUT it, and dispatch on the status of `reply`.
   */
  method SendChunk(data: seq<bv8>, start: nat, end: int, pos: nat, reply: Reply, ghost replies: seq<Reply>)
    returns (put: Put, resume: Option<nat>, ending: Outcome)
    requires start < |data| && pos <= |data| && end == NextEnd(start, |data|)
    ensures pos + |put.body| <= |data|
    ensures SendFrom(data, start, pos, [reply] + replies)
            == Then([put], Continue(data, resume, pos + |put.body|, replies, ending))
  {
    var dataLen := end - start + 1;
    var body := Read(data, pos, dataLen);
    put := Put(dataLen, ByteRange(start, end, |data|), body);
    resume, ending := OnReply(reply, start);
    assert ([reply] + replies)[0] == reply && ([reply] + replies)[1..] == replies;
    ReactByResume(data, start, pos + |body|, reply, replies);
  }

  /** Appending the turn's PUT to those already sent keeps the loop on the specification. */
  lemma Advance(spec: Trace, puts: seq<Put>, rest: Trace, put: Put, t: Trace)
    requires spec == Then(puts, rest) && rest == Then([put], t)
    ensures spec == Then(puts + [put], t)
  {
    assert puts + ([put] + t.puts) == puts + [put] + t.puts;
  }

  /** The chunk loop of `post_file`, with the file's read position advanced by every read. */
  method PostFile(data: seq<bv8>, sessionStatus: int, replies: seq<Reply>) returns (puts: seq<Put>, outcome: Outcome)
    ensures Trace(puts, outcome) == Transfer(data, sessionStatus, replies)
  {
    if sessionStatus != 200 {
      return [], ReturnsFalse;
    }
    ghost var spec := Transfer(data, sessionStatus, replies);
    var fileSize := |data|;
    var start: nat := 0;
    var end: int := if ChunkSize - 1 < fileSize then ChunkSize - 1 else fileSize - 1;
    var pos: nat := 0;
    var i := 0;
    puts := [];
    assert replies[0..] == replies;
    while start < fileSize
      invariant pos <= fileSize && i <= |replies|
      invariant end == NextEnd(start, fileSize)
      invariant spec == Then(puts, SendFrom(data, start, pos, replies[i..]))
      decreases |replies| - i
    {
      if i == |replies| {
        return puts, Pending;
      }
      assert replies[i..] == [replies[i]] + replies[i + 1..];
      var put, resume, ending := SendChunk(data, start, end, pos, replies[i], replies[i + 1..]);
      Advance(spec, puts, SendFrom(data, start, pos, replies[i..]), put,
              Continue(data, resume, pos + |put.body|, replies[i + 1..], ending));
      pos := pos + |put.body|;
      puts := puts + [put];
      i := i + 1;
      if resume.None? {
        return puts, ending;
      }
      start := resume.value;
      end := if start + ChunkSize - 1 < fileSize then start + ChunkSize - 1 else fileSize - 1;
    }
    outcome := ReturnsNone;
  }
}
