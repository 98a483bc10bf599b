/** The line reassembly of the pub/sub example (examples/pubsub_network.c): reads are appended to a
    fixed buffer, complete lines are handed to the protocol handler, the remainder is moved to the
    front. Lines are found with strchr, which also stops at a NUL byte. */
module LineFramer {
  type byte = b: int | 0 <= b < 256

  const NUL: byte := 0
  const NEWLINE: byte := 10
  const MAX_LINE: nat := 4096

  /** strchr(s + from, '\n'): the position of the first newline not behind a NUL, or -1. */
  function Scan(s: seq<byte>, from: nat): (i: int)
    requires from <= |s|
    ensures i == -1 || from <= i < |s|
    decreases |s| - from
  {
    if from == |s| || s[from] == NUL then -1
    else if s[from] == NEWLINE then from
    else Scan(s, from + 1)
  }

  function Find(s: seq<byte>): (i: int)
    ensures -1 <= i < |s|
  {
    Scan(s, 0)
  }

  lemma {:induction false} ScanFirst(s: seq<byte>, from: nat)
    requires from <= |s| && Scan(s, from) >= 0
    ensures s[Scan(s, from)] == NEWLINE
    ensures forall j :: from <= j < Scan(s, from) ==> s[j] != NEWLINE && s[j] != NUL
    decreases |s| - from
  {
    if s[from] != NEWLINE {
      ScanFirst(s, from + 1);
    }
  }

  lemma {:induction false} ScanNone(s: seq<byte>, from: nat, j: nat)
    requires from <= j < |s| && Scan(s, from) < 0 && s[j] == NEWLINE
    ensures exists k :: from <= k < j && s[k] == NUL
    decreases |s| - from
  {
    if s[from] != NUL {
      ScanNone(s, from + 1, j);
    }
  }

  lemma {:induction false} ScanAppend(a: seq<byte>, b: seq<byte>, from: nat)
    requires from <= |a| && Scan(a, from) >= 0
    ensures Scan(a + b, from) == Scan(a, from)
    decreases |a| - from
  {
    if a[from] != NEWLINE {
      ScanAppend(a, b, from + 1);
    }
  }

  /** The lines a buffer yields, and what stays in it. */
  function Lines(s: seq<byte>): (r: seq<seq<byte>>)
    decreases |s|
  {
    var i := Find(s);
    if i < 0 then [] else [s[..i]] + Lines(s[i + 1..])
  }

  function Rest(s: seq<byte>): (r: seq<byte>)
    decreases |s|
  {
    var i := Find(s);
    if i < 0 then s else Rest(s[i + 1..])
  }

  /** The reference: a stream split at its newlines, and its unfinished last line. */
  function Split(s: seq<byte>): (r: seq<seq<byte>>)
    ensures |Split(s)| >= 1
  {
    if s == [] then [[]]
    else if s[0] == NEWLINE then [[]] + Split(s[1..])
    else
      var t := Split(s[1..]);
      [[s[0]] + t[0]] + t[1..]
  }

  function Init<T>(xs: seq<T>): (r: seq<T>)
    requires xs != []
  {
    xs[..|xs| - 1]
  }

  function Last<T>(xs: seq<T>): (r: T)
    requires xs != []
  {
    xs[|xs| - 1]
  }

  function Flatten(chunks: seq<seq<byte>>): (r: seq<byte>)
  {
    if chunks == [] then [] else Flatten(Init(chunks)) + Last(chunks)
  }

  /** Bytes behind the first line do not change it. */
  lemma FirstLine(a: seq<byte>, b: seq<byte>)
    requires Find(a) >= 0
    ensures Lines(a + b) == [a[..Find(a)]] + Lines(a[Find(a) + 1..] + b)
    ensures Rest(a + b) == Rest(a[Find(a) + 1..] + b)
  {
    var i := Find(a);
    ScanAppend(a, b, 0);
    assert (a + b)[..i] == a[..i] && (a + b)[i + 1..] == a[i + 1..] + b;
  }

  lemma Prepend<T>(first: seq<T>, a: seq<T>, b: seq<T>)
    ensures first + (a + b) == (first + a) + b
  {
  }

  /** Reading on after a remainder is the same as reading everything again. */
  lemma {:induction false} Resume(a: seq<byte>, b: seq<byte>)
    ensures Lines(a + b) == Lines(a) + Lines(Rest(a) + b)
    ensures Rest(a + b) == Rest(Rest(a) + b)
    decreases |a|
  {
    var i := Find(a);
    if i < 0 {
      assert Lines(a) == [] && Rest(a) == a;
    } else {
      FirstLine(a, b);
      Resume(a[i + 1..], b);
      Prepend([a[..i]], Lines(a[i + 1..]), Lines(Rest(a) + b));
    }
  }

  /** What was handed over and what is in the buffer after the reads `chunks`. */
  function Delivered(chunks: seq<seq<byte>>): (r: seq<seq<byte>>)
  {
    if chunks == [] then [] else Delivered(Init(chunks)) + Lines(Buffered(Init(chunks)) + Last(chunks))
  }

  function Buffered(chunks: seq<seq<byte>>): (r: seq<byte>)
  {
    if chunks == [] then [] else Rest(Buffered(Init(chunks)) + Last(chunks))
  }

  /** However the stream is cut into reads, the outcome is that of the whole stream. */
  lemma {:induction false} AnyCutting(chunks: seq<seq<byte>>)
    ensures Delivered(chunks) == Lines(Flatten(chunks))
    ensures Buffered(chunks) == Rest(Flatten(chunks))
  {
    if chunks != [] {
      AnyCutting(Init(chunks));
      Resume(Flatten(Init(chunks)), Last(chunks));
    }
  }

  /** No newline stands behind a NUL. */
  ghost predicate NulsLast(s: seq<byte>)
  {
    forall j, k :: 0 <= j < k < |s| && s[j] == NUL ==> s[k] != NEWLINE
  }

  lemma {:induction false} SplitAt(s: seq<byte>, i: nat)
    requires i < |s| && s[i] == NEWLINE && forall j :: 0 <= j < i ==> s[j] != NEWLINE
    ensures Split(s) == [s[..i]] + Split(s[i + 1..])
    decreases i
  {
    if i > 0 {
      SplitAt(s[1..], i - 1);
      assert s[1..][i - 1 + 1..] == s[i + 1..] && [s[0]] + s[1..][..i - 1] == s[..i];
    } else {
      assert s[..0] == [];
    }
  }

  lemma {:induction false} SplitNone(s: seq<byte>)
    requires forall j :: 0 <= j < |s| ==> s[j] != NEWLINE
    ensures Split(s) == [s]
  {
    if s != [] {
      SplitNone(s[1..]);
      assert [s[0]] + s[1..] == s;
    }
  }

  lemma {:induction false} SplitCounts(s: seq<byte>, k: nat)
    requires k < |s| && s[k] == NEWLINE
    ensures |Split(s)| > 1
  {
    if k > 0 {
      SplitCounts(s[1..], k - 1);
    }
  }

  lemma NulsLastAfter(s: seq<byte>, i: nat)
    requires i < |s| && forall j :: 0 <= j <= i ==> s[j] != NUL
    ensures NulsLast(s) <==> NulsLast(s[i + 1..])
  {
    var t := s[i + 1..];
    if NulsLast(t) {
      forall j, k | 0 <= j < k < |s| && s[j] == NUL ensures s[k] != NEWLINE {
        assert t[j - i - 1] == s[j] && t[k - i - 1] == s[k];
      }
    }
    if NulsLast(s) {
      forall j, k | 0 <= j < k < |t| && t[j] == NUL ensures t[k] != NEWLINE {
        assert t[j] == s[j + i + 1] && t[k] == s[k + i + 1];
      }
    }
  }

  lemma {:induction false} SplitsAtNewlines(s: seq<byte>)
    requires NulsLast(s)
    ensures Split(s) == Lines(s) + [Rest(s)]
    decreases |s|
  {
    var i := Find(s);
    if i >= 0 {
      ScanFirst(s, 0);
      NulsLastAfter(s, i);
      SplitsAtNewlines(s[i + 1..]);
      SplitAt(s, i);
    } else {
      forall j | 0 <= j < |s| ensures s[j] != NEWLINE {
        if s[j] == NEWLINE { ScanNone(s, 0, j); }
      }
      SplitNone(s);
    }
  }

  lemma {:induction false} MissesLines(s: seq<byte>)
    requires !NulsLast(s)
    ensures |Lines(s)| + 1 < |Split(s)|
    decreases |s|
  {
    var i := Find(s);
    if i >= 0 {
      ScanFirst(s, 0);
      NulsLastAfter(s, i);
      MissesLines(s[i + 1..]);
      SplitAt(s, i);
    } else {
      var j, k :| 0 <= j < k < |s| && s[j] == NUL && s[k] == NEWLINE;
      SplitCounts(s, k);
    }
  }

  /** The framer splits at the newlines exactly when no newline stands behind a NUL; in particular on
      every NUL-free stream. */
  lemma SplitExactly(s: seq<byte>)
    ensures NulsLast(s) <==> Split(s) == Lines(s) + [Rest(s)]
  {
    if NulsLast(s) {
      SplitsAtNewlines(s);
    } else {
      MissesLines(s);
    }
  }

  /** onPeerAlloc: the space offered for the next read. */
  function Offered(buffered: seq<byte>): (n: int)
  {
    MAX_LINE - |buffered| - 1
  }

  /** Every read fits the space offered when it is made. */
  ghost predicate Fits(chunks: seq<seq<byte>>)
  {
    chunks == [] || (Fits(Init(chunks)) && |Last(chunks)| <= Offered(Buffered(Init(chunks))))
  }

  /** The length of the unfinished line of a stream. */
  lemma {:induction false} RestShrinks(s: seq<byte>)
    ensures |Rest(s)| <= |s|
    decreases |s|
  {
    if Find(s) >= 0 {
      RestShrinks(s[Find(s) + 1..]);
    }
  }

  /** For every stream without NUL, cut into reads that fit: the handler has received exactly the
      finished lines of the stream, in order, the buffer holds exactly the unfinished one, and there is
      room for another read exactly while that one, with its newline, can still be at most 4095 bytes. */
  lemma FramesTheStream(chunks: seq<seq<byte>>)
    requires Fits(chunks) && NUL !in Flatten(chunks)
    ensures Split(Flatten(chunks)) == Delivered(chunks) + [Buffered(chunks)]
    ensures 0 <= Offered(Buffered(chunks))
    ensures Offered(Buffered(chunks)) > 0 <==> |Last(Split(Flatten(chunks)))| + 1 <= MAX_LINE - 1
  {
    AnyCutting(chunks);
    SplitExactly(Flatten(chunks));
    if chunks != [] {
      RestShrinks(Buffered(Init(chunks)) + Last(chunks));
    }
  }

  /** The reading side of a peer connection, over its fixed buffer. */
  class Peer {
    const readBuf: array<byte>
    var readBufUsed: nat
    var closed: bool
    /** The messages handed to the protocol handler. */
    var handled: seq<seq<byte>>

    ghost predicate Valid()
      reads this
    {
      readBuf.Length == MAX_LINE && readBufUsed < MAX_LINE
    }

    ghost function Contents(): (s: seq<byte>)
      requires Valid()
      reads this, readBuf
      ensures |s| == readBufUsed
    {
      readBuf[..readBufUsed]
    }

    constructor ()
      ensures Valid() && Contents() == [] && handled == [] && !closed && fresh(readBuf)
    {
      readBuf := new byte[MAX_LINE](_ => NUL);
      readBufUsed, closed, handled := 0, false, [];
    }

    /** onPeerAlloc: where the next read may write, and how much. */
    method Alloc() returns (from: nat, len: nat)
      requires Valid()
      ensures from == readBufUsed && len == Offered(Contents()) && from + len < readBuf.Length
    {
      from, len := readBufUsed, readBuf.Length - readBufUsed - 1;
    }

    /** The stream writes a read into the space offered. */
    method Receive(from: nat, data: seq<byte>)
      requires Valid() && from == readBufUsed && |data| <= Offered(Contents())
      modifies readBuf
      ensures readBuf[..from + |data|] == old(Contents()) + data
    {
      var i := 0;
      while i < |data|
        invariant i <= |data| && readBuf[..from + i] == old(Contents()) + data[..i]
      {
        readBuf[from + i] := data[i];
        i := i + 1;
      }
    }

    /** strchr for a newline, from `from` to the terminating NUL. */
    method StrChr(from: nat, ghost end: nat) returns (i: int)
      requires from <= end < readBuf.Length && readBuf[end] == NUL
      ensures i == if Find(readBuf[from..end]) < 0 then -1 else from + Find(readBuf[from..end])
    {
      var k := from;
      while readBuf[k] != NUL && readBuf[k] != NEWLINE
        invariant from <= k <= end && forall j :: from <= j < k ==> readBuf[j] != NUL && readBuf[j] != NEWLINE
        decreases end - k
      {
        k := k + 1;
      }
      ScanIs(readBuf[from..end], 0, k - from);
      i := if readBuf[k] == NEWLINE then k else -1;
    }

    /** onPeerRead after `nread` bytes arrived; none means end of stream or error. */
    method Read(nread: nat, ghost data: seq<byte>)
      requires Valid() && readBufUsed + nread < MAX_LINE && readBuf[..readBufUsed + nread] == data
      modifies this`readBufUsed, this`closed, this`handled, readBuf
      ensures Valid()
      ensures nread == 0 ==> closed && handled == old(handled) && Contents() == old(Contents())
      ensures nread > 0 ==> closed == old(closed) && handled == old(handled) + Lines(data) && Contents() == Rest(data)
    {
      if nread == 0 {
        closed := true;
        return;
      }
      readBufUsed := readBufUsed + nread;
      readBuf[readBufUsed] := NUL;
      var line := HandleLines(data);
      if line != 0 {
        Compact(line);
      }
    }

    /** One read of the stream, from the space offered to the lines handed over: after the reads `chunks`
        the handler has what Delivered says and the buffer what Buffered says, and so after one more. */
    method OneRead(chunk: seq<byte>, ghost chunks: seq<seq<byte>>)
      requires Valid() && handled == Delivered(chunks) && Contents() == Buffered(chunks)
      requires |chunk| <= Offered(Contents())
      modifies this`readBufUsed, this`closed, this`handled, readBuf
      ensures Valid()
      ensures chunk != [] ==> handled == Delivered(chunks + [chunk]) && Contents() == Buffered(chunks + [chunk])
      ensures chunk == [] ==> handled == Delivered(chunks) && Contents() == Buffered(chunks)
      ensures closed == (old(closed) || chunk == [])
    {
      var from, len := Alloc();
      ghost var data := Contents() + chunk;
      Receive(from, chunk);
      assert Init(chunks + [chunk]) == chunks;
      Read(|chunk|, data);
    }

    /** The loop over the complete lines: the position of the unfinished one. */
    method HandleLines(ghost data: seq<byte>) returns (line: nat)
      requires Valid() && Contents() == data && readBuf[readBufUsed] == NUL
      modifies this`handled, readBuf
      ensures line <= readBufUsed && handled == old(handled) + Lines(data) && readBuf[line..readBufUsed] == Rest(data)
    {
      line := 0;
      ghost var left := data;
      var newline := StrChr(line, readBufUsed);
      while newline != -1
        invariant Scanned(line, newline, left)
        invariant handled + Lines(left) == old(handled) + Lines(data) && Rest(left) == Rest(data)
        decreases |left|
      {
        OneLine(handled, left);
        ghost var before := left;
        left := before[Find(before) + 1..];
        line, newline := HandOver(line, newline, before);
      }
    }

    /** The unread bytes start at `line`, and `newline` is what strchr finds in them. */
    ghost predicate Scanned(line: nat, newline: int, left: seq<byte>)
      reads this, readBuf
    {
      && Valid() && line <= readBufUsed && readBuf[readBufUsed] == NUL && readBuf[line..readBufUsed] == left
      && newline == if Find(left) < 0 then -1 else line + Find(left)
    }

    /** What the handler sees of the string that starts at `from`: the bytes before its first NUL. */
    method Text(from: nat, ghost end: nat) returns (s: seq<byte>)
      requires from <= end < readBuf.Length && readBuf[end] == NUL && forall i :: from <= i < end ==> readBuf[i] != NUL
      ensures s == readBuf[from..end]
    {
      var k := from;
      while readBuf[k] != NUL
        invariant from <= k <= end
        decreases end - k
      {
        k := k + 1;
      }
      s := readBuf[from..k];
    }

    /** The newline is overwritten and the line before it handed over; the search goes on behind it. */
    method HandOver(line: nat, newline: nat, ghost left: seq<byte>) returns (line': nat, newline': int)
      requires Scanned(line, newline, left)
      modifies this`handled, readBuf
      ensures handled == old(handled) + [left[..Find(left)]]
      ensures Scanned(line', newline', left[Find(left) + 1..])
    {
      assert readBuf[line..newline] == left[..Find(left)];
      ScanFirst(left, 0);
      readBuf[newline] := NUL;
      assert readBuf[line..newline] == left[..Find(left)];
      var message := Text(line, newline);
      handled := handled + [message];
      line' := newline + 1;
      assert readBuf[line'..readBufUsed] == left[Find(left) + 1..];
      newline' := StrChr(line', readBufUsed);
    }

    /** memmove of the remainder to the front. */
    method Compact(line: nat)
      requires Valid() && 0 < line <= readBufUsed
      modifies this`readBufUsed, readBuf
      ensures Valid() && Contents() == old(readBuf[line..readBufUsed])
    {
      var remaining := readBufUsed - line;
      var i := 0;
      while i < remaining
        invariant i <= remaining && readBufUsed == old(readBufUsed) && readBuf[..i] == old(readBuf[line..line + i])
        invariant forall j :: line + i <= j < readBufUsed ==> readBuf[j] == old(readBuf[j])
      {
        readBuf[i] := readBuf[line + i];
        i := i + 1;
      }
      readBufUsed := remaining;
    }
  }

  lemma OneLine(before: seq<seq<byte>>, s: seq<byte>)
    requires Find(s) >= 0
    ensures before + Lines(s) == before + [s[..Find(s)]] + Lines(s[Find(s) + 1..]) && Rest(s) == Rest(s[Find(s) + 1..])
  {
    Prepend(before, [s[..Find(s)]], Lines(s[Find(s) + 1..]));
  }

  /** A scan that stops at `k` has found the newline there, or stopped at a NUL or the end. */
  lemma {:induction false} ScanIs(s: seq<byte>, from: nat, k: nat)
    requires from <= k <= |s| && forall j :: from <= j < k ==> s[j] != NUL && s[j] != NEWLINE
    requires k < |s| ==> s[k] == NUL || s[k] == NEWLINE
    ensures Scan(s, from) == if k < |s| && s[k] == NEWLINE then k else -1
    decreases k - from
  {
    if from < k {
      ScanIs(s, from + 1, k);
    }
  }
}
