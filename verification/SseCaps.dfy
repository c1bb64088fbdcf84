/** The byte cap on one server-sent event: an automaton over the raw bytes, checked against a splitter
    of the stream into records (section 9.2.5 of the WHATWG HTML Living Standard). */
module SseCaps {
  import opened Wrappers

  type Byte = nat

  const CR: Byte := 13
  const LF: Byte := 10

  // ---------- the automaton ----------

  datatype DelimiterState = LineStart | Data | Cr | BoundaryCr

  datatype Meter = Meter(count: nat, state: DelimiterState)

  const START := Meter(0, LineStart)

  /** A boundary CR not followed by LF has ended its record. */
  function Settle(m: Meter, b: Byte): Meter {
    if m.state.BoundaryCr? && b != LF then START else m
  }

  /** Counting one byte that is within the budget. */
  function Count(m: Meter, b: Byte): Meter {
    if b == CR then
      Meter(m.count + 1, if m.state.LineStart? || m.state.Cr? then BoundaryCr else if m.state.Data? then Cr else Data)
    else if b == LF then
      if m.state.LineStart? || m.state.BoundaryCr? then START else Meter(m.count + 1, LineStart)
    else
      Meter(m.count + 1, Data)
  }

  /** The first byte at which the cap trips. */
  function FirstTrip(limit: nat, m: Meter, s: seq<Byte>): Option<nat>
    decreases |s|
  {
    if s == [] then None
    else
      var r := Settle(m, s[0]);
      if r.count >= limit then Some(0) else Shift(1, FirstTrip(limit, Count(r, s[0]), s[1..]))
  }

  function Shift(n: nat, at: Option<nat>): Option<nat> {
    if at.None? then None else Some(n + at.value)
  }

  /** The meter after a stretch of bytes within the budget. */
  function After(m: Meter, s: seq<Byte>): Meter
    decreases |s|
  {
    if s == [] then m else After(Count(Settle(m, s[0]), s[0]), s[1..])
  }

  datatype SseByteError<E> = Upstream(error: E) | EventTooLarge(limit: nat)

  /** The state that `scan` keeps between chunks. */
  class EventCap {
    const limit: nat
    var count: nat
    var state: DelimiterState

    ghost function Now(): Meter
      reads this
    {
      Meter(count, state)
    }

    constructor (limit: nat)
      ensures this.limit == limit && Now() == START
    {
      this.limit := limit;
      count, state := 0, LineStart;
    }

    /** One item of the stream: an upstream error passes through, a chunk is counted byte by byte. */
    method Next<E>(chunk: Result<seq<Byte>, E>) returns (item: Result<seq<Byte>, SseByteError<E>>)
      modifies this
      ensures chunk.Err? ==> item == Err(Upstream(chunk.error)) && Now() == old(Now())
      ensures chunk.Ok? ==>
                match FirstTrip(limit, old(Now()), chunk.value)
                case None => item == Ok(chunk.value) && Now() == After(old(Now()), chunk.value)
                case Some(at) =>
                  && item == Err(EventTooLarge(limit)) && at < |chunk.value|
                  && Now() == Settle(After(old(Now()), chunk.value[..at]), chunk.value[at])
    {
      hide FirstTrip, After;
      if chunk.Err? { return Err(Upstream(chunk.error)); }
      var bytes := chunk.value;
      NoBytes(limit, old(Now()), bytes);
      var n := 0;
      while n < |bytes|
        invariant 0 <= n <= |bytes|
        invariant Now() == After(old(Now()), bytes[..n])
        invariant FirstTrip(limit, old(Now()), bytes) == Shift(n, FirstTrip(limit, Now(), bytes[n..]))
      {
        var b := bytes[n];
        OneByte(limit, old(Now()), bytes, n);
        if state.BoundaryCr? && b != LF {
          count, state := 0, LineStart;
        }
        if count >= limit {
          return Err(EventTooLarge(limit));
        }
        count := count + 1;
        if b == CR && (state.LineStart? || state.Cr?) {
          state := BoundaryCr;
        } else if b == LF && (state.LineStart? || state.BoundaryCr?) {
          count := 0;
          state := LineStart;
        } else if b == CR && state.Data? {
          state := Cr;
        } else if b == LF && (state.Data? || state.Cr?) {
          state := LineStart;
        } else {
          state := Data;
        }
        n := n + 1;
      }
      item := Ok(bytes);
    }
  }

  // ---------- independence of the chunking ----------

  lemma {:induction false} AfterSplit(m: Meter, a: seq<Byte>, b: seq<Byte>)
    ensures After(m, a + b) == After(After(m, a), b)
    decreases |a|
  {
    if a == [] {
      assert a + b == b;
    } else {
      assert (a + b)[1..] == a[1..] + b;
      AfterSplit(Count(Settle(m, a[0]), a[0]), a[1..], b);
    }
  }

  lemma {:induction false} TripSplit(limit: nat, m: Meter, a: seq<Byte>, b: seq<Byte>)
    ensures FirstTrip(limit, m, a + b) ==
            if FirstTrip(limit, m, a).Some? then FirstTrip(limit, m, a)
            else Shift(|a|, FirstTrip(limit, After(m, a), b))
    decreases |a|
  {
    if a == [] {
      assert a + b == b;
    } else {
      assert (a + b)[1..] == a[1..] + b;
      TripSplit(limit, Count(Settle(m, a[0]), a[0]), a[1..], b);
    }
  }

  /** Reading the n-th byte of a stretch. */
  lemma OneByte(limit: nat, m: Meter, s: seq<Byte>, n: nat)
    requires n < |s|
    ensures var (now, b) := (After(m, s[..n]), s[n]);
            var r := Settle(now, b);
            && After(m, s[..n + 1]) == Count(r, b)
            && Shift(n, FirstTrip(limit, now, s[n..])) ==
               if r.count >= limit then Some(n) else Shift(n + 1, FirstTrip(limit, Count(r, b), s[n + 1..]))
  {
    assert s[..n + 1] == s[..n] + [s[n]];
    AfterSplit(m, s[..n], [s[n]]);
    assert s[n..][0] == s[n] && s[n..][1..] == s[n + 1..];
  }

  /** The ends of a stretch. */
  lemma NoBytes(limit: nat, m: Meter, s: seq<Byte>)
    ensures After(m, s[..0]) == m && s[0..] == s && s[..|s|] == s && s[|s|..] == []
    ensures forall k: Meter :: FirstTrip(limit, k, []) == None
  {
  }

  function Bytes(chunks: seq<seq<Byte>>): seq<Byte> {
    if chunks == [] then [] else chunks[0] + Bytes(chunks[1..])
  }

  /** The first byte of a chunked stream at which a chunk is refused. */
  function ChunkedTrip(limit: nat, m: Meter, chunks: seq<seq<Byte>>): Option<nat>
    decreases |chunks|
  {
    if chunks == [] then None
    else
      var at := FirstTrip(limit, m, chunks[0]);
      if at.Some? then at else Shift(|chunks[0]|, ChunkedTrip(limit, After(m, chunks[0]), chunks[1..]))
  }

  /** The byte at which the cap first trips does not depend on how the stream is chunked. */
  lemma {:induction false} ChunkingDoesNotMatter(limit: nat, m: Meter, chunks: seq<seq<Byte>>)
    ensures ChunkedTrip(limit, m, chunks) == FirstTrip(limit, m, Bytes(chunks))
    decreases |chunks|
  {
    if chunks != [] {
      TripSplit(limit, m, chunks[0], Bytes(chunks[1..]));
      ChunkingDoesNotMatter(limit, After(m, chunks[0]), chunks[1..]);
    }
  }

  // ---------- records ----------

  predicate Eol(b: Byte) { b == CR || b == LF }

  /** Bytes before the first line terminator. */
  function LineLen(s: seq<Byte>): (n: nat)
    ensures n <= |s|
    ensures forall i :: 0 <= i < n ==> !Eol(s[i])
    ensures n < |s| ==> Eol(s[n])
  {
    if s == [] || Eol(s[0]) then 0 else 1 + LineLen(s[1..])
  }

  /** A terminator is CRLF, LF or CR. */
  function TerminatorLen(s: seq<Byte>): nat
    requires s != []
  {
    if s[0] == CR && |s| > 1 && s[1] == LF then 2 else 1
  }

  /** Bytes of the first line with its terminator. */
  function LineEnd(s: seq<Byte>): (k: nat)
    requires LineLen(s) < |s|
    ensures LineLen(s) < k <= |s|
  {
    LineLen(s) + TerminatorLen(s[LineLen(s)..])
  }

  /** A record is the lines up to and including the first blank one, or the rest of the stream. */
  function RecordLen(s: seq<Byte>): (n: nat)
    ensures n <= |s| && (s != [] ==> n > 0)
    decreases |s|
  {
    if LineLen(s) == |s| then |s|
    else if LineLen(s) == 0 then LineEnd(s)
    else LineEnd(s) + RecordLen(s[LineEnd(s)..])
  }

  function Records(s: seq<Byte>): seq<seq<Byte>>
    decreases |s|
  {
    if s == [] then [] else [s[..RecordLen(s)]] + Records(s[RecordLen(s)..])
  }

  /** The records are the stream, cut up. */
  lemma {:induction false} RecordsAreTheStream(s: seq<Byte>)
    ensures Bytes(Records(s)) == s
    decreases |s|
  {
    if s != [] {
      RecordsAreTheStream(s[RecordLen(s)..]);
    }
  }

  /** Where the first record longer than the limit crosses it. */
  function FirstOverlong(limit: nat, records: seq<seq<Byte>>): Option<nat> {
    if records == [] then None
    else if |records[0]| > limit then Some(limit)
    else Shift(|records[0]|, FirstOverlong(limit, records[1..]))
  }

  // ---------- the automaton finds the records ----------

  lemma {:induction false} DataRun(limit: nat, m: Meter, s: seq<Byte>)
    requires m.count <= limit && !m.state.BoundaryCr? && s != [] && forall i :: 0 <= i < |s| ==> !Eol(s[i])
    ensures FirstTrip(limit, m, s) == if m.count + |s| > limit then Some(limit - m.count) else None
    ensures After(m, s) == Meter(m.count + |s|, Data)
    decreases |s|
  {
    if m.count < limit && |s| > 1 {
      DataRun(limit, Meter(m.count + 1, Data), s[1..]);
    }
    AfterData(m, s);
  }

  lemma {:induction false} AfterData(m: Meter, s: seq<Byte>)
    requires !m.state.BoundaryCr? && s != [] && forall i :: 0 <= i < |s| ==> !Eol(s[i])
    ensures After(m, s) == Meter(m.count + |s|, Data)
    decreases |s|
  {
    if |s| > 1 { AfterData(Meter(m.count + 1, Data), s[1..]); }
  }

  /** At the start of a line, where a CR before it cannot be completed to CRLF any more. */
  predicate AtLine(m: Meter, s: seq<Byte>) {
    m.state.LineStart? || (m.state.Cr? && s != [] && s[0] != LF)
  }

  /** Reading the end of a line that is not blank. */
  lemma EolRun(limit: nat, d: Meter, s: seq<Byte>) returns (m': Meter)
    requires d.state.Data? && d.count <= limit && s != [] && Eol(s[0])
    ensures var k := TerminatorLen(s);
            if d.count + k > limit then FirstTrip(limit, d, s) == Some(limit - d.count)
            else && m'.count == d.count + k && (k < |s| ==> AtLine(m', s[k..]))
                 && FirstTrip(limit, d, s) == Shift(k, FirstTrip(limit, m', s[k..]))
  {
    if s[0] == CR && |s| > 1 && s[1] == LF {
      assert s[1..][0] == LF && s[1..][1..] == s[2..];
      m' := Meter(d.count + 2, LineStart);
    } else {
      m' := Count(d, s[0]);
    }
  }

  /** Reading one line that is not blank. */
  lemma LineRun(limit: nat, m: Meter, s: seq<Byte>) returns (m': Meter)
    requires AtLine(m, s) && m.count <= limit && 0 < LineLen(s) < |s|
    ensures var k := LineEnd(s);
            if m.count + k > limit then FirstTrip(limit, m, s) == Some(limit - m.count)
            else && m'.count == m.count + k && (k < |s| ==> AtLine(m', s[k..]))
                 && FirstTrip(limit, m, s) == Shift(k, FirstTrip(limit, m', s[k..]))
  {
    hide LineLen, FirstTrip, After;
    var n := LineLen(s);
    var rest := s[n..];
    assert s == s[..n] + rest;
    TripSplit(limit, m, s[..n], rest);
    DataRun(limit, m, s[..n]);
    m' := m;
    if m.count + n <= limit {
      m' := EolRun(limit, Meter(m.count + n, Data), rest);
      assert rest[LineEnd(s) - n..] == s[LineEnd(s)..];
    }
  }

  /** Reading a blank line closes the record. */
  lemma BlankRun(limit: nat, m: Meter, s: seq<Byte>)
    requires AtLine(m, s) && m.count <= limit && s != [] && Eol(s[0])
    ensures var k := LineEnd(s);
            if m.count + k > limit then FirstTrip(limit, m, s) == Some(limit - m.count)
            else FirstTrip(limit, m, s) == Shift(k, FirstTrip(limit, START, s[k..]))
  {
    assert s[0..] == s;
    if s[0] == CR && m.count < limit {
      var b := Meter(m.count + 1, BoundaryCr);
      var rest := s[1..];
      assert FirstTrip(limit, m, s) == Shift(1, FirstTrip(limit, b, rest));
      if rest != [] && rest[0] == LF {
        assert rest[1..] == s[2..];
      }
    }
  }

  /** Reading one record from the start of a line, with m.count bytes of it already read. */
  lemma {:induction false} RecordRun(limit: nat, m: Meter, s: seq<Byte>)
    requires AtLine(m, s) && m.count <= limit && s != []
    ensures var k := RecordLen(s);
            if m.count + k > limit then FirstTrip(limit, m, s) == Some(limit - m.count)
            else FirstTrip(limit, m, s) == Shift(k, FirstTrip(limit, START, s[k..]))
    decreases |s|
  {
    hide FirstTrip, LineLen, LineEnd;
    NoBytes(limit, START, s);
    if LineLen(s) == |s| {
      DataRun(limit, m, s);
      assert s[|s|..] == [];
    } else if LineLen(s) == 0 {
      BlankRun(limit, m, s);
    } else {
      var m' := LineRun(limit, m, s);
      var k := LineEnd(s);
      if m.count + k <= limit {
        if k < |s| {
          RecordRun(limit, m', s[k..]);
          DropDrop(s, k, RecordLen(s[k..]));
        } else {
          assert s[k..] == [];
        }
      }
    }
  }

  lemma DropDrop(s: seq<Byte>, a: nat, b: nat)
    requires a + b <= |s|
    ensures s[a..][b..] == s[a + b..]
  {
  }

  /** The cap trips exactly at the byte by which the first overlong record crosses the limit. */
  lemma {:induction false} TripsAtFirstOverlongRecord(limit: nat, s: seq<Byte>)
    ensures FirstTrip(limit, START, s) == FirstOverlong(limit, Records(s))
    decreases |s|
  {
    if s != [] {
      var k := RecordLen(s);
      RecordRun(limit, START, s);
      assert |s[..k]| == k;
      if k <= limit {
        TripsAtFirstOverlongRecord(limit, s[k..]);
      }
    }
  }

  lemma {:induction false} OverlongIff(limit: nat, records: seq<seq<Byte>>)
    ensures FirstOverlong(limit, records).Some? <==> exists i :: 0 <= i < |records| && |records[i]| > limit
    decreases |records|
  {
    if records != [] && |records[0]| <= limit {
      OverlongIff(limit, records[1..]);
      if i :| 0 <= i < |records| && |records[i]| > limit {
        assert records[1..][i - 1] == records[i];
      }
      if i :| 0 <= i < |records[1..]| && |records[1..][i]| > limit {
        assert records[i + 1] == records[1..][i];
      }
    }
  }

  /** However the stream is chunked, the cap trips if and only if some record exceeds the limit. */
  lemma TripsIffSomeRecordIsTooLong(limit: nat, chunks: seq<seq<Byte>>)
    ensures ChunkedTrip(limit, START, chunks).Some? <==>
            exists i :: 0 <= i < |Records(Bytes(chunks))| && |Records(Bytes(chunks))[i]| > limit
  {
    ChunkingDoesNotMatter(limit, START, chunks);
    TripsAtFirstOverlongRecord(limit, Bytes(chunks));
    OverlongIff(limit, Records(Bytes(chunks)));
  }

  // ---------- records by their bytes ----------

  /** LF, CR or CRLF. */
  ghost predicate Terminates(e: seq<Byte>) { e == [10] || e == [13] || e == [13, 10] }

  /** A line that is not blank, and its terminator. */
  datatype Line = Line(content: seq<Byte>, end: seq<Byte>)

  ghost predicate LineOk(l: Line) {
    l.content != [] && 10 !in l.content && 13 !in l.content && Terminates(l.end)
  }

  ghost function Joined(ls: seq<Line>): seq<Byte> {
    if ls == [] then [] else ls[0].content + ls[0].end + Joined(ls[1..])
  }

  /** Lines and then a blank one, each terminator as long as it can be. */
  ghost predicate RecordOk(ls: seq<Line>, blank: seq<Byte>, rest: seq<Byte>) {
    && (forall i :: 0 <= i < |ls| ==> LineOk(ls[i]))
    && Terminates(blank)
    && (ls != [] && ls[|ls| - 1].end == [13] ==> blank[0] != 10)
    && (blank == [13] && rest != [] ==> rest[0] != 10)
  }

  lemma {:induction false} LineLenIs(a: seq<Byte>, e: seq<Byte>, rest: seq<Byte>)
    requires 10 !in a && 13 !in a && Terminates(e)
    ensures LineLen(a + (e + rest)) == |a|
    decreases |a|
  {
    var s := a + (e + rest);
    if a != [] {
      assert s[0] == a[0] && s[1..] == a[1..] + (e + rest);
      assert 10 !in a[1..] && 13 !in a[1..];
      LineLenIs(a[1..], e, rest);
    }
  }

  lemma LineEndIs(a: seq<Byte>, e: seq<Byte>, rest: seq<Byte>)
    requires 10 !in a && 13 !in a && Terminates(e)
    requires e == [13] && rest != [] ==> rest[0] != 10
    ensures var s := a + (e + rest);
            LineLen(s) == |a| && LineEnd(s) == |a| + |e| && s[..|a| + |e|] == a + e && s[|a| + |e|..] == rest
  {
    hide LineLen;
    var s := a + (e + rest);
    LineLenIs(a, e, rest);
    assert s[|a|..] == e + rest;
    assert e + rest != [] && (e + rest)[0] == e[0];
  }

  lemma BlankStep(blank: seq<Byte>, rest: seq<Byte>)
    requires Terminates(blank) && (blank == [13] && rest != [] ==> rest[0] != 10)
    ensures RecordLen(blank + rest) == |blank|
  {
    hide LineLen, LineEnd;
    LineEndIs([], blank, rest);
    assert [] + (blank + rest) == blank + rest;
  }

  lemma LineStep(l: Line, more: seq<Byte>)
    requires LineOk(l) && (l.end == [13] && more != [] ==> more[0] != 10)
    ensures RecordLen(l.content + (l.end + more)) == |l.content| + |l.end| + RecordLen(more)
  {
    hide LineLen, LineEnd;
    LineEndIs(l.content, l.end, more);
  }

  lemma JoinedStep(ls: seq<Line>, tail: seq<Byte>)
    requires ls != []
    ensures Joined(ls) + tail == ls[0].content + (ls[0].end + (Joined(ls[1..]) + tail))
    ensures |Joined(ls)| == |ls[0].content| + |ls[0].end| + |Joined(ls[1..])|
    ensures |ls| > 1 && ls[1].content != [] ==> Joined(ls[1..]) != [] && Joined(ls[1..])[0] == ls[1].content[0]
  {
  }

  lemma {:induction false} RecordLenIs(ls: seq<Line>, blank: seq<Byte>, rest: seq<Byte>)
    requires RecordOk(ls, blank, rest)
    ensures RecordLen(Joined(ls) + (blank + rest)) == |Joined(ls)| + |blank|
    decreases |ls|
  {
    hide RecordLen, Joined;
    if ls == [] {
      NoLines(blank + rest);
      BlankStep(blank, rest);
    } else {
      JoinedStep(ls, blank + rest);
      assert LineOk(ls[0]);
      if |ls| > 1 { assert LineOk(ls[1]); } else { NoLines(blank + rest); }
      assert RecordOk(ls[1..], blank, rest);
      LineStep(ls[0], Joined(ls[1..]) + (blank + rest));
      RecordLenIs(ls[1..], blank, rest);
    }
  }

  lemma NoLines(tail: seq<Byte>)
    ensures Joined([]) == [] && Joined([]) + tail == tail
  {
  }

  /** A record is lines and a blank line, in bytes 10 and 13. */
  lemma RecordEndsAtBlankLine(ls: seq<Line>, blank: seq<Byte>, rest: seq<Byte>)
    requires RecordOk(ls, blank, rest)
    ensures Records(Joined(ls) + (blank + rest)) == [Joined(ls) + blank] + Records(rest)
  {
    hide RecordLen, Joined;
    var s := Joined(ls) + (blank + rest);
    RecordLenIs(ls, blank, rest);
    assert s[..|Joined(ls)| + |blank|] == Joined(ls) + blank;
    assert s[|Joined(ls)| + |blank|..] == rest;
  }
}
