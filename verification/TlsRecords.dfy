/**
 * The TLS record stream (section 6.2.1 of RFC 5246) as a value: how records are
 * laid out, how a stream splits into records, and what a receiver that is fed
 * the stream in arbitrary pieces has delivered and still holds.
 */
module TlsRecords {
  import opened Bytes

  const HEADER: nat := 5

  datatype Record = Record(typ: byte, version: nat, data: seq<byte>)

  /** What the layers above the record layer see of a record. */
  datatype Fragment = Fragment(typ: byte, data: seq<byte>)

  datatype Status = Success | Failed | NeedMore | InvalidState | AlreadyDone

  ghost predicate Encodable(r: Record) {
    r.version < 65536 && |r.data| < 65536
  }

  function Encode(r: Record): seq<byte> {
    [r.typ] + U16(r.version) + U16(|r.data|) + r.data
  }

  /** Content type, version and length, big-endian, then the data. */
  lemma EncodeLayout(r: Record)
    requires Encodable(r)
    ensures var s := Encode(r);
            && |s| == 5 + |r.data| && s[0] == r.typ && (s[1] as int) * 256 + s[2] == r.version
            && (s[3] as int) * 256 + s[4] == |r.data| && s[5..] == r.data
  {
    U16RoundTrip(r.version);
    U16RoundTrip(|r.data|);
  }

  function EncodeAll(rs: seq<Record>): seq<byte> {
    if rs == [] then [] else Encode(rs[0]) + EncodeAll(rs[1..])
  }

  /** Length field of a stream that starts with a complete header. */
  function BodyLength(s: seq<byte>): nat
    requires |s| >= HEADER
  {
    FromU16(s[3..5])
  }

  predicate StartsWithRecord(s: seq<byte>) {
    |s| >= HEADER && |s| >= HEADER + BodyLength(s)
  }

  function FirstRecord(s: seq<byte>): Record
    requires StartsWithRecord(s)
  {
    Record(s[0], FromU16(s[1..3]), s[HEADER..HEADER + BodyLength(s)])
  }

  datatype Parsed = Parsed(records: seq<Record>, rest: seq<byte>)

  /** The greedy reference parser of a whole stream. */
  function Parse(s: seq<byte>): Parsed {
    if !StartsWithRecord(s) then Parsed([], s) else
    var tail := Parse(s[HEADER + BodyLength(s)..]);
    Parsed([FirstRecord(s)] + tail.records, tail.rest)
  }

  lemma EncodeFirstRecord(s: seq<byte>)
    requires StartsWithRecord(s)
    ensures Encodable(FirstRecord(s))
    ensures Encode(FirstRecord(s)) == s[..HEADER + BodyLength(s)]
  {
    U16Injective(s[1..3]);
    U16Injective(s[3..5]);
    var n := BodyLength(s);
    assert s[..HEADER + n] == [s[0]] + s[1..3] + s[3..5] + s[5..5 + n];
  }

  lemma StartsWithEncoded(r: Record, t: seq<byte>)
    requires Encodable(r)
    ensures |Encode(r)| == HEADER + |r.data|
    ensures StartsWithRecord(Encode(r) + t)
    ensures FirstRecord(Encode(r) + t) == r
    ensures BodyLength(Encode(r) + t) == |r.data|
  {
    U16RoundTrip(r.version);
    U16RoundTrip(|r.data|);
    var s := Encode(r) + t;
    assert s[1..3] == U16(r.version);
    assert s[3..5] == U16(|r.data|);
    assert s[5..5 + |r.data|] == r.data;
  }

  /** Parsing loses nothing, and what it leaves over starts no complete record. */
  lemma {:induction false} ParseSound(s: seq<byte>)
    ensures EncodeAll(Parse(s).records) + Parse(s).rest == s
    ensures !StartsWithRecord(Parse(s).rest)
    ensures forall r <- Parse(s).records :: Encodable(r)
    decreases |s|
  {
    hide Encode, BodyLength, FirstRecord;
    if StartsWithRecord(s) {
      EncodeFirstRecord(s);
      var n := HEADER + BodyLength(s);
      ParseSound(s[n..]);
      var p := Parse(s);
      assert p.records[1..] == Parse(s[n..]).records;
      assert EncodeAll(p.records) + p.rest == s[..n] + (EncodeAll(p.records[1..]) + p.rest);
    } else {
      assert EncodeAll([]) + s == s;
    }
  }

  lemma ParseStep(r: Record, t: seq<byte>)
    requires Encodable(r)
    ensures Parse(Encode(r) + t) == Parsed([r] + Parse(t).records, Parse(t).rest)
  {
    StartsWithEncoded(r, t);
    assert (Encode(r) + t)[HEADER + |r.data|..] == t;
  }

  /** Parsing inverts encoding, whatever follows the encoded records. */
  lemma {:induction false} ParseEncoded(rs: seq<Record>, t: seq<byte>)
    requires forall r <- rs :: Encodable(r)
    ensures Parse(EncodeAll(rs) + t) == Parsed(rs + Parse(t).records, Parse(t).rest)
  {
    hide Parse, Encode;
    if rs == [] {
      assert EncodeAll(rs) + t == t;
    } else {
      ParseEncoded(rs[1..], t);
      ParseStep(rs[0], EncodeAll(rs[1..]) + t);
      assert EncodeAll(rs) + t == Encode(rs[0]) + (EncodeAll(rs[1..]) + t);
      assert [rs[0]] + (rs[1..] + Parse(t).records) == rs + Parse(t).records;
    }
  }

  /** A stream may be parsed up to any point and the parse resumed from the left-over. */
  lemma {:induction false} ParseResumes(s: seq<byte>, t: seq<byte>)
    ensures Parse(s + t) == var p := Parse(s); var q := Parse(p.rest + t);
                            Parsed(p.records + q.records, q.rest)
  {
    ParseSound(s);
    var p := Parse(s);
    assert s + t == EncodeAll(p.records) + (p.rest + t);
    ParseEncoded(p.records, p.rest + t);
  }

  /**
   * One call of the incremental receiver, on the bytes it still holds. A call
   * that only completes a held partial header stops there; every other non-empty
   * call delivers all records completed so far.
   */
  function Feed(held: seq<byte>, buf: seq<byte>): Parsed {
    if buf == [] || (0 < |held| < HEADER && |held| + |buf| <= HEADER) then Parsed([], held + buf)
    else Parse(held + buf)
  }

  function FeedAll(held: seq<byte>, bufs: seq<seq<byte>>): Parsed
    decreases |bufs|
  {
    if bufs == [] then Parsed([], held) else
    var p := Feed(held, bufs[0]);
    var q := FeedAll(p.rest, bufs[1..]);
    Parsed(p.records + q.records, q.rest)
  }

  function Flatten(bufs: seq<seq<byte>>): seq<byte> {
    if bufs == [] then [] else bufs[0] + Flatten(bufs[1..])
  }

  /** A lone zero-length record: the only complete record a receiver may sit on. */
  predicate LoneEmptyRecord(s: seq<byte>) {
    |s| == HEADER && BodyLength(s) == 0
  }

  /** What the receiver may hold between two calls. */
  predicate Holdable(s: seq<byte>) {
    !StartsWithRecord(s) || LoneEmptyRecord(s)
  }

  lemma ParseIncomplete(s: seq<byte>)
    requires !StartsWithRecord(s)
    ensures Parse(s) == Parsed([], s)
  {
  }

  lemma ParseLoneEmpty(s: seq<byte>)
    requires LoneEmptyRecord(s)
    ensures Parse(s) == Parsed([FirstRecord(s)], [])
  {
    assert s[HEADER..] == [];
    assert Parse(s[HEADER..]) == Parsed([], []);
  }

  /** Feeding piecewise and parsing what is then held equals parsing everything at once. */
  lemma FeedThenParse(held: seq<byte>, buf: seq<byte>)
    requires Holdable(held)
    ensures Holdable(Feed(held, buf).rest)
    ensures var p := Feed(held, buf); var q := Parse(p.rest);
            Parse(held + buf) == Parsed(p.records + q.records, q.rest)
  {
    var p := Feed(held, buf);
    assert held + [] == held;
    ParseSound(held + buf);
    assert Parse(p.rest).records == [] || p.records == [];
  }

  lemma ConcatAssociates<T>(a: seq<T>, b: seq<T>, c: seq<T>)
    ensures (a + b) + c == a + (b + c)
  {
  }

  lemma {:induction false} FeedAllThenParse(held: seq<byte>, bufs: seq<seq<byte>>)
    requires Holdable(held)
    ensures Holdable(FeedAll(held, bufs).rest)
    ensures var p := FeedAll(held, bufs); var q := Parse(p.rest);
            Parse(held + Flatten(bufs)) == Parsed(p.records + q.records, q.rest)
    decreases |bufs|
  {
    hide Parse, Feed, Holdable;
    if bufs == [] {
      assert held + Flatten(bufs) == held;
    } else {
      var buf, more := bufs[0], Flatten(bufs[1..]);
      var p := Feed(held, buf);
      FeedThenParse(held, buf);
      FeedAllThenParse(p.rest, bufs[1..]);
      assert held + Flatten(bufs) == (held + buf) + more;
      ParseResumes(held + buf, more);
      ParseResumes(p.rest, more);
      var r, q := Parse(p.rest), FeedAll(p.rest, bufs[1..]);
      ConcatAssociates(p.records, r.records, Parse(r.rest + more).records);
      ConcatAssociates(p.records, q.records, Parse(q.rest).records);
    }
  }

  /** The last piece that carried any bytes, or [] when there is none. */
  function LastPiece(bufs: seq<seq<byte>>): seq<byte> {
    if bufs == [] then [] else
    var last := bufs[|bufs| - 1];
    if last != [] then last else LastPiece(bufs[..|bufs| - 1])
  }

  /**
   * Whether the receiver lags: the stream ends with an empty record and the last
   * piece began inside that record's header.
   */
  predicate Lags(bufs: seq<seq<byte>>) {
    var p := Parse(Flatten(bufs));
    && 0 < |LastPiece(bufs)| < HEADER
    && p.rest == []
    && p.records != []
    && p.records[|p.records| - 1].data == []
  }

  lemma {:induction false} FlattenSnoc(bufs: seq<seq<byte>>, buf: seq<byte>)
    ensures Flatten(bufs + [buf]) == Flatten(bufs) + buf
  {
    if bufs == [] {
      assert Flatten([buf]) == buf + Flatten([]);
    } else {
      assert (bufs + [buf])[1..] == bufs[1..] + [buf];
      FlattenSnoc(bufs[1..], buf);
    }
  }

  lemma {:induction false} FeedAllSnoc(held: seq<byte>, bufs: seq<seq<byte>>, buf: seq<byte>)
    ensures FeedAll(held, bufs + [buf]) ==
            var p := FeedAll(held, bufs); var q := Feed(p.rest, buf);
            Parsed(p.records + q.records, q.rest)
    decreases |bufs|
  {
    if bufs == [] {
      var q := Feed(held, buf);
      assert (bufs + [buf])[1..] == [];
      assert FeedAll(q.rest, []) == Parsed([], q.rest);
      assert q.records + [] == q.records && [] + q.records == q.records;
    } else {
      var p := Feed(held, bufs[0]);
      assert (bufs + [buf])[1..] == bufs[1..] + [buf];
      FeedAllSnoc(p.rest, bufs[1..], buf);
      var m := FeedAll(p.rest, bufs[1..]);
      var q := Feed(m.rest, buf);
      assert p.records + (m.records + q.records) == (p.records + m.records) + q.records;
    }
  }

  /** Exactly when the receiver sits on a complete record after the last piece. */
  lemma {:induction false} HoldsRecordIffLags(bufs: seq<seq<byte>>)
    ensures StartsWithRecord(FeedAll([], bufs).rest) <==> Lags(bufs)
    decreases |bufs|
  {
    hide Parse;
    if bufs == [] {
      return;
    }
    var front, last := bufs[..|bufs| - 1], bufs[|bufs| - 1];
    assert bufs == front + [last];
    FeedAllSnoc([], front, last);
    FlattenSnoc(front, last);
    if last == [] {
      assert FeedAll([], front).rest + [] == FeedAll([], front).rest;
      assert Flatten(front) + [] == Flatten(front);
      HoldsRecordIffLags(front);
      assert LastPiece(bufs) == LastPiece(front);
    } else {
      assert LastPiece(bufs) == last;
      var held := FeedAll([], front).rest;
      FeedAllThenParse([], front);
      assert [] + Flatten(front) == Flatten(front);
      LastPieceLags(front, held, last);
    }
  }

  lemma LastPieceLags(front: seq<seq<byte>>, held: seq<byte>, last: seq<byte>)
    requires last != [] && Holdable(held)
    requires var q := Parse(held); Parse(Flatten(front)).rest == q.rest
    ensures var p := Parse(Flatten(front) + last);
            StartsWithRecord(Feed(held, last).rest) <==>
            |last| < HEADER && p.rest == [] && p.records != [] && p.records[|p.records| - 1].data == []
  {
    var s := Flatten(front);
    ParseResumes(s, last);
    var rest := Parse(s).rest;
    var q := Parse(rest + last);
    var p := Parse(s + last);
    ParseSound(s);
    ParseSound(rest + last);
    if LoneEmptyRecord(held) {
      ParseLoneEmpty(held);
      assert rest == [] && rest + last == last;
      ParseSound(held + last);
      if |last| < HEADER {
        assert q == Parsed([], last) && p.rest == last;
      }
    } else {
      assert rest == held;
      if |last| < HEADER && p.rest == [] && p.records != [] && p.records[|p.records| - 1].data == [] {
        LastRecordEmpty(held, last, q);
      } else if |held + last| == HEADER && 0 < |held| {
        if LoneEmptyRecord(held + last) {
          ParseLoneEmpty(held + last);
        }
      }
    }
  }

  /** If the joined stream ends with an empty record, a short last piece lies inside its header. */
  lemma LastRecordEmpty(held: seq<byte>, last: seq<byte>, q: Parsed)
    requires !StartsWithRecord(held) && 0 < |last| < HEADER
    requires q == Parse(held + last) && q.rest == []
    ensures q.records != [] && q.records[|q.records| - 1].data == [] ==> LoneEmptyRecord(held + last) && 0 < |held|
    ensures q.records != []
  {
    ParseSound(held + last);
    var s := held + last;
    assert StartsWithRecord(s);
    var n := HEADER + BodyLength(s);
    assert |held| >= HEADER ==> held[3..5] == s[3..5];
    assert n > |held|;
    // the tail is shorter than a header, so it holds no further record and must be empty
    assert |s[n..]| < HEADER;
    assert Parse(s[n..]) == Parsed([], s[n..]);
    assert q.records == [FirstRecord(s)];
  }

  /**
   * Stream-split independence. However a stream is cut, what was delivered plus
   * what is held re-encodes to the stream, and what was delivered is what the
   * reference parser finds, except for one trailing empty record exactly when
   * the cut makes the receiver lag.
   */
  lemma SplitIndependence(bufs: seq<seq<byte>>)
    ensures var p, whole := FeedAll([], bufs), Parse(Flatten(bufs));
            && EncodeAll(p.records) + p.rest == Flatten(bufs)
            && (p == whole <==> !Lags(bufs))
            && (Lags(bufs) ==> LoneEmptyRecord(p.rest) && whole == Parsed(p.records + [FirstRecord(p.rest)], []))
  {
    hide Parse, FeedAll, Lags, Encode;
    var p := FeedAll([], bufs);
    var q := Parse(p.rest);
    FeedAllThenParse([], bufs);
    HoldsRecordIffLags(bufs);
    assert [] + Flatten(bufs) == Flatten(bufs);
    ParseSound(Flatten(bufs));
    if Lags(bufs) {
      ParseLoneEmpty(p.rest);
      assert q.records == [FirstRecord(p.rest)];
      EncodeAllSnoc(p.records, FirstRecord(p.rest));
      EncodeFirstRecord(p.rest);
    } else {
      ParseIncomplete(p.rest);
      assert p.records + [] == p.records;
    }
  }

  lemma {:induction false} EncodeAllSnoc(rs: seq<Record>, r: Record)
    ensures EncodeAll(rs + [r]) == EncodeAll(rs) + Encode(r)
  {
    if rs == [] {
      assert EncodeAll([r]) == Encode(r) + EncodeAll([]);
    } else {
      assert (rs + [r])[1..] == rs[1..] + [r];
      EncodeAllSnoc(rs[1..], r);
    }
  }

  /** The lag is real: three bytes then two of an empty record are held, all five at once are not. */
  lemma LagWitness()
    ensures FeedAll([], [[22, 3, 3], [0, 0]]) == Parsed([], [22, 3, 3, 0, 0])
    ensures FeedAll([], [[22, 3, 3, 0, 0]]) == Parsed([Record(22, 771, [])], [])
  {
    var s: seq<byte> := [22, 3, 3, 0, 0];
    assert Feed([], [22, 3, 3]) == Parsed([], [22, 3, 3]);
    assert [22, 3, 3] + [0, 0] == s;
    assert Feed([22, 3, 3], [0, 0]) == Parsed([], s);
    assert [[22, 3, 3], [0, 0]][1..] == [[0, 0]];
    assert FeedAll([22, 3, 3], [[0, 0]]) == Parsed([], s);
    assert [] + s == s;
    ParseLoneEmpty(s);
    assert FirstRecord(s) == Record(22, 771, []);
  }
}
