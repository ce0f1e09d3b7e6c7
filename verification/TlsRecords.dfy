/** The record structure that Lite-TLS sees in a byte stream (section 6.2.1 of RFC 5246 and
    section 5.1 of RFC 8446): where records begin, how a direction is scanned for its first
    application-data record, and how it is skipped up to the leave command. */
module TlsRecords {
  import opened Bytes

  const LEAVE_TLS_COMMAND: seq<byte> := [0xff, 0x03, 0x03, 0, 0x01, 0x01]

  datatype Direction = Inbound | Outbound

  datatype Seen0x17 = Nothing | FromInbound | FromOutbound | BothDirections

  datatype LeaveTlsMode = Active | Passive

  /** The position just after the record whose header starts at p. */
  function RecordEnd(s: seq<byte>, p: nat): (q: nat)
    requires p + 5 <= |s|
  {
    p + 5 + FromBE(s[p + 3], s[p + 4])
  }

  /** A record of the given type: its header holds the length of its body in network order. */
  function Record(t: byte, version: u16, body: seq<byte>): seq<byte>
    requires |body| < 65536
  {
    [t] + ToBE(version) + ToBE(|body|) + body
  }

  /** Wherever a record stands in a stream, RecordEnd finds the end of its body. */
  lemma RecordEndOfRecord(before: seq<byte>, t: byte, version: u16, body: seq<byte>, rest: seq<byte>)
    requires |body| < 65536
    ensures var s := before + Record(t, version, body) + rest;
            RecordEnd(s, |before|) == |before + Record(t, version, body)| && s[|before|] == t
  {
    var r := Record(t, version, body);
    var s := before + r + rest;
    assert s[|before| + 3] == r[3] == ToBE(|body|)[0] && s[|before| + 4] == r[4] == ToBE(|body|)[1];
  }

  /** q is reached from p by following record headers that are all present in s.  The last
      record may be incomplete, so q may lie beyond the end of s. */
  ghost predicate Boundary(s: seq<byte>, p: nat, q: nat)
    decreases q - p
  {
    p == q || (p < q && p + 5 <= |s| && Boundary(s, RecordEnd(s, p), q))
  }

  lemma {:induction false} BoundaryTrans(s: seq<byte>, p: nat, q: nat, r: nat)
    requires Boundary(s, p, q) && Boundary(s, q, r)
    ensures Boundary(s, p, r)
    decreases q - p
  {
    if p != q {
      BoundaryTrans(s, RecordEnd(s, p), q, r);
    }
  }

  lemma {:induction false} BoundarySplit(s: seq<byte>, p: nat, q: nat, b: nat)
    requires Boundary(s, p, q) && Boundary(s, p, b) && q <= b
    ensures Boundary(s, q, b)
    decreases q - p
  {
    if p != q {
      BoundarySplit(s, RecordEnd(s, p), q, b);
    }
  }

  lemma BoundaryNext(s: seq<byte>, p: nat, q: nat)
    requires Boundary(s, p, q) && q + 5 <= |s|
    ensures Boundary(s, p, RecordEnd(s, q))
  {
    assert Boundary(s, q, RecordEnd(s, q));
    BoundaryTrans(s, p, q, RecordEnd(s, q));
  }

  /** Boundaries do not move when more bytes arrive. */
  lemma {:induction false} BoundaryExtend(s: seq<byte>, t: seq<byte>, p: nat, q: nat)
    requires s <= t
    requires Boundary(s, p, q)
    ensures Boundary(t, p, q)
    decreases q - p
  {
    if p != q {
      BoundaryExtend(s, t, RecordEnd(s, p), q);
    }
  }

  /** A boundary inside a prefix is already a boundary of the prefix. */
  lemma {:induction false} BoundaryRestrict(s: seq<byte>, t: seq<byte>, p: nat, q: nat)
    requires s <= t && q <= |s|
    requires Boundary(t, p, q)
    ensures Boundary(s, p, q)
    decreases q - p
  {
    if p != q {
      assert RecordEnd(t, p) <= q;
      BoundaryRestrict(s, t, RecordEnd(t, p), q);
    }
  }

  /** Following headers of t alone never jumps over a boundary b of s that lies at or beyond
      the end of t. */
  lemma {:induction false} BoundaryNoJump(t: seq<byte>, s: seq<byte>, p: nat, q: nat, b: nat)
    requires t <= s && |t| <= b
    requires Boundary(t, p, q) && Boundary(s, p, b)
    ensures q <= b
    decreases q - p
  {
    if p != q {
      BoundaryNoJump(t, s, RecordEnd(t, p), q, b);
    }
  }

  /** Boundaries of the bytes after a dropped prefix. */
  lemma {:induction false} BoundaryShift(x: seq<byte>, s: seq<byte>, p: nat, q: nat)
    ensures Boundary(s, p, q) <==> Boundary(x + s, |x| + p, |x| + q)
    decreases q - p
  {
    if p < q && p + 5 <= |s| {
      assert (x + s)[|x| + p + 3] == s[p + 3] && (x + s)[|x| + p + 4] == s[p + 4];
      assert RecordEnd(x + s, |x| + p) == |x| + RecordEnd(s, p);
      BoundaryShift(x, s, RecordEnd(s, p), q);
    }
  }

  // ---- scanning one direction ------------------------------------------------------------

  datatype Verdict = Incomplete | Invalid | Leave(mode: LeaveTlsMode)

  datatype Scan = Scan(cursor: nat, seen: Seen0x17, verdict: Verdict)

  function Witness(seen: Seen0x17, dir: Direction): (r: Seen0x17)
    requires !seen.BothDirections?
  {
    match (seen, dir)
    case (Nothing, Inbound) => FromInbound
    case (Nothing, Outbound) => FromOutbound
    case (FromInbound, Outbound) => BothDirections
    case (FromOutbound, Inbound) => BothDirections
    case _ => seen
  }

  predicate RelayedType(t: byte) {
    t == 0x14 || t == 0x15 || t == 0x16 || t == 0x17
  }

  /** What one scan of s from position p finds. */
  function ScanFrom(s: seq<byte>, p: nat, seen: Seen0x17, dir: Direction): (r: Scan)
    requires !seen.BothDirections?
    ensures r.seen.BothDirections? <==> r.verdict == Leave(Active)
    decreases |s| - p
  {
    if |s| <= p then Scan(p, seen, Incomplete)
    else if s[p] == 0xff then Scan(p, seen, Leave(Passive))
    else if !RelayedType(s[p]) then Scan(p, seen, Invalid)
    else
      var seen' := if s[p] == 0x17 then Witness(seen, dir) else seen;
      if seen'.BothDirections? then Scan(p, seen', Leave(Active))
      else if |s| < p + 5 then Scan(p, seen', Incomplete)
      else if |s| < RecordEnd(s, p) then Scan(RecordEnd(s, p), seen', Incomplete)
      else ScanFrom(s, RecordEnd(s, p), seen', dir)
  }

  /** What a verdict says about the place where the scan stopped. */
  lemma {:induction false} ScanMeaning(s: seq<byte>, p: nat, seen: Seen0x17, dir: Direction)
    requires !seen.BothDirections?
    ensures var r := ScanFrom(s, p, seen, dir);
            && Boundary(s, p, r.cursor)
            && (r.verdict.Incomplete? ==>
                  |s| < r.cursor + 5 && (r.cursor < |s| ==> RelayedType(s[r.cursor])))
            && (r.verdict.Invalid? ==>
                  r.cursor < |s| && s[r.cursor] != 0xff && !RelayedType(s[r.cursor]))
            && (r.verdict == Leave(Passive) ==> r.cursor < |s| && s[r.cursor] == 0xff)
            && (r.verdict == Leave(Active) ==> r.cursor < |s| && s[r.cursor] == 0x17)
    decreases |s| - p
  {
    if p + 5 <= |s| && RelayedType(s[p]) {
      var seen' := if s[p] == 0x17 then Witness(seen, dir) else seen;
      if !seen'.BothDirections? && RecordEnd(s, p) <= |s| {
        ScanMeaning(s, RecordEnd(s, p), seen', dir);
      }
    }
  }

  // ---- what a scan looks for -----------------------------------------------------------------

  /** The other direction has shown application data. */
  predicate OtherSeen(seen: Seen0x17, dir: Direction) {
    seen == if dir.Inbound? then FromOutbound else FromInbound
  }

  /** Handshake, alert and cipher-change records decide nothing, and neither does application
      data as long as the other direction has shown none. */
  predicate PassedOver(t: byte, other: bool) {
    0x14 <= t <= 0x16 || (t == 0x17 && !other)
  }

  /** The first record from p on that is not passed over begins at q. */
  ghost predicate DecidesAt(s: seq<byte>, p: nat, q: nat, other: bool) {
    && Boundary(s, p, q) && q < |s| && !PassedOver(s[q], other)
    && forall r: nat :: r < q && Boundary(s, p, r) ==> PassedOver(s[r], other)
  }

  function VerdictOn(t: byte): Verdict {
    if t == 0x17 then Leave(Active) else if t == 0xff then Leave(Passive) else Invalid
  }

  /** An application-data record begins at or before c. */
  ghost predicate DataBy(s: seq<byte>, p: nat, c: nat) {
    exists q: nat :: q <= c && q < |s| && Boundary(s, p, q) && s[q] == 0x17
  }

  /** What ScanIff says of the result r of a scan. */
  ghost predicate ScanMeans(s: seq<byte>, p: nat, seen: Seen0x17, dir: Direction, r: Scan) {
    && (r.verdict.Incomplete? <==> forall q: nat :: !DecidesAt(s, p, q, OtherSeen(seen, dir)))
    && (forall q: nat :: DecidesAt(s, p, q, OtherSeen(seen, dir)) ==> r.cursor == q && r.verdict == VerdictOn(s[q]))
    && r.seen == (if r.verdict == Leave(Active) then BothDirections
                  else if DataBy(s, p, r.cursor) then (if dir.Inbound? then FromInbound else FromOutbound)
                  else seen)
  }

  /** The meaning of a scan, from the records alone.  It is incomplete if and only if no record
      decides; otherwise it stops at the first one that does and reports what that record is.
      Application data decides if and only if the other direction has shown some before. */
  lemma {:induction false} ScanIff(s: seq<byte>, p: nat, seen: Seen0x17, dir: Direction)
    requires !seen.BothDirections?
    ensures ScanMeans(s, p, seen, dir, ScanFrom(s, p, seen, dir))
    decreases |s| - p
  {
    hide Boundary, ScanMeans;
    var other := OtherSeen(seen, dir);
    if p < |s| && !PassedOver(s[p], other) {
      DecidesHere(s, p, seen, dir);
    } else if |s| < p + 5 {
      DecidesNowhere(s, p, seen, dir);
    } else {
      var seen', p' := if s[p] == 0x17 then Witness(seen, dir) else seen, RecordEnd(s, p);
      if |s| < p' {
        DecidesNowhere(s, p', seen', dir);
        DecidesLater(s, p, seen, dir, Scan(p', seen', Incomplete));
      } else {
        ScanIff(s, p', seen', dir);
        ScanMeaning(s, p', seen', dir);
        Onward(s, p');
        DecidesLater(s, p, seen, dir, ScanFrom(s, p', seen', dir));
      }
    }
  }

  lemma Onward(s: seq<byte>, p: nat)
    ensures Boundary(s, p, p) && forall q: nat :: Boundary(s, p, q) ==> p <= q
    ensures |s| < p + 5 ==> forall q: nat :: Boundary(s, p, q) ==> q == p
    ensures |s| >= p + 5 ==> forall q: nat :: Boundary(s, p, q) <==> q == p || Boundary(s, RecordEnd(s, p), q)
  {
  }

  lemma DecidesHere(s: seq<byte>, p: nat, seen: Seen0x17, dir: Direction)
    requires !seen.BothDirections? && p < |s| && !PassedOver(s[p], OtherSeen(seen, dir))
    ensures ScanMeans(s, p, seen, dir, ScanFrom(s, p, seen, dir))
  {
    hide Boundary;
    Onward(s, p);
    assert DecidesAt(s, p, p, OtherSeen(seen, dir));
  }

  lemma DecidesNowhere(s: seq<byte>, p: nat, seen: Seen0x17, dir: Direction)
    requires !seen.BothDirections? && |s| < p + 5 && (p < |s| ==> PassedOver(s[p], OtherSeen(seen, dir)))
    ensures ScanMeans(s, p, seen, dir, ScanFrom(s, p, seen, dir))
    ensures p >= |s| ==> ScanFrom(s, p, seen, dir) == Scan(p, seen, Incomplete)
  {
    hide Boundary;
    Onward(s, p);
  }

  lemma DecidesLater(s: seq<byte>, p: nat, seen: Seen0x17, dir: Direction, r: Scan)
    requires !seen.BothDirections? && p + 5 <= |s| && PassedOver(s[p], OtherSeen(seen, dir))
    requires var seen' := if s[p] == 0x17 then Witness(seen, dir) else seen;
             !seen'.BothDirections? && ScanMeans(s, RecordEnd(s, p), seen', dir, r) && r.cursor >= RecordEnd(s, p)
    ensures ScanMeans(s, p, seen, dir, r)
  {
    hide Boundary;
    var other, seen' := OtherSeen(seen, dir), if s[p] == 0x17 then Witness(seen, dir) else seen;
    Onward(s, p);
    assert OtherSeen(seen', dir) == other;
    forall q: nat ensures DecidesAt(s, p, q, other) <==> DecidesAt(s, RecordEnd(s, p), q, other) {
    }
    assert DataBy(s, p, r.cursor) <==> s[p] == 0x17 || DataBy(s, RecordEnd(s, p), r.cursor);
  }

  /** A decisive verdict does not change when more bytes arrive; an Incomplete scan can be
      resumed at its cursor with the Seen0x17 it left. */
  lemma {:induction false} ScanResume(s: seq<byte>, t: seq<byte>, p: nat, seen: Seen0x17, dir: Direction)
    requires s <= t && !seen.BothDirections?
    ensures var r := ScanFrom(s, p, seen, dir);
            if r.verdict.Incomplete?
            then ScanFrom(t, p, seen, dir) == ScanFrom(t, r.cursor, r.seen, dir)
            else ScanFrom(t, p, seen, dir) == r
    decreases |s| - p
  {
    if p + 5 <= |s| && RelayedType(s[p]) {
      var seen' := if s[p] == 0x17 then Witness(seen, dir) else seen;
      if !seen'.BothDirections? && RecordEnd(s, p) <= |s| {
        ScanResume(s, t, RecordEnd(s, p), seen', dir);
      }
    }
  }

  /** Scanning is not affected by a prefix that has already been dropped. */
  lemma {:induction false} ScanShift(x: seq<byte>, s: seq<byte>, p: nat, seen: Seen0x17, dir: Direction)
    requires !seen.BothDirections?
    ensures var r := ScanFrom(s, p, seen, dir);
            ScanFrom(x + s, |x| + p, seen, dir) == Scan(|x| + r.cursor, r.seen, r.verdict)
    decreases |s| - p
  {
    var y := x + s;
    if p < |s| {
      assert y[|x| + p] == s[p];
    }
    if p + 5 <= |s| && RelayedType(s[p]) {
      assert y[|x| + p + 3] == s[p + 3] && y[|x| + p + 4] == s[p + 4];
      var seen' := if s[p] == 0x17 then Witness(seen, dir) else seen;
      if !seen'.BothDirections? && RecordEnd(s, p) <= |s| {
        ScanShift(x, s, RecordEnd(s, p), seen', dir);
      }
    }
  }

  /** Every record that starts inside s has one of the four relayed types. */
  ghost predicate RelayedTypes(s: seq<byte>) {
    forall q: nat :: q < |s| && Boundary(s, 0, q) ==> RelayedType(s[q])
  }

  // ---- skipping records up to the leave command ------------------------------------------

  /** The first boundary from p on whose header is incomplete or whose type is 0xff. */
  function SkipRecords(s: seq<byte>, p: nat): (q: nat)
    decreases |s| - p
  {
    if p + 5 <= |s| && s[p] != 0xff then SkipRecords(s, RecordEnd(s, p)) else p
  }

  lemma {:induction false} SkipMeaning(s: seq<byte>, p: nat)
    ensures var q := SkipRecords(s, p);
            && Boundary(s, p, q)
            && (q + 5 <= |s| ==> s[q] == 0xff)
    decreases |s| - p
  {
    if p + 5 <= |s| && s[p] != 0xff {
      SkipMeaning(s, RecordEnd(s, p));
    }
  }

  lemma {:induction false} SkipShift(x: seq<byte>, s: seq<byte>, p: nat)
    ensures SkipRecords(x + s, |x| + p) == |x| + SkipRecords(s, p)
    decreases |s| - p
  {
    if p + 5 <= |s| {
      var y := x + s;
      assert y[|x| + p] == s[p] && y[|x| + p + 3] == s[p + 3] && y[|x| + p + 4] == s[p + 4];
      if s[p] != 0xff {
        SkipShift(x, s, RecordEnd(s, p));
      }
    }
  }

  /** Whole records that are not leave commands, from p up to b. */
  ghost predicate NoLeaveBefore(s: seq<byte>, p: nat, b: nat)
    decreases b - p
  {
    p == b || (p < b && p + 5 <= |s| && s[p] != 0xff && NoLeaveBefore(s, RecordEnd(s, p), b))
  }
}
