/**
  IPNS name records: choosing the best of several versions of a record,
  checking a record's end-of-life validity, laying out the bytes that are
  signed, copying byte buffers, and publishing a name (a local store write
  followed by a provider announcement).

  Calls the model cannot see are inputs: the RFC 3339 parser (together with
  the protobuf accessor that feeds it) is the oracle `timeOf`, the clock is
  the value `now`, and every allocation, the store's `put` and the routing
  layer's `send` are given as their results.
*/
module Publisher {
  import opened Wrappers

  newtype byte = x: int | 0 <= x < 0x100
  newtype int32 = x: int | -0x8000_0000 <= x < 0x8000_0000

  /** The contents of a NUL-terminated C string: the bytes before the terminator. */
  type CString = s: seq<byte> | forall i | 0 <= i < |s| :: s[i] != 0

  /** IpnsEntry.ValidityType: end-of-life is the only value, numbered 0. */
  const EOL: int32 := 0

  /** sizeof(IpnsEntry_ValidityType): the tag is a 32-bit enum. */
  const ValidityTypeSize: nat := 4

  /** A decoded IPNS entry; every field is a pointer that may be NULL. */
  datatype IpnsEntry = IpnsEntry(
    value: Option<CString>,
    validity: Option<CString>,
    validityType: Option<int32>,
    sequence: Option<nat>)

  /** struct timespec. */
  datatype Timespec = Timespec(sec: int, nsec: int)

  /** The outcome of parsing an RFC 3339 date-time: a time, or the parser's non-zero error code. */
  datatype TimeParse = Parsed(time: Timespec) | ParseFailed(code: int)

  /** The integer results of the functions in this file, by name. */
  datatype Status =
    | Ok
    | ErrAllocFailed
    | ErrInvalidParam
    | ErrNoRecord
    | ErrExpiredRecord
    | ErrUnrecognizedValidity
    | ParseError(code: int)

  /** The `int *idx` argument of the selector: NULL, or a cell holding a value. */
  datatype IntCell = Null | Cell(value: int)

  /** `a` is strictly later than `b`: seconds first, then nanoseconds. */
  predicate Later(a: Timespec, b: Timespec) {
    a.sec > b.sec || (a.sec == b.sec && a.nsec > b.nsec)
  }

  // ---------------------------------------------------------------------
  // memcmp(vals[i], vals[best_i], strlen(vals[best_i]))
  // ---------------------------------------------------------------------

  /**
    The sign of memcmp(a, b, strlen(b)) where `a` is a C string read through
    its terminating NUL: the comparison stops at the first differing byte,
    and a shorter `a` differs from `b` at its terminator (0 against a
    non-zero byte of `b`).
  */
  function MemcmpPrefix(a: CString, b: CString): (r: int)
    ensures -1 <= r <= 1
    decreases |b|
  {
    if |b| == 0 then 0
    else if |a| == 0 then -1
    else if a[0] > b[0] then 1
    else if a[0] < b[0] then -1
    else MemcmpPrefix(a[1..], b[1..])
  }

  /** The strict lexicographic order on byte strings (a proper prefix is smaller). */
  predicate LexGreater(a: seq<byte>, b: seq<byte>)
    decreases |a|
  {
    if |a| == 0 then false
    else if |b| == 0 then true
    else a[0] > b[0] || (a[0] == b[0] && LexGreater(a[1..], b[1..]))
  }

  /**
    memcmp over strlen of the current best is positive exactly when the
    candidate is lexicographically greater AND the best is not a prefix of
    it: a candidate that merely extends the best never wins the tie.
  */
  lemma {:induction false} MemcmpPrefixMeaning(a: CString, b: CString)
    ensures MemcmpPrefix(a, b) > 0 <==> LexGreater(a, b) && !(b <= a)
    decreases |b|
  {
    if |b| == 0 {
    } else if |a| == 0 {
    } else if a[0] == b[0] {
      MemcmpPrefixMeaning(a[1..], b[1..]);
      assert b <= a <==> b[1..] <= a[1..];
    }
  }

  // ---------------------------------------------------------------------
  // ipns_select_record
  // ---------------------------------------------------------------------

  /** The loop state of the selector: best_i (-1 while none) and best_seq. */
  datatype Best = Best(index: int, sequence: nat)

  const NoBest := Best(-1, 0)

  /**
    One iteration of the selector's loop, for record `i`: only record `i`
    can replace the best, best_seq never goes down, and a record without a
    sequence number, or a tie whose validities do not both parse, keeps the
    best.
  */
  function Step(b: Best, i: nat, recs: seq<IpnsEntry>, vals: seq<CString>,
                timeOf: IpnsEntry -> TimeParse): (r: Best)
    requires i < |recs| <= |vals| && -1 <= b.index < i
    ensures r == b || (r.index == i && recs[i].sequence == Some(r.sequence))
    ensures b.index != -1 ==> r.sequence >= b.sequence
    ensures recs[i].sequence.None? ==> r == b
    ensures (b.index != -1 && recs[i].sequence == Some(b.sequence) &&
             !(timeOf(recs[i]).Parsed? && timeOf(recs[b.index]).Parsed?)) ==> r == b
  {
    match recs[i].sequence
    case None => b
    case Some(s) =>
      if s < b.sequence then b
      else if b.index == -1 || s > b.sequence then Best(i, s)
      else
        match (timeOf(recs[i]), timeOf(recs[b.index]))
        case (Parsed(rt), Parsed(bt)) =>
          if Later(rt, bt) then Best(i, b.sequence)
          else if rt == bt && MemcmpPrefix(vals[i], vals[b.index]) > 0 then Best(i, b.sequence)
          else b
        case _ => b
  }

  /** The selector's loop state after the first `n` records. */
  function Scan(recs: seq<IpnsEntry>, vals: seq<CString>, timeOf: IpnsEntry -> TimeParse, n: nat): (b: Best)
    requires n <= |recs| <= |vals|
    ensures -1 <= b.index < n
    ensures b.index == -1 ==> b == NoBest
  {
    if n == 0 then NoBest else Step(Scan(recs, vals, timeOf, n - 1), n - 1, recs, vals, timeOf)
  }

  /** Among the first `n` records, record `k` carries a sequence number no smaller than any other's. */
  predicate HoldsMaxSequence(recs: seq<IpnsEntry>, n: nat, k: int)
    requires n <= |recs|
  {
    0 <= k < n && recs[k].sequence.Some? &&
    forall j | 0 <= j < n && recs[j].sequence.Some? :: recs[j].sequence.value <= recs[k].sequence.value
  }

  /** None of the first `n` records carries a sequence number. */
  predicate NoneSequenced(recs: seq<IpnsEntry>, n: nat)
    requires n <= |recs|
  {
    forall j | 0 <= j < n :: recs[j].sequence.None?
  }

  /** Among the first `n` records, every one whose sequence is `s` has a validity that parses. */
  predicate TiedParse(recs: seq<IpnsEntry>, n: nat, timeOf: IpnsEntry -> TimeParse, s: nat)
    requires n <= |recs|
  {
    forall j | 0 <= j < n && recs[j].sequence == Some(s) :: timeOf(recs[j]).Parsed?
  }

  /** Record `k`'s validity is not earlier than that of any of the first `n` records of sequence `s`. */
  predicate LatestAmongTied(recs: seq<IpnsEntry>, n: nat, timeOf: IpnsEntry -> TimeParse, s: nat, k: int)
    requires n <= |recs| && 0 <= k < |recs| && TiedParse(recs, n, timeOf, s) && timeOf(recs[k]).Parsed?
  {
    forall j | 0 <= j < n && recs[j].sequence == Some(s) :: !Later(timeOf(recs[j]).time, timeOf(recs[k]).time)
  }

  /**
    After any prefix, the loop has found a record exactly when one of the
    prefix has a sequence number, and then best_seq is the largest sequence
    number of the prefix and best_i holds it.
  */
  lemma {:induction false} ScanFindsMaximum(recs: seq<IpnsEntry>, vals: seq<CString>,
                                            timeOf: IpnsEntry -> TimeParse, n: nat)
    requires n <= |recs| <= |vals|
    ensures Scan(recs, vals, timeOf, n).index == -1 <==> NoneSequenced(recs, n)
    ensures var b := Scan(recs, vals, timeOf, n);
      b.index != -1 ==> recs[b.index].sequence == Some(b.sequence) && HoldsMaxSequence(recs, n, b.index)
  {
    if n > 0 {
      ScanFindsMaximum(recs, vals, timeOf, n - 1);
    }
  }

  /**
    When every record tied at the winning sequence number has a validity that
    parses, the winner's validity is the latest among them: the timestamp
    tie-break is order independent.
  */
  lemma {:induction false} ScanPicksLatest(recs: seq<IpnsEntry>, vals: seq<CString>,
                                           timeOf: IpnsEntry -> TimeParse, n: nat)
    requires n <= |recs| <= |vals|
    ensures var b := Scan(recs, vals, timeOf, n);
      b.index != -1 && TiedParse(recs, n, timeOf, b.sequence) ==>
        recs[b.index].sequence == Some(b.sequence) && timeOf(recs[b.index]).Parsed? &&
        LatestAmongTied(recs, n, timeOf, b.sequence, b.index)
  {
    if n > 0 {
      var b0 := Scan(recs, vals, timeOf, n - 1);
      var b := Scan(recs, vals, timeOf, n);
      ScanPicksLatest(recs, vals, timeOf, n - 1);
      ScanFindsMaximum(recs, vals, timeOf, n - 1);
      ScanFindsMaximum(recs, vals, timeOf, n);
      if b.index != -1 && TiedParse(recs, n, timeOf, b.sequence) && b0.index != -1 && b.sequence == b0.sequence {
        assert TiedParse(recs, n - 1, timeOf, b0.sequence);
      }
    }
  }

  /**
    ipns_select_record. A NULL argument gives ErrInvalidParam; a list in
    which no record has a sequence number (the empty list included) gives
    ErrNoRecord; in both cases *idx is left as it was. Otherwise the result
    is 0 and *idx is the index the loop settled on: a record of the highest
    sequence number, with the latest validity among its ties whenever their
    validities all parse.
  */
  method SelectRecord(idx: IntCell, recs: Option<seq<IpnsEntry>>, vals: Option<seq<CString>>,
                      timeOf: IpnsEntry -> TimeParse) returns (status: Status, newIdx: IntCell)
    requires recs.Some? && vals.Some? ==> |recs.value| <= |vals.value|
    ensures idx.Null? || recs.None? || vals.None? ==> status == ErrInvalidParam && newIdx == idx
    ensures idx.Cell? && recs.Some? && vals.Some? && NoneSequenced(recs.value, |recs.value|) ==>
      status == ErrNoRecord && newIdx == idx
    ensures idx.Cell? && recs.Some? && vals.Some? && !NoneSequenced(recs.value, |recs.value|) ==>
      status == Ok && newIdx == Cell(Scan(recs.value, vals.value, timeOf, |recs.value|).index) &&
      HoldsMaxSequence(recs.value, |recs.value|, newIdx.value)
    ensures status == Ok && TiedParse(recs.value, |recs.value|, timeOf, recs.value[newIdx.value].sequence.value) ==>
      timeOf(recs.value[newIdx.value]).Parsed? &&
      LatestAmongTied(recs.value, |recs.value|, timeOf, recs.value[newIdx.value].sequence.value, newIdx.value)
  {
    if idx.Null? || recs.None? || vals.None? {
      return ErrInvalidParam, idx;
    }
    var rs, vs := recs.value, vals.value;
    var bestI, bestSeq := -1, 0;
    var i := 0;
    while i < |rs|
      invariant 0 <= i <= |rs|
      invariant Best(bestI, bestSeq) == Scan(rs, vs, timeOf, i)
    {
      match rs[i].sequence {
        case None =>
        case Some(s) =>
          if s < bestSeq {
          } else if bestI == -1 || s > bestSeq {
            bestSeq, bestI := s, i;
          } else {
            var rt := timeOf(rs[i]);
            if rt.Parsed? {
              var bestt := timeOf(rs[bestI]);
              if bestt.Parsed? {
                if Later(rt.time, bestt.time) {
                  bestI := i;
                } else if rt.time == bestt.time {
                  if MemcmpPrefix(vs[i], vs[bestI]) > 0 {
                    bestI := i;
                  }
                }
              }
            }
          }
      }
      i := i + 1;
    }
    ScanFindsMaximum(rs, vs, timeOf, |rs|);
    ScanPicksLatest(rs, vs, timeOf, |rs|);
    if bestI == -1 {
      return ErrNoRecord, idx;
    }
    return Ok, Cell(bestI);
  }

  /** Lines 79-81: a record whose sequence is below best_seq keeps the best. */
  lemma StepSkipsLowerSequence(b: Best, i: nat, recs: seq<IpnsEntry>, vals: seq<CString>,
                               timeOf: IpnsEntry -> TimeParse, s: nat)
    requires i < |recs| <= |vals| && -1 <= b.index < i
    requires recs[i].sequence == Some(s) && s < b.sequence
    ensures Step(b, i, recs, vals, timeOf) == b
  {
  }

  /**
    Lines 82-85: while no record is held, or when its sequence is strictly
    higher, a record replaces the best whatever the validities are.
  */
  lemma StepTakesHigherSequence(b: Best, i: nat, recs: seq<IpnsEntry>, vals: seq<CString>,
                                timeOf: IpnsEntry -> TimeParse, s: nat)
    requires i < |recs| <= |vals| && -1 <= b.index < i && (b.index == -1 ==> b == NoBest)
    requires recs[i].sequence == Some(s) && (b.index == -1 || s > b.sequence)
    ensures Step(b, i, recs, vals, timeOf) == Best(i, s)
  {
  }

  /**
    Lines 86-99: on a tie whose two validities parse, the candidate replaces
    the best iff its validity is later, or equal with a positive memcmp;
    best_seq stays as it was.
  */
  lemma StepTieRule(b: Best, i: nat, recs: seq<IpnsEntry>, vals: seq<CString>, timeOf: IpnsEntry -> TimeParse)
    requires i < |recs| <= |vals| && 0 <= b.index < i
    requires recs[i].sequence == Some(b.sequence)
    requires timeOf(recs[i]).Parsed? && timeOf(recs[b.index]).Parsed?
    ensures var r, rt, bt := Step(b, i, recs, vals, timeOf), timeOf(recs[i]).time, timeOf(recs[b.index]).time;
      && r.sequence == b.sequence
      && (r.index == i <==> Later(rt, bt) || (rt == bt && MemcmpPrefix(vals[i], vals[b.index]) > 0))
      && (r.index != i ==> r == b)
  {
  }

  /** Two records: a higher sequence number wins despite an earlier validity. */
  lemma SequenceDominatesValidity(a: IpnsEntry, b: IpnsEntry, vals: seq<CString>, timeOf: IpnsEntry -> TimeParse)
    requires a.sequence == Some(1) && b.sequence == Some(2) && |vals| >= 2
    ensures Scan([a, b], vals, timeOf, 2).index == 1
  {
  }

  /** Two records: on equal sequence numbers the later validity wins. */
  lemma LaterValidityWinsTie(a: IpnsEntry, b: IpnsEntry, vals: seq<CString>, timeOf: IpnsEntry -> TimeParse)
    requires a.sequence == Some(5) && b.sequence == Some(5) && |vals| >= 2
    requires timeOf(a).Parsed? && timeOf(b).Parsed? && Later(timeOf(b).time, timeOf(a).time)
    ensures Scan([a, b], vals, timeOf, 2).index == 1
  {
  }

  /** The guard lets a first record of sequence 0 be chosen, because best_i is still -1. */
  lemma ZeroSequenceSelectable(a: IpnsEntry, vals: seq<CString>, timeOf: IpnsEntry -> TimeParse)
    requires a.sequence == Some(0) && |vals| >= 1
    ensures Scan([a], vals, timeOf, 1) == Best(0, 0)
  {
  }

  /** A candidate whose raw value extends the best's keeps the best, although it is lexicographically greater. */
  lemma ExtendingValueLosesTie(a: IpnsEntry, b: IpnsEntry, timeOf: IpnsEntry -> TimeParse)
    requires a.sequence == Some(3) && b.sequence == Some(3)
    requires timeOf(a).Parsed? && timeOf(b) == timeOf(a)
    ensures var vals: seq<CString> := [[0x41], [0x41, 0x42]];
      LexGreater(vals[1], vals[0]) && Scan([a, b], vals, timeOf, 2).index == 0
  {
    var vals: seq<CString> := [[0x41], [0x41, 0x42]];
    MemcmpPrefixMeaning(vals[1], vals[0]);
  }

  // ---------------------------------------------------------------------
  // ipns_validate_ipns_record
  // ---------------------------------------------------------------------

  /** ipfs_namesys_pb_get_validity_type: an absent tag reads as the protobuf default, EOL. */
  function ValidityTypeOf(e: IpnsEntry): int32 {
    e.validityType.GetOr(EOL)
  }

  /**
    ipns_validate_ipns_record as written. A failed entry allocation gives
    ErrAllocFailed; a tag other than EOL gives ErrUnrecognizedValidity; an
    EOL entry whose validity does not parse gives the parser's code; an EOL
    entry whose validity parses is reported expired exactly when the clock's
    nanosecond field exceeds the validity's (the seconds are never compared
    and the second disjunct of the test can never hold); otherwise 0.
  */
  function ValidateRecord(allocOk: bool, entry: IpnsEntry, now: Timespec,
                          timeOf: IpnsEntry -> TimeParse): (r: Status)
    ensures r == ErrAllocFailed <==> !allocOk
    ensures r == ErrUnrecognizedValidity <==> allocOk && ValidityTypeOf(entry) != EOL
    ensures r.ParseError? <==> allocOk && ValidityTypeOf(entry) == EOL && timeOf(entry).ParseFailed?
    ensures r.ParseError? ==> r.code == timeOf(entry).code
    ensures r == ErrExpiredRecord <==>
      allocOk && ValidityTypeOf(entry) == EOL && timeOf(entry).Parsed? && now.nsec > timeOf(entry).time.nsec
    ensures r == Ok <==>
      allocOk && ValidityTypeOf(entry) == EOL && timeOf(entry).Parsed? && now.nsec <= timeOf(entry).time.nsec
  {
    if !allocOk then ErrAllocFailed
    else if ValidityTypeOf(entry) == EOL then
      match timeOf(entry)
      case ParseFailed(code) => ParseError(code)
      case Parsed(ts) =>
        if now.nsec > ts.nsec || (now.nsec == ts.nsec && now.nsec > ts.nsec) then ErrExpiredRecord
        else Ok
    else ErrUnrecognizedValidity
  }

  /**
    The check the expiry test evidently means: an EOL record has expired
    once the clock is later than its validity, comparing seconds and then
    nanoseconds as the selector does.
  */
  function ValidateRecordIntended(allocOk: bool, entry: IpnsEntry, now: Timespec,
                                  timeOf: IpnsEntry -> TimeParse): (r: Status)
    ensures r == ErrExpiredRecord <==>
      allocOk && ValidityTypeOf(entry) == EOL && timeOf(entry).Parsed? && Later(now, timeOf(entry).time)
    ensures r == Ok <==>
      allocOk && ValidityTypeOf(entry) == EOL && timeOf(entry).Parsed? && !Later(now, timeOf(entry).time)
    ensures !(r == Ok || r == ErrExpiredRecord) ==> r == ValidateRecord(allocOk, entry, now, timeOf)
  {
    if allocOk && ValidityTypeOf(entry) == EOL && timeOf(entry).Parsed? then
      (if Later(now, timeOf(entry).time) then ErrExpiredRecord else Ok)
    else ValidateRecord(allocOk, entry, now, timeOf)
  }

  /** Within one second the test as written and the intended test agree. */
  lemma ValidateAgreesWithinSecond(allocOk: bool, entry: IpnsEntry, now: Timespec, timeOf: IpnsEntry -> TimeParse)
    requires timeOf(entry).Parsed? ==> timeOf(entry).time.sec == now.sec
    ensures ValidateRecord(allocOk, entry, now, timeOf) == ValidateRecordIntended(allocOk, entry, now, timeOf)
  {
  }

  /** A record valid for another million seconds is reported expired by the test as written. */
  lemma FutureRecordReportedExpired(entry: IpnsEntry, timeOf: IpnsEntry -> TimeParse)
    requires ValidityTypeOf(entry) == EOL
    requires timeOf(entry) == Parsed(Timespec(1_001_000_000, 0))
    ensures ValidateRecord(true, entry, Timespec(1_000_000_000, 5), timeOf) == ErrExpiredRecord
    ensures ValidateRecordIntended(true, entry, Timespec(1_000_000_000, 5), timeOf) == Ok
  {
  }

  /** A record whose end of life lies decades back is accepted by the test as written. */
  lemma PastRecordReportedValid(entry: IpnsEntry, timeOf: IpnsEntry -> TimeParse)
    requires ValidityTypeOf(entry) == EOL
    requires timeOf(entry) == Parsed(Timespec(946_684_800, 999_999_999))
    ensures ValidateRecord(true, entry, Timespec(1_704_067_200, 0), timeOf) == Ok
    ensures ValidateRecordIntended(true, entry, Timespec(1_704_067_200, 0), timeOf) == ErrExpiredRecord
  {
  }

  // ---------------------------------------------------------------------
  // ipns_entry_data_for_sig
  // ---------------------------------------------------------------------

  /** The in-memory bytes of a validity-type tag (32-bit two's complement, little-endian). */
  function TypeBytes(t: int32): (b: seq<byte>)
    ensures |b| == ValidityTypeSize
  {
    var u := if t < 0 then t as int + 0x1_0000_0000 else t as int;
    var u1 := u / 0x100;
    var u2 := u1 / 0x100;
    var u3 := u2 / 0x100;
    [(u % 0x100) as byte, (u1 % 0x100) as byte, (u2 % 0x100) as byte, (u3 % 0x100) as byte]
  }

  /** Reads a validity-type tag back from its in-memory bytes. */
  function TypeOfBytes(b: seq<byte>): int32
    requires |b| == ValidityTypeSize
  {
    var u := b[0] as int + 0x100 * (b[1] as int + 0x100 * (b[2] as int + 0x100 * b[3] as int));
    if u >= 0x8000_0000 then (u - 0x1_0000_0000) as int32 else u as int32
  }

  lemma TypeBytesRoundTrip(t: int32)
    ensures TypeOfBytes(TypeBytes(t)) == t
  {
    var u := if t < 0 then t as int + 0x1_0000_0000 else t as int;
    var u1 := u / 0x100;
    var u2 := u1 / 0x100;
    var u3 := u2 / 0x100;
    assert u == u % 0x100 + 0x100 * u1;
    assert u1 == u1 % 0x100 + 0x100 * u2;
    assert u2 == u2 % 0x100 + 0x100 * u3;
    assert u3 < 0x100;
    var b := TypeBytes(t);
    assert b[0] as int + 0x100 * (b[1] as int + 0x100 * (b[2] as int + 0x100 * b[3] as int)) == u;
  }

  /** The buffer ipns_entry_data_for_sig returns for the entry's fields. */
  function SigData(value: CString, validity: CString, validityType: Option<int32>): seq<byte>
  {
    value + validity + TypeBytes(validityType.GetOr(EOL)) + [0]
  }

  /**
    The signed buffer splits back into its parts: the value, then the
    validity, then the tag's bytes (EOL when the entry has none), then a
    zero byte.
  */
  lemma SigDataLayout(value: CString, validity: CString, validityType: Option<int32>)
    ensures var d := SigData(value, validity, validityType); var n := |value| + |validity|;
      |d| == n + ValidityTypeSize + 1 &&
      d[..|value|] == value && d[|value|..n] == validity &&
      TypeOfBytes(d[n..n + ValidityTypeSize]) == validityType.GetOr(EOL) &&
      d[|d| - 1] == 0
  {
    var d := SigData(value, validity, validityType);
    var n := |value| + |validity|;
    assert d[n..n + ValidityTypeSize] == TypeBytes(validityType.GetOr(EOL));
    TypeBytesRoundTrip(validityType.GetOr(EOL));
  }

  /** Two entries that sign the same bytes have the same validity type, once value and validity lengths agree. */
  lemma SigDataDeterminesType(v1: CString, d1: CString, t1: Option<int32>, v2: CString, d2: CString, t2: Option<int32>)
    requires |v1| + |d1| == |v2| + |d2|
    requires SigData(v1, d1, t1) == SigData(v2, d2, t2)
    ensures t1.GetOr(EOL) == t2.GetOr(EOL)
  {
    SigDataLayout(v1, d1, t1);
    SigDataLayout(v2, d2, t2);
  }

  /**
    The byte-filling steps of ipns_entry_data_for_sig (strcpy, strcat and
    memcpy): `src` is written at `offset` and the rest of the buffer is left
    as it was. The terminators strcpy and strcat write are overwritten by
    the next step, and the final one is already in place from calloc.
  */
  method WriteBytes(dst: array<byte>, offset: nat, src: seq<byte>)
    requires offset + |src| <= dst.Length
    modifies dst
    ensures forall m | 0 <= m < dst.Length ::
      dst[m] == if offset <= m < offset + |src| then src[m - offset] else old(dst[m])
  {
    var i := 0;
    while i < |src|
      invariant 0 <= i <= |src|
      invariant forall m | 0 <= m < dst.Length ::
        dst[m] == if offset <= m < offset + i then src[m - offset] else old(dst[m])
    {
      dst[offset + i] := src[i];
      i := i + 1;
    }
  }

  /**
    ipns_entry_data_for_sig: NULL when the entry, its value or its validity
    is missing or the calloc fails; otherwise a fresh buffer holding
    SigData of the entry's fields.
  */
  method EntryDataForSig(entry: Option<IpnsEntry>, allocOk: bool) returns (ret: array?<byte>)
    ensures ret == null <==>
      entry.None? || entry.value.value.None? || entry.value.validity.None? || !allocOk
    ensures ret != null ==>
      fresh(ret) && ret[..] == SigData(entry.value.value.value, entry.value.validity.value, entry.value.validityType)
  {
    if entry.None? || entry.value.value.None? || entry.value.validity.None? {
      return null;
    }
    var value, validity := entry.value.value.value, entry.value.validity.value;
    if !allocOk {
      return null;
    }
    var tag := TypeBytes(entry.value.validityType.GetOr(EOL));
    // calloc: every byte starts at zero
    ret := new byte[|value| + |validity| + ValidityTypeSize + 1](_ => 0);
    WriteBytes(ret, 0, value);
    WriteBytes(ret, |value|, validity);
    WriteBytes(ret, |value| + |validity|, tag);
    ghost var d := SigData(value, validity, entry.value.validityType);
    assert forall m | 0 <= m < ret.Length :: ret[m] == d[m];
    assert ret[..] == d;
  }

  // ---------------------------------------------------------------------
  // ipfs_namesys_copy_bytes
  // ---------------------------------------------------------------------

  /**
    ipfs_namesys_copy_bytes: on success (1) *to is a fresh buffer equal to
    the first from_size bytes of `from` and *to_size is from_size; when the
    malloc fails (0) *to is NULL and *to_size keeps its old value.
  */
  method CopyBytes(from: seq<byte>, fromSize: int, oldToSize: int, allocOk: bool)
    returns (ok: int, to: array?<byte>, toSize: int)
    requires 0 <= fromSize <= |from|
    ensures ok == (if allocOk then 1 else 0)
    ensures allocOk ==> to != null && fresh(to) && to[..] == from[..fromSize] && toSize == fromSize
    ensures !allocOk ==> to == null && toSize == oldToSize
  {
    if !allocOk {
      return 0, null, oldToSize;
    }
    to := new byte[fromSize];
    var i := 0;
    while i < fromSize
      invariant 0 <= i <= fromSize
      invariant to[..i] == from[..i]
    {
      to[i] := from[i];
      i := i + 1;
    }
    return 1, to, fromSize;
  }

  // ---------------------------------------------------------------------
  // ipfs_namesys_publish
  // ---------------------------------------------------------------------

  /** local_node->identity->peer: the node's own peer, known by its id bytes. */
  datatype Identity = Identity(id: seq<byte>)

  /** A content identifier; only its hash bytes take part in publishing. */
  datatype Cid = Cid(hash: seq<byte>)

  /** The points where publishing allocates, in the order they are reached. */
  datatype AllocSite =
    | StoreRecordNew | StoreKeyCopy | StoreValueCopy
    | MessageNew | MessageRecordNew | AuthorCopy | RecordKeyCopy | RecordValueCopy

  /** The announcement as the routing layer receives it. */
  datatype Announcement = Announcement(providers: seq<Identity>, author: seq<byte>, key: seq<byte>, value: seq<byte>)

  /** struct DatastoreRecord: a key and a value, each a buffer with its size. */
  class DatastoreRecord {
    var key: array?<byte>
    var keySize: int
    var value: array?<byte>
    var valueSize: int

    constructor ()
      ensures key == null && keySize == 0 && value == null && valueSize == 0
    {
      key, keySize, value, valueSize := null, 0, null, 0;
    }
  }

  /** The local datastore, seen through its put operation. */
  class Datastore {
    var contents: map<seq<byte>, seq<byte>>

    constructor (initial: map<seq<byte>, seq<byte>>)
      ensures contents == initial
    {
      contents := initial;
    }

    /** datastore_put: whether the store accepts the record is an input; an accepted record is stored under its key. */
    method Put(record: DatastoreRecord, accepted: bool) returns (ok: bool)
      requires record.key != null && 0 <= record.keySize <= record.key.Length
      requires record.value != null && 0 <= record.valueSize <= record.value.Length
      modifies this
      ensures ok == accepted
      ensures contents == if accepted
        then old(contents)[record.key[..record.keySize] := record.value[..record.valueSize]]
        else old(contents)
    {
      if accepted {
        contents := contents[record.key[..record.keySize] := record.value[..record.valueSize]];
      }
      ok := accepted;
    }
  }

  /** struct Libp2pRecord: author, key and value buffers with their sizes. */
  class Libp2pRecord {
    var author: array?<byte>
    var authorSize: int
    var key: array?<byte>
    var keySize: int
    var value: array?<byte>
    var valueSize: int

    constructor ()
      ensures author == null && key == null && value == null
      ensures authorSize == 0 && keySize == 0 && valueSize == 0
    {
      author, key, value := null, null, null;
      authorSize, keySize, valueSize := 0, 0, 0;
    }
  }

  /** struct KademliaMessage: the provider list and the embedded record. */
  class KademliaMessage {
    var providers: seq<Identity>
    var record: Libp2pRecord?

    constructor ()
      ensures providers == [] && record == null
    {
      providers, record := [], null;
    }
  }

  /** The local write succeeds: the record and both copies are allocated and the store accepts the record. */
  predicate LocalWriteSucceeds(allocOk: AllocSite -> bool, putAccepted: bool) {
    allocOk(StoreRecordNew) && allocOk(StoreKeyCopy) && allocOk(StoreValueCopy) && putAccepted
  }

  /** Every allocation of the announcement succeeds. */
  predicate AnnouncementBuilt(allocOk: AllocSite -> bool) {
    allocOk(MessageNew) && allocOk(MessageRecordNew) &&
    allocOk(AuthorCopy) && allocOk(RecordKeyCopy) && allocOk(RecordValueCopy)
  }

  /**
    The "store locally" half of ipfs_namesys_publish: build a datastore
    record whose key is the cid's hash and whose value is the node's id, and
    put it. Succeeds exactly when every allocation succeeds and the store
    accepts the record; only then does the store change.
  */
  method StoreLocally(store: Datastore, self: Identity, cid: Cid, allocOk: AllocSite -> bool, putAccepted: bool)
    returns (ok: bool)
    modifies store
    ensures ok == LocalWriteSucceeds(allocOk, putAccepted)
    ensures store.contents == if ok then old(store.contents)[cid.hash := self.id] else old(store.contents)
  {
    if !allocOk(StoreRecordNew) {
      return false;
    }
    var record := new DatastoreRecord();
    var copied: int, buf: array?<byte>, size: int;
    copied, buf, size := CopyBytes(cid.hash, |cid.hash|, record.keySize, allocOk(StoreKeyCopy));
    record.key, record.keySize := buf, size;
    if copied == 0 {
      return false;
    }
    copied, buf, size := CopyBytes(self.id, |self.id|, record.valueSize, allocOk(StoreValueCopy));
    record.value, record.valueSize := buf, size;
    if copied == 0 {
      return false;
    }
    assert record.key[..record.keySize] == cid.hash && record.value[..record.valueSize] == self.id;
    ok := store.Put(record, putAccepted);
  }

  /**
    The "propagate to network" half of ipfs_namesys_publish: build the
    Kademlia message with the node as its one provider and a record whose
    author, key and value are the id, the hash and the id. Nothing when an
    allocation fails.
  */
  method BuildAnnouncement(self: Identity, cid: Cid, allocOk: AllocSite -> bool) returns (ann: Option<Announcement>)
    ensures ann == if AnnouncementBuilt(allocOk)
      then Some(Announcement([self], self.id, cid.hash, self.id)) else None
  {
    if !allocOk(MessageNew) {
      return None;
    }
    var msg := new KademliaMessage();
    msg.providers := [self];
    if !allocOk(MessageRecordNew) {
      return None;
    }
    var rec := new Libp2pRecord();
    msg.record := rec;
    var copied: int, buf: array?<byte>, size: int;
    copied, buf, size := CopyBytes(self.id, |self.id|, rec.authorSize, allocOk(AuthorCopy));
    rec.author, rec.authorSize := buf, size;
    if copied == 0 {
      return None;
    }
    copied, buf, size := CopyBytes(cid.hash, |cid.hash|, rec.keySize, allocOk(RecordKeyCopy));
    rec.key, rec.keySize := buf, size;
    if copied == 0 {
      return None;
    }
    copied, buf, size := CopyBytes(self.id, |self.id|, rec.valueSize, allocOk(RecordValueCopy));
    rec.value, rec.valueSize := buf, size;
    if copied == 0 {
      return None;
    }
    assert rec.author[..rec.authorSize] == self.id && rec.key[..rec.keySize] == cid.hash;
    ann := Some(Announcement(msg.providers, rec.author[..rec.authorSize],
                             rec.key[..rec.keySize], rec.value[..rec.valueSize]));
  }

  /**
    ipfs_namesys_publish. Any failure before the hand-off returns 0 and
    sends nothing. After a successful put the store maps the cid's hash to
    the node's id, and later failures do not undo that write. The
    announcement names the node itself as its single provider and carries
    the record (author = id, key = hash, value = id); publish returns what
    the send returns.
  */
  method Publish(store: Datastore, self: Identity, cid: Cid, allocOk: AllocSite -> bool,
                 putAccepted: bool, send: (Identity, Announcement) -> int)
    returns (r: int, sent: Option<Announcement>)
    modifies store
    ensures store.contents == if LocalWriteSucceeds(allocOk, putAccepted)
      then old(store.contents)[cid.hash := self.id] else old(store.contents)
    ensures sent == if LocalWriteSucceeds(allocOk, putAccepted) && AnnouncementBuilt(allocOk)
      then Some(Announcement([self], self.id, cid.hash, self.id)) else None
    ensures r == if sent.Some? then send(self, sent.value) else 0
  {
    var stored := StoreLocally(store, self, cid, allocOk, putAccepted);
    if !stored {
      return 0, None;
    }
    sent := BuildAnnouncement(self, cid, allocOk);
    if sent.None? {
      return 0, None;
    }
    r := send(self, sent.value);
  }
}
