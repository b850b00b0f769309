/** The text form of a list of records, as `cdbdump` prints it and `cdbmake` reads it. */
module CdbText {
  import opened Words
  import opened CdbFormat

  const NL: byte := 10
  const PLUS: byte := 43
  const COMMA: byte := 44
  const MINUS: byte := 45
  const ZERO: byte := 48
  const COLON: byte := 58
  const GREATER: byte := 62

  /** The bound that `cdbmake` puts on a length before it takes another digit. */
  const LENGTH_GUARD := 429496720

  function Pow10(k: nat): nat { if k == 0 then 1 else 10 * Pow10(k - 1) }

  function Decimal(n: nat): (s: seq<byte>)
    ensures |s| > 0 && forall i :: 0 <= i < |s| ==> ZERO <= s[i] <= ZERO + 9
  {
    if n < 10 then [ZERO + n] else Decimal(n / 10) + [ZERO + n % 10]
  }

  function RecordText(r: Record): seq<byte> {
    [PLUS] + Decimal(|r.key|) + [COMMA] + Decimal(|r.data|) + [COLON] + r.key + [MINUS, GREATER] + r.data + [NL]
  }

  function Body(rs: seq<Record>): seq<byte> {
    if rs == [] then [] else RecordText(rs[0]) + Body(rs[1..])
  }

  /** One line per record and an empty line. */
  function Text(rs: seq<Record>): seq<byte> {
    Body(rs) + [NL]
  }

  lemma {:induction false} BodyAppend(rs: seq<Record>, r: Record)
    ensures Body(rs + [r]) == Body(rs) + RecordText(r)
  {
    hide RecordText;
    if rs == [] {
      assert Body([r]) == RecordText(r) + Body([r][1..]);
    } else {
      BodyAppend(rs[1..], r);
      assert (rs + [r])[1..] == rs[1..] + [r];
    }
  }

  // What `cdbmake` accepts

  datatype Parsed<+T> = Bad | Good(value: T, rest: seq<byte>)

  predicate IsDigit(c: byte) { ZERO <= c <= ZERO + 9 }

  /** A decimal length up to the byte `stop`. */
  function ParseNum(s: seq<byte>, stop: byte, acc: uint32): (p: Parsed<uint32>)
    ensures p.Good? ==> |p.rest| < |s|
  {
    if s == [] then Bad
    else if s[0] == stop then Good(acc, s[1..])
    else if !IsDigit(s[0]) || acc > LENGTH_GUARD then Bad
    else ParseNum(s[1..], stop, acc * 10 + (s[0] - ZERO))
  }

  /** key -> data and the end of the line, of known lengths. */
  function ParsePair(s: seq<byte>, klen: uint32, dlen: uint32): (p: Parsed<Record>)
    ensures p.Good? ==> |p.rest| < |s|
  {
    if |s| < klen + dlen + 3 then Bad
    else if s[klen] != MINUS || s[klen + 1] != GREATER || s[klen + 2 + dlen] != NL then Bad
    else Good(Record(s[..klen], s[klen + 2..klen + 2 + dlen]), s[klen + dlen + 3..])
  }

  /** One record, after its plus sign. */
  function ParseRecord(s: seq<byte>): (p: Parsed<Record>)
    ensures p.Good? ==> |p.rest| < |s|
  {
    var k := ParseNum(s, COMMA, 0);
    if k.Bad? then Bad else
    var d := ParseNum(k.rest, COLON, 0);
    if d.Bad? then Bad else
    ParsePair(d.rest, k.value, d.value)
  }

  function Parse(s: seq<byte>): Parsed<seq<Record>>
    decreases |s|
  {
    if s == [] then Bad
    else if s[0] == NL then Good([], s[1..])
    else if s[0] != PLUS then Bad
    else
      var r := ParseRecord(s[1..]);
      if r.Bad? then Bad else
      Before([r.value], Parse(r.rest))
  }

  /** The records rs followed by what was parsed next. */
  function Before(rs: seq<Record>, p: Parsed<seq<Record>>): Parsed<seq<Record>> {
    if p.Bad? then Bad else Good(rs + p.value, p.rest)
  }

  lemma BeforeNone(p: Parsed<seq<Record>>)
    ensures Before([], p) == p
  {
    if p.Good? {
      assert [] + p.value == p.value;
    }
  }

  lemma BeforeBefore(a: seq<Record>, b: seq<Record>, p: Parsed<seq<Record>>)
    ensures Before(a, Before(b, p)) == Before(a + b, p)
  {
    if p.Good? {
      assert a + (b + p.value) == a + b + p.value;
    }
  }

  // The round trip

  /** The number read after the digits of n, if none of its prefixes trips the guard. */
  lemma {:induction false} ParseDecimal(n: uint32, stop: byte, rest: seq<byte>)
    requires !IsDigit(stop) && n / 10 <= LENGTH_GUARD
    ensures ParseNum(Decimal(n) + rest, stop, 0) == ParseNum(rest, stop, n)
  {
    if n < 10 {
      var s := Decimal(n) + rest;
      assert s[0] == ZERO + n && s[1..] == rest;
    } else {
      var tail := [ZERO + n % 10] + rest;
      ParseDecimal(n / 10, stop, tail);
      assert Decimal(n) + rest == Decimal(n / 10) + tail;
      assert tail[0] == ZERO + n % 10 && tail[1..] == rest;
    }
  }

  /** Exactly the lengths below 4294967210 survive the guard. */
  lemma {:induction false} ParseDecimalExact(n: uint32, stop: byte, rest: seq<byte>)
    requires !IsDigit(stop)
    ensures ParseNum(Decimal(n) + [stop] + rest, stop, 0) ==
            if n < 4294967210 then Good(n, rest) else Bad
  {
    var s := [stop] + rest;
    assert s[0] == stop && s[1..] == rest;
    assert Decimal(n) + [stop] + rest == Decimal(n) + s;
    if n / 10 <= LENGTH_GUARD {
      ParseDecimal(n, stop, s);
    } else {
      var tail := [ZERO + n % 10] + s;
      ParseDecimal(n / 10, stop, tail);
      assert Decimal(n) + s == Decimal(n / 10) + tail;
      assert tail[0] == ZERO + n % 10;
    }
  }

  lemma {:induction false} ParseRecordText(r: Record, rest: seq<byte>)
    requires |r.key| < 4294967210 && |r.data| < 4294967210
    ensures (RecordText(r) + rest)[0] == PLUS
    ensures ParseRecord((RecordText(r) + rest)[1..]) == Good(r, rest)
  {
    hide ParseNum, Decimal;
    var pair := r.key + [MINUS, GREATER] + r.data + [NL] + rest;
    var second := Decimal(|r.data|) + [COLON] + pair;
    assert (RecordText(r) + rest)[1..] == Decimal(|r.key|) + [COMMA] + second;
    ParseDecimalExact(|r.key|, COMMA, second);
    ParseDecimalExact(|r.data|, COLON, pair);
    ParsePairText(r, rest, pair);
  }

  lemma {:induction false} ParsePairText(r: Record, rest: seq<byte>, s: seq<byte>)
    requires s == r.key + [MINUS, GREATER] + r.data + [NL] + rest
    ensures ParsePair(s, |r.key|, |r.data|) == Good(r, rest)
  {
    var k, d := |r.key|, |r.data|;
    assert s[..k] == r.key && s[k + 2..k + 2 + d] == r.data && s[k + d + 3..] == rest;
  }

  /** Parsing the printed text gives the records back. */
  lemma {:induction false} ParseText(rs: seq<Record>, rest: seq<byte>)
    requires forall i :: 0 <= i < |rs| ==>
               |rs[i].key| < 4294967210 && |rs[i].data| < 4294967210
    ensures Parse(Text(rs) + rest) == Good(rs, rest)
  {
    hide RecordText, ParseRecord;
    if rs == [] {
      var s := Text(rs) + rest;
      assert s[0] == NL && s[1..] == rest;
    } else {
      var more := Text(rs[1..]) + rest;
      ParseText(rs[1..], rest);
      ParseRecordText(rs[0], more);
      assert Text(rs) + rest == RecordText(rs[0]) + more;
      assert [rs[0]] + rs[1..] == rs;
    }
  }

  /** In a database with at least eight tables no length trips the guard. */
  lemma {:induction false} FittingLengths(tables: nat, rs: seq<Record>, i: nat)
    requires Fits(tables, rs) && tables >= 8 && i < |rs|
    ensures |rs[i].key| < 4294967210 && |rs[i].data| < 4294967210
  {
    DataAreaAt(rs, i);
  }

  /** Every finished database survives the trip through its text form. */
  lemma {:induction false} TextRoundTrip(tables: nat, rs: seq<Record>, rest: seq<byte>)
    requires Fits(tables, rs) && tables >= 8
    ensures Parse(Text(rs) + rest) == Good(rs, rest)
  {
    forall i | 0 <= i < |rs|
      ensures |rs[i].key| < 4294967210 && |rs[i].data| < 4294967210
    {
      FittingLengths(tables, rs, i);
    }
    ParseText(rs, rest);
  }
}
