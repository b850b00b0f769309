/** The text format of `cdbdump` and `cdbmake`, character by character. */
module CdbGrammar {
  import opened Words
  import opened CdbFormat
  import opened CdbText

  /** The bytes of a text. */
  function Ascii(s: string): (b: seq<byte>)
    requires forall i :: 0 <= i < |s| ==> s[i] as int < 256
    ensures |b| == |s| && forall i :: 0 <= i < |s| ==> b[i] == s[i] as int
  {
    seq(|s|, i requires 0 <= i < |s| => s[i] as int)
  }

  predicate Digits(ds: seq<byte>) {
    forall i :: 0 <= i < |ds| ==> '0' as int <= ds[i] <= '9' as int
  }

  /** What the digits stand for: each one counts for a power of ten. */
  function Value(ds: seq<byte>): nat
    requires Digits(ds)
  {
    if ds == [] then 0 else (ds[0] - '0' as int) * Pow10(|ds| - 1) + Value(ds[1..])
  }

  /** `cdbmake` takes another digit only while the number so far is at most this. */
  predicate Guarded(ds: seq<byte>, from: nat)
    requires Digits(ds)
  {
    forall k :: from <= k < |ds| ==> Value(ds[..k]) <= 429496720
  }

  lemma {:induction false} ValueNext(ds: seq<byte>, d: byte)
    requires Digits(ds) && '0' as int <= d <= '9' as int
    ensures Digits(ds + [d]) && Value(ds + [d]) == 10 * Value(ds) + (d - '0' as int)
  {
    var all := ds + [d];
    if ds == [] {
      assert all[1..] == [] && Pow10(0) == 1;
    } else {
      ValueNext(ds[1..], d);
      assert all[1..] == ds[1..] + [d];
      assert Pow10(|ds|) == 10 * Pow10(|ds| - 1);
      TimesTen(ds[0] - '0' as int, Pow10(|ds| - 1));
    }
  }

  lemma TimesTen(a: int, p: nat)
    ensures a * (10 * p) == 10 * (a * p)
  {
  }

  /** The decimal form of a number: its value is the number, and it has no zeros in front. */
  lemma {:induction false} DecimalIs(n: nat)
    ensures Digits(Decimal(n)) && Value(Decimal(n)) == n && (n > 0 ==> Decimal(n)[0] != '0' as int)
  {
    hide Value;
    if n < 10 {
      ValueNext([], '0' as int + n);
      assert [] + ['0' as int + n] == Decimal(n) && Value([]) == 0 by { ValueNothing(); }
    } else {
      DecimalIs(n / 10);
      ValueNext(Decimal(n / 10), '0' as int + n % 10);
    }
  }

  lemma ValueNothing()
    ensures Digits([]) && Value([]) == 0
  {
  }

  /** A dumped line. */
  lemma {:induction false} DumpedLine(r: Record)
    ensures RecordText(r) ==
            Ascii("+") + Decimal(|r.key|) + Ascii(",") + Decimal(|r.data|) + Ascii(":") +
            r.key + Ascii("->") + r.data + Ascii("\n")
  {
    hide Decimal;
    assert Ascii("+") == [PLUS] && Ascii(",") == [COMMA] && Ascii(":") == [COLON];
    assert Ascii("->") == [MINUS, GREATER] && Ascii("\n") == [NL];
  }

  /** Digits, then the byte that ends them. */
  lemma {:induction false} NumSound(s: seq<byte>, stop: byte, pre: seq<byte>) returns (ds: seq<byte>)
    requires Digits(pre) && Value(pre) < TWO32 && ParseNum(s, stop, Value(pre)).Good?
    ensures var p := ParseNum(s, stop, Value(pre));
            && s == ds + [stop] + p.rest
            && Digits(ds) && Digits(pre + ds) && Value(pre + ds) == p.value && Guarded(pre + ds, |pre|)
  {
    hide Value;
    if s[0] == stop {
      ds := [];
      assert pre + [] == pre && s == [] + [stop] + s[1..];
    } else {
      ValueNext(pre, s[0]);
      var more := NumSound(s[1..], stop, pre + [s[0]]);
      ds := [s[0]] + more;
      assert pre + [s[0]] + more == pre + ds;
      assert s == [s[0]] + s[1..];
      assert (pre + ds)[..|pre|] == pre;
    }
  }

  lemma {:induction false} NumComplete(ds: seq<byte>, stop: byte, rest: seq<byte>, pre: seq<byte>)
    requires Digits(pre) && Digits(ds) && Digits(pre + ds) && !IsDigit(stop) && Guarded(pre + ds, |pre|)
    requires Value(pre) < TWO32
    ensures Value(pre + ds) < TWO32 && ParseNum(ds + [stop] + rest, stop, Value(pre)) == Good(Value(pre + ds), rest)
  {
    hide Value;
    var s := ds + [stop] + rest;
    if ds == [] {
      assert pre + ds == pre && s[0] == stop && s[1..] == rest;
    } else {
      assert (pre + ds)[..|pre|] == pre;
      ValueNext(pre, ds[0]);
      assert pre + [ds[0]] + ds[1..] == pre + ds;
      NumComplete(ds[1..], stop, rest, pre + [ds[0]]);
      assert s[0] == ds[0] && s[1..] == ds[1..] + [stop] + rest;
    }
  }

  /** s is a line for r, with any digits that stand for its lengths, and rest behind it. */
  ghost predicate LineFor(s: seq<byte>, r: Record, rest: seq<byte>) {
    exists ds, es ::
      && Digits(ds) && Digits(es) && Guarded(ds, 0) && Guarded(es, 0)
      && Value(ds) == |r.key| && Value(es) == |r.data|
      && s == Ascii("+") + ds + Ascii(",") + es + Ascii(":") + r.key + Ascii("->") + r.data + Ascii("\n") + rest
  }

  /** s is a line for each record, then an empty line and rest behind it. */
  ghost predicate TextFor(s: seq<byte>, rs: seq<Record>, rest: seq<byte>)
    decreases |rs|
  {
    if rs == [] then s == Ascii("\n") + rest
    else exists more :: LineFor(s, rs[0], more) && TextFor(more, rs[1..], rest)
  }

  lemma {:induction false} PairSound(s: seq<byte>, klen: uint32, dlen: uint32)
    requires ParsePair(s, klen, dlen).Good?
    ensures var p := ParsePair(s, klen, dlen);
            && |p.value.key| == klen && |p.value.data| == dlen
            && s == p.value.key + [MINUS, GREATER] + p.value.data + [NL] + p.rest
  {
    var k, d := klen as int, dlen as int;
    assert s == s[..k] + s[k..k + 2] + s[k + 2..k + 2 + d] + s[k + 2 + d..k + 3 + d] + s[k + 3 + d..];
    assert s[k..k + 2] == [MINUS, GREATER] && s[k + 2 + d..k + 3 + d] == [NL];
  }

  /** One line is accepted exactly if it has the form. */
  lemma {:induction false} LineExact(s: seq<byte>, r: Record, rest: seq<byte>)
    ensures s != [] && s[0] == '+' as int && ParseRecord(s[1..]) == Good(r, rest) <==> LineFor(s, r, rest)
  {
    Marks();
    if s != [] && s[0] == '+' as int && ParseRecord(s[1..]) == Good(r, rest) {
      LineSound(s, r, rest);
    }
    if LineFor(s, r, rest) {
      LineComplete(s, r, rest);
    }
  }

  lemma Marks()
    ensures Ascii("+") == [PLUS] && Ascii(",") == [COMMA] && Ascii(":") == [COLON]
    ensures Ascii("->") == [MINUS, GREATER] && Ascii("\n") == [NL]
  {
  }

  lemma {:induction false} LineSound(s: seq<byte>, r: Record, rest: seq<byte>)
    requires s != [] && s[0] == PLUS && ParseRecord(s[1..]) == Good(r, rest)
    ensures LineFor(s, r, rest)
  {
    hide Value, ParseNum, ParsePair, Guarded, Digits;
    Marks();
    assert Digits([]) && Value([]) == 0 by { ValueNothing(); }
    var k := ParseNum(s[1..], COMMA, 0);
    var ds := NumSound(s[1..], COMMA, []);
    var d := ParseNum(k.rest, COLON, 0);
    var es := NumSound(k.rest, COLON, []);
    assert [] + ds == ds && [] + es == es;
    PairSound(d.rest, k.value, d.value);
    LineJoined(s, ds, es, r, rest);
  }

  lemma LineJoined(s: seq<byte>, ds: seq<byte>, es: seq<byte>, r: Record, rest: seq<byte>)
    requires s != [] && s[0] == PLUS
    requires s[1..] == ds + [COMMA] + (es + [COLON] + (r.key + [MINUS, GREATER] + r.data + [NL] + rest))
    ensures s == [PLUS] + ds + [COMMA] + es + [COLON] + r.key + [MINUS, GREATER] + r.data + [NL] + rest
  {
    assert s == [PLUS] + s[1..];
  }

  lemma {:induction false} LineComplete(s: seq<byte>, r: Record, rest: seq<byte>)
    requires LineFor(s, r, rest)
    ensures s != [] && s[0] == PLUS && ParseRecord(s[1..]) == Good(r, rest)
  {
    hide Value, ParseNum, ParsePair;
    Marks();
    ValueNothing();
    var ds, es :|
      && Digits(ds) && Digits(es) && Guarded(ds, 0) && Guarded(es, 0)
      && Value(ds) == |r.key| && Value(es) == |r.data|
      && s == Ascii("+") + ds + Ascii(",") + es + Ascii(":") + r.key + Ascii("->") + r.data + Ascii("\n") + rest;
    var pair := r.key + [MINUS, GREATER] + r.data + [NL] + rest;
    var second := es + [COLON] + pair;
    LinePieces(s, ds, es, r, rest);
    assert [] + ds == ds && [] + es == es;
    hide Guarded, Digits;
    NumComplete(ds, COMMA, second, []);
    NumComplete(es, COLON, pair, []);
    ParsePairText(r, rest, pair);
  }

  lemma LinePieces(s: seq<byte>, ds: seq<byte>, es: seq<byte>, r: Record, rest: seq<byte>)
    requires s == [PLUS] + ds + [COMMA] + es + [COLON] + r.key + [MINUS, GREATER] + r.data + [NL] + rest
    ensures s != [] && s[0] == PLUS
    ensures s[1..] == ds + [COMMA] + (es + [COLON] + (r.key + [MINUS, GREATER] + r.data + [NL] + rest))
  {
  }

  /** `cdbmake` accepts exactly the texts of the form, and reads exactly their records. */
  lemma {:induction false} ParseExact(s: seq<byte>, rs: seq<Record>, rest: seq<byte>)
    ensures Parse(s) == Good(rs, rest) <==> TextFor(s, rs, rest)
    decreases |s| + |rs|
  {
    hide ParseRecord, LineFor;
    Marks();
    if rs == [] {
      if Parse(s) == Good(rs, rest) {
        assert s == [s[0]] + s[1..];
      }
      if TextFor(s, rs, rest) {
        assert s[0] == NL && s[1..] == rest;
      }
    } else {
      if Parse(s) == Good(rs, rest) {
        var r := ParseRecord(s[1..]);
        LineExact(s, r.value, r.rest);
        var q := Parse(r.rest);
        assert rs[1..] == q.value && rs[0] == r.value;
        ParseExact(r.rest, rs[1..], rest);
      }
      if TextFor(s, rs, rest) {
        var more :| LineFor(s, rs[0], more) && TextFor(more, rs[1..], rest);
        LineExact(s, rs[0], more);
        ParseExact(more, rs[1..], rest);
        assert [rs[0]] + rs[1..] == rs;
      }
    }
  }
}
