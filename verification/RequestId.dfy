/**
 Request ids: 64-bit words of timestamp, random and sequence fields, written in 12 base-62 digits.
 */
module RequestId {
  import opened Text

  const EPOCH_MILLI := 1577836800000
  const TS_LIMIT: nat := 0x100_0000_0000
  const RAND_LIMIT: nat := 0x4000
  const SEQ_LIMIT: nat := 0x400
  const SEQ_MAX: nat := 1023
  const WORD: nat := 0x1_0000_0000_0000_0000
  const ID_WIDTH: nat := 12

  // Base 62

  predicate IsDigit(c: char) {
    '0' <= c <= '9' || 'A' <= c <= 'Z' || 'a' <= c <= 'z'
  }

  /** The alphabet: digits, capitals, small letters. */
  function CharOf(d: nat): (c: char)
    requires d < 62
    ensures IsDigit(c) && DigitOf(c) == d
  {
    if d < 10 then '0' + d as char
    else if d < 36 then 'A' + (d - 10) as char
    else 'a' + (d - 36) as char
  }

  function DigitOf(c: char): (d: nat)
    requires IsDigit(c)
    ensures d < 62
  {
    if '0' <= c <= '9' then c as int - '0' as int
    else if 'A' <= c <= 'Z' then c as int - 'A' as int + 10
    else c as int - 'a' as int + 36
  }

  predicate IsBase62(s: string) {
    forall i :: 0 <= i < |s| ==> IsDigit(s[i])
  }

  /** The number a digit string stands for. */
  ghost function Value(s: string): nat
    requires IsBase62(s)
  {
    if s == "" then 0 else Value(s[..|s| - 1]) * 62 + DigitOf(s[|s| - 1])
  }

  ghost function Pow62(n: nat): nat {
    if n == 0 then 1 else 62 * Pow62(n - 1)
  }

  /** The last `width` base-62 digits of `v`. */
  ghost function Encode(v: nat, width: nat): string {
    if width == 0 then "" else Encode(v / 62, width - 1) + [CharOf(v % 62)]
  }

  lemma {:induction false} EncodeShape(v: nat, width: nat)
    ensures |Encode(v, width)| == width && IsBase62(Encode(v, width))
  {
    if width > 0 {
      EncodeShape(v / 62, width - 1);
    }
  }

  lemma {:induction false} ValueBound(s: string)
    requires IsBase62(s)
    ensures Value(s) < Pow62(|s|)
  {
    if s != "" {
      ValueBound(s[..|s| - 1]);
    }
  }

  /** A word survives in `width` digits exactly when it is below 62 to the `width`. */
  lemma {:induction false} ValueOfEncode(v: nat, width: nat)
    ensures |Encode(v, width)| == width && IsBase62(Encode(v, width))
    ensures Value(Encode(v, width)) == v <==> v < Pow62(width)
  {
    EncodeShape(v, width);
    ValueBound(Encode(v, width));
    if width > 0 && v < Pow62(width) {
      assert v / 62 < Pow62(width - 1);
      ValueOfEncode(v / 62, width - 1);
      EncodeShape(v / 62, width - 1);
      var s := Encode(v, width);
      assert s[..width - 1] == Encode(v / 62, width - 1) && s[width - 1] == CharOf(v % 62);
    }
  }

  lemma {:induction false} ValueCons(c: char, s: string)
    requires IsDigit(c) && IsBase62(s)
    ensures IsBase62([c] + s) && Value([c] + s) == DigitOf(c) * Pow62(|s|) + Value(s)
  {
    var t := [c] + s;
    if s == "" {
      assert t[..0] == "";
    } else {
      var front := s[..|s| - 1];
      assert t[..|t| - 1] == [c] + front && t[|t| - 1] == s[|s| - 1];
      ValueCons(c, front);
      ScaleSum(DigitOf(c), Pow62(|front|), Value(front));
    }
  }

  lemma ScaleSum(d: nat, p: nat, v: nat)
    ensures (d * p + v) * 62 == d * (62 * p) + v * 62
  {
  }

  lemma DigitOrder(c: char, d: char)
    requires IsDigit(c) && IsDigit(d)
    ensures c < d <==> DigitOf(c) < DigitOf(d)
  {
  }

  lemma ScaledLess(a: nat, b: nat, p: nat, x: nat, y: nat)
    requires a < b && x < p
    ensures a * p + x < b * p + y
  {
    assert (a + 1) * p <= b * p;
  }

  /** Strings of one width are ordered as the numbers they stand for, so equal only for equal numbers. */
  lemma {:induction false} ValueOrder(s: string, t: string)
    requires IsBase62(s) && IsBase62(t) && |s| == |t|
    ensures Less(s, t) <==> Value(s) < Value(t)
    ensures s == t <==> Value(s) == Value(t)
  {
    if s != "" {
      var c, d, s1, t1 := s[0], t[0], s[1..], t[1..];
      assert s == [c] + s1 && t == [d] + t1;
      ValueCons(c, s1);
      ValueCons(d, t1);
      ValueBound(s1);
      ValueBound(t1);
      ValueOrder(s1, t1);
      DigitOrder(c, d);
      DigitOrder(d, c);
      if c < d {
        ScaledLess(DigitOf(c), DigitOf(d), Pow62(|s1|), Value(s1), Value(t1));
      } else if d < c {
        ScaledLess(DigitOf(d), DigitOf(c), Pow62(|s1|), Value(t1), Value(s1));
      }
    }
  }

  /** 64 bits fit in eleven digits. */
  lemma WordFits()
    ensures WORD < Pow62(11)
  {
    assert Pow62(1) == 62 && Pow62(2) == 3844 && Pow62(3) == 238328;
    assert Pow62(4) == 14776336 && Pow62(5) == 916132832;
    assert Pow62(6) == 56800235584 && Pow62(7) == 3521614606208;
    assert Pow62(8) == 218340105584896 && Pow62(9) == 13537086546263552;
    assert Pow62(10) == 839299365868340224 && Pow62(11) == 52036560683837093888;
  }

  lemma EncodeStep(v: nat, width: nat, tail: string)
    ensures Encode(v, width + 1) + tail == Encode(v / 62, width) + ([CharOf(v % 62)] + tail)
  {
  }

  method EncodeBase62Fixed(v: nat, width: int) returns (s: string)
    ensures s == Encode(v, if width <= 0 then 1 else width)
  {
    var w := if width <= 0 then 1 else width;
    var buf := new char[w];
    var rest := v;
    var i := w - 1;
    ghost var tail := "";
    while i >= 0
      invariant -1 <= i < w
      invariant buf[i + 1..] == tail && Encode(rest, i + 1) + tail == Encode(v, w)
    {
      EncodeStep(rest, i, tail);
      buf[i] := CharOf(rest % 62);
      assert buf[i + 1..] == tail;
      tail := [buf[i]] + tail;
      rest := rest / 62;
      i := i - 1;
    }
    assert buf[0..] == buf[..];
    return buf[..];
  }

  /** Wraps at 64 bits, as the source's accumulator does. */
  method DecodeBase62(id: string) returns (v: Option<nat>)
    ensures v.Some? <==> IsBase62(id)
    ensures v.Some? ==> v.value == Value(id) % WORD
  {
    var acc: nat := 0;
    for i := 0 to |id|
      invariant IsBase62(id[..i]) && acc == Value(id[..i]) % WORD
    {
      if !IsDigit(id[i]) {
        return None;
      }
      assert id[..i + 1][..i] == id[..i];
      WrapStep(Value(id[..i]), DigitOf(id[i]));
      acc := (acc * 62 + DigitOf(id[i])) % WORD;
    }
    assert id[..|id|] == id;
    return Some(acc);
  }

  lemma WrapStep(v: nat, d: nat)
    ensures (v % WORD * 62 + d) % WORD == (v * 62 + d) % WORD
  {
    var q := v / WORD;
    assert v * 62 + d == v % WORD * 62 + d + WORD * (q * 62);
    WrapAdd(v % WORD * 62 + d, q * 62);
  }

  lemma {:induction false} WrapAdd(a: nat, k: nat)
    ensures (a + WORD * k) % WORD == a % WORD
  {
    if k > 0 {
      WrapAdd(a, k - 1);
      assert a + WORD * k == a + WORD * (k - 1) + WORD;
    }
  }

  /** Every prefix of a digit string stands for no more than the whole. */
  lemma {:induction false} PrefixValue(s: string, k: nat)
    requires IsBase62(s) && k <= |s|
    ensures Value(s[..k]) <= Value(s)
  {
    if k == |s| {
      assert s[..k] == s;
    } else {
      PrefixValue(s[..|s| - 1], k);
      assert s[..|s| - 1][..k] == s[..k];
    }
  }

  /** A 64-bit word round-trips through eleven digits or more, and no partial result overflows on the way back. */
  lemma Base62RoundTrip(v: nat, width: nat)
    requires v < WORD && width >= 11
    ensures var s := Encode(v, width);
            && |s| == width && IsBase62(s) && Value(s) == v
            && forall k :: 0 <= k <= |s| ==> Value(s[..k]) < WORD
  {
    WordFits();
    PowGrows(11, width);
    ValueOfEncode(v, width);
    PrefixesBelow(Encode(v, width));
  }

  lemma {:induction false} PowGrows(m: nat, n: nat)
    requires m <= n
    ensures Pow62(m) <= Pow62(n)
  {
    if m < n {
      PowGrows(m, n - 1);
    }
  }

  lemma PrefixesBelow(s: string)
    requires IsBase62(s) && Value(s) < WORD
    ensures forall k :: 0 <= k <= |s| ==> Value(s[..k]) < WORD
  {
    forall k | 0 <= k <= |s|
      ensures Value(s[..k]) < WORD
    {
      PrefixValue(s, k);
    }
  }

  lemma EncodeIs(v: nat, id: string)
    requires v < WORD && IsBase62(id) && |id| == ID_WIDTH
    ensures Encode(v, ID_WIDTH) == id <==> Value(id) == v
  {
    Base62RoundTrip(v, ID_WIDTH);
    ValueOrder(Encode(v, ID_WIDTH), id);
  }

  /** The other way round: decoding and encoding again gives the id back exactly when its number fits a word. */
  lemma DecodedRoundTrip(id: string, v: nat)
    requires IsBase62(id) && |id| == ID_WIDTH && v == Value(id) % WORD
    ensures Encode(v, ID_WIDTH) == id <==> Value(id) < WORD
  {
    assert v < WORD && (v == Value(id) <==> Value(id) < WORD) by {
      Wrapped(Value(id));
    }
    EncodeIs(v, id);
  }

  lemma Wrapped(v: nat)
    ensures v % WORD < WORD && (v % WORD == v <==> v < WORD)
  {
  }

  // Fields

  /** Timestamp, random and sequence fields side by side; masks are remainders and shifts are products. */
  function Pack(ts: nat, r: nat, seqVal: nat): nat {
    ts % TS_LIMIT * 0x100_0000 + r % RAND_LIMIT * SEQ_LIMIT + seqVal
  }

  datatype Fields = Fields(ts: nat, random: nat, seqVal: nat)

  function Unpack(v: nat): Fields {
    Fields(v / 0x100_0000 % TS_LIMIT, v / SEQ_LIMIT % RAND_LIMIT, v % SEQ_LIMIT)
  }

  /** The source's bit operations are this arithmetic: masks are remainders, left shifts products, disjoint fields sums. */
  lemma PackBits(ts: bv64, r: bv64, seqVal: bv64)
    requires seqVal < 0x400
    ensures (((ts & 0xff_ffff_ffff) << 24) | ((r & 0x3fff) << 10)) | seqVal ==
            ts % 0x100_0000_0000 * 0x100_0000 + r % 0x4000 * 0x400 + seqVal
  {
  }

  /** ... and right shifts are quotients. */
  lemma UnpackBits(v: bv64)
    ensures v & 0x3ff == v % 0x400
    ensures (v >> 10) & 0x3fff == v / 0x400 % 0x4000
    ensures (v >> 24) & 0xff_ffff_ffff == v / 0x100_0000 % 0x100_0000_0000
  {
  }

  lemma UnpackPack(ts: nat, r: nat, seqVal: nat)
    requires seqVal <= SEQ_MAX
    ensures Pack(ts, r, seqVal) < WORD
    ensures Unpack(Pack(ts, r, seqVal)) == Fields(ts % TS_LIMIT, r % RAND_LIMIT, seqVal)
  {
    var high, mid := ts % TS_LIMIT, r % RAND_LIMIT;
    var v := Pack(ts, r, seqVal);
    assert v == (high * RAND_LIMIT + mid) * SEQ_LIMIT + seqVal;
    assert v / SEQ_LIMIT == high * RAND_LIMIT + mid;
    assert v == high * 0x100_0000 + (mid * SEQ_LIMIT + seqVal) && mid * SEQ_LIMIT + seqVal < 0x100_0000;
  }

  /** What an id says: when it was stamped, its random field and its place within that millisecond. */
  datatype Decoded = Decoded(unixMilli: int, random: nat, seqVal: nat)

  method DecodeRequestID(id: string) returns (r: Option<Decoded>)
    ensures r.Some? <==> |id| == ID_WIDTH && IsBase62(id)
    ensures r.Some? ==> var f := Unpack(Value(id) % WORD);
                        r.value == Decoded(f.ts + EPOCH_MILLI, f.random, f.seqVal)
  {
    if |id| != ID_WIDTH {
      return None;
    }
    var v := DecodeBase62(id);
    if v.None? {
      return None;
    }
    var f := Unpack(v.value);
    return Some(Decoded(f.ts + EPOCH_MILLI, f.random, f.seqVal));
  }

  /** The timestamp field: milliseconds since the epoch, never negative, within its bits. */
  function Delta(unixMs: int): nat {
    if unixMs < EPOCH_MILLI then 0 else unixMs - EPOCH_MILLI
  }

  ghost function IdOf(unixMs: int, r: nat, seqVal: nat): string {
    Encode(Pack(Delta(unixMs), r, seqVal), ID_WIDTH)
  }

  method BuildID(unixMs: int, r: nat, seqVal: nat) returns (id: string)
    ensures id == IdOf(unixMs, r, seqVal)
  {
    var delta := unixMs - EPOCH_MILLI;
    if delta < 0 {
      delta := 0;
    }
    id := EncodeBase62Fixed(Pack(delta, r, seqVal), ID_WIDTH);
  }

  lemma IdShape(unixMs: int, r: nat, seqVal: nat)
    requires seqVal <= SEQ_MAX
    ensures var id := IdOf(unixMs, r, seqVal);
            |id| == ID_WIDTH && IsBase62(id) && Value(id) == Pack(Delta(unixMs), r, seqVal) < WORD
  {
    var v := Pack(Delta(unixMs), r, seqVal);
    UnpackPack(Delta(unixMs), r, seqVal);
    Base62RoundTrip(v, ID_WIDTH);
  }

  /** Decoding an id gives back its three fields. */
  lemma DecodeRecovers(unixMs: int, r: nat, seqVal: nat)
    requires seqVal <= SEQ_MAX
    ensures var id := IdOf(unixMs, r, seqVal);
            |id| == ID_WIDTH && IsBase62(id) &&
            Unpack(Value(id) % WORD) == Fields(Delta(unixMs) % TS_LIMIT, r % RAND_LIMIT, seqVal)
  {
    IdShape(unixMs, r, seqVal);
    UnpackPack(Delta(unixMs), r, seqVal);
    Wrapped(Value(IdOf(unixMs, r, seqVal)));
  }

  /** The clock readings the 40-bit field can tell apart. */
  predicate InWindow(unixMs: int) {
    EPOCH_MILLI <= unixMs < EPOCH_MILLI + TS_LIMIT
  }

  // Runs of one generator

  /** What one id is stamped with; `random` is whatever the pool gave. */
  datatype Stamp = Stamp(ms: int, seqVal: nat, random: nat)

  ghost function Id(s: Stamp): string {
    IdOf(s.ms, s.random, s.seqVal)
  }

  /** Two ids are equal exactly when all three fields are. */
  lemma SameIdIffSameFields(a: Stamp, b: Stamp)
    requires a.seqVal <= SEQ_MAX && b.seqVal <= SEQ_MAX
    ensures Id(a) == Id(b) <==>
            Delta(a.ms) % TS_LIMIT == Delta(b.ms) % TS_LIMIT && a.random % RAND_LIMIT == b.random % RAND_LIMIT && a.seqVal == b.seqVal
  {
    DecodeRecovers(a.ms, a.random, a.seqVal);
    DecodeRecovers(b.ms, b.random, b.seqVal);
  }

  /** In the window a later millisecond gives a larger id, whatever the other fields are. */
  lemma LaterIsLarger(a: Stamp, b: Stamp)
    requires a.seqVal <= SEQ_MAX && b.seqVal <= SEQ_MAX && InWindow(a.ms) && InWindow(b.ms) && a.ms < b.ms
    ensures Less(Id(a), Id(b))
  {
    IdShape(a.ms, a.random, a.seqVal);
    IdShape(b.ms, b.random, b.seqVal);
    ValueOrder(Id(a), Id(b));
    PackOrder(Delta(a.ms), a.random, a.seqVal, Delta(b.ms), b.random, b.seqVal);
  }

  lemma PackOrder(ts: nat, r: nat, seqVal: nat, ts': nat, r': nat, seqVal': nat)
    requires ts < ts' < TS_LIMIT && seqVal <= SEQ_MAX
    ensures Pack(ts, r, seqVal) < Pack(ts', r', seqVal')
  {
    assert r % RAND_LIMIT * SEQ_LIMIT + seqVal < 0x100_0000;
  }

  /** Later stamps are larger: a later millisecond, or the same with a larger sequence number. */
  predicate Before(a: Stamp, b: Stamp) {
    a.ms < b.ms || (a.ms == b.ms && a.seqVal < b.seqVal)
  }

  /** One pass of the generator's loop: the clock reading, and the random field if an id is built. */
  datatype Reading = Reading(now: int, random: nat)

  /** The guarded state, and every stamp handed out. */
  datatype Log = Log(lastMs: int, seqVal: nat, issued: seq<Stamp>)

  /** One pass under the lock; nothing happens when the millisecond is used up. */
  function Tick(l: Log, r: Reading): Log {
    if r.now > l.lastMs then Log(r.now, 0, l.issued + [Stamp(r.now, 0, r.random)])
    else if l.seqVal < SEQ_MAX then Log(l.lastMs, l.seqVal + 1, l.issued + [Stamp(l.lastMs, l.seqVal + 1, r.random)])
    else l
  }

  function Run(readings: seq<Reading>): Log {
    if readings == [] then Log(0, 0, []) else Tick(Run(readings[..|readings| - 1]), readings[|readings| - 1])
  }

  predicate LogOk(l: Log) {
    && l.seqVal <= SEQ_MAX
    && (forall i :: 0 <= i < |l.issued| ==> l.issued[i].seqVal <= SEQ_MAX)
    && (forall i :: 0 <= i < |l.issued| ==>
                      l.issued[i].ms < l.lastMs || (l.issued[i].ms == l.lastMs && l.issued[i].seqVal <= l.seqVal))
    && (forall i, j :: 0 <= i < j < |l.issued| ==> Before(l.issued[i], l.issued[j]))
  }

  /** Stamps only grow, however the clock jumps. */
  lemma {:induction false} EveryRunOk(readings: seq<Reading>)
    ensures LogOk(Run(readings))
  {
    if readings != [] {
      EveryRunOk(readings[..|readings| - 1]);
    }
  }

  /** Neighbouring stamps: a later millisecond starts at sequence number 0, the same one counts on by 1. */
  lemma {:induction false} NextStamp(readings: seq<Reading>, i: nat)
    requires i + 1 < |Run(readings).issued|
    ensures var a, b := Run(readings).issued[i], Run(readings).issued[i + 1];
            (b.ms > a.ms && b.seqVal == 0) || (b.ms == a.ms && b.seqVal == a.seqVal + 1)
  {
    var front := readings[..|readings| - 1];
    EveryRunOk(front);
    if i + 1 < |Run(front).issued| {
      NextStamp(front, i);
    }
  }

  /** Once the clock has been past the epoch it may jump back anywhere, as long as it stays below the window's end. */
  predicate Clocked(readings: seq<Reading>) {
    && (readings != [] ==> readings[0].now >= EPOCH_MILLI)
    && (forall i :: 0 <= i < |readings| ==> readings[i].now < EPOCH_MILLI + TS_LIMIT)
  }

  lemma {:induction false} StampsInWindow(readings: seq<Reading>)
    requires Clocked(readings)
    ensures readings != [] ==> InWindow(Run(readings).lastMs)
    ensures forall i :: 0 <= i < |Run(readings).issued| ==> InWindow(Run(readings).issued[i].ms)
  {
    if readings != [] {
      var front := readings[..|readings| - 1];
      StampsInWindow(front);
      assert front == [] ==> Run(front) == Log(0, 0, []);
    }
  }

  /**
   Over every run, whatever the random fields and however the clock jumps: all ids differ, and an id
   of a later millisecond is the larger text.
   */
  lemma IdsDistinctAndOrdered(readings: seq<Reading>, i: nat, j: nat)
    requires Clocked(readings) && i < j < |Run(readings).issued|
    ensures var a, b := Run(readings).issued[i], Run(readings).issued[j];
            Id(a) != Id(b) && a.ms <= b.ms && (a.ms < b.ms ==> Less(Id(a), Id(b)))
  {
    EveryRunOk(readings);
    StampsInWindow(readings);
    var a, b := Run(readings).issued[i], Run(readings).issued[j];
    SameIdIffSameFields(a, b);
    if a.ms < b.ms {
      LaterIsLarger(a, b);
      LessTrichotomy(Id(a), Id(b));
    }
  }

  /** The same clock readings with other random fields. */
  function WithRandoms(readings: seq<Reading>, randoms: seq<nat>): (rs: seq<Reading>)
    requires |randoms| == |readings|
    ensures |rs| == |readings|
  {
    seq(|readings|, i requires 0 <= i < |readings| => Reading(readings[i].now, randoms[i]))
  }

  /** Two stamps the fixed fields of an id do not tell apart. */
  predicate SameSlot(a: Stamp, b: Stamp) {
    a.seqVal == b.seqVal && Delta(a.ms) % TS_LIMIT == Delta(b.ms) % TS_LIMIT
  }

  ghost predicate AllDistinct(issued: seq<Stamp>) {
    forall i, j :: 0 <= i < j < |issued| ==> Id(issued[i]) != Id(issued[j])
  }

  /** Random fields have no influence on what is stamped. */
  lemma {:induction false} StampsFixed(readings: seq<Reading>, randoms: seq<nat>)
    requires |randoms| == |readings|
    ensures var l, m := Run(readings), Run(WithRandoms(readings, randoms));
            && l.lastMs == m.lastMs && l.seqVal == m.seqVal && |l.issued| == |m.issued|
            && forall i :: 0 <= i < |l.issued| ==> l.issued[i].ms == m.issued[i].ms && l.issued[i].seqVal == m.issued[i].seqVal
    ensures (forall i :: 0 <= i < |randoms| ==> randoms[i] == 0) ==>
              forall i :: 0 <= i < |Run(WithRandoms(readings, randoms)).issued| ==>
                            Run(WithRandoms(readings, randoms)).issued[i].random == 0
  {
    if readings != [] {
      var n := |readings| - 1;
      assert WithRandoms(readings, randoms)[..n] == WithRandoms(readings[..n], randoms[..n]);
      StampsFixed(readings[..n], randoms[..n]);
    }
  }

  /** No two stamps share a slot. */
  predicate SlotsFree(issued: seq<Stamp>) {
    forall i, j :: 0 <= i < j < |issued| ==> !SameSlot(issued[i], issued[j])
  }

  lemma FreeSlotsDistinct(readings: seq<Reading>, randoms: seq<nat>)
    requires |randoms| == |readings| && SlotsFree(Run(readings).issued)
    ensures AllDistinct(Run(WithRandoms(readings, randoms)).issued)
  {
    var l, m := Run(readings), Run(WithRandoms(readings, randoms));
    StampsFixed(readings, randoms);
    EveryRunOk(WithRandoms(readings, randoms));
    forall i, j | 0 <= i < j < |m.issued|
      ensures Id(m.issued[i]) != Id(m.issued[j])
    {
      assert !SameSlot(l.issued[i], l.issued[j]);
      SameIdIffSameFields(m.issued[i], m.issued[j]);
    }
  }

  lemma SharedSlotRepeats(readings: seq<Reading>, zeros: seq<nat>, i: nat, j: nat)
    requires |zeros| == |readings| && forall k :: 0 <= k < |zeros| ==> zeros[k] == 0
    requires i < j < |Run(readings).issued| && SameSlot(Run(readings).issued[i], Run(readings).issued[j])
    ensures !AllDistinct(Run(WithRandoms(readings, zeros)).issued)
  {
    var m := Run(WithRandoms(readings, zeros));
    StampsFixed(readings, zeros);
    EveryRunOk(WithRandoms(readings, zeros));
    SameIdIffSameFields(m.issued[i], m.issued[j]);
  }

  /** Over a run, ids differ whatever the random fields are if and only if no two stamps share a slot. */
  lemma DistinctIffSlotsFree(readings: seq<Reading>)
    ensures SlotsFree(Run(readings).issued) <==>
            forall randoms: seq<nat> :: |randoms| == |readings| ==> AllDistinct(Run(WithRandoms(readings, randoms)).issued)
  {
    if SlotsFree(Run(readings).issued) {
      forall randoms: seq<nat> | |randoms| == |readings|
        ensures AllDistinct(Run(WithRandoms(readings, randoms)).issued)
      {
        FreeSlotsDistinct(readings, randoms);
      }
    } else {
      var i, j :| 0 <= i < j < |Run(readings).issued| && SameSlot(Run(readings).issued[i], Run(readings).issued[j]);
      SharedSlotRepeats(readings, seq(|readings|, _ => 0), i, j);
    }
  }

  /** Before the epoch every millisecond looks the same, so ids of different milliseconds can repeat. */
  lemma RepeatsBeforeEpoch(ms: int, ms': int, random: nat)
    requires 0 < ms < ms' < EPOCH_MILLI
    ensures var l := Run([Reading(ms, random), Reading(ms', random)]);
            |l.issued| == 2 && Id(l.issued[0]) == Id(l.issued[1])
  {
    var readings := [Reading(ms, random), Reading(ms', random)];
    assert readings[..1] == [readings[0]] && [readings[0]][..0] == [];
    assert Run([]) == Log(0, 0, []);
    assert Run([readings[0]]) == Log(ms, 0, [Stamp(ms, 0, random)]);
    assert Run(readings).issued == [Stamp(ms, 0, random), Stamp(ms', 0, random)];
    SameIdIffSameFields(Stamp(ms, 0, random), Stamp(ms', 0, random));
  }

  class Generator {
    var lastMs: int
    var seqVal: nat
    ghost var readings: seq<Reading>

    ghost predicate Valid()
      reads this
    {
      lastMs == Run(readings).lastMs && seqVal == Run(readings).seqVal && seqVal <= SEQ_MAX
    }

    constructor ()
      ensures Valid() && readings == []
    {
      lastMs, seqVal, readings := 0, 0, [];
    }

    /** One pass of the loop. The id belongs to the stamp this pass added to the run, if it added one. */
    method Attempt(now: int, random: nat) returns (id: Option<string>)
      requires Valid()
      modifies this
      ensures Valid() && readings == old(readings) + [Reading(now, random)]
      ensures var was, l := Run(old(readings)).issued, Run(readings).issued;
              if id.Some? then |l| == |was| + 1 && l[..|was|] == was && id.value == Id(l[|was|]) else l == was
      ensures id.None? <==> now <= old(lastMs) && old(seqVal) == SEQ_MAX
      ensures id.Some? ==>
                id.value == if now > old(lastMs) then IdOf(now, random, 0) else IdOf(old(lastMs), random, old(seqVal) + 1)
    {
      readings := readings + [Reading(now, random)];
      assert readings[..|readings| - 1] == old(readings);
      var nowMs := if now < lastMs then lastMs else now;
      if nowMs == lastMs {
        if seqVal == SEQ_MAX {
          return None;
        }
        seqVal := seqVal + 1;
      } else {
        lastMs, seqVal := nowMs, 0;
      }
      var text := BuildID(nowMs, random, seqVal);
      return Some(text);
    }

    /** Retries over clock readings until one is not in a used-up millisecond. */
    method Generate(clock: seq<int>, random: nat) returns (id: Option<string>)
      requires Valid()
      modifies this
      ensures Valid()
      ensures var was, l := Run(old(readings)).issued, Run(readings).issued;
              if id.Some? then |l| == |was| + 1 && l[..|was|] == was && id.value == Id(l[|was|]) else l == was
      ensures id.None? ==> forall i :: 0 <= i < |clock| ==> clock[i] <= lastMs
    {
      for i := 0 to |clock|
        invariant Valid() && Run(readings).issued == Run(old(readings)).issued
        invariant forall k :: 0 <= k < i ==> clock[k] <= lastMs
      {
        id := Attempt(clock[i], random);
        if id.Some? {
          return;
        }
      }
      return None;
    }
  }
}
