/**
 The hash-chained audit trail. The hash is an arbitrary function: a statement that
 rests on it not colliding names the two colliding messages instead of assuming
 there are none.
 */
module AuditChain {
  import opened Prelude

  type Byte = x: nat | x < 256

  type Bytes = seq<Byte>

  type Digest = d: Bytes | |d| == 32 witness Zeros(32)

  function Zeros(n: nat): (z: Bytes)
    ensures |z| == n
  {
    seq(n, _ => 0)
  }

  type Hash = Bytes -> Digest

  // ---------- Actions ----------

  datatype Action = Read | Write | Delete | Grant | Revoke

  function AsStr(a: Action): string {
    match a
    case Read => "read"
    case Write => "write"
    case Delete => "delete"
    case Grant => "grant"
    case Revoke => "revoke"
  }

  function ParseAction(s: string): Option<Action> {
    if s == "read" then Some(Read)
    else if s == "write" then Some(Write)
    else if s == "delete" then Some(Delete)
    else if s == "grant" then Some(Grant)
    else if s == "revoke" then Some(Revoke)
    else None
  }

  /** Each action has one spelling, and no other string is an action. */
  lemma ActionRoundTrip(a: Action, s: string)
    ensures ParseAction(s) == Some(a) <==> s == AsStr(a)
  {
    assert |"read"| == 4 && |"write"| == 5 && |"delete"| == 6 && |"grant"| == 5 && |"revoke"| == 6;
    assert "write"[0] == 'w' && "grant"[0] == 'g' && "delete"[0] == 'd' && "revoke"[0] == 'r';
  }

  function Ascii(s: string): (b: Bytes)
    requires forall i :: 0 <= i < |s| ==> s[i] < 128 as char
    ensures |b| == |s|
  {
    seq(|s|, i requires 0 <= i < |s| => s[i] as int)
  }

  // ---------- The hashed bytes ----------

  function LittleEndian(v: nat, n: nat): (b: Bytes)
    ensures |b| == n
  {
    if n == 0 then [] else [v % 256] + LittleEndian(v / 256, n - 1)
  }

  function ReadLittleEndian(b: Bytes): nat {
    if b == [] then 0 else b[0] + 256 * ReadLittleEndian(b[1..])
  }

  function Power256(n: nat): (p: nat)
    ensures p > 0
  {
    if n == 0 then 1 else 256 * Power256(n - 1)
  }

  lemma {:induction false} LittleEndianRoundTrip(v: nat, n: nat)
    requires v < Power256(n)
    ensures ReadLittleEndian(LittleEndian(v, n)) == v
    decreases n
  {
    if n > 0 {
      assert v / 256 < Power256(n - 1);
      LittleEndianRoundTrip(v / 256, n - 1);
      assert LittleEndian(v, n)[1..] == LittleEndian(v / 256, n - 1);
    }
  }

  /** Two's complement, eight bytes, least significant first. */
  function TimestampBytes(ts: I64): (b: Bytes)
    ensures |b| == 8
  {
    LittleEndian(if ts < 0 then ts + 0x1_0000_0000_0000_0000 else ts, 8)
  }

  lemma TimestampBytesInjective(a: I64, b: I64)
    requires TimestampBytes(a) == TimestampBytes(b)
    ensures a == b
  {
    var v := if a < 0 then a + 0x1_0000_0000_0000_0000 else a;
    var w := if b < 0 then b + 0x1_0000_0000_0000_0000 else b;
    assert Power256(8) == 0x1_0000_0000_0000_0000 by {
      assert Power256(4) == 0x1_0000_0000;
    }
    LittleEndianRoundTrip(v, 8);
    LittleEndianRoundTrip(w, 8);
  }

  /** What a caller records. Texts are their UTF-8 bytes. */
  datatype Entry = Entry(ts: I64, actor: Bytes, action: Bytes, target: Bytes, space: Option<Bytes>, meta: Option<Bytes>)

  datatype Row = Row(id: I64, entry: Entry, prevHash: Option<Digest>, hash: Digest)

  function OrEmpty(b: Option<Bytes>): Bytes {
    if b.Some? then b.value else []
  }

  function OrZeros(d: Option<Digest>): Digest {
    if d.Some? then d.value else Zeros(32)
  }

  /** The texts, one after the other with nothing between them. */
  function Texts(e: Entry): Bytes {
    e.actor + e.action + e.target + OrEmpty(e.space) + OrEmpty(e.meta)
  }

  function Message(e: Entry, prev: Option<Digest>): Bytes {
    OrZeros(prev) + TimestampBytes(e.ts) + Texts(e)
  }

  /** The previous digest, the time and the joined texts can be read back from the message. */
  lemma MessageParts(e: Entry, prev: Option<Digest>, e': Entry, prev': Option<Digest>)
    ensures Message(e, prev) == Message(e', prev') <==>
      OrZeros(prev) == OrZeros(prev') && e.ts == e'.ts && Texts(e) == Texts(e')
  {
    hide Texts, TimestampBytes;
    var m, m' := Message(e, prev), Message(e', prev');
    assert m[..32] == OrZeros(prev) && m'[..32] == OrZeros(prev');
    assert m[32..40] == TimestampBytes(e.ts) && m'[32..40] == TimestampBytes(e'.ts);
    assert m[40..] == Texts(e) && m'[40..] == Texts(e');
    if m == m' {
      TimestampBytesInjective(e.ts, e'.ts);
    }
  }

  /** The bytes of each action's spelling. */
  lemma SpellingBytes()
    ensures Ascii(AsStr(Read)) == [0x72, 0x65, 0x61, 0x64]
    ensures Ascii(AsStr(Write)) == [0x77, 0x72, 0x69, 0x74, 0x65]
    ensures Ascii(AsStr(Delete)) == [0x64, 0x65, 0x6C, 0x65, 0x74, 0x65]
    ensures Ascii(AsStr(Grant)) == [0x67, 0x72, 0x61, 0x6E, 0x74]
    ensures Ascii(AsStr(Revoke)) == [0x72, 0x65, 0x76, 0x6F, 0x6B, 0x65]
  {
  }

  /** The eight bytes of a time weigh 1, 256, 65536 and so on, and a negative time is counted from the top. */
  lemma TimestampByteWeights(ts: I64)
    ensures var b := TimestampBytes(ts);
      b[0] as int + 0x100 * (b[1] as int) + 0x1_0000 * (b[2] as int) + 0x100_0000 * (b[3] as int) +
        0x1_0000_0000 * (b[4] as int) + 0x100_0000_0000 * (b[5] as int)
      + 0x1_0000_0000_0000 * (b[6] as int) + 0x100_0000_0000_0000 * (b[7] as int) ==
        ts + if ts < 0 then 0x1_0000_0000_0000_0000 else 0
  {
    var v: nat := if ts < 0 then ts + 0x1_0000_0000_0000_0000 else ts;
    assert Power256(8) == 0x1_0000_0000_0000_0000 by {
      assert Power256(4) == 0x1_0000_0000;
    }
    LittleEndianRoundTrip(v, 8);
    EightBytes(LittleEndian(v, 8));
  }

  lemma EightBytes(b: Bytes)
    requires |b| == 8
    ensures ReadLittleEndian(b) ==
      b[0] as int + 0x100 * (b[1] as int) + 0x1_0000 * (b[2] as int) + 0x100_0000 * (b[3] as int) +
        0x1_0000_0000 * (b[4] as int) + 0x100_0000_0000 * (b[5] as int)
      + 0x1_0000_0000_0000 * (b[6] as int) + 0x100_0000_0000_0000 * (b[7] as int)
  {
    FourBytes(b);
    FourBytes(b[4..]);
    assert b[4..][4..] == [];
  }

  lemma FourBytes(b: Bytes)
    requires |b| >= 4
    ensures ReadLittleEndian(b) ==
      b[0] as int + 0x100 * (b[1] as int) + 0x1_0000 * (b[2] as int) + 0x100_0000 * (b[3] as int) +
        0x1_0000_0000 * ReadLittleEndian(b[4..])
  {
    assert b[1..][1..] == b[2..] && b[2..][1..] == b[3..] && b[3..][1..] == b[4..];
    assert ReadLittleEndian(b[3..]) == b[3] as int + 256 * ReadLittleEndian(b[4..]);
    assert ReadLittleEndian(b[2..]) == b[2] as int + 256 * ReadLittleEndian(b[3..]);
    assert ReadLittleEndian(b[1..]) == b[1] as int + 256 * ReadLittleEndian(b[2..]);
  }

  /**
   The message, part by part: 32 bytes of the previous digest or of zeros, eight of the time, then
   actor, action and target, and space and metadata where there are any.
   */
  lemma MessageLayout(e: Entry, prev: Option<Digest>)
    ensures var m := Message(e, prev); var a, b := 40 + |e.actor|, 40 + |e.actor| + |e.action|;
      var c := b + |e.target|;
      && |m| >= c
      && (forall i :: 0 <= i < 32 ==> m[i] == if prev.Some? then prev.value[i] else 0)
      && m[32..40] == TimestampBytes(e.ts) && m[40..a] == e.actor && m[a..b] == e.action && m[b..c] == e.target
      && (e.space.None? && e.meta.None? ==> m[c..] == [])
      && (e.space.Some? && e.meta.None? ==> m[c..] == e.space.value)
      && (e.space.None? && e.meta.Some? ==> m[c..] == e.meta.value)
      && (e.space.Some? && e.meta.Some? ==> m[c..] == e.space.value + e.meta.value)
  {
    hide TimestampBytes, OrEmpty, OrZeros, Texts, Message;
    var a, b := |e.actor|, |e.actor| + |e.action|;
    var c := b + |e.target|;
    MessageIs(e, prev);
    OldDigest(prev);
    TextParts(e);
    TailSlice(Message(e, prev), 0, a);
    TailSlice(Message(e, prev), a, b);
    TailSlice(Message(e, prev), b, c);
    TailSlice(Message(e, prev), c, |Texts(e)|);
    HeadAt(Message(e, prev));
  }

  lemma MessageIs(e: Entry, prev: Option<Digest>)
    ensures var m := Message(e, prev);
      |m| == 40 + |Texts(e)| && m[..32] == OrZeros(prev) && m[32..40] == TimestampBytes(e.ts) && m[40..] == Texts(e)
  {
    hide TimestampBytes, OrZeros, Texts;
    ThreeParts(OrZeros(prev), TimestampBytes(e.ts), Texts(e));
  }

  lemma TailSlice(m: Bytes, i: nat, j: nat)
    requires |m| >= 40 && i <= j <= |m| - 40
    ensures m[40..][i..j] == m[40 + i..40 + j]
    ensures m[40 + i..] == m[40..][i..] && (j == |m| - 40 ==> m[40..][i..] == m[40..][i..j])
  {
  }

  lemma HeadAt(m: Bytes)
    requires |m| >= 32
    ensures forall i :: 0 <= i < 32 ==> m[i] == m[..32][i]
  {
  }

  lemma ThreeParts(a: Bytes, b: Bytes, c: Bytes)
    requires |a| == 32 && |b| == 8
    ensures (a + b + c)[..32] == a && (a + b + c)[32..40] == b && (a + b + c)[40..] == c
  {
  }

  lemma OldDigest(prev: Option<Digest>)
    ensures forall i :: 0 <= i < 32 ==> OrZeros(prev)[i] == if prev.Some? then prev.value[i] else 0
  {
  }

  lemma TextParts(e: Entry)
    ensures var t := Texts(e); var a, b := |e.actor|, |e.actor| + |e.action|;
      var c := b + |e.target|;
      && |t| >= c && t[..a] == e.actor && t[a..b] == e.action && t[b..c] == e.target
      && (e.space.None? && e.meta.None? ==> t[c..] == [])
      && (e.space.Some? && e.meta.None? ==> t[c..] == e.space.value)
      && (e.space.None? && e.meta.Some? ==> t[c..] == e.meta.value)
      && (e.space.Some? && e.meta.Some? ==> t[c..] == e.space.value + e.meta.value)
  {
    var t := Texts(e);
    assert t == e.actor + e.action + e.target + (OrEmpty(e.space) + OrEmpty(e.meta));
  }

  // ---------- The chain ----------

  function PrevHash(rows: seq<Row>, i: nat): Option<Digest>
    requires i <= |rows|
  {
    if i == 0 then None else Some(rows[i - 1].hash)
  }

  function RowMessage(rows: seq<Row>, i: nat): Bytes
    requires i < |rows|
  {
    Message(rows[i].entry, PrevHash(rows, i))
  }

  /** The order in which a table is read: ids are unique and ascend. */
  ghost predicate InIdOrder(rows: seq<Row>) {
    forall i, j :: 0 <= i < j < |rows| ==> rows[i].id < rows[j].id
  }

  predicate RowOk(h: Hash, rows: seq<Row>, i: nat)
    requires i < |rows|
  {
    rows[i].hash == h(RowMessage(rows, i)) && rows[i].prevHash == PrevHash(rows, i)
  }

  ghost predicate Verifies(h: Hash, rows: seq<Row>) {
    forall i :: 0 <= i < |rows| ==> RowOk(h, rows, i)
  }

  datatype Verdict = Intact | BrokenChain(id: I64, expected: Digest, got: Digest)

  /** The first row that does not fit, and why. */
  ghost predicate Reports(h: Hash, rows: seq<Row>, v: Verdict) {
    match v
    case Intact => Verifies(h, rows)
    case BrokenChain(id, expected, got) =>
      exists i :: 0 <= i < |rows| && Verifies(h, rows[..i]) && !RowOk(h, rows, i) && rows[i].id == id &&
        if rows[i].hash != h(RowMessage(rows, i)) then expected == h(RowMessage(rows, i)) && got == rows[i].hash
        else expected == OrZeros(PrevHash(rows, i)) && got == OrZeros(rows[i].prevHash)
  }

  lemma RowOkInPrefix(h: Hash, rows: seq<Row>, n: nat, i: nat)
    requires i < n <= |rows|
    ensures RowOk(h, rows[..n], i) == RowOk(h, rows, i)
  {
  }

  /** Every prefix of a verifying table verifies: a cut-off end goes unnoticed. */
  lemma PrefixVerifies(h: Hash, rows: seq<Row>, n: nat)
    requires Verifies(h, rows) && n <= |rows|
    ensures Verifies(h, rows[..n])
  {
    forall i | 0 <= i < |rows[..n]|
      ensures RowOk(h, rows[..n], i)
    {
      RowOkInPrefix(h, rows, n, i);
    }
  }

  lemma OneMoreVerifies(h: Hash, rows: seq<Row>, n: nat)
    requires n < |rows|
    ensures Verifies(h, rows[..n + 1]) <==> Verifies(h, rows[..n]) && RowOk(h, rows, n)
  {
    hide RowOk;
    var before, after := rows[..n], rows[..n + 1];
    RowOkInPrefix(h, rows, n + 1, n);
    forall i | 0 <= i < n
      ensures RowOk(h, after, i) == RowOk(h, before, i)
    {
      RowOkInPrefix(h, rows, n + 1, i);
      RowOkInPrefix(h, rows, n, i);
    }
    if Verifies(h, after) {
      assert RowOk(h, after, n);
      assert Verifies(h, before);
    }
  }

  method VerifyChain(h: Hash, rows: seq<Row>) returns (v: Verdict)
    ensures Reports(h, rows, v)
  {
    var prev := None;
    var i := 0;
    while i < |rows|
      invariant i <= |rows| && prev == PrevHash(rows, i) && Verifies(h, rows[..i])
    {
      var row := rows[i];
      var expected := h(Message(row.entry, prev));
      if expected != row.hash {
        assert !RowOk(h, rows, i);
        return BrokenChain(row.id, expected, row.hash);
      }
      if row.prevHash != prev {
        assert !RowOk(h, rows, i);
        return BrokenChain(row.id, OrZeros(prev), OrZeros(row.prevHash));
      }
      OneMoreVerifies(h, rows, i);
      prev := Some(row.hash);
      i := i + 1;
    }
    assert rows[..|rows|] == rows;
    v := Intact;
  }

  // ---------- Appending ----------

  function NewRow(h: Hash, rows: seq<Row>, id: I64, e: Entry): Row {
    var prev := PrevHash(rows, |rows|);
    Row(id, e, prev, h(Message(e, prev)))
  }

  /** Appending neither breaks a chain nor mends one. */
  lemma AppendVerifies(h: Hash, rows: seq<Row>, id: I64, e: Entry)
    ensures Verifies(h, rows + [NewRow(h, rows, id, e)]) <==> Verifies(h, rows)
  {
    var after := rows + [NewRow(h, rows, id, e)];
    assert after[..|rows|] == rows && after[..|rows| + 1] == after;
    OneMoreVerifies(h, after, |rows|);
    assert PrevHash(after, |rows|) == PrevHash(rows, |rows|);
  }

  class Log {
    const h: Hash
    var rows: seq<Row>
    var sequence: I64

    /** Rows in id order, no id above the sequence counter. */
    ghost predicate Valid()
      reads this
    {
      && InIdOrder(rows)
      && (forall i :: 0 <= i < |rows| ==> rows[i].id <= sequence)
    }

    constructor (h: Hash)
      ensures Valid() && rows == [] && this.h == h && sequence == 0
    {
      this.h := h;
      rows, sequence := [], 0;
    }

    /** An id that was ever used is not used again; at the largest id the insert fails. */
    method Append(ts: I64, actor: Bytes, action: Action, target: Bytes, space: Option<Bytes>, meta: Option<Bytes>)
      returns (id: Option<I64>)
      requires Valid()
      modifies this
      ensures Valid()
      ensures id.None? <==> old(sequence) == I64_MAX
      ensures id.None? ==> rows == old(rows) && sequence == old(sequence)
      ensures id.Some? ==> id.value == sequence == old(sequence) + 1
      ensures id.Some? ==>
        var e := Entry(ts, actor, Ascii(AsStr(action)), target, space, meta);
        rows == old(rows) + [NewRow(h, old(rows), id.value, e)]
      ensures Verifies(h, rows) <==> old(Verifies(h, rows))
    {
      hide Message, Verifies;
      if sequence == I64_MAX {
        return None;
      }
      var prev := if rows == [] then None else Some(rows[|rows| - 1].hash);
      var e := Entry(ts, actor, Ascii(AsStr(action)), target, space, meta);
      var hash := h(Message(e, prev));
      AppendVerifies(h, rows, sequence + 1, e);
      sequence := sequence + 1;
      rows := rows + [Row(sequence, e, prev, hash)];
      id := Some(sequence);
    }
  }

  ghost function AppendAll(h: Hash, entries: seq<(I64, Entry)>): seq<Row> {
    if entries == [] then []
    else
      var n := |entries| - 1;
      var rows := AppendAll(h, entries[..n]);
      rows + [NewRow(h, rows, entries[n].0, entries[n].1)]
  }

  lemma AppendAllStep(h: Hash, entries: seq<(I64, Entry)>, k: nat)
    requires |entries| == k + 1
    ensures AppendAll(h, entries) ==
      AppendAll(h, entries[..k]) + [NewRow(h, AppendAll(h, entries[..k]), entries[k].0, entries[k].1)]
  {
  }

  lemma {:induction false} AppendAllHolds(h: Hash, entries: seq<(I64, Entry)>)
    ensures |AppendAll(h, entries)| == |entries|
    ensures forall i :: 0 <= i < |entries| ==> AppendAll(h, entries)[i].entry == entries[i].1
    decreases |entries|
  {
    if entries != [] {
      var k := |entries| - 1;
      AppendAllHolds(h, entries[..k]);
      AppendAllStep(h, entries, k);
    }
  }

  lemma {:induction false} AppendAllPrefix(h: Hash, entries: seq<(I64, Entry)>, n: nat)
    requires n <= |entries|
    ensures |AppendAll(h, entries)| == |entries| && AppendAll(h, entries)[..n] == AppendAll(h, entries[..n])
    decreases |entries|
  {
    hide AppendAll;
    AppendAllHolds(h, entries);
    if n == |entries| {
      assert entries[..n] == entries;
    } else {
      var k := |entries| - 1;
      AppendAllPrefix(h, entries[..k], n);
      assert entries[..k][..n] == entries[..n];
      AppendAllStep(h, entries, k);
    }
  }

  lemma {:induction false} AppendAllVerifies(h: Hash, entries: seq<(I64, Entry)>)
    ensures Verifies(h, AppendAll(h, entries))
    decreases |entries|
  {
    if entries != [] {
      var k := |entries| - 1;
      AppendAllVerifies(h, entries[..k]);
      AppendVerifies(h, AppendAll(h, entries[..k]), entries[k].0, entries[k].1);
    }
  }

  /** Every table built by appends verifies and holds the entries in order, and so does every prefix of it. */
  lemma RunsVerify(h: Hash, entries: seq<(I64, Entry)>, n: nat)
    requires n <= |entries|
    ensures |AppendAll(h, entries)| == |entries|
    ensures AppendAll(h, entries)[..n] == AppendAll(h, entries[..n])
    ensures Verifies(h, AppendAll(h, entries)[..n])
    ensures forall i :: 0 <= i < |entries| ==> AppendAll(h, entries)[i].entry == entries[i].1
  {
    hide AppendAll, Verifies;
    AppendAllHolds(h, entries);
    AppendAllPrefix(h, entries, n);
    AppendAllVerifies(h, entries[..n]);
  }

  // ---------- What the chain pins down ----------

  ghost predicate Collide(h: Hash, a: Bytes, b: Bytes) {
    a != b && h(a) == h(b)
  }

  ghost predicate SomeRowCollides(h: Hash, a: seq<Row>, b: seq<Row>)
    requires |a| == |b|
  {
    exists i :: 0 <= i < |a| && Collide(h, RowMessage(a, i), RowMessage(b, i))
  }

  ghost predicate SameRow(a: seq<Row>, b: seq<Row>, i: nat)
    requires i < |a| && i < |b|
  {
    && RowMessage(a, i) == RowMessage(b, i)
    && a[i].entry.ts == b[i].entry.ts
    && Texts(a[i].entry) == Texts(b[i].entry)
    && a[i].prevHash == b[i].prevHash
    && a[i].hash == b[i].hash
  }

  ghost predicate SameHistory(a: seq<Row>, b: seq<Row>)
    requires |a| == |b|
  {
    forall i :: 0 <= i < |a| ==> SameRow(a, b, i)
  }

  lemma MessageInPrefix(a: seq<Row>, n: nat, i: nat)
    requires i < n <= |a|
    ensures RowMessage(a[..n], i) == RowMessage(a, i)
  {
  }

  lemma LongerHistory(a: seq<Row>, b: seq<Row>, n: nat)
    requires |a| == |b| == n + 1 && SameHistory(a[..n], b[..n]) && SameRow(a, b, n)
    ensures SameHistory(a, b)
  {
    hide RowMessage, Texts;
    forall i | 0 <= i < |a|
      ensures SameRow(a, b, i)
    {
      if i < n {
        assert SameRow(a[..n], b[..n], i);
        MessageInPrefix(a, n, i);
        MessageInPrefix(b, n, i);
      }
    }
  }

  lemma LongerCollide(h: Hash, a: seq<Row>, b: seq<Row>, n: nat, k: nat)
    requires n <= |a| && k <= |b| && AnyCollide(h, a[..n], b[..k])
    ensures AnyCollide(h, a, b)
  {
    hide RowMessage, Collide;
    var i, j :| 0 <= i < n && 0 <= j < k && Collide(h, RowMessage(a[..n], i), RowMessage(b[..k], j));
    MessageInPrefix(a, n, i);
    MessageInPrefix(b, k, j);
  }

  lemma LongerZero(a: seq<Row>, n: nat)
    requires n <= |a| && HasZeroHash(a[..n])
    ensures HasZeroHash(a)
  {
    var i :| 0 <= i < n && a[..n][i].hash == Zeros(32);
    assert a[i].hash == Zeros(32);
  }

  /**
   Two verifying tables of one length with one last hash agree on every row, or the hash
   collides on two of their messages.
   */
  lemma {:induction false} LastHashPinsHistory(h: Hash, a: seq<Row>, b: seq<Row>)
    requires |a| == |b| && Verifies(h, a) && Verifies(h, b) && PrevHash(a, |a|) == PrevHash(b, |b|)
    ensures SameHistory(a, b) || SomeRowCollides(h, a, b)
    decreases |a|
  {
    if a != [] {
      var n := |a| - 1;
      var m, m' := RowMessage(a, n), RowMessage(b, n);
      assert RowOk(h, a, n) && RowOk(h, b, n);
      assert h(m) == h(m');
      if m != m' {
        assert Collide(h, m, m');
      } else {
        MessageParts(a[n].entry, PrevHash(a, n), b[n].entry, PrevHash(b, n));
        PrefixVerifies(h, a, n);
        PrefixVerifies(h, b, n);
        LastHashPinsHistory(h, a[..n], b[..n]);
        WidenHistory(h, a, b, n);
      }
    }
  }

  lemma WidenHistory(h: Hash, a: seq<Row>, b: seq<Row>, n: nat)
    requires |a| == |b| == n + 1 && SameRow(a, b, n)
    requires SameHistory(a[..n], b[..n]) || SomeRowCollides(h, a[..n], b[..n])
    ensures SameHistory(a, b) || SomeRowCollides(h, a, b)
  {
    hide RowMessage, Collide, SameRow;
    if SameHistory(a[..n], b[..n]) {
      LongerHistory(a, b, n);
    } else {
      var i :| 0 <= i < n && Collide(h, RowMessage(a[..n], i), RowMessage(b[..n], i));
      MessageInPrefix(a, n, i);
      MessageInPrefix(b, n, i);
    }
  }

  ghost predicate AnyCollide(h: Hash, a: seq<Row>, b: seq<Row>) {
    exists i, j :: 0 <= i < |a| && 0 <= j < |b| && Collide(h, RowMessage(a, i), RowMessage(b, j))
  }

  ghost predicate HasZeroHash(a: seq<Row>) {
    exists i :: 0 <= i < |a| && a[i].hash == Zeros(32)
  }

  /**
   Two verifying tables with one last hash, of whatever lengths, have one length and
   one history; or the hash collides on two of their messages; or a row hashes to the
   zero bytes that stand for "no predecessor".
   */
  lemma {:induction false} LastHashPinsTable(h: Hash, a: seq<Row>, b: seq<Row>)
    requires a != [] && b != [] && Verifies(h, a) && Verifies(h, b) && a[|a| - 1].hash == b[|b| - 1].hash
    ensures (|a| == |b| && SameHistory(a, b)) || AnyCollide(h, a, b) || HasZeroHash(a) || HasZeroHash(b)
    decreases |a|
  {
    hide Message, Texts;
    var n, k := |a| - 1, |b| - 1;
    var m, m' := RowMessage(a, n), RowMessage(b, k);
    assert RowOk(h, a, n) && RowOk(h, b, k);
    if m != m' {
      assert Collide(h, m, m');
    } else {
      MessageParts(a[n].entry, PrevHash(a, n), b[k].entry, PrevHash(b, k));
      if n > 0 && k > 0 {
        PrefixVerifies(h, a, n);
        PrefixVerifies(h, b, k);
        LastHashPinsTable(h, a[..n], b[..k]);
        if AnyCollide(h, a[..n], b[..k]) {
          LongerCollide(h, a, b, n, k);
        } else if HasZeroHash(a[..n]) {
          LongerZero(a, n);
        } else if HasZeroHash(b[..k]) {
          LongerZero(b, k);
        } else {
          LongerHistory(a, b, n);
        }
      } else if n > 0 {
        assert a[n - 1].hash == Zeros(32);
      } else if k > 0 {
        assert b[k - 1].hash == Zeros(32);
      }
    }
  }

  /**
   Replacing one row in its place goes unnoticed exactly when the new row fits its
   predecessor and, unless it is the last, keeps the old hash.
   */
  lemma EditUnnoticed(h: Hash, rows: seq<Row>, i: nat, row: Row)
    requires Verifies(h, rows) && i < |rows| && InIdOrder(rows[i := row])
    ensures Verifies(h, rows[i := row]) <==>
      && row.prevHash == rows[i].prevHash
      && row.hash == h(Message(row.entry, row.prevHash))
      && (i + 1 < |rows| ==> row.hash == rows[i].hash)
  {
    var after := rows[i := row];
    assert RowOk(h, rows, i);
    forall k | 0 <= k < |rows| && k != i && k != i + 1
      ensures RowOk(h, after, k)
    {
      assert RowOk(h, rows, k);
      assert PrevHash(after, k) == PrevHash(rows, k);
    }
    assert PrevHash(after, i) == PrevHash(rows, i);
    assert RowOk(h, after, i) <==> row.prevHash == rows[i].prevHash && row.hash == h(Message(row.entry, row.prevHash));
    if i + 1 < |rows| {
      assert RowOk(h, rows, i + 1);
      assert RowOk(h, after, i + 1) <==> row.hash == rows[i].hash;
    }
    hide RowOk;
    if Verifies(h, after) {
      assert RowOk(h, after, i);
      if i + 1 < |rows| {
        assert RowOk(h, after, i + 1);
      }
    }
  }

  /**
   Changing what a row records, its hashes kept, goes unnoticed exactly when time and
   joined texts stay, or the hash collides.
   */
  lemma FieldEditUnnoticed(h: Hash, rows: seq<Row>, i: nat, e: Entry)
    requires Verifies(h, rows) && i < |rows| && InIdOrder(rows)
    ensures Verifies(h, rows[i := rows[i].(entry := e)]) <==>
      || (e.ts == rows[i].entry.ts && Texts(e) == Texts(rows[i].entry))
      || Collide(h, Message(e, rows[i].prevHash), Message(rows[i].entry, rows[i].prevHash))
  {
    assert RowOk(h, rows, i);
    EditUnnoticed(h, rows, i, rows[i].(entry := e));
    MessageParts(e, rows[i].prevHash, rows[i].entry, rows[i].prevHash);
  }

  /** A byte moved from the space to the target: another record, the same chain. */
  lemma MovedBoundary(h: Hash)
    ensures var e := Entry(0, [97], Ascii(AsStr(Write)), [98], Some([99]), None);
      var e' := Entry(0, [97], Ascii(AsStr(Write)), [98, 99], None, None);
      var rows := [NewRow(h, [], 1, e)];
      e != e' && Verifies(h, rows) && Verifies(h, [rows[0].(entry := e')])
  {
    var e := Entry(0, [97], Ascii(AsStr(Write)), [98], Some([99]), None);
    var e' := Entry(0, [97], Ascii(AsStr(Write)), [98, 99], None, None);
    var rows := [NewRow(h, [], 1, e)];
    AppendVerifies(h, [], 1, e);
    assert [] + rows == rows;
    assert Texts(e) == Texts(e');
    FieldEditUnnoticed(h, rows, 0, e');
    assert rows[0 := rows[0].(entry := e')] == [rows[0].(entry := e')];
  }

  function Without(rows: seq<Row>, i: nat): seq<Row>
    requires i < |rows|
  {
    rows[..i] + rows[i + 1..]
  }

  function With(rows: seq<Row>, j: nat, row: Row): seq<Row>
    requires j <= |rows|
  {
    rows[..j] + [row] + rows[j..]
  }

  /** Removing one row goes unnoticed exactly when it was the last, or its hash repeated its predecessor's. */
  lemma RemovalUnnoticed(h: Hash, rows: seq<Row>, i: nat)
    requires Verifies(h, rows) && i < |rows|
    ensures Verifies(h, Without(rows, i)) <==> i + 1 == |rows| || (i > 0 && rows[i].hash == rows[i - 1].hash)
  {
    var after := Without(rows, i);
    forall k | 0 <= k < i
      ensures RowOk(h, after, k)
    {
      assert RowOk(h, rows, k);
      assert PrevHash(after, k) == PrevHash(rows, k);
    }
    forall k | i < k < |after|
      ensures RowOk(h, after, k)
    {
      assert RowOk(h, rows, k + 1);
      assert PrevHash(after, k) == PrevHash(rows, k + 1);
    }
    if i + 1 < |rows| {
      assert after[i] == rows[i + 1];
      assert RowOk(h, rows, i + 1);
      assert PrevHash(rows, i + 1) == Some(rows[i].hash);
      assert RowOk(h, after, i) <==> i > 0 && rows[i].hash == rows[i - 1].hash;
    }
  }

  /** The rows of a table with one more row: those before it, itself, those after it. */
  lemma WithRow(h: Hash, rows: seq<Row>, j: nat, row: Row, k: nat)
    requires j <= |rows| && k <= |rows|
    ensures RowOk(h, With(rows, j, row), k) ==
      if k < j then RowOk(h, rows, k)
      else if k == j then row.hash == h(Message(row.entry, PrevHash(rows, j))) && row.prevHash == PrevHash(rows, j)
      else if k == j + 1 then rows[j].hash == h(Message(rows[j].entry, Some(row.hash))) &&
        rows[j].prevHash == Some(row.hash)
      else RowOk(h, rows, k - 1)
  {
    hide Message;
    var after := With(rows, j, row);
    assert PrevHash(after, k) == if k <= j then PrevHash(rows, k) else if k == j + 1 then Some(row.hash)
      else PrevHash(rows, k - 1);
  }

  /**
   Inserting a row goes unnoticed exactly when it fits its predecessor and, unless it comes
   last, repeats its predecessor's hash.
   */
  lemma InsertionUnnoticed(h: Hash, rows: seq<Row>, j: nat, row: Row)
    requires Verifies(h, rows) && j <= |rows|
    ensures Verifies(h, With(rows, j, row)) <==> Slips(h, rows, j, row)
  {
    hide Message, RowOk;
    forall k | 0 <= k <= |rows|
      ensures k != j && k != j + 1 ==> RowOk(h, With(rows, j, row), k)
    {
      WithRow(h, rows, j, row, k);
    }
    WithRow(h, rows, j, row, j);
    if j < |rows| {
      WithRow(h, rows, j, row, j + 1);
      NextKeepsHash(h, rows, j, row);
    }
    if Verifies(h, With(rows, j, row)) {
      assert RowOk(h, With(rows, j, row), j);
      assert j < |rows| ==> RowOk(h, With(rows, j, row), j + 1);
    }
  }

  ghost predicate Slips(h: Hash, rows: seq<Row>, j: nat, row: Row)
    requires j <= |rows|
  {
    && row.prevHash == PrevHash(rows, j) && row.hash == h(Message(row.entry, row.prevHash))
    && (j < |rows| ==> j > 0 && row.hash == rows[j - 1].hash)
  }

  lemma NextKeepsHash(h: Hash, rows: seq<Row>, j: nat, row: Row)
    requires Verifies(h, rows) && j < |rows|
    ensures rows[j].hash == h(Message(rows[j].entry, Some(row.hash))) && rows[j].prevHash == Some(row.hash)
      <==> j > 0 && row.hash == rows[j - 1].hash
  {
    hide Message;
    assert RowOk(h, rows, j);
  }

  /** An edit whose new id moves a row elsewhere goes unnoticed exactly when taking it out and putting it in both do. */
  lemma MoveUnnoticed(h: Hash, rows: seq<Row>, i: nat, j: nat, row: Row)
    requires Verifies(h, rows) && i < |rows| && j < |rows| && j != i
    ensures Verifies(h, With(Without(rows, i), j, row)) <==>
      (i + 1 == |rows| || (i > 0 && rows[i].hash == rows[i - 1].hash)) && Slips(h, Without(rows, i), j, row)
  {
    hide RowOk, Slips;
    var rest := Without(rows, i);
    RemovalUnnoticed(h, rows, i);
    if Verifies(h, With(rest, j, row)) {
      forall k | 0 <= k < |rest|
        ensures RowOk(h, rest, k)
      {
        RestOk(h, rows, i, j, row, k);
      }
    }
    if Verifies(h, rest) {
      InsertionUnnoticed(h, rest, j, row);
    }
  }

  lemma RestOk(h: Hash, rows: seq<Row>, i: nat, j: nat, row: Row, k: nat)
    requires Verifies(h, rows) && i < |rows| && j < |rows| && j != i && k < |rows| - 1
    requires Verifies(h, With(Without(rows, i), j, row))
    ensures RowOk(h, Without(rows, i), k)
  {
    hide Message;
    var rest := Without(rows, i);
    if k == j {
      assert RowOk(h, rows, if k < i then k else k + 1);
      assert PrevHash(rest, k) == PrevHash(rows, if k < i then k else k + 1);
    } else {
      var at := if k < j then k else k + 1;
      WithRow(h, rest, j, row, at);
      assert RowOk(h, With(rest, j, row), at);
    }
  }
}
