/** The write-ahead log: length-prefixed records, and what a replay makes of any crash-cut log. */
module WriteAheadLog {
  import opened Bytes
  import opened Wrappers

  datatype WalOperation =
    | Insert(id: Text, data: seq<Byte>)
    | Delete(id: Text, segId: nat, localId: nat)
    | Update(id: Text, data: seq<Byte>, segId: nat, localId: nat)
  {
    /** The field widths of the stored record. */
    ghost predicate Encodable() {
      && |id| < U64_LIMIT
      && (Insert? || Update? ==> |data| < U64_LIMIT)
      && (Delete? || Update? ==> segId < U64_LIMIT && localId < U32_LIMIT)
      && |Encode(this)| < U64_LIMIT
    }
  }

  function EncodeBytes(b: seq<Byte>): seq<Byte> {
    ToLE(|b|, 8) + b
  }

  /** A 32-bit variant tag, then the fields. */
  function Encode(op: WalOperation): seq<Byte> {
    match op
    case Insert(id, data) => ToLE(0, 4) + EncodeBytes(id) + EncodeBytes(data)
    case Delete(id, segId, localId) => ToLE(1, 4) + EncodeBytes(id) + ToLE(segId, 8) + ToLE(localId, 4)
    case Update(id, data, segId, localId) =>
      ToLE(2, 4) + EncodeBytes(id) + EncodeBytes(data) + ToLE(segId, 8) + ToLE(localId, 4)
  }

  datatype WalError = CutPayload | BadRecord

  /** One decoded field and the bytes after it. */
  datatype Field<T> = Field(value: T, rest: seq<Byte>)

  function TakeInt(bytes: seq<Byte>, width: nat): Result<Field<nat>, WalError> {
    if |bytes| < width then Err(BadRecord) else Ok(Field(FromLE(bytes[..width]), bytes[width..]))
  }

  function TakeBytes(bytes: seq<Byte>): Result<Field<seq<Byte>>, WalError> {
    var len :- TakeInt(bytes, 8);
    if |len.rest| < len.value then Err(BadRecord)
    else Ok(Field(len.rest[..len.value], len.rest[len.value..]))
  }

  /** Decoding ignores bytes after the last field. */
  function Decode(bytes: seq<Byte>): Result<WalOperation, WalError> {
    var tag :- TakeInt(bytes, 4);
    if tag.value == 0 then
      var id :- TakeBytes(tag.rest);
      var data :- TakeBytes(id.rest);
      Ok(Insert(id.value, data.value))
    else if tag.value == 1 then
      var id :- TakeBytes(tag.rest);
      var segId :- TakeInt(id.rest, 8);
      var localId :- TakeInt(segId.rest, 4);
      Ok(Delete(id.value, segId.value, localId.value))
    else if tag.value == 2 then
      var id :- TakeBytes(tag.rest);
      var data :- TakeBytes(id.rest);
      var segId :- TakeInt(data.rest, 8);
      var localId :- TakeInt(segId.rest, 4);
      Ok(Update(id.value, data.value, segId.value, localId.value))
    else
      Err(BadRecord)
  }

  lemma TakeIntBack(n: nat, width: nat, rest: seq<Byte>)
    requires n < Power256(width)
    ensures TakeInt(ToLE(n, width) + rest, width) == Ok(Field(n, rest))
  {
    FromToLE(n, width);
    assert (ToLE(n, width) + rest)[..width] == ToLE(n, width);
    assert (ToLE(n, width) + rest)[width..] == rest;
  }

  lemma TakeBytesBack(b: seq<Byte>, rest: seq<Byte>)
    requires |b| < U64_LIMIT
    ensures TakeBytes(EncodeBytes(b) + rest) == Ok(Field(b, rest))
  {
    PowerLimits();
    TakeIntBack(|b|, 8, b + rest);
    assert EncodeBytes(b) + rest == ToLE(|b|, 8) + (b + rest);
    assert (b + rest)[..|b|] == b && (b + rest)[|b|..] == rest;
  }

  lemma RecordRoundTrip(op: WalOperation)
    requires op.Encodable()
    ensures Decode(Encode(op)) == Ok(op)
  {
    PowerLimits();
    match op
    case Insert(id, data) =>
      InsertBack(id, data);
    case Delete(id, segId, localId) =>
      DeleteBack(id, segId, localId);
    case Update(id, data, segId, localId) =>
      UpdateBack(id, data, segId, localId);
  }

  /** A record begins with the number of its kind, then the key behind its length. */
  lemma RecordLayout(op: WalOperation)
    requires op.Encodable()
    ensures BeginsWith(Encode(op), if op.Insert? then 0 else if op.Delete? then 1 else 2, op.id)
  {
    hide BeginsWith, EncodeBytes, ToLE;
    match op
    case Insert(id, data) =>
      Begins(0, id, EncodeBytes(data));
    case Delete(id, segId, localId) =>
      Begins(1, id, ToLE(segId, 8) + ToLE(localId, 4));
      FourParts(ToLE(1, 4), EncodeBytes(id), ToLE(segId, 8), ToLE(localId, 4));
    case Update(id, data, segId, localId) =>
      Begins(2, id, EncodeBytes(data) + ToLE(segId, 8) + ToLE(localId, 4));
      FourParts(ToLE(2, 4), EncodeBytes(id), EncodeBytes(data), ToLE(segId, 8));
      FourParts(ToLE(2, 4), EncodeBytes(id), EncodeBytes(data) + ToLE(segId, 8), ToLE(localId, 4));
  }

  ghost predicate BeginsWith(bytes: seq<Byte>, kind: nat, id: Text) {
    |bytes| >= 12 + |id| && FromLE(bytes[..4]) == kind && FromLE(bytes[4..12]) == |id| && bytes[12..12 + |id|] == id
  }

  lemma Begins(kind: nat, id: Text, rest: seq<Byte>)
    requires kind < 3 && |id| < U64_LIMIT
    ensures BeginsWith(ToLE(kind, 4) + EncodeBytes(id) + rest, kind, id)
  {
    PowerLimits();
    FromToLE(kind, 4);
    FromToLE(|id|, 8);
    hide ToLE, FromLE, Power256;
    var bytes := ToLE(kind, 4) + EncodeBytes(id) + rest;
    assert bytes[..4] == ToLE(kind, 4);
    assert bytes[4..12] == ToLE(|id|, 8);
    assert bytes[12..12 + |id|] == id;
  }

  lemma FourParts(a: seq<Byte>, b: seq<Byte>, c: seq<Byte>, d: seq<Byte>)
    ensures a + b + c + d == a + b + (c + d)
  {
  }

  lemma InsertBack(id: Text, data: seq<Byte>)
    requires |id| < U64_LIMIT && |data| < U64_LIMIT
    ensures Decode(Encode(Insert(id, data))) == Ok(Insert(id, data))
  {
    PowerLimits();
    var afterId := EncodeBytes(data) + [];
    var afterTag := EncodeBytes(id) + afterId;
    assert Encode(Insert(id, data)) == ToLE(0, 4) + afterTag;
    TakeIntBack(0, 4, afterTag);
    TakeBytesBack(id, afterId);
    TakeBytesBack(data, []);
  }

  lemma DeleteBack(id: Text, segId: nat, localId: nat)
    requires |id| < U64_LIMIT && segId < U64_LIMIT && localId < U32_LIMIT
    ensures Decode(Encode(Delete(id, segId, localId))) == Ok(Delete(id, segId, localId))
  {
    PowerLimits();
    var afterSeg := ToLE(localId, 4) + [];
    var afterId := ToLE(segId, 8) + afterSeg;
    var afterTag := EncodeBytes(id) + afterId;
    assert Encode(Delete(id, segId, localId)) == ToLE(1, 4) + afterTag;
    TakeIntBack(1, 4, afterTag);
    TakeBytesBack(id, afterId);
    TakeIntBack(segId, 8, afterSeg);
    TakeIntBack(localId, 4, []);
  }

  lemma FiveFields(a: seq<Byte>, b: seq<Byte>, c: seq<Byte>, d: seq<Byte>, e: seq<Byte>)
    ensures a + b + c + d + e == a + (b + (c + (d + (e + []))))
  {
  }

  lemma UpdateBack(id: Text, data: seq<Byte>, segId: nat, localId: nat)
    requires |id| < U64_LIMIT && |data| < U64_LIMIT && segId < U64_LIMIT && localId < U32_LIMIT
    ensures Decode(Encode(Update(id, data, segId, localId))) == Ok(Update(id, data, segId, localId))
  {
    PowerLimits();
    var afterSeg := ToLE(localId, 4) + [];
    var afterData := ToLE(segId, 8) + afterSeg;
    var afterId := EncodeBytes(data) + afterData;
    var afterTag := EncodeBytes(id) + afterId;
    hide EncodeBytes, TakeInt, TakeBytes, Power256, ToLE;
    FiveFields(ToLE(2, 4), EncodeBytes(id), EncodeBytes(data), ToLE(segId, 8), ToLE(localId, 4));
    assert Encode(Update(id, data, segId, localId)) == ToLE(2, 4) + afterTag;
    hide Encode;
    TakeIntBack(2, 4, afterTag);
    TakeBytesBack(id, afterId);
    TakeBytesBack(data, afterData);
    TakeIntBack(segId, 8, afterSeg);
    TakeIntBack(localId, 4, []);
  }

  function Frame(op: WalOperation): seq<Byte> {
    ToLE(|Encode(op)|, 8) + Encode(op)
  }

  function Log(ops: seq<WalOperation>): seq<Byte> {
    if |ops| == 0 then [] else Frame(ops[0]) + Log(ops[1..])
  }

  lemma {:induction false} LogAppend(ops: seq<WalOperation>, op: WalOperation)
    ensures Log(ops + [op]) == Log(ops) + Frame(op)
  {
    hide Frame;
    if |ops| == 0 {
      assert Log([op]) == Frame(op) + Log([]);
    } else {
      LogAppend(ops[1..], op);
      assert (ops + [op])[1..] == ops[1..] + [op];
    }
  }

  /** What a replay of these bytes returns. */
  ghost function ReplayOf(bytes: seq<Byte>): Result<seq<WalOperation>, WalError>
    decreases |bytes|
  {
    if |bytes| < 8 then Ok([])
    else
      var len := FromLE(bytes[..8]);
      if 8 + len > |bytes| then Err(CutPayload)
      else
        var op :- Decode(bytes[8..8 + len]);
        var rest :- ReplayOf(bytes[8 + len..]);
        Ok([op] + rest)
  }

  /** How many of the records are complete within the first `n` bytes. */
  ghost function Complete(ops: seq<WalOperation>, n: nat): (k: nat)
    ensures k <= |ops|
  {
    if |ops| == 0 || n < |Frame(ops[0])| then 0 else 1 + Complete(ops[1..], n - |Frame(ops[0])|)
  }

  lemma {:induction false} CompleteBounds(ops: seq<WalOperation>, n: nat)
    ensures |Log(ops[..Complete(ops, n)])| <= n
    ensures Complete(ops, n) < |ops| ==> n < |Log(ops[..Complete(ops, n)])| + |Frame(ops[Complete(ops, n)])|
  {
    if |ops| != 0 && n >= |Frame(ops[0])| {
      var k := Complete(ops[1..], n - |Frame(ops[0])|);
      CompleteBounds(ops[1..], n - |Frame(ops[0])|);
      assert ops[..1 + k][1..] == ops[1..][..k];
    }
  }

  ghost function Prepend(ops: seq<WalOperation>, r: Result<seq<WalOperation>, WalError>): Result<seq<WalOperation>, WalError> {
    if r.Ok? then Ok(ops + r.value) else r
  }

  lemma PrependOne(ops: seq<WalOperation>, op: WalOperation, r: Result<seq<WalOperation>, WalError>)
    ensures Prepend(ops, Prepend([op], r)) == Prepend(ops + [op], r)
  {
    if r.Ok? {
      assert ops + ([op] + r.value) == (ops + [op]) + r.value;
    }
  }

  lemma ReplayFrame(op: WalOperation, rest: seq<Byte>)
    requires op.Encodable()
    ensures ReplayOf(Frame(op) + rest) == Prepend([op], ReplayOf(rest))
  {
    var bytes := Frame(op) + rest;
    PowerLimits();
    FromToLE(|Encode(op)|, 8);
    RecordRoundTrip(op);
    assert bytes[..8] == ToLE(|Encode(op)|, 8);
    assert bytes[8..8 + |Encode(op)|] == Encode(op);
    assert bytes[8 + |Encode(op)|..] == rest;
  }

  lemma ReplayCut(op: WalOperation, n: nat)
    requires op.Encodable() && n < |Frame(op)|
    ensures ReplayOf(Frame(op)[..n]) == if n < 8 then Ok([]) else Err(CutPayload)
  {
    PowerLimits();
    FromToLE(|Encode(op)|, 8);
    if n >= 8 {
      assert Frame(op)[..n][..8] == ToLE(|Encode(op)|, 8);
    }
  }

  lemma LogTail(ops: seq<WalOperation>, k: nat)
    requires 0 < k <= |ops|
    ensures |Log(ops[..k])| == |Frame(ops[0])| + |Log(ops[1..][..k - 1])|
    ensures ops[..k] == [ops[0]] + ops[1..][..k - 1]
  {
    assert ops[..k][1..] == ops[1..][..k - 1];
  }

  /** The complete records, unless the cut left more than a length header of the next one. */
  ghost function PrefixOutcome(ops: seq<WalOperation>, n: nat): Result<seq<WalOperation>, WalError> {
    var k := Complete(ops, n);
    if n - |Log(ops[..k])| < 8 then Ok(ops[..k]) else Err(CutPayload)
  }

  lemma OutcomeCons(ops: seq<WalOperation>, n: nat)
    requires |ops| > 0 && n >= |Frame(ops[0])|
    ensures PrefixOutcome(ops, n) == Prepend([ops[0]], PrefixOutcome(ops[1..], n - |Frame(ops[0])|))
  {
    LogTail(ops, Complete(ops, n));
  }

  lemma OutcomeCut(ops: seq<WalOperation>, n: nat)
    requires |ops| > 0 && n < |Frame(ops[0])|
    ensures PrefixOutcome(ops, n) == if n < 8 then Ok([]) else Err(CutPayload)
  {
    assert ops[..0] == [];
  }

  /** Cut anywhere, the log replays to exactly its complete records when the cut falls between
      records or inside a length header, and to an error when it falls inside a payload. */
  lemma {:induction false} ReplayPrefix(ops: seq<WalOperation>, n: nat)
    requires forall op | op in ops :: op.Encodable()
    requires n <= |Log(ops)|
    ensures ReplayOf(Log(ops)[..n]) == PrefixOutcome(ops, n)
  {
    if |ops| == 0 {
    } else if n < |Frame(ops[0])| {
      assert Log(ops)[..n] == Frame(ops[0])[..n];
      ReplayCut(ops[0], n);
      OutcomeCut(ops, n);
    } else {
      var m := n - |Frame(ops[0])|;
      var tail := Log(ops[1..])[..m];
      ReplayPrefix(ops[1..], m);
      assert Log(ops)[..n] == Frame(ops[0]) + tail;
      ReplayFrame(ops[0], tail);
      OutcomeCons(ops, n);
    }
  }

  /** A whole log replays to what was appended. */
  lemma ReplayAll(ops: seq<WalOperation>)
    requires forall op | op in ops :: op.Encodable()
    ensures ReplayOf(Log(ops)) == Ok(ops)
  {
    ReplayPrefix(ops, |Log(ops)|);
    CompleteBounds(ops, |Log(ops)|);
    CompleteAll(ops);
    assert Log(ops)[..|Log(ops)|] == Log(ops) && ops[..|ops|] == ops;
  }

  lemma {:induction false} CompleteAll(ops: seq<WalOperation>)
    ensures Complete(ops, |Log(ops)|) == |ops|
  {
    if |ops| != 0 {
      CompleteAll(ops[1..]);
    }
  }

  // ---------- appending to what a crash left ----------

  lemma {:induction false} LogConcat(xs: seq<WalOperation>, ys: seq<WalOperation>)
    ensures Log(xs + ys) == Log(xs) + Log(ys)
  {
    hide Frame;
    if |xs| == 0 {
      assert xs + ys == ys;
    } else {
      LogConcat(xs[1..], ys);
      assert (xs + ys)[1..] == xs[1..] + ys;
    }
  }

  lemma {:induction false} ReplayLog(ops: seq<WalOperation>, rest: seq<Byte>)
    requires forall op | op in ops :: op.Encodable()
    ensures ReplayOf(Log(ops) + rest) == Prepend(ops, ReplayOf(rest))
  {
    hide ReplayOf, Frame;
    if |ops| == 0 {
      assert Log(ops) + rest == rest;
      assert forall xs: seq<WalOperation> :: [] + xs == xs;
    } else {
      ReplayLog(ops[1..], rest);
      assert Log(ops) + rest == Frame(ops[0]) + (Log(ops[1..]) + rest);
      ReplayFrame(ops[0], Log(ops[1..]) + rest);
      PrependOne([], ops[0], ReplayOf(Log(ops[1..]) + rest));
      assert ops == [ops[0]] + ops[1..];
      PrependTwo(ops[0], ops[1..], ReplayOf(rest));
    }
  }

  lemma PrependTwo(op: WalOperation, ops: seq<WalOperation>, r: Result<seq<WalOperation>, WalError>)
    ensures Prepend([op], Prepend(ops, r)) == Prepend([op] + ops, r)
  {
    if r.Ok? {
      assert [op] + (ops + r.value) == ([op] + ops) + r.value;
    }
  }

  lemma {:induction false} DigitCounts(bytes: seq<Byte>, i: nat)
    requires i < |bytes|
    ensures FromLE(bytes) >= Power256(i) * bytes[i]
  {
    if i > 0 {
      DigitCounts(bytes[1..], i - 1);
      assert Power256(i) * bytes[i] == 256 * (Power256(i - 1) * bytes[1..][i - 1]);
    }
  }

  /** Deleting the row with the empty key. */
  const SHORT: WalOperation := Delete([], 0, 0)

  /** After a part of a header, the next record is read with a wrong length, beyond the end. */
  lemma HeaderCutLosesNext(left: seq<Byte>)
    requires 0 < |left| < 8
    ensures SHORT.Encodable() && ReplayOf(left + Frame(SHORT)) == Err(CutPayload)
  {
    ShortFrame();
    hide ToLE, Encode, Frame;
    var bytes, r := left + Frame(SHORT), |left|;
    assert bytes[..8][r] == 24;
    DigitCounts(bytes[..8], r);
    assert Power256(r) >= 256;
    hide FromLE, Power256, Decode;
  }

  lemma ShortFrame()
    ensures |Encode(SHORT)| == 24 && |Frame(SHORT)| == 32 && Frame(SHORT)[0] == 24 && SHORT.Encodable()
  {
    assert |EncodeBytes([])| == 8;
    assert ToLE(24, 8)[0] == 24;
  }

  /** A cut log is its complete records and a part of the next one. */
  lemma CutPoint(ops: seq<WalOperation>, n: nat)
    requires n <= |Log(ops)|
    ensures var whole := Log(ops[..Complete(ops, n)]);
      |whole| <= n && Log(ops)[..n] == whole + Log(ops)[|whole|..n]
  {
    var k := Complete(ops, n);
    CompleteBounds(ops, n);
    hide *;
    LogConcat(ops[..k], ops[k..]);
    assert ops[..k] + ops[k..] == ops;
    CutAfter(Log(ops[..k]), Log(ops[k..]), n);
  }

  lemma CutAfter(whole: seq<Byte>, rest: seq<Byte>, n: nat)
    requires |whole| <= n <= |whole + rest|
    ensures (whole + rest)[..n] == whole + (whole + rest)[|whole|..n]
  {
  }

  ghost predicate Encodables(ops: seq<WalOperation>) {
    forall op | op in ops :: op.Encodable()
  }

  /** Whatever is appended to these bytes, a replay gives `before` and what was appended. */
  ghost predicate Resumes(bytes: seq<Byte>, before: seq<WalOperation>) {
    forall more | Encodables(more) :: ReplayOf(bytes + Log(more)) == Ok(before + more)
  }

  /** Appending to a log that a crash cut is exact exactly if the cut fell between records. */
  lemma ResumeExactIff(ops: seq<WalOperation>, n: nat)
    requires Encodables(ops) && n <= |Log(ops)|
    ensures Resumes(Log(ops)[..n], ops[..Complete(ops, n)]) <==> n == |Log(ops[..Complete(ops, n)])|
  {
    CutPoint(ops, n);
    ReplayPrefix(ops, n);
    EncodablePrefix(ops, Complete(ops, n));
    CutOutcome(ops, n);
    hide *;
    var before, bytes := ops[..Complete(ops, n)], Log(ops)[..n];
    var left := Log(ops)[|Log(before)|..n];
    assert bytes == Log(before) + left;
    if left == [] {
      assert bytes == Log(before);
      CutBetween(before);
    } else if |left| >= 8 {
      CutStaysCut(bytes, before);
    } else {
      CutHeader(before, left);
    }
  }

  lemma CutOutcome(ops: seq<WalOperation>, n: nat)
    ensures n - |Log(ops[..Complete(ops, n)])| >= 8 ==> PrefixOutcome(ops, n).Err?
  {
  }

  lemma EncodablePrefix(ops: seq<WalOperation>, k: nat)
    requires Encodables(ops) && k <= |ops|
    ensures Encodables(ops[..k])
  {
  }

  lemma CutBetween(before: seq<WalOperation>)
    requires Encodables(before)
    ensures Resumes(Log(before), before)
  {
    forall more | Encodables(more) ensures ReplayOf(Log(before) + Log(more)) == Ok(before + more) {
      LogConcat(before, more);
      ReplayAll(before + more);
    }
  }

  lemma CutHeader(before: seq<WalOperation>, left: seq<Byte>)
    requires Encodables(before) && 0 < |left| < 8
    ensures !Resumes(Log(before) + left, before)
  {
    HeaderCutLosesNext(left);
    ReplayLog(before, left + Frame(SHORT));
    assert Encodables([SHORT]);
    hide ReplayOf, Log, Frame, WalOperation.Encodable;
    OneRecord(SHORT);
    Grouped(Log(before), left, Frame(SHORT));
    assert ReplayOf(Log(before) + left + Log([SHORT])).Err?;
  }

  lemma CutStaysCut(bytes: seq<Byte>, before: seq<WalOperation>)
    requires ReplayOf(bytes).Err?
    ensures !Resumes(bytes, before)
  {
    assert Encodables([]) && bytes + Log([]) == bytes;
  }

  lemma OneRecord(op: WalOperation)
    ensures Log([op]) == Frame(op)
  {
    assert Log([op]) == Frame(op) + Log([]);
  }

  /** What recovery leaves of a log it has read: nothing, if there was a record to apply. */
  ghost function Recovered(bytes: seq<Byte>): seq<Byte> {
    if ReplayOf(bytes).Ok? && ReplayOf(bytes).value != [] then [] else bytes
  }

  /** After recovery from a cut log, the next lifetime of the log is exact unless the very first
      header was cut: that part of it is never truncated. */
  lemma RecoveryExactIff(ops: seq<WalOperation>, n: nat)
    requires Encodables(ops) && n <= |Log(ops)| && ReplayOf(Log(ops)[..n]).Ok?
    ensures Resumes(Recovered(Log(ops)[..n]), []) <==> !(0 < n < 8)
  {
    var k, bytes := Complete(ops, n), Log(ops)[..n];
    ReplayPrefix(ops, n);
    CompleteBounds(ops, n);
    CompleteSome(ops, n);
    if k > 0 || n == 0 {
      assert Recovered(bytes) == [];
      NothingLeft();
    } else {
      assert ops[..0] == [] && Recovered(bytes) == bytes;
      ResumeExactIff(ops, n);
    }
  }

  lemma CompleteSome(ops: seq<WalOperation>, n: nat)
    ensures n < 8 ==> Complete(ops, n) == 0
    ensures Complete(ops, n) == 0 ==> |Log(ops[..Complete(ops, n)])| == 0
  {
  }

  lemma NothingLeft()
    ensures Resumes([], [])
  {
    forall more | Encodables(more) ensures ReplayOf([] + Log(more)) == Ok([] + more) {
      ReplayAll(more);
      assert [] + Log(more) == Log(more) && [] + more == more;
    }
  }

  lemma AppendShifts(file: seq<Byte>, buffer: seq<Byte>, before: seq<Byte>, head: seq<Byte>, body: seq<Byte>)
    requires file + buffer == before
    ensures file + (buffer + head + body) == before + (head + body)
  {
  }

  lemma SpillShifts(file: seq<Byte>, buffer: seq<Byte>, n: nat)
    requires n <= |buffer|
    ensures (file + buffer[..n]) + buffer[n..] == file + buffer
  {
  }

  lemma Grouped(a: seq<Byte>, b: seq<Byte>, c: seq<Byte>)
    ensures (a + b) + c == a + (b + c)
  {
  }

  /** The log file and the writer's buffer in front of it. */
  class Wal {
    var file: seq<Byte>
    var buffer: seq<Byte>
    /** What was in the file when the log was opened; nothing once it has been truncated. */
    ghost var left: seq<Byte>
    /** Every operation appended since then. */
    ghost var appended: seq<WalOperation>

    ghost predicate Valid()
      reads this
    {
      && (forall op | op in appended :: op.Encodable())
      && file + buffer == left + Log(appended)
    }

    /** Opens the log for appending to what is there. */
    constructor (existing: seq<Byte>)
      ensures Valid() && appended == [] && left == file == existing && buffer == []
    {
      file, buffer, left, appended := existing, [], existing, [];
    }

    method Append(op: WalOperation)
      requires Valid() && op.Encodable()
      modifies this
      ensures Valid() && appended == old(appended) + [op] && file == old(file) && left == old(left)
    {
      var encoded := Encode(op);
      LogAppend(appended, op);
      AppendShifts(file, buffer, left + Log(appended), ToLE(|encoded|, 8), encoded);
      Grouped(left, Log(appended), Frame(op));
      hide Log, Encode, WalOperation.Encodable;
      buffer := buffer + ToLE(|encoded|, 8);
      buffer := buffer + encoded;
      appended := appended + [op];
    }

    /** The buffer hands its first `n` bytes to the file, as it may at any moment. */
    method Spill(n: nat)
      requires Valid() && n <= |buffer|
      modifies this`file, this`buffer
      ensures Valid() && file == old(file) + old(buffer)[..n]
    {
      SpillShifts(file, buffer, n);
      hide Log, WalOperation.Encodable;
      file, buffer := file + buffer[..n], buffer[n..];
    }

    method Flush()
      requires Valid()
      modifies this`file, this`buffer
      ensures Valid() && file == left + Log(appended) && buffer == []
    {
      file, buffer := file + buffer, [];
    }

    /** Reads the file, not the buffer.  Whatever reached the disk before a crash, the replay of a log
        that was opened empty is a prefix of what was appended or an error: never another operation. */
    method Replay() returns (r: Result<seq<WalOperation>, WalError>)
      requires Valid()
      ensures r == ReplayOf(file)
      ensures left == [] ==> |file| <= |Log(appended)| && r == PrefixOutcome(appended, |file|)
      ensures left == [] && r.Ok? ==> r.value == appended[..Complete(appended, |file|)]
      ensures left == [] ==> (r.Ok? <==> |file| - |Log(appended[..Complete(appended, |file|)])| < 8)
      ensures left == [] && r.Err? ==> r.error == CutPayload
      ensures left == [] && buffer == [] ==> r == Ok(appended)
    {
      if left == [] {
        assert left + Log(appended) == Log(appended);
        assert file == Log(appended)[..|file|];
        ReplayPrefix(appended, |file|);
        if buffer == [] {
          ReplayAll(appended);
          assert file == Log(appended);
        }
      }
      r := ReplayBytes(file);
    }

    method Truncate()
      requires Valid()
      modifies this
      ensures Valid() && appended == [] && left == [] && file == [] && buffer == []
    {
      Flush();
      file, left, appended := [], [], [];
    }

    /** Recovery at opening: replays, and truncates if there was anything to apply.  The log then
        stands as `RecoveryExactIff` says. */
    method Recover() returns (r: Result<seq<WalOperation>, WalError>)
      requires Valid() && appended == [] && buffer == []
      modifies this
      ensures Valid() && appended == [] && buffer == []
      ensures r == ReplayOf(old(file)) && file == left == Recovered(old(file))
    {
      assert file + buffer == file && left + Log([]) == left;
      r := Replay();
      if r.Ok? && r.value != [] {
        Truncate();
      }
    }

    /** A log whose opening bytes let it resume replays to all that was appended and flushed. */
    lemma Resumed()
      requires Valid() && buffer == [] && Resumes(left, [])
      ensures ReplayOf(file) == Ok(appended)
    {
      assert file + buffer == file && [] + appended == appended;
      assert Encodables(appended);
    }
  }

  lemma ReplayStep(bytes: seq<Byte>, len: nat, op: WalOperation)
    requires |bytes| >= 8 && len == FromLE(bytes[..8]) && 8 + len <= |bytes|
    requires Decode(bytes[8..8 + len]) == Ok(op)
    ensures ReplayOf(bytes) == Prepend([op], ReplayOf(bytes[8 + len..]))
  {
  }

  /** The replay loop. */
  method ReplayBytes(bytes: seq<Byte>) returns (r: Result<seq<WalOperation>, WalError>)
    ensures r == ReplayOf(bytes)
  {
    var ops := [];
    var rest := bytes;
    assert forall xs: seq<WalOperation> :: [] + xs == xs;
    while |rest| >= 8
      invariant ReplayOf(bytes) == Prepend(ops, ReplayOf(rest))
      decreases |rest|
    {
      var len := FromLE(rest[..8]);
      if 8 + len > |rest| {
        return Err(CutPayload);
      }
      var decoded := Decode(rest[8..8 + len]);
      if decoded.Err? {
        return Err(decoded.error);
      }
      ReplayStep(rest, len, decoded.value);
      PrependOne(ops, decoded.value, ReplayOf(rest[8 + len..]));
      ops := ops + [decoded.value];
      rest := rest[8 + len..];
    }
    assert ops + [] == ops;
    return Ok(ops);
  }
}
