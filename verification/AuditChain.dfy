/** The audit hash chain (src/infrastructure/audit/audit-chain.ts). */
module AuditChain {
  import opened Wrappers
  import opened Unicode
  import opened Utf8
  import opened Canonical
  import opened CanonicalReader
  import opened RequestHash

  datatype AuditLog = AuditLog(
    tenantId: Option<Text>, correlationId: Text, actorType: Option<Text>, actorId: Option<Text>, action: Text,
    resourceType: Text, resourceId: Text, before: Value, after: Value, metadata: Value,
    ipAddress: Option<Text>, userAgent: Option<Text>,
    previousHash: Option<Text>, hash: Text, createdAt: Text)

  datatype Row = Row(sequence: SafeInt, entry: AuditLog)

  /** SHA-256, and HMAC under a configured key. */
  datatype Digests = Digests(sha256: Digest, hmac: (Text, seq<Byte>) -> Text)

  function DigestUnder(d: Digests, key: Option<Text>): Digest {
    if key.Some? && key.value != [] then (bytes: seq<Byte>) => d.hmac(key.value, bytes) else d.sha256
  }

  /** An ASCII name as code units. */
  function Ascii7(name: string): (t: Text)
    ensures |t| == |name| && (name != "" ==> t[0] == name[0] as int % 0x80)
  {
    seq(|name|, i requires 0 <= i < |name| => name[i] as int % 0x80)
  }

  const PAYLOAD_KEYS: seq<Text> := [
    Ascii7("previousHash"), Ascii7("sequence"), Ascii7("createdAt"), Ascii7("tenantId"), Ascii7("correlationId"),
    Ascii7("actorType"), Ascii7("actorId"), Ascii7("action"), Ascii7("resourceType"), Ascii7("resourceId"),
    Ascii7("before"), Ascii7("after"), Ascii7("metadata"), Ascii7("ipAddress"), Ascii7("userAgent")
  ]

  function OrNull(s: Option<Text>): Value {
    if s.None? then Null else Str(s.value)
  }

  /** `v ?? null` */
  function ValueOrNull(v: Value): Value {
    if v.Undefined? then Null else v
  }

  function PayloadValues(previousHash: Option<Text>, sequence: SafeInt, createdAt: Text, e: AuditLog): (r: seq<Value>)
    ensures |r| == |PAYLOAD_KEYS|
    ensures forall i | 0 <= i < |r| :: !r[i].Undefined?
  {
    [OrNull(previousHash), Num(sequence), Str(createdAt), OrNull(e.tenantId), Str(e.correlationId),
     OrNull(e.actorType), OrNull(e.actorId), Str(e.action), Str(e.resourceType), Str(e.resourceId),
     ValueOrNull(e.before), ValueOrNull(e.after), ValueOrNull(e.metadata), OrNull(e.ipAddress), OrNull(e.userAgent)]
  }

  function Labelled(keys: seq<Text>, values: seq<Value>): (v: Value)
    requires |values| == |keys|
    ensures v.Obj? && |v.fields| == |values|
    ensures forall i | 0 <= i < |values| :: v.fields[i] == Field(keys[i], values[i])
  {
    Obj(seq(|values|, i requires 0 <= i < |values| => Field(keys[i], values[i])))
  }

  function AuditPayload(previousHash: Option<Text>, sequence: SafeInt, createdAt: Text, e: AuditLog): Value {
    Labelled(PAYLOAD_KEYS, PayloadValues(previousHash, sequence, createdAt, e))
  }

  /** Failure where canonicalisation throws. */
  function AuditEntryHash(d: Digests, key: Option<Text>, previousHash: Option<Text>, sequence: SafeInt, createdAt: Text,
                          e: AuditLog): Result<Text, CanonError>
  {
    HashRequest(DigestUnder(d, key), AuditPayload(previousHash, sequence, createdAt, e))
  }

  function AuditLinkValid(d: Digests, key: Option<Text>, previousHash: Option<Text>, sequence: SafeInt, e: AuditLog)
    : Result<bool, CanonError>
  {
    if e.previousHash != previousHash then Success(false)
    else match AuditEntryHash(d, key, previousHash, sequence, e.createdAt, e)
      case Failure(error) => Failure(error)
      case Success(expected) => Success(e.hash == expected)
  }

  // ---------------------------------------------------------------- what is hashed, and under which key

  /** Under a non-empty key the hash is the HMAC under that key, otherwise SHA-256, of the UTF-8 bytes of the payload's
      canonical text. */
  lemma EntryHashIs(d: Digests, key: Option<Text>, previousHash: Option<Text>, sequence: SafeInt, createdAt: Text,
                    e: AuditLog)
    ensures var text := Canonicalize(AuditPayload(previousHash, sequence, createdAt, e), 0);
            var hash := AuditEntryHash(d, key, previousHash, sequence, createdAt, e);
            && (text.Failure? ==> hash.Failure?)
            && (text.Success? && key.Some? && key.value != [] ==>
                  hash == Success(d.hmac(key.value, TextEncode(text.value))))
            && (text.Success? && (key.None? || key.value == []) ==> hash == Success(d.sha256(TextEncode(text.value))))
  {
  }

  /** With a key, only HMAC decides; without, only SHA-256 does. */
  lemma OneDigestDecides(d: Digests, d': Digests, key: Option<Text>, previousHash: Option<Text>, sequence: SafeInt,
                         createdAt: Text, e: AuditLog)
    requires if key.Some? && key.value != [] then d.hmac == d'.hmac else d.sha256 == d'.sha256
    ensures AuditEntryHash(d, key, previousHash, sequence, createdAt, e)
         == AuditEntryHash(d', key, previousHash, sequence, createdAt, e)
  {
    EntryHashIs(d, key, previousHash, sequence, createdAt, e);
    EntryHashIs(d', key, previousHash, sequence, createdAt, e);
  }

  /** HMAC binds the key as well as the bytes. */
  ghost predicate InjectiveWithKey(hmac: (Text, seq<Byte>) -> Text) {
    forall k, a, l, b :: hmac(k, a) == hmac(l, b) ==> k == l && a == b
  }

  /** A link can be valid under one key only. */
  lemma LinkBindsTheKey(d: Digests, key: Text, key': Text, p: Option<Text>, q: Option<Text>, a: Row, b: Row)
    requires InjectiveWithKey(d.hmac) && key != [] && key' != [] && a.entry.hash == b.entry.hash
    requires AuditLinkValid(d, Some(key), p, a.sequence, a.entry) == Success(true)
    requires AuditLinkValid(d, Some(key'), q, b.sequence, b.entry) == Success(true)
    ensures key == key'
  {
    EntryHashIs(d, Some(key), p, a.sequence, a.entry.createdAt, a.entry);
    EntryHashIs(d, Some(key'), q, b.sequence, b.entry.createdAt, b.entry);
  }

  // ---------------------------------------------------------------- chains

  /** `auditLinkValid` under one configuration, as a check of a row against the hash before it. */
  type LinkCheck = (Option<Text>, Row) -> Result<bool, CanonError>

  function AuditLink(d: Digests, key: Option<Text>): LinkCheck {
    (previousHash: Option<Text>, row: Row) => AuditLinkValid(d, key, previousHash, row.sequence, row.entry)
  }

  function PreviousHash(rows: seq<Row>, i: nat): Option<Text>
    requires i <= |rows|
  {
    if i == 0 then None else Some(rows[i - 1].entry.hash)
  }

  predicate LinkValid(link: LinkCheck, rows: seq<Row>, i: nat)
    requires i < |rows|
  {
    link(PreviousHash(rows, i), rows[i]) == Success(true)
  }

  predicate ChainValid(link: LinkCheck, rows: seq<Row>) {
    forall i | 0 <= i < |rows| :: LinkValid(link, rows, i)
  }

  // ---------------------------------------------------------------- verification, page by page

  const MAX_AUDIT_LIST_LIMIT := 1000

  /** The stored rows of a tenant in the order of their sequences, which a unique index keeps apart. */
  predicate Ascending(rows: seq<Row>) {
    forall i, j | 0 <= i < j < |rows| :: rows[i].sequence < rows[j].sequence
  }

  function Beyond(rows: seq<Row>, after: SafeInt): seq<Row> {
    if rows == [] then []
    else (if rows[0].sequence > after then [rows[0]] else []) + Beyond(rows[1..], after)
  }

  function FirstPage(rows: seq<Row>): seq<Row> {
    if |rows| <= MAX_AUDIT_LIST_LIMIT then rows else rows[..MAX_AUDIT_LIST_LIMIT]
  }

  function ChainPage(stored: seq<Row>, after: SafeInt): seq<Row> {
    FirstPage(Beyond(stored, after))
  }

  lemma {:induction false} BeyondAll(rows: seq<Row>, after: SafeInt)
    requires forall r | r in rows :: r.sequence > after
    ensures Beyond(rows, after) == rows
  {
    if rows != [] {
      assert rows[0] in rows;
      BeyondAll(rows[1..], after);
    }
  }

  lemma {:induction false} BeyondMembers(rows: seq<Row>, after: SafeInt)
    ensures forall r | r in Beyond(rows, after) :: r in rows && r.sequence > after
  {
    if rows != [] {
      BeyondMembers(rows[1..], after);
    }
  }

  lemma FirstIsLowest(rows: seq<Row>, r: Row)
    requires rows != [] && Ascending(rows) && r in rows[1..]
    ensures rows[0].sequence < r.sequence
  {
    var i :| 0 <= i < |rows[1..]| && rows[1..][i] == r;
    assert rows[i + 1] == r;
  }

  lemma {:induction false} BeyondAscending(rows: seq<Row>, after: SafeInt)
    requires Ascending(rows)
    ensures Ascending(Beyond(rows, after))
  {
    if rows != [] {
      BeyondAscending(rows[1..], after);
      BeyondMembers(rows[1..], after);
      forall r | r in Beyond(rows[1..], after)
        ensures rows[0].sequence < r.sequence
      {
        FirstIsLowest(rows, r);
      }
    }
  }

  lemma {:induction false} BeyondTwice(rows: seq<Row>, after: SafeInt, later: SafeInt)
    requires after <= later
    ensures Beyond(rows, later) == Beyond(Beyond(rows, after), later)
  {
    if rows != [] {
      BeyondTwice(rows[1..], after, later);
      var rest := Beyond(rows[1..], after);
      if rows[0].sequence > after {
        assert ([rows[0]] + rest)[1..] == rest;
      } else {
        assert [] + rest == rest;
      }
    }
  }

  lemma {:induction false} BeyondRow(rows: seq<Row>, m: nat)
    requires Ascending(rows) && m < |rows|
    ensures Beyond(rows, rows[m].sequence) == rows[m + 1..]
  {
    if m == 0 {
      forall r | r in rows[1..]
        ensures r.sequence > rows[0].sequence
      {
        FirstIsLowest(rows, r);
      }
      BeyondAll(rows[1..], rows[0].sequence);
    } else {
      BeyondRow(rows[1..], m - 1);
      assert rows[1..][m - 1] == rows[m] && rows[1..][m..] == rows[m + 1..];
    }
  }

  /** The page after a row of the chain is what follows it there. */
  lemma NextPage(stored: seq<Row>, m: nat)
    requires Ascending(stored) && m < |Beyond(stored, 0)|
    ensures var all := Beyond(stored, 0); ChainPage(stored, all[m].sequence) == FirstPage(all[m + 1..])
  {
    var all := Beyond(stored, 0);
    BeyondAscending(stored, 0);
    BeyondMembers(stored, 0);
    assert all[m] in all;
    BeyondTwice(stored, 0, all[m].sequence);
    BeyondRow(all, m);
  }

  lemma PageRow(all: seq<Row>, start: nat, i: nat)
    requires start <= |all| && i < |FirstPage(all[start..])|
    ensures start + i < |all| && FirstPage(all[start..])[i] == all[start + i]
  {
  }

  /** The first `n` links hold, and `previousHash` is the hash the next has to name. */
  ghost predicate VerifiedTo(link: LinkCheck, all: seq<Row>, n: nat, previousHash: Option<Text>) {
    n <= |all| && previousHash == PreviousHash(all, n) && forall j | 0 <= j < n :: LinkValid(link, all, j)
  }

  /** Row `j` is the first whose link does not hold, and the check of it answered `answer`. */
  ghost predicate FirstBroken(link: LinkCheck, all: seq<Row>, j: nat, answer: Result<bool, CanonError>) {
    j < |all| && (forall i | 0 <= i < j :: LinkValid(link, all, i))
    && !LinkValid(link, all, j) && answer == link(PreviousHash(all, j), all[j])
  }

  ghost predicate Broken(link: LinkCheck, all: seq<Row>, answer: Result<bool, CanonError>) {
    exists j :: FirstBroken(link, all, j, answer)
  }

  lemma BrokenIsNotValid(link: LinkCheck, all: seq<Row>, answer: Result<bool, CanonError>)
    requires Broken(link, all, answer)
    ensures !ChainValid(link, all) && answer != Success(true)
  {
  }

  lemma AllVerifiedIsValid(link: LinkCheck, all: seq<Row>, previousHash: Option<Text>)
    requires VerifiedTo(link, all, |all|, previousHash)
    ensures ChainValid(link, all)
  {
  }

  /** The loop of `verifyChain` over the rows of a page, which `all` holds from `start` on. */
  method VerifyPage(link: LinkCheck, rows: seq<Row>, previousHash0: Option<Text>, ghost all: seq<Row>, ghost start: nat)
    returns (ok: Result<bool, CanonError>, previousHash: Option<Text>, afterSequence: SafeInt)
    requires VerifiedTo(link, all, start, previousHash0) && rows == FirstPage(all[start..]) && rows != []
    ensures ok == Success(true) ==>
              VerifiedTo(link, all, start + |rows|, previousHash) && afterSequence == all[start + |rows| - 1].sequence
    ensures ok != Success(true) ==> Broken(link, all, ok)
  {
    previousHash, afterSequence := previousHash0, 0;
    var i := 0;
    while i < |rows|
      invariant 0 <= i <= |rows| && VerifiedTo(link, all, start + i, previousHash)
      invariant i > 0 ==> afterSequence == all[start + i - 1].sequence
    {
      PageRow(all, start, i);
      ok := link(previousHash, rows[i]);
      if ok != Success(true) {
        assert FirstBroken(link, all, start + i, ok);
        return;
      }
      previousHash := Some(rows[i].entry.hash);
      afterSequence := rows[i].sequence;
      i := i + 1;
    }
    ok := Success(true);
  }

  /** `verifyChain`: page after page, every link from a null previous hash on. */
  method VerifyChain(link: LinkCheck, stored: seq<Row>) returns (r: Result<bool, CanonError>)
    requires Ascending(stored)
    ensures r == Success(true) <==> ChainValid(link, Beyond(stored, 0))
    ensures r != Success(true) ==> Broken(link, Beyond(stored, 0), r)
  {
    var previousHash: Option<Text> := None;
    var afterSequence: SafeInt := 0;
    var rows := ChainPage(stored, afterSequence);
    ghost var all := Beyond(stored, 0);
    ghost var start := 0;
    while |rows| > 0
      invariant VerifiedTo(link, all, start, previousHash) && rows == FirstPage(all[start..])
      decreases |all| - start
    {
      r, previousHash, afterSequence := VerifyPage(link, rows, previousHash, all, start);
      if r != Success(true) {
        BrokenIsNotValid(link, all, r);
        return;
      }
      start := start + |rows|;
      NextPage(stored, start - 1);
      rows := if |rows| < MAX_AUDIT_LIST_LIMIT then [] else ChainPage(stored, afterSequence);
    }
    AllVerifiedIsValid(link, all, previousHash);
    r := Success(true);
  }

  // ---------------------------------------------------------------- tamper evidence

  /** A fingerprint that tells the fifteen keys apart: length and first letter. */
  function Mark(t: Text): int {
    |t| * 0x80 + if t == [] then 0 else t[0]
  }

  lemma DistinctByMark(keys: seq<Text>, marks: seq<int>)
    requires |keys| == |marks| && forall i | 0 <= i < |keys| :: Mark(keys[i]) == marks[i]
    requires forall i, j | 0 <= i < j < |marks| :: marks[i] != marks[j]
    ensures forall i, j | 0 <= i < j < |keys| :: keys[i] != keys[j]
  {
    forall i, j | 0 <= i < j < |keys| ensures keys[i] != keys[j] {
      assert Mark(keys[i]) == marks[i] != marks[j] == Mark(keys[j]);
    }
  }

  lemma MarkOf(name: string, mark: int)
    requires name != "" && mark == |name| * 0x80 + name[0] as int % 0x80
    ensures Mark(Ascii7(name)) == mark
  {
  }

  lemma PayloadKeysDistinct()
    ensures forall i, j | 0 <= i < j < |PAYLOAD_KEYS| :: PAYLOAD_KEYS[i] != PAYLOAD_KEYS[j]
  {
    var marks := [1648, 1139, 1251, 1140, 1763, 1249, 993, 865, 1650, 1394, 866, 737, 1133, 1257, 1269];
    MarkOf("previousHash", 1648);
    MarkOf("sequence", 1139);
    MarkOf("createdAt", 1251);
    MarkOf("tenantId", 1140);
    MarkOf("correlationId", 1763);
    MarkOf("actorType", 1249);
    MarkOf("actorId", 993);
    MarkOf("action", 865);
    MarkOf("resourceType", 1650);
    MarkOf("resourceId", 1394);
    MarkOf("before", 866);
    MarkOf("after", 737);
    MarkOf("metadata", 1133);
    MarkOf("ipAddress", 1257);
    MarkOf("userAgent", 1269);
    DistinctByMark(PAYLOAD_KEYS, marks);
  }

  lemma FieldMeaning(v: Value, i: nat)
    requires v.Obj? && DistinctKeys(v.fields) && i < |v.fields| && !v.fields[i].value.Undefined?
    ensures var m := MeaningOfFields(v, v.fields);
            v.fields[i].key in m && m[v.fields[i].key] == MeaningOf(v.fields[i].value)
  {
    assert v.fields[i] in v.fields;
    MeaningEntries(v, v.fields, v.fields[i].key);
  }

  /** Payloads that mean the same agree value by value. */
  lemma LabelledAgree(keys: seq<Text>, a: seq<Value>, b: seq<Value>)
    requires |a| == |b| == |keys| && forall i, j | 0 <= i < j < |keys| :: keys[i] != keys[j]
    requires MeaningOf(Labelled(keys, a)) == MeaningOf(Labelled(keys, b))
    requires forall i | 0 <= i < |a| :: !a[i].Undefined? && !b[i].Undefined?
    ensures forall i | 0 <= i < |a| :: MeaningOf(a[i]) == MeaningOf(b[i])
  {
    forall i | 0 <= i < |a| ensures MeaningOf(a[i]) == MeaningOf(b[i]) {
      FieldMeaning(Labelled(keys, a), i);
      FieldMeaning(Labelled(keys, b), i);
    }
  }

  lemma LabelledValid(keys: seq<Text>, values: seq<Value>)
    requires |values| == |keys| && forall i, j | 0 <= i < j < |keys| :: keys[i] != keys[j]
    requires forall i | 0 <= i < |values| :: Valid(values[i])
    ensures Valid(Labelled(keys, values))
  {
  }

  function PayloadMeaning(previousHash: Option<Text>, sequence: SafeInt, createdAt: Text, e: AuditLog)
    : map<Text, Meaning>
  {
    var v := AuditPayload(previousHash, sequence, createdAt, e);
    MeaningOfFields(v, v.fields)
  }

  lemma PayloadIsLabelled(p: Option<Text>, n: SafeInt, c: Text, e: AuditLog)
    ensures forall i | 0 <= i < 15 :: At(PayloadMeaning(p, n, c, e), PAYLOAD_KEYS[i], PayloadValues(p, n, c, e)[i])
  {
    PayloadKeysDistinct();
    forall i | 0 <= i < 15
      ensures At(PayloadMeaning(p, n, c, e), PAYLOAD_KEYS[i], PayloadValues(p, n, c, e)[i])
    {
      FieldMeaning(AuditPayload(p, n, c, e), i);
    }
  }

  lemma HeadByName(p: Option<Text>, n: SafeInt, c: Text, e: AuditLog, at: (Text, Value) -> bool)
    requires forall i | 0 <= i < 15 :: at(PAYLOAD_KEYS[i], PayloadValues(p, n, c, e)[i])
    ensures at(Ascii7("previousHash"), OrNull(p)) && at(Ascii7("sequence"), Num(n))
         && at(Ascii7("createdAt"), Str(c)) && at(Ascii7("tenantId"), OrNull(e.tenantId))
         && at(Ascii7("correlationId"), Str(e.correlationId)) && at(Ascii7("actorType"), OrNull(e.actorType))
         && at(Ascii7("actorId"), OrNull(e.actorId))
  {
    var keys, values := PAYLOAD_KEYS, PayloadValues(p, n, c, e);
    assert at(keys[0], values[0]) && at(keys[1], values[1]) && at(keys[2], values[2]) && at(keys[3], values[3]);
    assert at(keys[4], values[4]) && at(keys[5], values[5]) && at(keys[6], values[6]);
  }

  /** Each of the fifteen keys of a payload holds its own field: the link and the actor, */
  lemma PayloadHoldsHead(p: Option<Text>, n: SafeInt, c: Text, e: AuditLog)
    ensures var fields := PayloadMeaning(p, n, c, e);
            && At(fields, Ascii7("previousHash"), OrNull(p)) && At(fields, Ascii7("sequence"), Num(n))
            && At(fields, Ascii7("createdAt"), Str(c)) && At(fields, Ascii7("tenantId"), OrNull(e.tenantId))
            && At(fields, Ascii7("correlationId"), Str(e.correlationId))
            && At(fields, Ascii7("actorType"), OrNull(e.actorType)) && At(fields, Ascii7("actorId"), OrNull(e.actorId))
  {
    PayloadIsLabelled(p, n, c, e);
    var fields := PayloadMeaning(p, n, c, e);
    HeadByName(p, n, c, e, (key: Text, v: Value) => At(fields, key, v));
  }

  lemma BodyByName(p: Option<Text>, n: SafeInt, c: Text, e: AuditLog, at: (Text, Value) -> bool)
    requires forall i | 0 <= i < 15 :: at(PAYLOAD_KEYS[i], PayloadValues(p, n, c, e)[i])
    ensures at(Ascii7("action"), Str(e.action)) && at(Ascii7("resourceType"), Str(e.resourceType))
         && at(Ascii7("resourceId"), Str(e.resourceId)) && at(Ascii7("before"), ValueOrNull(e.before))
         && at(Ascii7("after"), ValueOrNull(e.after)) && at(Ascii7("metadata"), ValueOrNull(e.metadata))
         && at(Ascii7("ipAddress"), OrNull(e.ipAddress)) && at(Ascii7("userAgent"), OrNull(e.userAgent))
  {
    var keys, values := PAYLOAD_KEYS, PayloadValues(p, n, c, e);
    assert at(keys[7], values[7]) && at(keys[8], values[8]) && at(keys[9], values[9]) && at(keys[10], values[10]);
    assert at(keys[11], values[11]) && at(keys[12], values[12]) && at(keys[13], values[13]) && at(keys[14], values[14]);
  }

  /** the action, the states before and after, and where it came from. */
  lemma PayloadHoldsBody(p: Option<Text>, n: SafeInt, c: Text, e: AuditLog)
    ensures var fields := PayloadMeaning(p, n, c, e);
            && At(fields, Ascii7("action"), Str(e.action)) && At(fields, Ascii7("resourceType"), Str(e.resourceType))
            && At(fields, Ascii7("resourceId"), Str(e.resourceId))
            && At(fields, Ascii7("before"), ValueOrNull(e.before)) && At(fields, Ascii7("after"), ValueOrNull(e.after))
            && At(fields, Ascii7("metadata"), ValueOrNull(e.metadata))
            && At(fields, Ascii7("ipAddress"), OrNull(e.ipAddress))
            && At(fields, Ascii7("userAgent"), OrNull(e.userAgent))
  {
    PayloadIsLabelled(p, n, c, e);
    var fields := PayloadMeaning(p, n, c, e);
    BodyByName(p, n, c, e, (key: Text, v: Value) => At(fields, key, v));
  }

  ghost predicate At(fields: map<Text, Meaning>, key: Text, v: Value) {
    key in fields && fields[key] == MeaningOf(v)
  }

  /** Every hashed field agrees; `before`, `after` and `metadata` up to key order and undefined. */
  ghost predicate SameRecord(a: AuditLog, b: AuditLog) {
    && a.previousHash == b.previousHash && a.hash == b.hash && a.createdAt == b.createdAt
    && a.tenantId == b.tenantId && a.correlationId == b.correlationId
    && a.actorType == b.actorType && a.actorId == b.actorId && a.action == b.action
    && a.resourceType == b.resourceType && a.resourceId == b.resourceId
    && MeaningOf(a.before) == MeaningOf(b.before) && MeaningOf(a.after) == MeaningOf(b.after)
    && MeaningOf(a.metadata) == MeaningOf(b.metadata)
    && a.ipAddress == b.ipAddress && a.userAgent == b.userAgent
  }

  ghost predicate ValidEntry(e: AuditLog) {
    Valid(e.before) && Valid(e.after) && Valid(e.metadata)
  }

  lemma PayloadValid(previousHash: Option<Text>, sequence: SafeInt, createdAt: Text, e: AuditLog)
    requires ValidEntry(e)
    ensures Valid(AuditPayload(previousHash, sequence, createdAt, e))
  {
    PayloadKeysDistinct();
    LabelledValid(PAYLOAD_KEYS, PayloadValues(previousHash, sequence, createdAt, e));
  }

  ghost predicate ValuesAgree(x: seq<Value>, y: seq<Value>)
    requires |x| == |y|
  {
    forall i {:trigger MeaningOf(x[i])} | 0 <= i < |x| :: MeaningOf(x[i]) == MeaningOf(y[i])
  }

  lemma OrNullAt(x: seq<Value>, y: seq<Value>, i: nat, a: Option<Text>, b: Option<Text>)
    requires i < |x| == |y| && ValuesAgree(x, y) && x[i] == OrNull(a) && y[i] == OrNull(b)
    ensures a == b
  {
    assert MeaningOf(x[i]) == MeaningOf(y[i]);
  }

  lemma StrAt(x: seq<Value>, y: seq<Value>, i: nat, a: Text, b: Text)
    requires i < |x| == |y| && ValuesAgree(x, y) && x[i] == Str(a) && y[i] == Str(b)
    ensures a == b
  {
    assert MeaningOf(x[i]) == MeaningOf(y[i]);
  }

  lemma NumAt(x: seq<Value>, y: seq<Value>, i: nat, a: SafeInt, b: SafeInt)
    requires i < |x| == |y| && ValuesAgree(x, y) && x[i] == Num(a) && y[i] == Num(b)
    ensures a == b
  {
    assert MeaningOf(x[i]) == MeaningOf(y[i]);
  }

  lemma ValueAt(x: seq<Value>, y: seq<Value>, i: nat, a: Value, b: Value)
    requires i < |x| == |y| && ValuesAgree(x, y) && x[i] == ValueOrNull(a) && y[i] == ValueOrNull(b)
    ensures MeaningOf(a) == MeaningOf(b)
  {
    assert MeaningOf(x[i]) == MeaningOf(y[i]);
    assert MeaningOf(ValueOrNull(a)) == MeaningOf(a) && MeaningOf(ValueOrNull(b)) == MeaningOf(b);
  }

  lemma HeadAgrees(p: Option<Text>, a: Row, q: Option<Text>, b: Row, x: seq<Value>, y: seq<Value>)
    requires x == PayloadValues(p, a.sequence, a.entry.createdAt, a.entry)
    requires y == PayloadValues(q, b.sequence, b.entry.createdAt, b.entry) && ValuesAgree(x, y)
    ensures p == q && a.sequence == b.sequence && a.entry.createdAt == b.entry.createdAt
  {
    OrNullAt(x, y, 0, p, q);
    NumAt(x, y, 1, a.sequence, b.sequence);
    StrAt(x, y, 2, a.entry.createdAt, b.entry.createdAt);
  }

  lemma BodyAgrees(e: AuditLog, f: AuditLog, x: seq<Value>, y: seq<Value>)
    requires exists p, n, c :: x == PayloadValues(p, n, c, e)
    requires exists p, n, c :: y == PayloadValues(p, n, c, f)
    requires ValuesAgree(x, y)
    ensures e.tenantId == f.tenantId && e.correlationId == f.correlationId
    ensures e.actorType == f.actorType && e.actorId == f.actorId
  {
    OrNullAt(x, y, 3, e.tenantId, f.tenantId);
    StrAt(x, y, 4, e.correlationId, f.correlationId);
    OrNullAt(x, y, 5, e.actorType, f.actorType);
    OrNullAt(x, y, 6, e.actorId, f.actorId);
  }

  lemma TailAgrees(e: AuditLog, f: AuditLog, x: seq<Value>, y: seq<Value>)
    requires exists p, n, c :: x == PayloadValues(p, n, c, e)
    requires exists p, n, c :: y == PayloadValues(p, n, c, f)
    requires ValuesAgree(x, y)
    ensures e.action == f.action && e.resourceType == f.resourceType && e.resourceId == f.resourceId
    ensures e.ipAddress == f.ipAddress && e.userAgent == f.userAgent
  {
    StrAt(x, y, 7, e.action, f.action);
    StrAt(x, y, 8, e.resourceType, f.resourceType);
    StrAt(x, y, 9, e.resourceId, f.resourceId);
    OrNullAt(x, y, 13, e.ipAddress, f.ipAddress);
    OrNullAt(x, y, 14, e.userAgent, f.userAgent);
  }

  lemma FieldsAgree(p: Option<Text>, a: Row, q: Option<Text>, b: Row)
    requires ValuesAgree(PayloadValues(p, a.sequence, a.entry.createdAt, a.entry),
                        PayloadValues(q, b.sequence, b.entry.createdAt, b.entry))
    requires a.entry.previousHash == p && b.entry.previousHash == q && a.entry.hash == b.entry.hash
    ensures LinksAgree(p, a, q, b)
  {
    var x := PayloadValues(p, a.sequence, a.entry.createdAt, a.entry);
    var y := PayloadValues(q, b.sequence, b.entry.createdAt, b.entry);
    HeadAgrees(p, a, q, b, x, y);
    BodyAgrees(a.entry, b.entry, x, y);
    TailAgrees(a.entry, b.entry, x, y);
    ValueAt(x, y, 10, a.entry.before, b.entry.before);
    ValueAt(x, y, 11, a.entry.after, b.entry.after);
    ValueAt(x, y, 12, a.entry.metadata, b.entry.metadata);
  }

  ghost predicate LinksAgree(p: Option<Text>, a: Row, q: Option<Text>, b: Row) {
    p == q && SameRow(a, b)
  }

  ghost predicate SameRow(a: Row, b: Row) {
    a.sequence == b.sequence && SameRecord(a.entry, b.entry)
  }

  /** A valid link's hash binds the row and the hash before it. */
  ghost predicate BindsAt(link: LinkCheck, same: (Row, Row) -> bool, p: Option<Text>, a: Row, q: Option<Text>, b: Row) {
    (&& ValidEntry(a.entry) && ValidEntry(b.entry) && a.entry.hash == b.entry.hash
     && link(p, a) == Success(true) && link(q, b) == Success(true)) ==> p == q && same(a, b)
  }

  ghost predicate Binding(link: LinkCheck, same: (Row, Row) -> bool) {
    forall p, a, q, b :: BindsAt(link, same, p, a, q, b)
  }

  lemma AuditLinkBinds(d: Digests, key: Option<Text>)
    requires Injective(DigestUnder(d, key))
    ensures Binding(AuditLink(d, key), SameRow)
  {
    forall p, a, q, b ensures BindsAt(AuditLink(d, key), SameRow, p, a, q, b) {
      ValidLinksAgree(d, key, p, a, q, b);
    }
  }

  /** Two valid links with the same hash carry the same previous hash, sequence and fields. */
  lemma ValidLinksAgree(d: Digests, key: Option<Text>, p: Option<Text>, a: Row, q: Option<Text>, b: Row)
    requires Injective(DigestUnder(d, key))
    ensures BindsAt(AuditLink(d, key), SameRow, p, a, q, b)
  {
    var link := AuditLink(d, key);
    if ValidEntry(a.entry) && ValidEntry(b.entry) && a.entry.hash == b.entry.hash {
      if link(p, a) == Success(true) && link(q, b) == Success(true) {
        PayloadsAgree(DigestUnder(d, key), p, a, q, b);
        FieldsAgree(p, a, q, b);
      }
    }
  }

  lemma PayloadsAgree(digest: Digest, p: Option<Text>, a: Row, q: Option<Text>, b: Row)
    requires Injective(digest) && ValidEntry(a.entry) && ValidEntry(b.entry)
    requires var x := AuditPayload(p, a.sequence, a.entry.createdAt, a.entry);
             var y := AuditPayload(q, b.sequence, b.entry.createdAt, b.entry);
             HashRequest(digest, x).Success? && HashRequest(digest, x) == HashRequest(digest, y)
    ensures ValuesAgree(PayloadValues(p, a.sequence, a.entry.createdAt, a.entry),
                        PayloadValues(q, b.sequence, b.entry.createdAt, b.entry))
  {
    PayloadValid(p, a.sequence, a.entry.createdAt, a.entry);
    PayloadValid(q, b.sequence, b.entry.createdAt, b.entry);
    HashDeterminesMeaning(digest, AuditPayload(p, a.sequence, a.entry.createdAt, a.entry),
                          AuditPayload(q, b.sequence, b.entry.createdAt, b.entry));
    PayloadKeysDistinct();
    LabelledAgree(PAYLOAD_KEYS, PayloadValues(p, a.sequence, a.entry.createdAt, a.entry),
                  PayloadValues(q, b.sequence, b.entry.createdAt, b.entry));
  }

  ghost predicate SameHistory(a: seq<Row>, b: seq<Row>, same: (Row, Row) -> bool) {
    |a| == |b| && forall i | 0 <= i < |a| :: same(a[i], b[i])
  }

  lemma {:induction false} BoundChainsAgree(link: LinkCheck, same: (Row, Row) -> bool, a: seq<Row>, b: seq<Row>)
    requires Binding(link, same) && ChainValid(link, a) && ChainValid(link, b)
    requires (forall r | r in a :: ValidEntry(r.entry)) && (forall r | r in b :: ValidEntry(r.entry))
    requires PreviousHash(a, |a|) == PreviousHash(b, |b|)
    ensures SameHistory(a, b, same)
    decreases |a|
  {
    if a != [] && b != [] {
      var n, m := |a| - 1, |b| - 1;
      assert a[n] in a && b[m] in b && LinkValid(link, a, n) && LinkValid(link, b, m);
      assert BindsAt(link, same, PreviousHash(a, n), a[n], PreviousHash(b, m), b[m]);
      PrefixValid(link, a);
      PrefixValid(link, b);
      BoundChainsAgree(link, same, a[..n], b[..m]);
    }
  }

  lemma PrefixValid(link: LinkCheck, rows: seq<Row>)
    requires rows != [] && ChainValid(link, rows)
    ensures ChainValid(link, rows[..|rows| - 1])
  {
    var prefix := rows[..|rows| - 1];
    forall i | 0 <= i < |prefix| ensures LinkValid(link, prefix, i) {
      assert LinkValid(link, rows, i);
    }
  }

  /** The last hash pins down the whole history: valid chains that end in the same hash are the same chain.
      Nothing need be known of the stored sequence numbers; they come out equal too. */
  lemma TamperEvident(d: Digests, key: Option<Text>, a: seq<Row>, b: seq<Row>)
    requires Injective(DigestUnder(d, key)) && ChainValid(AuditLink(d, key), a) && ChainValid(AuditLink(d, key), b)
    requires (forall r | r in a :: ValidEntry(r.entry)) && (forall r | r in b :: ValidEntry(r.entry))
    requires PreviousHash(a, |a|) == PreviousHash(b, |b|)
    ensures |a| == |b| && forall i | 0 <= i < |a| :: SameRow(a[i], b[i])
  {
    AuditLinkBinds(d, key);
    BoundChainsAgree(AuditLink(d, key), SameRow, a, b);
  }

  lemma AppendLink(link: LinkCheck, rows: seq<Row>, row: Row)
    requires ChainValid(link, rows) && link(PreviousHash(rows, |rows|), row) == Success(true)
    ensures ChainValid(link, rows + [row])
  {
    forall i | 0 <= i <= |rows| ensures LinkValid(link, rows + [row], i) {
      assert i < |rows| ==> LinkValid(link, rows, i);
    }
  }

  /** An entry appended with the hash the chain computes for it keeps the chain valid. */
  lemma AppendKeepsValid(d: Digests, key: Option<Text>, rows: seq<Row>, row: Row)
    requires ChainValid(AuditLink(d, key), rows)
    requires row.entry.previousHash == PreviousHash(rows, |rows|)
    requires AuditEntryHash(d, key, PreviousHash(rows, |rows|), row.sequence, row.entry.createdAt, row.entry)
          == Success(row.entry.hash)
    ensures ChainValid(AuditLink(d, key), rows + [row])
  {
    AppendLink(AuditLink(d, key), rows, row);
  }
}
