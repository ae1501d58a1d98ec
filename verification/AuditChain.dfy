/** The hash-chained audit log of a job (`services/redaction_job_service.py`). */
module AuditChain {
  import opened Basics
  import opened Json

  const UUID_LIMIT: nat := 0x1_0000_0000_0000_0000_0000_0000_0000_0000

  type Uuid = u: nat | u < UUID_LIMIT

  const DIGEST_LENGTH := 64

  /** A SHA-256 digest as hexadecimal text: 64 digits. */
  type Digest = s: string | IsDigest(s) witness Zeros(64)

  predicate IsDigest(s: string) {
    |s| == DIGEST_LENGTH && forall k :: 0 <= k < |s| ==> HexValue(s[k]).Some?
  }

  function Zeros(n: nat): (s: string)
    ensures |s| == n && forall k :: 0 <= k < n ==> s[k] == '0'
  {
    if n == 0 then "" else ['0'] + Zeros(n - 1)
  }

  const GENESIS_PREV_HASH: Digest := Zeros(64)

  /** Any function from text to digests. Nothing is assumed about it, least of all injectivity. */
  type Hash = string -> Digest

  datatype AuditAction =
    | Approved | Rejected | Edited | ManualSpanAdded
    | ApplyStarted | VerifyPassed | VerifyFailed | Exported

  function ActionText(a: AuditAction): string {
    match a
    case Approved => "approved"
    case Rejected => "rejected"
    case Edited => "edited"
    case ManualSpanAdded => "manual_span_added"
    case ApplyStarted => "apply_started"
    case VerifyPassed => "verify_passed"
    case VerifyFailed => "verify_failed"
    case Exported => "exported"
  }

  datatype AuditEntry = AuditEntry(
    id: Uuid, jobId: Uuid, spanId: Option<Uuid>, reviewerId: Uuid, organizationId: Uuid,
    action: AuditAction, category: string, textHash: Option<string>,
    entryHash: string, prevHash: string, sequence: int, createdAt: string)

  // ---------- the hashed payload ----------

  /** 32 digits grouped 8-4-4-4-12. */
  function Dashed(h: string): string
    requires |h| == 32
  {
    h[..8] + "-" + h[8..12] + "-" + h[12..16] + "-" + h[16..20] + "-" + h[20..]
  }

  function UuidText(u: Uuid): string {
    Dashed(Hex(u, 32))
  }

  lemma DashedIsInjective(g: string, h: string)
    requires |g| == |h| == 32 && Dashed(g) == Dashed(h)
    ensures g == h
  {
    var s, t := Dashed(g), Dashed(h);
    forall k | 0 <= k < 32 ensures g[k] == h[k] {
      var n := if k < 8 then k else if k < 12 then k + 1 else if k < 16 then k + 2 else if k < 20 then k + 3 else k + 4;
      assert s[n] == g[k] && t[n] == h[k];
    }
  }

  lemma {:induction false} Pow16Adds(a: nat, b: nat)
    ensures Pow16(a + b) == Pow16(a) * Pow16(b)
  {
    if a > 0 { Pow16Adds(a - 1, b); assert Pow16(a + b) == 16 * Pow16(a - 1 + b); }
  }

  lemma UuidFits(u: Uuid)
    ensures u < Pow16(32)
  {
    assert Pow16(4) == 0x10000;
    Pow16Adds(4, 4);
    Pow16Adds(8, 8);
    Pow16Adds(16, 16);
  }

  lemma UuidTextIsInjective(u: Uuid, v: Uuid)
    ensures UuidText(u) == UuidText(v) <==> u == v
  {
    if UuidText(u) == UuidText(v) {
      DashedIsInjective(Hex(u, 32), Hex(v, 32));
      UuidFits(u);
      UuidFits(v);
      HexRoundTrip(u, 32);
      HexRoundTrip(v, 32);
    }
  }

  /** The six fields the chain hashes. The text digest, organization and sequence are not among them. */
  datatype ChainPayload = ChainPayload(
    jobId: Uuid, spanId: Option<Uuid>, action: AuditAction, category: string, reviewerId: Uuid, createdAt: string)

  function PayloadOf(e: AuditEntry): ChainPayload {
    ChainPayload(e.jobId, e.spanId, e.action, e.category, e.reviewerId, e.createdAt)
  }

  /** The payload as a JSON object, keys sorted. */
  function PayloadJson(p: ChainPayload): Json {
    JObj([
      Member("action", JStr(ActionText(p.action))),
      Member("category", JStr(p.category)),
      Member("created_at", JStr(p.createdAt)),
      Member("job_id", JStr(UuidText(p.jobId))),
      Member("reviewer", JStr(UuidText(p.reviewerId))),
      Member("span_id", match p.spanId case None => JNull case Some(u) => JStr(UuidText(u)))
    ])
  }

  function Preimage(prevHash: string, p: ChainPayload): string {
    prevHash + Encode(PayloadJson(p))
  }

  function ComputeEntryHash(hash: Hash, prevHash: string, p: ChainPayload): Digest {
    hash(Preimage(prevHash, p))
  }

  lemma ActionTextIsInjective(a: AuditAction, b: AuditAction)
    ensures ActionText(a) == ActionText(b) <==> a == b
  {
    assert a == b || |ActionText(a)| != |ActionText(b)| || ActionText(a)[0] != ActionText(b)[0]
        || (|ActionText(a)| == 13 && ActionText(a)[7] != ActionText(b)[7]);
  }

  lemma PayloadJsonIsInjective(p: ChainPayload, q: ChainPayload)
    ensures PayloadJson(p) == PayloadJson(q) <==> p == q
  {
    if PayloadJson(p) == PayloadJson(q) {
      var a, b := PayloadJson(p).members, PayloadJson(q).members;
      assert a[0] == b[0] && a[1] == b[1] && a[2] == b[2] && a[3] == b[3] && a[4] == b[4] && a[5] == b[5];
      ActionTextIsInjective(p.action, q.action);
      UuidTextIsInjective(p.jobId, q.jobId);
      UuidTextIsInjective(p.reviewerId, q.reviewerId);
      if p.spanId.Some? && q.spanId.Some? { UuidTextIsInjective(p.spanId.value, q.spanId.value); }
    }
  }

  /** The words the audit rows and the hashed text use. */
  lemma ActionWords()
    ensures ActionText(Approved) == "approved" && ActionText(Rejected) == "rejected"
    ensures ActionText(Edited) == "edited" && ActionText(ManualSpanAdded) == "manual_span_added"
    ensures ActionText(ApplyStarted) == "apply_started" && ActionText(Exported) == "exported"
    ensures ActionText(VerifyPassed) == "verify_passed" && ActionText(VerifyFailed) == "verify_failed"
  {
  }

  /** An id is written as 36 characters: lower-case hexadecimal digits, with dashes at four fixed places. */
  lemma UuidTextForm(u: Uuid)
    ensures var s := UuidText(u);
            && |s| == 36 && s[8] == s[13] == s[18] == s[23] == '-'
            && Unhex(s[..8] + s[9..13] + s[14..18] + s[19..23] + s[24..]) == Some(u)
            && (forall k :: 0 <= k < 36 ==> s[k] == '-' || '0' <= s[k] <= '9' || 'a' <= s[k] <= 'f')
  {
    var h := Hex(u, 32);
    HexIsLower(u, 32);
    UuidFits(u);
    HexRoundTrip(u, 32);
    UndashedText(h);
    hide Dashed, Hex, Unhex;
    forall k | 0 <= k < 36
      ensures Dashed(h)[k] == '-' || '0' <= Dashed(h)[k] <= '9' || 'a' <= Dashed(h)[k] <= 'f'
    {
      DashedAt(h, k);
    }
  }

  lemma UndashedText(h: string)
    requires |h| == 32
    ensures var s := Dashed(h);
            && |s| == 36 && s[8] == s[13] == s[18] == s[23] == '-'
            && s[..8] + s[9..13] + s[14..18] + s[19..23] + s[24..] == h
  {
    var s := Dashed(h);
    assert s[..8] == h[..8] && s[9..13] == h[8..12] && s[14..18] == h[12..16] && s[19..23] == h[16..20];
    assert s[24..] == h[20..];
    assert h[..8] + h[8..12] + h[12..16] + h[16..20] + h[20..] == h;
  }

  lemma DashedAt(h: string, k: nat)
    requires |h| == 32 && k < 36
    ensures Dashed(h)[k] == '-' || exists n :: 0 <= n < 32 && Dashed(h)[k] == h[n]
  {
    if k < 8 { assert Dashed(h)[k] == h[k]; }
    else if 8 < k < 13 { assert Dashed(h)[k] == h[k - 1]; }
    else if 13 < k < 18 { assert Dashed(h)[k] == h[k - 2]; }
    else if 18 < k < 23 { assert Dashed(h)[k] == h[k - 3]; }
    else if k > 23 { assert Dashed(h)[k] == h[k - 4]; }
  }

  function Quoted(key: string, text: string): string { "\"" + key + "\":\"" + Escape(text) + "\"" }

  /** A text member at the front of an object's members, as it is written. */
  lemma MemberText(before: string, key: string, text: string, rest: seq<Member>)
    requires Escape(key) == key && rest != []
    ensures before + EncodeMembers([Member(key, JStr(text))] + rest)
         == before + Quoted(key, text) + "," + EncodeMembers(rest)
  {
    FirstMemberText(Member(key, JStr(text)), rest);
    StringText(text);
    hide Escape, Encode, EncodeMembers;
    assert "\"" + key + "\":" + ("\"" + Escape(text) + "\"") == Quoted(key, text);
  }

  lemma LastTextMember(key: string, text: string)
    requires Escape(key) == key
    ensures EncodeMembers([Member(key, JStr(text))]) == Quoted(key, text) + "}"
  {
    FirstMemberText(Member(key, JStr(text)), []);
    StringText(text);
    hide Escape, Encode, EncodeMembers;
    assert "\"" + key + "\":" + ("\"" + Escape(text) + "\"") == Quoted(key, text);
  }

  lemma LastNullMember(key: string)
    requires Escape(key) == key
    ensures EncodeMembers([Member(key, JNull)]) == "\"" + key + "\":null}"
  {
    FirstMemberText(Member(key, JNull), []);
    assert Encode(JNull) == "null";
    hide Escape, Encode, EncodeMembers;
  }

  /** The id of a span, or null, as it is written. */
  function SpanIdText(spanId: Option<Uuid>): string {
    match spanId
    case None => "\"span_id\":null}"
    case Some(u) => Quoted("span_id", UuidText(u)) + "}"
  }

  /** What is hashed, character by character: the previous hash, then the six fields under sorted keys. */
  lemma PreimageText(prev: string, p: ChainPayload)
    ensures Preimage(prev, p)
         == prev + "{" + Quoted("action", ActionText(p.action)) + "," + Quoted("category", p.category) + ","
             + Quoted("created_at", p.createdAt) + "," + Quoted("job_id", UuidText(p.jobId)) + ","
             + Quoted("reviewer", UuidText(p.reviewerId)) + ","
             + SpanIdText(p.spanId)
  {
    hide Preimage, EncodeMembers, Quoted, UuidText, ActionText, Escape, SpanIdText;
    KeysArePlain();
    var ms := PayloadJson(p).members;
    var s0 := prev + "{";
    PayloadText(prev, p);
    hide PayloadJson;
    var s1 := s0 + Quoted("action", ActionText(p.action)) + ",";
    var s2 := s1 + Quoted("category", p.category) + ",";
    var s3 := s2 + Quoted("created_at", p.createdAt) + ",";
    var s4 := s3 + Quoted("job_id", UuidText(p.jobId)) + ",";
    MemberText(s0, "action", ActionText(p.action), ms[1..]);
    MemberText(s1, "category", p.category, ms[2..]);
    MemberText(s2, "created_at", p.createdAt, ms[3..]);
    MemberText(s3, "job_id", UuidText(p.jobId), ms[4..]);
    MemberText(s4, "reviewer", UuidText(p.reviewerId), ms[5..]);
    LastMember(p.spanId, ms[5].value);
  }

  lemma LastMember(spanId: Option<Uuid>, last: Json)
    requires last == match spanId case None => JNull case Some(u) => JStr(UuidText(u))
    ensures EncodeMembers([Member("span_id", last)]) == SpanIdText(spanId)
  {
    KeysArePlain();
    hide EncodeMembers, UuidText, Quoted, Escape;
    match spanId
    case None =>
      LastNullMember("span_id");
      assert "\"" + "span_id" + "\":null}" == "\"span_id\":null}";
    case Some(u) => LastTextMember("span_id", UuidText(u));
  }

  lemma KeysArePlain()
    ensures Escape("action") == "action" && Escape("category") == "category" && Escape("created_at") == "created_at"
    ensures Escape("job_id") == "job_id" && Escape("reviewer") == "reviewer" && Escape("span_id") == "span_id"
  {
    hide Escape;
    PlainIsKept("action");
    PlainIsKept("category");
    PlainIsKept("created_at");
    PlainIsKept("job_id");
    PlainIsKept("reviewer");
    PlainIsKept("span_id");
  }

  lemma PayloadText(prev: string, p: ChainPayload)
    ensures var ms := PayloadJson(p).members;
            && |ms| == 6 && Preimage(prev, p) == prev + "{" + EncodeMembers(ms)
            && ms == [Member("action", JStr(ActionText(p.action)))] + ms[1..]
            && ms[1..] == [Member("category", JStr(p.category))] + ms[2..]
            && ms[2..] == [Member("created_at", JStr(p.createdAt))] + ms[3..]
            && ms[3..] == [Member("job_id", JStr(UuidText(p.jobId)))] + ms[4..]
            && ms[4..] == [Member("reviewer", JStr(UuidText(p.reviewerId)))] + ms[5..]
            && ms[5..] == [Member("span_id", ms[5].value)]
            && ms[5].value == match p.spanId case None => JNull case Some(u) => JStr(UuidText(u))
  {
    hide EncodeMembers, UuidText, ActionText;
    assert Encode(PayloadJson(p)) == "{" + EncodeMembers(PayloadJson(p).members);
  }

  /** The hashed text determines the previous hash and all six payload fields. */
  lemma PreimageIsInjective(prev: string, p: ChainPayload, prev': string, q: ChainPayload)
    requires |prev| == |prev'|
    ensures Preimage(prev, p) == Preimage(prev', q) <==> prev == prev' && p == q
  {
    var x, y := Preimage(prev, p), Preimage(prev', q);
    if x == y {
      assert prev == x[..|prev|] == y[..|prev|] == prev';
      assert Encode(PayloadJson(p)) == x[|prev|..] == y[|prev|..] == Encode(PayloadJson(q));
      EncodeIsInjective(PayloadJson(p), PayloadJson(q));
      PayloadJsonIsInjective(p, q);
    }
  }

  // ---------- verification ----------

  /** The hash the next entry must link to. */
  function Head(entries: seq<AuditEntry>): string {
    if entries == [] then GENESIS_PREV_HASH else entries[|entries| - 1].entryHash
  }

  predicate LinksTo(hash: Hash, prev: string, e: AuditEntry) {
    e.prevHash == prev && e.entryHash == ComputeEntryHash(hash, prev, PayloadOf(e))
  }

  /** Every entry links to the one before it, the first to the genesis value. */
  predicate ChainVerifies(hash: Hash, entries: seq<AuditEntry>) {
    entries == [] ||
    var init := entries[..|entries| - 1];
    ChainVerifies(hash, init) && LinksTo(hash, Head(init), entries[|entries| - 1])
  }

  lemma {:induction false} PrefixVerifies(hash: Hash, entries: seq<AuditEntry>, k: nat)
    requires k <= |entries| && ChainVerifies(hash, entries)
    ensures ChainVerifies(hash, entries[..k])
    ensures k < |entries| ==> LinksTo(hash, Head(entries[..k]), entries[k])
    ensures |Head(entries)| == DIGEST_LENGTH
    decreases |entries|
  {
    if k == |entries| {
      assert entries[..k] == entries;
    } else {
      var init := entries[..|entries| - 1];
      hide LinksTo;
      PrefixVerifies(hash, init, k);
      assert init[..k] == entries[..k];
    }
  }

  datatype ChainVerifyResult = ChainVerifyResult(verified: bool, entryCount: nat, head: string,
                                                 firstBroken: Option<Uuid>)

  /** Entry k is the first whose stored hashes disagree with the recomputed chain. */
  ghost predicate FirstBroken(hash: Hash, entries: seq<AuditEntry>, k: nat) {
    k < |entries| && ChainVerifies(hash, entries[..k]) && !LinksTo(hash, Head(entries[..k]), entries[k])
  }

  lemma OneMoreLink(hash: Hash, entries: seq<AuditEntry>, n: nat)
    requires n < |entries| && ChainVerifies(hash, entries[..n])
    ensures LinksTo(hash, Head(entries[..n]), entries[n]) ==> ChainVerifies(hash, entries[..n + 1])
    ensures Head(entries[..n + 1]) == entries[n].entryHash
  {
    var more := entries[..n + 1];
    assert more[..|more| - 1] == entries[..n];
  }

  lemma BrokenLink(hash: Hash, entries: seq<AuditEntry>, n: nat)
    requires n < |entries| && ChainVerifies(hash, entries[..n]) && !LinksTo(hash, Head(entries[..n]), entries[n])
    ensures !ChainVerifies(hash, entries)
  {
    if ChainVerifies(hash, entries) { PrefixVerifies(hash, entries, n); }
  }

  /** entries are a job's rows in sequence order. */
  method VerifyAuditChain(hash: Hash, entries: seq<AuditEntry>) returns (r: ChainVerifyResult)
    ensures r.verified <==> ChainVerifies(hash, entries)
    ensures r.verified <==> r.firstBroken.None?
    ensures !r.verified ==> exists k: nat :: FirstBroken(hash, entries, k) && r.firstBroken == Some(entries[k].id)
    ensures r.entryCount == |entries| && r.head == Head(entries)
  {
    var prev: string := GENESIS_PREV_HASH;
    var firstBroken: Option<Uuid> := None;
    ghost var at: nat := 0;
    assert entries[..|entries|] == entries;
    for n := 0 to |entries|
      invariant firstBroken == None
      invariant ChainVerifies(hash, entries[..n]) && prev == Head(entries[..n])
    {
      var expected := ComputeEntryHash(hash, prev, PayloadOf(entries[n]));
      OneMoreLink(hash, entries, n);
      if entries[n].prevHash != prev || entries[n].entryHash != expected {
        firstBroken := Some(entries[n].id);
        at := n;
        BrokenLink(hash, entries, n);
        break;
      }
      prev := entries[n].entryHash;
    }
    assert firstBroken.Some? ==> FirstBroken(hash, entries, at);
    var head := if entries == [] then GENESIS_PREV_HASH else entries[|entries| - 1].entryHash;
    r := ChainVerifyResult(firstBroken.None?, |entries|, head, firstBroken);
  }

  // ---------- what a verified head binds ----------

  function Payloads(entries: seq<AuditEntry>): (r: seq<ChainPayload>)
    ensures |r| == |entries| && forall k :: 0 <= k < |r| ==> r[k] == PayloadOf(entries[k])
  {
    seq(|entries|, k requires 0 <= k < |entries| => PayloadOf(entries[k]))
  }

  /** The outcome of comparing two chains: they agree, or a break of the hash function is in hand. */
  datatype Evidence = Agree | Collision(x: string, y: string) | GenesisPreimage(z: string)

  function LastPreimage(entries: seq<AuditEntry>): string
    requires entries != []
  {
    Preimage(Head(entries[..|entries| - 1]), PayloadOf(entries[|entries| - 1]))
  }

  /** Walks two chains back from their heads to the first place where what was hashed differs. */
  function Compare(c: seq<AuditEntry>, d: seq<AuditEntry>): Evidence {
    if c == [] && d == [] then Agree
    else if c == [] then GenesisPreimage(LastPreimage(d))
    else if d == [] then GenesisPreimage(LastPreimage(c))
    else if LastPreimage(c) != LastPreimage(d) then Collision(LastPreimage(c), LastPreimage(d))
    else Compare(c[..|c| - 1], d[..|d| - 1])
  }

  predicate BreaksHash(hash: Hash, e: Evidence) {
    match e
    case Agree => false
    case Collision(x, y) => x != y && hash(x) == hash(y)
    case GenesisPreimage(z) => hash(z) == GENESIS_PREV_HASH
  }

  /**
   * Two chains that verify and have the same head record the same payloads in the same order
   * and number, or comparing them yields two texts with one digest or a text whose digest is
   * the genesis value.
   */
  lemma {:induction false} HeadBindsPayloads(hash: Hash, c: seq<AuditEntry>, d: seq<AuditEntry>)
    requires ChainVerifies(hash, c) && ChainVerifies(hash, d) && Head(c) == Head(d)
    ensures Payloads(c) == Payloads(d) <==> Compare(c, d).Agree?
    ensures Payloads(c) == Payloads(d) || BreaksHash(hash, Compare(c, d))
    decreases |c|
  {
    if c != [] && d != [] {
      var a, b := c[..|c| - 1], d[..|d| - 1];
      PayloadsSplit(c);
      PayloadsSplit(d);
      PrefixVerifies(hash, a, |a|);
      PrefixVerifies(hash, b, |b|);
      PreimageIsInjective(Head(a), PayloadOf(c[|c| - 1]), Head(b), PayloadOf(d[|d| - 1]));
      if LastPreimage(c) == LastPreimage(d) {
        HeadBindsPayloads(hash, a, b);
      } else if Payloads(a) == Payloads(b) {
        SamePayloadsSameHead(hash, a, b);
      }
    }
  }

  lemma PayloadsSplit(c: seq<AuditEntry>)
    requires c != []
    ensures Payloads(c)[..|c| - 1] == Payloads(c[..|c| - 1])
    ensures Payloads(c) == Payloads(c[..|c| - 1]) + [PayloadOf(c[|c| - 1])]
  {
  }

  lemma {:induction false} SamePayloadsSameHead(hash: Hash, c: seq<AuditEntry>, d: seq<AuditEntry>)
    requires ChainVerifies(hash, c) && ChainVerifies(hash, d) && Payloads(c) == Payloads(d)
    ensures Head(c) == Head(d)
    decreases |c|
  {
    assert |c| == |Payloads(c)| == |d|;
    if c != [] {
      PayloadsSplit(c);
      PayloadsSplit(d);
      SamePayloadsSameHead(hash, c[..|c| - 1], d[..|d| - 1]);
    }
  }

  /**
   * The fields outside the payload are free: replacing row ids, text digests, organizations and
   * sequence numbers leaves verification and the head as they were.
   */
  lemma {:induction false} UnhashedFieldsAreFree(hash: Hash, c: seq<AuditEntry>, d: seq<AuditEntry>)
    requires |c| == |d|
    requires forall k :: 0 <= k < |c| ==>
               d[k] == c[k].(id := d[k].id, textHash := d[k].textHash, organizationId := d[k].organizationId,
                             sequence := d[k].sequence)
    ensures ChainVerifies(hash, d) <==> ChainVerifies(hash, c)
    ensures Head(d) == Head(c)
    decreases |c|
  {
    if c != [] {
      var n := |c| - 1;
      UnhashedFieldsAreFree(hash, c[..n], d[..n]);
      assert PayloadOf(c[n]) == PayloadOf(d[n]);
    }
  }

  // ---------- appending ----------

  /** What appending needs to know about the job, and the two functions it applies to text. */
  datatype Ledger = Ledger(hash: Hash, normalize: string -> string, jobId: Uuid, organizationId: Uuid)

  /** Values the database and the clock supply for a new row. */
  datatype Stamp = Stamp(id: Uuid, now: string)

  datatype AuditEvent = AuditEvent(action: AuditAction, category: string, text: Option<string>, reviewerId: Uuid,
                                   spanId: Option<Uuid>)

  /** The index of a row with the greatest sequence. */
  function LastBySequence(rows: seq<AuditEntry>): (k: nat)
    requires rows != []
    ensures k < |rows| && forall n :: 0 <= n < |rows| ==> rows[n].sequence <= rows[k].sequence
  {
    if |rows| == 1 then 0 else
    var k := LastBySequence(rows[..|rows| - 1]);
    if rows[|rows| - 1].sequence >= rows[k].sequence then |rows| - 1 else k
  }

  function NextChainLink(rows: seq<AuditEntry>): (string, int) {
    if rows == [] then (GENESIS_PREV_HASH, 1)
    else var last := rows[LastBySequence(rows)]; (last.entryHash, last.sequence + 1)
  }

  function TextHash(l: Ledger, text: Option<string>): Option<string> {
    match text case None => None case Some(t) => Some(l.hash(l.normalize(t)))
  }

  function NewEntry(l: Ledger, link: (string, int), event: AuditEvent, stamp: Stamp): AuditEntry {
    var payload := ChainPayload(l.jobId, event.spanId, event.action, event.category, event.reviewerId, stamp.now);
    AuditEntry(stamp.id, l.jobId, event.spanId, event.reviewerId, l.organizationId, event.action, event.category,
               TextHash(l, event.text), ComputeEntryHash(l.hash, link.0, payload), link.0, link.1, stamp.now)
  }

  function Appended(l: Ledger, rows: seq<AuditEntry>, event: AuditEvent, stamp: Stamp): seq<AuditEntry> {
    rows + [NewEntry(l, NextChainLink(rows), event, stamp)]
  }

  /** A log in good order: it verifies, it is numbered 1, 2, 3, ..., and all of it is this job's and organization's. */
  ghost predicate GoodLog(l: Ledger, rows: seq<AuditEntry>) {
    && ChainVerifies(l.hash, rows)
    && forall k :: 0 <= k < |rows| ==>
         rows[k].sequence == k + 1 && rows[k].jobId == l.jobId && rows[k].organizationId == l.organizationId
  }

  lemma NextLinkOfGoodLog(l: Ledger, rows: seq<AuditEntry>)
    requires GoodLog(l, rows)
    ensures NextChainLink(rows) == (Head(rows), |rows| + 1)
  {
    if rows != [] { assert rows[|rows| - 1].sequence == |rows|; }
  }

  lemma NewEntryRecords(l: Ledger, head: string, n: nat, event: AuditEvent, stamp: Stamp)
    ensures RecordsEvent(l, head, n, event, stamp, NewEntry(l, (head, n + 1), event, stamp))
  {
    hide Preimage;
  }

  /**
   * The entry that appending adds to a log in good order: the event's fields, the digest of its
   * normalized text if it has one, the next number, and a hash over the old head and the payload.
   */
  lemma AppendedEntry(l: Ledger, rows: seq<AuditEntry>, event: AuditEvent, stamp: Stamp)
    requires GoodLog(l, rows)
    ensures var more := Appended(l, rows, event, stamp);
            && |more| == |rows| + 1 && more[..|rows|] == rows
            && RecordsEvent(l, Head(rows), |rows|, event, stamp, more[|rows|])
  {
    NextLinkOfGoodLog(l, rows);
    NewEntryRecords(l, Head(rows), |rows|, event, stamp);
    hide RecordsEvent;
  }

  /** Entry e records the event, after a log of n entries that ends in this head. */
  ghost predicate RecordsEvent(l: Ledger, head: string, n: nat, event: AuditEvent, stamp: Stamp, e: AuditEntry) {
    && LinksTo(l.hash, head, e) && e.sequence == n + 1
    && e.jobId == l.jobId && e.organizationId == l.organizationId
    && e.action == event.action && e.category == event.category && e.reviewerId == event.reviewerId
    && e.spanId == event.spanId && e.id == stamp.id && e.createdAt == stamp.now
    && match event.text
       case None => e.textHash == None
       case Some(text) => e.textHash == Some(l.hash(l.normalize(text)))
  }

  lemma AppendKeepsGoodLog(l: Ledger, rows: seq<AuditEntry>, event: AuditEvent, stamp: Stamp)
    requires GoodLog(l, rows)
    ensures GoodLog(l, Appended(l, rows, event, stamp))
  {
    NextLinkOfGoodLog(l, rows);
    ExtendGoodLog(l, rows, NewEntry(l, NextChainLink(rows), event, stamp));
  }

  lemma ExtendGoodLog(l: Ledger, rows: seq<AuditEntry>, e: AuditEntry)
    requires GoodLog(l, rows) && LinksTo(l.hash, Head(rows), e) && e.sequence == |rows| + 1
    requires e.jobId == l.jobId && e.organizationId == l.organizationId
    ensures GoodLog(l, rows + [e])
  {
    assert (rows + [e])[..|rows|] == rows;
  }
}
