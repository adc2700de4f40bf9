/**
 The notification producer (src/monitoring/notifications.py): payload and replay key of a
 transition, publish-time validation, and the bounded publish loop.
 */
module Notify {
  import opened Common
  import opened Text

  datatype Transition = Down | Recovered | Degraded

  datatype EventType = DownEvent | RecoveredEvent | DegradedEvent | TlsExpiring

  datatype Member = Body | Channel | Severity | Source | Title | Other(name: string)

  /** A JSON object with string members, as stored in the outbox. */
  type Payload = map<Member, string>

  const MAX_LABEL: nat := 160
  const MAX_SUMMARY: nat := 500
  const MAX_TRANSITION_ID: nat := 240
  const MAX_PAYLOAD_BYTES: nat := 8192

  function RequiredText(value: string, maxLength: nat): Result<string> {
    var normalized := Strip(value);
    if normalized == "" || |normalized| > maxLength then Raised else Ok(normalized)
  }

  /** The zeros of Unicode's blocks of ten decimal digits, which the pattern's \d accepts. */
  const DIGIT_ZEROS: seq<int> := [
    0x30, 0x660, 0x6F0, 0x7C0, 0x966, 0x9E6, 0xA66, 0xAE6, 0xB66, 0xBE6, 0xC66, 0xCE6, 0xD66, 0xDE6, 0xE50, 0xED0,
    0xF20, 0x1040, 0x1090, 0x17E0, 0x1810, 0x1946, 0x19D0, 0x1A80, 0x1A90, 0x1B50, 0x1BB0, 0x1C40, 0x1C50, 0xA620,
    0xA8D0, 0xA900, 0xA9D0, 0xA9F0, 0xAA50, 0xABF0, 0xFF10, 0x104A0, 0x10D30, 0x11066, 0x110F0, 0x11136, 0x111D0,
    0x112F0, 0x11450, 0x114D0, 0x11650, 0x116C0, 0x11730, 0x118E0, 0x11950, 0x11C50, 0x11D50, 0x11DA0, 0x11F50,
    0x16A60, 0x16AC0, 0x16B50, 0x1D7CE, 0x1D7D8, 0x1D7E2, 0x1D7EC, 0x1D7F6, 0x1E140, 0x1E2F0, 0x1E4F0, 0x1E950, 0x1FBF0]

  predicate IsDecimal(c: char) {
    exists i :: 0 <= i < |DIGIT_ZEROS| && DIGIT_ZEROS[i] <= c as int < DIGIT_ZEROS[i] + 10
  }

  const TLS_HEAD := "TLS certificate expires in "
  const TLS_TAIL := " day(s)"

  /** The day count when the message is exactly the controlled TLS warning. */
  function TlsDays(message: string): (r: Option<string>)
    ensures r.Some? ==> 1 <= |r.value| <= 5 && forall c :: c in r.value ==> IsDecimal(c)
  {
    var m := Strip(message);
    if |TLS_HEAD| + |TLS_TAIL| < |m| <= |TLS_HEAD| + 5 + |TLS_TAIL| && TLS_HEAD <= m
       && m[|m| - |TLS_TAIL|..] == TLS_TAIL
       && forall c :: c in m[|TLS_HEAD|..|m| - |TLS_TAIL|] ==> IsDecimal(c)
    then Some(m[|TLS_HEAD|..|m| - |TLS_TAIL|])
    else None
  }

  predicate DayCount(d: string) { 1 <= |d| <= 5 && forall c :: c in d ==> IsDecimal(c) }

  /** Exactly the texts "TLS certificate expires in d day(s)" with one to five digits d are recognised,
      and d is what is read from them. */
  lemma TlsDaysExact(message: string, d: string)
    requires DayCount(d)
    ensures TlsDays(message) == Some(d) <==> Strip(message) == TLS_HEAD + d + TLS_TAIL
    ensures TlsDays(message).Some? ==> DayCount(TlsDays(message).value)
  {
    var m := Strip(message);
    if m == TLS_HEAD + d + TLS_TAIL {
      assert m[|TLS_HEAD|..|m| - |TLS_TAIL|] == d && m[|m| - |TLS_TAIL|..] == TLS_TAIL;
    }
    if TlsDays(message) == Some(d) {
      assert m == TLS_HEAD + m[|TLS_HEAD|..|m| - |TLS_TAIL|] + m[|m| - |TLS_TAIL|..];
    }
  }

  function EventTypeOf(t: Transition, message: string): EventType {
    match t
    case Down => DownEvent
    case Recovered => RecoveredEvent
    case Degraded => if TlsDays(message).Some? then TlsExpiring else DegradedEvent
  }

  function SeverityOf(e: EventType): (r: string)
    ensures r != "" && Trimmed(r) && |r| <= 8
  {
    match e
    case DownEvent => "critical"
    case RecoveredEvent => "normal"
    case DegradedEvent => "warning"
    case TlsExpiring => "warning"
  }

  function TitleOf(e: EventType): (r: string)
    ensures r != "" && Trimmed(r) && |r| <= 40
  {
    match e
    case DownEvent => "Monitor detected an outage"
    case RecoveredEvent => "Monitor detected a recovery"
    case DegradedEvent => "Monitor detected degraded service"
    case TlsExpiring => "Monitor certificate attention required"
  }

  /** Sentences start and end with a character that strip leaves alone. */
  predicate Sentence(r: string) { r != "" && Trimmed(r) && |r| <= 90 }

  const RECOVERY_SUMMARY := "Service availability recovered."
  const OUTAGE_SUMMARY := "Availability check failed. " + "Open GoreeCloud Monitor " + "for diagnostic details."
  const DEGRADED_SUMMARY := "Service is degraded. " + "Open GoreeCloud Monitor " + "for diagnostic details."

  lemma FixedSentences()
    ensures Sentence(RECOVERY_SUMMARY) && Sentence(OUTAGE_SUMMARY) && Sentence(DEGRADED_SUMMARY)
  {
    assert RECOVERY_SUMMARY[0] == 'S' && RECOVERY_SUMMARY[|RECOVERY_SUMMARY| - 1] == '.';
    assert OUTAGE_SUMMARY[0] == 'A' && OUTAGE_SUMMARY[|OUTAGE_SUMMARY| - 1] == '.';
    assert DEGRADED_SUMMARY[0] == 'S' && DEGRADED_SUMMARY[|DEGRADED_SUMMARY| - 1] == '.';
  }

  /** _public_transition_summary */
  function Summary(t: Transition, message: string): (r: string)
    ensures Sentence(r)
  {
    FixedSentences();
    match t
    case Recovered => RECOVERY_SUMMARY
    case Down => OUTAGE_SUMMARY
    case Degraded =>
      match TlsDays(message)
      case Some(days) =>
        var r := TLS_HEAD + days + TLS_TAIL + ".";
        assert r[0] == 'T' && r[|r| - 1] == '.';
        r
      case None => DEGRADED_SUMMARY
  }

  // ---- JSON size ------------------------------------------------------------------------------

  /** UTF-8 bytes of one character inside a JSON string written with ensure_ascii=False. */
  function JsonCharBytes(c: char): (n: nat)
    ensures 1 <= n <= 6
  {
    var k := c as int;
    if c == '\"' || c == '\\' || k == 8 || k == 9 || k == 10 || k == 12 || k == 13 then 2
    else if k < 32 then 6
    else if k < 0x80 then 1
    else if k < 0x800 then 2
    else if k < 0x10000 then 3
    else 4
  }

  function JsonBytes(s: string): (n: nat)
    ensures |s| <= n <= 6 * |s|
  {
    if s == "" then 0 else JsonBytes(s[..|s| - 1]) + JsonCharBytes(s[|s| - 1])
  }

  const REQUIRED: seq<Member> := [Body, Channel, Severity, Source, Title]

  predicate HasShape(p: Payload) {
    p.Keys == {Body, Channel, Severity, Source, Title}
  }

  function MemberName(k: Member): string {
    match k
    case Body => "body"
    case Channel => "channel"
    case Severity => "severity"
    case Source => "source"
    case Title => "title"
    case Other(name) => name
  }

  /** A member of the compact encoding: quoted name, colon, quoted value. */
  function MemberBytes(k: Member, value: string): nat {
    JsonBytes(MemberName(k)) + 2 + 1 + JsonBytes(value) + 2
  }

  /** len(json.dumps(p, ensure_ascii=False, separators=(",", ":")).encode()): the members, the commas
      between them and the braces. */
  function PayloadBytes(p: Payload): nat
    requires HasShape(p)
  {
    MemberBytes(Body, p[Body]) + MemberBytes(Channel, p[Channel]) + MemberBytes(Severity, p[Severity])
    + MemberBytes(Source, p[Source]) + MemberBytes(Title, p[Title]) + 4 + 2
  }

  // ---- The producer -----------------------------------------------------------------------------

  const SOURCE := "goreecloud-monitor"
  const CHANNEL := "monitoring"

  function MakePayload(name: string, t: Transition, message: string): Payload {
    var e := EventTypeOf(t, message);
    map[Source := SOURCE, Channel := CHANNEL, Title := TitleOf(e),
        Body := name + ": " + Summary(t, message), Severity := SeverityOf(e)]
  }

  /** create_notify_payload */
  function CreatePayload(name: string, t: Transition, message: string): Result<(EventType, Payload)> {
    match RequiredText(name, MAX_LABEL)
    case Raised => Raised
    case Ok(display) =>
      match RequiredText(Summary(t, message), MAX_SUMMARY)
      case Raised => Raised
      case Ok(_) =>
        var payload := MakePayload(display, t, message);
        if PayloadBytes(payload) > MAX_PAYLOAD_BYTES then Raised
        else Ok((EventTypeOf(t, message), payload))
  }

  /** Diagnostics stay private: of the check's message at most a recognised day count reaches the event
      type or the payload. */
  lemma MessageStaysPrivate(name: string, t: Transition, message: string, other: string)
    requires TlsDays(message) == TlsDays(other) || t != Degraded
    ensures CreatePayload(name, t, message) == CreatePayload(name, t, other)
  {
    assert Summary(t, message) == Summary(t, other) && EventTypeOf(t, message) == EventTypeOf(t, other);
  }

  /** SHA-256 and datetime.isoformat appear as the functions they compute. */
  datatype Codec = Codec(sha256: string -> string, iso: Time -> string)

  function EventName(e: EventType): string {
    match e
    case DownEvent => "DOWN"
    case RecoveredEvent => "RECOVERED"
    case DegradedEvent => "DEGRADED"
    case TlsExpiring => "TLS_EXPIRING"
  }

  const KEY_PREFIX := "gcm-v1-"

  /** The bytes whose digest is the replay key. */
  function DigestInput(e: EventType, tid: string): string {
    "goreecloud-monitor\0v1\0" + (EventName(e) + ['\0'] + tid)
  }

  /** create_notify_idempotency_key */
  function CreateKey(c: Codec, e: EventType, transitionId: string): Result<string> {
    match RequiredText(transitionId, MAX_TRANSITION_ID)
    case Raised => Raised
    case Ok(tid) => Ok(KEY_PREFIX + c.sha256(DigestInput(e, tid)))
  }

  /** The internal identity of a transition-producing check, never sent on the wire. */
  function TransitionId(c: Codec, monitor: nat, check: nat, at: Time): string {
    "check-result:" + (Decimal(monitor) + [':'] + (Decimal(check) + [':'] + c.iso(at)))
  }

  /** Sizes of a 64-bit primary key. */
  predicate RowId(n: nat) { n < 0x8000_0000_0000_0000 }

  /** The range of datetime: years 1 to 9999, in microseconds from 1970 on. */
  predicate Instant(t: Time) { -62_135_596_800_000_000 <= t < 253_402_300_800_000_000 }

  /** A text that the producer feeds to the digest. */
  ghost predicate Produced(c: Codec, x: string) {
    exists e, m: nat, k: nat, t :: RowId(m) && RowId(k) && x == DigestInput(e, TransitionId(c, m, k, t))
  }

  /** What is taken of the codec: digests are 64 visible characters and do not collide on the producer's
      own texts; isoformat tells instants apart and is a trimmed text of 1 to 32 characters. */
  ghost predicate Faithful(c: Codec) {
    && (forall x, y :: Produced(c, x) && Produced(c, y) && c.sha256(x) == c.sha256(y) ==> x == y)
    && (forall x :: |c.sha256(x)| == 64 && forall k :: 0 <= k < 64 ==> !IsSpace(c.sha256(x)[k]))
    && (forall t :: 1 <= |c.iso(t)| <= 32 && Trimmed(c.iso(t)))
    && (forall t, u :: Instant(t) && Instant(u) && c.iso(t) == c.iso(u) ==> t == u)
  }

  lemma IdDigits(n: nat)
    requires RowId(n)
    ensures |Decimal(n)| <= 19
  {
    assert Pow10(9) == 1_000_000_000;
    assert Pow10(19) == 10_000_000_000_000_000_000;
    DecimalLength(n, 19);
  }

  lemma TransitionIdFits(c: Codec, monitor: nat, check: nat, at: Time)
    requires Faithful(c) && RowId(monitor) && RowId(check)
    ensures RequiredText(TransitionId(c, monitor, check, at), MAX_TRANSITION_ID)
            == Ok(TransitionId(c, monitor, check, at))
  {
    IdDigits(monitor);
    IdDigits(check);
    var tid := TransitionId(c, monitor, check, at);
    assert |c.iso(at)| >= 1 && |c.iso(at)| <= 32 && Trimmed(c.iso(at));
    assert tid[0] == 'c' && tid[|tid| - 1] == c.iso(at)[|c.iso(at)| - 1];
  }

  lemma CommonHead(head: string, u: string, v: string)
    requires head + u == head + v
    ensures u == v
  {
    assert u == (head + u)[|head|..] && v == (head + v)[|head|..];
  }

  lemma DigestInputInjective(e1: EventType, tid1: string, e2: EventType, tid2: string)
    requires DigestInput(e1, tid1) == DigestInput(e2, tid2)
    ensures e1 == e2 && tid1 == tid2
  {
    CommonHead("goreecloud-monitor\0v1\0", EventName(e1) + ['\0'] + tid1, EventName(e2) + ['\0'] + tid2);
    SplitUnique(EventName(e1), EventName(e2), '\0', tid1, tid2);
    EventNamesDistinct(e1, e2);
  }

  lemma TransitionIdInjective(c: Codec, m1: nat, k1: nat, t1: Time, m2: nat, k2: nat, t2: Time)
    requires TransitionId(c, m1, k1, t1) == TransitionId(c, m2, k2, t2)
    ensures m1 == m2 && k1 == k2 && c.iso(t1) == c.iso(t2)
  {
    var u1, u2 := Decimal(k1) + [':'] + c.iso(t1), Decimal(k2) + [':'] + c.iso(t2);
    CommonHead("check-result:", Decimal(m1) + [':'] + u1, Decimal(m2) + [':'] + u2);
    SplitUnique(Decimal(m1), Decimal(m2), ':', u1, u2);
    SplitUnique(Decimal(k1), Decimal(k2), ':', c.iso(t1), c.iso(t2));
    DecimalInjective(m1, m2);
    DecimalInjective(k1, k2);
  }

  /** Different monitors, checks, instants or event types never share a replay key. */
  lemma KeysDistinct(c: Codec, e1: EventType, m1: nat, k1: nat, t1: Time, e2: EventType, m2: nat, k2: nat, t2: Time)
    requires Faithful(c) && RowId(m1) && RowId(k1) && RowId(m2) && RowId(k2)
    requires CreateKey(c, e1, TransitionId(c, m1, k1, t1)) == CreateKey(c, e2, TransitionId(c, m2, k2, t2))
    ensures e1 == e2 && m1 == m2 && k1 == k2
    ensures Instant(t1) && Instant(t2) ==> t1 == t2
  {
    TransitionIdFits(c, m1, k1, t1);
    TransitionIdFits(c, m2, k2, t2);
    var id1, id2 := TransitionId(c, m1, k1, t1), TransitionId(c, m2, k2, t2);
    assert Produced(c, DigestInput(e1, id1)) && Produced(c, DigestInput(e2, id2));
    CommonHead(KEY_PREFIX, c.sha256(DigestInput(e1, id1)), c.sha256(DigestInput(e2, id2)));
    DigestInputInjective(e1, id1, e2, id2);
    TransitionIdInjective(c, m1, k1, t1, m2, k2, t2);
  }

  lemma EventNamesDistinct(a: EventType, b: EventType)
    requires EventName(a) == EventName(b)
    ensures a == b
  {
    assert |EventName(a)| == |EventName(b)|;
  }

  // ---- Publish-time validation ------------------------------------------------------------------

  predicate MembersOk(p: Payload) {
    forall k :: k in p ==> RequiredText(p[k], MAX_PAYLOAD_BYTES).Ok?
  }

  /** Member k has been normalized. */
  predicate Normal(p: Payload, q: Payload, k: Member) {
    k in p && k in q && RequiredText(p[k], MAX_PAYLOAD_BYTES) == Ok(q[k])
  }

  lemma AllNormal(p: Payload, q: Payload)
    requires HasShape(p) && q.Keys <= p.Keys && forall j :: 0 <= j < |REQUIRED| ==> Normal(p, q, REQUIRED[j])
    ensures MembersOk(p) && q == Normalized(p)
  {
    hide Strip;
    assert Normal(p, q, REQUIRED[0]) && Normal(p, q, REQUIRED[1]) && Normal(p, q, REQUIRED[2])
           && Normal(p, q, REQUIRED[3]) && Normal(p, q, REQUIRED[4]);
    assert forall k :: k in p ==> Normal(p, q, k);
  }

  /** The loop over the sorted member names, filling the normalized object. */
  method NormalizeMembers(p: Payload) returns (r: Result<Payload>)
    requires HasShape(p)
    ensures r == if MembersOk(p) then Ok(Normalized(p)) else Raised
  {
    hide RequiredText, Strip;
    var normalized: Payload := map[];
    for i := 0 to |REQUIRED|
      invariant normalized.Keys <= p.Keys
      invariant forall j :: 0 <= j < i ==> Normal(p, normalized, REQUIRED[j])
    {
      var text := RequiredText(p[REQUIRED[i]], MAX_PAYLOAD_BYTES);
      if text.Raised? {
        assert REQUIRED[i] in p;
        return Raised;
      }
      normalized := normalized[REQUIRED[i] := text.value];
    }
    AllNormal(p, normalized);
    r := Ok(normalized);
  }

  /** _validate_notify_payload */
  method ValidatePayload(p: Payload) returns (r: Result<Payload>)
    ensures r == Validated(p)
  {
    if !HasShape(p) {
      return Raised;
    }
    r := NormalizeMembers(p);
    if r.Raised? {
      return Raised;
    }
    if r.value[Source] != SOURCE || r.value[Channel] != CHANNEL {
      return Raised;
    }
    if PayloadBytes(r.value) > MAX_PAYLOAD_BYTES {
      return Raised;
    }
  }

  function Normalized(p: Payload): (q: Payload)
    requires HasShape(p)
    ensures HasShape(q)
  {
    map k | k in p :: Strip(p[k])
  }

  /** The five-member shape, the fixed authority, no blank or oversized member, and the size bound. */
  function Validated(p: Payload): Result<Payload> {
    if HasShape(p)
       && MembersOk(p)
       && Strip(p[Source]) == SOURCE && Strip(p[Channel]) == CHANNEL
       && PayloadBytes(Normalized(p)) <= MAX_PAYLOAD_BYTES
    then Ok(Normalized(p))
    else Raised
  }

  // ---- The producer contract is total -------------------------------------------------------------

  /** What Monitor.name holds: 160 characters at most, not blank. */
  predicate NameOk(name: string) { |name| <= 160 && !Blank(name) }

  lemma PayloadSmall(display: string, t: Transition, message: string)
    requires |display| <= MAX_LABEL
    ensures PayloadBytes(MakePayload(display, t, message)) <= 3000
  {
    hide TitleOf, SeverityOf, Summary, EventTypeOf, MemberBytes;
    var p := MakePayload(display, t, message);
    assert |p[Body]| <= MAX_LABEL + 2 + 90;
    forall k | k in p ensures MemberBytes(k, p[k]) <= 6 * (8 + |p[k]|) + 5 {
      MemberSmall(k, p[k]);
    }
  }

  lemma MemberSmall(k: Member, value: string)
    requires !k.Other?
    ensures MemberBytes(k, value) <= 6 * (8 + |value|) + 5
  {
    hide JsonBytes;
    assert |MemberName(k)| <= 8;
  }

  lemma KeyIsTotal(c: Codec, e: EventType, monitor: nat, check: nat, at: Time)
    requires Faithful(c) && RowId(monitor) && RowId(check)
    ensures var key := CreateKey(c, e, TransitionId(c, monitor, check, at));
            key.Ok? && RequiredText(key.value, 80) == key && KEY_PREFIX <= key.value
  {
    hide DigestInput;
    TransitionIdFits(c, monitor, check, at);
    var digest := c.sha256(DigestInput(e, TransitionId(c, monitor, check, at)));
    assert |digest| == 64 && !IsSpace(digest[63]);
    var key := KEY_PREFIX + digest;
    assert key[0] == 'g' && key[|key| - 1] == digest[63];
  }

  lemma PayloadIsTotal(name: string, t: Transition, message: string)
    requires NameOk(name)
    ensures CreatePayload(name, t, message) == Ok((EventTypeOf(t, message), MakePayload(Strip(name), t, message)))
    ensures var payload := MakePayload(Strip(name), t, message);
            HasShape(payload) && PayloadBytes(payload) <= MAX_PAYLOAD_BYTES && Validated(payload) == Ok(payload)
  {
    hide TitleOf, SeverityOf, Summary, MakePayload, PayloadBytes;
    StripSpec(name);
    PayloadSmall(Strip(name), t, message);
    PayloadUnchanged(Strip(name), t, message);
    var summary := Summary(t, message);
    assert RequiredText(summary, MAX_SUMMARY) == Ok(summary);
    assert RequiredText(name, MAX_LABEL) == Ok(Strip(name));
  }

  /** For every non-blank name of at most 160 characters and every transition, building the payload
      and the key never raises; the stored payload fits; and publish-time validation accepts it and
      sends exactly the stored members under exactly the stored key. */
  lemma ProducerIsTotal(c: Codec, name: string, t: Transition, message: string, monitor: nat, check: nat, at: Time)
    requires Faithful(c) && NameOk(name) && RowId(monitor) && RowId(check)
    ensures CreatePayload(name, t, message).Ok?
    ensures var (e, payload) := CreatePayload(name, t, message).value;
            && HasShape(payload) && PayloadBytes(payload) <= MAX_PAYLOAD_BYTES
            && Validated(payload) == Ok(payload)
            && var key := CreateKey(c, e, TransitionId(c, monitor, check, at));
               key.Ok? && RequiredText(key.value, 80) == key && KEY_PREFIX <= key.value
  {
    hide CreatePayload, MakePayload, PayloadBytes, Validated, TransitionId, CreateKey, RequiredText;
    PayloadIsTotal(name, t, message);
    KeyIsTotal(c, EventTypeOf(t, message), monitor, check, at);
  }

  /** Stripping the members of a fresh payload changes none of them. */
  lemma PayloadUnchanged(display: string, t: Transition, message: string)
    requires |display| <= MAX_LABEL && display != "" && Trimmed(display)
    ensures var p := MakePayload(display, t, message);
            HasShape(p) && MembersOk(p) && Normalized(p) == p && p[Source] == SOURCE && p[Channel] == CHANNEL
  {
    hide TitleOf, SeverityOf, Summary, EventTypeOf;
    var p := MakePayload(display, t, message);
    var summary := Summary(t, message);
    assert p[Body][0] == display[0] && p[Body][|p[Body]| - 1] == summary[|summary| - 1];
    assert SOURCE[0] == 'g' && SOURCE[17] == 'r' && CHANNEL[0] == 'm' && CHANNEL[9] == 'g';
    forall k | k in p ensures Trimmed(p[k]) && p[k] != "" && |p[k]| <= 260 {
    }
  }
}
