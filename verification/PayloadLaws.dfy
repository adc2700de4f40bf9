/**
 What a notification says, how large its encoding is and which key it carries
 (src/monitoring/notifications.py), with every text and limit written out.
 */
module PayloadLaws {
  import opened Common
  import opened Text
  import opened Notify

  // ---- The members --------------------------------------------------------------------------------

  predicate IsPayload(p: Payload, severity: string, title: string, body: string) {
    p == map[Source := "goreecloud-monitor", Channel := "monitoring",
             Severity := severity, Title := title, Body := body]
  }

  const OUTAGE_TEXT := "Availability check failed. " + "Open GoreeCloud Monitor " + "for diagnostic details."
  const DEGRADED_TEXT := "Service is degraded. " + "Open GoreeCloud Monitor " + "for diagnostic details."

  lemma DownMade(display: string, message: string)
    ensures EventTypeOf(Down, message) == DownEvent
    ensures IsPayload(MakePayload(display, Down, message), "critical", "Monitor detected an outage",
                      display + ": " + OUTAGE_TEXT)
  {
    assert Summary(Down, message) == OUTAGE_TEXT;
  }

  lemma RecoveredMade(display: string, message: string)
    ensures EventTypeOf(Recovered, message) == RecoveredEvent
    ensures IsPayload(MakePayload(display, Recovered, message), "normal", "Monitor detected a recovery",
                      display + ": " + "Service availability recovered.")
  {
  }

  lemma DegradedMade(display: string, message: string)
    requires TlsDays(message) == None
    ensures EventTypeOf(Degraded, message) == DegradedEvent
    ensures IsPayload(MakePayload(display, Degraded, message), "warning", "Monitor detected degraded service",
                      display + ": " + DEGRADED_TEXT)
  {
    hide TlsDays;
    assert Summary(Degraded, message) == DEGRADED_TEXT;
  }

  lemma ExpiringMade(display: string, message: string, days: string)
    requires TlsDays(message) == Some(days)
    ensures EventTypeOf(Degraded, message) == TlsExpiring
    ensures IsPayload(MakePayload(display, Degraded, message), "warning", "Monitor certificate attention required",
                      display + ": " + ("TLS certificate expires in " + days + " day(s)" + "."))
  {
    hide TlsDays;
    assert Summary(Degraded, message) == "TLS certificate expires in " + days + " day(s)" + ".";
  }

  /** The payload of each transition: severity, title and summary are fixed, and behind the name the summary
      is the only text; a degraded service is reported as an expiring certificate exactly for the controlled
      message, with its day count. */
  lemma PayloadOfTransition(name: string, message: string)
    requires 1 <= |Strip(name)| <= 160
    ensures var p := CreatePayload(name, Down, message);
            p.Ok? && p.value.0 == DownEvent
            && IsPayload(p.value.1, "critical", "Monitor detected an outage", Strip(name) + ": " + OUTAGE_TEXT)
    ensures var p := CreatePayload(name, Recovered, message);
            p.Ok? && p.value.0 == RecoveredEvent
            && IsPayload(p.value.1, "normal", "Monitor detected a recovery",
                         Strip(name) + ": " + "Service availability recovered.")
    ensures var p := CreatePayload(name, Degraded, message);
            p.Ok?
            && match TlsDays(message)
               case None =>
                 p.value.0 == DegradedEvent
                 && IsPayload(p.value.1, "warning", "Monitor detected degraded service",
                              Strip(name) + ": " + DEGRADED_TEXT)
               case Some(days) =>
                 p.value.0 == TlsExpiring
                 && IsPayload(p.value.1, "warning", "Monitor certificate attention required",
                              Strip(name) + ": " + ("TLS certificate expires in " + days + " day(s)" + "."))
  {
    hide PayloadBytes, TlsDays, Strip, IsPayload, MakePayload, EventTypeOf, CreatePayload;
    PayloadBuilt(name, Down, message);
    PayloadBuilt(name, Recovered, message);
    PayloadBuilt(name, Degraded, message);
    DownMade(Strip(name), message);
    RecoveredMade(Strip(name), message);
    if TlsDays(message).None? {
      DegradedMade(Strip(name), message);
    } else {
      ExpiringMade(Strip(name), message, TlsDays(message).value);
    }
  }

  lemma PayloadBuilt(name: string, t: Transition, message: string)
    requires 1 <= |Strip(name)| <= 160
    ensures CreatePayload(name, t, message) == Ok((EventTypeOf(t, message), MakePayload(Strip(name), t, message)))
  {
    hide TitleOf, SeverityOf, Summary, MakePayload, PayloadBytes, Strip;
    PayloadSmall(Strip(name), t, message);
    SummaryAccepted(t, message);
  }

  lemma SummaryAccepted(t: Transition, message: string)
    ensures RequiredText(Summary(t, message), 500).Ok?
  {
    hide Summary;
    StripSpec(Summary(t, message));
  }

  /** A name that is blank or longer than 160 characters is refused. */
  lemma NameRefused(name: string, t: Transition, message: string)
    requires |Strip(name)| == 0 || |Strip(name)| > 160
    ensures CreatePayload(name, t, message) == Raised
  {
    hide Strip;
  }

  /** The controlled certificate warning, with its words. */
  lemma WarningRecognised(message: string, days: string)
    requires DayCount(days)
    ensures TlsDays(message) == Some(days) <==> Strip(message) == "TLS certificate expires in " + days + " day(s)"
  {
    hide TlsDays, Strip;
    TlsDaysExact(message, days);
  }

  // ---- The encoding -------------------------------------------------------------------------------

  function HexDigit(n: int): char
    requires 0 <= n < 16
  {
    "0123456789abcdef"[n]
  }

  /** A character as json.dumps(..., ensure_ascii=False) writes it. */
  function Escaped(c: char): string {
    var k := c as int;
    if c == '\"' then "\\\""
    else if c == '\\' then "\\\\"
    else if k == 8 then "\\b"
    else if k == 9 then "\\t"
    else if k == 10 then "\\n"
    else if k == 12 then "\\f"
    else if k == 13 then "\\r"
    else if k < 32 then "\\u00" + [HexDigit(k / 16), HexDigit(k % 16)]
    else [c]
  }

  function EscapedText(s: string): string {
    if s == "" then "" else EscapedText(s[..|s| - 1]) + Escaped(s[|s| - 1])
  }

  function Quoted(s: string): string { "\"" + EscapedText(s) + "\"" }

  function MemberText(name: string, value: string): string { Quoted(name) + ":" + Quoted(value) }

  /** The compact encoding of a payload. */
  function Encoded(p: Payload): string
    requires HasShape(p)
  {
    "{" + MemberText("source", p[Source]) + "," + MemberText("channel", p[Channel]) + ","
    + MemberText("title", p[Title]) + "," + MemberText("body", p[Body]) + ","
    + MemberText("severity", p[Severity]) + "}"
  }

  function Utf8Size(c: char): nat {
    var k := c as int;
    if k < 0x80 then 1 else if k < 0x800 then 2 else if k < 0x10000 then 3 else 4
  }

  /** len(s.encode()) */
  function Utf8Bytes(s: string): nat { if s == "" then 0 else Utf8Bytes(s[..|s| - 1]) + Utf8Size(s[|s| - 1]) }

  lemma {:induction false} Utf8Concat(a: string, b: string)
    ensures Utf8Bytes(a + b) == Utf8Bytes(a) + Utf8Bytes(b)
  {
    if b == "" {
      assert a + b == a;
    } else {
      assert (a + b)[..|a + b| - 1] == a + b[..|b| - 1];
      Utf8Concat(a, b[..|b| - 1]);
    }
  }

  lemma {:induction false} AsciiBytes(s: string)
    requires forall i :: 0 <= i < |s| ==> s[i] as int < 0x80
    ensures Utf8Bytes(s) == |s|
  {
    if s != "" {
      AsciiBytes(s[..|s| - 1]);
    }
  }

  lemma EscapedBytes(c: char)
    ensures Utf8Bytes(Escaped(c)) == JsonCharBytes(c)
  {
    if |Escaped(c)| > 1 {
      AsciiBytes(Escaped(c));
    } else {
      assert Escaped(c)[..0] == "";
    }
  }

  lemma {:induction false} TextBytes(s: string)
    ensures Utf8Bytes(EscapedText(s)) == JsonBytes(s)
  {
    if s != "" {
      hide Escaped, JsonCharBytes;
      TextBytes(s[..|s| - 1]);
      EscapedBytes(s[|s| - 1]);
      Utf8Concat(EscapedText(s[..|s| - 1]), Escaped(s[|s| - 1]));
    }
  }

  lemma QuotedBytes(s: string)
    ensures Utf8Bytes(Quoted(s)) == JsonBytes(s) + 2
  {
    hide EscapedText, JsonBytes, Utf8Bytes;
    TextBytes(s);
    AsciiBytes("\"");
    Utf8Concat("\"", EscapedText(s));
    Utf8Concat("\"" + EscapedText(s), "\"");
  }

  lemma MemberTextBytes(k: Member, value: string)
    ensures Utf8Bytes(MemberText(MemberName(k), value)) == MemberBytes(k, value)
  {
    hide Quoted, JsonBytes, Utf8Bytes;
    QuotedBytes(MemberName(k));
    QuotedBytes(value);
    AsciiBytes(":");
    Utf8Concat(Quoted(MemberName(k)), ":");
    Utf8Concat(Quoted(MemberName(k)) + ":", Quoted(value));
  }

  /** The size that producer and publisher bound is the number of UTF-8 bytes of the compact encoding. */
  lemma PayloadBytesIsEncoding(p: Payload)
    requires HasShape(p)
    ensures PayloadBytes(p) == Utf8Bytes(Encoded(p))
  {
    hide MemberText, MemberBytes, Utf8Bytes;
    MemberTextBytes(Source, p[Source]);
    MemberTextBytes(Channel, p[Channel]);
    MemberTextBytes(Title, p[Title]);
    MemberTextBytes(Body, p[Body]);
    MemberTextBytes(Severity, p[Severity]);
    FiveBytes(MemberText("source", p[Source]), MemberText("channel", p[Channel]), MemberText("title", p[Title]),
              MemberText("body", p[Body]), MemberText("severity", p[Severity]));
  }

  lemma FiveBytes(a: string, b: string, c: string, d: string, e: string)
    ensures Utf8Bytes("{" + a + "," + b + "," + c + "," + d + "," + e + "}")
            == Utf8Bytes(a) + Utf8Bytes(b) + Utf8Bytes(c) + Utf8Bytes(d) + Utf8Bytes(e) + 6
  {
    AsciiBytes("{");
    AsciiBytes(",");
    AsciiBytes("}");
    hide Utf8Bytes;
    var s1 := "{" + a;
    var s2 := s1 + "," + b;
    var s3 := s2 + "," + c;
    var s4 := s3 + "," + d;
    var s5 := s4 + "," + e;
    Utf8Concat("{", a);
    Utf8Concat(s1, ",");
    Utf8Concat(s1 + ",", b);
    Utf8Concat(s2, ",");
    Utf8Concat(s2 + ",", c);
    Utf8Concat(s3, ",");
    Utf8Concat(s3 + ",", d);
    Utf8Concat(s4, ",");
    Utf8Concat(s4 + ",", e);
    Utf8Concat(s5, "}");
  }

  /** Publish-time validation accepts exactly the five members, none blank or over 8192 characters once
      stripped, from the one source and channel, in 8192 bytes; and returns them stripped. */
  lemma ValidatedExactly(p: Payload)
    ensures Validated(p).Ok? <==>
              && p.Keys == {Source, Channel, Title, Body, Severity}
              && (forall k :: k in p ==> 1 <= |Strip(p[k])| <= 8192)
              && Strip(p[Source]) == "goreecloud-monitor" && Strip(p[Channel]) == "monitoring"
              && Utf8Bytes(Encoded(map k | k in p :: Strip(p[k]))) <= 8192
    ensures Validated(p).Ok? ==> Validated(p).value == map k | k in p :: Strip(p[k])
  {
    hide Strip, PayloadBytes, Encoded, Utf8Bytes;
    if HasShape(p) {
      PayloadBytesIsEncoding(Normalized(p));
    }
  }

  // ---- The key ------------------------------------------------------------------------------------

  /** The key of a check's transition: the versioned prefix and the digest of source, version, event type and
      the identity of the check, apart by zero characters. */
  lemma KeyOfTransition(c: Codec, monitor: nat, check: nat, at: Time)
    requires Faithful(c) && RowId(monitor) && RowId(check)
    ensures var id := "check-result:" + (Decimal(monitor) + [':'] + (Decimal(check) + [':'] + c.iso(at)));
            var head := "goreecloud-monitor\0v1\0";
            && TransitionId(c, monitor, check, at) == id
            && CreateKey(c, DownEvent, id) == Ok("gcm-v1-" + c.sha256(head + ("DOWN" + ['\0'] + id)))
            && CreateKey(c, RecoveredEvent, id) == Ok("gcm-v1-" + c.sha256(head + ("RECOVERED" + ['\0'] + id)))
            && CreateKey(c, DegradedEvent, id) == Ok("gcm-v1-" + c.sha256(head + ("DEGRADED" + ['\0'] + id)))
            && CreateKey(c, TlsExpiring, id) == Ok("gcm-v1-" + c.sha256(head + ("TLS_EXPIRING" + ['\0'] + id)))
  {
    hide Faithful, RequiredText;
    TransitionIdFits(c, monitor, check, at);
  }
}
